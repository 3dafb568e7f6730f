/** Small shared vocabulary: optional values, outcomes that model a raised
    Python exception, order-preserving subsequences, filtering, and the
    "later entry wins" dictionary build that several loaders perform. */
module Basics {

  /** Python's `None` versus a present value. */
  datatype Option<+T> = None | Some(value: T) {
    function GetOr(default: T): T {
      match this
      case Some(v) => v
      case None => default
    }
  }

  /** Either the value a Python routine returns, or the fact that it raises
      (an `AttributeError` or `IndexError` the source does not guard). */
  datatype Outcome<+T> = Ok(value: T) | Crash(reason: string)

  /** `a` is `b` with some elements removed, the rest kept in order. */
  predicate IsSubseq<T(==)>(a: seq<T>, b: seq<T>)
    decreases |b|
  {
    if |a| == 0 then true
    else if |b| == 0 then false
    else (a[0] == b[0] && IsSubseq(a[1..], b[1..])) || IsSubseq(a, b[1..])
  }

  lemma {:induction false} SubseqRefl<T>(a: seq<T>)
    ensures IsSubseq(a, a)
    decreases |a|
  {
    if |a| > 0 {
      SubseqRefl(a[1..]);
    }
  }

  lemma {:induction false} SubseqMembers<T>(a: seq<T>, b: seq<T>)
    requires IsSubseq(a, b)
    ensures forall x :: x in a ==> x in b
    decreases |b|
  {
    if |a| > 0 && |b| > 0 {
      if a[0] == b[0] && IsSubseq(a[1..], b[1..]) {
        SubseqMembers(a[1..], b[1..]);
        forall x | x in a ensures x in b {
          if x != a[0] {
            assert x in a[1..];
          }
        }
      } else {
        SubseqMembers(a, b[1..]);
      }
    }
  }

  /** Subsequences concatenate: the property every pre-order collector
      below relies on. */
  lemma {:induction false} SubseqConcat<T>(a1: seq<T>, b1: seq<T>, a2: seq<T>, b2: seq<T>)
    requires IsSubseq(a1, b1) && IsSubseq(a2, b2)
    ensures IsSubseq(a1 + a2, b1 + b2)
    decreases |b1|
  {
    if |b1| == 0 {
      assert a1 == [];
      assert a1 + a2 == a2 && b1 + b2 == b2;
    } else if |a1| == 0 {
      SubseqConcat(a1, b1[1..], a2, b2);
      assert (b1 + b2)[1..] == b1[1..] + b2;
      assert a1 + a2 == a2;
      if |a2| > 0 {
        assert IsSubseq(a2, (b1 + b2)[1..]);
      }
    } else if a1[0] == b1[0] && IsSubseq(a1[1..], b1[1..]) {
      SubseqConcat(a1[1..], b1[1..], a2, b2);
      assert (a1 + a2)[1..] == a1[1..] + a2;
      assert (b1 + b2)[1..] == b1[1..] + b2;
    } else {
      SubseqConcat(a1, b1[1..], a2, b2);
      assert (b1 + b2)[1..] == b1[1..] + b2;
    }
  }

  /** The list comprehension `[x for x in s if p(x)]`. */
  function Filter<T(==,!new)>(s: seq<T>, p: T -> bool): (r: seq<T>)
    ensures forall i :: 0 <= i < |r| ==> p(r[i])
    ensures IsSubseq(r, s)
    decreases |s|
  {
    if |s| == 0 then []
    else
      var rest := Filter(s[1..], p);
      assert s == [s[0]] + s[1..];
      if p(s[0]) then
        assert [s[0]] + rest == (if p(s[0]) then [s[0]] else []) + rest;
        [s[0]] + rest
      else
        rest
  }

  /** The elements a filter keeps are exactly the passing elements of its
      input. */
  lemma {:induction false} FilterMembers<T(!new)>(s: seq<T>, p: T -> bool)
    ensures forall x :: x in Filter(s, p) <==> x in s && p(x)
    decreases |s|
  {
    if |s| > 0 {
      FilterMembers(s[1..], p);
      FilterMembersStep(s, p);
    }
  }

  /** The inductive step of `FilterMembers`. */
  lemma FilterMembersStep<T(!new)>(s: seq<T>, p: T -> bool)
    requires |s| > 0
    requires forall x :: x in Filter(s[1..], p) <==> x in s[1..] && p(x)
    ensures forall x :: x in Filter(s, p) <==> x in s && p(x)
  {
    FilterCons(s, p);
    HeadTail(s);
  }

  /** Filtering keeps every passing element as often as it occurs and
      drops every other one. */
  lemma {:induction false} FilterCounts<T(!new)>(s: seq<T>, p: T -> bool)
    ensures forall x :: multiset(Filter(s, p))[x] == if p(x) then multiset(s)[x] else 0
    decreases |s|
  {
    if |s| > 0 {
      FilterCounts(s[1..], p);
      FilterCountsStep(s, p);
    }
  }

  /** The inductive step of `FilterCounts`. */
  lemma FilterCountsStep<T(!new)>(s: seq<T>, p: T -> bool)
    requires |s| > 0
    requires forall x :: multiset(Filter(s[1..], p))[x] == if p(x) then multiset(s[1..])[x] else 0
    ensures forall x :: multiset(Filter(s, p))[x] == if p(x) then multiset(s)[x] else 0
  {
    FilterCons(s, p);
    HeadTail(s);
  }

  /** A non-empty sequence is its head followed by its tail. */
  lemma HeadTail<T>(s: seq<T>)
    requires |s| > 0
    ensures s == [s[0]] + s[1..]
    ensures multiset(s) == multiset{s[0]} + multiset(s[1..])
  {
    assert s == [s[0]] + s[1..];
  }

  /** A filter every element passes returns its input. */
  lemma {:induction false} FilterKeepsAll<T(!new)>(s: seq<T>, p: T -> bool)
    requires forall i :: 0 <= i < |s| ==> p(s[i])
    ensures Filter(s, p) == s
    decreases |s|
  {
    if |s| > 0 {
      FilterKeepsAll(s[1..], p);
      assert [s[0]] + s[1..] == s;
    }
  }

  /** Filtering a non-empty sequence: the head if it passes, then the
      filtered tail. */
  lemma FilterCons<T(!new)>(s: seq<T>, p: T -> bool)
    requires |s| > 0
    ensures Filter(s, p) == (if p(s[0]) then [s[0]] else []) + Filter(s[1..], p)
  {
  }

  /** A filter that rejects only the head returns the tail. */
  lemma FilterDropsHead<T(!new)>(s: seq<T>, p: T -> bool)
    requires |s| > 0 && !p(s[0])
    requires forall i :: 1 <= i < |s| ==> p(s[i])
    ensures Filter(s, p) == s[1..]
  {
    FilterCons(s, p);
    assert forall i :: 0 <= i < |s[1..]| ==> s[1..][i] == s[i + 1];
    FilterKeepsAll(s[1..], p);
  }

  /** Filtering distributes over appending one element: the shape of a loop
      that appends each passing element in turn. */
  lemma {:induction false} FilterSnoc<T(!new)>(s: seq<T>, x: T, p: T -> bool)
    ensures Filter(s + [x], p) == Filter(s, p) + (if p(x) then [x] else [])
    decreases |s|
  {
    if |s| > 0 {
      FilterSnoc(s[1..], x, p);
      FilterSnocStep(s, x, p);
    } else {
      assert s + [x] == [x];
      FilterCons([x], p);
    }
  }

  /** The inductive step of `FilterSnoc`. */
  lemma FilterSnocStep<T(!new)>(s: seq<T>, x: T, p: T -> bool)
    requires |s| > 0
    requires Filter(s[1..] + [x], p) == Filter(s[1..], p) + (if p(x) then [x] else [])
    ensures Filter(s + [x], p) == Filter(s, p) + (if p(x) then [x] else [])
  {
    var last := if p(x) then [x] else [];
    var head := if p(s[0]) then [s[0]] else [];
    FilterConsSnoc(s, x, p);
    FilterCons(s, p);
    Regroup(Filter(s + [x], p), head, Filter(s[1..], p), last, Filter(s, p));
  }

  lemma FilterConsSnoc<T(!new)>(s: seq<T>, x: T, p: T -> bool)
    requires |s| > 0
    ensures Filter(s + [x], p) == (if p(s[0]) then [s[0]] else []) + Filter(s[1..] + [x], p)
  {
    SnocTail(s, x);
    FilterCons(s + [x], p);
  }

  /** Appending at the end leaves the head and moves the tail along. */
  lemma SnocTail<T>(s: seq<T>, x: T)
    requires |s| > 0
    ensures (s + [x])[0] == s[0] && (s + [x])[1..] == s[1..] + [x]
  {
  }

  /** `h + (m + l)` is `(h + m) + l`, named. */
  lemma Regroup<T>(a: seq<T>, h: seq<T>, m: seq<T>, l: seq<T>, b: seq<T>)
    requires a == h + (m + l) && b == h + m
    ensures a == b + l
  {
  }

  /** The index of the first element passing `p`, or `|s|` when none does. */
  function FirstWhere<T>(s: seq<T>, p: T -> bool): (k: nat)
    ensures k <= |s|
    ensures forall i :: 0 <= i < k ==> !p(s[i])
    ensures k < |s| ==> p(s[k])
    decreases |s|
  {
    if |s| == 0 || p(s[0]) then 0
    else
      var k := FirstWhere(s[1..], p);
      assert forall i :: 1 <= i < k + 1 ==> s[i] == s[1..][i - 1];
      k + 1
  }

  /** `[g(x) for x in s if ...]`: the elements `f` maps to a value, mapped,
      in input order. */
  function FilterMap<T, U(!new)>(s: seq<T>, f: T -> Option<U>): (r: seq<U>)
    ensures |r| <= |s|
    ensures forall u :: u in r <==> exists i :: 0 <= i < |s| && f(s[i]) == Some(u)
    decreases |s|
  {
    if |s| == 0 then []
    else
      var rest := FilterMap(s[1..], f);
      assert forall i :: 0 <= i < |s| - 1 ==> s[1..][i] == s[i + 1];
      assert forall i :: 1 <= i < |s| ==> s[i] == s[1..][i - 1];
      match f(s[0])
      case Some(u) => [u] + rest
      case None => rest
  }

  /** Filtering a concatenation filters each part: nothing is reordered
      and nothing is merged. */
  lemma {:induction false} FilterMapAppend<T, U(!new)>(a: seq<T>, b: seq<T>, f: T -> Option<U>)
    ensures FilterMap(a + b, f) == FilterMap(a, f) + FilterMap(b, f)
    decreases |a|
  {
    if |a| > 0 {
      assert (a + b)[0] == a[0];
      assert (a + b)[1..] == a[1..] + b;
      FilterMapAppend(a[1..], b, f);
      var head := if f(a[0]).Some? then [f(a[0]).value] else [];
      assert FilterMap(a + b, f) == head + FilterMap(a[1..] + b, f);
      assert FilterMap(a, f) == head + FilterMap(a[1..], f);
    } else {
      assert a + b == b;
    }
  }

  /** When `f` maps every element, nothing is dropped: element `i` of the
      result is the value of element `i`. */
  lemma {:induction false} FilterMapAll<T, U(!new)>(s: seq<T>, f: T -> Option<U>)
    requires forall i :: 0 <= i < |s| ==> f(s[i]).Some?
    ensures |FilterMap(s, f)| == |s|
    ensures forall i :: 0 <= i < |s| ==> Some(FilterMap(s, f)[i]) == f(s[i])
    decreases |s|
  {
    if |s| > 0 {
      assert forall i :: 0 <= i < |s| - 1 ==> s[1..][i] == s[i + 1];
      FilterMapAll(s[1..], f);
    }
  }

  /** Building a dictionary by iterating `s` and assigning
      `d[key(e)] = val(e)` for every element whose key is present. */
  function LastWins<T, K, V>(s: seq<T>, key: T -> Option<K>, val: T -> V): map<K, V>
    decreases |s|
  {
    if |s| == 0 then map[]
    else
      var m := LastWins(s[..|s| - 1], key, val);
      match key(s[|s| - 1])
      case None => m
      case Some(k) => m[k := val(s[|s| - 1])]
  }

  /** Every present key is in the dictionary, and it is mapped to the value
      of the LAST element carrying it. */
  lemma {:induction false} LastWinsSpec<T, K(!new), V>(s: seq<T>, key: T -> Option<K>, val: T -> V)
    ensures forall k :: k in LastWins(s, key, val) <==> exists i :: 0 <= i < |s| && key(s[i]) == Some(k)
    ensures forall k :: k in LastWins(s, key, val) ==>
              exists i :: 0 <= i < |s| && key(s[i]) == Some(k) && LastWins(s, key, val)[k] == val(s[i])
                          && forall j :: i < j < |s| ==> key(s[j]) != Some(k)
    decreases |s|
  {
    if |s| > 0 {
      LastWinsSpec(s[..|s| - 1], key, val);
      LastWinsKeysStep(s, key, val);
      LastWinsValuesStep(s, key, val);
    }
  }

  /** The key half of the inductive step of `LastWinsSpec`. */
  lemma LastWinsKeysStep<T, K(!new), V>(s: seq<T>, key: T -> Option<K>, val: T -> V)
    requires |s| > 0
    requires var init := s[..|s| - 1];
             forall k :: k in LastWins(init, key, val) <==> exists i :: 0 <= i < |init| && key(init[i]) == Some(k)
    ensures forall k :: k in LastWins(s, key, val) <==> exists i :: 0 <= i < |s| && key(s[i]) == Some(k)
  {
    var init := s[..|s| - 1];
    var last := |s| - 1;
    var m := LastWins(init, key, val);
    var m' := LastWins(s, key, val);
    assert forall i :: 0 <= i < |init| ==> init[i] == s[i];
    forall k
      ensures k in m' <==> exists i :: 0 <= i < |s| && key(s[i]) == Some(k)
    {
      if k in m' && key(s[last]) != Some(k) {
        assert k in m;
        var i :| 0 <= i < |init| && key(init[i]) == Some(k);
        assert key(s[i]) == Some(k);
      }
      if exists i :: 0 <= i < |s| && key(s[i]) == Some(k) {
        var i :| 0 <= i < |s| && key(s[i]) == Some(k);
        if i < last {
          assert key(init[i]) == Some(k);
        }
      }
    }
  }

  /** The value half of the inductive step of `LastWinsSpec`. */
  lemma LastWinsValuesStep<T, K(!new), V>(s: seq<T>, key: T -> Option<K>, val: T -> V)
    requires |s| > 0
    requires var init := s[..|s| - 1];
             forall k :: k in LastWins(init, key, val) ==>
               exists i :: 0 <= i < |init| && key(init[i]) == Some(k) && LastWins(init, key, val)[k] == val(init[i])
                           && forall j :: i < j < |init| ==> key(init[j]) != Some(k)
    ensures forall k :: k in LastWins(s, key, val) ==>
              exists i :: 0 <= i < |s| && key(s[i]) == Some(k) && LastWins(s, key, val)[k] == val(s[i])
                          && forall j :: i < j < |s| ==> key(s[j]) != Some(k)
  {
    var init := s[..|s| - 1];
    var last := |s| - 1;
    var m := LastWins(init, key, val);
    var m' := LastWins(s, key, val);
    assert forall i :: 0 <= i < |init| ==> init[i] == s[i];
    forall k | k in m'
      ensures exists i :: 0 <= i < |s| && key(s[i]) == Some(k) && m'[k] == val(s[i])
                          && forall j :: i < j < |s| ==> key(s[j]) != Some(k)
    {
      if key(s[last]) == Some(k) {
        assert m'[k] == val(s[last]);
      } else {
        assert k in m;
        var i :| 0 <= i < |init| && key(init[i]) == Some(k) && m[k] == val(init[i])
                 && forall j :: i < j < |init| ==> key(init[j]) != Some(k);
        assert key(s[i]) == Some(k) && m'[k] == val(s[i]);
        forall j | i < j < |s| ensures key(s[j]) != Some(k) {
          if j < last {
            assert key(init[j]) != Some(k);
          }
        }
      }
    }
  }
}
