/** `compare_jsonl`: two JSON-lines files of proof records are read into
    maps from `(module, full_name)` to the record's `tactic_proof`, and the
    keys are split into those only in the first file, only in the second,
    in both with equal proofs, and in both with different proofs; each
    part is written out in sorted key order. */
module Comparison {
  import opened Basics
  import opened Text
  import opened Json
  import opened Sorting

  /** The key `(module, full_name)` of a record. */
  datatype Key = Key(moduleName: string, fullName: string)

  /** What a record carries: its key fields and its `tactic_proof`, if any. */
  datatype Item = Item(moduleName: string, fullName: string, tacticProof: Option<Json>)

  /** A line of a JSON-lines file: its text and the record it parses to. */
  datatype Line = Line(text: string, item: Item)

  /** A written record. */
  datatype OutRecord = OutRecord(key: Key, tacticProof: Json)

  // ---------------------------------------------------------------------
  // Loading

  /** `not line.strip()`. */
  predicate Blank(l: Line) {
    Strip(l.text) == ""
  }

  /** The key a line contributes: none for a blank line. */
  function KeyOf(l: Line): (r: Option<Key>)
    ensures r.None? <==> Blank(l)
  {
    if Blank(l) then None else Some(Key(l.item.moduleName, l.item.fullName))
  }

  /** `item.get('tactic_proof', '')`. */
  function ProofOf(l: Line): Json {
    l.item.tacticProof.GetOr(JStr(""))
  }

  /** `load_data`: every non-blank line's key, mapped to the proof of the
      last line carrying that key. */
  function LoadData(lines: seq<Line>): (r: map<Key, Json>)
    ensures forall k :: k in r <==> exists i :: 0 <= i < |lines| && KeyOf(lines[i]) == Some(k)
    ensures forall k :: k in r ==>
              exists i :: 0 <= i < |lines| && KeyOf(lines[i]) == Some(k) && r[k] == ProofOf(lines[i])
                          && forall j :: i < j < |lines| ==> KeyOf(lines[j]) != Some(k)
  {
    var r := LastWins(lines, KeyOf, ProofOf);
    LastWinsSpec(lines, KeyOf, ProofOf);
    // Links the direct calls above to the function value passed along.
    assert forall i :: 0 <= i < |lines| ==> KeyOf(lines[i]) == (KeyOf)(lines[i]);
    r
  }

  /** A record without `tactic_proof` is loaded with the empty string. */
  lemma MissingProofIsEmpty(l: Line)
    requires !Blank(l) && l.item.tacticProof.None?
    ensures LoadData([l]) == map[Key(l.item.moduleName, l.item.fullName) := JStr("")]
  {
    var k := Key(l.item.moduleName, l.item.fullName);
    assert [l][..0] == [];
    assert LastWins([l][..0], KeyOf, ProofOf) == map[];
    assert KeyOf(l) == Some(k) && ProofOf(l) == JStr("");
    calc {
      LoadData([l]);
      LastWins([l], KeyOf, ProofOf);
      map[][k := JStr("")];
    }
  }

  // ---------------------------------------------------------------------
  // Key order

  /** Python's `<` on strings: lexicographic by code point, a proper prefix
      first. */
  predicate StrLt(a: string, b: string)
    decreases |a|
  {
    |b| > 0 && (|a| == 0 || a[0] < b[0] || (a[0] == b[0] && StrLt(a[1..], b[1..])))
  }

  lemma {:induction false} StrLtIrreflexive(a: string)
    ensures !StrLt(a, a)
    decreases |a|
  {
    if |a| > 0 {
      StrLtIrreflexive(a[1..]);
    }
  }

  lemma {:induction false} StrLtTransitive(a: string, b: string, c: string)
    requires StrLt(a, b) && StrLt(b, c)
    ensures StrLt(a, c)
    decreases |a|
  {
    if |a| > 0 && a[0] == b[0] && b[0] == c[0] {
      StrLtTransitive(a[1..], b[1..], c[1..]);
    }
  }

  lemma {:induction false} StrLtTrichotomy(a: string, b: string)
    ensures a == b || StrLt(a, b) || StrLt(b, a)
    decreases |a|
  {
    if |a| > 0 && |b| > 0 && a[0] == b[0] {
      StrLtTrichotomy(a[1..], b[1..]);
      if a[1..] == b[1..] {
        assert a == [a[0]] + a[1..] && b == [b[0]] + b[1..];
      }
    }
  }

  /** Python's `<=` on `(module, full_name)` tuples. */
  predicate KeyLe(a: Key, b: Key) {
    StrLt(a.moduleName, b.moduleName) || (a.moduleName == b.moduleName && (a.fullName == b.fullName || StrLt(a.fullName, b.fullName)))
  }

  /** The tuple order is total, transitive and antisymmetric. */
  lemma KeyLeOrder()
    ensures TotalPreorder(KeyLe)
    ensures forall a, b :: KeyLe(a, b) && KeyLe(b, a) ==> a == b
  {
    forall a: Key, b: Key ensures KeyLe(a, b) || KeyLe(b, a) {
      StrLtTrichotomy(a.moduleName, b.moduleName);
      StrLtTrichotomy(a.fullName, b.fullName);
    }
    forall a: Key, b: Key, c: Key | KeyLe(a, b) && KeyLe(b, c) ensures KeyLe(a, c) {
      if StrLt(a.moduleName, b.moduleName) && StrLt(b.moduleName, c.moduleName) {
        StrLtTransitive(a.moduleName, b.moduleName, c.moduleName);
      }
      if a.moduleName == b.moduleName && b.moduleName == c.moduleName && StrLt(a.fullName, b.fullName) && StrLt(b.fullName, c.fullName) {
        StrLtTransitive(a.fullName, b.fullName, c.fullName);
      }
    }
    forall a: Key, b: Key | KeyLe(a, b) && KeyLe(b, a) ensures a == b {
      StrLtIrreflexive(a.moduleName);
      StrLtIrreflexive(a.fullName);
      if StrLt(a.moduleName, b.moduleName) && StrLt(b.moduleName, a.moduleName) {
        StrLtTransitive(a.moduleName, b.moduleName, a.moduleName);
      }
      if a.moduleName == b.moduleName && StrLt(a.fullName, b.fullName) && StrLt(b.fullName, a.fullName) {
        StrLtTransitive(a.fullName, b.fullName, a.fullName);
      }
    }
  }

  // ---------------------------------------------------------------------
  // Splitting the keys

  /** Iterating a set in some order: each element once. */
  method SetToSeq(s: set<Key>) returns (r: seq<Key>)
    ensures forall k :: k in r <==> k in s
    ensures forall i, j :: 0 <= i < j < |r| ==> r[i] != r[j]
  {
    r := [];
    var rest := s;
    while rest != {}
      invariant rest <= s
      invariant forall k :: k in r <==> k in s && k !in rest
      invariant forall i, j :: 0 <= i < j < |r| ==> r[i] != r[j]
      decreases |rest|
    {
      assert (forall y :: y !in rest) ==> rest == {};
      var k :| k in rest;
      r := r + [k];
      rest := rest - {k};
    }
  }

  /** The loop over the common keys: a key goes to `same` when both files
      map it to equal proofs, to `diff` otherwise. */
  method SplitCommon(common: set<Key>, m1: map<Key, Json>, m2: map<Key, Json>) returns (same: seq<Key>, diff: seq<Key>)
    requires common <= m1.Keys && common <= m2.Keys
    ensures forall k :: k in same <==> k in common && m1[k] == m2[k]
    ensures forall k :: k in diff <==> k in common && m1[k] != m2[k]
    ensures forall i, j :: 0 <= i < j < |same| ==> same[i] != same[j]
    ensures forall i, j :: 0 <= i < j < |diff| ==> diff[i] != diff[j]
  {
    var keys := SetToSeq(common);
    same, diff := [], [];
    for n := 0 to |keys|
      invariant forall k :: k in same <==> k in keys[..n] && m1[k] == m2[k]
      invariant forall k :: k in diff <==> k in keys[..n] && m1[k] != m2[k]
      invariant forall i, j :: 0 <= i < j < |same| ==> same[i] != same[j]
      invariant forall i, j :: 0 <= i < j < |diff| ==> diff[i] != diff[j]
    {
      var k := keys[n];
      assert keys[..n + 1] == keys[..n] + [k];
      assert k !in keys[..n];
      if m1[k] == m2[k] {
        same := same + [k];
      } else {
        diff := diff + [k];
      }
    }
    assert keys[..|keys|] == keys;
  }

  // ---------------------------------------------------------------------
  // Writing

  /** `write_output`: one record per key, in sorted key order, with the
      proof taken from `source`. */
  function WriteOutput(keys: seq<Key>, source: map<Key, Json>): (out: seq<OutRecord>)
    requires forall k :: k in keys ==> k in source
    ensures |out| == |keys|
    ensures multiset(KeysOf(out)) == multiset(keys)
    ensures forall i :: 0 <= i < |out| ==> out[i].key in source && out[i].tacticProof == source[out[i].key]
    ensures forall i, j :: 0 <= i < j < |out| ==> KeyLe(out[i].key, out[j].key)
  {
    KeyLeOrder();
    SortSorted(keys, KeyLe);
    var sorted := Sort(keys, KeyLe);
    assert forall i :: 0 <= i < |sorted| ==> sorted[i] in multiset(keys);
    var out := seq(|sorted|, i requires 0 <= i < |sorted| => OutRecord(sorted[i], source[sorted[i]]));
    assert KeysOf(out) == sorted;
    out
  }

  function KeysOf(out: seq<OutRecord>): (r: seq<Key>)
    ensures |r| == |out| && forall i :: 0 <= i < |out| ==> r[i] == out[i].key
  {
    seq(|out|, i requires 0 <= i < |out| => out[i].key)
  }

  /** Distinct keys come out strictly increasing, so no record is written
      twice. */
  lemma {:induction false} WrittenOnce(keys: seq<Key>, source: map<Key, Json>)
    requires forall k :: k in keys ==> k in source
    requires forall i, j :: 0 <= i < j < |keys| ==> keys[i] != keys[j]
    ensures var out := WriteOutput(keys, source);
            forall i, j :: 0 <= i < j < |out| ==> out[i].key != out[j].key
  {
    var out := WriteOutput(keys, source);
    var ks := KeysOf(out);
    forall i, j | 0 <= i < j < |out| ensures out[i].key != out[j].key {
      RepeatCountsTwice(ks, i, j);
      SeqDistinctCount(keys, ks[i]);
    }
  }

  /** An element found at two positions occurs at least twice. */
  lemma RepeatCountsTwice<T>(s: seq<T>, i: nat, j: nat)
    requires i < j < |s|
    ensures s[i] == s[j] ==> multiset(s)[s[i]] >= 2
  {
    if s[i] == s[j] {
      assert s == s[..i] + [s[i]] + s[i + 1..j] + [s[j]] + s[j + 1..];
    }
  }

  /** A key occurs once in a list without repeats that holds it. */
  lemma {:induction false} SeqDistinctCount(s: seq<Key>, k: Key)
    requires forall i, j :: 0 <= i < j < |s| ==> s[i] != s[j]
    ensures multiset(s)[k] == if k in s then 1 else 0
    decreases |s|
  {
    if |s| > 0 {
      assert s == [s[0]] + s[1..];
      SeqDistinctCount(s[1..], k);
      if s[0] == k {
        assert k !in s[1..];
      }
    }
  }

  // ---------------------------------------------------------------------
  // The whole comparison

  /** The four files `compare_jsonl` writes. */
  datatype Report = Report(onlyIn1: seq<OutRecord>, onlyIn2: seq<OutRecord>, same: seq<OutRecord>, different: seq<OutRecord>)

  /** `compare_jsonl`: the keys of the two loaded maps fall into exactly one
      of the four parts; the first-file-only and same parts carry the first
      file's proofs, the others the second file's; each part is in key
      order. */
  method CompareJsonl(lines1: seq<Line>, lines2: seq<Line>) returns (r: Report)
    ensures var m1, m2 := LoadData(lines1), LoadData(lines2);
            (forall k :: k in KeysOf(r.onlyIn1) <==> k in m1 && k !in m2)
            && (forall k :: k in KeysOf(r.onlyIn2) <==> k in m2 && k !in m1)
            && (forall k :: k in KeysOf(r.same) <==> k in m1 && k in m2 && m1[k] == m2[k])
            && (forall k :: k in KeysOf(r.different) <==> k in m1 && k in m2 && m1[k] != m2[k])
    ensures var m1, m2 := LoadData(lines1), LoadData(lines2);
            (forall o :: o in r.onlyIn1 ==> o.key in m1 && o.tacticProof == m1[o.key])
            && (forall o :: o in r.onlyIn2 ==> o.key in m2 && o.tacticProof == m2[o.key])
            && (forall o :: o in r.same ==> o.key in m1 && o.tacticProof == m1[o.key])
            && (forall o :: o in r.different ==> o.key in m2 && o.tacticProof == m2[o.key])
    ensures var m1, m2 := LoadData(lines1), LoadData(lines2);
            forall k :: multiset(KeysOf(r.onlyIn1) + KeysOf(r.onlyIn2) + KeysOf(r.same) + KeysOf(r.different))[k]
                        == if k in m1 || k in m2 then 1 else 0
    ensures forall i, j :: 0 <= i < j < |r.onlyIn1| ==> KeyLe(r.onlyIn1[i].key, r.onlyIn1[j].key)
    ensures forall i, j :: 0 <= i < j < |r.onlyIn2| ==> KeyLe(r.onlyIn2[i].key, r.onlyIn2[j].key)
    ensures forall i, j :: 0 <= i < j < |r.same| ==> KeyLe(r.same[i].key, r.same[j].key)
    ensures forall i, j :: 0 <= i < j < |r.different| ==> KeyLe(r.different[i].key, r.different[j].key)
  {
    var m1 := LoadData(lines1);
    var m2 := LoadData(lines2);
    var keys1, keys2 := m1.Keys, m2.Keys;
    var only1 := SetToSeq(keys1 - keys2);
    var only2 := SetToSeq(keys2 - keys1);
    var same, diff := SplitCommon(keys1 * keys2, m1, m2);
    var out1 := WriteOutput(only1, m1);
    var out2 := WriteOutput(only2, m2);
    var outSame := WriteOutput(same, m1);
    var outDiff := WriteOutput(diff, m2);
    Written(only1, m1);
    Written(only2, m2);
    Written(same, m1);
    Written(diff, m2);
    r := Report(out1, out2, outSame, outDiff);
    forall k ensures multiset(KeysOf(out1) + KeysOf(out2) + KeysOf(outSame) + KeysOf(outDiff))[k]
                     == if k in m1 || k in m2 then 1 else 0
    {
      SeqDistinctCount(only1, k);
      SeqDistinctCount(only2, k);
      SeqDistinctCount(same, k);
      SeqDistinctCount(diff, k);
    }
  }

  /** The keys written are the keys given. */
  lemma Written(keys: seq<Key>, source: map<Key, Json>)
    requires forall k :: k in keys ==> k in source
    ensures forall k :: k in KeysOf(WriteOutput(keys, source)) <==> k in keys
    ensures forall o :: o in WriteOutput(keys, source) ==> o.key in source && o.tacticProof == source[o.key]
  {
    var out := WriteOutput(keys, source);
    forall k ensures k in KeysOf(out) <==> k in keys {
      assert k in KeysOf(out) <==> k in multiset(KeysOf(out));
      assert k in keys <==> k in multiset(keys);
    }
  }
}
