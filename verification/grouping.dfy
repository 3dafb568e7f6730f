/** The offset-based dataset builders of `chatgpt_extract.py` and
    `chatgpt_extract2.py`: a pre-order walk of the elaboration tree, the
    tactic and theorem lists ordered by start offset, the line-state index
    with its "greatest key at most pos" lookup, and the grouping of tactics
    under every theorem whose closed offset range holds their start. */
module OffsetGrouping {
  import opened Basics
  import opened Json
  import opened Sorting

  /** A two-element `range` list `[start, stop]` of character offsets. */
  datatype Span = Span(start: int, stop: int)

  /** The `tactic` object of a node's `info`; its payloads are carried
      through unchanged. */
  datatype TacticInfo = TacticInfo(before: Json, after: Json, references: Json)

  /** One node of the elaboration tree: the `tactic` entry of `info` when
      that key is present, `ref.pp` (null when missing), `ref.range`
      (`None` when missing or empty) and the `children`. */
  datatype ElabNode = ElabNode(tactic: Option<TacticInfo>, pp: Json, range: Option<Span>, children: seq<ElabNode>)

  /** An entry of the tactic list. */
  datatype Tactic = Tactic(text: Json, range: Span, before: Json, after: Json, references: Json)

  /** An entry of the declaration file: `name`, `type` (null when missing)
      and `range` (`None` when missing or empty). */
  datatype DeclEntry = DeclEntry(name: Json, typ: Json, range: Option<Span>)

  datatype Theorem = Theorem(name: Json, typ: Json, range: Span)

  /** An entry of the line file: `start` when it is not null, and `state`. */
  datatype LineEntry = LineEntry(start: Option<int>, state: Json)

  /** A theorem with the tactics assigned to it. */
  datatype Group = Group(name: Json, typ: Json, tactics: seq<Tactic>)

  /** A tactic with the pretty state attached to it in place. */
  datatype StatedTactic = StatedTactic(tactic: Tactic, prettyState: Json)

  datatype StatedGroup = StatedGroup(name: Json, typ: Json, tactics: seq<StatedTactic>)

  /** A proof step of the second builder. */
  datatype Step = Step(line: Option<int>, text: Json, before: Json, after: Json, prettyState: Json)

  datatype Entry = Entry(name: Json, typ: Json, proof: seq<Step>)

  /** The stop offset a declaration without a range gets: `10**12`. */
  const NoRangeStop: int := 1_000_000_000_000

  // ---------------------------------------------------------------------
  // The tree walk

  /** `walk_tree`: the node, then the walks of its children left to right. */
  function WalkTree(n: ElabNode): (r: seq<ElabNode>)
    ensures |r| >= 1 && r[0] == n
    decreases n, 1
  {
    [n] + WalkForest(n.children)
  }

  /** The walks of a list of trees, one after another. */
  function WalkForest(cs: seq<ElabNode>): (r: seq<ElabNode>)
    decreases cs, 0
  {
    if |cs| == 0 then [] else WalkTree(cs[0]) + WalkForest(cs[1..])
  }

  /** `a` occurs in `b` as the block starting at index `i`. */
  ghost predicate InfixAt<T>(a: seq<T>, b: seq<T>, i: int) {
    0 <= i <= |b| - |a| && b[i..i + |a|] == a
  }

  /** `a` occurs as a contiguous block of `b`. */
  ghost predicate IsInfix<T>(a: seq<T>, b: seq<T>) {
    exists i :: InfixAt(a, b, i)
  }

  lemma InfixBefore<T>(a: seq<T>, b: seq<T>, p: seq<T>)
    requires IsInfix(a, b)
    ensures IsInfix(a, p + b)
  {
    var i :| InfixAt(a, b, i);
    assert (p + b)[|p| + i..|p| + i + |a|] == a;
    assert InfixAt(a, p + b, |p| + i);
  }

  lemma InfixAfter<T>(a: seq<T>, b: seq<T>, q: seq<T>)
    requires IsInfix(a, b)
    ensures IsInfix(a, b + q)
  {
    var i :| InfixAt(a, b, i);
    assert (b + q)[i..i + |a|] == a;
    assert InfixAt(a, b + q, i);
  }

  /** Every node the walk yields is followed at once by exactly its own
      descendants: a node comes before all of them, and they are not
      interleaved with anything else. */
  lemma {:induction false} WalkNested(n: ElabNode, m: ElabNode)
    requires m in WalkTree(n)
    ensures IsInfix(WalkTree(m), WalkTree(n))
    decreases n, 1
  {
    if m == n {
      assert InfixAt(WalkTree(n), WalkTree(n), 0);
    } else {
      assert m in WalkForest(n.children);
      ForestNested(n.children, m);
      InfixBefore(WalkTree(m), WalkForest(n.children), [n]);
    }
  }

  lemma {:induction false} ForestNested(cs: seq<ElabNode>, m: ElabNode)
    requires m in WalkForest(cs)
    ensures IsInfix(WalkTree(m), WalkForest(cs))
    decreases cs, 0
  {
    var head := WalkTree(cs[0]);
    var tail := WalkForest(cs[1..]);
    assert WalkForest(cs) == head + tail;
    if m in head {
      WalkNested(cs[0], m);
      InfixAfter(WalkTree(m), head, tail);
    } else {
      ForestNested(cs[1..], m);
      InfixBefore(WalkTree(m), tail, head);
    }
  }

  /** Children are walked left to right: the walk of child `i` sits between
      those of the children before it and those after it. */
  lemma {:induction false} ForestSplit(cs: seq<ElabNode>, i: nat)
    requires i < |cs|
    ensures WalkForest(cs) == WalkForest(cs[..i]) + WalkTree(cs[i]) + WalkForest(cs[i + 1..])
    decreases i
  {
    if i > 0 {
      ForestSplit(cs[1..], i - 1);
      assert cs[1..][..i - 1] == cs[1..i];
      assert cs[1..][i - 1] == cs[i] && cs[1..][i..] == cs[i + 1..];
      assert cs[..i][0] == cs[0] && cs[..i][1..] == cs[1..i];
    } else {
      assert WalkForest(cs[..0]) == [];
    }
  }

  // ---------------------------------------------------------------------
  // Ordering by start offset

  /** Comparing elements by their start offset. */
  function ByStart<T>(start: T -> int): (T, T) -> bool {
    (a: T, b: T) => start(a) <= start(b)
  }

  lemma ByStartTotal<T(!new)>(start: T -> int)
    ensures TotalPreorder(ByStart(start))
  {
  }

  /** `list.sort(key=lambda x: x["range"][0])`. */
  function SortByStart<T(!new)>(s: seq<T>, start: T -> int): (r: seq<T>)
    ensures multiset(r) == multiset(s)
    ensures forall i, j :: 0 <= i < j < |r| ==> start(r[i]) <= start(r[j])
  {
    ByStartTotal(start);
    SortSorted(s, ByStart(start));
    Sort(s, ByStart(start))
  }

  function TacticStart(t: Tactic): int {
    t.range.start
  }

  function TheoremStart(t: Theorem): int {
    t.range.start
  }

  // ---------------------------------------------------------------------
  // Tactics and theorems

  /** The tactic entry a node produces, if `info` has a `tactic` key; a
      missing range becomes `[0, 0]`. */
  function TacticOf(n: ElabNode): (r: Option<Tactic>)
    ensures r.Some? <==> n.tactic.Some?
    ensures r.Some? ==> r.value.text == n.pp && r.value.before == n.tactic.value.before
                        && r.value.after == n.tactic.value.after
                        && r.value.references == n.tactic.value.references
    ensures r.Some? && n.range.Some? ==> r.value.range == n.range.value
    ensures r.Some? && n.range.None? ==> r.value.range == Span(0, 0)
  {
    match n.tactic
    case None => None
    case Some(info) => Some(Tactic(n.pp, n.range.GetOr(Span(0, 0)), info.before, info.after, info.references))
  }

  /** Reordering keeps the elements. */
  lemma SameMembers<T>(a: seq<T>, b: seq<T>)
    requires multiset(a) == multiset(b)
    ensures forall x :: x in a <==> x in b
  {
    forall x ensures x in a <==> x in b {
      assert x in a <==> x in multiset(a);
      assert x in b <==> x in multiset(b);
    }
  }

  /** `extract_all_tactics` (identical in both builders): the tactic entry
      of every node of every tree, ordered by start offset. */
  function ExtractAllTactics(elab: seq<ElabNode>): (r: seq<Tactic>)
    ensures var nodes := WalkForest(elab);
            forall t :: t in r <==> exists i :: 0 <= i < |nodes| && TacticOf(nodes[i]) == Some(t)
    ensures forall i, j :: 0 <= i < j < |r| ==> r[i].range.start <= r[j].range.start
    ensures |r| <= |WalkForest(elab)|
    ensures multiset(r) == multiset(FilterMap(WalkForest(elab), TacticOf))
  {
    var found := FilterMap(WalkForest(elab), TacticOf);
    var r := SortByStart(found, TacticStart);
    SameMembers(r, found);
    r
  }

  /** The theorem entry a declaration produces under the first builder's
      test (both `name` and `type` truthy) or the second's (`name` truthy);
      a missing range becomes `[0, 10**12]`. */
  function TheoremOf(d: DeclEntry, needType: bool): (r: Option<Theorem>)
    ensures r.Some? <==> Truthy(d.name) && (needType ==> Truthy(d.typ))
    ensures r.Some? ==> r.value.name == d.name && r.value.typ == d.typ
    ensures r.Some? && d.range.None? ==> r.value.range == Span(0, NoRangeStop)
  {
    if Truthy(d.name) && (!needType || Truthy(d.typ)) then
      Some(Theorem(d.name, d.typ, d.range.GetOr(Span(0, NoRangeStop))))
    else None
  }

  /** `TheoremOf` with the test fixed, as the function the filter maps. */
  function TheoremsBy(needType: bool): DeclEntry -> Option<Theorem> {
    d => TheoremOf(d, needType)
  }

  /** `extract_theorems`: the first builder (`needType`) keeps declarations
      with a name and a type, the second those with a name; both order them
      by start offset. */
  function ExtractTheorems(decl: seq<DeclEntry>, needType: bool): (r: seq<Theorem>)
    ensures forall t :: t in r <==> exists i :: 0 <= i < |decl| && TheoremOf(decl[i], needType) == Some(t)
    ensures forall i, j :: 0 <= i < j < |r| ==> r[i].range.start <= r[j].range.start
    ensures multiset(r) == multiset(FilterMap(decl, TheoremsBy(needType)))
  {
    var found := FilterMap(decl, TheoremsBy(needType));
    var r := SortByStart(found, TheoremStart);
    SameMembers(r, found);
    r
  }

  /** The second builder keeps every theorem the first keeps, and also the
      named declarations without a type, which the first drops. */
  lemma TheoremsOfSecondBuilder(decl: seq<DeclEntry>)
    ensures forall t :: t in ExtractTheorems(decl, true) ==> t in ExtractTheorems(decl, false)
    ensures forall i :: 0 <= i < |decl| && Truthy(decl[i].name) && !Truthy(decl[i].typ) ==>
              TheoremOf(decl[i], false).value in ExtractTheorems(decl, false)
              && TheoremOf(decl[i], false).value !in ExtractTheorems(decl, true)
  {
    forall t | t in ExtractTheorems(decl, true) ensures t in ExtractTheorems(decl, false) {
      var i :| 0 <= i < |decl| && TheoremOf(decl[i], true) == Some(t);
      assert TheoremOf(decl[i], false) == Some(t);
    }
    forall i | 0 <= i < |decl| && Truthy(decl[i].name) && !Truthy(decl[i].typ)
      ensures TheoremOf(decl[i], false).value !in ExtractTheorems(decl, true)
    {
      var t := TheoremOf(decl[i], false).value;
      forall k | 0 <= k < |decl| ensures TheoremOf(decl[k], true) != Some(t) {
        if TheoremOf(decl[k], true).Some? {
          assert Truthy(TheoremOf(decl[k], true).value.typ);
        }
      }
    }
  }

  // ---------------------------------------------------------------------
  // The line-state index

  /** `build_line_index`: the state of every line entry, keyed by its start;
      when two entries share a start the later one wins. */
  function BuildLineIndex(lines: seq<LineEntry>): (r: map<int, Json>)
    ensures forall k :: k in r <==> exists i :: 0 <= i < |lines| && lines[i].start == Some(k)
    ensures forall k :: k in r ==>
              exists i :: 0 <= i < |lines| && lines[i].start == Some(k) && r[k] == lines[i].state
                          && forall j :: i < j < |lines| ==> lines[j].start != Some(k)
  {
    LastWinsSpec(lines, (e: LineEntry) => e.start, (e: LineEntry) => e.state);
    LastWins(lines, (e: LineEntry) => e.start, (e: LineEntry) => e.state)
  }

  /** `k` is the greatest key at most `pos`. */
  predicate IsGreatestLe(keys: set<int>, pos: int, k: int) {
    k in keys && k <= pos && forall j :: j in keys && j <= pos ==> j <= k
  }

  /** Every key is past `pos`. */
  predicate NoneLe(keys: set<int>, pos: int) {
    forall j :: j in keys ==> j > pos
  }

  /** The state the lookup is meant to find for `pos`: that of the greatest
      key at most `pos`, or null when there is none. */
  predicate StateAt(idx: map<int, Json>, pos: int, v: Json) {
    (NoneLe(idx.Keys, pos) && v == JNull)
    || exists k :: k in idx && IsGreatestLe(idx.Keys, pos, k) && v == idx[k]
  }

  /** `m` is the smallest element of `s`. */
  predicate IsLeast(s: set<int>, m: int) {
    m in s && forall k :: k in s ==> m <= k
  }

  /** A non-empty finite set of keys has a smallest one, so the keys can be
      taken in sorted order. */
  lemma {:induction false} LeastExists(s: set<int>)
    requires s != {}
    ensures exists m :: IsLeast(s, m)
    decreases |s|
  {
    assert (forall y :: y !in s) ==> s == {};
    var x :| x in s;
    var rest := s - {x};
    if rest == {} {
      forall k | k in s ensures x <= k {
        assert k !in rest;
      }
      assert IsLeast(s, x);
    } else {
      LeastExists(rest);
      var m :| IsLeast(rest, m);
      forall k | k in s && k != x ensures m <= k {
        assert k in rest;
      }
      if x < m {
        assert IsLeast(s, x);
      } else {
        assert IsLeast(s, m);
      }
    }
  }

  /** The loop `for k in sorted(keys): if k <= pos: best = k else: break`,
      taking the keys smallest first. */
  method GreatestKeyLe(keys: set<int>, pos: int) returns (best: Option<int>)
    ensures best.None? <==> NoneLe(keys, pos)
    ensures best.Some? ==> IsGreatestLe(keys, pos, best.value)
  {
    best := None;
    var rest := keys;
    var stop := false;
    while rest != {} && !stop
      invariant rest <= keys
      invariant forall k :: k in keys && k !in rest ==> k <= pos
      invariant forall k, j :: k in keys && k !in rest && j in rest ==> k < j
      invariant best.None? ==> keys <= rest
      invariant best.Some? ==> best.value in keys && best.value !in rest
      invariant best.Some? ==> forall k :: k in keys && k !in rest ==> k <= best.value
      invariant stop ==> forall j :: j in rest ==> j > pos
      decreases |rest|, if stop then 0 else 1
    {
      LeastExists(rest);
      var k :| IsLeast(rest, k);
      if k <= pos {
        best := Some(k);
        rest := rest - {k};
      } else {
        stop := true;
      }
    }
  }

  /** `find_pretty_state`: the state at `pos` itself when `pos` is a key,
      otherwise at the nearest earlier key; null when every key is later. */
  method FindPrettyState(idx: map<int, Json>, pos: int) returns (state: Json)
    ensures StateAt(idx, pos, state)
    ensures pos in idx ==> state == idx[pos]
  {
    if pos in idx {
      assert IsGreatestLe(idx.Keys, pos, pos);
      return idx[pos];
    }
    var best := GreatestKeyLe(idx.Keys, pos);
    if best.None? {
      return JNull;
    }
    return idx[best.value];
  }

  /** `find_line_and_state`: the greatest key at most `pos` and its state,
      or `(None, None)`. */
  method FindLineAndState(idx: map<int, Json>, pos: int) returns (line: Option<int>, state: Json)
    ensures line.None? <==> NoneLe(idx.Keys, pos)
    ensures line.Some? ==> IsGreatestLe(idx.Keys, pos, line.value) && state == idx[line.value]
    ensures line.None? ==> state == JNull
  {
    line := GreatestKeyLe(idx.Keys, pos);
    state := if line.Some? then idx[line.value] else JNull;
  }

  // ---------------------------------------------------------------------
  // Grouping

  /** The closed-interval test `start <= t["range"][0] <= end`. */
  predicate StartsWithin(t: Tactic, s: Span) {
    s.start <= t.range.start <= s.stop
  }

  /** `StartsWithin` as the filter's test. */
  function Within(s: Span): Tactic -> bool {
    t => StartsWithin(t, s)
  }

  /** The tactics a theorem with range `s` receives, in input order. */
  function TacticsWithin(tactics: seq<Tactic>, s: Span): (r: seq<Tactic>)
    ensures forall t :: t in r <==> t in tactics && StartsWithin(t, s)
    ensures IsSubseq(r, tactics)
  {
    FilterMembers(tactics, Within(s));
    Filter(tactics, Within(s))
  }

  /** `group_tactics_by_theorem`: one group per theorem, in theorem order. */
  function GroupTacticsByTheorem(theorems: seq<Theorem>, tactics: seq<Tactic>): (r: seq<Group>)
    ensures |r| == |theorems|
    ensures forall i :: 0 <= i < |r| ==> r[i].name == theorems[i].name && r[i].typ == theorems[i].typ
    ensures forall i, t :: 0 <= i < |r| ==> (t in r[i].tactics <==> t in tactics && StartsWithin(t, theorems[i].range))
    ensures forall i :: 0 <= i < |r| ==> IsSubseq(r[i].tactics, tactics)
  {
    seq(|theorems|, i requires 0 <= i < |theorems| =>
      Group(theorems[i].name, theorems[i].typ, TacticsWithin(tactics, theorems[i].range)))
  }

  /** Picking the tactics of one range from a list ordered by start leaves
      them ordered by start. */
  lemma WithinStaysOrdered(tactics: seq<Tactic>, s: Span)
    requires forall a, b :: 0 <= a < b < |tactics| ==> tactics[a].range.start <= tactics[b].range.start
    ensures var g := TacticsWithin(tactics, s);
            forall a, b :: 0 <= a < b < |g| ==> g[a].range.start <= g[b].range.start
  {
    var le := ByStart(TacticStart);
    assert Sorted(tactics, le) by {
      forall a, b | 0 <= a < b < |tactics| ensures le(tactics[a], tactics[b]) {
        assert TacticStart(tactics[a]) <= TacticStart(tactics[b]);
      }
    }
    var g := TacticsWithin(tactics, s);
    SubseqSorted(g, tactics, le);
    forall a, b | 0 <= a < b < |g| ensures g[a].range.start <= g[b].range.start {
      assert le(g[a], g[b]);
    }
  }

  /** Grouping a list ordered by start keeps every group ordered by start. */
  lemma GroupsStayOrdered(theorems: seq<Theorem>, tactics: seq<Tactic>, i: nat)
    requires forall a, b :: 0 <= a < b < |tactics| ==> tactics[a].range.start <= tactics[b].range.start
    requires i < |theorems|
    ensures var g := GroupTacticsByTheorem(theorems, tactics)[i].tactics;
            forall a, b :: 0 <= a < b < |g| ==> g[a].range.start <= g[b].range.start
  {
    assert GroupTacticsByTheorem(theorems, tactics)[i].tactics == TacticsWithin(tactics, theorems[i].range);
    WithinStaysOrdered(tactics, theorems[i].range);
  }

  /** `st` is `ts` with the state found for each tactic's start attached. */
  predicate StatesOf(st: seq<StatedTactic>, ts: seq<Tactic>, idx: map<int, Json>) {
    |st| == |ts|
    && forall j :: 0 <= j < |st| ==> st[j].tactic == ts[j] && StateAt(idx, ts[j].range.start, st[j].prettyState)
  }

  /** `attach_pretty_states`: the pretty state at each tactic's start. */
  method AttachPrettyStates(groups: seq<Group>, idx: map<int, Json>) returns (r: seq<StatedGroup>)
    ensures |r| == |groups|
    ensures forall i :: 0 <= i < |r| ==> r[i].name == groups[i].name && r[i].typ == groups[i].typ
    ensures forall i :: 0 <= i < |r| ==> StatesOf(r[i].tactics, groups[i].tactics, idx)
  {
    r := [];
    for i := 0 to |groups|
      invariant |r| == i
      invariant forall k :: 0 <= k < i ==> r[k].name == groups[k].name && r[k].typ == groups[k].typ
      invariant forall k :: 0 <= k < i ==> StatesOf(r[k].tactics, groups[k].tactics, idx)
    {
      var stated: seq<StatedTactic> := [];
      for j := 0 to |groups[i].tactics|
        invariant StatesOf(stated, groups[i].tactics[..j], idx)
      {
        var t := groups[i].tactics[j];
        var state := FindPrettyState(idx, t.range.start);
        stated := stated + [StatedTactic(t, state)];
      }
      assert groups[i].tactics[..|groups[i].tactics|] == groups[i].tactics;
      r := r + [StatedGroup(groups[i].name, groups[i].typ, stated)];
    }
  }

  /** `build_dataset` of the first builder: theorems with a name and a type
      in start order, each keeping its name and type, with the tactics starting inside its range, in
      start order, each with its pretty state. */
  method BuildDataset(decl: seq<DeclEntry>, elab: seq<ElabNode>, lines: seq<LineEntry>) returns (r: seq<StatedGroup>)
    ensures |r| == |ExtractTheorems(decl, true)|
    ensures forall i :: 0 <= i < |r| ==> r[i].name == ExtractTheorems(decl, true)[i].name
    ensures forall i :: 0 <= i < |r| ==> r[i].typ == ExtractTheorems(decl, true)[i].typ
    ensures forall i :: 0 <= i < |r| ==>
              StatesOf(r[i].tactics, TacticsWithin(ExtractAllTactics(elab), ExtractTheorems(decl, true)[i].range), BuildLineIndex(lines))
    ensures forall i, a, b :: 0 <= i < |r| && 0 <= a < b < |r[i].tactics| ==>
              r[i].tactics[a].tactic.range.start <= r[i].tactics[b].tactic.range.start
  {
    var theorems := ExtractTheorems(decl, true);
    var tactics := ExtractAllTactics(elab);
    var idx := BuildLineIndex(lines);
    var groups := GroupTacticsByTheorem(theorems, tactics);
    r := AttachPrettyStates(groups, idx);
    forall i | 0 <= i < |r| ensures forall a, b :: 0 <= a < b < |r[i].tactics| ==>
                              r[i].tactics[a].tactic.range.start <= r[i].tactics[b].tactic.range.start
    {
      GroupsStayOrdered(theorems, tactics, i);
    }
  }

  /** `steps` are the proof steps made from `ts`, in order: each keeps its
      tactic's text and goals and gets the greatest line key at most the
      tactic's start, with that line's state. */
  predicate StepsOf(steps: seq<Step>, ts: seq<Tactic>, idx: map<int, Json>) {
    |steps| == |ts|
    && forall j :: 0 <= j < |steps| ==> StepFor(steps[j], ts[j], idx)
  }

  predicate StepFor(s: Step, t: Tactic, idx: map<int, Json>) {
    s.text == t.text && s.before == t.before && s.after == t.after
    && (s.line.None? <==> NoneLe(idx.Keys, t.range.start))
    && (s.line.None? ==> s.prettyState == JNull)
    && (s.line.Some? ==> IsGreatestLe(idx.Keys, t.range.start, s.line.value) && s.prettyState == idx[s.line.value])
  }

  lemma StepsSnoc(steps: seq<Step>, ts: seq<Tactic>, s: Step, t: Tactic, idx: map<int, Json>)
    requires StepsOf(steps, ts, idx) && StepFor(s, t, idx)
    ensures StepsOf(steps + [s], ts + [t], idx)
  {
    var steps', ts' := steps + [s], ts + [t];
    forall j | 0 <= j < |steps'| ensures StepFor(steps'[j], ts'[j], idx) {
      if j < |steps| {
        assert steps'[j] == steps[j] && ts'[j] == ts[j];
      }
    }
  }

  /** One more tactic considered: it is kept or skipped on its own. */
  lemma WithinSnoc(tactics: seq<Tactic>, j: nat, s: Span)
    requires j < |tactics|
    ensures TacticsWithin(tactics[..j + 1], s)
            == TacticsWithin(tactics[..j], s) + (if StartsWithin(tactics[j], s) then [tactics[j]] else [])
  {
    assert tactics[..j + 1] == tactics[..j] + [tactics[j]];
    FilterSnoc(tactics[..j], tactics[j], Within(s));
  }

  /** The inner loop of the second `build_dataset`: skip the tactics that do
      not start inside the range, look up the line of the others. */
  method ProofSteps(tactics: seq<Tactic>, range: Span, idx: map<int, Json>) returns (steps: seq<Step>)
    ensures StepsOf(steps, TacticsWithin(tactics, range), idx)
    ensures forall j :: 0 <= j < |steps| && steps[j].line.Some? ==>
              steps[j].line.value <= TacticsWithin(tactics, range)[j].range.start
  {
    steps := [];
    for j := 0 to |tactics|
      invariant StepsOf(steps, TacticsWithin(tactics[..j], range), idx)
    {
      var t := tactics[j];
      WithinSnoc(tactics, j, range);
      var pos := t.range.start;
      if !(range.start <= pos <= range.stop) {
        continue;
      }
      var line, pretty := FindLineAndState(idx, pos);
      var step := Step(line, t.text, t.before, t.after, pretty);
      StepsSnoc(steps, TacticsWithin(tactics[..j], range), step, t, idx);
      steps := steps + [step];
    }
    assert tactics[..|tactics|] == tactics;
  }

  /** `e` is the entry of theorem `th`: its name and type, and the steps of
      the tactics starting inside its range. */
  predicate EntryFor(e: Entry, th: Theorem, tactics: seq<Tactic>, idx: map<int, Json>) {
    e.name == th.name && e.typ == th.typ && StepsOf(e.proof, TacticsWithin(tactics, th.range), idx)
  }

  /** `build_dataset` of the second builder: one entry per theorem, in
      order, holding the steps of the tactics that start inside its range. */
  method BuildDataset2(theorems: seq<Theorem>, tactics: seq<Tactic>, idx: map<int, Json>) returns (r: seq<Entry>)
    ensures |r| == |theorems|
    ensures forall i :: 0 <= i < |r| ==> EntryFor(r[i], theorems[i], tactics, idx)
  {
    r := [];
    for i := 0 to |theorems|
      invariant |r| == i
      invariant forall k :: 0 <= k < i ==> EntryFor(r[k], theorems[k], tactics, idx)
    {
      var steps := ProofSteps(tactics, theorems[i].range, idx);
      r := r + [Entry(theorems[i].name, theorems[i].typ, steps)];
    }
  }
}
