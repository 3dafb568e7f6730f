/** Tactic extraction from the info tree: the rejection rules for a single
    node, the pre-order walk that collects the atomic steps below a root
    tactic, the walk that finds the root tactics themselves, and the
    containment filter that assigns root tactics to a theorem. */
module Tactics {
  import opened Basics
  import opened Positions
  import opened InfoTree
  import opened Sorting

  /** A tactic step: where it is, its text, and the goals around it. */
  datatype Tactic = Tactic(range: FileRange, pp: string, before: seq<string>, after: seq<string>)

  /** A top-level tactic with the atomic steps found below it. */
  datatype RootTactic = RootTactic(tactic: Tactic, children: seq<Tactic>)

  function GoalTexts(goals: seq<Goal>): (r: seq<string>)
    ensures |r| == |goals|
    ensures forall i :: 0 <= i < |goals| ==> r[i] == goals[i].pp
  {
    seq(|goals|, i requires 0 <= i < |goals| => goals[i].pp)
  }

  /** The tactic a node describes, before any rejection rule applies. */
  function MakeTactic(ref: Ref, info: TacticInfo, lines: seq<int>): Tactic {
    Tactic(FromStringRange(lines, ref.range), ref.pp, GoalTexts(info.before), GoalTexts(info.after))
  }

  /** Text that is a single step: no line break and no `;`. */
  predicate Atomic(pp: string) {
    '\n' !in pp && ';' !in pp
  }

  /** What the sub-tactic walk accepts: a single step that is not a bare
      `by`. */
  predicate Step(pp: string) {
    Atomic(pp) && pp != "by"
  }

  /** `createTactic`: rejects multi-step text when asked to, a range inside
      the previous one, and a bare `by`; otherwise it keeps the text, the
      resolved range and both goal lists in order. */
  function CreateTactic(ref: Ref, info: TacticInfo, lines: seq<int>, skipMultiples: bool,
                        previous: Option<FileRange>): (r: Option<Tactic>)
    ensures r.None? <==> (skipMultiples && !Atomic(ref.pp))
                         || (previous.Some? && InRange(previous.value, FromStringRange(lines, ref.range)))
                         || ref.pp == "by"
    ensures r.Some? ==> r.value.pp == ref.pp && r.value.range == FromStringRange(lines, ref.range)
                        && |r.value.before| == |info.before| && |r.value.after| == |info.after|
                        && (forall i :: 0 <= i < |info.before| ==> r.value.before[i] == info.before[i].pp)
                        && (forall i :: 0 <= i < |info.after| ==> r.value.after[i] == info.after[i].pp)
  {
    if skipMultiples && !Atomic(ref.pp) then None
    else
      var current := FromStringRange(lines, ref.range);
      if previous.Some? && InRange(previous.value, current) then None
      else if ref.pp == "by" then None
      else Some(MakeTactic(ref, info, lines))
  }

  /** Reference list: the tactic of every node that carries tactic
      information, in pre-order, with no rule applied. */
  function NodeTactics(nodes: seq<InfoNode>, lines: seq<int>): seq<Tactic>
    decreases nodes
  {
    if |nodes| == 0 then []
    else
      var n := nodes[0];
      (if n.tactic.Some? then [MakeTactic(n.ref, n.tactic.value, lines)] else [])
      + NodeTactics(n.children, lines) + NodeTactics(nodes[1..], lines)
  }

  /** `collect_sub_tactics`: walks the forest in pre-order; a node's tactic
      is kept when it is a single step whose range is not inside the cursor,
      and a kept tactic becomes the cursor for the node's children and its
      later siblings. The cursor a child walk ends with is not handed back. */
  function CollectSubTactics(nodes: seq<InfoNode>, lines: seq<int>, previous: Option<FileRange>): (r: seq<Tactic>)
    ensures forall i :: 0 <= i < |r| ==> Step(r[i].pp)
    ensures |r| > 0 && previous.Some? ==> !InRange(previous.value, r[0].range)
    ensures IsSubseq(r, NodeTactics(nodes, lines))
    ensures |nodes| > 0 && nodes[0].tactic.Some? && Step(nodes[0].ref.pp)
            && !(previous.Some? && InRange(previous.value, FromStringRange(lines, nodes[0].ref.range)))
            ==> |r| > 0 && r[0] == MakeTactic(nodes[0].ref, nodes[0].tactic.value, lines)
    decreases nodes
  {
    if |nodes| == 0 then []
    else
      var n := nodes[0];
      var here := if n.tactic.Some? then CreateTactic(n.ref, n.tactic.value, lines, true, previous) else None;
      var cursor := if here.Some? then Some(here.value.range) else previous;
      var kept := if here.Some? then [here.value] else [];
      var below := CollectSubTactics(n.children, lines, cursor);
      var after := CollectSubTactics(nodes[1..], lines, cursor);
      var all := if n.tactic.Some? then [MakeTactic(n.ref, n.tactic.value, lines)] else [];
      assert IsSubseq(kept, all) by {
        if here.Some? {
          SubseqRefl(all);
        }
      }
      SubseqConcat(kept, all, below, NodeTactics(n.children, lines));
      SubseqConcat(kept + below, all + NodeTactics(n.children, lines), after, NodeTactics(nodes[1..], lines));
      kept + below + after
  }

  /** Every tactic is a single step. */
  predicate AllSteps(ts: seq<Tactic>) {
    forall i :: 0 <= i < |ts| ==> Step(ts[i].pp)
  }

  /** No tactic lies inside the range of an earlier one. */
  predicate NoNesting(ts: seq<Tactic>) {
    forall i, j :: 0 <= i < j < |ts| ==> !InRange(ts[i].range, ts[j].range)
  }

  /** No tactic lies inside the cursor. */
  predicate Outside(previous: Option<FileRange>, ts: seq<Tactic>) {
    previous.Some? ==> forall i :: 0 <= i < |ts| ==> !InRange(previous.value, ts[i].range)
  }

  /** The three conditions carry over to any slice. */
  lemma SliceConditions(ts: seq<Tactic>, a: nat, b: nat, previous: Option<FileRange>)
    requires a <= b <= |ts|
    ensures AllSteps(ts) ==> AllSteps(ts[a..b])
    ensures NoNesting(ts) ==> NoNesting(ts[a..b])
    ensures Outside(previous, ts) ==> Outside(previous, ts[a..b])
  {
    assert forall i :: 0 <= i < b - a ==> ts[a..b][i] == ts[a + i];
  }

  /** Without nesting, the first tactic's range holds none of the later
      ones. */
  lemma FirstHoldsNone(ts: seq<Tactic>)
    requires |ts| > 0 && NoNesting(ts)
    ensures Outside(Some(ts[0].range), ts[1..])
  {
    assert forall i :: 0 <= i < |ts| - 1 ==> ts[1..][i] == ts[i + 1];
  }

  /** When every tactic node is a single step and no tactic lies inside
      the cursor or inside an earlier tactic, no rule rejects anything: the
      walk collects the tactic of every tactic node, in pre-order. */
  lemma {:induction false} CollectSubTacticsComplete(nodes: seq<InfoNode>, lines: seq<int>, previous: Option<FileRange>)
    requires AllSteps(NodeTactics(nodes, lines))
    requires NoNesting(NodeTactics(nodes, lines)) && Outside(previous, NodeTactics(nodes, lines))
    ensures CollectSubTactics(nodes, lines, previous) == NodeTactics(nodes, lines)
    decreases nodes
  {
    if |nodes| > 0 {
      var cursor := CompleteStep(nodes, lines, previous);
      CollectSubTacticsComplete(nodes[0].children, lines, cursor);
      CollectSubTacticsComplete(nodes[1..], lines, cursor);
    }
  }

  /** One step of `CollectSubTacticsComplete`: the first node's tactic is
      accepted, and both the children and the later siblings meet the
      conditions again under the cursor that follows. */
  lemma CompleteStep(nodes: seq<InfoNode>, lines: seq<int>, previous: Option<FileRange>) returns (cursor: Option<FileRange>)
    requires |nodes| > 0
    requires AllSteps(NodeTactics(nodes, lines))
    requires NoNesting(NodeTactics(nodes, lines)) && Outside(previous, NodeTactics(nodes, lines))
    ensures var n := nodes[0];
            var c := NodeTactics(n.children, lines);
            var s := NodeTactics(nodes[1..], lines);
            AllSteps(c) && NoNesting(c) && Outside(cursor, c) && AllSteps(s) && NoNesting(s) && Outside(cursor, s)
    ensures var n := nodes[0];
            var head := if n.tactic.Some? then [MakeTactic(n.ref, n.tactic.value, lines)] else [];
            CollectSubTactics(nodes, lines, previous)
            == head + CollectSubTactics(n.children, lines, cursor) + CollectSubTactics(nodes[1..], lines, cursor)
            && NodeTactics(nodes, lines) == head + NodeTactics(n.children, lines) + NodeTactics(nodes[1..], lines)
  {
    var n := nodes[0];
    var ts := NodeTactics(nodes, lines);
    var all := if n.tactic.Some? then [MakeTactic(n.ref, n.tactic.value, lines)] else [];
    var c := NodeTactics(n.children, lines);
    var s := NodeTactics(nodes[1..], lines);
    assert ts == all + c + s;
    var k := |all|;
    assert c == ts[k..k + |c|];
    assert s == ts[k + |c|..|ts|];
    SliceConditions(ts, k, k + |c|, previous);
    SliceConditions(ts, k + |c|, |ts|, previous);
    cursor := previous;
    if n.tactic.Some? {
      assert ts[0] == MakeTactic(n.ref, n.tactic.value, lines);
      assert Step(ts[0].pp);
      assert CreateTactic(n.ref, n.tactic.value, lines, true, previous) == Some(ts[0]);
      cursor := Some(ts[0].range);
      FirstHoldsNone(ts);
      assert c == ts[1..][..|c|] && s == ts[1..][|c|..|ts| - 1];
      SliceConditions(ts[1..], 0, |c|, cursor);
      SliceConditions(ts[1..], |c|, |ts| - 1, cursor);
    }
  }

  /** Two sibling leaves with the same single-step text and range: the
      second lies inside the cursor the first set, so one step is kept. */
  lemma SiblingDuplicateDropped(n: InfoNode, lines: seq<int>)
    requires n.tactic.Some? && Step(n.ref.pp) && n.children == []
    ensures CollectSubTactics([n, n], lines, None) == [MakeTactic(n.ref, n.tactic.value, lines)]
  {
    var t := MakeTactic(n.ref, n.tactic.value, lines);
    assert CreateTactic(n.ref, n.tactic.value, lines, true, None) == Some(t);
    InRangePreorder();
    assert CreateTactic(n.ref, n.tactic.value, lines, true, Some(t.range)) == None;
    assert [n, n][1..] == [n];
    assert CollectSubTactics([n], lines, Some(t.range)) == [];
  }

  /** The same pair, but the first step nested one level down under a node
      without tactic information: the cursor set inside the child walk is
      not seen by the sibling, so both steps are kept. */
  lemma CousinDuplicateKept(w: InfoNode, n: InfoNode, lines: seq<int>)
    requires n.tactic.Some? && Step(n.ref.pp) && n.children == []
    requires w.tactic.None? && w.children == [n]
    ensures var t := MakeTactic(n.ref, n.tactic.value, lines);
            CollectSubTactics([w, n], lines, None) == [t, t]
  {
    var t := MakeTactic(n.ref, n.tactic.value, lines);
    assert CreateTactic(n.ref, n.tactic.value, lines, true, None) == Some(t);
    assert CollectSubTactics([n], lines, None) == [t];
    assert [w, n][1..] == [n];
  }

  /** The sort key of root tactics: their range. */
  predicate RootLe(a: RootTactic, b: RootTactic) {
    RangeLe(a.tactic.range, b.tactic.range)
  }

  /** No node anywhere in the forest is a tactic node whose text is a bare
      `by`, the one case where the root walk dereferences `None`. */
  predicate NoBareBy(nodes: seq<InfoNode>) {
    forall n :: n in Flatten(nodes) && n.tactic.Some? ==> n.ref.pp != "by"
  }

  /** The root a tactic node becomes: its tactic, with the steps the
      sub-tactic walk finds below it from an empty cursor. */
  function RootOf(n: InfoNode, lines: seq<int>): RootTactic
    requires n.tactic.Some?
  {
    RootTactic(MakeTactic(n.ref, n.tactic.value, lines), CollectSubTactics(n.children, lines, None))
  }

  /** The state of the `for` loop of `collect_all_tactics`: the list so
      far, and whether it left through the early `return`. */
  datatype Scan = Scan(tactics: seq<RootTactic>, early: bool)

  /** `collect_all_tactics`. A bare `by` root raises (`createTactic`
      returns `None` and its `fileRange` is read), modelled as `Crash`. */
  function CollectAllTactics(nodes: seq<InfoNode>, lines: seq<int>): (r: Outcome<seq<RootTactic>>)
    ensures NoBareBy(nodes) ==> r.Ok?
    ensures |nodes| > 0 && nodes[0].tactic.Some? ==> (r.Crash? <==> nodes[0].ref.pp == "by")
    ensures |nodes| > 0 && nodes[0].tactic.Some? && nodes[0].ref.pp != "by" ==> r == Ok([RootOf(nodes[0], lines)])
    ensures r.Ok? && (forall i :: 0 <= i < |nodes| ==> nodes[i].tactic.None?) ==> Sorted(r.value, RootLe)
    ensures r.Ok? ==> forall x :: x in r.value ==> x.tactic in NodeTactics(nodes, lines)
    decreases nodes, 1
  {
    match ScanRoots(nodes, lines, [])
    case Crash(m) => Crash(m)
    case Ok(s) =>
      if s.early then
        assert |nodes| > 0 && nodes[0].tactic.Some? && nodes[0].ref.pp != "by" ==>
                 s.tactics == [] + [RootOf(nodes[0], lines)] == [RootOf(nodes[0], lines)];
        Ok(s.tactics)
      else
        RangeLeTotalPreorder();
        SortSorted(s.tactics, RootLe);
        assert forall x :: x in Sort(s.tactics, RootLe) ==> x in s.tactics by {
          forall x | x in Sort(s.tactics, RootLe) ensures x in s.tactics {
            assert x in multiset(Sort(s.tactics, RootLe));
          }
        }
        Ok(Sort(s.tactics, RootLe))
  }

  /** The loop body of `collect_all_tactics` over the remaining siblings,
      `acc` holding what earlier siblings contributed. */
  function ScanRoots(nodes: seq<InfoNode>, lines: seq<int>, acc: seq<RootTactic>): (r: Outcome<Scan>)
    ensures NoBareBy(nodes) ==> r.Ok?
    ensures r.Ok? && (forall i :: 0 <= i < |nodes| ==> nodes[i].tactic.None?) ==> !r.value.early
    ensures r.Ok? ==> forall x :: x in r.value.tactics ==> x in acc || x.tactic in NodeTactics(nodes, lines)
    ensures r.Ok? ==> acc <= r.value.tactics
    ensures |nodes| > 0 && nodes[0].tactic.Some? ==>
              (r.Crash? <==> nodes[0].ref.pp == "by")
              && (nodes[0].ref.pp != "by" ==> r == Ok(Scan(acc + [RootOf(nodes[0], lines)], true)))
    decreases nodes, 0
  {
    if |nodes| == 0 then Ok(Scan(acc, false))
    else
      var n := nodes[0];
      assert Flatten(nodes) == [n] + Flatten(n.children) + Flatten(nodes[1..]);
      if n.tactic.Some? then
        match CreateTactic(n.ref, n.tactic.value, lines, false, None)
        case None => Crash("'NoneType' object has no attribute 'fileRange'")
        case Some(t) => Ok(Scan(acc + [RootTactic(t, CollectSubTactics(n.children, lines, None))], true))
      else
        match CollectAllTactics(n.children, lines)
        case Crash(m) => Crash(m)
        case Ok(sub) =>
          var r := ScanRoots(nodes[1..], lines, acc + sub);
          assert forall i :: 0 <= i < |nodes[1..]| ==> nodes[1..][i] == nodes[i + 1];
          r
  }

  /** What the loop reaches before its early exit stays in its result:
      the first tactic node becomes a root. */
  lemma {:induction false} ScanReachesTactic(nodes: seq<InfoNode>, lines: seq<int>, acc: seq<RootTactic>, i: nat)
    requires i < |nodes| && nodes[i].tactic.Some? && ScanRoots(nodes, lines, acc).Ok?
    requires forall j :: 0 <= j < i ==> nodes[j].tactic.None?
    ensures RootOf(nodes[i], lines) in ScanRoots(nodes, lines, acc).value.tactics
    decreases i
  {
    if i == 0 {
      var x := RootOf(nodes[0], lines);
      assert ScanRoots(nodes, lines, acc) == Ok(Scan(acc + [x], true));
      assert (acc + [x])[|acc|] == x;
    } else {
      var sub := ScanShift(nodes, lines, acc, i);
      ScanReachesTactic(nodes[1..], lines, acc + sub, i - 1);
    }
  }

  /** The roots found below every sibling before the first tactic node
      stay in the loop's result. */
  lemma {:induction false} ScanReachesChildren(nodes: seq<InfoNode>, lines: seq<int>, acc: seq<RootTactic>, i: nat)
    requires i < |nodes| && ScanRoots(nodes, lines, acc).Ok?
    requires forall j :: 0 <= j <= i ==> nodes[j].tactic.None?
    ensures CollectAllTactics(nodes[i].children, lines).Ok?
    ensures forall x :: x in CollectAllTactics(nodes[i].children, lines).value ==> x in ScanRoots(nodes, lines, acc).value.tactics
    decreases i
  {
    if i == 0 {
      ScanFirstChildren(nodes, lines, acc);
    } else {
      var sub := ScanShift(nodes, lines, acc, i);
      ScanReachesChildren(nodes[1..], lines, acc + sub, i - 1);
    }
  }

  /** The roots found below a first node without tactic information stay
      in the loop's result. */
  lemma ScanFirstChildren(nodes: seq<InfoNode>, lines: seq<int>, acc: seq<RootTactic>)
    requires |nodes| > 0 && nodes[0].tactic.None? && ScanRoots(nodes, lines, acc).Ok?
    ensures CollectAllTactics(nodes[0].children, lines).Ok?
    ensures forall x :: x in CollectAllTactics(nodes[0].children, lines).value ==> x in ScanRoots(nodes, lines, acc).value.tactics
  {
    var sub := ScanPastSkipped(nodes, lines, acc);
    ScanRootsKeepsAcc(nodes[1..], lines, acc + sub);
  }

  /** Past a top-level node without tactic information, the loop goes on
      with the roots found below it added. */
  lemma ScanPastSkipped(nodes: seq<InfoNode>, lines: seq<int>, acc: seq<RootTactic>) returns (sub: seq<RootTactic>)
    requires |nodes| > 0 && nodes[0].tactic.None? && ScanRoots(nodes, lines, acc).Ok?
    ensures CollectAllTactics(nodes[0].children, lines) == Ok(sub)
    ensures ScanRoots(nodes, lines, acc) == ScanRoots(nodes[1..], lines, acc + sub)
  {
    sub := CollectAllTactics(nodes[0].children, lines).value;
  }

  /** Moving past a first node without tactic information: node i
      becomes node i - 1 of the rest, and the nodes before it still carry
      none. */
  lemma ScanShift(nodes: seq<InfoNode>, lines: seq<int>, acc: seq<RootTactic>, i: nat) returns (sub: seq<RootTactic>)
    requires 0 < i < |nodes| && ScanRoots(nodes, lines, acc).Ok?
    requires forall j :: 0 <= j < i ==> nodes[j].tactic.None?
    ensures ScanRoots(nodes, lines, acc) == ScanRoots(nodes[1..], lines, acc + sub)
    ensures nodes[1..][i - 1] == nodes[i]
    ensures forall j :: 0 <= j < i - 1 ==> nodes[1..][j].tactic.None?
  {
    sub := ScanPastSkipped(nodes, lines, acc);
    assert forall j :: 0 <= j < i - 1 ==> nodes[1..][j] == nodes[j + 1];
  }

  /** What the loop had before stays in its result. */
  lemma ScanRootsKeepsAcc(nodes: seq<InfoNode>, lines: seq<int>, acc: seq<RootTactic>)
    requires ScanRoots(nodes, lines, acc).Ok?
    ensures forall x :: x in acc ==> x in ScanRoots(nodes, lines, acc).value.tactics
  {
    var t := ScanRoots(nodes, lines, acc).value.tactics;
    assert acc <= t;
    forall x | x in acc ensures x in t {
      var k :| 0 <= k < |acc| && acc[k] == x;
      assert t[k] == x;
    }
  }

  /** Sorting keeps the elements. */
  lemma SortKeeps(s: seq<RootTactic>)
    ensures forall x :: x in s <==> x in Sort(s, RootLe)
  {
    forall x ensures x in s <==> x in Sort(s, RootLe) {
      assert x in s <==> x in multiset(s);
      assert x in Sort(s, RootLe) <==> x in multiset(Sort(s, RootLe));
    }
  }

  /** The first top-level tactic node becomes a root. */
  lemma FirstTacticIsRoot(nodes: seq<InfoNode>, lines: seq<int>, i: nat)
    requires i < |nodes| && NoBareBy(nodes) && nodes[i].tactic.Some?
    requires forall j :: 0 <= j < i ==> nodes[j].tactic.None?
    ensures CollectAllTactics(nodes, lines).Ok?
    ensures RootOf(nodes[i], lines) in CollectAllTactics(nodes, lines).value
  {
    ScanReachesTactic(nodes, lines, [], i);
    SortKeeps(ScanRoots(nodes, lines, []).value.tactics);
  }

  /** Every root found below a top-level node that comes before any
      top-level tactic node is a root of the whole forest. */
  lemma RootsFromChildren(nodes: seq<InfoNode>, lines: seq<int>, i: nat)
    requires i < |nodes| && NoBareBy(nodes)
    requires forall j :: 0 <= j <= i ==> nodes[j].tactic.None?
    ensures CollectAllTactics(nodes, lines).Ok?
    ensures CollectAllTactics(nodes[i].children, lines).Ok?
    ensures forall x :: x in CollectAllTactics(nodes[i].children, lines).value ==> x in CollectAllTactics(nodes, lines).value
  {
    ScanReachesChildren(nodes, lines, [], i);
    SortKeeps(ScanRoots(nodes, lines, []).value.tactics);
  }

  /** Once a sibling carries tactic information, the siblings after it are
      never looked at: the result is that of the list cut after it. */
  lemma EarlyReturnStopsSiblingScan(nodes: seq<InfoNode>, lines: seq<int>, i: nat)
    requires i < |nodes| && nodes[i].tactic.Some?
    ensures CollectAllTactics(nodes, lines) == CollectAllTactics(nodes[..i + 1], lines)
  {
    ScanCut(nodes, lines, [], i);
  }

  lemma {:induction false} ScanCut(nodes: seq<InfoNode>, lines: seq<int>, acc: seq<RootTactic>, i: nat)
    requires i < |nodes| && nodes[i].tactic.Some?
    ensures ScanRoots(nodes, lines, acc) == ScanRoots(nodes[..i + 1], lines, acc)
    decreases i
  {
    var cut := nodes[..i + 1];
    assert cut[0] == nodes[0];
    if nodes[0].tactic.None? {
      assert i > 0;
      assert cut[1..] == nodes[1..][..i];
      match CollectAllTactics(nodes[0].children, lines)
      case Crash(_) =>
      case Ok(sub) =>
        ScanCut(nodes[1..], lines, acc + sub, i - 1);
    }
  }

  /** The early return skips the sort: a tactic found through a nested
      walk comes first even when a later top-level tactic starts earlier. */
  lemma EarlyReturnUnsorted(wrap: InfoNode, late: InfoNode, early: InfoNode, lines: seq<int>)
    requires late.tactic.Some? && late.ref.pp != "by" && late.children == []
    requires early.tactic.Some? && early.ref.pp != "by" && early.children == []
    requires wrap.tactic.None? && wrap.children == [late]
    requires RangeLe(FromStringRange(lines, early.ref.range), FromStringRange(lines, late.ref.range))
    requires FromStringRange(lines, early.ref.range) != FromStringRange(lines, late.ref.range)
    ensures var r := CollectAllTactics([wrap, early], lines);
            r.Ok? && |r.value| == 2 && r.value[0].tactic.range == FromStringRange(lines, late.ref.range)
            && !RootLe(r.value[0], r.value[1])
  {
    var tl := RootTactic(MakeTactic(late.ref, late.tactic.value, lines), []);
    var te := RootTactic(MakeTactic(early.ref, early.tactic.value, lines), []);
    ScanLeaf(late, lines, []);
    assert [] + [tl] == [tl];
    assert CollectAllTactics([late], lines) == Ok([tl]);
    ScanLeaf(early, lines, [tl]);
    assert [wrap, early][1..] == [early];
    assert ScanRoots([wrap, early], lines, []) == ScanRoots([early], lines, [tl]);
    assert CollectAllTactics([wrap, early], lines) == Ok([tl] + [te]);
    RangeLeAntisymmetric(FromStringRange(lines, early.ref.range), FromStringRange(lines, late.ref.range));
  }

  /** One leaf tactic node ends the scan at once. */
  lemma ScanLeaf(n: InfoNode, lines: seq<int>, acc: seq<RootTactic>)
    requires n.tactic.Some? && n.ref.pp != "by" && n.children == []
    ensures ScanRoots([n], lines, acc)
            == Ok(Scan(acc + [RootTactic(MakeTactic(n.ref, n.tactic.value, lines), [])], true))
  {
    assert CollectSubTactics(n.children, lines, None) == [];
  }

  /** `find_root_tactrics`: the root tactics inside `range`, in their
      original order. */
  function FindRootTactics(range: FileRange, roots: seq<RootTactic>): (r: seq<RootTactic>)
    ensures forall x :: x in r <==> x in roots && InRange(range, x.tactic.range)
    ensures IsSubseq(r, roots)
    ensures forall x :: multiset(r)[x] == if InRange(range, x.tactic.range) then multiset(roots)[x] else 0
  {
    var inside := (x: RootTactic) => InRange(range, x.tactic.range);
    FilterMembers(roots, inside);
    FilterCounts(roots, inside);
    Filter(roots, inside)
  }
}
