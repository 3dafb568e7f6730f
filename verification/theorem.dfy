/** Text-level handling of one theorem: whitespace tokens, the split of a
    declaration into signature and proof at the first ` := `, the proof
    text that follows the proof operator, the `by`-prefix rule, and the
    steps recorded for a theorem from its root tactics. */
module TheoremText {
  import opened Basics
  import opened Text
  import opened Positions
  import opened Tactics

  /** Line breaks and tabs become spaces. */
  predicate LineBreakOrTab(c: char) {
    c == '\t' || c == '\n' || c == '\r'
  }

  /** `.replace("\t", " ").replace("\n", " ").replace("\r", " ")`. */
  function Normalize(s: string): (r: string)
    ensures |r| == |s|
    ensures forall i :: 0 <= i < |r| ==> !LineBreakOrTab(r[i])
    ensures forall i :: 0 <= i < |s| && !LineBreakOrTab(s[i]) ==> r[i] == s[i]
    ensures forall i :: 0 <= i < |s| && LineBreakOrTab(s[i]) ==> r[i] == ' '
  {
    seq(|s|, i requires 0 <= i < |s| => if LineBreakOrTab(s[i]) then ' ' else s[i])
  }

  /** `getToken`: the whitespace-separated token at `index`, counting from
      the end when `index` is negative; `None` past the end. An index more
      than twice the token count before the start raises `IndexError`. */
  function GetToken(line: string, index: int): (r: Outcome<Option<string>>)
    ensures index >= 0 ==> r.Ok?
    ensures r.Ok? && r.value.Some? ==> IsToken(r.value.value)
  {
    var tokens := Tokens(Normalize(Strip(line)));
    var i := if index < 0 then |tokens| + index else index;
    if i >= |tokens| then Ok(None)
    else if i >= 0 then Ok(Some(tokens[i]))
    else if i >= -|tokens| then Ok(Some(tokens[|tokens| + i]))
    else Crash("IndexError: list index out of range")
  }

  /** Facts about words joined by single spaces: the ends are the ends of
      the first and last word, and the only whitespace is the separator. */
  lemma {:induction false} JoinOfTokens(ws: seq<string>)
    requires |ws| > 0
    requires forall i :: 0 <= i < |ws| ==> IsToken(ws[i])
    ensures var j := Join(ws, " ");
            |j| > 0 && |ws[0]| > 0 && |ws[|ws| - 1]| > 0
            && j[0] == ws[0][0] && j[|j| - 1] == ws[|ws| - 1][|ws[|ws| - 1]| - 1]
            && forall k :: 0 <= k < |j| && IsSpace(j[k]) ==> j[k] == ' '
    decreases |ws|
  {
    var j := Join(ws, " ");
    if |ws| > 1 {
      var tail := Join(ws[1..], " ");
      JoinOfTokens(ws[1..]);
      assert j == ws[0] + " " + tail;
      forall k | 0 <= k < |j| && IsSpace(j[k]) ensures j[k] == ' ' {
        if k > |ws[0]| {
          assert j[k] == tail[k - |ws[0]| - 1];
        }
      }
    }
  }

  /** Token `i` of words joined by single spaces is word `i`, and token
      -1 is the last word. */
  lemma GetTokenOfJoin(ws: seq<string>, i: nat)
    requires i < |ws|
    requires forall k :: 0 <= k < |ws| ==> IsToken(ws[k])
    ensures GetToken(Join(ws, " "), i) == Ok(Some(ws[i]))
    ensures GetToken(Join(ws, " "), -1) == Ok(Some(ws[|ws| - 1]))
  {
    TokensOfJoinedLine(ws);
    GetTokenAt(Join(ws, " "), ws, i);
    GetTokenAt(Join(ws, " "), ws, -1);
  }

  /** Words joined by single spaces need neither stripping nor
      normalising, so `getToken` sees the words themselves. */
  lemma TokensOfJoinedLine(ws: seq<string>)
    requires |ws| > 0
    requires forall k :: 0 <= k < |ws| ==> IsToken(ws[k])
    ensures Tokens(Normalize(Strip(Join(ws, " ")))) == ws
  {
    JoinIsTrimmed(ws);
    JoinIsNormal(ws);
    TokensOfJoin(ws, " ");
    TokensOfTrimmed(Join(ws, " "), ws);
  }

  lemma JoinIsTrimmed(ws: seq<string>)
    requires |ws| > 0
    requires forall k :: 0 <= k < |ws| ==> IsToken(ws[k])
    ensures Strip(Join(ws, " ")) == Join(ws, " ")
  {
    JoinOfTokens(ws);
    StripKeepsTrimmed(Join(ws, " "));
  }

  lemma JoinIsNormal(ws: seq<string>)
    requires |ws| > 0
    requires forall k :: 0 <= k < |ws| ==> IsToken(ws[k])
    ensures Normalize(Join(ws, " ")) == Join(ws, " ")
  {
    var j := Join(ws, " ");
    JoinOfTokens(ws);
    forall k | 0 <= k < |j| ensures !LineBreakOrTab(j[k]) {
      assert LineBreakOrTab(j[k]) ==> IsSpace(j[k]);
    }
    NormalizeKeeps(j);
  }

  /** A line that needs neither stripping nor normalising is tokenised as
      it stands. */
  lemma TokensOfTrimmed(line: string, ws: seq<string>)
    requires Strip(line) == line && Normalize(line) == line && Tokens(line) == ws
    ensures Tokens(Normalize(Strip(line))) == ws
  {
  }

  /** `getToken` reads the tokens of the normalised, stripped line. */
  lemma GetTokenAt(line: string, ws: seq<string>, i: int)
    requires Tokens(Normalize(Strip(line))) == ws
    requires -|ws| <= i < |ws|
    ensures GetToken(line, i) == Ok(Some(ws[if i < 0 then |ws| + i else i]))
  {
  }

  lemma NormalizeKeeps(s: string)
    requires forall k :: 0 <= k < |s| ==> !LineBreakOrTab(s[k])
    ensures Normalize(s) == s
  {
  }

  /** The source of a declaration split at the first ` := ` of its
      normalised text: the signature covers the offsets before it, the
      proof starts one past it (at the `:`) and runs to the end. */
  function SplitOffsets(signatureStart: int, theoremStop: int, text: string): (r: Option<(StringRange, StringRange)>)
    ensures r.None? <==> !Contains(Normalize(text), " := ")
    ensures r.Some? ==>
              exists m :: 0 <= m < |text| && OccursAt(Normalize(text), " := ", m)
                          && (forall j :: 0 <= j < m ==> !OccursAt(Normalize(text), " := ", j))
                          && r.value.0 == StringRange(Some(signatureStart), Some(signatureStart + m))
                          && r.value.1 == StringRange(Some(signatureStart + m + 1), Some(theoremStop))
  {
    var norm := Normalize(text);
    ContainsIffFound(norm, " := ");
    match IndexOf(norm, " := ", 0)
    case None => None
    case Some(m) =>
      Some((StringRange(Some(signatureStart), Some(signatureStart + m)),
            StringRange(Some(signatureStart + m + 1), Some(theoremStop))))
  }

  /** A line break around `:=` still splits, because the text is
      normalised first. */
  lemma SplitSeesThroughLineBreaks()
    ensures SplitOffsets(100, 120, "foo : P\n:= by simp")
            == Some((StringRange(Some(100), Some(107)), StringRange(Some(108), Some(120))))
  {
    var norm := Normalize("foo : P\n:= by simp");
    assert norm == "foo : P := by simp";
    assert OccursAt(norm, " := ", 7);
    assert forall j :: 0 <= j < 7 ==> !OccursAt(norm, " := ", j) by {
      forall j | 0 <= j < 7 ensures !OccursAt(norm, " := ", j) {
        NotOccursAt(norm, " := ", j, if j == 3 then 2 else if j == 5 then 1 else 0);
      }
    }
  }

  /** `extract_theorem_signature_proof`: the two offset ranges resolved to
      file positions. */
  function SignatureProofRanges(lines: seq<int>, signatureStart: int, theoremStop: int, text: string)
    : (r: Option<(FileRange, FileRange)>)
    ensures r.None? <==> SplitOffsets(signatureStart, theoremStop, text).None?
    ensures r.Some? ==> r.value.0 == FromStringRange(lines, Some(SplitOffsets(signatureStart, theoremStop, text).value.0))
                        && r.value.1 == FromStringRange(lines, Some(SplitOffsets(signatureStart, theoremStop, text).value.1))
  {
    match SplitOffsets(signatureStart, theoremStop, text)
    case None => None
    case Some((sig, proof)) => Some((FromStringRange(lines, Some(sig)), FromStringRange(lines, Some(proof))))
  }

  /** With a sorted line table, the signature range is well formed and
      ends no later than the proof range starts. */
  lemma SignatureBeforeProof(lines: seq<int>, signatureStart: int, theoremStop: int, text: string)
    requires SortedStarts(lines)
    requires |lines| == 0 || lines[0] <= signatureStart
    requires SignatureProofRanges(lines, signatureStart, theoremStop, text).Some?
    ensures var (sig, proof) := SignatureProofRanges(lines, signatureStart, theoremStop, text).value;
            PosLe(sig.start, sig.stop) && PosLe(sig.stop, proof.start)
  {
    var split := SplitOffsets(signatureStart, theoremStop, text).value;
    var m :| 0 <= m < |text| && OccursAt(Normalize(text), " := ", m)
             && (forall j :: 0 <= j < m ==> !OccursAt(Normalize(text), " := ", j))
             && split.0 == StringRange(Some(signatureStart), Some(signatureStart + m))
             && split.1 == StringRange(Some(signatureStart + m + 1), Some(theoremStop));
    RangesAroundOffset(lines, signatureStart, m, theoremStop);
  }

  /** The signature range `[start, start + m)` and the proof range from
      `start + m + 1` are ordered on the page. */
  lemma RangesAroundOffset(lines: seq<int>, start: int, m: nat, stop: int)
    requires SortedStarts(lines)
    requires |lines| == 0 || lines[0] <= start
    ensures var sig := FromStringRange(lines, Some(StringRange(Some(start), Some(start + m))));
            var proof := FromStringRange(lines, Some(StringRange(Some(start + m + 1), Some(stop))));
            PosLe(sig.start, sig.stop) && PosLe(sig.stop, proof.start)
  {
    CreateFilePosMonotone(lines, start, start + m);
    CreateFilePosMonotone(lines, start + m, start + m + 1);
  }

  /** The proof text after the operator, as `extract_theorem` computes it:
      the operator's length is cut off twice, once from the statement and
      once more from what is left. */
  function ProofTextAsWritten(statement: string, operator: string): string {
    var rest := RStrip(Drop(RStrip(statement), |operator|));
    LStrip(Drop(rest, |operator|))
  }

  /** The proof text with the operator cut off once. */
  function ProofText(statement: string, operator: string): (r: string)
    ensures |r| > 0 ==> !IsSpace(r[0]) && !IsSpace(r[|r| - 1])
  {
    var rest := RStrip(Drop(RStrip(statement), |operator|));
    LStrip(rest)
  }

  /** With one space after the operator, the code as written loses the
      first `|operator| - 1` characters of the proof: one letter for `:=`. */
  lemma ProofTextAsWrittenLosesLetter(operator: string, body: string)
    requires 2 <= |operator| <= |body|
    requires !IsSpace(body[0]) && !IsSpace(body[|operator| - 1]) && !IsSpace(body[|body| - 1])
    ensures ProofTextAsWritten(operator + " " + body, operator) == body[|operator| - 1..]
    ensures ProofTextAsWritten(operator + " " + body, operator) != ProofText(operator + " " + body, operator)
  {
    AsWrittenCutsTwice(operator, body);
    assert AllSpace(" ");
    ProofTextAfterOperator(operator, " ", body);
    assert |body[|operator| - 1..]| < |body|;
  }

  /** The two cuts of `ProofTextAsWritten` on an operator, one space and a
      body that ends in a non-space. */
  lemma AsWrittenCutsTwice(operator: string, body: string)
    requires 2 <= |operator| <= |body|
    requires !IsSpace(body[|operator| - 1]) && !IsSpace(body[|body| - 1])
    ensures ProofTextAsWritten(operator + " " + body, operator) == body[|operator| - 1..]
  {
    var s := operator + " " + body;
    var n := |operator|;
    var tail := " " + body;
    assert s == operator + tail;
    assert s[|s| - 1] == body[|body| - 1];
    assert RStrip(s) == s;
    DropPrefix(operator, tail);
    assert tail[|tail| - 1] == body[|body| - 1];
    assert RStrip(tail) == tail;
    DropInside(tail, n);
    assert tail[1..] == body;
    var cut := body[n - 1..];
    assert Drop(tail, n) == cut;
    assert cut[0] == body[n - 1];
    assert LStrip(cut) == cut;
  }

  /** Dropping a prefix's length leaves what follows it. */
  lemma DropPrefix(p: string, t: string)
    ensures Drop(p + t, |p|) == t
  {
    assert (p + t)[|p|..] == t;
  }

  /** Dropping `n` characters from a one-space prefix and a body leaves
      the body from `n - 1` on. */
  lemma DropInside(tail: string, n: nat)
    requires 1 <= n <= |tail| && tail[0] == ' '
    ensures Drop(tail, n) == tail[1..][n - 1..]
  {
    assert tail[n..] == tail[1..][n - 1..];
  }

  /** The corrected text is exactly what follows the operator and its
      separating whitespace. */
  lemma ProofTextAfterOperator(operator: string, gap: string, body: string)
    requires AllSpace(gap)
    requires |body| > 0 && !IsSpace(body[0]) && !IsSpace(body[|body| - 1])
    ensures ProofText(operator + gap + body, operator) == body
  {
    var s := operator + gap + body;
    assert s[|s| - 1] == body[|body| - 1];
    assert RStrip(s) == s;
    assert Drop(s, |operator|) == gap + body;
    assert (gap + body)[|gap + body| - 1] == body[|body| - 1];
    assert RStrip(gap + body) == gap + body;
    LStripSkipsSpace(gap, body);
  }

  lemma {:induction false} LStripSkipsSpace(gap: string, body: string)
    requires AllSpace(gap)
    requires |body| > 0 && !IsSpace(body[0])
    ensures LStrip(gap + body) == body
    decreases |gap|
  {
    if |gap| == 0 {
      assert gap + body == body;
    } else {
      assert (gap + body)[1..] == gap[1..] + body;
      LStripSkipsSpace(gap[1..], body);
    }
  }

  /** The code as written agrees with the corrected text whenever at least
      as many whitespace characters as the operator is long separate the
      operator from the proof. */
  lemma ProofTextAsWrittenWithWideGap(operator: string, gap: string, body: string)
    requires AllSpace(gap) && |gap| >= |operator|
    requires |body| > 0 && !IsSpace(body[0]) && !IsSpace(body[|body| - 1])
    ensures ProofTextAsWritten(operator + gap + body, operator) == body
  {
    var s := operator + gap + body;
    assert s[|s| - 1] == body[|body| - 1];
    assert RStrip(s) == s;
    assert Drop(s, |operator|) == gap + body;
    assert (gap + body)[|gap + body| - 1] == body[|body| - 1];
    assert RStrip(gap + body) == gap + body;
    assert Drop(gap + body, |operator|) == gap[|operator|..] + body;
    LStripSkipsSpace(gap[|operator|..], body);
  }

  /** The `startBy` rule of the jixia test driver. A missing proof counts
      as starting with `by`; otherwise the text must start with `by`
      followed by a space, tab or line break. A proof that is exactly `by`
      raises `IndexError`. */
  function StartsByTactic(proof: Option<string>): (r: Outcome<bool>)
    ensures r.Crash? <==> proof == Some("by")
    ensures r == Ok(true) <==>
              proof.None? || (StartsWith(proof.value, "by") && |proof.value| > 2
                              && (proof.value[2] == ' ' || LineBreakOrTab(proof.value[2])))
  {
    match proof
    case None => Ok(true)
    case Some(p) =>
      if !StartsWith(p, "by") then Ok(false)
      else
        var rest := p[2..];
        if |rest| == 0 then
          assert p == "by";
          Crash("IndexError: string index out of range")
        else Ok(rest[0] == ' ' || rest[0] == '\t' || rest[0] == '\r' || rest[0] == '\n')
  }

  /** What a tactic block written after `by` gives. */
  lemma ByBlockStartsBy(body: string, c: char)
    requires c == ' ' || LineBreakOrTab(c)
    ensures StartsByTactic(Some("by" + [c] + body)) == Ok(true)
  {
    var p := "by" + [c] + body;
    assert p[..2] == "by" && p[2] == c;
  }

  /** `state_after`: "no goals" when nothing is left, otherwise the goals
      one per line. */
  function StateAfter(after: seq<string>): (r: string)
    ensures |after| == 0 ==> r == "no goals"
    ensures |after| == 1 ==> r == after[0]
  {
    if |after| == 0 then "no goals" else Join(after, "\n")
  }

  /** The goals can be read back from the text by splitting at line
      breaks, as long as no goal holds a line break itself. */
  lemma StateAfterSplits(after: seq<string>)
    requires |after| > 0
    requires forall i :: 0 <= i < |after| ==> '\n' !in after[i]
    ensures Split(StateAfter(after), '\n') == after
  {
    SplitJoin(after, '\n');
  }

  /** One recorded proof step. The fallback step may lack a tactic text
      and a before-state. */
  datatype StepRecord = StepRecord(tactic: Option<string>, before: Option<string>, after: string, start: FilePos, stop: FilePos)

  function StepOf(t: Tactic): StepRecord {
    StepRecord(Some(t.pp), Some(Join(t.before, "\n")), StateAfter(t.after), t.range.start, t.range.stop)
  }

  /** The steps of the atomic tactics below one root, in order: each
      records its tactic's text and range, and a step whose tactic leaves
      no goal says "no goals". */
  function RootSteps(root: RootTactic): (r: seq<StepRecord>)
    ensures |r| == |root.children|
    ensures forall i :: 0 <= i < |r| ==> r[i] == StepOf(root.children[i])
    ensures forall i :: 0 <= i < |r| ==>
              r[i].tactic == Some(root.children[i].pp) && r[i].before.Some?
              && r[i].start == root.children[i].range.start && r[i].stop == root.children[i].range.stop
    ensures forall i :: 0 <= i < |r| && |root.children[i].after| == 0 ==> r[i].after == "no goals"
  {
    seq(|root.children|, i requires 0 <= i < |root.children| => StepOf(root.children[i]))
  }

  function AllRootSteps(roots: seq<RootTactic>): (r: seq<seq<StepRecord>>)
    ensures |r| == |roots|
    ensures forall i :: 0 <= i < |r| ==> r[i] == RootSteps(roots[i])
  {
    seq(|roots|, i requires 0 <= i < |roots| => RootSteps(roots[i]))
  }

  /** The goals of a step can be read back from its record by splitting
      at line breaks, when no goal holds a line break itself. */
  lemma RootStepGoals(root: RootTactic, i: nat)
    requires i < |root.children|
    requires forall k :: 0 <= k < |root.children[i].before| ==> '\n' !in root.children[i].before[k]
    requires forall k :: 0 <= k < |root.children[i].after| ==> '\n' !in root.children[i].after[k]
    ensures |root.children[i].before| > 0 ==> Split(RootSteps(root)[i].before.value, '\n') == root.children[i].before
    ensures |root.children[i].after| > 0 ==> Split(RootSteps(root)[i].after, '\n') == root.children[i].after
  {
    var t := root.children[i];
    if |t.before| > 0 {
      StateAfterSplits(t.before);
    }
    if |t.after| > 0 {
      StateAfterSplits(t.after);
    }
  }

  /** The record the jixia test driver writes for one theorem. */
  datatype TheoremRecord = TheoremRecord(proof: Option<string>, steps: seq<StepRecord>, refSteps: seq<seq<StepRecord>>)

  /** The per-theorem loop of `process_module` in the jixia test driver.
      Starting with `by`, each root's steps replace the previous ones, so
      the last root's steps are kept, and a missing proof text is taken
      from the first root; otherwise every root's steps are kept apart as
      reference steps. When no step was kept, one step stands for the
      whole proof and closes every goal. */
  method TheoremSteps(proof: Option<string>, startBy: bool, roots: seq<RootTactic>,
                      tacticBefore: Option<string>, proofRange: FileRange)
    returns (record: TheoremRecord)
    ensures |record.steps| >= 1
    ensures !startBy ==> record.proof == proof && record.refSteps == AllRootSteps(roots)
    ensures startBy ==> record.refSteps == []
    ensures startBy ==> record.proof == if proof.None? && |roots| > 0 then Some(roots[0].tactic.pp) else proof
    ensures startBy && |roots| > 0 && |roots[|roots| - 1].children| > 0
            ==> record.steps == RootSteps(roots[|roots| - 1])
    ensures !(startBy && |roots| > 0 && |roots[|roots| - 1].children| > 0)
            ==> record.steps == [StepRecord(record.proof, tacticBefore, "no goals", proofRange.start, proofRange.stop)]
  {
    var theoremProof := proof;
    var steps: seq<StepRecord> := [];
    var refSteps: seq<seq<StepRecord>> := [];
    var i := 0;
    while i < |roots|
      invariant 0 <= i <= |roots|
      invariant !startBy ==> theoremProof == proof && refSteps == AllRootSteps(roots[..i]) && steps == []
      invariant startBy ==> refSteps == []
      invariant startBy ==> theoremProof == if proof.None? && i > 0 then Some(roots[0].tactic.pp) else proof
      invariant startBy && i > 0 ==> steps == RootSteps(roots[i - 1])
      invariant i == 0 ==> steps == []
    {
      var data := RootSteps(roots[i]);
      if startBy {
        steps := data;
        if theoremProof.None? {
          theoremProof := Some(roots[i].tactic.pp);
        }
      } else {
        assert roots[..i + 1] == roots[..i] + [roots[i]];
        refSteps := refSteps + [data];
      }
      i := i + 1;
    }
    assert roots[..|roots|] == roots;
    if |steps| == 0 {
      steps := [StepRecord(theoremProof, tacticBefore, "no goals", proofRange.start, proofRange.stop)];
    }
    record := TheoremRecord(theoremProof, steps, refSteps);
  }
}
