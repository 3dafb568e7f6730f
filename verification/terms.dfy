/** Identifier terms of the info tree and the lookup that finds the term
    naming a theorem, used for its statement when no tactic proof exists. */
module Terms {
  import opened Basics
  import opened Text
  import opened Positions
  import opened InfoTree

  /** An identifier occurrence with its elaborated type. */
  datatype Term = Term(range: FileRange, ident: string, typ: string)

  /** A node `collect_all_terms` keeps: an identifier with term information
      that was elaborated without an expected type. */
  predicate KeepsTerm(n: InfoNode) {
    n.term.Some? && n.ref.kind == ["ident"] && n.term.value.expectedType.None?
  }

  function MakeTerm(n: InfoNode, lines: seq<int>): Term
    requires n.term.Some?
  {
    Term(FromStringRange(lines, n.ref.range), n.term.value.value, n.term.value.typ)
  }

  /** Reference list: the term of every kept node in pre-order, descending
      into every node. */
  function IdentTerms(nodes: seq<InfoNode>, lines: seq<int>): seq<Term>
    decreases nodes
  {
    if |nodes| == 0 then []
    else
      var n := nodes[0];
      (if KeepsTerm(n) then [MakeTerm(n, lines)] else [])
      + IdentTerms(n.children, lines) + IdentTerms(nodes[1..], lines)
  }

  /** `collect_all_terms`: like `IdentTerms`, except that the walk does not
      go below a node it kept. */
  function CollectAllTerms(nodes: seq<InfoNode>, lines: seq<int>): (r: seq<Term>)
    ensures IsSubseq(r, IdentTerms(nodes, lines))
    ensures |nodes| > 0 && KeepsTerm(nodes[0]) ==> |r| > 0 && r[0] == MakeTerm(nodes[0], lines)
    decreases nodes
  {
    if |nodes| == 0 then []
    else
      var n := nodes[0];
      var here := if KeepsTerm(n) then [MakeTerm(n, lines)] else CollectAllTerms(n.children, lines);
      var rest := CollectAllTerms(nodes[1..], lines);
      var hereAll := (if KeepsTerm(n) then [MakeTerm(n, lines)] else []) + IdentTerms(n.children, lines);
      assert IsSubseq(here, hereAll) by {
        if KeepsTerm(n) {
          SubseqRefl([MakeTerm(n, lines)]);
          SubseqConcat([MakeTerm(n, lines)], [MakeTerm(n, lines)], [], IdentTerms(n.children, lines));
          assert here + [] == here;
        } else {
          assert hereAll == IdentTerms(n.children, lines);
        }
      }
      SubseqConcat(here, hereAll, rest, IdentTerms(nodes[1..], lines));
      here + rest
  }

  /** A kept node contributes its own term and nothing from below it,
      whatever its children hold. */
  lemma KeptHidesChildren(n: InfoNode, rest: seq<InfoNode>, lines: seq<int>)
    requires KeepsTerm(n)
    ensures CollectAllTerms([n] + rest, lines) == [MakeTerm(n, lines)] + CollectAllTerms(rest, lines)
  {
    assert ([n] + rest)[1..] == rest;
  }

  /** A node that is not kept contributes exactly what the walk collects
      below it. */
  lemma SkippedDescends(n: InfoNode, rest: seq<InfoNode>, lines: seq<int>)
    requires !KeepsTerm(n)
    ensures CollectAllTerms([n] + rest, lines) == CollectAllTerms(n.children, lines) + CollectAllTerms(rest, lines)
  {
    assert ([n] + rest)[1..] == rest;
  }

  /** No kept node has a kept node below it. */
  predicate NothingHidden(nodes: seq<InfoNode>) {
    forall m :: m in Flatten(nodes) && KeepsTerm(m) ==> IdentTerms(m.children, []) == []
  }

  /** `IdentTerms` is empty or not whatever the line table. */
  lemma IdentTermsEmpty(nodes: seq<InfoNode>, lines: seq<int>, other: seq<int>)
    ensures IdentTerms(nodes, lines) == [] <==> IdentTerms(nodes, other) == []
    decreases nodes
  {
    if |nodes| > 0 {
      IdentTermsEmpty(nodes[0].children, lines, other);
      IdentTermsEmpty(nodes[1..], lines, other);
    }
  }

  /** When no kept node has a kept node below it, nothing is hidden and the
      walk finds every kept node, in pre-order. */
  lemma {:induction false} CollectAllTermsComplete(nodes: seq<InfoNode>, lines: seq<int>)
    requires NothingHidden(nodes)
    ensures CollectAllTerms(nodes, lines) == IdentTerms(nodes, lines)
    decreases nodes
  {
    if |nodes| > 0 {
      var n := nodes[0];
      assert Flatten(nodes) == [n] + Flatten(n.children) + Flatten(nodes[1..]);
      CollectAllTermsComplete(n.children, lines);
      CollectAllTermsComplete(nodes[1..], lines);
      if KeepsTerm(n) {
        IdentTermsEmpty(n.children, lines, []);
        assert IdentTerms(nodes, lines) == [MakeTerm(n, lines)] + [] + IdentTerms(nodes[1..], lines);
      }
    }
  }

  /** A kept identifier hides the identifiers below it: the walk returns
      only the outer one, where the full pre-order list holds both. */
  lemma KeptNodeHidesChildren()
    ensures var inner := InfoNode(Ref("x", None, ["ident"]), None, Some(TermInfo("x", "Nat", None)), []);
            var outer := InfoNode(Ref("f", None, ["ident"]), None, Some(TermInfo("f", "Nat → Nat", None)), [inner]);
            |CollectAllTerms([outer], [])| == 1 && |IdentTerms([outer], [])| == 2
  {
    var inner := InfoNode(Ref("x", None, ["ident"]), None, Some(TermInfo("x", "Nat", None)), []);
    var outer := InfoNode(Ref("f", None, ["ident"]), None, Some(TermInfo("f", "Nat → Nat", None)), [inner]);
    assert KeepsTerm(outer) && KeepsTerm(inner);
    assert [outer][1..] == [];
    assert IdentTerms([inner], []) == [MakeTerm(inner, [])];
  }

  /** The test `find_term` applies to each term. */
  predicate TermMatches(range: FileRange, ident: string, t: Term) {
    InRange(range, t.range) && t.ident == ident
  }

  /** `find_term`: the first term inside `range` with the given identifier,
      or `None` when there is none. */
  function FindTerm(range: FileRange, ident: string, terms: seq<Term>): (r: Option<Term>)
    ensures r.None? <==> forall i :: 0 <= i < |terms| ==> !TermMatches(range, ident, terms[i])
    ensures r.Some? ==> exists i :: 0 <= i < |terms| && terms[i] == r.value && TermMatches(range, ident, terms[i])
                                    && forall j :: 0 <= j < i ==> !TermMatches(range, ident, terms[j])
    decreases |terms|
  {
    if |terms| == 0 then None
    else if TermMatches(range, ident, terms[0]) then Some(terms[0])
    else
      var r := FindTerm(range, ident, terms[1..]);
      assert forall i :: 0 <= i < |terms[1..]| ==> terms[1..][i] == terms[i + 1];
      r
  }

  /** The names the lookup tries for a theorem whose dotted name is `name`,
      from the full name down to the last component, each followed by its
      `@` form unless it already starts with `@`. */
  function SuffixNames(name: seq<string>): seq<string>
    decreases |name|
  {
    if |name| == 0 then []
    else
      var s := Join(name, ".");
      [s] + (if StartsWith(s, "@") then [] else ["@" + s]) + SuffixNames(name[1..])
  }

  /** Every name the cascade in `extract_theorem` tries, in order: the
      suffixes, then the `_root_.` form, then the last component in
      guillemets, the last two each with an `@` form. */
  function CascadeNames(name: seq<string>): seq<string>
    requires |name| > 0
  {
    var full := Join(name, ".");
    var quoted := "«" + name[|name| - 1] + "»";
    SuffixNames(name) + ["_root_." + full, "@_root_." + full, quoted, "@" + quoted]
  }

  /** The term found by the first candidate that finds one. */
  function FirstHit(range: FileRange, candidates: seq<string>, terms: seq<Term>): (r: Option<Term>)
    ensures r.Some? ==> r.value in terms && InRange(range, r.value.range) && r.value.ident in candidates
    ensures r.None? <==> forall c :: c in candidates ==> FindTerm(range, c, terms).None?
    decreases |candidates|
  {
    if |candidates| == 0 then None
    else
      var hit := FindTerm(range, candidates[0], terms);
      if hit.Some? then hit
      else
        var r := FirstHit(range, candidates[1..], terms);
        assert forall c :: c in candidates[1..] ==> c in candidates;
        assert forall c :: c in candidates ==> c == candidates[0] || c in candidates[1..];
        r
  }

  lemma {:induction false} FirstHitAppend(range: FileRange, a: seq<string>, b: seq<string>, terms: seq<Term>)
    ensures FirstHit(range, a + b, terms)
            == if FirstHit(range, a, terms).Some? then FirstHit(range, a, terms) else FirstHit(range, b, terms)
    decreases |a|
  {
    if |a| == 0 {
      assert a + b == b;
    } else {
      assert (a + b)[0] == a[0];
      assert (a + b)[1..] == a[1..] + b;
      FirstHitAppend(range, a[1..], b, terms);
    }
  }

  /** One round of the cascade loop: the name itself, then its `@` form. */
  function TryWithAt(range: FileRange, search: string, terms: seq<Term>): Option<Term> {
    var hit := FindTerm(range, search, terms);
    if hit.None? && !StartsWith(search, "@") then FindTerm(range, "@" + search, terms) else hit
  }

  lemma SuffixStep(range: FileRange, rest: seq<string>, terms: seq<Term>)
    requires |rest| > 0
    ensures var hit := TryWithAt(range, Join(rest, "."), terms);
            FirstHit(range, SuffixNames(rest), terms)
            == if hit.Some? then hit else FirstHit(range, SuffixNames(rest[1..]), terms)
  {
    var search := Join(rest, ".");
    var atForm := if StartsWith(search, "@") then [] else ["@" + search];
    assert SuffixNames(rest) == [search] + atForm + SuffixNames(rest[1..]);
    FirstHitAppend(range, [search] + atForm, SuffixNames(rest[1..]), terms);
    FirstHitAppend(range, [search], atForm, terms);
    assert ([search])[1..] == [];
    if atForm != [] {
      assert atForm[1..] == [];
    }
  }

  /** Two names tried one after the other. */
  function TryBoth(range: FileRange, first: string, second: string, terms: seq<Term>): Option<Term> {
    var hit := FindTerm(range, first, terms);
    if hit.Some? then hit else FindTerm(range, second, terms)
  }

  lemma PairHit(range: FileRange, first: string, second: string, terms: seq<Term>)
    ensures FirstHit(range, [first, second], terms) == TryBoth(range, first, second, terms)
  {
    assert [first, second][1..] == [second];
    assert [second][1..] == [];
  }

  lemma TailStep(range: FileRange, name: seq<string>, terms: seq<Term>)
    requires |name| > 0
    ensures var full := Join(name, ".");
            var quoted := "«" + name[|name| - 1] + "»";
            var suffixHit := FirstHit(range, SuffixNames(name), terms);
            var rootHit := TryBoth(range, "_root_." + full, "@_root_." + full, terms);
            FirstHit(range, CascadeNames(name), terms)
            == if suffixHit.Some? then suffixHit
               else if rootHit.Some? then rootHit
               else TryBoth(range, quoted, "@" + quoted, terms)
  {
    var full := Join(name, ".");
    var quoted := "«" + name[|name| - 1] + "»";
    var rootForms := ["_root_." + full, "@_root_." + full];
    var quotedForms := [quoted, "@" + quoted];
    assert CascadeNames(name) == SuffixNames(name) + (rootForms + quotedForms);
    FirstHitAppend(range, SuffixNames(name), rootForms + quotedForms, terms);
    FirstHitAppend(range, rootForms, quotedForms, terms);
    PairHit(range, "_root_." + full, "@_root_." + full, terms);
    PairHit(range, quoted, "@" + quoted, terms);
  }

  /** The name cascade of `extract_theorem`, written as the loop the
      source runs: it finds what the first successful candidate finds. The
      caller only passes non-empty names. */
  method FindTheoremTerm(range: FileRange, name: seq<string>, terms: seq<Term>) returns (term: Option<Term>)
    requires |name| > 0
    ensures term == FirstHit(range, CascadeNames(name), terms)
  {
    var rest := name;
    term := None;
    while term.None? && |rest| > 0
      invariant term.None? ==> FirstHit(range, SuffixNames(name), terms) == FirstHit(range, SuffixNames(rest), terms)
      invariant term.Some? ==> term == FirstHit(range, SuffixNames(name), terms)
      decreases |rest|
    {
      var search := Join(rest, ".");
      SuffixStep(range, rest, terms);
      term := FindTerm(range, search, terms);
      if term.None? && !StartsWith(search, "@") {
        search := "@" + search;
        term := FindTerm(range, search, terms);
      }
      rest := rest[1..];
    }
    TailStep(range, name, terms);
    var full := Join(name, ".");
    var quoted := "«" + name[|name| - 1] + "»";
    if term.None? {
      term := FindTerm(range, "_root_." + full, terms);
      if term.None? {
        term := FindTerm(range, "@_root_." + full, terms);
      }
    }
    if term.None? {
      term := FindTerm(range, quoted, terms);
      if term.None? {
        term := FindTerm(range, "@" + quoted, terms);
      }
    }
  }
}
