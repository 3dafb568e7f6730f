/** The elaborator's info tree, as far as the extractors look at it: every
    node has a syntax reference, optional tactic or term information, and
    children. */
module InfoTree {
  import opened Basics
  import opened Positions

  /** A proof goal, identified by its pretty-printed text. */
  datatype Goal = Goal(pp: string)

  /** The syntax a node stands for: its text, its offset range (possibly
      absent) and its syntax kind path, e.g. `["ident"]`. The text is
      always present here; a missing `pp` is not represented. */
  datatype Ref = Ref(pp: string, range: Option<StringRange>, kind: seq<string>)

  /** Goals before and after a tactic ran. */
  datatype TacticInfo = TacticInfo(before: seq<Goal>, after: seq<Goal>)

  /** An elaborated term: its value, its type, and the type it was
      expected to have, if any. */
  datatype TermInfo = TermInfo(value: string, typ: string, expectedType: Option<string>)

  /** A node without info has neither kind of information. */
  datatype InfoNode = InfoNode(ref: Ref, tactic: Option<TacticInfo>, term: Option<TermInfo>, children: seq<InfoNode>)

  /** All nodes of a forest, each before its descendants, siblings left to
      right. */
  function Flatten(nodes: seq<InfoNode>): (r: seq<InfoNode>)
    ensures |nodes| > 0 ==> |r| > 0 && r[0] == nodes[0]
    decreases nodes
  {
    if |nodes| == 0 then []
    else [nodes[0]] + Flatten(nodes[0].children) + Flatten(nodes[1..])
  }

  /** Flattening distributes over concatenation of forests. */
  lemma {:induction false} FlattenAppend(a: seq<InfoNode>, b: seq<InfoNode>)
    ensures Flatten(a + b) == Flatten(a) + Flatten(b)
    decreases |a|
  {
    if |a| > 0 {
      assert (a + b)[0] == a[0];
      assert (a + b)[1..] == a[1..] + b;
      FlattenAppend(a[1..], b);
    } else {
      assert a + b == b;
    }
  }

  /** A child's subtree appears inside its parent's flattening. */
  lemma ChildrenFlattened(n: InfoNode, rest: seq<InfoNode>)
    ensures forall m :: m in Flatten(n.children) ==> m in Flatten([n] + rest)
  {
    assert ([n] + rest)[0] == n;
  }
}
