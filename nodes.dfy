/**
 * The parse tree of Sources/SwiftPEG/Node.swift.
 *
 * A Swift Node holds a reference to the expression that produced it and reads
 * `expr.name` and `expr.type` on demand. Names are only written while a
 * grammar is being compiled, never while it parses, so the model keeps the
 * two values the node reads as fields.
 */
module Nodes {
  import opened Expressions

  datatype Node = Node(
    exprName: string,
    exprType: ExpressionType,
    fullText: string,
    start: nat,
    end: nat,
    children: seq<Node>)
  {
    /** `text`: the matched slice of the full text. */
    function Text(): (s: string)
      requires start <= end <= |fullText|
      ensures |s| == end - start
      ensures forall i | 0 <= i < |s| :: s[i] == fullText[start + i]
    {
      fullText[start..end]
    }
  }

  /** Offsets are in range and every child is a slice of the same text inside its parent's span. */
  predicate WellFormed(n: Node)
    decreases n
  {
    && n.start <= n.end <= |n.fullText|
    && forall i | 0 <= i < |n.children| ::
         && n.children[i].fullText == n.fullText
         && n.start <= n.children[i].start
         && n.children[i].end <= n.end
         && WellFormed(n.children[i])
  }

  /** Swift's `==` on Node: text, expression name, expression type, child count, then children pairwise. */
  predicate Equal(a: Node, b: Node)
    requires WellFormed(a) && WellFormed(b)
    decreases a, 1, 0
  {
    if a.Text() != b.Text() || a.exprName != b.exprName
       || a.exprType != b.exprType || |a.children| != |b.children|
    then false
    else ChildrenEqualFrom(a, b, 0)
  }

  /** The loop of `==` from child `i` on: false at the first child pair that differs. */
  predicate ChildrenEqualFrom(a: Node, b: Node, i: nat)
    requires WellFormed(a) && WellFormed(b)
    requires |a.children| == |b.children| && i <= |a.children|
    decreases a, 0, |a.children| - i
  {
    if i == |a.children| then true
    else if !Equal(a.children[i], b.children[i]) then false
    else ChildrenEqualFrom(a, b, i + 1)
  }

  lemma {:induction false} ChildrenEqualFromIff(a: Node, b: Node, i: nat)
    requires WellFormed(a) && WellFormed(b)
    requires |a.children| == |b.children| && i <= |a.children|
    ensures ChildrenEqualFrom(a, b, i) <==>
      forall j | i <= j < |a.children| :: Equal(a.children[j], b.children[j])
    decreases |a.children| - i
  {
    if i < |a.children| {
      ChildrenEqualFromIff(a, b, i + 1);
    }
  }

  /**
   * `==` holds exactly when the four compared fields agree and the children are
   * pairwise `==`; offsets and the full text play no part beyond the matched text.
   */
  lemma EqualIff(a: Node, b: Node)
    requires WellFormed(a) && WellFormed(b)
    ensures Equal(a, b) <==>
      && a.Text() == b.Text()
      && a.exprName == b.exprName
      && a.exprType == b.exprType
      && |a.children| == |b.children|
      && forall j | 0 <= j < |a.children| :: Equal(a.children[j], b.children[j])
  {
    if |a.children| == |b.children| {
      ChildrenEqualFromIff(a, b, 0);
    }
  }

  lemma {:induction false} EqualReflexive(a: Node)
    requires WellFormed(a)
    ensures Equal(a, a)
    decreases a
  {
    forall j | 0 <= j < |a.children|
      ensures Equal(a.children[j], a.children[j])
    {
      EqualReflexive(a.children[j]);
    }
    EqualIff(a, a);
  }

  lemma {:induction false} EqualSymmetric(a: Node, b: Node)
    requires WellFormed(a) && WellFormed(b)
    ensures Equal(a, b) ==> Equal(b, a)
    decreases a
  {
    if Equal(a, b) {
      EqualIff(a, b);
      forall j | 0 <= j < |b.children|
        ensures Equal(b.children[j], a.children[j])
      {
        EqualSymmetric(a.children[j], b.children[j]);
      }
      EqualIff(b, a);
    }
  }

  lemma {:induction false} EqualTransitive(a: Node, b: Node, c: Node)
    requires WellFormed(a) && WellFormed(b) && WellFormed(c)
    ensures Equal(a, b) && Equal(b, c) ==> Equal(a, c)
    decreases a
  {
    if Equal(a, b) && Equal(b, c) {
      EqualIff(a, b);
      EqualIff(b, c);
      forall j | 0 <= j < |a.children|
        ensures Equal(a.children[j], c.children[j])
      {
        EqualTransitive(a.children[j], b.children[j], c.children[j]);
      }
      EqualIff(a, c);
    }
  }

  /**
   * Two childless nodes of the same expression that matched the same text are
   * `==` wherever and in whatever input they matched.
   */
  lemma LeavesEqualAnywhere(a: Node, b: Node)
    requires WellFormed(a) && WellFormed(b)
    requires a.children == [] && b.children == []
    ensures Equal(a, b) <==>
      a.exprName == b.exprName && a.exprType == b.exprType
      && a.fullText[a.start..a.end] == b.fullText[b.start..b.end]
  {
    EqualIff(a, b);
  }
}
