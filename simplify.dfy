/**
 * `simplify` and `simplifyNodeToList` of Sources/SwiftPEG/SimplifiedNode.swift:
 * drop every node whose expression has no name, splicing its children into
 * the parent in its place.
 */
module Simplification {
  import opened Wrappers
  import opened Nodes

  /** The flattened tree: only named nodes remain. */
  datatype SimplifiedNode = SimplifiedNode(
    fullText: string, start: nat, end: nat, children: seq<SimplifiedNode>, name: string)

  /** Every node of the tree has a non-empty name. */
  predicate AllNamed(s: SimplifiedNode) {
    s.name != "" && forall c | c in s.children :: AllNamed(c)
  }

  /**
   * `simplify(for:)`: nil for an unnamed node; otherwise a node with the same
   * text span and name whose children are the children's lists, concatenated.
   */
  function Simplify(n: Node): (r: Option<SimplifiedNode>)
    ensures r.None? <==> n.exprName == ""
    ensures r.Some? ==> r.value.fullText == n.fullText && r.value.start == n.start && r.value.end == n.end
    ensures r.Some? ==> r.value.name == n.exprName
    ensures r.Some? ==> AllNamed(r.value)
    decreases n, 0
  {
    if n.exprName == "" then None
    else Some(SimplifiedNode(n.fullText, n.start, n.end, Flatten(n.children), n.exprName))
  }

  /** `simplifyNodeToList(for:)`: a named node becomes its simplification, an unnamed one its children's lists. */
  function SimplifyToList(n: Node): (r: seq<SimplifiedNode>)
    ensures forall s | s in r :: AllNamed(s)
    decreases n, 1
  {
    if n.exprName != "" then [Simplify(n).value] else Flatten(n.children)
  }

  /** The loop `for child in node.children { list += simplifyNodeToList(for: child) }`. */
  function Flatten(cs: seq<Node>): (r: seq<SimplifiedNode>)
    ensures forall s | s in r :: AllNamed(s)
    decreases cs, 2
  {
    if cs == [] then [] else SimplifyToList(cs[0]) + Flatten(cs[1..])
  }

  /** A named node's identity for ordering purposes: its name and text span. */
  datatype Stamp = Stamp(name: string, start: nat, end: nat)

  /** The named nodes of a parse tree, in pre-order (left to right, parents first). */
  function NamedStamps(n: Node): seq<Stamp>
    decreases n, 0
  {
    (if n.exprName != "" then [Stamp(n.exprName, n.start, n.end)] else []) + NodesStamps(n.children)
  }

  function NodesStamps(cs: seq<Node>): seq<Stamp>
    decreases cs, 1
  {
    if cs == [] then [] else NamedStamps(cs[0]) + NodesStamps(cs[1..])
  }

  /** All nodes of a simplified tree, in pre-order. */
  function Stamps(s: SimplifiedNode): seq<Stamp>
    decreases s, 0
  {
    [Stamp(s.name, s.start, s.end)] + TreesStamps(s.children)
  }

  function TreesStamps(ss: seq<SimplifiedNode>): seq<Stamp>
    decreases ss, 1
  {
    if ss == [] then [] else Stamps(ss[0]) + TreesStamps(ss[1..])
  }

  lemma {:induction false} TreesStampsAppend(a: seq<SimplifiedNode>, b: seq<SimplifiedNode>)
    ensures TreesStamps(a + b) == TreesStamps(a) + TreesStamps(b)
    decreases |a|
  {
    if a == [] {
      assert a + b == b;
    } else {
      assert (a + b)[0] == a[0] && (a + b)[1..] == a[1..] + b;
      TreesStampsAppend(a[1..], b);
    }
  }

  /** A named node simplifies to a tree listing exactly its named descendants, in their original order. */
  lemma {:induction false} SimplifyKeepsOrder(n: Node)
    requires n.exprName != ""
    ensures Stamps(Simplify(n).value) == NamedStamps(n)
    decreases n, 0
  {
    FlattenKeepsOrder(n.children);
  }

  /** The list of a node holds exactly its named nodes, in order: nothing named is lost, added or moved. */
  lemma {:induction false} ToListKeepsOrder(n: Node)
    ensures TreesStamps(SimplifyToList(n)) == NamedStamps(n)
    decreases n, 1
  {
    if n.exprName != "" {
      SimplifyKeepsOrder(n);
      assert TreesStamps([Simplify(n).value]) == Stamps(Simplify(n).value) + TreesStamps([]);
    } else {
      FlattenKeepsOrder(n.children);
    }
  }

  lemma {:induction false} FlattenKeepsOrder(cs: seq<Node>)
    ensures TreesStamps(Flatten(cs)) == NodesStamps(cs)
    decreases cs, 2
  {
    if cs != [] {
      ToListKeepsOrder(cs[0]);
      FlattenKeepsOrder(cs[1..]);
      TreesStampsAppend(SimplifyToList(cs[0]), Flatten(cs[1..]));
    }
  }

  /** `simplifyNodeToList` of a named node is the one-element list of its simplification. */
  lemma NamedToList(n: Node)
    requires n.exprName != ""
    ensures SimplifyToList(n) == [Simplify(n).value]
  {
  }

  /** An unnamed node is spliced out: its list is its children's lists in order; an unnamed leaf gives nothing. */
  lemma UnnamedToList(n: Node)
    requires n.exprName == ""
    ensures |n.children| > 0 ==> SimplifyToList(n) == SimplifyToList(n.children[0]) + Flatten(n.children[1..])
    ensures n.children == [] ==> SimplifyToList(n) == []
  {
  }
}
