/**
 * The expression graph of Sources/SwiftPEG/Expression.swift.
 *
 * Swift expressions are heap objects that point at each other, and the graph
 * is cyclic once rule references are resolved. Here every object lives in an
 * arena (`seq<Cell>`) and a reference to an object is its index (`Ref`).
 * `Expr<M>` is generic in what a member is: with `M = Ref` it is one arena
 * cell, with `M = Tree` it is a finite expression tree, which is how the
 * compiler's output is described before references are linked.
 */
module Expressions {
  import opened Wrappers

  /** Index of an expression object in an arena. */
  type Ref = nat

  /** The `type` tag every expression carries (ExpressionType in the source). */
  datatype ExpressionType =
    | NoneType | LiteralType | RegexType
    | CompoundType | SequenceType | OneOfType
    | SingletonType | LookaheadType | NotType | OptionalType | ZeroOrMoreType | OneOrMoreType
    | LazyReferenceType

  /** One expression object; `name` is the mutable `name` field of the Swift class. */
  datatype Expr<M> =
    | Literal(name: string, literal: string)
    | Regex(name: string, pattern: string)
    | Sequence(name: string, members: seq<M>)
    | OneOf(name: string, members: seq<M>)
    | Lookahead(name: string, member: M)
    | Not(name: string, member: M)
    | Optional(name: string, member: M)
    | ZeroOrMore(name: string, member: M)
    | OneOrMore(name: string, member: M, min: int)
    | LazyReference(name: string, parent: Option<Ref>, parentMemberIdx: int)
  {
    /** The `type` tag; OneOrMore's initialiser passes `.zeroOrMore`, so that is its tag. */
    function Type(): ExpressionType {
      match this
      case Literal(_, _) => LiteralType
      case Regex(_, _) => RegexType
      case Sequence(_, _) => SequenceType
      case OneOf(_, _) => OneOfType
      case Lookahead(_, _) => LookaheadType
      case Not(_, _) => NotType
      case Optional(_, _) => OptionalType
      case ZeroOrMore(_, _) => ZeroOrMoreType
      case OneOrMore(_, _, _) => ZeroOrMoreType
      case LazyReference(_, _, _) => LazyReferenceType
    }

    /** Subclasses of Compound: an ordered list of members. */
    predicate IsCompound() {
      Sequence? || OneOf?
    }

    /** Subclasses of Singleton: exactly one member. */
    predicate IsSingleton() {
      Lookahead? || Not? || Optional? || ZeroOrMore? || OneOrMore?
    }
  }

  type Cell = Expr<Ref>

  /** A finite expression whose members are expressions, not references. */
  datatype Tree = Tree(expr: Expr<Tree>)

  /** The references a cell holds, in slot order. */
  function MembersOf(e: Cell): (ms: seq<Ref>)
    ensures e.IsCompound() ==> ms == e.members
    ensures e.IsSingleton() ==> ms == [e.member]
    ensures !e.IsCompound() && !e.IsSingleton() ==> ms == []
  {
    match e
    case Sequence(_, ms) => ms
    case OneOf(_, ms) => ms
    case Lookahead(_, m) => [m]
    case Not(_, m) => [m]
    case Optional(_, m) => [m]
    case ZeroOrMore(_, m) => [m]
    case OneOrMore(_, m, _) => [m]
    case _ => []
  }

  /** Every reference in `ms` is below `bound`. */
  predicate AllBelow(ms: seq<Ref>, bound: nat) {
    forall i | 0 <= i < |ms| :: ms[i] < bound
  }

  /** Every member reference of `e` is below `bound`. */
  predicate Below(e: Cell, bound: nat) {
    AllBelow(MembersOf(e), bound)
  }

  /** Member slot `j` of a cell: index `j` of a compound, slot 0 of a singleton. */
  function Slot(e: Cell, j: int): (r: Option<Ref>)
    ensures r.Some? <==> 0 <= j < |MembersOf(e)|
    ensures r.Some? ==> r.value == MembersOf(e)[j]
  {
    if e.IsCompound() then (if 0 <= j < |e.members| then Some(e.members[j]) else None)
    else if e.IsSingleton() then (if j == 0 then Some(e.member) else None)
    else None
  }

  /** The slot a parent pointer designates: a singleton ignores `parentMemberIdx`. */
  function SlotIndex(e: Cell, parentMemberIdx: int): int {
    if e.IsSingleton() then 0 else parentMemberIdx
  }

  /** Overwrite member slot `j` (a no-op when `j` is not a slot of `e`). */
  function SetSlot(e: Cell, j: int, target: Ref): (e': Cell)
    ensures e'.Type() == e.Type() && e'.name == e.name
    ensures |MembersOf(e')| == |MembersOf(e)|
    ensures forall k :: Slot(e', k) == if k == j && Slot(e, k).Some? then Some(target) else Slot(e, k)
  {
    if e.IsCompound() && 0 <= j < |e.members| then e.(members := e.members[j := target])
    else if e.IsSingleton() && j == 0 then e.(member := target)
    else e
  }

  /** Every member reference points into the arena. */
  ghost predicate Closed(g: seq<Cell>) {
    forall p | 0 <= p < |g| :: Below(g[p], |g|)
  }

  /** Every member was allocated before its container: the arena is a forest of trees. */
  ghost predicate Ordered(g: seq<Cell>) {
    forall p | 0 <= p < |g| :: Below(g[p], p)
  }

  lemma OrderedIsClosed(g: seq<Cell>)
    requires Ordered(g)
    ensures Closed(g)
  {
  }

  /** The tree whose root is `e` with its member references replaced by the trees `ts`. */
  function Rebuild(e: Cell, ts: seq<Tree>): (t: Tree)
    requires |ts| == |MembersOf(e)|
    ensures t.expr.Type() == e.Type() && t.expr.name == e.name
  {
    match e
    case Literal(n, l) => Tree(Literal(n, l))
    case Regex(n, p) => Tree(Regex(n, p))
    case Sequence(n, _) => Tree(Sequence(n, ts))
    case OneOf(n, _) => Tree(OneOf(n, ts))
    case Lookahead(n, _) => Tree(Lookahead(n, ts[0]))
    case Not(n, _) => Tree(Not(n, ts[0]))
    case Optional(n, _) => Tree(Optional(n, ts[0]))
    case ZeroOrMore(n, _) => Tree(ZeroOrMore(n, ts[0]))
    case OneOrMore(n, _, k) => Tree(OneOrMore(n, ts[0], k))
    case LazyReference(n, _, _) => Tree(LazyReference(n, None, -1))
  }

  /** The tree an arena reference denotes while the arena is still ordered. */
  function Unfold(g: seq<Cell>, r: Ref): (t: Tree)
    requires Ordered(g) && r < |g|
    ensures t.expr.Type() == g[r].Type() && t.expr.name == g[r].name
    decreases r
  {
    var ms := MembersOf(g[r]);
    assert Below(g[r], r);
    Rebuild(g[r], seq(|ms|, i requires 0 <= i < |ms| => Unfold(g, ms[i])))
  }

  /** A cell without the parent bookkeeping of a LazyReference, which neither matching nor unfolding reads. */
  function Strip(c: Cell): (s: Cell)
    ensures MembersOf(s) == MembersOf(c) && s.Type() == c.Type() && s.name == c.name
    ensures s.LazyReference? == c.LazyReference?
    ensures !c.LazyReference? ==> s == c
  {
    if c.LazyReference? then LazyReference(c.name, None, -1) else c
  }

  lemma RebuildStrip(c: Cell, ts: seq<Tree>)
    requires |ts| == |MembersOf(c)|
    ensures Rebuild(Strip(c), ts) == Rebuild(c, ts)
  {
  }

  /** Arenas that agree up to parent bookkeeping at and below `r` unfold `r` to the same tree. */
  lemma {:induction false} UnfoldStrip(g: seq<Cell>, h: seq<Cell>, r: Ref)
    requires Ordered(g) && Ordered(h) && r < |g| && r < |h|
    requires forall k | 0 <= k <= r :: Strip(h[k]) == Strip(g[k])
    ensures Unfold(h, r) == Unfold(g, r)
    decreases r
  {
    var ms := MembersOf(g[r]);
    assert MembersOf(h[r]) == ms by {
      assert MembersOf(Strip(h[r])) == MembersOf(Strip(g[r]));
    }
    assert Below(g[r], r);
    forall i | 0 <= i < |ms|
      ensures Unfold(h, ms[i]) == Unfold(g, ms[i])
    {
      UnfoldStrip(g, h, ms[i]);
    }
    var us := seq(|ms|, i requires 0 <= i < |ms| => Unfold(g, ms[i]));
    assert seq(|ms|, i requires 0 <= i < |ms| => Unfold(h, ms[i])) == us;
    RebuildStrip(h[r], us);
    RebuildStrip(g[r], us);
  }

  /** Largest index of `x` in `s`, or -1 when `x` does not occur. */
  function LastIndex(s: seq<Ref>, x: Ref): (i: int)
    ensures -1 <= i < |s|
    ensures i == -1 <==> x !in s
    ensures i >= 0 ==> s[i] == x && forall j | i < j < |s| :: s[j] != x
  {
    if s == [] then -1
    else if s[|s| - 1] == x then |s| - 1
    else LastIndex(s[..|s| - 1], x)
  }

  /**
   * The effect of the first `n` rounds of the loop in Compound's initialiser:
   * a LazyReference at member index i gets `parent = p` and `parentMemberIdx = i`.
   */
  function Adopt(g: seq<Cell>, p: Ref, ms: seq<Ref>, n: nat): (g': seq<Cell>)
    requires n <= |ms| && forall m | m in ms :: m < |g|
    ensures |g'| == |g|
    decreases n
  {
    if n == 0 then g
    else
      var h := Adopt(g, p, ms, n - 1);
      var m := ms[n - 1];
      assert m in ms;
      if h[m].LazyReference? then h[m := h[m].(parent := Some(p), parentMemberIdx := n - 1)] else h
  }

  /** After the loop, each LazyReference member records its last member index; nothing else changes. */
  lemma {:induction false} AdoptAt(g: seq<Cell>, p: Ref, ms: seq<Ref>, n: nat, k: nat)
    requires n <= |ms| && (forall m | m in ms :: m < |g|) && k < |g|
    ensures Adopt(g, p, ms, n)[k] ==
      if g[k].LazyReference? && k in ms[..n]
      then g[k].(parent := Some(p), parentMemberIdx := LastIndex(ms[..n], k))
      else g[k]
    decreases n
  {
    if n > 0 {
      AdoptAt(g, p, ms, n - 1, k);
      assert ms[..n - 1] == ms[..n][..n - 1];
      assert k in ms[..n] <==> k in ms[..n - 1] || ms[n - 1] == k;
    }
  }

  /** The heap of expression objects; each method is one initialiser or field write of the source. */
  class Arena {
    var exprs: seq<Cell>

    constructor ()
      ensures exprs == []
    {
      exprs := [];
    }

    /** Allocate an expression with no member (Literal, Regex or LazyReference). */
    method New(e: Cell) returns (r: Ref)
      requires !e.IsCompound() && !e.IsSingleton()
      modifies this
      ensures r == |old(exprs)| && exprs == old(exprs) + [e]
    {
      r := |exprs|;
      exprs := exprs + [e];
    }

    /** `Regex(pattern, name:)`: the stored pattern is anchored with a leading "^". */
    method NewRegex(pattern: string, name: string) returns (r: Ref)
      modifies this
      ensures r == |old(exprs)| && exprs == old(exprs) + [Regex(name, "^" + pattern)]
    {
      r := New(Regex(name, "^" + pattern));
    }

    /** Compound's initialiser: every LazyReference member learns its parent and its member index. */
    method NewCompound(e: Cell) returns (r: Ref)
      requires e.IsCompound() && forall m | m in e.members :: m < |exprs|
      modifies this
      ensures r == |old(exprs)|
      ensures exprs == Adopt(old(exprs) + [e], r, e.members, |e.members|)
    {
      r := |exprs|;
      exprs := exprs + [e];
      for i := 0 to |e.members|
        invariant exprs == Adopt(old(exprs) + [e], r, e.members, i)
      {
        var m := e.members[i];
        assert m in e.members;
        if exprs[m].Type() == LazyReferenceType {
          exprs := exprs[m := exprs[m].(parent := Some(r), parentMemberIdx := i)];
        }
      }
    }

    /** Singleton's initialiser: a LazyReference member learns its parent only. */
    method NewSingleton(e: Cell) returns (r: Ref)
      requires e.IsSingleton() && e.member < |exprs|
      modifies this
      ensures r == |old(exprs)| && |exprs| == r + 1 && exprs[r] == e
      ensures forall k | 0 <= k < r && k != e.member :: exprs[k] == old(exprs)[k]
      ensures exprs[e.member] ==
        if old(exprs)[e.member].LazyReference? then old(exprs)[e.member].(parent := Some(r))
        else old(exprs)[e.member]
    {
      r := |exprs|;
      exprs := exprs + [e];
      if exprs[e.member].Type() == LazyReferenceType {
        exprs := exprs[e.member := exprs[e.member].(parent := Some(r))];
      }
    }

    /** `expr.name = name`. */
    method SetName(r: Ref, name: string)
      requires r < |exprs|
      modifies this
      ensures exprs == old(exprs)[r := old(exprs)[r].(name := name)]
    {
      exprs := exprs[r := exprs[r].(name := name)];
    }

    /** `compound.members[idx] = target`. */
    method SetMemberAt(p: Ref, idx: int, target: Ref)
      requires p < |exprs| && exprs[p].IsCompound() && 0 <= idx < |exprs[p].members|
      modifies this
      ensures exprs == old(exprs)[p := old(exprs)[p].(members := old(exprs)[p].members[idx := target])]
    {
      exprs := exprs[p := exprs[p].(members := exprs[p].members[idx := target])];
    }

    /** `singleton.member = target`. */
    method SetMember(p: Ref, target: Ref)
      requires p < |exprs| && exprs[p].IsSingleton()
      modifies this
      ensures exprs == old(exprs)[p := old(exprs)[p].(member := target)]
    {
      exprs := exprs[p := exprs[p].(member := target)];
    }

    /** `compound.members = members`: a plain field write, no parent bookkeeping. */
    method SetMembers(r: Ref, members: seq<Ref>)
      requires r < |exprs| && exprs[r].IsCompound()
      modifies this
      ensures exprs == old(exprs)[r := old(exprs)[r].(members := members)]
    {
      exprs := exprs[r := exprs[r].(members := members)];
    }
  }
}
