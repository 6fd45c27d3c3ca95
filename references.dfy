/**
 * The bookkeeping that lets RuleVisitor.swift link rule references after the
 * fact: every LazyReference the visitor creates goes on its `lazyReferences`
 * worklist, and the initialisers of Compound and Singleton (Expression.swift)
 * record in each LazyReference member which object holds it and at which
 * member index. `substituteLazyReference` then overwrites exactly those slots.
 *
 * `Inv` is what the visitor keeps true between calls; `Substitute` is the
 * specification of the linking pass.
 */
module References {
  import opened Wrappers
  import opened Expressions

  /** Cell `r` exists and is a LazyReference. */
  predicate IsLazy(g: seq<Cell>, r: Ref) {
    r < |g| && g[r].LazyReference?
  }

  /** Strictly increasing, hence without repetition. */
  predicate Increasing(s: seq<Ref>) {
    forall i, j | 0 <= i < j < |s| :: s[i] < s[j]
  }

  /** The worklist holds every LazyReference cell of the arena once, in allocation order. */
  ghost predicate Registered(g: seq<Cell>, w: seq<Ref>) {
    && Increasing(w)
    && (forall i | 0 <= i < |w| :: IsLazy(g, w[i]))
    && (forall r: Ref {:trigger IsLazy(g, r)} | IsLazy(g, r) :: r in w)
  }

  /** Every parent pointer points into the arena. */
  ghost predicate ParentsInside(g: seq<Cell>) {
    forall l: Ref {:trigger IsLazy(g, l)} | IsLazy(g, l) && g[l].parent.Some? :: g[l].parent.value < |g|
  }

  /** The slot a LazyReference's parent pointer designates holds that LazyReference. */
  ghost predicate Holds(g: seq<Cell>, l: Ref)
    requires IsLazy(g, l) && ParentsInside(g) && g[l].parent.Some?
  {
    var p := g[l].parent.value;
    Slot(g[p], SlotIndex(g[p], g[l].parentMemberIdx)) == Some(l)
  }

  /** Every parent pointer is right. */
  ghost predicate ParentsHold(g: seq<Cell>) {
    && ParentsInside(g)
    && forall l: Ref {:trigger Holds(g, l)} | IsLazy(g, l) && g[l].parent.Some? :: Holds(g, l)
  }

  /** Every slot that holds a LazyReference is the one that LazyReference's parent pointer designates. */
  ghost predicate Tracked(g: seq<Cell>) {
    forall p, j | 0 <= p < |g| && 0 <= j < |MembersOf(g[p])| && IsLazy(g, MembersOf(g[p])[j]) ::
      && g[MembersOf(g[p])[j]].parent == Some(p)
      && SlotIndex(g[p], g[MembersOf(g[p])[j]].parentMemberIdx) == j
  }

  /** What the visitor keeps true of its arena and its worklist. */
  ghost predicate Inv(g: seq<Cell>, w: seq<Ref>) {
    Ordered(g) && Registered(g, w) && ParentsHold(g) && Tracked(g)
  }

  /** No cell holds `r` as a member: `r` can still be handed to an initialiser. */
  ghost predicate Root(g: seq<Cell>, r: Ref) {
    forall p | 0 <= p < |g| :: r !in MembersOf(g[p])
  }

  /** Every reference in `ms` is at least `lo`. */
  predicate AllAtLeast(ms: seq<Ref>, lo: nat) {
    forall i | 0 <= i < |ms| :: lo <= ms[i]
  }

  /**
   * `g1` is `g0` after more allocation: the old cells are the same up to parent
   * bookkeeping, and the new cells only hold new cells.
   */
  ghost predicate Extends(g0: seq<Cell>, g1: seq<Cell>) {
    && |g0| <= |g1|
    && (forall k | 0 <= k < |g0| :: Strip(g1[k]) == Strip(g0[k]))
    && (forall p | |g0| <= p < |g1| :: AllAtLeast(MembersOf(g1[p]), |g0|))
  }

  lemma ExtendsTransitive(g0: seq<Cell>, g1: seq<Cell>, g2: seq<Cell>)
    requires Extends(g0, g1) && Extends(g1, g2)
    ensures Extends(g0, g2)
  {
    forall p | |g0| <= p < |g2|
      ensures AllAtLeast(MembersOf(g2[p]), |g0|)
    {
      if p < |g1| {
        assert MembersOf(g2[p]) == MembersOf(Strip(g2[p])) == MembersOf(Strip(g1[p]));
      }
    }
  }

  /** The newest cell of an ordered arena is held by no one. */
  lemma LastIsRoot(g: seq<Cell>)
    requires Ordered(g) && |g| > 0
    ensures Root(g, |g| - 1)
  {
    forall p | 0 <= p < |g|
      ensures |g| - 1 !in MembersOf(g[p])
    {
      assert Below(g[p], p);
    }
  }

  /** Allocation after `r` existed does not make anything hold `r`. */
  lemma RootPersists(g0: seq<Cell>, g1: seq<Cell>, r: Ref)
    requires Extends(g0, g1) && r < |g0| && Root(g0, r)
    ensures Root(g1, r)
  {
    forall p | 0 <= p < |g1|
      ensures r !in MembersOf(g1[p])
    {
      if p < |g0| {
        assert MembersOf(g1[p]) == MembersOf(Strip(g1[p])) == MembersOf(Strip(g0[p]));
      } else {
        assert AllAtLeast(MembersOf(g1[p]), |g0|);
      }
    }
  }

  /** A tree built earlier is still held by no one and still unfolds the same after more allocation. */
  lemma Kept(g1: seq<Cell>, g2: seq<Cell>, x: Ref)
    requires Ordered(g1) && Ordered(g2) && Extends(g1, g2) && x < |g1| && Root(g1, x)
    ensures Root(g2, x) && Unfold(g2, x) == Unfold(g1, x)
  {
    RootPersists(g1, g2, x);
    UnfoldStrip(g1, g2, x);
  }

  /** The cells newer than `lo` that no cell holds are among `rs`. */
  ghost predicate RootsAmong(g: seq<Cell>, lo: nat, rs: seq<Ref>) {
    forall p | lo <= p < |g| && Root(g, p) :: p in rs
  }

  /** `h` is `g` with cells added or names and parent pointers changed: no old cell holds anything new. */
  ghost predicate Grown(g: seq<Cell>, h: seq<Cell>) {
    |g| <= |h| && forall k | 0 <= k < |g| :: MembersOf(h[k]) == MembersOf(g[k])
  }

  /** Changes to parent bookkeeping only are growth. */
  lemma StripGrown(g: seq<Cell>, h: seq<Cell>)
    requires |g| <= |h| && forall k | 0 <= k < |g| :: Strip(h[k]) == Strip(g[k])
    ensures Grown(g, h)
  {
    forall k | 0 <= k < |g|
      ensures MembersOf(h[k]) == MembersOf(g[k])
    {
      assert MembersOf(h[k]) == MembersOf(Strip(h[k])) == MembersOf(Strip(g[k]));
    }
  }

  lemma ExtendsGrown(g: seq<Cell>, h: seq<Cell>)
    requires Extends(g, h)
    ensures Grown(g, h)
  {
    StripGrown(g, h);
  }

  /** Renaming a cell leaves the roots where they were. */
  lemma RootsRename(g: seq<Cell>, x: Ref, title: string, lo: nat, xs: seq<Ref>)
    requires x < |g| && RootsAmong(g, lo, xs)
    ensures RootsAmong(g[x := g[x].(name := title)], lo, xs)
  {
    var h := g[x := g[x].(name := title)];
    assert Grown(g, h) by {
      assert forall k | 0 <= k < |g| :: MembersOf(h[k]) == MembersOf(g[k]);
    }
    forall p | lo <= p < |h| && Root(h, p)
      ensures p in xs
    {
      RootBefore(g, h, p);
    }
  }

  /** A cell nobody holds after growth was held by nobody before. */
  lemma RootBefore(g: seq<Cell>, h: seq<Cell>, p: Ref)
    requires Grown(g, h) && p < |g| && Root(h, p)
    ensures Root(g, p)
  {
    forall q | 0 <= q < |g|
      ensures p !in MembersOf(g[q])
    {
      assert MembersOf(h[q]) == MembersOf(g[q]);
    }
  }

  /** The roots left by two steps in a row are those of the first step followed by those of the second. */
  lemma RootsJoin(g1: seq<Cell>, g2: seq<Cell>, lo: nat, xs: seq<Ref>, ys: seq<Ref>)
    requires Grown(g1, g2) && lo <= |g1|
    requires RootsAmong(g1, lo, xs) && RootsAmong(g2, |g1|, ys)
    ensures RootsAmong(g2, lo, xs + ys)
  {
    forall p | lo <= p < |g2| && Root(g2, p)
      ensures p in xs + ys
    {
      if p < |g1| {
        RootBefore(g1, g2, p);
        assert p in xs;
      } else {
        assert p in ys;
      }
    }
  }

  /** One new cell is the only candidate root among the new cells. */
  lemma OnlyNewRoot(g: seq<Cell>, h: seq<Cell>)
    requires |h| == |g| + 1
    ensures RootsAmong(h, |g|, [|g|])
  {
  }

  /** A new cell that holds every earlier root is then the only root. */
  lemma RootsAdopted(g: seq<Cell>, h: seq<Cell>, lo: nat, ms: seq<Ref>)
    requires Grown(g, h) && |h| == |g| + 1 && lo <= |g| && MembersOf(h[|g|]) == ms
    requires RootsAmong(g, lo, ms)
    ensures RootsAmong(h, lo, [|g|])
  {
    forall p | lo <= p < |h| && Root(h, p)
      ensures p in [|g|]
    {
      if p < |g| {
        RootBefore(g, h, p);
      }
    }
  }

  /** One more cell whose members are new keeps `g0`'s extension an extension. */
  lemma ExtendsByOne(g0: seq<Cell>, g: seq<Cell>, h: seq<Cell>)
    requires Extends(g0, g) && |h| == |g| + 1
    requires forall k | 0 <= k < |g| :: Strip(h[k]) == Strip(g[k])
    requires AllAtLeast(MembersOf(h[|g|]), |g0|)
    ensures Extends(g0, h)
  {
    forall p | |g0| <= p < |h|
      ensures AllAtLeast(MembersOf(h[p]), |g0|)
    {
      if p < |g| {
        assert MembersOf(h[p]) == MembersOf(Strip(h[p])) == MembersOf(Strip(g[p]));
      }
    }
  }

  /** Renaming a cell allocated after `g0` keeps an extension of `g0` an extension. */
  lemma ExtendsRename(g0: seq<Cell>, g: seq<Cell>, x: Ref, title: string)
    requires Extends(g0, g) && |g0| <= x < |g|
    ensures Extends(g0, g[x := g[x].(name := title)])
  {
    var h := g[x := g[x].(name := title)];
    assert forall p | 0 <= p < |g| :: MembersOf(h[p]) == MembersOf(g[p]);
  }

  // ---------------------------------------------------------------------------
  // The initialisers and field writes keep the invariant.

  /** Allocating a Literal, a Regex or a fresh LazyReference (which joins the worklist). */
  lemma InvLeaf(g: seq<Cell>, w: seq<Ref>, e: Cell)
    requires Inv(g, w) && !e.IsCompound() && !e.IsSingleton()
    requires e.LazyReference? ==> e.parent == None
    ensures Inv(g + [e], if e.LazyReference? then w + [|g|] else w)
  {
    LeafOrdered(g, e);
    LeafRegistered(g, w, e);
    LeafParents(g, e);
    LeafTracked(g, e);
  }

  lemma LeafOrdered(g: seq<Cell>, e: Cell)
    requires Ordered(g) && !e.IsCompound() && !e.IsSingleton()
    ensures Ordered(g + [e])
  {
    var h := g + [e];
    forall q | 0 <= q < |h|
      ensures Below(h[q], q)
    {
      if q < |g| {
        assert Below(g[q], q);
      }
    }
  }

  lemma LeafRegistered(g: seq<Cell>, w: seq<Ref>, e: Cell)
    requires Registered(g, w)
    ensures Registered(g + [e], if e.LazyReference? then w + [|g|] else w)
  {
    var h := g + [e];
    var w' := if e.LazyReference? then w + [|g|] else w;
    forall i | 0 <= i < |w'|
      ensures IsLazy(h, w'[i])
    {
      if i < |w| {
        assert IsLazy(g, w[i]);
      }
    }
    forall r: Ref | IsLazy(h, r)
      ensures r in w'
    {
      if r < |g| {
        assert IsLazy(g, r);
      }
    }
  }

  lemma LeafParents(g: seq<Cell>, e: Cell)
    requires ParentsHold(g)
    requires e.LazyReference? ==> e.parent == None
    ensures ParentsHold(g + [e])
  {
    var h := g + [e];
    forall l: Ref | IsLazy(h, l) && h[l].parent.Some?
      ensures h[l].parent.value < |h|
    {
      assert IsLazy(g, l);
    }
    forall l: Ref | IsLazy(h, l) && h[l].parent.Some?
      ensures Holds(h, l)
    {
      assert IsLazy(g, l);
      assert Holds(g, l);
    }
  }

  lemma LeafTracked(g: seq<Cell>, e: Cell)
    requires Ordered(g) && Tracked(g) && !e.IsCompound() && !e.IsSingleton()
    ensures Tracked(g + [e])
  {
    var h := g + [e];
    forall q, j | 0 <= q < |h| && 0 <= j < |MembersOf(h[q])| && IsLazy(h, MembersOf(h[q])[j])
      ensures h[MembersOf(h[q])[j]].parent == Some(q)
      ensures SlotIndex(h[q], h[MembersOf(h[q])[j]].parentMemberIdx) == j
    {
      assert h[q] == g[q];
      assert Below(g[q], q);
      assert IsLazy(g, MembersOf(g[q])[j]);
    }
  }

  /**
   * `h` is `g` after allocating `e` with Compound's or Singleton's initialiser:
   * each LazyReference member now names `e` (the new last cell) as its parent and
   * the slot it sits in; nothing else changes beyond parent bookkeeping.
   */
  ghost predicate Adopted(g: seq<Cell>, e: Cell, h: seq<Cell>)
    requires AllBelow(MembersOf(e), |g|)
  {
    && |h| == |g| + 1 && h[|g|] == e
    && (forall k | 0 <= k < |g| && k !in MembersOf(e) :: h[k] == g[k])
    && (forall j | 0 <= j < |MembersOf(e)| ::
          && Strip(h[MembersOf(e)[j]]) == Strip(g[MembersOf(e)[j]])
          && (g[MembersOf(e)[j]].LazyReference? ==>
                && h[MembersOf(e)[j]].parent == Some(|g|)
                && SlotIndex(e, h[MembersOf(e)[j]].parentMemberIdx) == j))
  }

  /** The members an initialiser may adopt: distinct, older, and held by no one. */
  ghost predicate Adoptable(g: seq<Cell>, e: Cell) {
    && AllBelow(MembersOf(e), |g|)
    && Increasing(MembersOf(e))
    && forall j | 0 <= j < |MembersOf(e)| :: Root(g, MembersOf(e)[j])
  }

  /** Compound's initialiser adopts its members. */
  lemma CompoundAdopts(g: seq<Cell>, e: Cell)
    requires e.IsCompound() && Adoptable(g, e)
    ensures forall m | m in e.members :: m < |g + [e]|
    ensures Adopted(g, e, Adopt(g + [e], |g|, e.members, |e.members|))
  {
    var ms := e.members;
    var g' := g + [e];
    var h := Adopt(g', |g|, ms, |ms|);
    assert ms[..|ms|] == ms;
    forall k | 0 <= k < |h|
      ensures h[k] ==
        if g'[k].LazyReference? && k in ms then g'[k].(parent := Some(|g|), parentMemberIdx := LastIndex(ms, k))
        else g'[k]
    {
      AdoptAt(g', |g|, ms, |ms|, k);
    }
    assert h[|g|] == e;
    assert forall k | 0 <= k < |g| && k !in ms :: h[k] == g[k];
    forall j | 0 <= j < |ms|
      ensures Strip(h[ms[j]]) == Strip(g[ms[j]])
      ensures g[ms[j]].LazyReference? ==> h[ms[j]].parent == Some(|g|) && SlotIndex(e, h[ms[j]].parentMemberIdx) == j
    {
      assert LastIndex(ms, ms[j]) == j;
      assert g'[ms[j]] == g[ms[j]];
    }
  }

  /** A non-LazyReference cell is exactly what it is up to parent bookkeeping. */
  lemma StripEqual(a: Cell, b: Cell)
    requires Strip(a) == Strip(b) && !b.LazyReference?
    ensures a == b
  {
  }

  lemma AdoptedStrip(g: seq<Cell>, e: Cell, h: seq<Cell>)
    requires AllBelow(MembersOf(e), |g|) && Adopted(g, e, h)
    ensures forall k | 0 <= k < |g| :: Strip(h[k]) == Strip(g[k])
  {
    forall k | 0 <= k < |g|
      ensures Strip(h[k]) == Strip(g[k])
    {
      if k in MembersOf(e) {
        var j :| 0 <= j < |MembersOf(e)| && MembersOf(e)[j] == k;
      }
    }
  }

  lemma AdoptedOrdered(g: seq<Cell>, e: Cell, h: seq<Cell>)
    requires Ordered(g) && AllBelow(MembersOf(e), |g|) && Adopted(g, e, h)
    ensures Ordered(h)
  {
    AdoptedStrip(g, e, h);
    forall q | 0 <= q < |h|
      ensures Below(h[q], q)
    {
      if q < |g| {
        assert MembersOf(h[q]) == MembersOf(Strip(h[q])) == MembersOf(Strip(g[q]));
        assert Below(g[q], q);
      }
    }
  }

  lemma AdoptedRegistered(g: seq<Cell>, w: seq<Ref>, e: Cell, h: seq<Cell>)
    requires Registered(g, w) && !e.LazyReference? && AllBelow(MembersOf(e), |g|) && Adopted(g, e, h)
    ensures Registered(h, w)
  {
    AdoptedStrip(g, e, h);
    forall i | 0 <= i < |w|
      ensures IsLazy(h, w[i])
    {
      assert IsLazy(g, w[i]);
      assert Strip(h[w[i]]) == Strip(g[w[i]]);
    }
    forall r: Ref | IsLazy(h, r)
      ensures r in w
    {
      assert Strip(h[r]) == Strip(g[r]);
      assert IsLazy(g, r);
    }
  }

  lemma AdoptedInside(g: seq<Cell>, e: Cell, h: seq<Cell>)
    requires ParentsInside(g) && !e.LazyReference? && AllBelow(MembersOf(e), |g|) && Adopted(g, e, h)
    ensures ParentsInside(h)
  {
    var ms := MembersOf(e);
    forall l: Ref | IsLazy(h, l) && h[l].parent.Some?
      ensures h[l].parent.value < |h|
    {
      if l !in ms {
        assert IsLazy(g, l);
      }
    }
  }

  lemma AdoptedParents(g: seq<Cell>, e: Cell, h: seq<Cell>)
    requires ParentsHold(g) && !e.LazyReference? && Adoptable(g, e) && Adopted(g, e, h)
    ensures ParentsHold(h)
  {
    var ms := MembersOf(e);
    AdoptedStrip(g, e, h);
    AdoptedInside(g, e, h);
    forall l: Ref | IsLazy(h, l) && h[l].parent.Some?
      ensures Holds(h, l)
    {
      if l in ms {
        var j :| 0 <= j < |ms| && ms[j] == l;
        assert Strip(h[l]) == Strip(g[l]);
        assert Slot(e, j) == Some(l);
      } else {
        assert h[l] == g[l];
        assert IsLazy(g, l);
        assert Holds(g, l);
        var q := g[l].parent.value;
        StripEqual(h[q], g[q]);
      }
    }
  }

  lemma AdoptedTracked(g: seq<Cell>, e: Cell, h: seq<Cell>)
    requires Tracked(g) && !e.LazyReference? && Adoptable(g, e) && Adopted(g, e, h)
    ensures Tracked(h)
  {
    AdoptedStrip(g, e, h);
    forall q, j | 0 <= q < |h| && 0 <= j < |MembersOf(h[q])| && IsLazy(h, MembersOf(h[q])[j])
      ensures h[MembersOf(h[q])[j]].parent == Some(q)
      ensures SlotIndex(h[q], h[MembersOf(h[q])[j]].parentMemberIdx) == j
    {
      if q < |g| {
        AdoptedTrackedOld(g, e, h, q, j);
      }
    }
  }

  lemma AdoptedTrackedOld(g: seq<Cell>, e: Cell, h: seq<Cell>, q: Ref, j: nat)
    requires Tracked(g) && !e.LazyReference? && Adoptable(g, e) && Adopted(g, e, h)
    requires forall k | 0 <= k < |g| :: Strip(h[k]) == Strip(g[k])
    requires q < |g| && j < |MembersOf(h[q])| && IsLazy(h, MembersOf(h[q])[j])
    ensures h[MembersOf(h[q])[j]].parent == Some(q)
    ensures SlotIndex(h[q], h[MembersOf(h[q])[j]].parentMemberIdx) == j
  {
    var ms := MembersOf(e);
    StripEqual(h[q], g[q]);
    var m := MembersOf(g[q])[j];
    assert m !in ms;
    assert h[m] == g[m];
    assert IsLazy(g, m);
  }

  /** An initialiser that adopts its members keeps the invariant. */
  lemma InvAdopted(g: seq<Cell>, w: seq<Ref>, e: Cell, h: seq<Cell>)
    requires Inv(g, w) && !e.LazyReference? && Adoptable(g, e) && Adopted(g, e, h)
    ensures Inv(h, w)
    ensures forall k | 0 <= k < |g| :: Strip(h[k]) == Strip(g[k])
  {
    AdoptedStrip(g, e, h);
    AdoptedOrdered(g, e, h);
    AdoptedRegistered(g, w, e, h);
    AdoptedParents(g, e, h);
    AdoptedTracked(g, e, h);
  }

  /** Singleton's initialiser adopts its member. */
  lemma SingletonAdopts(g: seq<Cell>, e: Cell, h: seq<Cell>)
    requires e.IsSingleton() && e.member < |g|
    requires |h| == |g| + 1 && h[|g|] == e
    requires forall k | 0 <= k < |g| && k != e.member :: h[k] == g[k]
    requires h[e.member] == if g[e.member].LazyReference? then g[e.member].(parent := Some(|g|)) else g[e.member]
    ensures AllBelow(MembersOf(e), |g|) && Adopted(g, e, h)
  {
  }

  /** `expr.name = label` keeps the invariant and changes nothing else. */
  lemma InvRename(g: seq<Cell>, w: seq<Ref>, r: Ref, title: string)
    requires Inv(g, w) && r < |g|
    ensures Inv(g[r := g[r].(name := title)], w)
  {
    var h := g[r := g[r].(name := title)];
    assert forall k | 0 <= k < |g| :: MembersOf(h[k]) == MembersOf(g[k]);
    assert Ordered(h) by {
      forall q | 0 <= q < |h|
        ensures Below(h[q], q)
      {
        assert Below(g[q], q);
      }
    }
    RenameRegistered(g, w, r, title);
    RenameParents(g, r, title);
    RenameTracked(g, r, title);
  }

  lemma RenameRegistered(g: seq<Cell>, w: seq<Ref>, r: Ref, title: string)
    requires Registered(g, w) && r < |g|
    ensures Registered(g[r := g[r].(name := title)], w)
  {
    var h := g[r := g[r].(name := title)];
    forall i | 0 <= i < |w|
      ensures IsLazy(h, w[i])
    {
      assert IsLazy(g, w[i]);
    }
    forall q: Ref | IsLazy(h, q)
      ensures q in w
    {
      assert IsLazy(g, q);
    }
  }

  lemma RenameParents(g: seq<Cell>, r: Ref, title: string)
    requires ParentsHold(g) && r < |g|
    ensures ParentsHold(g[r := g[r].(name := title)])
  {
    var h := g[r := g[r].(name := title)];
    forall l: Ref | IsLazy(h, l) && h[l].parent.Some?
      ensures h[l].parent.value < |h|
    {
      assert IsLazy(g, l);
    }
    forall l: Ref | IsLazy(h, l) && h[l].parent.Some?
      ensures Holds(h, l)
    {
      assert IsLazy(g, l);
      assert Holds(g, l);
      var q := g[l].parent.value;
      assert Slot(h[q], SlotIndex(h[q], g[l].parentMemberIdx)) == Slot(g[q], SlotIndex(g[q], g[l].parentMemberIdx));
    }
  }

  lemma RenameTracked(g: seq<Cell>, r: Ref, title: string)
    requires Tracked(g) && r < |g|
    ensures Tracked(g[r := g[r].(name := title)])
  {
    var h := g[r := g[r].(name := title)];
    forall q, j | 0 <= q < |h| && 0 <= j < |MembersOf(h[q])| && IsLazy(h, MembersOf(h[q])[j])
      ensures h[MembersOf(h[q])[j]].parent == Some(q)
      ensures SlotIndex(h[q], h[MembersOf(h[q])[j]].parentMemberIdx) == j
    {
      assert MembersOf(h[q]) == MembersOf(g[q]);
      assert IsLazy(g, MembersOf(g[q])[j]);
    }
  }

  // ---------------------------------------------------------------------------
  // Linking: `substituteLazyReference`.

  /** The parent pointer of LazyReference `l` designates slot `j` of cell `p`. */
  ghost predicate Designates(g: seq<Cell>, l: Ref, p: Ref, j: int)
    requires IsLazy(g, l) && p < |g|
  {
    g[l].parent == Some(p) && SlotIndex(g[p], g[l].parentMemberIdx) == j
  }

  /** `h` is `g` with member slots rewritten: same kinds, names and slot counts, LazyReferences untouched. */
  ghost predicate SameShape(g: seq<Cell>, h: seq<Cell>) {
    && |h| == |g|
    && (forall k | 0 <= k < |g| ::
          && h[k].Type() == g[k].Type() && h[k].name == g[k].name
          && h[k].IsSingleton() == g[k].IsSingleton()
          && |MembersOf(h[k])| == |MembersOf(g[k])|)
    && (forall k | 0 <= k < |g| && g[k].LazyReference? :: h[k] == g[k])
  }

  /**
   * One round of the loop of `substituteLazyReference` for worklist entry `l`.
   * `None` where the Swift code stops: the force unwrap of a name without a
   * rule, or a member index outside the parent's member array.
   */
  function Patch(g: seq<Cell>, l: Ref, d: map<string, Ref>): (r: Option<seq<Cell>>)
    requires IsLazy(g, l) && ParentsInside(g)
  {
    match g[l].parent
    case None => Some(g)
    case Some(p) =>
      if g[l].name !in d then None
      else if g[p].IsCompound() && !(0 <= g[l].parentMemberIdx < |g[p].members|) then None
      else Some(g[p := SetSlot(g[p], SlotIndex(g[p], g[l].parentMemberIdx), d[g[l].name])])
  }

  /** One round rewrites the designated slot and nothing else. */
  lemma PatchEffect(g: seq<Cell>, l: Ref, d: map<string, Ref>)
    requires IsLazy(g, l) && ParentsInside(g) && Patch(g, l, d).Some?
    ensures SameShape(g, Patch(g, l, d).value)
    ensures ParentsInside(Patch(g, l, d).value)
    ensures forall p, j | 0 <= p < |g| ::
      Slot(Patch(g, l, d).value[p], j) ==
        if Designates(g, l, p, j) && Slot(g[p], j).Some? then Some(d[g[l].name]) else Slot(g[p], j)
  {
    var h := Patch(g, l, d).value;
    if g[l].parent.Some? {
      var p := g[l].parent.value;
      assert forall k | 0 <= k < |g| && k != p :: h[k] == g[k];
    }
    forall k: Ref | IsLazy(h, k) && h[k].parent.Some?
      ensures h[k].parent.value < |h|
    {
      assert IsLazy(g, k);
    }
  }

  /** `substituteLazyReference`: the rounds for the worklist in order; `None` if one of them stops. */
  function Substitute(g: seq<Cell>, w: seq<Ref>, d: map<string, Ref>): (r: Option<seq<Cell>>)
    requires ParentsInside(g) && forall i | 0 <= i < |w| :: IsLazy(g, w[i])
    decreases |w|
  {
    if w == [] then Some(g)
    else
      match Patch(g, w[0], d)
      case None => None
      case Some(h) =>
        PatchEffect(g, w[0], d);
        assert forall i | 1 <= i < |w| :: IsLazy(g, w[i]);
        Substitute(h, w[1..], d)
  }

  /** What linking needs of a worklist: distinct LazyReferences whose parent pointers are right. */
  ghost predicate Linkable(g: seq<Cell>, w: seq<Ref>) {
    && ParentsInside(g)
    && Increasing(w)
    && (forall i | 0 <= i < |w| :: IsLazy(g, w[i]))
    && (forall i | 0 <= i < |w| && g[w[i]].parent.Some? :: Holds(g, w[i]))
  }

  /** After linking, the slot `l`'s parent pointer designated holds the rule named like `l`. */
  ghost predicate Resolved(g: seq<Cell>, h: seq<Cell>, d: map<string, Ref>, l: Ref)
    requires IsLazy(g, l) && ParentsInside(g) && |h| == |g|
  {
    g[l].parent.Some? ==>
      var p := g[l].parent.value;
      g[l].name in d && Slot(h[p], SlotIndex(g[p], g[l].parentMemberIdx)) == Some(d[g[l].name])
  }

  /** No worklist entry designates slot `j` of cell `p`. */
  ghost predicate Undesignated(g: seq<Cell>, w: seq<Ref>, p: Ref, j: int)
    requires p < |g| && forall i | 0 <= i < |w| :: IsLazy(g, w[i])
  {
    forall i | 0 <= i < |w| :: !Designates(g, w[i], p, j)
  }

  /** A rewrite of slots changes neither what a LazyReference designates nor whether a slot exists. */
  lemma SameShapeDesignates(g: seq<Cell>, h: seq<Cell>, l: Ref, p: Ref, j: int)
    requires SameShape(g, h) && IsLazy(g, l) && p < |g|
    ensures IsLazy(h, l) && h[l] == g[l]
    ensures Designates(h, l, p, j) == Designates(g, l, p, j)
    ensures Slot(h[p], j).Some? == Slot(g[p], j).Some?
  {
  }

  /** After the first round, the rest of the worklist is still linkable, designating the same slots. */
  lemma LinkableStep(g: seq<Cell>, w: seq<Ref>, d: map<string, Ref>)
    requires Linkable(g, w) && w != [] && Patch(g, w[0], d).Some?
    ensures Linkable(Patch(g, w[0], d).value, w[1..])
  {
    var g1 := Patch(g, w[0], d).value;
    PatchEffect(g, w[0], d);
    forall i | 1 <= i < |w|
      ensures IsLazy(g1, w[i]) && g1[w[i]] == g[w[i]]
    {
      assert IsLazy(g, w[i]);
    }
    forall i | 1 <= i < |w| && g1[w[i]].parent.Some?
      ensures Holds(g1, w[i])
    {
      var l := w[i];
      assert Holds(g, l);
      var p := g[l].parent.value;
      var j := SlotIndex(g[p], g[l].parentMemberIdx);
      assert SlotIndex(g1[p], g[l].parentMemberIdx) == j;
      assert IsLazy(g, w[0]) && w[0] < w[i];
      if g[w[0]].parent.Some? {
        assert Holds(g, w[0]);
      }
      assert !Designates(g, w[0], p, j);
    }
  }

  /** Linking rewrites each designated slot to the rule named like its LazyReference, and no other slot. */
  lemma {:induction false} SubstituteSlots(g: seq<Cell>, w: seq<Ref>, d: map<string, Ref>)
    requires Linkable(g, w) && Substitute(g, w, d).Some?
    ensures SameShape(g, Substitute(g, w, d).value)
    ensures forall i | 0 <= i < |w| :: Resolved(g, Substitute(g, w, d).value, d, w[i])
    ensures forall p, j | 0 <= p < |g| && Undesignated(g, w, p, j) ::
      Slot(Substitute(g, w, d).value[p], j) == Slot(g[p], j)
    decreases |w|
  {
    var h := Substitute(g, w, d).value;
    if w != [] {
      var g1 := Patch(g, w[0], d).value;
      PatchEffect(g, w[0], d);
      LinkableStep(g, w, d);
      var w1 := w[1..];
      SubstituteSlots(g1, w1, d);
      assert h == Substitute(g1, w1, d).value;
      assert SameShape(g, h) by {
        forall k | 0 <= k < |g| && g[k].LazyReference?
          ensures h[k] == g[k]
        {
          assert g1[k] == g[k];
        }
      }
      forall p, j | 0 <= p < |g| && Undesignated(g, w, p, j)
        ensures Slot(h[p], j) == Slot(g[p], j)
      {
        assert !Designates(g, w[0], p, j);
        forall i | 0 <= i < |w1|
          ensures !Designates(g1, w1[i], p, j)
        {
          assert !Designates(g, w[i + 1], p, j);
          SameShapeDesignates(g, g1, w1[i], p, j);
        }
      }
      forall i | 0 <= i < |w|
        ensures Resolved(g, h, d, w[i])
      {
        if i == 0 {
          ResolvedFirst(g, w, d);
        } else {
          assert Resolved(g1, h, d, w1[i - 1]);
          assert IsLazy(g, w[i]);
          assert g1[w[i]] == g[w[i]];
          if g[w[i]].parent.Some? {
            var p := g[w[i]].parent.value;
            assert g1[p].IsSingleton() == g[p].IsSingleton();
          }
        }
      }
    }
  }

  /** The first round's slot is designated by no later entry, so the later rounds leave it alone. */
  lemma ResolvedFirst(g: seq<Cell>, w: seq<Ref>, d: map<string, Ref>)
    requires Linkable(g, w) && w != [] && Substitute(g, w, d).Some?
    requires Patch(g, w[0], d).Some?
    requires var g1 := Patch(g, w[0], d).value;
      && Linkable(g1, w[1..]) && |g1| == |g|
      && Substitute(g, w, d) == Substitute(g1, w[1..], d)
      && SameShape(g1, Substitute(g1, w[1..], d).value)
      && forall p, j | 0 <= p < |g1| && Undesignated(g1, w[1..], p, j) ::
           Slot(Substitute(g1, w[1..], d).value[p], j) == Slot(g1[p], j)
    ensures |Substitute(g, w, d).value| == |g|
    ensures Resolved(g, Substitute(g, w, d).value, d, w[0])
  {
    var h := Substitute(g, w, d).value;
    var g1 := Patch(g, w[0], d).value;
    PatchEffect(g, w[0], d);
    var l := w[0];
    assert IsLazy(g, l);
    if g[l].parent.Some? {
      var p := g[l].parent.value;
      var j := SlotIndex(g[p], g[l].parentMemberIdx);
      assert Holds(g, l);
      assert Designates(g, l, p, j);
      assert Slot(g1[p], j) == Some(d[g[l].name]);
      assert Undesignated(g1, w[1..], p, j) by {
        forall i | 0 <= i < |w[1..]|
          ensures !Designates(g1, w[1..][i], p, j)
        {
          var m := w[1..][i];
          assert m == w[i + 1] && w[0] < w[i + 1];
          SameShapeDesignates(g, g1, m, p, j);
        }
      }
    }
  }

  /** A LazyReference that sits in some slot but names no rule. */
  ghost predicate Missing(g: seq<Cell>, d: map<string, Ref>, l: Ref)
    requires IsLazy(g, l)
  {
    g[l].parent.Some? && g[l].name !in d
  }

  /** Linking stops exactly when some held LazyReference names no rule. */
  lemma {:induction false} SubstituteTraps(g: seq<Cell>, w: seq<Ref>, d: map<string, Ref>)
    requires Linkable(g, w)
    ensures Substitute(g, w, d).None? <==> exists i | 0 <= i < |w| :: Missing(g, d, w[i])
    decreases |w|
  {
    if w != [] {
      var l := w[0];
      assert IsLazy(g, l);
      if g[l].parent.Some? && g[l].name in d {
        assert Holds(g, l);
      }
      match Patch(g, l, d)
      case None =>
        assert Missing(g, d, w[0]);
      case Some(g1) =>
        PatchEffect(g, l, d);
        LinkableStep(g, w, d);
        SubstituteTraps(g1, w[1..], d);
        forall i | 1 <= i < |w|
          ensures Missing(g1, d, w[1..][i - 1]) == Missing(g, d, w[i])
        {
          assert IsLazy(g, w[i]);
          assert g1[w[i]] == g[w[i]];
        }
        assert !Missing(g, d, w[0]);
        if exists i | 0 <= i < |w| :: Missing(g, d, w[i]) {
          var i :| 0 <= i < |w| && Missing(g, d, w[i]);
          assert Missing(g1, d, w[1..][i - 1]);
        }
    }
  }

  /**
   * After linking a whole arena whose rules are not LazyReferences, every
   * member slot refers to an existing cell that is not a LazyReference: the
   * graph is closed and every reference is resolved.
   */
  lemma Linked(g: seq<Cell>, w: seq<Ref>, d: map<string, Ref>)
    requires Inv(g, w)
    requires forall k | k in d :: d[k] < |g|
    requires Substitute(g, w, d).Some?
    ensures |Substitute(g, w, d).value| == |g|
    ensures Closed(Substitute(g, w, d).value)
    ensures (forall k | k in d :: !g[d[k]].LazyReference?) ==> Resolves(Substitute(g, w, d).value)
  {
    var h := Substitute(g, w, d).value;
    InvLinkable(g, w);
    SubstituteSlots(g, w, d);
    forall p, j | 0 <= p < |h| && 0 <= j < |MembersOf(h[p])|
      ensures MembersOf(h[p])[j] < |h|
      ensures (forall k | k in d :: !g[d[k]].LazyReference?) ==> !h[MembersOf(h[p])[j]].LazyReference?
    {
      LinkedSlot(g, w, d, h, p, j);
    }
  }

  lemma LinkedSlot(g: seq<Cell>, w: seq<Ref>, d: map<string, Ref>, h: seq<Cell>, p: Ref, j: nat)
    requires Inv(g, w) && Linkable(g, w)
    requires forall k | k in d :: d[k] < |g|
    requires Substitute(g, w, d) == Some(h)
    requires SameShape(g, h)
    requires forall i | 0 <= i < |w| :: Resolved(g, h, d, w[i])
    requires forall p, j | 0 <= p < |g| && Undesignated(g, w, p, j) :: Slot(h[p], j) == Slot(g[p], j)
    requires p < |h| && j < |MembersOf(h[p])|
    ensures MembersOf(h[p])[j] < |h|
    ensures (forall k | k in d :: !g[d[k]].LazyReference?) ==> !h[MembersOf(h[p])[j]].LazyReference?
  {
    var x := MembersOf(h[p])[j];
    assert Slot(h[p], j) == Some(x);
    if Undesignated(g, w, p, j) {
      assert Slot(g[p], j) == Some(x);
      assert Below(g[p], p);
      assert h[x].LazyReference? == g[x].LazyReference?;
    } else {
      var i :| 0 <= i < |w| && Designates(g, w[i], p, j);
      assert Resolved(g, h, d, w[i]);
      var r := d[g[w[i]].name];
      assert x == r;
      assert h[r].Type() == g[r].Type();
    }
  }

  /** The visitor's invariant gives what linking needs. */
  lemma InvLinkable(g: seq<Cell>, w: seq<Ref>)
    requires Inv(g, w)
    ensures Linkable(g, w)
  {
    forall i | 0 <= i < |w| && g[w[i]].parent.Some?
      ensures Holds(g, w[i])
    {
      assert IsLazy(g, w[i]);
    }
  }

  /** Every member slot refers to an existing cell that is not a LazyReference. */
  ghost predicate Resolves(h: seq<Cell>)
    requires Closed(h)
  {
    forall p, j | 0 <= p < |h| && 0 <= j < |MembersOf(h[p])| :: !h[MembersOf(h[p])[j]].LazyReference?
  }
}
