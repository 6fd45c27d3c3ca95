/**
 * Sources/SwiftPEG/RuleVisitor.swift: the compiler from a parse tree of the
 * grammar language to a rule map.
 *
 * The `...Tree` functions are the specification: the finite expression tree
 * each `visit*` call builds, or `Nil` where the Swift code returns nil, or
 * `Trapped` where it would stop at run time (an index past the end of
 * `children`, a string slice of fewer than two characters). The class
 * `RuleVisitor` is the compiler itself, allocating in an `Arena` and keeping
 * the `lazyReferences` worklist; each of its methods is proved to build the
 * tree its specification function describes.
 */
module Compiler {
  import opened Wrappers
  import opened Expressions
  import opened Nodes
  import opened References

  /** How a `visit*` call ends: with a value, with nil, or stopped by a run-time trap. */
  datatype Visit<+T> = Value(value: T) | Nil | Trapped

  /** `visitLabel`: the text of the label's first child; "" when the node is not a label. */
  function Label(n: Node): (r: Visit<string>)
    requires WellFormed(n)
    ensures r != Nil
    ensures n.exprName != "label" ==> r == Value("")
  {
    if n.exprName != "label" then Value("")
    else if |n.children| == 0 then Trapped
    else
      assert WellFormed(n.children[0]);
      Value(n.children[0].Text())
  }

  /** `expression.name = label` on a tree. */
  function Named(t: Tree, title: string): Tree {
    Tree(t.expr.(name := title))
  }

  /** A rule body that is a bare reference is wrapped in a one-member Sequence. */
  function Wrapped(t: Tree): Tree {
    if t.expr.LazyReference? then Tree(Sequence("", [t])) else t
  }

  /** `visitRule`: the body of `label = expression`, named after the label. */
  function RuleTree(n: Node): Visit<Tree>
    requires WellFormed(n)
    decreases n, 0
  {
    if n.exprName != "rule" then Nil
    else if |n.children| == 0 then Trapped
    else
      match Label(n.children[0])
      case Value(title) =>
        if |n.children| < 3 then Trapped
        else
          (match ExpressionTree(n.children[2])
           case Value(t) => Value(Named(Wrapped(t), title))
           case Nil => Nil
           case Trapped => Trapped)
      case _ => Trapped
  }

  /** `visitExpression`: dispatch on the first child's name. */
  function ExpressionTree(n: Node): Visit<Tree>
    requires WellFormed(n)
    decreases n, 0
  {
    if n.exprName != "expression" then Nil
    else if |n.children| == 0 then Trapped
    else
      var c := n.children[0];
      if c.exprName == "ored" then OredTree(c)
      else if c.exprName == "sequence" then SequenceTree(c)
      else if c.exprName == "term" then TermTree(c)
      else Nil
  }

  /** `visitOred`: `OneOf([term] + orTerms)`. */
  function OredTree(n: Node): Visit<Tree>
    requires WellFormed(n)
    decreases n, 0
  {
    if n.exprName != "ored" then Nil
    else if |n.children| == 0 then Trapped
    else
      match TermTree(n.children[0])
      case Value(t) =>
        if |n.children| < 2 then Trapped
        else
          (match ListTrees(n.children[1])
           case Value(ts) => Value(Tree(OneOf("", [t] + ts)))
           case _ => Trapped)
      case Nil => Nil
      case Trapped => Trapped
  }

  /** `visitSequence`: `Sequence([term] + otherTerms)`. */
  function SequenceTree(n: Node): Visit<Tree>
    requires WellFormed(n)
    decreases n, 0
  {
    if n.exprName != "sequence" then Nil
    else if |n.children| == 0 then Trapped
    else
      match TermTree(n.children[0])
      case Value(t) =>
        if |n.children| < 2 then Trapped
        else
          (match ListTrees(n.children[1])
           case Value(ts) => Value(Tree(Sequence("", [t] + ts)))
           case _ => Trapped)
      case Nil => Nil
      case Trapped => Trapped
  }

  /** `visitTerm`: dispatch on the first child's name. */
  function TermTree(n: Node): Visit<Tree>
    requires WellFormed(n)
    decreases n, 0
  {
    if n.exprName != "term" then Nil
    else if |n.children| == 0 then Trapped
    else
      var c := n.children[0];
      if c.exprName == "not_term" then NotTermTree(c)
      else if c.exprName == "lookahead_term" then LookaheadTermTree(c)
      else if c.exprName == "quantified" then QuantifiedTree(c)
      else if c.exprName == "atom" then AtomTree(c)
      else Nil
  }

  /** `visitNotTerm`: `Not(term)` of the second child. */
  function NotTermTree(n: Node): Visit<Tree>
    requires WellFormed(n)
    decreases n, 0
  {
    if n.exprName != "not_term" then Nil
    else if |n.children| < 2 then Trapped
    else
      match TermTree(n.children[1])
      case Value(t) => Value(Tree(Not("", t)))
      case Nil => Nil
      case Trapped => Trapped
  }

  /** `visitLookaheadTerm`: `Lookahead(term)` of the second child. */
  function LookaheadTermTree(n: Node): Visit<Tree>
    requires WellFormed(n)
    decreases n, 0
  {
    if n.exprName != "lookahead_term" then Nil
    else if |n.children| < 2 then Trapped
    else
      match TermTree(n.children[1])
      case Value(t) => Value(Tree(Lookahead("", t)))
      case Nil => Nil
      case Trapped => Trapped
  }

  /** `visitOrTerm`: the term that is the third child. */
  function OrTermTree(n: Node): Visit<Tree>
    requires WellFormed(n)
    decreases n, 0
  {
    if n.exprName != "or_term" then Nil
    else if |n.children| < 3 then Trapped
    else TermTree(n.children[2])
  }

  /** The expression a quantifier character stands for; nil for any other text. */
  function Quantify(q: string, a: Tree): (r: Visit<Tree>)
    ensures r != Trapped
  {
    if q == "?" then Value(Tree(Optional("", a)))
    else if q == "+" then Value(Tree(OneOrMore("", a, 1)))
    else if q == "*" then Value(Tree(ZeroOrMore("", a)))
    else Nil
  }

  /** `visitQuantified`: the atom under the quantifier named by the quantifier node's first child. */
  function QuantifiedTree(n: Node): Visit<Tree>
    requires WellFormed(n)
    decreases n, 0
  {
    if n.exprName != "quantified" then Nil
    else if |n.children| == 0 then Trapped
    else
      match AtomTree(n.children[0])
      case Value(a) =>
        if |n.children| < 2 || |n.children[1].children| == 0 then Trapped
        else
          assert WellFormed(n.children[1]);
          Quantify(n.children[1].children[0].Text(), a)
      case Nil => Nil
      case Trapped => Trapped
  }

  /** `visitAtom`: dispatch on the first child's name; a parenthesized expression is its third child. */
  function AtomTree(n: Node): Visit<Tree>
    requires WellFormed(n)
    decreases n, 0
  {
    if n.exprName != "atom" then Nil
    else if |n.children| == 0 then Trapped
    else
      var c := n.children[0];
      if c.exprName == "reference" then ReferenceTree(c)
      else if c.exprName == "literal" then LiteralTree(c)
      else if c.exprName == "regex" then RegexTree(c)
      else if c.exprName == "parenthesized" then
        (if |c.children| < 3 then Trapped else ExpressionTree(c.children[2]))
      else Nil
  }

  /** `visitReference`: a fresh LazyReference named by the label. */
  function ReferenceTree(n: Node): Visit<Tree>
    requires WellFormed(n)
    decreases n, 0
  {
    if n.exprName != "reference" then Nil
    else if |n.children| == 0 then Trapped
    else
      match Label(n.children[0])
      case Value(title) => Value(Tree(LazyReference(title, None, -1)))
      case _ => Trapped
  }

  /** The text between the first and the last character; a trap with fewer than two characters. */
  function Unquote(s: string): (r: Visit<string>)
    ensures r != Nil
    ensures r.Value? <==> |s| >= 2
    ensures r.Value? ==> |r.value| == |s| - 2 && forall i | 0 <= i < |r.value| :: r.value[i] == s[i + 1]
  {
    if |s| < 2 then Trapped else Value(s[1..|s| - 1])
  }

  /** `visitLiteral`: the quoted text of the first child without its quotes, not unescaped. */
  function LiteralTree(n: Node): Visit<Tree>
    requires WellFormed(n)
    decreases n, 0
  {
    if n.exprName != "literal" then Nil
    else if |n.children| == 0 then Trapped
    else
      assert WellFormed(n.children[0]);
      match Unquote(n.children[0].Text())
      case Value(literal) => Value(Tree(Literal("", literal)))
      case _ => Trapped
  }

  /** `visitRegex`: the second child's quoted text, put through the two replacement passes, without its quotes, anchored with "^". */
  function RegexTree(n: Node): Visit<Tree>
    requires WellFormed(n)
    decreases n, 0
  {
    if n.exprName != "regex" then Nil
    else if |n.children| < 2 then Trapped
    else
      assert WellFormed(n.children[1]);
      match Unquote(UnescapeAsWritten(n.children[1].Text()))
      case Value(pattern) => Value(Tree(Regex("", "^" + pattern)))
      case _ => Trapped
  }

  /** The transform `visitOneOrMore` picks from the first child's name. */
  function Transform(kind: string, n: Node): Visit<Tree>
    requires WellFormed(n)
    decreases n, 1
  {
    if kind == "rule" then RuleTree(n)
    else if kind == "or_term" then OrTermTree(n)
    else TermTree(n)
  }

  /** The loop of `visitOneOrMore` from child `i` on: `Nil` as soon as one child gives nil. */
  function TransformAll(n: Node, kind: string, i: nat): Visit<seq<Tree>>
    requires WellFormed(n) && i <= |n.children|
    decreases n, 2, |n.children| - i
  {
    if i == |n.children| then Value([])
    else
      match Transform(kind, n.children[i])
      case Value(t) =>
        (match TransformAll(n, kind, i + 1)
         case Value(ts) => Value([t] + ts)
         case Nil => Nil
         case Trapped => Trapped)
      case Nil => Nil
      case Trapped => Trapped
  }

  /** `visitOneOrMore`: one tree per child, or [] for an unknown first name or a child that gives nil. */
  function ListTrees(n: Node): (r: Visit<seq<Tree>>)
    requires WellFormed(n)
    ensures r != Nil
    decreases n, 3
  {
    if |n.children| == 0 then Trapped
    else
      var kind := n.children[0].exprName;
      if kind != "rule" && kind != "or_term" && kind != "term" then Value([])
      else
        match TransformAll(n, kind, 0)
        case Nil => Value([])
        case other => other
  }

  /** The loop from child `i` on, when it finishes, gives one tree per remaining child, in child order. */
  lemma {:induction false} TransformAllOnePerChild(n: Node, kind: string, i: nat)
    requires WellFormed(n) && i <= |n.children| && TransformAll(n, kind, i).Value?
    ensures |TransformAll(n, kind, i).value| == |n.children| - i
    ensures forall k | 0 <= k < |n.children| - i ::
      Transform(kind, n.children[i + k]) == Value(TransformAll(n, kind, i).value[k])
    decreases |n.children| - i
  {
    if i < |n.children| {
      TransformAllOnePerChild(n, kind, i + 1);
      var ts := TransformAll(n, kind, i + 1).value;
      assert TransformAll(n, kind, i).value == [Transform(kind, n.children[i]).value] + ts;
    }
  }

  /**
   * `visitOneOrMore` yields one tree per child, in child order, when the first
   * child's name is known and every child compiles; otherwise `[]`.
   */
  lemma ListTreesOnePerChild(n: Node)
    requires WellFormed(n) && ListTrees(n).Value?
    ensures |n.children| > 0
    ensures var kind := n.children[0].exprName;
      (kind == "rule" || kind == "or_term" || kind == "term") && TransformAll(n, kind, 0).Value? ==>
        && |ListTrees(n).value| == |n.children|
        && forall k | 0 <= k < |n.children| :: Transform(kind, n.children[k]) == Value(ListTrees(n).value[k])
    ensures var kind := n.children[0].exprName;
      (kind != "rule" && kind != "or_term" && kind != "term") || TransformAll(n, kind, 0).Nil? ==>
        ListTrees(n).value == []
  {
    var kind := n.children[0].exprName;
    if (kind == "rule" || kind == "or_term" || kind == "term") && TransformAll(n, kind, 0).Value? {
      TransformAllOnePerChild(n, kind, 0);
    }
  }

  /** `visitRules`: the rule list; `Nil` where the guard returns an empty map without visiting anything. */
  function RulesTrees(n: Node): (r: Visit<seq<Tree>>)
    requires WellFormed(n)
    ensures r.Value? ==> |n.children| >= 2 && |n.children[1].children| > 0
  {
    if n.exprName != "rules" then Nil
    else if |n.children| < 2 then Trapped
    else ListTrees(n.children[1])
  }

  /** The list node under `rules` holds rules, as the grammar of grammars makes it. */
  predicate OfRules(n: Node)
    requires WellFormed(n)
  {
    |n.children| >= 2 && |n.children[1].children| > 0 && n.children[1].children[0].exprName == "rule"
  }

  /** A rule is never a bare reference: `visitRule` wraps one. */
  lemma {:induction false} RulesAreNotReferences(n: Node, i: nat)
    requires WellFormed(n) && i <= |n.children| && TransformAll(n, "rule", i).Value?
    ensures forall k | 0 <= k < |TransformAll(n, "rule", i).value| ::
      !TransformAll(n, "rule", i).value[k].expr.LazyReference?
    decreases |n.children| - i
  {
    if i < |n.children| {
      RulesAreNotReferences(n, i + 1);
      RuleIsNotReference(n.children[i]);
    }
  }

  /** A list of rules compiles to trees none of which is a bare reference. */
  lemma RuleListHasNoReference(n: Node)
    requires WellFormed(n) && |n.children| > 0 && n.children[0].exprName == "rule" && ListTrees(n).Value?
    ensures forall k | 0 <= k < |ListTrees(n).value| :: !ListTrees(n).value[k].expr.LazyReference?
  {
    if TransformAll(n, "rule", 0).Value? {
      RulesAreNotReferences(n, 0);
    }
  }

  lemma RuleIsNotReference(n: Node)
    requires WellFormed(n)
    ensures RuleTree(n).Value? ==> !RuleTree(n).value.expr.LazyReference?
  {
    if RuleTree(n).Value? {
      assert n.exprName == "rule" && |n.children| >= 3;
      var t := ExpressionTree(n.children[2]).value;
      assert RuleTree(n).value == Named(Wrapped(t), Label(n.children[0]).value);
    }
  }

  /** The loop of `visitRules` on trees: each rule stored under its name, a later one replacing an earlier one. */
  function RuleDict(ts: seq<Tree>): map<string, Tree>
    decreases |ts|
  {
    if ts == [] then map[]
    else RuleDict(ts[..|ts| - 1])[ts[|ts| - 1].expr.name := ts[|ts| - 1]]
  }

  /** A name is a key exactly when some rule has it, and it maps to the last rule that has it. */
  lemma RuleDictLastWins(ts: seq<Tree>)
    ensures forall k :: k in RuleDict(ts) <==> exists i | 0 <= i < |ts| :: ts[i].expr.name == k
    ensures forall i | 0 <= i < |ts| && (forall j | i < j < |ts| :: ts[j].expr.name != ts[i].expr.name) ::
      RuleDict(ts)[ts[i].expr.name] == ts[i]
  {
    RuleDictKeys(ts);
    RuleDictLast(ts);
  }

  lemma {:induction false} RuleDictKeys(ts: seq<Tree>)
    ensures forall k :: k in RuleDict(ts) <==> exists i | 0 <= i < |ts| :: ts[i].expr.name == k
    decreases |ts|
  {
    if ts != [] {
      var front := ts[..|ts| - 1];
      RuleDictKeys(front);
      forall k
        ensures k in RuleDict(ts) <==> exists i | 0 <= i < |ts| :: ts[i].expr.name == k
      {
        if k in RuleDict(front) {
          var i :| 0 <= i < |front| && front[i].expr.name == k;
          assert ts[i] == front[i];
        }
        if exists i | 0 <= i < |ts| :: ts[i].expr.name == k {
          var i :| 0 <= i < |ts| && ts[i].expr.name == k;
          if i < |front| {
            assert front[i] == ts[i];
          }
        }
      }
    }
  }

  lemma {:induction false} RuleDictLast(ts: seq<Tree>)
    ensures forall i | 0 <= i < |ts| && (forall j | i < j < |ts| :: ts[j].expr.name != ts[i].expr.name) ::
      ts[i].expr.name in RuleDict(ts) && RuleDict(ts)[ts[i].expr.name] == ts[i]
    decreases |ts|
  {
    if ts != [] {
      var front := ts[..|ts| - 1];
      RuleDictLast(front);
      forall i | 0 <= i < |ts| && (forall j | i < j < |ts| :: ts[j].expr.name != ts[i].expr.name)
        ensures ts[i].expr.name in RuleDict(ts) && RuleDict(ts)[ts[i].expr.name] == ts[i]
      {
        if i < |front| {
          assert front[i] == ts[i];
          assert forall j | i < j < |front| :: front[j] == ts[j];
        }
      }
    }
  }

  /** The loop of `visitRules` on the arena: each rule stored under the name of its cell. */
  function DictOf(g: seq<Cell>, rs: seq<Ref>): map<string, Ref>
    requires AllBelow(rs, |g|)
    decreases |rs|
  {
    if rs == [] then map[]
    else DictOf(g, rs[..|rs| - 1])[g[rs[|rs| - 1]].name := rs[|rs| - 1]]
  }

  /** `d` keys the arena cells that unfold to the entries of the tree dictionary of `ts`. */
  ghost predicate Keyed(g: seq<Cell>, d: map<string, Ref>, ts: seq<Tree>)
    requires Ordered(g)
  {
    && (forall k :: k in d <==> k in RuleDict(ts))
    && forall k | k in d :: d[k] < |g| && Unfold(g, d[k]) == RuleDict(ts)[k]
  }

  /** The arena dictionary is the tree dictionary, entry by entry. */
  lemma {:induction false} DictOfUnfold(g: seq<Cell>, rs: seq<Ref>, ts: seq<Tree>)
    requires Ordered(g) && AllBelow(rs, |g|) && |rs| == |ts|
    requires forall i | 0 <= i < |rs| :: Unfold(g, rs[i]) == ts[i]
    ensures Keyed(g, DictOf(g, rs), ts)
    ensures forall k | k in DictOf(g, rs) :: DictOf(g, rs)[k] in rs
    decreases |rs|
  {
    if rs != [] {
      var n := |rs| - 1;
      DictOfUnfold(g, rs[..n], ts[..n]);
      assert Unfold(g, rs[n]).expr.name == g[rs[n]].name;
    }
  }

  /** Every value of the arena dictionary is one of the listed rules. */
  lemma {:induction false} DictOfIn(g: seq<Cell>, rs: seq<Ref>)
    requires AllBelow(rs, |g|)
    ensures forall k | k in DictOf(g, rs) :: DictOf(g, rs)[k] in rs
    decreases |rs|
  {
    if rs != [] {
      var n := |rs| - 1;
      DictOfIn(g, rs[..n]);
      assert forall x | x in rs[..n] :: x in rs;
    }
  }

  /** The rules of a dictionary built from trees that are not bare references are not LazyReferences. */
  lemma EntriesAreNotReferences(g: seq<Cell>, rs: seq<Ref>, ts: seq<Tree>)
    requires Ordered(g) && AllBelow(rs, |g|) && |rs| == |ts|
    requires forall i | 0 <= i < |rs| :: Unfold(g, rs[i]) == ts[i] && !ts[i].expr.LazyReference?
    ensures forall k | k in DictOf(g, rs) :: DictOf(g, rs)[k] < |g| && !g[DictOf(g, rs)[k]].LazyReference?
  {
    forall i | 0 <= i < |rs|
      ensures !g[rs[i]].LazyReference?
    {
      assert Unfold(g, rs[i]).expr.Type() == g[rs[i]].Type();
    }
    DictOfIn(g, rs);
  }

  // ---------------------------------------------------------------------------
  // Which rule names the compiled rules refer to.

  /** The loop of `visitOneOrMore` over `n` meets a child that gives nil and returns [], dropping what it built. */
  predicate StopsOnNil(n: Node)
    requires WellFormed(n)
  {
    && |n.children| > 0
    && var kind := n.children[0].exprName;
      (kind == "rule" || kind == "or_term" || kind == "term") && TransformAll(n, kind, 0).Nil?
  }

  /**
   * No `visitOneOrMore` loop under `n` (the rule list, the alternatives of an
   * ored, the rest of a sequence) stops on a child that gives nil, so every
   * object the visitor builds ends up in the compiled rules.
   */
  predicate NilFree(n: Node)
    requires WellFormed(n)
    decreases n
  {
    && ((n.exprName == "rules" || n.exprName == "ored" || n.exprName == "sequence") && |n.children| >= 2 ==>
          !StopsOnNil(n.children[1]))
    && forall i | 0 <= i < |n.children| :: NilFree(n.children[i])
  }

  /** A LazyReference named `k` occurs in `t` below its root, held by some expression. */
  predicate Refers(t: Tree, k: string)
    decreases t, 0
  {
    match t.expr
    case Sequence(_, ms) => exists i | 0 <= i < |ms| :: HeldIn(ms[i], k)
    case OneOf(_, ms) => exists i | 0 <= i < |ms| :: HeldIn(ms[i], k)
    case Lookahead(_, m) => HeldIn(m, k)
    case Not(_, m) => HeldIn(m, k)
    case Optional(_, m) => HeldIn(m, k)
    case ZeroOrMore(_, m) => HeldIn(m, k)
    case OneOrMore(_, m, _) => HeldIn(m, k)
    case _ => false
  }

  /** `m`, a member of some expression, is a LazyReference named `k` or refers to `k`. */
  predicate HeldIn(m: Tree, k: string)
    decreases m, 1
  {
    (m.expr.LazyReference? && m.expr.name == k) || Refers(m, k)
  }

  /** Some compiled rule refers to a name that no rule has. */
  ghost predicate UnknownName(ts: seq<Tree>) {
    exists i, k | 0 <= i < |ts| && Refers(ts[i], k) :: k !in RuleDict(ts)
  }

  lemma RefersRebuild(e: Cell, us: seq<Tree>, k: string)
    requires |us| == |MembersOf(e)|
    ensures Refers(Rebuild(e, us), k) <==> exists i | 0 <= i < |us| :: HeldIn(us[i], k)
  {
  }

  /** The tree of a cell refers to every name held in the tree of one of its members. */
  lemma MemberRefers(g: seq<Cell>, p: Ref, j: nat, k: string)
    requires Ordered(g) && p < |g| && j < |MembersOf(g[p])|
    requires HeldIn(Unfold(g, MembersOf(g[p])[j]), k)
    ensures Refers(Unfold(g, p), k)
  {
    var ms := MembersOf(g[p]);
    assert Below(g[p], p);
    var us := seq(|ms|, i requires 0 <= i < |ms| => Unfold(g, ms[i]));
    assert HeldIn(us[j], k);
    RefersRebuild(g[p], us, k);
  }

  /** A name the tree of cell `x` refers to is the name of a LazyReference cell that some cell up to `x` holds. */
  lemma {:induction false} RefersHeld(g: seq<Cell>, x: Ref, k: string) returns (p: Ref, j: nat)
    requires Ordered(g) && x < |g| && Refers(Unfold(g, x), k)
    ensures p <= x && j < |MembersOf(g[p])|
    ensures IsLazy(g, MembersOf(g[p])[j]) && g[MembersOf(g[p])[j]].name == k
    decreases x
  {
    var ms := MembersOf(g[x]);
    assert Below(g[x], x);
    var us := seq(|ms|, i requires 0 <= i < |ms| => Unfold(g, ms[i]));
    RefersRebuild(g[x], us, k);
    var i :| 0 <= i < |us| && HeldIn(us[i], k);
    if us[i].expr.LazyReference? && us[i].expr.name == k {
      p, j := x, i;
    } else {
      p, j := RefersHeld(g, ms[i], k);
    }
  }

  /** Among results that are the only roots, a name some cell's tree refers to is referred to by one of the results. */
  lemma {:induction false} RefersUp(g: seq<Cell>, rs: seq<Ref>, ts: seq<Tree>, q: Ref, k: string)
    requires Ordered(g) && BuiltAll(g, 0, rs, ts) && RootsAmong(g, 0, rs)
    requires q < |g| && Refers(Unfold(g, q), k)
    ensures exists i | 0 <= i < |ts| :: Refers(ts[i], k)
    decreases |g| - q
  {
    if Root(g, q) {
      var i :| 0 <= i < |rs| && rs[i] == q;
      assert Refers(ts[i], k);
    } else {
      var p :| 0 <= p < |g| && q in MembersOf(g[p]);
      var j :| 0 <= j < |MembersOf(g[p])| && MembersOf(g[p])[j] == q;
      assert Below(g[p], p);
      MemberRefers(g, p, j, k);
      RefersUp(g, rs, ts, p, k);
    }
  }

  /**
   * Linking traps on an unknown name: a compiled rule that refers to a name no
   * rule has leaves a LazyReference without a rule, and, when the rules are
   * all that was built, a LazyReference without a rule comes from such a rule.
   */
  lemma TrapsOnUnknownName(g: seq<Cell>, w: seq<Ref>, rs: seq<Ref>, ts: seq<Tree>)
    requires Inv(g, w) && BuiltAll(g, 0, rs, ts)
    ensures UnknownName(ts) ==> exists i | 0 <= i < |w| :: Missing(g, DictOf(g, rs), w[i])
    ensures RootsAmong(g, 0, rs) && (exists i | 0 <= i < |w| :: Missing(g, DictOf(g, rs), w[i])) ==> UnknownName(ts)
  {
    DictOfUnfold(g, rs, ts);
    var d := DictOf(g, rs);
    if UnknownName(ts) {
      var i, k :| 0 <= i < |ts| && Refers(ts[i], k) && k !in RuleDict(ts);
      var p, j := RefersHeld(g, rs[i], k);
      var l := MembersOf(g[p])[j];
      assert g[l].parent == Some(p);
      assert IsLazy(g, l);
      var m :| 0 <= m < |w| && w[m] == l;
      assert Missing(g, d, w[m]);
    }
    if RootsAmong(g, 0, rs) && exists i | 0 <= i < |w| :: Missing(g, d, w[i]) {
      var m :| 0 <= m < |w| && Missing(g, d, w[m]);
      var l := w[m];
      assert IsLazy(g, l);
      var p := g[l].parent.value;
      assert Holds(g, l);
      var j := SlotIndex(g[p], g[l].parentMemberIdx);
      assert HeldIn(Unfold(g, l), g[l].name);
      MemberRefers(g, p, j, g[l].name);
      RefersUp(g, rs, ts, p, g[l].name);
      var i :| 0 <= i < |ts| && Refers(ts[i], g[l].name);
      assert g[l].name !in RuleDict(ts);
    }
  }

  // ---------------------------------------------------------------------------
  // Regex unescaping.

  /** The escaping a grammar writer applies to put a pattern between double quotes. */
  function Escape(p: string): (s: string)
    ensures |s| >= |p|
  {
    if p == [] then []
    else if p[0] == '\\' || p[0] == '"' then ['\\', p[0]] + Escape(p[1..])
    else [p[0]] + Escape(p[1..])
  }

  /** One left-to-right pass that turns `\\` into `\` and `\"` into `"`. */
  function Unescape(s: string): (p: string)
    ensures |p| <= |s|
  {
    if |s| >= 2 && s[0] == '\\' && (s[1] == '\\' || s[1] == '"') then [s[1]] + Unescape(s[2..])
    else if s == [] then []
    else [s[0]] + Unescape(s[1..])
  }

  /** Unescaping undoes escaping, for every pattern. */
  lemma {:induction false} UnescapeEscape(p: string)
    ensures Unescape(Escape(p)) == p
  {
    if p != [] {
      UnescapeEscape(p[1..]);
      var rest := Escape(p[1..]);
      if p[0] == '\\' || p[0] == '"' {
        assert (['\\', p[0]] + rest)[2..] == rest;
      } else {
        assert ([p[0]] + rest)[1..] == rest;
      }
    }
  }

  /** Swift's `replacingOccurrences(of: [a, b], with: [c])`: non-overlapping, left to right. */
  function ReplacePair(s: string, a: char, b: char, c: char): string {
    if |s| >= 2 && s[0] == a && s[1] == b then [c] + ReplacePair(s[2..], a, b, c)
    else if s == [] then []
    else [s[0]] + ReplacePair(s[1..], a, b, c)
  }

  /** The unescaping of RuleVisitor.swift as written: all `\\` first, then all `\"` in the result. */
  function UnescapeAsWritten(s: string): string {
    ReplacePair(ReplacePair(s, '\\', '\\', '\\'), '\\', '"', '"')
  }

  /** Some escaped backslash, `\\`, comes right before a quote. */
  predicate BackslashBeforeQuote(s: string) {
    exists i | 0 <= i < |s| - 2 :: s[i] == '\\' && s[i + 1] == '\\' && s[i + 2] == '"'
  }

  /** The first pass keeps the first character of a nonempty text. */
  lemma {:induction false} ReplaceKeepsHead(s: string)
    requires s != []
    ensures ReplacePair(s, '\\', '\\', '\\') != [] && ReplacePair(s, '\\', '\\', '\\')[0] == s[0]
  {
  }

  /**
   * Without an escaped backslash right before a quote, the two passes of
   * RuleVisitor.swift give what the one-pass unescape gives.
   */
  lemma {:induction false} AsWrittenAgrees(s: string)
    requires !BackslashBeforeQuote(s)
    ensures UnescapeAsWritten(s) == Unescape(s)
    decreases |s|, 1
  {
    if s == [] {
    } else if |s| >= 2 && s[0] == '\\' && s[1] == '\\' {
      AsWrittenTail(s, 2);
      var rest := ReplacePair(s[2..], '\\', '\\', '\\');
      if s[2..] != [] {
        ReplaceKeepsHead(s[2..]);
        assert s[2] != '"';
      }
      assert ReplacePair(s, '\\', '\\', '\\') == ['\\'] + rest;
      assert (['\\'] + rest)[1..] == rest;
    } else if |s| >= 2 && s[0] == '\\' && s[1] == '"' {
      AsWrittenTail(s, 2);
      var rest := ReplacePair(s[2..], '\\', '\\', '\\');
      assert s[1..][1..] == s[2..];
      assert ReplacePair(s, '\\', '\\', '\\') == ['\\', '"'] + rest;
      assert (['\\', '"'] + rest)[2..] == rest;
    } else {
      AsWrittenTail(s, 1);
      var rest := ReplacePair(s[1..], '\\', '\\', '\\');
      if s[0] == '\\' && s[1..] != [] {
        ReplaceKeepsHead(s[1..]);
      }
      assert ReplacePair(s, '\\', '\\', '\\') == [s[0]] + rest;
      assert ([s[0]] + rest)[1..] == rest;
    }
  }

  /** The suffix after the first `k` characters keeps the hypothesis, and so agrees too. */
  lemma {:induction false} AsWrittenTail(s: string, k: nat)
    requires !BackslashBeforeQuote(s) && 0 < k <= |s| && k <= 2
    ensures UnescapeAsWritten(s[k..]) == Unescape(s[k..])
    decreases |s|, 0
  {
    AsWrittenAgrees(s[k..]);
  }

  /**
   * The two passes disagree with escaping when an escaped backslash comes
   * right before a quote: the quoted text `"\\\\"`, written for the pattern
   * `\\` (one literal backslash), comes out as the pattern `\`.
   */
  lemma AsWrittenLosesBackslash()
    ensures Escape(@"\\") == @"\\\\"
    ensures Unquote(UnescapeAsWritten(@"""\\\\""")) == Value(@"\")
    ensures Unquote(Unescape(@"""\\\\""")) == Value(@"\\")
  {
    assert Escape(@"\\") == @"\\\\" by {
      assert @"\\"[1..] == @"\";
      assert @"\\"[1..][1..] == [];
    }
    var s := @"""\\\\""";
    var once := ReplacePair(s, '\\', '\\', '\\');
    assert once == @"""\\""" by {
      assert s[1..] == @"\\\\""";
      assert s[1..][2..] == @"\\""";
      assert s[1..][2..][2..] == @"""";
      assert s[1..][2..][2..][1..] == [];
    }
    assert @"""\"""[1..2] == @"\";
    assert ReplacePair(once, '\\', '"', '"') == @"""\""" by {
      assert once[1..] == @"\\""";
      assert once[1..][1..] == @"\""";
      assert once[1..][1..][2..] == [];
    }
    assert @"""\\"""[1..3] == @"\\";
    assert Unescape(s) == @"""\\""" by {
      assert s[1..] == @"\\\\""";
      assert s[1..][2..] == @"\\""";
      assert s[1..][2..][2..] == @"""";
      assert s[1..][2..][2..][1..] == [];
    }
  }

  // ---------------------------------------------------------------------------
  // The visitor.

  /** `expression.name = label` on an arena cell renames the tree that cell unfolds to. */
  lemma UnfoldRename(g: seq<Cell>, x: Ref, title: string)
    requires Ordered(g) && x < |g|
    ensures Ordered(g[x := g[x].(name := title)])
    ensures Unfold(g[x := g[x].(name := title)], x) == Named(Unfold(g, x), title)
  {
    var h := g[x := g[x].(name := title)];
    assert Ordered(h) by {
      forall q | 0 <= q < |h|
        ensures Below(h[q], q)
      {
        assert MembersOf(h[q]) == MembersOf(g[q]);
        assert Below(g[q], q);
      }
    }
    var ms := MembersOf(g[x]);
    assert Below(g[x], x);
    forall i | 0 <= i < |ms|
      ensures Unfold(h, ms[i]) == Unfold(g, ms[i])
    {
      UnfoldStrip(g, h, ms[i]);
    }
    var us := seq(|ms|, i requires 0 <= i < |ms| => Unfold(g, ms[i]));
    assert seq(|ms|, i requires 0 <= i < |ms| => Unfold(h, ms[i])) == us;
  }

  /** A `visit*` call's result against its specification: the new last cell unfolds to the specified tree. */
  ghost predicate Built(g: seq<Cell>, lo: nat, r: Visit<Ref>, t: Visit<Tree>)
    requires Ordered(g)
  {
    match r
    case Value(x) => t.Value? && lo <= x && x + 1 == |g| && Unfold(g, x) == t.value
    case Nil => t == Nil
    case Trapped => t == Trapped
  }

  /** A `visitOneOrMore` result: new cells held by no one, in allocation order, unfolding to the trees. */
  ghost predicate BuiltAll(g: seq<Cell>, lo: nat, rs: seq<Ref>, ts: seq<Tree>)
    requires Ordered(g)
  {
    && |rs| == |ts|
    && Increasing(rs)
    && forall i | 0 <= i < |rs| :: lo <= rs[i] < |g| && Root(g, rs[i]) && Unfold(g, rs[i]) == ts[i]
  }

  /** `ts` in front of the outcome of a loop that may stop early. */
  function PrependAll(ts: seq<Tree>, v: Visit<seq<Tree>>): Visit<seq<Tree>> {
    match v
    case Value(us) => Value(ts + us)
    case Nil => Nil
    case Trapped => Trapped
  }

  lemma PrependAllStep(ts: seq<Tree>, t: Tree, v: Visit<seq<Tree>>)
    ensures PrependAll(ts, PrependAll([t], v)) == PrependAll(ts + [t], v)
  {
    if v.Value? {
      assert ts + ([t] + v.value) == ts + [t] + v.value;
    }
  }

  class RuleVisitor {
    /** Every LazyReference created so far, in creation order. */
    var lazyReferences: seq<Ref>
    /** The objects created so far. */
    const arena: Arena

    ghost predicate Valid()
      reads this, arena
    {
      Inv(arena.exprs, lazyReferences)
    }

    constructor ()
      ensures Valid() && fresh(arena) && arena.exprs == [] && lazyReferences == []
    {
      arena := new Arena();
      lazyReferences := [];
    }

    /** Allocate a Literal or a Regex. */
    method MakeLeaf(e: Cell) returns (x: Ref)
      requires Valid() && (e.Literal? || e.Regex?)
      modifies arena
      ensures Valid() && Extends(old(arena.exprs), arena.exprs)
      ensures x == |old(arena.exprs)| && arena.exprs == old(arena.exprs) + [e]
      ensures Unfold(arena.exprs, x) == Rebuild(e, [])
    {
      InvLeaf(arena.exprs, lazyReferences, e);
      x := arena.New(e);
    }

    /** Allocate a Compound whose members are newer than `g0` and held by no one. */
    method MakeCompound(e: Cell, ghost g0: seq<Cell>, ghost ts: seq<Tree>) returns (x: Ref)
      requires Valid() && Extends(g0, arena.exprs)
      requires e.IsCompound() && Adoptable(arena.exprs, e) && AllAtLeast(e.members, |g0|)
      requires |ts| == |e.members| && forall i | 0 <= i < |ts| :: Unfold(arena.exprs, e.members[i]) == ts[i]
      modifies arena
      ensures Valid() && Extends(g0, arena.exprs)
      ensures x == |old(arena.exprs)| && |arena.exprs| == x + 1
      ensures Unfold(arena.exprs, x) == Rebuild(e, ts)
      ensures RootsAmong(old(arena.exprs), |g0|, e.members) ==> RootsAmong(arena.exprs, |g0|, [x])
    {
      ghost var g := arena.exprs;
      CompoundAdopts(g, e);
      x := arena.NewCompound(e);
      ghost var h := arena.exprs;
      InvAdopted(g, lazyReferences, e, h);
      ExtendsByOne(g0, g, h);
      StripGrown(g, h);
      if RootsAmong(g, |g0|, e.members) {
        RootsAdopted(g, h, |g0|, e.members);
      }
      forall i | 0 <= i < |ts|
        ensures Unfold(h, e.members[i]) == ts[i]
      {
        UnfoldStrip(g, h, e.members[i]);
      }
      assert seq(|e.members|, i requires 0 <= i < |e.members| => Unfold(h, e.members[i])) == ts;
    }

    /** Allocate a Singleton whose member is newer than `g0` and held by no one. */
    method MakeSingleton(e: Cell, ghost g0: seq<Cell>, ghost t: Tree) returns (x: Ref)
      requires Valid() && Extends(g0, arena.exprs)
      requires e.IsSingleton() && |g0| <= e.member < |arena.exprs| && Root(arena.exprs, e.member)
      requires Unfold(arena.exprs, e.member) == t
      modifies arena
      ensures Valid() && Extends(g0, arena.exprs)
      ensures x == |old(arena.exprs)| && |arena.exprs| == x + 1
      ensures Unfold(arena.exprs, x) == Rebuild(e, [t])
      ensures RootsAmong(old(arena.exprs), |g0|, [e.member]) ==> RootsAmong(arena.exprs, |g0|, [x])
    {
      ghost var g := arena.exprs;
      x := arena.NewSingleton(e);
      ghost var h := arena.exprs;
      SingletonAdopts(g, e, h);
      assert Adoptable(g, e);
      InvAdopted(g, lazyReferences, e, h);
      ExtendsByOne(g0, g, h);
      StripGrown(g, h);
      if RootsAmong(g, |g0|, [e.member]) {
        RootsAdopted(g, h, |g0|, [e.member]);
      }
      UnfoldStrip(g, h, e.member);
      assert seq(1, i requires 0 <= i < 1 => Unfold(h, [e.member][i])) == [t];
    }

    /** `visitReference`: a fresh LazyReference, appended to the worklist. */
    method VisitReference(n: Node) returns (r: Visit<Ref>)
      requires WellFormed(n) && Valid()
      modifies this, arena
      ensures Valid() && Extends(old(arena.exprs), arena.exprs)
      ensures Built(arena.exprs, |old(arena.exprs)|, r, ReferenceTree(n))
      ensures r.Value? ==> RootsAmong(arena.exprs, |old(arena.exprs)|, [r.value])
      ensures r.Value? ==> lazyReferences == old(lazyReferences) + [r.value]
      decreases n, 0
    {
      if n.exprName != "reference" {
        return Nil;
      }
      if |n.children| == 0 {
        return Trapped;
      }
      var title := Label(n.children[0]);
      if !title.Value? {
        return Trapped;
      }
      var e := LazyReference(title.value, None, -1);
      InvLeaf(arena.exprs, lazyReferences, e);
      ghost var g := arena.exprs;
      var x := arena.New(e);
      OnlyNewRoot(g, arena.exprs);
      lazyReferences := lazyReferences + [x];
      r := Value(x);
    }

    /** `visitLiteral`: a Literal of the quoted text without its quotes. */
    method VisitLiteral(n: Node) returns (r: Visit<Ref>)
      requires WellFormed(n) && Valid()
      modifies this, arena
      ensures Valid() && Extends(old(arena.exprs), arena.exprs)
      ensures Built(arena.exprs, |old(arena.exprs)|, r, LiteralTree(n))
      ensures r.Value? ==> RootsAmong(arena.exprs, |old(arena.exprs)|, [r.value])
      decreases n, 0
    {
      if n.exprName != "literal" {
        return Nil;
      }
      if |n.children| == 0 {
        return Trapped;
      }
      assert WellFormed(n.children[0]);
      var literal := Unquote(n.children[0].Text());
      if !literal.Value? {
        return Trapped;
      }
      var x := MakeLeaf(Literal("", literal.value));
      r := Value(x);
    }

    /** `visitRegex`: a Regex of the unescaped quoted text without its quotes. */
    method VisitRegex(n: Node) returns (r: Visit<Ref>)
      requires WellFormed(n) && Valid()
      modifies this, arena
      ensures Valid() && Extends(old(arena.exprs), arena.exprs)
      ensures Built(arena.exprs, |old(arena.exprs)|, r, RegexTree(n))
      ensures r.Value? ==> RootsAmong(arena.exprs, |old(arena.exprs)|, [r.value])
      decreases n, 0
    {
      if n.exprName != "regex" {
        return Nil;
      }
      if |n.children| < 2 {
        return Trapped;
      }
      assert WellFormed(n.children[1]);
      var pattern := Unquote(UnescapeAsWritten(n.children[1].Text()));
      if !pattern.Value? {
        return Trapped;
      }
      InvLeaf(arena.exprs, lazyReferences, Regex("", "^" + pattern.value));
      var x := arena.NewRegex(pattern.value, "");
      r := Value(x);
    }

    /** `visitAtom`. */
    method VisitAtom(n: Node) returns (r: Visit<Ref>)
      requires WellFormed(n) && Valid()
      modifies this, arena
      ensures Valid() && Extends(old(arena.exprs), arena.exprs)
      ensures Built(arena.exprs, |old(arena.exprs)|, r, AtomTree(n))
      ensures r.Value? && NilFree(n) ==> RootsAmong(arena.exprs, |old(arena.exprs)|, [r.value])
      decreases n, 0
    {
      if n.exprName != "atom" {
        return Nil;
      }
      if |n.children| == 0 {
        return Trapped;
      }
      var c := n.children[0];
      if c.exprName == "reference" {
        r := VisitReference(c);
      } else if c.exprName == "literal" {
        r := VisitLiteral(c);
      } else if c.exprName == "regex" {
        r := VisitRegex(c);
      } else if c.exprName == "parenthesized" {
        if |c.children| < 3 {
          return Trapped;
        }
        assert NilFree(n) ==> NilFree(c) && NilFree(c.children[2]);
        r := VisitExpression(c.children[2]);
      } else {
        r := Nil;
      }
    }

    /** `visitQuantified`: the atom under Optional, OneOrMore or ZeroOrMore. */
    method VisitQuantified(n: Node) returns (r: Visit<Ref>)
      requires WellFormed(n) && Valid()
      modifies this, arena
      ensures Valid() && Extends(old(arena.exprs), arena.exprs)
      ensures Built(arena.exprs, |old(arena.exprs)|, r, QuantifiedTree(n))
      ensures r.Value? && NilFree(n) ==> RootsAmong(arena.exprs, |old(arena.exprs)|, [r.value])
      decreases n, 0
    {
      if n.exprName != "quantified" {
        return Nil;
      }
      if |n.children| == 0 {
        return Trapped;
      }
      var atom := VisitAtom(n.children[0]);
      if !atom.Value? {
        return atom;
      }
      if |n.children| < 2 || |n.children[1].children| == 0 {
        return Trapped;
      }
      LastIsRoot(arena.exprs);
      assert WellFormed(n.children[1]);
      r := ApplyQuantifier(n.children[1].children[0].Text(), atom.value, old(arena.exprs), Unfold(arena.exprs, atom.value));
    }

    /** The switch of `visitQuantified` on the quantifier text, applied to the atom `a`. */
    method ApplyQuantifier(q: string, a: Ref, ghost g0: seq<Cell>, ghost t: Tree) returns (r: Visit<Ref>)
      requires Valid() && Extends(g0, arena.exprs)
      requires |g0| <= a && a + 1 == |arena.exprs| && Unfold(arena.exprs, a) == t
      modifies arena
      ensures Valid() && Extends(g0, arena.exprs)
      ensures Built(arena.exprs, |g0|, r, Quantify(q, t))
      ensures r.Value? && RootsAmong(old(arena.exprs), |g0|, [a]) ==> RootsAmong(arena.exprs, |g0|, [r.value])
    {
      LastIsRoot(arena.exprs);
      var x;
      if q == "?" {
        x := MakeSingleton(Optional("", a), g0, t);
      } else if q == "+" {
        x := MakeSingleton(OneOrMore("", a, 1), g0, t);
      } else if q == "*" {
        x := MakeSingleton(ZeroOrMore("", a), g0, t);
      } else {
        return Nil;
      }
      r := Value(x);
    }

    /** `visitNotTerm`. */
    method VisitNotTerm(n: Node) returns (r: Visit<Ref>)
      requires WellFormed(n) && Valid()
      modifies this, arena
      ensures Valid() && Extends(old(arena.exprs), arena.exprs)
      ensures Built(arena.exprs, |old(arena.exprs)|, r, NotTermTree(n))
      ensures r.Value? && NilFree(n) ==> RootsAmong(arena.exprs, |old(arena.exprs)|, [r.value])
      decreases n, 0
    {
      if n.exprName != "not_term" {
        return Nil;
      }
      if |n.children| < 2 {
        return Trapped;
      }
      var term := VisitTerm(n.children[1]);
      if !term.Value? {
        return term;
      }
      LastIsRoot(arena.exprs);
      var x := MakeSingleton(Not("", term.value), old(arena.exprs), Unfold(arena.exprs, term.value));
      r := Value(x);
    }

    /** `visitLookaheadTerm`. */
    method VisitLookaheadTerm(n: Node) returns (r: Visit<Ref>)
      requires WellFormed(n) && Valid()
      modifies this, arena
      ensures Valid() && Extends(old(arena.exprs), arena.exprs)
      ensures Built(arena.exprs, |old(arena.exprs)|, r, LookaheadTermTree(n))
      ensures r.Value? && NilFree(n) ==> RootsAmong(arena.exprs, |old(arena.exprs)|, [r.value])
      decreases n, 0
    {
      if n.exprName != "lookahead_term" {
        return Nil;
      }
      if |n.children| < 2 {
        return Trapped;
      }
      var term := VisitTerm(n.children[1]);
      if !term.Value? {
        return term;
      }
      LastIsRoot(arena.exprs);
      var x := MakeSingleton(Lookahead("", term.value), old(arena.exprs), Unfold(arena.exprs, term.value));
      r := Value(x);
    }

    /** `visitTerm`. */
    method VisitTerm(n: Node) returns (r: Visit<Ref>)
      requires WellFormed(n) && Valid()
      modifies this, arena
      ensures Valid() && Extends(old(arena.exprs), arena.exprs)
      ensures Built(arena.exprs, |old(arena.exprs)|, r, TermTree(n))
      ensures r.Value? && NilFree(n) ==> RootsAmong(arena.exprs, |old(arena.exprs)|, [r.value])
      decreases n, 0
    {
      if n.exprName != "term" {
        return Nil;
      }
      if |n.children| == 0 {
        return Trapped;
      }
      var c := n.children[0];
      if c.exprName == "not_term" {
        r := VisitNotTerm(c);
      } else if c.exprName == "lookahead_term" {
        r := VisitLookaheadTerm(c);
      } else if c.exprName == "quantified" {
        r := VisitQuantified(c);
      } else if c.exprName == "atom" {
        r := VisitAtom(c);
      } else {
        r := Nil;
      }
    }

    /** `visitOrTerm`. */
    method VisitOrTerm(n: Node) returns (r: Visit<Ref>)
      requires WellFormed(n) && Valid()
      modifies this, arena
      ensures Valid() && Extends(old(arena.exprs), arena.exprs)
      ensures Built(arena.exprs, |old(arena.exprs)|, r, OrTermTree(n))
      ensures r.Value? && NilFree(n) ==> RootsAmong(arena.exprs, |old(arena.exprs)|, [r.value])
      decreases n, 0
    {
      if n.exprName != "or_term" {
        return Nil;
      }
      if |n.children| < 3 {
        return Trapped;
      }
      r := VisitTerm(n.children[2]);
    }

    /** `visitOred`. */
    method VisitOred(n: Node) returns (r: Visit<Ref>)
      requires WellFormed(n) && Valid()
      modifies this, arena
      ensures Valid() && Extends(old(arena.exprs), arena.exprs)
      ensures Built(arena.exprs, |old(arena.exprs)|, r, OredTree(n))
      ensures r.Value? && NilFree(n) ==> RootsAmong(arena.exprs, |old(arena.exprs)|, [r.value])
      decreases n, 0
    {
      if n.exprName != "ored" {
        return Nil;
      }
      if |n.children| == 0 {
        return Trapped;
      }
      var term := VisitTerm(n.children[0]);
      if !term.Value? {
        return term;
      }
      ghost var g1 := arena.exprs;
      LastIsRoot(g1);
      if |n.children| < 2 {
        return Trapped;
      }
      var orTerms := VisitOneOrMore(n.children[1]);
      if !orTerms.Value? {
        return Trapped;
      }
      ghost var g2 := arena.exprs;
      Kept(g1, g2, term.value);
      ExtendsTransitive(old(arena.exprs), g1, g2);
      RootsPrepend(g1, g2, |old(arena.exprs)|, term.value, orTerms.value);
      var members := [term.value] + orTerms.value;
      ghost var ts := [Unfold(g1, term.value)] + ListTrees(n.children[1]).value;
      Gather(g2, |old(arena.exprs)|, |g1|, term.value, orTerms.value, ts);
      var x := MakeCompound(OneOf("", members), old(arena.exprs), ts);
      r := Value(x);
    }

    /** `visitSequence`. */
    method VisitSequence(n: Node) returns (r: Visit<Ref>)
      requires WellFormed(n) && Valid()
      modifies this, arena
      ensures Valid() && Extends(old(arena.exprs), arena.exprs)
      ensures Built(arena.exprs, |old(arena.exprs)|, r, SequenceTree(n))
      ensures r.Value? && NilFree(n) ==> RootsAmong(arena.exprs, |old(arena.exprs)|, [r.value])
      decreases n, 0
    {
      if n.exprName != "sequence" {
        return Nil;
      }
      if |n.children| == 0 {
        return Trapped;
      }
      var term := VisitTerm(n.children[0]);
      if !term.Value? {
        return term;
      }
      ghost var g1 := arena.exprs;
      LastIsRoot(g1);
      if |n.children| < 2 {
        return Trapped;
      }
      var otherTerms := VisitOneOrMore(n.children[1]);
      if !otherTerms.Value? {
        return Trapped;
      }
      ghost var g2 := arena.exprs;
      Kept(g1, g2, term.value);
      ExtendsTransitive(old(arena.exprs), g1, g2);
      RootsPrepend(g1, g2, |old(arena.exprs)|, term.value, otherTerms.value);
      var members := [term.value] + otherTerms.value;
      ghost var ts := [Unfold(g1, term.value)] + ListTrees(n.children[1]).value;
      Gather(g2, |old(arena.exprs)|, |g1|, term.value, otherTerms.value, ts);
      var x := MakeCompound(Sequence("", members), old(arena.exprs), ts);
      r := Value(x);
    }

    /** `visitExpression`. */
    method VisitExpression(n: Node) returns (r: Visit<Ref>)
      requires WellFormed(n) && Valid()
      modifies this, arena
      ensures Valid() && Extends(old(arena.exprs), arena.exprs)
      ensures Built(arena.exprs, |old(arena.exprs)|, r, ExpressionTree(n))
      ensures r.Value? && NilFree(n) ==> RootsAmong(arena.exprs, |old(arena.exprs)|, [r.value])
      decreases n, 0
    {
      if n.exprName != "expression" {
        return Nil;
      }
      if |n.children| == 0 {
        return Trapped;
      }
      var c := n.children[0];
      if c.exprName == "ored" {
        r := VisitOred(c);
      } else if c.exprName == "sequence" {
        r := VisitSequence(c);
      } else if c.exprName == "term" {
        r := VisitTerm(c);
      } else {
        r := Nil;
      }
    }

    /** `visitRule`: the expression, wrapped when it is a bare reference, named after the label. */
    method VisitRule(n: Node) returns (r: Visit<Ref>)
      requires WellFormed(n) && Valid()
      modifies this, arena
      ensures Valid() && Extends(old(arena.exprs), arena.exprs)
      ensures Built(arena.exprs, |old(arena.exprs)|, r, RuleTree(n))
      ensures r.Value? && NilFree(n) ==> RootsAmong(arena.exprs, |old(arena.exprs)|, [r.value])
      decreases n, 0
    {
      if n.exprName != "rule" {
        return Nil;
      }
      if |n.children| == 0 {
        return Trapped;
      }
      var title := Label(n.children[0]);
      if !title.Value? {
        return Trapped;
      }
      if |n.children| < 3 {
        return Trapped;
      }
      var expression := VisitExpression(n.children[2]);
      if !expression.Value? {
        return expression;
      }
      var x := Wrap(expression.value, old(arena.exprs));
      ghost var g2 := arena.exprs;
      UnfoldRename(g2, x, title.value);
      InvRename(g2, lazyReferences, x, title.value);
      ExtendsRename(old(arena.exprs), g2, x, title.value);
      if RootsAmong(g2, |old(arena.exprs)|, [x]) {
        RootsRename(g2, x, title.value, |old(arena.exprs)|, [x]);
      }
      arena.SetName(x, title.value);
      r := Value(x);
    }

    /** The guard of `visitRule` against `a = b`: a bare reference goes into a one-member Sequence. */
    method Wrap(x: Ref, ghost g0: seq<Cell>) returns (y: Ref)
      requires Valid() && Extends(g0, arena.exprs) && |g0| <= x && x + 1 == |arena.exprs|
      modifies arena
      ensures Valid() && Extends(g0, arena.exprs)
      ensures |g0| <= y && y + 1 == |arena.exprs|
      ensures Unfold(arena.exprs, y) == Wrapped(Unfold(old(arena.exprs), x))
      ensures RootsAmong(old(arena.exprs), |g0|, [x]) ==> RootsAmong(arena.exprs, |g0|, [y])
    {
      y := x;
      if arena.exprs[x].Type() == LazyReferenceType {
        LastIsRoot(arena.exprs);
        y := MakeCompound(Sequence("", [x]), g0, [Unfold(arena.exprs, x)]);
      }
    }

    /** The transform `visitOneOrMore` picked, applied to one child. */
    method VisitWith(kind: string, n: Node) returns (r: Visit<Ref>)
      requires WellFormed(n) && Valid()
      modifies this, arena
      ensures Valid() && Extends(old(arena.exprs), arena.exprs)
      ensures Built(arena.exprs, |old(arena.exprs)|, r, Transform(kind, n))
      ensures r.Value? && NilFree(n) ==> RootsAmong(arena.exprs, |old(arena.exprs)|, [r.value])
      decreases n, 1
    {
      if kind == "rule" {
        r := VisitRule(n);
      } else if kind == "or_term" {
        r := VisitOrTerm(n);
      } else {
        r := VisitTerm(n);
      }
    }

    /** `visitOneOrMore`: the children transformed in order, or [] as soon as one gives nil. */
    method VisitOneOrMore(n: Node) returns (r: Visit<seq<Ref>>)
      requires WellFormed(n) && Valid()
      modifies this, arena
      ensures Valid() && Extends(old(arena.exprs), arena.exprs)
      ensures r != Nil
      ensures r.Trapped? <==> ListTrees(n).Trapped?
      ensures r.Value? ==> ListTrees(n).Value? && BuiltAll(arena.exprs, |old(arena.exprs)|, r.value, ListTrees(n).value)
      ensures r.Value? && NilFree(n) && !StopsOnNil(n) ==> RootsAmong(arena.exprs, |old(arena.exprs)|, r.value)
      decreases n, 3
    {
      if |n.children| == 0 {
        return Trapped;
      }
      var kind := n.children[0].exprName;
      if kind != "rule" && kind != "or_term" && kind != "term" {
        return Value([]);
      }
      ghost var g0 := arena.exprs;
      var exprs: seq<Ref> := [];
      ghost var ts: seq<Tree> := [];
      assert PrependAll([], TransformAll(n, kind, 0)) == TransformAll(n, kind, 0) by {
        if TransformAll(n, kind, 0).Value? {
          assert [] + TransformAll(n, kind, 0).value == TransformAll(n, kind, 0).value;
        }
      }
      for i := 0 to |n.children|
        invariant Valid() && Extends(g0, arena.exprs)
        invariant TransformAll(n, kind, 0) == PrependAll(ts, TransformAll(n, kind, i))
        invariant BuiltAll(arena.exprs, |g0|, exprs, ts)
        invariant NilFree(n) && !StopsOnNil(n) ==> RootsAmong(arena.exprs, |g0|, exprs)
      {
        ghost var g1 := arena.exprs;
        var expr := VisitWith(kind, n.children[i]);
        if expr.Nil? {
          assert TransformAll(n, kind, i).Nil? && StopsOnNil(n);
          return Value([]);
        }
        if expr.Trapped? {
          return Trapped;
        }
        ghost var t := Transform(kind, n.children[i]).value;
        CollectStep(n, kind, i, g0, g1, arena.exprs, exprs, ts, expr.value);
        exprs := exprs + [expr.value];
        ts := ts + [t];
      }
      assert ts + [] == ts;
      r := Value(exprs);
    }

    /** `visitRules`: compile the rules, key them by name, then link the references. */
    method VisitRules(n: Node) returns (r: Visit<map<string, Ref>>, ghost unlinked: seq<Cell>, ghost rules: seq<Ref>)
      requires WellFormed(n) && Valid()
      modifies this, arena
      ensures r != Nil
      ensures RulesTrees(n) == Nil ==> r == Value(map[]) && arena.exprs == old(arena.exprs)
      ensures RulesTrees(n) == Trapped ==> r == Trapped
      ensures RulesTrees(n).Value? ==>
        && Inv(unlinked, lazyReferences) && Extends(old(arena.exprs), unlinked)
        && BuiltAll(unlinked, |old(arena.exprs)|, rules, RulesTrees(n).value)
        && (r.Trapped? <==>
              exists i | 0 <= i < |lazyReferences| :: Missing(unlinked, DictOf(unlinked, rules), lazyReferences[i]))
        && (r.Value? ==>
              && r.value == DictOf(unlinked, rules)
              && Substitute(unlinked, lazyReferences, r.value) == Some(arena.exprs)
              && Keyed(unlinked, r.value, RulesTrees(n).value))
      ensures RulesTrees(n).Value? && r.Value? ==> Closed(arena.exprs) && forall k | k in r.value :: r.value[k] < |arena.exprs|
      ensures RulesTrees(n).Value? && r.Value? && OfRules(n) ==> Closed(arena.exprs) && Resolves(arena.exprs)
      ensures RulesTrees(n).Value? && NilFree(n) ==> RootsAmong(unlinked, |old(arena.exprs)|, rules)
    {
      unlinked, rules := arena.exprs, [];
      if n.exprName != "rules" {
        return Value(map[]), unlinked, rules;
      }
      if |n.children| < 2 {
        return Trapped, unlinked, rules;
      }
      var list := VisitOneOrMore(n.children[1]);
      unlinked := arena.exprs;
      if !list.Value? {
        return Trapped, unlinked, rules;
      }
      rules := list.value;
      ghost var ts := RulesTrees(n).value;
      r := Link(list.value, ts);
      if OfRules(n) {
        RuleListHasNoReference(n.children[1]);
      }
    }

    /** The second half of `visitRules`: key the compiled rules by name, then link the references to them. */
    method Link(refs: seq<Ref>, ghost ts: seq<Tree>) returns (r: Visit<map<string, Ref>>)
      requires Valid() && AllBelow(refs, |arena.exprs|) && |refs| == |ts|
      requires forall i | 0 <= i < |refs| :: Unfold(arena.exprs, refs[i]) == ts[i]
      modifies arena
      ensures r != Nil
      ensures r.Trapped? <==>
        exists i | 0 <= i < |lazyReferences| :: Missing(old(arena.exprs), DictOf(old(arena.exprs), refs), lazyReferences[i])
      ensures r.Value? ==>
        && r.value == DictOf(old(arena.exprs), refs)
        && Substitute(old(arena.exprs), lazyReferences, r.value) == Some(arena.exprs)
        && Keyed(old(arena.exprs), r.value, ts)
        && Closed(arena.exprs)
        && forall k | k in r.value :: r.value[k] < |arena.exprs|
      ensures r.Value? && (forall i | 0 <= i < |ts| :: !ts[i].expr.LazyReference?) ==> Resolves(arena.exprs)
    {
      ghost var g := arena.exprs;
      var ruleDict := CollectRules(refs);
      DictOfUnfold(g, refs, ts);
      InvLinkable(g, lazyReferences);
      SubstituteTraps(g, lazyReferences, ruleDict);
      var linked := SubstituteLazyReference(ruleDict);
      if !linked {
        return Trapped;
      }
      r := Value(ruleDict);
      if forall i | 0 <= i < |ts| :: !ts[i].expr.LazyReference? {
        EntriesAreNotReferences(g, refs, ts);
      }
      Linked(g, lazyReferences, ruleDict);
    }

    /** The loop of `visitRules`: each rule stored under its name, a later one replacing an earlier one. */
    method CollectRules(refs: seq<Ref>) returns (ruleDict: map<string, Ref>)
      requires AllBelow(refs, |arena.exprs|)
      ensures ruleDict == DictOf(arena.exprs, refs)
    {
      ruleDict := map[];
      for i := 0 to |refs|
        invariant ruleDict == DictOf(arena.exprs, refs[..i])
      {
        assert refs[..i + 1][..i] == refs[..i];
        ruleDict := ruleDict[arena.exprs[refs[i]].name := refs[i]];
      }
      assert refs[..|refs|] == refs;
    }

    /** `substituteLazyReference(with:)`; false where the Swift code would stop. */
    method SubstituteLazyReference(ruleDict: map<string, Ref>) returns (linked: bool)
      requires Linkable(arena.exprs, lazyReferences)
      modifies arena
      ensures linked <==> Substitute(old(arena.exprs), lazyReferences, ruleDict).Some?
      ensures linked ==> arena.exprs == Substitute(old(arena.exprs), lazyReferences, ruleDict).value
    {
      for i := 0 to |lazyReferences|
        invariant ParentsInside(arena.exprs)
        invariant forall k | 0 <= k < |lazyReferences| :: IsLazy(arena.exprs, lazyReferences[k])
        invariant Substitute(old(arena.exprs), lazyReferences, ruleDict) ==
          Substitute(arena.exprs, lazyReferences[i..], ruleDict)
      {
        ghost var g := arena.exprs;
        var lazyReference := lazyReferences[i];
        assert lazyReferences[i..][0] == lazyReference && lazyReferences[i..][1..] == lazyReferences[i + 1..];
        var ok := LinkOne(lazyReference, ruleDict);
        if !ok {
          return false;
        }
        PatchEffect(g, lazyReference, ruleDict);
        forall k | 0 <= k < |lazyReferences|
          ensures IsLazy(arena.exprs, lazyReferences[k])
        {
          assert IsLazy(g, lazyReferences[k]);
        }
      }
      return true;
    }

    /** One round of the loop of `substituteLazyReference`: write the named rule into the parent's slot. */
    method LinkOne(lazyReference: Ref, ruleDict: map<string, Ref>) returns (ok: bool)
      requires IsLazy(arena.exprs, lazyReference) && ParentsInside(arena.exprs)
      modifies arena
      ensures ok <==> Patch(old(arena.exprs), lazyReference, ruleDict).Some?
      ensures ok ==> arena.exprs == Patch(old(arena.exprs), lazyReference, ruleDict).value
    {
      ghost var g := arena.exprs;
      var c := arena.exprs[lazyReference];
      if c.parent.Some? {
        var parent := c.parent.value;
        if c.name !in ruleDict {
          return false;
        }
        var rule := ruleDict[c.name];
        var ty := arena.exprs[parent].Type();
        if ty == SequenceType || ty == OneOfType {
          if !(0 <= c.parentMemberIdx < |arena.exprs[parent].members|) {
            return false;
          }
          arena.SetMemberAt(parent, c.parentMemberIdx, rule);
        } else if ty == LookaheadType || ty == NotType || ty == OptionalType || ty == ZeroOrMoreType || ty == OneOrMoreType {
          arena.SetMember(parent, rule);
        } else {
          assert SetSlot(g[parent], SlotIndex(g[parent], c.parentMemberIdx), rule) == g[parent];
          assert g[parent := g[parent]] == g;
        }
      }
      return true;
    }
  }

  /** Results built earlier survive later allocation unchanged. */
  lemma KeptAll(g1: seq<Cell>, g2: seq<Cell>, lo: nat, rs: seq<Ref>, ts: seq<Tree>)
    requires Ordered(g1) && Ordered(g2) && Extends(g1, g2) && BuiltAll(g1, lo, rs, ts)
    ensures BuiltAll(g2, lo, rs, ts)
  {
    forall i | 0 <= i < |rs|
      ensures Root(g2, rs[i]) && Unfold(g2, rs[i]) == Unfold(g1, rs[i])
    {
      Kept(g1, g2, rs[i]);
    }
  }

  /** One more result, newest of all, extends a list of results. */
  lemma BuiltAllAppend(g0: seq<Cell>, g1: seq<Cell>, g2: seq<Cell>, rs: seq<Ref>, ts: seq<Tree>, x: Ref, t: Tree)
    requires Ordered(g1) && Ordered(g2) && Extends(g0, g1) && Extends(g1, g2) && BuiltAll(g1, |g0|, rs, ts)
    requires |g1| <= x && x + 1 == |g2| && Unfold(g2, x) == t
    ensures Extends(g0, g2) && BuiltAll(g2, |g0|, rs + [x], ts + [t])
  {
    ExtendsTransitive(g0, g1, g2);
    KeptAll(g1, g2, |g0|, rs, ts);
    LastIsRoot(g2);
  }

  /** One more turn of the loop of `visitOneOrMore` that ends with a value keeps its invariant. */
  lemma CollectStep(n: Node, kind: string, i: nat, g0: seq<Cell>, g1: seq<Cell>, g2: seq<Cell>, rs: seq<Ref>, ts: seq<Tree>, x: Ref)
    requires WellFormed(n) && i < |n.children| && Transform(kind, n.children[i]).Value?
    requires Ordered(g1) && Ordered(g2) && Extends(g0, g1) && Extends(g1, g2) && BuiltAll(g1, |g0|, rs, ts)
    requires |g1| <= x && x + 1 == |g2| && Unfold(g2, x) == Transform(kind, n.children[i]).value
    requires TransformAll(n, kind, 0) == PrependAll(ts, TransformAll(n, kind, i))
    requires NilFree(n) && !StopsOnNil(n) ==> RootsAmong(g1, |g0|, rs)
    requires NilFree(n.children[i]) ==> RootsAmong(g2, |g1|, [x])
    ensures var t := Transform(kind, n.children[i]).value;
      && Extends(g0, g2) && BuiltAll(g2, |g0|, rs + [x], ts + [t])
      && TransformAll(n, kind, 0) == PrependAll(ts + [t], TransformAll(n, kind, i + 1))
      && (NilFree(n) && !StopsOnNil(n) ==> RootsAmong(g2, |g0|, rs + [x]))
  {
    var t := Transform(kind, n.children[i]).value;
    BuiltAllAppend(g0, g1, g2, rs, ts, x, t);
    PrependAllStep(ts, t, TransformAll(n, kind, i + 1));
    if NilFree(n) && !StopsOnNil(n) {
      assert NilFree(n.children[i]);
      RootsAppend(g0, g1, g2, rs, x);
    }
  }

  /** The roots left by one result and by a list of later results. */
  lemma RootsPrepend(g1: seq<Cell>, g2: seq<Cell>, lo: nat, x: Ref, rs: seq<Ref>)
    requires Extends(g1, g2) && lo <= |g1|
    ensures RootsAmong(g1, lo, [x]) && RootsAmong(g2, |g1|, rs) ==> RootsAmong(g2, lo, [x] + rs)
  {
    if RootsAmong(g1, lo, [x]) && RootsAmong(g2, |g1|, rs) {
      ExtendsGrown(g1, g2);
      RootsJoin(g1, g2, lo, [x], rs);
    }
  }

  /** The roots left by a list of results and by one more result. */
  lemma RootsAppend(g0: seq<Cell>, g1: seq<Cell>, g2: seq<Cell>, rs: seq<Ref>, x: Ref)
    requires Extends(g1, g2) && |g0| <= |g1|
    ensures RootsAmong(g1, |g0|, rs) && RootsAmong(g2, |g1|, [x]) ==> RootsAmong(g2, |g0|, rs + [x])
  {
    if RootsAmong(g1, |g0|, rs) && RootsAmong(g2, |g1|, [x]) {
      ExtendsGrown(g1, g2);
      RootsJoin(g1, g2, |g0|, rs, [x]);
    }
  }

  /** A first result followed by a list of later results can be adopted together. */
  lemma Gather(g: seq<Cell>, lo: nat, mid: nat, x: Ref, rs: seq<Ref>, ts: seq<Tree>)
    requires Ordered(g) && lo <= x < mid <= |g| && Root(g, x)
    requires |ts| == |rs| + 1 && Unfold(g, x) == ts[0] && BuiltAll(g, mid, rs, ts[1..])
    ensures var ms := [x] + rs;
      && AllBelow(ms, |g|) && Increasing(ms) && AllAtLeast(ms, lo)
      && (forall i | 0 <= i < |ms| :: Root(g, ms[i]))
      && forall i | 0 <= i < |ts| :: Unfold(g, ms[i]) == ts[i]
  {
    GatherOrder(lo, mid, x, rs, |g|);
    GatherTrees(g, mid, x, rs, ts);
  }

  /** Each gathered cell is a root unfolding to its tree. */
  lemma GatherTrees(g: seq<Cell>, mid: nat, x: Ref, rs: seq<Ref>, ts: seq<Tree>)
    requires Ordered(g) && x < |g| && Root(g, x)
    requires |ts| == |rs| + 1 && Unfold(g, x) == ts[0] && BuiltAll(g, mid, rs, ts[1..])
    ensures var ms := [x] + rs; forall i | 0 <= i < |ts| :: Root(g, ms[i]) && Unfold(g, ms[i]) == ts[i]
  {
    var ms := [x] + rs;
    forall i | 0 <= i < |ms|
      ensures Root(g, ms[i]) && Unfold(g, ms[i]) == ts[i]
    {
      if i > 0 {
        assert ms[i] == rs[i - 1] && ts[i] == ts[1..][i - 1];
      }
    }
  }

  lemma GatherOrder(lo: nat, mid: nat, x: Ref, rs: seq<Ref>, bound: nat)
    requires lo <= x < mid <= bound && Increasing(rs) && forall i | 0 <= i < |rs| :: mid <= rs[i] < bound
    ensures var ms := [x] + rs; AllBelow(ms, bound) && Increasing(ms) && AllAtLeast(ms, lo)
  {
    var ms := [x] + rs;
    forall i, j | 0 <= i < j < |ms|
      ensures ms[i] < ms[j]
    {
      assert ms[j] == rs[j - 1];
      if i > 0 {
        assert ms[i] == rs[i - 1];
      }
    }
  }
}
