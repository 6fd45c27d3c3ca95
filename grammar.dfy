/**
 * Sources/SwiftPEG/Grammar.swift: a grammar is a map from rule names to
 * compiled expressions, built from a grammar definition by parsing it with
 * the grammar of grammars and compiling the parse tree.
 *
 * Swift's `Grammar` object owns its expressions through references; here it
 * owns the arena they live in (`exprs`) next to `ruleDict`. The global
 * `ruleGrammar` that `expression(from:)` reads is a parameter.
 */
module Grammars {
  import opened Wrappers
  import opened Expressions
  import opened Nodes
  import opened Matching
  import opened References
  import opened Compiler

  /**
   * The outcome of `expression(from:)`: the compiled rules with the arena
   * holding them, the trap of the force unwrap in `substituteLazyReference`,
   * or a parse of the definition that ran out of fuel.
   */
  datatype Compilation = Compiled(exprs: seq<Cell>, ruleDict: map<string, Ref>) | Trap | Exhausted

  /** Every rule is a cell of the arena and every member slot refers to a cell: matching can start anywhere. */
  ghost predicate Usable(exprs: seq<Cell>, ruleDict: map<string, Ref>) {
    Closed(exprs) && forall k | k in ruleDict :: ruleDict[k] < |exprs|
  }

  /** `parse(for:with:)` on a grammar given by its arena and its rules. */
  function Lookup(exprs: seq<Cell>, ruleDict: map<string, Ref>, text: string, ruleName: string, re: RegexEngine, fuel: nat)
    : (r: Outcome<Node>)
    requires Usable(exprs, ruleDict)
    ensures ruleName !in ruleDict ==> r == NoMatch
    ensures r.Parsed? ==> r.value.start == 0 && r.value.end <= |text| && r.value.fullText == text && WellFormed(r.value)
    ensures r.Parsed? ==> ruleName in ruleDict && r.value.exprName == exprs[ruleDict[ruleName]].name
  {
    if ruleName in ruleDict then Match(exprs, re, ruleDict[ruleName], text, 0, fuel) else NoMatch
  }

  /**
   * How linking ends for rule trees `ts` that a visitor built, from an empty
   * arena, into the arena `g` as the cells `rs`, with the worklist `w` of the
   * LazyReferences it made: a trap exactly when some held reference names no
   * rule, and otherwise the rules keyed by name (the last of a name wins), in
   * the arena `substituteLazyReference` leaves.
   */
  ghost predicate LinkedAs(g: seq<Cell>, w: seq<Ref>, rs: seq<Ref>, ts: seq<Tree>, c: Compilation) {
    && Inv(g, w)
    && BuiltAll(g, 0, rs, ts)
    && (c == Trap <==> exists i | 0 <= i < |w| :: Missing(g, DictOf(g, rs), w[i]))
    && (c.Compiled? ==>
          && c.ruleDict == DictOf(g, rs)
          && Substitute(g, w, c.ruleDict) == Some(c.exprs)
          && Keyed(g, c.ruleDict, ts))
  }

  /**
   * What `RuleVisitor().visitRules(tree)` gives: an empty map unless the
   * tree is a `rules` node, a trap where the visitor traps, and otherwise
   * the linking of the compiled rule trees, usable for matching, keyed by
   * exactly the rule names and free of references when the tree holds rules.
   * A rule that refers to a name no rule has makes it trap; when no list
   * stops on a nil child, nothing else does.
   */
  ghost predicate CompiledAs(tree: Node, c: Compilation)
    requires WellFormed(tree)
  {
    && c != Exhausted
    && (c.Compiled? ==> Usable(c.exprs, c.ruleDict))
    && (RulesTrees(tree) == Nil ==> c == Compiled([], map[]))
    && (RulesTrees(tree) == Trapped ==> c == Trap)
    && (RulesTrees(tree).Value? ==> exists g, w, rs :: LinkedAs(g, w, rs, RulesTrees(tree).value, c))
    && (RulesTrees(tree).Value? && c.Compiled? ==>
          forall k :: k in c.ruleDict <==> exists i | 0 <= i < |RulesTrees(tree).value| :: RulesTrees(tree).value[i].expr.name == k)
    && (RulesTrees(tree).Value? && c.Compiled? && OfRules(tree) ==> Resolves(c.exprs))
    && (RulesTrees(tree).Value? && UnknownName(RulesTrees(tree).value) ==> c == Trap)
    && (RulesTrees(tree).Value? && NilFree(tree) && c == Trap ==> UnknownName(RulesTrees(tree).value))
  }

  /** `RuleVisitor().visitRules(tree)` with a fresh visitor. */
  method Compile(tree: Node) returns (c: Compilation)
    requires WellFormed(tree)
    ensures CompiledAs(tree, c)
  {
    var visitor := new RuleVisitor();
    var r, unlinked, rules := visitor.VisitRules(tree);
    if r.Value? {
      c := Compiled(visitor.arena.exprs, r.value);
    } else {
      c := Trap;
    }
    if RulesTrees(tree).Value? {
      var ts := RulesTrees(tree).value;
      assert LinkedAs(unlinked, visitor.lazyReferences, rules, ts, c);
      TrapsOnUnknownName(unlinked, visitor.lazyReferences, rules, ts);
      if c.Compiled? {
        RuleDictLastWins(ts);
      }
    }
  }

  /** `Grammar.expression(from:)`: parse the definition with the grammar of grammars, then compile the tree. */
  method ExpressionFrom(ruleGrammar: Grammar, rules: string, re: RegexEngine, fuel: nat) returns (c: Compilation)
    requires ruleGrammar.Valid()
    ensures c.Compiled? ==> Usable(c.exprs, c.ruleDict)
    ensures Lookup(ruleGrammar.exprs, ruleGrammar.ruleDict, rules, "rules", re, fuel) == NoMatch ==> c == Compiled([], map[])
    ensures Lookup(ruleGrammar.exprs, ruleGrammar.ruleDict, rules, "rules", re, fuel) == OutOfFuel <==> c == Exhausted
    ensures Lookup(ruleGrammar.exprs, ruleGrammar.ruleDict, rules, "rules", re, fuel).Parsed? ==>
      CompiledAs(Lookup(ruleGrammar.exprs, ruleGrammar.ruleDict, rules, "rules", re, fuel).value, c)
  {
    var tree := ruleGrammar.Parse(rules, "rules", re, fuel);
    match tree
    case Parsed(n) => c := Compile(n);
    case NoMatch => c := Compiled([], map[]);
    case OutOfFuel => c := Exhausted;
  }

  class Grammar {
    var exprs: seq<Cell>
    var ruleDict: map<string, Ref>

    ghost predicate Valid()
      reads this
    {
      Usable(exprs, ruleDict)
    }

    /** `init(rules:)`, given what `expression(from:)` compiled. */
    constructor (compiled: Compilation)
      requires compiled.Compiled? && Usable(compiled.exprs, compiled.ruleDict)
      ensures Valid() && exprs == compiled.exprs && ruleDict == compiled.ruleDict
    {
      exprs := compiled.exprs;
      ruleDict := compiled.ruleDict;
    }

    /** `parse(for:with:)`: `nil` for an unknown rule, otherwise the rule matched from the start of the text. */
    method Parse(text: string, ruleName: string, re: RegexEngine, fuel: nat) returns (r: Outcome<Node>)
      requires Valid()
      ensures r == Lookup(exprs, ruleDict, text, ruleName, re, fuel)
      ensures ruleName in ruleDict ==> r == Match(exprs, re, ruleDict[ruleName], text, 0, fuel)
    {
      if ruleName in ruleDict {
        var rule := ruleDict[ruleName];
        r := Matching.Parse(exprs, re, rule, text, 0, fuel);
      } else {
        r := NoMatch;
      }
    }
  }

  /** The match need not reach the end of the text: a rule "a" parses "ab", ending at offset 1. */
  lemma ParseLeavesRest(re: RegexEngine)
    ensures Lookup([Literal("a", "a")], map["a" := 0], "ab", "a", re, 1).Parsed?
    ensures Lookup([Literal("a", "a")], map["a" := 0], "ab", "a", re, 1).value.end == 1
  {
    var g: seq<Cell> := [Literal("a", "a")];
    assert Closed(g) by {
      assert Below(g[0], 1);
    }
    assert "a" <= "ab"[0..];
  }
}
