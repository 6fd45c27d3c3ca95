/**
 * Sources/SwiftPEG/BootstrappingGrammar.swift: the grammar of grammars built
 * by hand, object by object, so that the grammar definition language can be
 * parsed before any grammar has been compiled.
 */
module Bootstrap {
  import opened Wrappers
  import opened Expressions
  import opened Nodes
  import opened Matching
  import opened Compiler
  import opened Grammars

  // Where `hardCodeParser` allocates each expression, in the order the Swift code creates them.
  const Comment: Ref := 0
  const Whitespace: Ref := 1
  const Meaninglessness: Ref := 2
  const Ignorable: Ref := 3
  const EqualsSign: Ref := 4
  const Equals: Ref := 5
  const LabelPattern: Ref := 6
  const LabelRule: Ref := 7
  const NotEquals: Ref := 8
  const Reference: Ref := 9
  const QuantifierPattern: Ref := 10
  const QuantifierRule: Ref := 11
  const SpacelessLiteral: Ref := 12
  const LiteralRule: Ref := 13
  const Tilde: Ref := 14
  const Flags: Ref := 15
  const RegexRule: Ref := 16
  const Atom: Ref := 17
  const Quantified: Ref := 18
  const Term: Ref := 19
  const Bang: Ref := 20
  const NotTerm: Ref := 21
  const Terms: Ref := 22
  const SequenceRule: Ref := 23
  const Slash: Ref := 24
  const OrTerm: Ref := 25
  const OrTerms: Ref := 26
  const Ored: Ref := 27
  const ExpressionRule: Ref := 28
  const RuleRule: Ref := 29
  const RuleList: Ref := 30
  const RulesRule: Ref := 31

  // The patterns as written; `Regex`'s initialiser anchors each with "^".
  const CommentPattern: string := "#[^\\r\\n]*"
  const SpacePattern: string := "\\s+"
  const NamePattern: string := "[a-zA-Z_][a-zA-Z_0-9]*"
  const QuantifierChars: string := "[*+?]"
  const QuotedPattern: string := "\"[^\"\\\\]*(?:\\\\.[^\"\\\\]*)*\""
  const FlagsPattern: string := "[ilmsuxa]*"

  /**
   * The expression `hardCodeParser` leaves at index `k` of the graph, once
   * `term`'s member list has been spliced.
   */
  function BootCell(k: Ref): (c: Cell)
    requires k < 32
    ensures !c.LazyReference?
  {
    if k < 16 then
      if k < 8 then
        if k < 4 then
          if k < 2 then
            if k < 1 then
              Regex("comment", "^" + CommentPattern)
            else
              Regex("", "^" + SpacePattern)
          else
            if k < 3 then
              OneOf("meaninglessness", [Whitespace, Comment])
            else
              ZeroOrMore("_", Meaninglessness)
        else
          if k < 6 then
            if k < 5 then
              Literal("", "=")
            else
              Sequence("equals", [EqualsSign, Ignorable])
          else
            if k < 7 then
              Regex("", "^" + NamePattern)
            else
              Sequence("label", [LabelPattern, Ignorable])
      else
        if k < 12 then
          if k < 10 then
            if k < 9 then
              Not("", Equals)
            else
              Sequence("reference", [LabelRule, NotEquals])
          else
            if k < 11 then
              Regex("", "^" + QuantifierChars)
            else
              Sequence("quantifier", [QuantifierPattern, Ignorable])
        else
          if k < 14 then
            if k < 13 then
              Regex("spaceless_literal", "^" + QuotedPattern)
            else
              Sequence("literal", [SpacelessLiteral, Ignorable])
          else
            if k < 15 then
              Literal("", "~")
            else
              Regex("", "^" + FlagsPattern)
    else
      if k < 24 then
        if k < 20 then
          if k < 18 then
            if k < 17 then
              Sequence("regex", [Tilde, SpacelessLiteral, Flags, Ignorable])
            else
              OneOf("atom", [Reference, LiteralRule, RegexRule])
          else
            if k < 19 then
              Sequence("quantified", [Atom, QuantifierRule])
            else
              OneOf("term", [NotTerm, Quantified, Atom])
        else
          if k < 22 then
            if k < 21 then
              Literal("", "!")
            else
              Sequence("not_term", [Bang, Term, Ignorable])
          else
            if k < 23 then
              OneOrMore("", Term, 1)
            else
              Sequence("sequence", [Term, Terms])
      else
        if k < 28 then
          if k < 26 then
            if k < 25 then
              Literal("", "/")
            else
              Sequence("or_term", [Slash, Ignorable, Term])
          else
            if k < 27 then
              OneOrMore("", OrTerm, 1)
            else
              Sequence("ored", [Term, OrTerms])
        else
          if k < 30 then
            if k < 29 then
              OneOf("expression", [Ored, SequenceRule, Term])
            else
              Sequence("rule", [LabelRule, Equals, ExpressionRule])
          else
            if k < 31 then
              OneOrMore("", RuleRule, 1)
            else
              Sequence("rules", [Ignorable, RuleList])
  }

  /** The graph `hardCodeParser` returns, cell by cell. */
  ghost predicate HardCoded(g: seq<Cell>) {
    |g| == 32 && forall k | 0 <= k < 32 :: g[k] == BootCell(k)
  }

  /**
   * A prefix of the graph while `hardCodeParser` runs: every cell but `term`
   * (whose member list is spliced last) is final, and none is a placeholder.
   */
  ghost predicate Agrees(g: seq<Cell>) {
    && |g| <= 32
    && (forall k | 0 <= k < |g| :: !g[k].LazyReference?)
    && (forall k | 0 <= k < |g| && k != Term :: g[k] == BootCell(k))
  }

  /** Compound's initialiser changes nothing when no member is a LazyReference. */
  lemma AdoptNothing(g: seq<Cell>, p: Ref, ms: seq<Ref>)
    requires forall m | m in ms :: m < |g| && !g[m].LazyReference?
    ensures Adopt(g, p, ms, |ms|) == g
  {
    forall k | 0 <= k < |g|
      ensures Adopt(g, p, ms, |ms|)[k] == g[k]
    {
      AdoptAt(g, p, ms, |ms|, k);
    }
  }

  /** One initialiser call of `hardCodeParser`: allocate `e`, whose members already exist. */
  method Make(arena: Arena, e: Cell) returns (r: Ref)
    requires Agrees(arena.exprs) && |arena.exprs| < 32
    requires |arena.exprs| != Term ==> e == BootCell(|arena.exprs|)
    requires !e.LazyReference? && !e.Regex?
    requires forall i | 0 <= i < |MembersOf(e)| :: MembersOf(e)[i] < |arena.exprs|
    modifies arena
    ensures r == |old(arena.exprs)| && arena.exprs == old(arena.exprs) + [e]
    ensures |arena.exprs| == r + 1 && Agrees(arena.exprs)
    ensures |old(arena.exprs)| > Term && old(arena.exprs)[Term] == BootCell(Term) ==> arena.exprs[Term] == BootCell(Term)
  {
    if e.IsCompound() {
      ghost var g := arena.exprs + [e];
      forall m | m in e.members
        ensures m < |arena.exprs| && !g[m].LazyReference?
      {
        var i :| 0 <= i < |e.members| && e.members[i] == m;
        assert MembersOf(e)[i] == m;
      }
      r := arena.NewCompound(e);
      AdoptNothing(g, r, e.members);
    } else if e.IsSingleton() {
      assert MembersOf(e)[0] == e.member;
      r := arena.NewSingleton(e);
      assert arena.exprs == old(arena.exprs) + [e];
    } else {
      r := arena.New(e);
    }
  }

  /** `Regex(pattern, name:)` in `hardCodeParser`. */
  method MakeRegex(arena: Arena, pattern: string, name: string) returns (r: Ref)
    requires Agrees(arena.exprs) && |arena.exprs| < 32
    requires Regex(name, "^" + pattern) == BootCell(|arena.exprs|)
    modifies arena
    ensures r == |old(arena.exprs)| && arena.exprs == old(arena.exprs) + [Regex(name, "^" + pattern)]
    ensures |arena.exprs| == r + 1 && Agrees(arena.exprs)
  {
    r := arena.NewRegex(pattern, name);
  }

  /**
   * `hardCodeParser`: build the graph bottom-up, then close the cycle by
   * putting `not_term` in front of `term`'s members.
   */
  method HardCodeParser() returns (exprs: seq<Cell>, rules: Ref)
    ensures HardCoded(exprs) && rules == RulesRule
  {
    var arena := new Arena();
    MakeLexemes(arena);
    MakeReferences(arena);
    MakeLiterals(arena);
    MakeTerms(arena);
    MakeSequences(arena);
    rules := MakeRules(arena);
    exprs := arena.exprs;
  }

  /** The statements of `hardCodeParser` up to the `"="` literal. */
  method MakeLexemes(arena: Arena)
    requires arena.exprs == []
    modifies arena
    ensures |arena.exprs| == 5 && Agrees(arena.exprs)
  {
    var comment := MakeRegex(arena, CommentPattern, "comment");
    var space := MakeRegex(arena, SpacePattern, "");
    var meaninglessness := Make(arena, OneOf("meaninglessness", [space, comment]));
    var ignorable := Make(arena, ZeroOrMore("_", meaninglessness));
    var equalsSign := Make(arena, Literal("", "="));
  }

  /** The statements of `hardCodeParser` from `equals` to `reference`. */
  method MakeReferences(arena: Arena)
    requires |arena.exprs| == 5 && Agrees(arena.exprs)
    modifies arena
    ensures |arena.exprs| == 10 && Agrees(arena.exprs)
  {
    var equals := Make(arena, Sequence("equals", [EqualsSign, Ignorable]));
    var name := MakeRegex(arena, NamePattern, "");
    var title := Make(arena, Sequence("label", [name, Ignorable]));
    var notEquals := Make(arena, Not("", equals));
    var reference := Make(arena, Sequence("reference", [title, notEquals]));
  }

  /** The statements of `hardCodeParser` from the quantifier pattern to `quantified`. */
  method MakeLiterals(arena: Arena)
    requires |arena.exprs| == 10 && Agrees(arena.exprs)
    modifies arena
    ensures |arena.exprs| == 19 && Agrees(arena.exprs)
  {
    var quantifierChars := MakeRegex(arena, QuantifierChars, "");
    var quantifier := Make(arena, Sequence("quantifier", [quantifierChars, Ignorable]));
    var spacelessLiteral := MakeRegex(arena, QuotedPattern, "spaceless_literal");
    var literal := Make(arena, Sequence("literal", [spacelessLiteral, Ignorable]));
    var tilde := Make(arena, Literal("", "~"));
    var flags := MakeRegex(arena, FlagsPattern, "");
    var regex := Make(arena, Sequence("regex", [tilde, spacelessLiteral, flags, Ignorable]));
    var atom := Make(arena, OneOf("atom", [Reference, literal, regex]));
    var quantified := Make(arena, Sequence("quantified", [atom, quantifier]));
  }

  /** The statements of `hardCodeParser` from `term` to the splice of `term.members`. */
  method MakeTerms(arena: Arena)
    requires |arena.exprs| == 19 && Agrees(arena.exprs)
    modifies arena
    ensures |arena.exprs| == 22 && Agrees(arena.exprs) && arena.exprs[Term] == BootCell(Term)
  {
    var term := Make(arena, OneOf("term", [Quantified, Atom]));
    var bang := Make(arena, Literal("", "!"));
    var notTerm := Make(arena, Sequence("not_term", [bang, term, Ignorable]));
    arena.SetMembers(term, [notTerm] + arena.exprs[term].members);
  }

  /** The statements of `hardCodeParser` after the splice, up to `or_term+`. */
  method MakeSequences(arena: Arena)
    requires |arena.exprs| == 22 && Agrees(arena.exprs) && arena.exprs[Term] == BootCell(Term)
    modifies arena
    ensures |arena.exprs| == 27 && Agrees(arena.exprs) && arena.exprs[Term] == BootCell(Term)
  {
    var terms := Make(arena, OneOrMore("", Term, 1));
    var sequence := Make(arena, Sequence("sequence", [Term, terms]));
    var slash := Make(arena, Literal("", "/"));
    var orTerm := Make(arena, Sequence("or_term", [slash, Ignorable, Term]));
    var orTerms := Make(arena, OneOrMore("", orTerm, 1));
  }

  /** The statements of `hardCodeParser` from `ored` to `rules`. */
  method MakeRules(arena: Arena) returns (rules: Ref)
    requires |arena.exprs| == 27 && Agrees(arena.exprs) && arena.exprs[Term] == BootCell(Term)
    modifies arena
    ensures HardCoded(arena.exprs) && rules == RulesRule
  {
    var ored := Make(arena, Sequence("ored", [Term, OrTerms]));
    var expression := Make(arena, OneOf("expression", [ored, SequenceRule, Term]));
    var rule := Make(arena, Sequence("rule", [LabelRule, Equals, expression]));
    var ruleList := Make(arena, OneOrMore("", rule, 1));
    rules := Make(arena, Sequence("rules", [Ignorable, ruleList]));
  }

  /**
   * `ruleSyntax`: the grammar of grammars written in its own notation, as the
   * raw multi-line string literal holds it: the closing delimiter is not
   * indented, so every line keeps its four leading spaces; no final line break.
   */
  const RuleSyntax: string :=
    "    # Ignored things (represented by _) are typically hung off the end of the\n" +
    "    # leafmost kinds of nodes. Literals like \"/\" count as leaves.\n" +
    "\n" +
    "    rules = _ rule+\n" +
    "    rule = label equals expression\n" +
    "    equals = \"=\" _\n" +
    "    literal = spaceless_literal _\n" +
    "\n" +
    "    # So you can't spell a regex like `~\"...\" ilm`:\n" +
    "    spaceless_literal = ~\"\\\"[^\\\"\\\\\\\\]*(?:\\\\\\\\.[^\\\"\\\\\\\\]*)*\\\"\"is\n" +
    "\n" +
    "    expression = ored / sequence / term\n" +
    "    or_term = \"/\" _ term\n" +
    "    ored = term or_term+\n" +
    "    sequence = term term+\n" +
    "    not_term = \"!\" term _\n" +
    "    lookahead_term = \"&\" term _\n" +
    "    term = not_term / lookahead_term / quantified / atom\n" +
    "    quantified = atom quantifier\n" +
    "    atom = reference / literal / regex / parenthesized\n" +
    "    regex = \"~\" spaceless_literal ~\"[ilmsuxa]*\"i _\n" +
    "    parenthesized = \"(\" _ expression \")\" _\n" +
    "    quantifier = ~\"[*+?]\" _\n" +
    "    reference = label !equals\n" +
    "\n" +
    "    # A subsequent equal sign is the only thing that distinguishes a label\n" +
    "    # (which begins a new rule) from a reference (which is just a pointer to a\n" +
    "    # rule defined somewhere else):\n" +
    "    label = ~\"[a-zA-Z_][a-zA-Z_0-9]*\" _\n" +
    "\n" +
    "    # _ = ~\"\\s*(?:#[^\\r\\n]*)?\\s*\"\n" +
    "    _ = meaninglessness*\n" +
    "    meaninglessness = ~\"\\s+\" / comment\n" +
    "    comment = ~\"#[^\\r\\n]*\""

  /** Every member slot refers to a cell of the graph: matching can start at any of them. */
  lemma HardCodedClosed(g: seq<Cell>)
    requires HardCoded(g)
    ensures Closed(g)
  {
    forall p | 0 <= p < |g| ensures Below(g[p], |g|) {
      BootCellBelow(p);
      assert g[p] == BootCell(p);
    }
  }

  /** Each cell refers only to cells of the 32-cell graph. */
  lemma BootCellBelow(k: Ref)
    requires k < 32
    ensures Below(BootCell(k), 32)
  {
    if k < 8 {
    } else if k < 16 {
    } else if k < 24 {
    } else {
    }
  }

  /** The graph holds no LazyReference, no Lookahead and no `parenthesized` rule. */
  lemma HardCodedKinds(g: seq<Cell>)
    requires HardCoded(g)
    ensures forall k | 0 <= k < |g| :: !g[k].LazyReference? && !g[k].Lookahead? && g[k].name != "parenthesized"
  {
    forall k | 0 <= k < |g| ensures !g[k].LazyReference? && !g[k].Lookahead? && g[k].name != "parenthesized" {
      assert g[k] == BootCell(k);
    }
  }

  /** After the splice `term` is tried as not_term, quantified, atom, and not_term holds `term`: the graph is cyclic. */
  lemma TermIsCyclic(g: seq<Cell>)
    requires HardCoded(g)
    ensures MembersOf(g[Term]) == [NotTerm, Quantified, Atom]
    ensures Term in MembersOf(g[NotTerm])
    ensures !Ordered(g)
  {
    assert g[Term] == BootCell(Term);
    assert g[NotTerm] == BootCell(NotTerm);
    assert MembersOf(g[Term])[0] == NotTerm;
  }

  /** `_` is a ZeroOrMore, so it never fails: it always yields a node or runs out of fuel. */
  lemma IgnorableNeverFails(g: seq<Cell>, re: RegexEngine, text: string, pos: nat, fuel: nat)
    requires HardCoded(g) && Closed(g) && pos <= |text|
    ensures Match(g, re, Ignorable, text, pos, fuel) != NoMatch
  {
    assert g[Ignorable] == BootCell(Ignorable);
    if fuel > 0 {
      ZeroOrMoreMatches(g, re, Ignorable, text, pos, fuel, []);
    }
  }

  /**
   * `reference = label !equals`: the text parses as a reference exactly when
   * it parses as a label and what follows the label does not parse as `equals`.
   */
  lemma ReferenceIsLabelWithoutEquals(g: seq<Cell>, re: RegexEngine, text: string, pos: nat, fuel: nat)
    requires HardCoded(g) && Closed(g) && pos <= |text| && fuel >= 2
    ensures Match(g, re, Reference, text, pos, fuel).Parsed? <==>
      && Match(g, re, LabelRule, text, pos, fuel - 1).Parsed?
      && Match(g, re, Equals, text, Match(g, re, LabelRule, text, pos, fuel - 1).value.end, fuel - 2).NoMatch?
  {
    assert g[Reference] == BootCell(Reference);
    assert g[NotEquals] == BootCell(NotEquals);
    assert [LabelRule, NotEquals][1..] == [NotEquals];
    assert [NotEquals][1..] == [];
    assert MembersOf(g[NotEquals])[0] == Equals;
    var l := Match(g, re, LabelRule, text, pos, fuel - 1);
    if l.Parsed? {
      var n := Match(g, re, NotEquals, text, l.value.end, fuel - 1);
      assert n.Parsed? <==> Match(g, re, Equals, text, l.value.end, fuel - 2).NoMatch?;
      assert MatchSeq(g, re, [NotEquals], text, l.value.end, fuel - 1).Parsed? <==> n.Parsed?;
    }
  }

  /**
   * What `expression(from:)` returns when the hand-built graph `parser`
   * parses `text` from the `rules` expression: an empty map when the parse
   * fails, `Exhausted` exactly when the fuel runs out, and otherwise what
   * `RuleVisitor().visitRules` makes of the parsed tree.
   */
  ghost predicate CompiledFrom(parser: seq<Cell>, re: RegexEngine, text: string, fuel: nat, c: Compilation) {
    && HardCoded(parser) && Closed(parser)
    && (c.Compiled? ==> Usable(c.exprs, c.ruleDict))
    && (Match(parser, re, RulesRule, text, 0, fuel) == NoMatch ==> c == Compiled([], map[]))
    && (Match(parser, re, RulesRule, text, 0, fuel) == OutOfFuel <==> c == Exhausted)
    && (Match(parser, re, RulesRule, text, 0, fuel).Parsed? ==>
         && WellFormed(Match(parser, re, RulesRule, text, 0, fuel).value)
         && CompiledAs(Match(parser, re, RulesRule, text, 0, fuel).value, c))
  }

  /**
   * The round trip the SwiftPEG tests check: the hard-coded parser's tree of
   * `text`, compiled by the visitor, gives a `rules` rule that parses `text`
   * again to an equal tree, all within `fuel`. Stated here, not proved.
   */
  ghost predicate SelfConsistent(re: RegexEngine, text: string, fuel: nat) {
    forall parser | HardCoded(parser) && Closed(parser) ::
      && Match(parser, re, RulesRule, text, 0, fuel).Parsed?
      && exists c ::
           && CompiledAs(Match(parser, re, RulesRule, text, 0, fuel).value, c)
           && c.Compiled?
           && Lookup(c.exprs, c.ruleDict, text, "rules", re, fuel).Parsed?
           && Equal(Match(parser, re, RulesRule, text, 0, fuel).value, Lookup(c.exprs, c.ruleDict, text, "rules", re, fuel).value)
  }

  /**
   * `BootstrappingGrammar.expression(from:)`: the argument is ignored; the
   * hand-built graph parses `ruleSyntax` and the tree is compiled.
   */
  method BootstrapExpression(rules: string, re: RegexEngine, fuel: nat) returns (c: Compilation, parser: seq<Cell>)
    ensures HardCoded(parser)
    ensures CompiledFrom(parser, re, RuleSyntax, fuel, c)
  {
    c, parser := CompileWithBootstrap(RuleSyntax, re, fuel);
  }

  /** The body of `expression(from:)`, for any grammar text in place of `ruleSyntax`. */
  method CompileWithBootstrap(text: string, re: RegexEngine, fuel: nat) returns (c: Compilation, parser: seq<Cell>)
    ensures HardCoded(parser)
    ensures CompiledFrom(parser, re, text, fuel, c)
  {
    var root;
    parser, root := HardCodeParser();
    HardCodedClosed(parser);
    var tree := Matching.Parse(parser, re, root, text, 0, fuel);
    match tree
    case Parsed(n) => c := Compile(n);
    case NoMatch => c := Compiled([], map[]);
    case OutOfFuel => c := Exhausted;
  }
}
