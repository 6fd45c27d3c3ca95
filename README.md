# SwiftPEG in Dafny

A model of the core of SwiftPEG, a parsing-expression-grammar (PEG) library.

- **Expressions** are matched against a text. The kinds are Literal, Regex, Sequence, OneOf, Lookahead, Not, Optional, ZeroOrMore, OneOrMore and LazyReference.
- **Parse trees.** Matching produces a tree of `Node`s. The tree can be simplified so that only nodes of named expressions remain.
- **Grammars.** A grammar is written in a small textual language: `name = expression` rules, `/`, `?`, `+`, `*`, `!`, `&`, quoted literals and `~"regex"` literals.
- **Compilation.** A grammar text is parsed with the *grammar of grammars*. The `RuleVisitor` compiles the parse tree into a map from rule names to expressions. The map's references are then linked to the rules they name.
- **Bootstrapping.** The grammar of grammars is itself built by hand, expression by expression, in `BootstrappingGrammar`.

## How the model is built

- **Expression graph** (`expressions.dfy`, module `Expressions`).
  - Swift expressions are heap objects that point at each other. Once references are linked, the graph is cyclic.
  - The model keeps every object in an arena, a `seq<Cell>`. A reference is an index (`Ref`).
  - The class `Arena` owns the arena. Its methods are the Swift initialisers and field writes.
  - The same datatype `Expr<M>` with `M = Tree` gives finite expression trees. These specify what the compiler builds before linking; `Unfold` maps an acyclic arena to them.
- **Matching** (`matching.dfy`, module `Matching`).
  - `Match` is the specification of every `parse(for:at:)` override, as a function.
  - `Parse` and its per-class methods are the imperative code, with the Swift loops. Each is proved equal to `Match`.
  - Swift's recursion need not terminate on a left-recursive grammar. So matching takes a `fuel` bound and has three outcomes: `Parsed`, `NoMatch` (Swift's `nil`) and `OutOfFuel`.
  - Foundation's regular-expression search is a parameter, `RegexEngine`. It is any function that reports the length of a match at the start of the remaining text.
- **Parse trees** (`nodes.dfy`, module `Nodes`). `Node` with its `text` and its `==`.
- **Simplification** (`simplify.dfy`, module `Simplification`). `simplify` and `simplifyNodeToList`.
- **Compiler** (`rule_visitor.dfy`, module `Compiler`).
  - The `...Tree` functions say, per `visit*` function, which expression tree is built. They return `Nil` where Swift returns nil, and `Trapped` where Swift would stop at run time: an index past the end of `children`, or the slice of a string shorter than two characters.
  - The class `RuleVisitor` is the compiler. Its methods allocate in an `Arena` and keep the `lazyReferences` worklist. Each is proved to build its specified tree and to keep the bookkeeping invariant of `references.dfy`.
  - `Refers` and `UnknownName` say which rule names the compiled rules refer to. `NilFree` says that no `visitOneOrMore` loop stops on a child that gives nil. When that holds, the visitor leaves no object outside the compiled rules, so linking traps exactly on an unknown name.
- **Linking** (`references.dfy`, module `References`).
  - The parent pointers of LazyReferences, and the invariant that keeps them right.
  - `Substitute`, the specification of `substituteLazyReference`.
- **Grammars** (`grammar.dfy`, module `Grammars`). `Grammar`, `parse(for:with:)` and `expression(from:)`.
- **Bootstrapping** (`bootstrap.dfy`, module `Bootstrap`). `hardCodeParser`, the 32 expressions in the order the Swift code creates them, and `ruleSyntax`.

## Model

| member | source | states |
|---|---|---|
| Expressions.SetSlot | Sources/SwiftPEG/RuleVisitor.swift:252-271 | overwriting member slot `j` changes that slot only when it exists; kind, name and slot count stay |
| Expressions.AdoptAt | Sources/SwiftPEG/Expression.swift:100-106 | after Compound's loop, each LazyReference member records the compound as parent and its LAST index among the members; every other object is unchanged |
| Expressions.Arena.New | Sources/SwiftPEG/Expression.swift:51-54 | allocating a memberless expression appends exactly it and returns its index |
| Expressions.Arena.NewRegex | Sources/SwiftPEG/Expression.swift:72-75 | the stored pattern is the given one with a leading "^" |
| Expressions.Arena.NewCompound | Sources/SwiftPEG/Expression.swift:97-107 | appends the compound, then runs the member loop: the new arena is the adoption function applied to the members |
| Expressions.Arena.NewSingleton | Sources/SwiftPEG/Expression.swift:167-174 | appends the singleton; a LazyReference member gets the new object as parent, its member index untouched; nothing else changes |
| Expressions.Arena.SetName | Sources/SwiftPEG/RuleVisitor.swift:62 | `expression.name = label` rewrites that one name |
| Expressions.Arena.SetMemberAt | Sources/SwiftPEG/RuleVisitor.swift:256-257 | `compound.members[idx] = rule` rewrites one slot |
| Expressions.Arena.SetMember | Sources/SwiftPEG/RuleVisitor.swift:267-268 | `singleton.member = rule` rewrites the one member |
| Expressions.Arena.SetMembers | Sources/SwiftPEG/BootstrappingGrammar.swift:32 | replacing a compound's member list is a plain field write with no parent bookkeeping |
| Nodes.Node.Text | Sources/SwiftPEG/Node.swift:16 | the text has length end - start and is the full text from start on, character by character |
| Nodes.ChildrenEqualFromIff | Sources/SwiftPEG/Node.swift:66-70 | the loop of `==` from child i succeeds iff every later child pair is `==` |
| Nodes.EqualIff | Sources/SwiftPEG/Node.swift:61-72 | `==` holds iff text, expression name, expression type and child count agree and the children are pairwise `==`; offsets and full text play no other part |
| Nodes.EqualReflexive | Sources/SwiftPEG/Node.swift:61-72 | every well-formed node is `==` to itself |
| Nodes.EqualSymmetric | Sources/SwiftPEG/Node.swift:61-72 | `==` is symmetric |
| Nodes.EqualTransitive | Sources/SwiftPEG/Node.swift:61-72 | `==` is transitive |
| Nodes.LeavesEqualAnywhere | Sources/SwiftPEG/Node.swift:61-65 | two childless nodes are `==` iff they have the same expression name and type and matched the same text, whatever input and offsets they come from |
| Matching.Match | Sources/SwiftPEG/Expression.swift:35-41 | a match is a well-formed node of the same text, starting at the position, carrying the matching expression's name and type |
| Matching.MatchSeq | Sources/SwiftPEG/Expression.swift:130-142 | Sequence's loop gives one node per member, consecutive from the position |
| Matching.MatchFirst | Sources/SwiftPEG/Expression.swift:152-159 | OneOf's loop yields a node of the text at the position |
| Matching.MatchRepeat | Sources/SwiftPEG/Expression.swift:233-248 | the repetition loop never fails; its nodes are consecutive and each is non-empty |
| Matching.SeqChainIff | Sources/SwiftPEG/Expression.swift:130-142 | Sequence's loop yields a list iff each member matches, in order, where the previous one ended |
| Matching.SequenceMatches | Sources/SwiftPEG/Expression.swift:130-142 | a Sequence matches with children cs iff its members match consecutively as cs; it ends where the last child ends |
| Matching.FirstHit | Sources/SwiftPEG/Expression.swift:152-159 | the first member that does not fail decides OneOf's loop |
| Matching.FirstFails | Sources/SwiftPEG/Expression.swift:152-159 | OneOf's loop fails iff every member fails |
| Matching.OneOfMatches | Sources/SwiftPEG/Expression.swift:152-159 | OneOf yields a one-child node around the first member that matches, ending where that member ends |
| Matching.OneOfFails | Sources/SwiftPEG/Expression.swift:152-159 | OneOf fails iff every member fails |
| Matching.LiteralMatches | Sources/SwiftPEG/Expression.swift:56-62 | a Literal matches iff it is a prefix of the rest of the text; the node is childless, spans the literal's length and its text is the literal |
| Matching.RegexMatches | Sources/SwiftPEG/Expression.swift:77-86 | a Regex matches iff the engine finds a match on the rest of the text; the node spans the reported length |
| Matching.PredicatesMatch | Sources/SwiftPEG/Expression.swift:188-208 | Lookahead and Not consume nothing and have no children; Lookahead matches iff its member does, Not iff its member fails |
| Matching.UnlinkedReferenceFails | Sources/SwiftPEG/Expression.swift:35-37 | an unlinked LazyReference falls back to the base `parse` and never matches |
| Matching.OptionalMatches | Sources/SwiftPEG/Expression.swift:218-223 | Optional never fails: one child when the member matches, else an empty childless node |
| Matching.RepeatChainCons | Sources/SwiftPEG/Expression.swift:236-246 | one loop round: a run starting with a non-empty match is a run iff its tail is a run from that match's end |
| Matching.RepeatChainIff | Sources/SwiftPEG/Expression.swift:233-248 | the loop yields cs iff cs are the successive non-empty matches up to where the member fails or matches empty |
| Matching.ZeroOrMoreMatches | Sources/SwiftPEG/Expression.swift:233-248 | ZeroOrMore never fails; its children are exactly that run |
| Matching.OneOrMoreMatches | Sources/SwiftPEG/Expression.swift:260-278 | OneOrMore builds the same run and fails iff the run has fewer than `min` nodes |
| Matching.ZeroOrMoreOfLiteralAtEnd | Sources/SwiftPEG/Expression.swift:233-248 | at the end of the text, a ZeroOrMore of a Literal matches empty, with no children |
| Matching.Parse | Sources/SwiftPEG/Expression.swift:35-41 | the dynamically dispatched `parse` returns exactly `Match` |
| Matching.ParseLiteral | Sources/SwiftPEG/Expression.swift:56-62 | `Literal.parse` returns exactly `Match` |
| Matching.ParseRegex | Sources/SwiftPEG/Expression.swift:77-86 | `Regex.parse` returns exactly `Match` |
| Matching.ParseSequence | Sources/SwiftPEG/Expression.swift:130-142 | `Sequence.parse`, with its loop, returns exactly `Match` |
| Matching.ParseOneOf | Sources/SwiftPEG/Expression.swift:152-159 | `OneOf.parse`, with its loop, returns exactly `Match` |
| Matching.ParseLookahead | Sources/SwiftPEG/Expression.swift:188-193 | `Lookahead.parse` returns exactly `Match` |
| Matching.ParseNot | Sources/SwiftPEG/Expression.swift:203-208 | `Not.parse` returns exactly `Match` |
| Matching.ParseOptional | Sources/SwiftPEG/Expression.swift:218-223 | `Optional.parse` returns exactly `Match` |
| Matching.ParseZeroOrMore | Sources/SwiftPEG/Expression.swift:233-248 | `ZeroOrMore.parse` returns exactly `Match` |
| Matching.ParseOneOrMore | Sources/SwiftPEG/Expression.swift:260-278 | `OneOrMore.parse`, with its `min` guard, returns exactly `Match` |
| Matching.ParseRepeat | Sources/SwiftPEG/Expression.swift:263-273 | the `while true` loop computes the repetition function |
| Matching.ParseMembers | Sources/SwiftPEG/Expression.swift:133-140 | Sequence's `for` loop, each member parsed where the previous ended, computes exactly the run function |
| Matching.ParseAlternatives | Sources/SwiftPEG/Expression.swift:153-158 | OneOf's `for` loop, stopping at the first member that does not fail, computes exactly the first-match function |
| Matching.MatchFuel | Sources/SwiftPEG/Expression.swift:35-41 | once matching is decided within a fuel bound, any larger bound gives the same outcome, so `OutOfFuel` only means "not decided yet" |
| Simplification.Simplify | Sources/SwiftPEG/SimplifiedNode.swift:46-56 | nil iff the node is unnamed; otherwise it keeps text, span and name, and every node of the result is named |
| Simplification.SimplifyToList | Sources/SwiftPEG/SimplifiedNode.swift:58-67 | every node of the list is named |
| Simplification.Flatten | Sources/SwiftPEG/SimplifiedNode.swift:63-65 | every node of the concatenated lists is named |
| Simplification.SimplifyKeepsOrder | Sources/SwiftPEG/SimplifiedNode.swift:46-56 | the simplified tree lists exactly the named nodes of the original, in pre-order: none lost, added or reordered |
| Simplification.ToListKeepsOrder | Sources/SwiftPEG/SimplifiedNode.swift:58-67 | the list of a node holds exactly its named descendants, in order |
| Simplification.FlattenKeepsOrder | Sources/SwiftPEG/SimplifiedNode.swift:63-65 | the concatenated lists of the children hold exactly their named nodes, in order |
| Simplification.NamedToList | Sources/SwiftPEG/SimplifiedNode.swift:59-61 | a named node gives the one-element list of its simplification |
| Simplification.UnnamedToList | Sources/SwiftPEG/SimplifiedNode.swift:62-66 | an unnamed node is spliced out: its list is its children's lists in order |
| References.InvLeaf | Sources/SwiftPEG/RuleVisitor.swift:212-213 | allocating a Literal or Regex, or a LazyReference that joins the worklist, keeps the bookkeeping invariant |
| References.CompoundAdopts | Sources/SwiftPEG/Expression.swift:97-107 | Compound's initialiser makes each LazyReference member point back at the new compound and the slot holding it, changing nothing else |
| References.SingletonAdopts | Sources/SwiftPEG/Expression.swift:167-174 | Singleton's initialiser makes its LazyReference member point back at it |
| References.InvAdopted | Sources/SwiftPEG/Expression.swift:97-107 | an initialiser that adopts fresh members keeps the invariant: the worklist has every LazyReference once, and parent pointers and slots agree both ways |
| References.RootsAdopted | Sources/SwiftPEG/Expression.swift:97-107 | a new compound or singleton that holds every earlier unheld object is then the only unheld one |
| References.RootsJoin | Sources/SwiftPEG/RuleVisitor.swift:41-46 | the unheld objects of two steps in a row are those of the first followed by those of the second |
| References.RootsRename | Sources/SwiftPEG/RuleVisitor.swift:62 | renaming an object leaves the unheld objects as they were |
| References.InvRename | Sources/SwiftPEG/RuleVisitor.swift:62 | renaming an expression keeps the invariant |
| References.PatchEffect | Sources/SwiftPEG/RuleVisitor.swift:249-271 | one round of the linking loop rewrites exactly the slot the parent pointer designates, to the named rule |
| References.LinkableStep | Sources/SwiftPEG/RuleVisitor.swift:248-272 | after one round, the rest of the worklist still designates the same, still-correct slots |
| References.SubstituteSlots | Sources/SwiftPEG/RuleVisitor.swift:247-274 | linking puts into every designated slot the rule named like its LazyReference and leaves every other slot alone |
| References.ResolvedFirst | Sources/SwiftPEG/RuleVisitor.swift:248-272 | the first round's slot is not overwritten by a later round |
| References.SubstituteTraps | Sources/SwiftPEG/RuleVisitor.swift:251 | the force unwrap stops linking iff some LazyReference that sits in a slot names no rule |
| References.InvLinkable | Sources/SwiftPEG/RuleVisitor.swift:247-249 | the visitor's invariant gives what the linking loop needs |
| References.Linked | Sources/SwiftPEG/RuleVisitor.swift:247-274 | after linking, every slot refers to an existing object; when no rule is a bare reference, no slot holds a LazyReference |
| Compiler.Label | Sources/SwiftPEG/RuleVisitor.swift:69-74 | "" for a node that is not a label, and never nil |
| Compiler.Quantify | Sources/SwiftPEG/RuleVisitor.swift:174-183 | the quantifier switch never traps |
| Compiler.Unquote | Sources/SwiftPEG/RuleVisitor.swift:224 | dropping the first and last characters succeeds iff there are at least two, and keeps the inner characters |
| Compiler.ListTrees | Sources/SwiftPEG/RuleVisitor.swift:28-49 | `visitOneOrMore` never returns nil |
| Compiler.TransformAllOnePerChild | Sources/SwiftPEG/RuleVisitor.swift:41-47 | a finished loop gives one tree per remaining child, in child order |
| Compiler.ListTreesOnePerChild | Sources/SwiftPEG/RuleVisitor.swift:28-49 | with a known first name and no nil child, one tree per child in order; otherwise `[]` |
| Compiler.RulesTrees | Sources/SwiftPEG/RuleVisitor.swift:9-13 | a compiled rule list comes from a second child that has children |
| Compiler.RuleIsNotReference | Sources/SwiftPEG/RuleVisitor.swift:57-61 | a compiled rule is never a bare reference |
| Compiler.RulesAreNotReferences | Sources/SwiftPEG/RuleVisitor.swift:41-47 | no tree from a loop over rules is a bare reference |
| Compiler.RuleListHasNoReference | Sources/SwiftPEG/RuleVisitor.swift:28-49 | a list of rules compiles to trees none of which is a bare reference |
| Compiler.RuleDictLastWins | Sources/SwiftPEG/RuleVisitor.swift:14-17 | a name is a key iff some rule has it, and it maps to the last rule with that name |
| Compiler.DictOfUnfold | Sources/SwiftPEG/RuleVisitor.swift:14-17 | the dictionary of arena objects is the dictionary of trees, entry by entry |
| Compiler.EntriesAreNotReferences | Sources/SwiftPEG/RuleVisitor.swift:14-17 | no dictionary entry is a LazyReference |
| Compiler.Escape | Sources/SwiftPEG/RuleVisitor.swift:236-238 | escaping never shortens a pattern |
| Compiler.Unescape | Sources/SwiftPEG/RuleVisitor.swift:239-241 | unescaping never lengthens a text |
| Compiler.UnescapeEscape | Sources/SwiftPEG/RuleVisitor.swift:236-241 | unescaping undoes the grammar language's escaping of every pattern |
| Compiler.AsWrittenAgrees | Sources/SwiftPEG/RuleVisitor.swift:239-241 | when no escaped backslash comes right before a quote, the two replacement passes give exactly the one-pass unescape |
| Compiler.AsWrittenLosesBackslash | Sources/SwiftPEG/RuleVisitor.swift:239-241 | the two-pass replacement turns the quoted text for the pattern `\\` into `\`, while the one-pass unescape gives back `\\` |
| Compiler.RefersHeld | Sources/SwiftPEG/RuleVisitor.swift:208-215 | a name the tree of an object refers to is the name of a LazyReference object that some object holds |
| Compiler.MemberRefers | Sources/SwiftPEG/Expression.swift:97-107 | the tree of an object refers to every name held in the tree of one of its members |
| Compiler.RefersUp | Sources/SwiftPEG/RuleVisitor.swift:9-20 | when the rules are the only objects nothing holds, a name any object's tree refers to is referred to by some rule |
| Compiler.TrapsOnUnknownName | Sources/SwiftPEG/RuleVisitor.swift:247-274 | a rule that refers to a name no rule has leaves a LazyReference the linking loop cannot resolve, and, when the rules are all that nothing holds, such a LazyReference comes from such a rule |
| Compiler.UnfoldRename | Sources/SwiftPEG/RuleVisitor.swift:62 | renaming an object renames the tree it denotes and nothing else |
| Compiler.RuleVisitor.constructor | Sources/SwiftPEG/RuleVisitor.swift:6-7 | a fresh visitor has an empty arena and an empty worklist |
| Compiler.RuleVisitor.MakeLeaf | Sources/SwiftPEG/Expression.swift:51-54 | allocating a Literal or Regex keeps the invariant, and the new object denotes exactly that leaf |
| Compiler.RuleVisitor.MakeCompound | Sources/SwiftPEG/Expression.swift:97-107 | allocating a compound of fresh members keeps the invariant and denotes the compound of the members' trees |
| Compiler.RuleVisitor.MakeSingleton | Sources/SwiftPEG/Expression.swift:167-174 | allocating a singleton of a fresh member keeps the invariant and denotes the singleton of the member's tree |
| Compiler.RuleVisitor.VisitReference | Sources/SwiftPEG/RuleVisitor.swift:208-215 | builds the LazyReference its specification names and appends it to the worklist |
| Compiler.RuleVisitor.VisitLiteral | Sources/SwiftPEG/RuleVisitor.swift:218-226 | builds the Literal of the quoted text without its quotes, or nil or a trap as specified |
| Compiler.RuleVisitor.VisitRegex | Sources/SwiftPEG/RuleVisitor.swift:229-245 | builds the anchored Regex of the unquoted text after the two replacement passes as written (`UnescapeAsWritten`) |
| Compiler.RuleVisitor.VisitAtom | Sources/SwiftPEG/RuleVisitor.swift:189-205 | builds the tree of the first child's kind; a parenthesized expression is its third child |
| Compiler.RuleVisitor.VisitQuantified | Sources/SwiftPEG/RuleVisitor.swift:168-186 | builds Optional, OneOrMore (min 1) or ZeroOrMore of the atom, or nil for any other quantifier text |
| Compiler.RuleVisitor.ApplyQuantifier | Sources/SwiftPEG/RuleVisitor.swift:172-184 | the quantifier switch, applied to an already built atom |
| Compiler.RuleVisitor.VisitNotTerm | Sources/SwiftPEG/RuleVisitor.swift:137-145 | builds Not of the term |
| Compiler.RuleVisitor.VisitLookaheadTerm | Sources/SwiftPEG/RuleVisitor.swift:148-156 | builds Lookahead of the term |
| Compiler.RuleVisitor.VisitTerm | Sources/SwiftPEG/RuleVisitor.swift:118-134 | dispatches on the first child's name and builds what the chosen visit specifies |
| Compiler.RuleVisitor.VisitOrTerm | Sources/SwiftPEG/RuleVisitor.swift:159-164 | builds the term of the third child |
| Compiler.RuleVisitor.VisitOred | Sources/SwiftPEG/RuleVisitor.swift:94-103 | builds OneOf of the first term followed by the or_terms |
| Compiler.RuleVisitor.VisitSequence | Sources/SwiftPEG/RuleVisitor.swift:106-115 | builds Sequence of the first term followed by the other terms |
| Compiler.RuleVisitor.VisitExpression | Sources/SwiftPEG/RuleVisitor.swift:77-91 | dispatches to ored, sequence or term |
| Compiler.RuleVisitor.VisitRule | Sources/SwiftPEG/RuleVisitor.swift:52-66 | builds the rule's expression, wrapped if it is a bare reference, named after the label |
| Compiler.RuleVisitor.Wrap | Sources/SwiftPEG/RuleVisitor.swift:58-61 | a bare reference becomes a one-member Sequence; anything else is kept |
| Compiler.RuleVisitor.VisitWith | Sources/SwiftPEG/RuleVisitor.swift:29-39 | applies the transform picked by name to one child |
| Compiler.RuleVisitor.VisitOneOrMore | Sources/SwiftPEG/RuleVisitor.swift:28-49 | never nil; traps iff its specification traps; otherwise fresh, unshared objects in order, denoting the specified trees, and, when the loop does not stop on a nil child, the only new objects nothing holds |
| Compiler.CollectStep | Sources/SwiftPEG/RuleVisitor.swift:41-46 | one turn of the loop that ends with an object keeps the loop's invariant: results in order, the specification's rest, and the unheld objects |
| Compiler.RuleVisitor.VisitRules | Sources/SwiftPEG/RuleVisitor.swift:9-20 | empty map for a non-rules node; otherwise traps iff a held reference names no rule; else the dictionary of the rules, linked by `Substitute`, closed, and, when the list holds rules, with no reference left in any slot; when no loop stops on a nil child (`NilFree`), the compiled rules are the only objects it built that nothing holds |
| Compiler.RuleVisitor.Link | Sources/SwiftPEG/RuleVisitor.swift:14-18 | keys the rules by name, then links; traps iff some held reference is missing |
| Compiler.RuleVisitor.CollectRules | Sources/SwiftPEG/RuleVisitor.swift:14-17 | the loop builds the rule dictionary |
| Compiler.RuleVisitor.SubstituteLazyReference | Sources/SwiftPEG/RuleVisitor.swift:247-274 | completes iff the linking specification does, and then leaves exactly its result |
| Compiler.RuleVisitor.LinkOne | Sources/SwiftPEG/RuleVisitor.swift:249-271 | one reference: the parent's member slot gets the named rule, a reference without a parent is skipped, and it stops iff the name has no rule or the slot is missing, exactly as the one-reference linking step says |
| Grammars.Lookup | Sources/SwiftPEG/Grammar.swift:13-18 | nil for an unknown rule; a parse starts at offset 0, ends within the text and comes from the named rule |
| Grammars.Compile | Sources/SwiftPEG/Grammar.swift:22 | `CompiledAs`: empty for a non-rules node; a trap where a rule tree traps; a trap whenever a compiled rule refers to a name no rule has (`UnknownName`), and, for a tree where no loop stops on a nil child (`NilFree`), a trap only then; otherwise the dictionary of the built rules, last of a name wins, in the arena linking leaves, usable, keyed by exactly the rule names, each key denoting its rule's tree, and, when the list holds rules, with every reference resolved |
| Grammars.ExpressionFrom | Sources/SwiftPEG/Grammar.swift:20-25 | an unparsable definition gives an empty map, `Exhausted` iff its parse runs out of fuel, and a parsed definition gives what `Compile` gives for its tree (`CompiledAs`) |
| Grammars.Grammar.constructor | Sources/SwiftPEG/Grammar.swift:9-11 | the grammar holds the compiled rules |
| Grammars.Grammar.Parse | Sources/SwiftPEG/Grammar.swift:13-18 | nil for an unknown rule, otherwise the rule matched from offset 0 |
| Grammars.ParseLeavesRest | Sources/SwiftPEG/Grammar.swift:13-18 | a parse need not reach the end of the text: rule "a" parses "ab" up to offset 1 |
| Bootstrap.BootCell | Sources/SwiftPEG/BootstrappingGrammar.swift:10-39 | no hard-coded expression is a LazyReference |
| Bootstrap.Make | Sources/SwiftPEG/BootstrappingGrammar.swift:10-39 | each allocation appends exactly the next hard-coded expression |
| Bootstrap.MakeRegex | Sources/SwiftPEG/BootstrappingGrammar.swift:10-24 | each hard-coded Regex is stored anchored with "^" |
| Bootstrap.MakeLexemes | Sources/SwiftPEG/BootstrappingGrammar.swift:10-14 | builds comment, meaninglessness, `_` and "=" |
| Bootstrap.MakeReferences | Sources/SwiftPEG/BootstrappingGrammar.swift:14-16 | builds equals, label and reference |
| Bootstrap.MakeLiterals | Sources/SwiftPEG/BootstrappingGrammar.swift:17-28 | builds quantifier, literal, regex, atom and quantified |
| Bootstrap.MakeTerms | Sources/SwiftPEG/BootstrappingGrammar.swift:30-32 | builds term and not_term, then puts not_term in front of term's members |
| Bootstrap.MakeSequences | Sources/SwiftPEG/BootstrappingGrammar.swift:34-36 | builds sequence, or_term and the or_term list |
| Bootstrap.MakeRules | Sources/SwiftPEG/BootstrappingGrammar.swift:36-39 | builds ored, expression, rule and rules |
| Bootstrap.HardCodeParser | Sources/SwiftPEG/BootstrappingGrammar.swift:7-46 | builds exactly the 32 hard-coded expressions and returns `rules` |
| Bootstrap.HardCodedClosed | Sources/SwiftPEG/BootstrappingGrammar.swift:7-46 | every member of every hard-coded expression exists |
| Bootstrap.BootCellBelow | Sources/SwiftPEG/BootstrappingGrammar.swift:10-39 | every member of each hard-coded expression is one of the 32 |
| Bootstrap.HardCodedKinds | Sources/SwiftPEG/BootstrappingGrammar.swift:10-39 | the hard-coded grammar has no LazyReference, no Lookahead and no parenthesized rule |
| Bootstrap.TermIsCyclic | Sources/SwiftPEG/BootstrappingGrammar.swift:30-32 | after the splice, term's members are not_term, quantified and atom; not_term holds term, so the graph is cyclic |
| Bootstrap.IgnorableNeverFails | Sources/SwiftPEG/BootstrappingGrammar.swift:12 | `_` never fails |
| Bootstrap.ReferenceIsLabelWithoutEquals | Sources/SwiftPEG/BootstrappingGrammar.swift:16 | reference matches iff label matches and equals does not match after it |
| Bootstrap.CompileWithBootstrap | Sources/SwiftPEG/BootstrappingGrammar.swift:50-53 | returns the hard-coded parser graph itself; parse with it, then compile: usable rules, an empty map when the parse fails, `Exhausted` iff the parse runs out of fuel, and otherwise what `Compile` gives for the parsed tree (`CompiledAs`) |
| Bootstrap.BootstrapExpression | Sources/SwiftPEG/BootstrappingGrammar.swift:48-54 | the argument is ignored: `ruleSyntax` is parsed with the hard-coded parser, which it also returns, and the tree is compiled as `Compile` does (`CompiledAs`), including its trap on a name no rule has |

## Left out

- Regular expressions: Foundation's engine is not modelled. `RegexEngine` is a parameter, bounded only by "a match is no longer than the text". So `RegexMatches` and the bootstrap lemmas hold for every engine, and nothing is proved about any particular pattern.
- Strings are sequences of characters, and offsets are integers. Swift's `String.Index` and grapheme-cluster counting (`literal.count`, `matched_string.count`) are modelled as character counts.
- Matching termination: Swift recursion has no bound, and a left-recursive grammar makes it run forever. The model adds `fuel`, and `OutOfFuel` stands for "not decided within this bound".
- `description`, `toString`, the `print` calls and `SimplifiedNode`'s rendering are output formatting and are not modelled.
- The global `ruleGrammar` (BootstrappingGrammar.swift:97) is a parameter of `Grammars.ExpressionFrom`. It is not a global built at start-up.
- Bootstrap self-consistency is not proved: that the compiled `ruleSyntax` parses `ruleSyntax` to the same tree as the hard-coded parser (swift_pegTests.swift:45-50 and 56-58); `Bootstrap.SelfConsistent` states the round trip of the first test. It needs the matching of a 1500-character text to be unfolded, and that is beyond what the solver can do here.
- `Bootstrap.CompileWithBootstrap`: does not state which rules `ruleSyntax` yields (its 25 names), only that the keys are the names of the compiled rules. This is for the same reason.
- `Bootstrap.BootstrapExpression`: does not state the 25 rule names of `ruleSyntax`, nor that the compiled `rules` rule parses `ruleSyntax` like the hard-coded parser (`Bootstrap.SelfConsistent`); the parse of the 1500-character text is not unfolded.
- `node.name` in RuleVisitor.swift and SimplifiedNode.swift is modelled as the node's expression name (`expr_name` in Node.swift:15).
- A Node reads its expression's name and type through a reference. The model stores the two values in the node, because names change only during compilation, before any parse.
- Literals are not unescaped. `visitLiteral` (RuleVisitor.swift:223-225) only strips the quotes, so the rule `x = "a\"b"` stores `a\"b`. A description of the system says the escapes are removed. The model follows the code.
- The flags of a `~"..."flags` regex (the third child of `regex`) are ignored by `visitRegex`, and so by the model.
- Run-time traps: an index past the end of `children`, a string slice of fewer than two characters, and the force unwrap in `substituteLazyReference` all stop a Swift program. They are modelled as the value `Trapped` (compiler) or `Trap` (grammar), not as a crash.
- Object identity: the arena index stands for the object. Two Swift objects are never equal as values, and the model never compares cells for identity.
- `Grammars.Compile`: when a `visitOneOrMore` loop stops on a nil child, it returns `[]` and drops the objects it already built (RuleVisitor.swift:41-46), but their LazyReferences stay on the worklist and can make linking trap; for such a tree only the direction "an unknown name in a compiled rule traps" is stated.
- `Matching.MatchFirst`: states only that the result is a node of the text at the position. Which member wins is stated by `Matching.FirstHit` and `Matching.OneOfMatches`.

## Findings

| source | as written | input that shows it | evidently intended | confidence | as-written member | corrected member |
|---|---|---|---|---|---|---|
| Sources/SwiftPEG/RuleVisitor.swift:239-241 | regex text is unescaped in two passes: every `\\` becomes `\`, then every `\"` becomes `"` | the grammar text `~"\\\\"`, written for the pattern `\\` (one literal backslash): the first pass leaves `"\\"`, the second turns its last `\"` into `"`, and the stored pattern is `\` | one left-to-right pass in which `\\` gives `\` and `\"` gives `"`, so that unescaping undoes escaping for every pattern | not executed | Compiler.AsWrittenLosesBackslash | Compiler.UnescapeEscape |

The compiler model follows the code as written (`Compiler.RuleVisitor.VisitRegex` uses `UnescapeAsWritten`). `Compiler.AsWrittenAgrees` bounds the difference: the two passes and the corrected unescape agree on every text without an escaped backslash right before a quote, which covers the regexes of `ruleSyntax`.
