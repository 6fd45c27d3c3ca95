/**
 * The `parse(for:at:)` methods of Sources/SwiftPEG/Expression.swift.
 *
 * `Match` and its helpers are the specification: one recursive function per
 * loop of the source, over an arena graph that may be cyclic, so every call
 * spends one unit of `fuel` and running out is reported as `OutOfFuel`, never
 * as a failed match. `Parse` and its helpers are the source's loops, proved
 * equal to the specification.
 */
module Matching {
  import opened Wrappers
  import opened Expressions
  import opened Nodes

  /**
   * Foundation's `range(of: pattern, options: .regularExpression)` on the
   * remaining text, as a parameter: the length of the match it reports. The
   * stored pattern starts with "^", so the engine is expected to report a
   * match at the start of the remaining text; its length is at most the
   * remaining length.
   */
  type RegexEngine = f: (string, string) -> Option<nat>
    | forall pattern, subject :: f(pattern, subject).Some? ==> f(pattern, subject).value <= |subject|
    witness (pattern: string, subject: string) => None

  /** The result of a match attempt: a node, `nil`, or not decided within the fuel. */
  datatype Outcome<+T> = Parsed(value: T) | NoMatch | OutOfFuel

  /** `Node(expr: e, full_text: text, start: start, end: end, children: children)`. */
  function MakeNode(e: Cell, text: string, start: nat, end: nat, children: seq<Node>): Node {
    Node(e.name, e.Type(), text, start, end, children)
  }

  /** Where a run of consecutive children starting at `pos` ends. */
  function End(cs: seq<Node>, pos: nat): nat {
    if cs == [] then pos else cs[|cs| - 1].end
  }

  /** A node `parse(text, pos)` may return: a well-formed slice of `text` that starts at `pos`. */
  predicate Spans(n: Node, text: string, pos: nat) {
    n.fullText == text && n.start == pos && WellFormed(n)
  }

  /** Where child `i` of a run of consecutive children from `pos` begins. */
  function StartOf(cs: seq<Node>, pos: nat, i: nat): nat
    requires i <= |cs|
  {
    if i == 0 then pos else cs[i - 1].end
  }

  /** Consecutive children of `text`: the first starts at `pos`, each next one where the previous ended. */
  predicate Abut(cs: seq<Node>, text: string, pos: nat) {
    && pos <= End(cs, pos) <= |text|
    && (forall i | 0 <= i < |cs| ::
          cs[i].fullText == text && WellFormed(cs[i]) && pos <= cs[i].start && cs[i].end <= End(cs, pos))
    && (forall i {:trigger StartOf(cs, pos, i)} | 0 <= i < |cs| :: cs[i].start == StartOf(cs, pos, i))
  }

  /** Put `cs` in front of a successful list result. */
  function Prepend(cs: seq<Node>, o: Outcome<seq<Node>>): Outcome<seq<Node>> {
    match o
    case Parsed(rest) => Parsed(cs + rest)
    case NoMatch => NoMatch
    case OutOfFuel => OutOfFuel
  }

  /** `cs` is what matching the members `ms` one after another from `pos` gives. */
  predicate SeqChain(g: seq<Cell>, re: RegexEngine, ms: seq<Ref>, text: string, pos: nat, fuel: nat, cs: seq<Node>)
    requires Closed(g) && AllBelow(ms, |g|)
  {
    && |cs| == |ms|
    && forall i {:trigger StartOf(cs, pos, i)} | 0 <= i < |ms| ::
         StartOf(cs, pos, i) <= |text| && Match(g, re, ms[i], text, StartOf(cs, pos, i), fuel) == Parsed(cs[i])
  }

  /** A list whose first node is the first member's match at `pos` is a chain iff its tail is a chain from that node's end. */
  lemma SeqChainCons(g: seq<Cell>, re: RegexEngine, ms: seq<Ref>, text: string, pos: nat, fuel: nat, cs: seq<Node>)
    requires Closed(g) && AllBelow(ms, |g|) && pos <= |text| && ms != [] && cs != []
    requires Match(g, re, ms[0], text, pos, fuel) == Parsed(cs[0])
    ensures AllBelow(ms[1..], |g|)
    ensures SeqChain(g, re, ms, text, pos, fuel, cs) <==> SeqChain(g, re, ms[1..], text, cs[0].end, fuel, cs[1..])
  {
    var tail := cs[1..];
    var q := cs[0].end;
    if SeqChain(g, re, ms, text, pos, fuel, cs) {
      forall i | 0 <= i < |ms| - 1
        ensures StartOf(tail, q, i) <= |text|
        ensures Match(g, re, ms[1..][i], text, StartOf(tail, q, i), fuel) == Parsed(tail[i])
      {
        assert StartOf(tail, q, i) == StartOf(cs, pos, i + 1);
      }
    }
    if SeqChain(g, re, ms[1..], text, q, fuel, tail) {
      forall i | 0 <= i < |ms|
        ensures StartOf(cs, pos, i) <= |text|
        ensures Match(g, re, ms[i], text, StartOf(cs, pos, i), fuel) == Parsed(cs[i])
      {
        if i > 0 {
          assert StartOf(cs, pos, i) == StartOf(tail, q, i - 1);
          assert ms[i] == ms[1..][i - 1];
        }
      }
    }
  }

  /** Sequence's loop yields `cs` exactly when every member matches, in order, where the previous one ended. */
  lemma {:induction false} SeqChainIff(g: seq<Cell>, re: RegexEngine, ms: seq<Ref>, text: string, pos: nat, fuel: nat, cs: seq<Node>)
    requires Closed(g) && AllBelow(ms, |g|) && pos <= |text|
    ensures MatchSeq(g, re, ms, text, pos, fuel) == Parsed(cs) <==> SeqChain(g, re, ms, text, pos, fuel, cs)
    decreases |ms|
  {
    if ms != [] {
      SeqStep(g, re, ms, text, pos, fuel);
      var c := Match(g, re, ms[0], text, pos, fuel);
      if c.Parsed? && cs != [] && cs[0] == c.value {
        assert cs == [c.value] + cs[1..];
        SeqChainCons(g, re, ms, text, pos, fuel, cs);
        SeqChainIff(g, re, ms[1..], text, c.value.end, fuel, cs[1..]);
      } else {
        assert !SeqChain(g, re, ms, text, pos, fuel, cs) by {
          if |cs| == |ms| {
            assert StartOf(cs, pos, 0) == pos;
          }
        }
      }
    }
  }

  /** Sequence: it matches iff all its members match consecutively; one child per member; it ends where the last child ends. */
  lemma SequenceMatches(g: seq<Cell>, re: RegexEngine, e: Ref, text: string, pos: nat, fuel: nat, cs: seq<Node>)
    requires Closed(g) && e < |g| && pos <= |text| && fuel > 0 && g[e].Sequence?
    ensures AllBelow(g[e].members, |g|)
    ensures Match(g, re, e, text, pos, fuel) == Parsed(MakeNode(g[e], text, pos, End(cs, pos), cs))
        <==> SeqChain(g, re, g[e].members, text, pos, fuel - 1, cs)
    ensures Match(g, re, e, text, pos, fuel).Parsed? ==>
        SeqChain(g, re, g[e].members, text, pos, fuel - 1, Match(g, re, e, text, pos, fuel).value.children)
  {
    SequenceCase(g, re, e, text, pos, fuel);
    var ms := g[e].members;
    var o := MatchSeq(g, re, ms, text, pos, fuel - 1);
    var r := Match(g, re, e, text, pos, fuel);
    assert r == Parsed(MakeNode(g[e], text, pos, End(cs, pos), cs)) <==> o == Parsed(cs);
    SeqChainIff(g, re, ms, text, pos, fuel - 1, cs);
    if r.Parsed? {
      assert o.Parsed? && o.value == r.value.children;
      SeqChainOf(g, re, ms, text, pos, fuel - 1);
    }
  }

  /** A successful run of the members is a chain of consecutive matches. */
  lemma SeqChainOf(g: seq<Cell>, re: RegexEngine, ms: seq<Ref>, text: string, pos: nat, fuel: nat)
    requires Closed(g) && AllBelow(ms, |g|) && pos <= |text|
    requires MatchSeq(g, re, ms, text, pos, fuel).Parsed?
    ensures SeqChain(g, re, ms, text, pos, fuel, MatchSeq(g, re, ms, text, pos, fuel).value)
  {
    SeqChainIff(g, re, ms, text, pos, fuel, MatchSeq(g, re, ms, text, pos, fuel).value);
  }

  /** OneOf's loop: when every member before `k` fails and member `k` does not, the result is member `k`'s. */
  lemma {:induction false} FirstHit(g: seq<Cell>, re: RegexEngine, ms: seq<Ref>, text: string, pos: nat, fuel: nat, k: nat)
    requires Closed(g) && AllBelow(ms, |g|) && pos <= |text|
    requires k < |ms| && Match(g, re, ms[k], text, pos, fuel) != NoMatch
    requires forall j | 0 <= j < k :: Match(g, re, ms[j], text, pos, fuel) == NoMatch
    ensures MatchFirst(g, re, ms, text, pos, fuel) == Match(g, re, ms[k], text, pos, fuel)
    decreases k
  {
    if k > 0 {
      assert Match(g, re, ms[0], text, pos, fuel) == NoMatch;
      var tail := ms[1..];
      assert tail[k - 1] == ms[k];
      forall j | 0 <= j < k - 1
        ensures Match(g, re, tail[j], text, pos, fuel) == NoMatch
      {
        assert tail[j] == ms[j + 1];
      }
      FirstHit(g, re, tail, text, pos, fuel, k - 1);
    }
  }

  /** OneOf's loop fails exactly when every member fails. */
  lemma {:induction false} FirstFails(g: seq<Cell>, re: RegexEngine, ms: seq<Ref>, text: string, pos: nat, fuel: nat)
    requires Closed(g) && AllBelow(ms, |g|) && pos <= |text|
    ensures MatchFirst(g, re, ms, text, pos, fuel) == NoMatch <==>
      forall i | 0 <= i < |ms| :: Match(g, re, ms[i], text, pos, fuel) == NoMatch
    decreases |ms|
  {
    if ms != [] {
      var tail := ms[1..];
      FirstFails(g, re, tail, text, pos, fuel);
      if Match(g, re, ms[0], text, pos, fuel) == NoMatch {
        assert MatchFirst(g, re, ms, text, pos, fuel) == MatchFirst(g, re, tail, text, pos, fuel);
        assert forall i | 1 <= i < |ms| :: ms[i] == tail[i - 1];
      }
    }
  }

  /** OneOf: a one-child node wrapping the first member that matches; no match iff no member matches. */
  lemma OneOfMatches(g: seq<Cell>, re: RegexEngine, e: Ref, text: string, pos: nat, fuel: nat, k: nat)
    requires Closed(g) && e < |g| && pos <= |text| && fuel > 0 && g[e].OneOf?
    requires k < |g[e].members| && Match(g, re, g[e].members[k], text, pos, fuel - 1).Parsed?
    requires forall j | 0 <= j < k :: Match(g, re, g[e].members[j], text, pos, fuel - 1) == NoMatch
    ensures var c := Match(g, re, g[e].members[k], text, pos, fuel - 1).value;
      Match(g, re, e, text, pos, fuel) == Parsed(MakeNode(g[e], text, pos, c.end, [c]))
  {
    var ms := g[e].members;
    assert AllBelow(ms, |g|) by {
      OneOfCase(g, re, e, text, pos, fuel);
    }
    assert MatchFirst(g, re, ms, text, pos, fuel - 1) == Match(g, re, ms[k], text, pos, fuel - 1) by {
      FirstHit(g, re, ms, text, pos, fuel - 1, k);
    }
    OneOfHit(g, re, e, text, pos, fuel);
  }

  /** A OneOf wraps the node of the first member that matched. */
  lemma OneOfHit(g: seq<Cell>, re: RegexEngine, e: Ref, text: string, pos: nat, fuel: nat)
    requires Closed(g) && e < |g| && pos <= |text| && fuel > 0 && g[e].OneOf? && AllBelow(g[e].members, |g|)
    requires MatchFirst(g, re, g[e].members, text, pos, fuel - 1).Parsed?
    ensures var c := MatchFirst(g, re, g[e].members, text, pos, fuel - 1).value;
      Match(g, re, e, text, pos, fuel) == Parsed(MakeNode(g[e], text, pos, c.end, [c]))
  {
    OneOfCase(g, re, e, text, pos, fuel);
  }

  /** OneOf fails (rather than running out of fuel) exactly when every member fails. */
  lemma OneOfFails(g: seq<Cell>, re: RegexEngine, e: Ref, text: string, pos: nat, fuel: nat)
    requires Closed(g) && e < |g| && pos <= |text| && fuel > 0 && g[e].OneOf?
    ensures AllBelow(g[e].members, |g|)
    ensures Match(g, re, e, text, pos, fuel) == NoMatch <==>
      forall i | 0 <= i < |g[e].members| :: Match(g, re, g[e].members[i], text, pos, fuel - 1) == NoMatch
  {
    var ms := g[e].members;
    assert Match(g, re, e, text, pos, fuel) == NoMatch <==> MatchFirst(g, re, ms, text, pos, fuel - 1) == NoMatch by {
      OneOfCase(g, re, e, text, pos, fuel);
    }
    FirstFails(g, re, ms, text, pos, fuel - 1);
  }

  /** Literal: matches iff the literal is a prefix of the rest of the text; the node is that prefix, childless. */
  lemma LiteralMatches(g: seq<Cell>, re: RegexEngine, e: Ref, text: string, pos: nat, fuel: nat)
    requires Closed(g) && e < |g| && pos <= |text| && fuel > 0 && g[e].Literal?
    ensures var r := Match(g, re, e, text, pos, fuel);
      && r != OutOfFuel
      && (r.Parsed? <==> g[e].literal <= text[pos..])
      && (r.Parsed? ==> r.value.children == [] && r.value.end == pos + |g[e].literal| && r.value.Text() == g[e].literal)
  {
  }

  /** Regex: matches iff the engine reports a match on the rest of the text; the node spans that many characters. */
  lemma RegexMatches(g: seq<Cell>, re: RegexEngine, e: Ref, text: string, pos: nat, fuel: nat)
    requires Closed(g) && e < |g| && pos <= |text| && fuel > 0 && g[e].Regex?
    ensures var r := Match(g, re, e, text, pos, fuel);
      var found := re(g[e].pattern, text[pos..]);
      && r != OutOfFuel
      && (r.Parsed? <==> found.Some?)
      && (r.Parsed? ==> r.value.children == [] && r.value.end == pos + found.value
                        && r.value.Text() == text[pos..pos + found.value])
  {
  }

  /** Lookahead and Not consume nothing; Lookahead matches iff its member does, Not iff its member fails. */
  lemma PredicatesMatch(g: seq<Cell>, re: RegexEngine, e: Ref, text: string, pos: nat, fuel: nat)
    requires Closed(g) && e < |g| && pos <= |text| && fuel > 0 && (g[e].Lookahead? || g[e].Not?)
    ensures g[e].member < |g|
    ensures var r := Match(g, re, e, text, pos, fuel);
      var c := Match(g, re, g[e].member, text, pos, fuel - 1);
      && (r.Parsed? ==> r.value.children == [] && r.value.end == pos)
      && (g[e].Lookahead? ==> (r.Parsed? <==> c.Parsed?) && (r == NoMatch <==> c == NoMatch))
      && (g[e].Not? ==> (r.Parsed? <==> c == NoMatch) && (r == NoMatch <==> c.Parsed?))
  {
    assert Below(g[e], |g|) && MembersOf(g[e])[0] == g[e].member;
  }

  /** A LazyReference that was never linked falls back to the base `parse`, which always returns nil. */
  lemma UnlinkedReferenceFails(g: seq<Cell>, re: RegexEngine, e: Ref, text: string, pos: nat, fuel: nat)
    requires Closed(g) && e < |g| && pos <= |text| && fuel > 0 && g[e].LazyReference?
    ensures Match(g, re, e, text, pos, fuel) == NoMatch
  {
  }

  /** Optional never fails: one child spanning the member's match, or an empty node. */
  lemma OptionalMatches(g: seq<Cell>, re: RegexEngine, e: Ref, text: string, pos: nat, fuel: nat)
    requires Closed(g) && e < |g| && pos <= |text| && fuel > 0 && g[e].Optional?
    ensures g[e].member < |g|
    ensures var r := Match(g, re, e, text, pos, fuel);
      var c := Match(g, re, g[e].member, text, pos, fuel - 1);
      && r != NoMatch
      && (c.Parsed? ==> r.Parsed? && r.value.children == [c.value] && r.value.end == c.value.end)
      && (c == NoMatch ==> r.Parsed? && r.value.children == [] && r.value.end == pos)
  {
    assert Below(g[e], |g|) && MembersOf(g[e])[0] == g[e].member;
  }

  /** Where the repetition of `m` stops: the member fails there or matches zero characters. */
  predicate Stops(g: seq<Cell>, re: RegexEngine, m: Ref, text: string, q: nat, fuel: nat)
    requires Closed(g) && m < |g|
  {
    q <= |text| &&
    var c := Match(g, re, m, text, q, fuel);
    c == NoMatch || (c.Parsed? && c.value.end == q)
  }

  /** `cs` is a run of positive-width matches of `m` from `pos` after which `m` stops. */
  predicate RepeatChain(g: seq<Cell>, re: RegexEngine, m: Ref, text: string, pos: nat, fuel: nat, cs: seq<Node>)
    requires Closed(g) && m < |g|
  {
    && (forall i {:trigger StartOf(cs, pos, i)} | 0 <= i < |cs| ::
          && StartOf(cs, pos, i) <= |text|
          && Match(g, re, m, text, StartOf(cs, pos, i), fuel) == Parsed(cs[i])
          && cs[i].start < cs[i].end)
    && Stops(g, re, m, text, End(cs, pos), fuel)
  }

  /** A run whose first node is a non-empty match at `pos` is a run from `pos` iff its tail is a run from that node's end. */
  lemma RepeatChainCons(g: seq<Cell>, re: RegexEngine, m: Ref, text: string, pos: nat, fuel: nat, cs: seq<Node>)
    requires Closed(g) && m < |g| && pos <= |text| && cs != []
    requires Match(g, re, m, text, pos, fuel) == Parsed(cs[0]) && cs[0].start < cs[0].end
    ensures RepeatChain(g, re, m, text, pos, fuel, cs) <==> RepeatChain(g, re, m, text, cs[0].end, fuel, cs[1..])
  {
    if RepeatChain(g, re, m, text, pos, fuel, cs) {
      RepeatChainTail(g, re, m, text, pos, fuel, cs);
    }
    if RepeatChain(g, re, m, text, cs[0].end, fuel, cs[1..]) {
      RepeatChainGrow(g, re, m, text, pos, fuel, cs);
    }
  }

  lemma RepeatChainTail(g: seq<Cell>, re: RegexEngine, m: Ref, text: string, pos: nat, fuel: nat, cs: seq<Node>)
    requires Closed(g) && m < |g| && pos <= |text| && cs != []
    requires RepeatChain(g, re, m, text, pos, fuel, cs)
    ensures RepeatChain(g, re, m, text, cs[0].end, fuel, cs[1..])
  {
    var tail := cs[1..];
    var q := cs[0].end;
    assert End(cs, pos) == End(tail, q);
    forall i | 0 <= i < |tail|
      ensures StartOf(tail, q, i) <= |text|
      ensures Match(g, re, m, text, StartOf(tail, q, i), fuel) == Parsed(tail[i])
      ensures tail[i].start < tail[i].end
    {
      assert StartOf(tail, q, i) == StartOf(cs, pos, i + 1);
    }
  }

  lemma RepeatChainGrow(g: seq<Cell>, re: RegexEngine, m: Ref, text: string, pos: nat, fuel: nat, cs: seq<Node>)
    requires Closed(g) && m < |g| && pos <= |text| && cs != []
    requires Match(g, re, m, text, pos, fuel) == Parsed(cs[0]) && cs[0].start < cs[0].end
    requires RepeatChain(g, re, m, text, cs[0].end, fuel, cs[1..])
    ensures RepeatChain(g, re, m, text, pos, fuel, cs)
  {
    var tail := cs[1..];
    var q := cs[0].end;
    assert End(cs, pos) == End(tail, q);
    forall i | 0 <= i < |cs|
      ensures StartOf(cs, pos, i) <= |text|
      ensures Match(g, re, m, text, StartOf(cs, pos, i), fuel) == Parsed(cs[i])
      ensures cs[i].start < cs[i].end
    {
      if i > 0 {
        assert StartOf(cs, pos, i) == StartOf(tail, q, i - 1);
      }
    }
  }

  /** The repetition loop yields `cs` exactly when `cs` is the run of non-empty matches up to where `m` stops. */
  lemma {:induction false} RepeatChainIff(g: seq<Cell>, re: RegexEngine, m: Ref, text: string, pos: nat, fuel: nat, cs: seq<Node>)
    requires Closed(g) && m < |g| && pos <= |text|
    ensures MatchRepeat(g, re, m, text, pos, fuel) == Parsed(cs) <==> RepeatChain(g, re, m, text, pos, fuel, cs)
    decreases |text| - pos
  {
    var c := Match(g, re, m, text, pos, fuel);
    if cs == [] {
      assert End(cs, pos) == pos;
    } else if c.Parsed? && c.value.start < c.value.end && cs[0] == c.value {
      assert cs == [c.value] + cs[1..];
      RepeatChainIff(g, re, m, text, c.value.end, fuel, cs[1..]);
      RepeatChainCons(g, re, m, text, pos, fuel, cs);
    } else {
      assert StartOf(cs, pos, 0) == pos;
    }
  }

  /** ZeroOrMore never fails; its children are the run of non-empty matches of its member up to where it stops. */
  lemma ZeroOrMoreMatches(g: seq<Cell>, re: RegexEngine, e: Ref, text: string, pos: nat, fuel: nat, cs: seq<Node>)
    requires Closed(g) && e < |g| && pos <= |text| && fuel > 0 && g[e].ZeroOrMore?
    ensures g[e].member < |g|
    ensures Match(g, re, e, text, pos, fuel) != NoMatch
    ensures Match(g, re, e, text, pos, fuel) == Parsed(MakeNode(g[e], text, pos, End(cs, pos), cs))
        <==> RepeatChain(g, re, g[e].member, text, pos, fuel - 1, cs)
  {
    ZeroOrMoreCase(g, re, e, text, pos, fuel);
    RepeatChainIff(g, re, g[e].member, text, pos, fuel - 1, cs);
  }

  /** OneOrMore runs the same loop and fails exactly when the run has fewer than `min` children. */
  lemma OneOrMoreMatches(g: seq<Cell>, re: RegexEngine, e: Ref, text: string, pos: nat, fuel: nat, cs: seq<Node>)
    requires Closed(g) && e < |g| && pos <= |text| && fuel > 0 && g[e].OneOrMore? && g[e].member < |g|
    requires RepeatChain(g, re, g[e].member, text, pos, fuel - 1, cs)
    ensures Match(g, re, e, text, pos, fuel) ==
      if |cs| < g[e].min then NoMatch else Parsed(MakeNode(g[e], text, pos, End(cs, pos), cs))
  {
    OneOrMoreCase(g, re, e, text, pos, fuel);
    RepeatChainIff(g, re, g[e].member, text, pos, fuel - 1, cs);
  }

  /** At the end of the text a ZeroOrMore of a Literal matches, with no children. */
  lemma ZeroOrMoreOfLiteralAtEnd(g: seq<Cell>, re: RegexEngine, e: Ref, text: string, fuel: nat)
    requires Closed(g) && e < |g| && fuel > 1 && g[e].ZeroOrMore? && g[e].member < |g| && g[g[e].member].Literal?
    ensures Match(g, re, e, text, |text|, fuel) == Parsed(MakeNode(g[e], text, |text|, |text|, []))
  {
    var m := g[e].member;
    LiteralMatches(g, re, m, text, |text|, fuel - 1);
    var c := Match(g, re, m, text, |text|, fuel - 1);
    assert c.Parsed? ==> c.value.end == |text|;
    assert MatchRepeat(g, re, m, text, |text|, fuel - 1) == Parsed([]);
  }

  /** Fuel only bounds the search: with more fuel, a decided outcome stays the same. */
  lemma {:induction false} MatchFuel(g: seq<Cell>, re: RegexEngine, e: Ref, text: string, pos: nat, fuel: nat, more: nat)
    requires Closed(g) && e < |g| && pos <= |text| && fuel <= more
    requires Match(g, re, e, text, pos, fuel) != OutOfFuel
    ensures Match(g, re, e, text, pos, more) == Match(g, re, e, text, pos, fuel)
    decreases fuel, 1, 0
  {
    if fuel == 0 || !(g[e].IsCompound() || g[e].IsSingleton()) {
    } else if g[e].IsCompound() {
      CompoundFuel(g, re, e, text, pos, fuel, more);
    } else if g[e].ZeroOrMore? || g[e].OneOrMore? {
      RepetitionFuel(g, re, e, text, pos, fuel, more);
    } else {
      UnaryFuel(g, re, e, text, pos, fuel, more);
    }
  }

  lemma {:induction false} CompoundFuel(g: seq<Cell>, re: RegexEngine, e: Ref, text: string, pos: nat, fuel: nat, more: nat)
    requires Closed(g) && e < |g| && pos <= |text| && 0 < fuel <= more && g[e].IsCompound()
    requires Match(g, re, e, text, pos, fuel) != OutOfFuel
    ensures Match(g, re, e, text, pos, more) == Match(g, re, e, text, pos, fuel)
    decreases fuel, 0, 2
  {
    if g[e].Sequence? {
      SequenceFuel(g, re, e, text, pos, fuel, more);
    } else {
      OneOfFuel(g, re, e, text, pos, fuel, more);
    }
  }

  lemma {:induction false} SequenceFuel(g: seq<Cell>, re: RegexEngine, e: Ref, text: string, pos: nat, fuel: nat, more: nat)
    requires Closed(g) && e < |g| && pos <= |text| && 0 < fuel <= more && g[e].Sequence?
    requires Match(g, re, e, text, pos, fuel) != OutOfFuel
    ensures Match(g, re, e, text, pos, more) == Match(g, re, e, text, pos, fuel)
    decreases fuel, 0, 0
  {
    var ms := g[e].members;
    SequenceCase(g, re, e, text, pos, fuel);
    var cs := MatchSeq(g, re, ms, text, pos, fuel - 1);
    assert cs != OutOfFuel;
    SequenceCase(g, re, e, text, pos, more);
    SeqFuel(g, re, ms, text, pos, fuel - 1, more - 1);
    assert MatchSeq(g, re, ms, text, pos, more - 1) == cs;
  }

  lemma {:induction false} OneOfFuel(g: seq<Cell>, re: RegexEngine, e: Ref, text: string, pos: nat, fuel: nat, more: nat)
    requires Closed(g) && e < |g| && pos <= |text| && 0 < fuel <= more && g[e].OneOf?
    requires Match(g, re, e, text, pos, fuel) != OutOfFuel
    ensures Match(g, re, e, text, pos, more) == Match(g, re, e, text, pos, fuel)
    decreases fuel, 0, 0
  {
    OneOfCase(g, re, e, text, pos, fuel);
    OneOfCase(g, re, e, text, pos, more);
    FirstFuel(g, re, g[e].members, text, pos, fuel - 1, more - 1);
  }

  lemma {:induction false} RepetitionFuel(g: seq<Cell>, re: RegexEngine, e: Ref, text: string, pos: nat, fuel: nat, more: nat)
    requires Closed(g) && e < |g| && pos <= |text| && 0 < fuel <= more && (g[e].ZeroOrMore? || g[e].OneOrMore?)
    requires Match(g, re, e, text, pos, fuel) != OutOfFuel
    ensures Match(g, re, e, text, pos, more) == Match(g, re, e, text, pos, fuel)
    decreases fuel, 0, 1
  {
    if g[e].ZeroOrMore? {
      ZeroOrMoreFuel(g, re, e, text, pos, fuel, more);
    } else {
      OneOrMoreFuel(g, re, e, text, pos, fuel, more);
    }
  }

  lemma {:induction false} ZeroOrMoreFuel(g: seq<Cell>, re: RegexEngine, e: Ref, text: string, pos: nat, fuel: nat, more: nat)
    requires Closed(g) && e < |g| && pos <= |text| && 0 < fuel <= more && g[e].ZeroOrMore?
    requires Match(g, re, e, text, pos, fuel) != OutOfFuel
    ensures Match(g, re, e, text, pos, more) == Match(g, re, e, text, pos, fuel)
    decreases fuel, 0, 0
  {
    var m := g[e].member;
    ZeroOrMoreCase(g, re, e, text, pos, fuel);
    var cs := MatchRepeat(g, re, m, text, pos, fuel - 1);
    assert cs != OutOfFuel;
    ZeroOrMoreCase(g, re, e, text, pos, more);
    RepeatFuel(g, re, m, text, pos, fuel - 1, more - 1);
    assert MatchRepeat(g, re, m, text, pos, more - 1) == cs;
  }

  lemma {:induction false} OneOrMoreFuel(g: seq<Cell>, re: RegexEngine, e: Ref, text: string, pos: nat, fuel: nat, more: nat)
    requires Closed(g) && e < |g| && pos <= |text| && 0 < fuel <= more && g[e].OneOrMore?
    requires Match(g, re, e, text, pos, fuel) != OutOfFuel
    ensures Match(g, re, e, text, pos, more) == Match(g, re, e, text, pos, fuel)
    decreases fuel, 0, 0
  {
    var m := g[e].member;
    OneOrMoreCase(g, re, e, text, pos, fuel);
    var cs := MatchRepeat(g, re, m, text, pos, fuel - 1);
    assert cs != OutOfFuel;
    OneOrMoreCase(g, re, e, text, pos, more);
    RepeatFuel(g, re, m, text, pos, fuel - 1, more - 1);
    assert MatchRepeat(g, re, m, text, pos, more - 1) == cs;
  }

  lemma {:induction false} UnaryFuel(g: seq<Cell>, re: RegexEngine, e: Ref, text: string, pos: nat, fuel: nat, more: nat)
    requires Closed(g) && e < |g| && pos <= |text| && 0 < fuel <= more && (g[e].Lookahead? || g[e].Not? || g[e].Optional?)
    requires Match(g, re, e, text, pos, fuel) != OutOfFuel
    ensures Match(g, re, e, text, pos, more) == Match(g, re, e, text, pos, fuel)
    decreases fuel, 0, 1
  {
    if g[e].Lookahead? {
      LookaheadFuel(g, re, e, text, pos, fuel, more);
    } else if g[e].Not? {
      NotFuel(g, re, e, text, pos, fuel, more);
    } else {
      OptionalFuel(g, re, e, text, pos, fuel, more);
    }
  }

  lemma {:induction false} LookaheadFuel(g: seq<Cell>, re: RegexEngine, e: Ref, text: string, pos: nat, fuel: nat, more: nat)
    requires Closed(g) && e < |g| && pos <= |text| && 0 < fuel <= more && g[e].Lookahead?
    requires Match(g, re, e, text, pos, fuel) != OutOfFuel
    ensures Match(g, re, e, text, pos, more) == Match(g, re, e, text, pos, fuel)
    decreases fuel, 0, 0
  {
    var m := g[e].member;
    assert Below(g[e], |g|) && MembersOf(g[e])[0] == m;
    var c := Match(g, re, m, text, pos, fuel - 1);
    assert c != OutOfFuel;
    MatchFuel(g, re, m, text, pos, fuel - 1, more - 1);
    assert Match(g, re, m, text, pos, more - 1) == c;
  }

  lemma {:induction false} NotFuel(g: seq<Cell>, re: RegexEngine, e: Ref, text: string, pos: nat, fuel: nat, more: nat)
    requires Closed(g) && e < |g| && pos <= |text| && 0 < fuel <= more && g[e].Not?
    requires Match(g, re, e, text, pos, fuel) != OutOfFuel
    ensures Match(g, re, e, text, pos, more) == Match(g, re, e, text, pos, fuel)
    decreases fuel, 0, 0
  {
    var m := g[e].member;
    assert Below(g[e], |g|) && MembersOf(g[e])[0] == m;
    var c := Match(g, re, m, text, pos, fuel - 1);
    assert c != OutOfFuel;
    MatchFuel(g, re, m, text, pos, fuel - 1, more - 1);
    assert Match(g, re, m, text, pos, more - 1) == c;
  }

  lemma {:induction false} OptionalFuel(g: seq<Cell>, re: RegexEngine, e: Ref, text: string, pos: nat, fuel: nat, more: nat)
    requires Closed(g) && e < |g| && pos <= |text| && 0 < fuel <= more && g[e].Optional?
    requires Match(g, re, e, text, pos, fuel) != OutOfFuel
    ensures Match(g, re, e, text, pos, more) == Match(g, re, e, text, pos, fuel)
    decreases fuel, 0, 0
  {
    var m := g[e].member;
    assert Below(g[e], |g|) && MembersOf(g[e])[0] == m;
    var c := Match(g, re, m, text, pos, fuel - 1);
    assert c != OutOfFuel;
    MatchFuel(g, re, m, text, pos, fuel - 1, more - 1);
    assert Match(g, re, m, text, pos, more - 1) == c;
  }

  lemma {:induction false} SeqFuel(g: seq<Cell>, re: RegexEngine, ms: seq<Ref>, text: string, pos: nat, fuel: nat, more: nat)
    requires Closed(g) && AllBelow(ms, |g|) && pos <= |text| && fuel <= more
    requires MatchSeq(g, re, ms, text, pos, fuel) != OutOfFuel
    ensures MatchSeq(g, re, ms, text, pos, more) == MatchSeq(g, re, ms, text, pos, fuel)
    decreases fuel, 2, |ms|
  {
    if ms != [] {
      MatchFuel(g, re, ms[0], text, pos, fuel, more);
      var c := Match(g, re, ms[0], text, pos, fuel);
      if c.Parsed? {
        SeqFuel(g, re, ms[1..], text, c.value.end, fuel, more);
      }
    }
  }

  lemma {:induction false} FirstFuel(g: seq<Cell>, re: RegexEngine, ms: seq<Ref>, text: string, pos: nat, fuel: nat, more: nat)
    requires Closed(g) && AllBelow(ms, |g|) && pos <= |text| && fuel <= more
    requires MatchFirst(g, re, ms, text, pos, fuel) != OutOfFuel
    ensures MatchFirst(g, re, ms, text, pos, more) == MatchFirst(g, re, ms, text, pos, fuel)
    decreases fuel, 2, |ms|
  {
    if ms != [] {
      MatchFuel(g, re, ms[0], text, pos, fuel, more);
      if Match(g, re, ms[0], text, pos, fuel) == NoMatch {
        FirstFuel(g, re, ms[1..], text, pos, fuel, more);
      }
    }
  }

  lemma {:induction false} RepeatFuel(g: seq<Cell>, re: RegexEngine, m: Ref, text: string, pos: nat, fuel: nat, more: nat)
    requires Closed(g) && m < |g| && pos <= |text| && fuel <= more
    requires MatchRepeat(g, re, m, text, pos, fuel) != OutOfFuel
    ensures MatchRepeat(g, re, m, text, pos, more) == MatchRepeat(g, re, m, text, pos, fuel)
    decreases fuel, 2, |text| - pos
  {
    MatchFuel(g, re, m, text, pos, fuel, more);
    var c := Match(g, re, m, text, pos, fuel);
    if c.Parsed? && c.value.end != c.value.start {
      RepeatFuel(g, re, m, text, c.value.end, fuel, more);
    }
  }

  lemma PrependNothing(o: Outcome<seq<Node>>)
    ensures Prepend([], o) == o
  {
    if o.Parsed? {
      assert [] + o.value == o.value;
    }
  }

  /** Putting a node that ends where a run starts in front of that run keeps the children consecutive. */
  lemma PrependAbut(c: Node, o: Outcome<seq<Node>>, text: string, pos: nat)
    requires Spans(c, text, pos) && (o.Parsed? ==> Abut(o.value, text, c.end))
    ensures Prepend([c], o).Parsed? ==> Abut(Prepend([c], o).value, text, pos)
    ensures Prepend([c], o).Parsed? ==> End(Prepend([c], o).value, pos) == End(o.value, c.end)
  {
    if o.Parsed? {
      var rest := o.value;
      var cs := [c] + rest;
      forall i | 0 <= i < |cs|
        ensures cs[i].start == StartOf(cs, pos, i)
      {
        if i > 0 {
          assert cs[i] == rest[i - 1];
          assert StartOf(rest, c.end, i - 1) == StartOf(cs, pos, i);
        }
      }
    }
  }

  /** `expr.parse(for: text, at: pos)` for the expression at `e`. */
  function Match(g: seq<Cell>, re: RegexEngine, e: Ref, text: string, pos: nat, fuel: nat): (r: Outcome<Node>)
    requires Closed(g) && e < |g| && pos <= |text|
    ensures r.Parsed? ==> Spans(r.value, text, pos)
    ensures r.Parsed? ==> r.value.exprName == g[e].name && r.value.exprType == g[e].Type()
    decreases fuel, 0, 0
  {
    if fuel == 0 then OutOfFuel
    else
      assert Below(g[e], |g|);
      match g[e]
      case Literal(_, lit) =>
        if lit <= text[pos..] then Parsed(MakeNode(g[e], text, pos, pos + |lit|, [])) else NoMatch
      case Regex(_, pattern) =>
        (match re(pattern, text[pos..])
         case Some(len) => Parsed(MakeNode(g[e], text, pos, pos + len, []))
         case None => NoMatch)
      case Sequence(_, ms) =>
        (match MatchSeq(g, re, ms, text, pos, fuel - 1)
         case Parsed(cs) => Parsed(MakeNode(g[e], text, pos, End(cs, pos), cs))
         case NoMatch => NoMatch
         case OutOfFuel => OutOfFuel)
      case OneOf(_, ms) =>
        (match MatchFirst(g, re, ms, text, pos, fuel - 1)
         case Parsed(c) => Parsed(MakeNode(g[e], text, pos, c.end, [c]))
         case NoMatch => NoMatch
         case OutOfFuel => OutOfFuel)
      case Lookahead(_, m) =>
        assert MembersOf(g[e])[0] == m;
        (match Match(g, re, m, text, pos, fuel - 1)
         case Parsed(_) => Parsed(MakeNode(g[e], text, pos, pos, []))
         case NoMatch => NoMatch
         case OutOfFuel => OutOfFuel)
      case Not(_, m) =>
        assert MembersOf(g[e])[0] == m;
        (match Match(g, re, m, text, pos, fuel - 1)
         case Parsed(_) => NoMatch
         case NoMatch => Parsed(MakeNode(g[e], text, pos, pos, []))
         case OutOfFuel => OutOfFuel)
      case Optional(_, m) =>
        assert MembersOf(g[e])[0] == m;
        (match Match(g, re, m, text, pos, fuel - 1)
         case Parsed(c) => Parsed(MakeNode(g[e], text, pos, c.end, [c]))
         case NoMatch => Parsed(MakeNode(g[e], text, pos, pos, []))
         case OutOfFuel => OutOfFuel)
      case ZeroOrMore(_, m) =>
        assert MembersOf(g[e])[0] == m;
        (match MatchRepeat(g, re, m, text, pos, fuel - 1)
         case Parsed(cs) => Parsed(MakeNode(g[e], text, pos, End(cs, pos), cs))
         case NoMatch => NoMatch
         case OutOfFuel => OutOfFuel)
      case OneOrMore(_, m, min) =>
        assert MembersOf(g[e])[0] == m;
        (match MatchRepeat(g, re, m, text, pos, fuel - 1)
         case Parsed(cs) => if |cs| >= min then Parsed(MakeNode(g[e], text, pos, End(cs, pos), cs)) else NoMatch
         case NoMatch => NoMatch
         case OutOfFuel => OutOfFuel)
      case LazyReference(_, _, _) =>
        NoMatch
  }

  /** Sequence's loop: match every member in turn at the advancing position. */
  function MatchSeq(g: seq<Cell>, re: RegexEngine, ms: seq<Ref>, text: string, pos: nat, fuel: nat)
    : (r: Outcome<seq<Node>>)
    requires Closed(g) && AllBelow(ms, |g|) && pos <= |text|
    ensures r.Parsed? ==> |r.value| == |ms| && Abut(r.value, text, pos)
    decreases fuel, 1, |ms|
  {
    if ms == [] then Parsed([])
    else
      match Match(g, re, ms[0], text, pos, fuel)
      case Parsed(c) =>
        var rest := MatchSeq(g, re, ms[1..], text, c.end, fuel);
        PrependAbut(c, rest, text, pos);
        Prepend([c], rest)
      case NoMatch => NoMatch
      case OutOfFuel => OutOfFuel
  }

  /** OneOf's loop: the first member, in order, that matches at `pos`. */
  function MatchFirst(g: seq<Cell>, re: RegexEngine, ms: seq<Ref>, text: string, pos: nat, fuel: nat)
    : (r: Outcome<Node>)
    requires Closed(g) && AllBelow(ms, |g|) && pos <= |text|
    ensures r.Parsed? ==> Spans(r.value, text, pos)
    decreases fuel, 1, |ms|
  {
    if ms == [] then NoMatch
    else
      match Match(g, re, ms[0], text, pos, fuel)
      case Parsed(c) => Parsed(c)
      case NoMatch => MatchFirst(g, re, ms[1..], text, pos, fuel)
      case OutOfFuel => OutOfFuel
  }

  /**
   * The loop shared by ZeroOrMore and OneOrMore: repeat the member until it
   * fails or matches zero characters; the zero-width match is not kept.
   */
  function MatchRepeat(g: seq<Cell>, re: RegexEngine, m: Ref, text: string, pos: nat, fuel: nat)
    : (r: Outcome<seq<Node>>)
    requires Closed(g) && m < |g| && pos <= |text|
    ensures r != NoMatch
    ensures r.Parsed? ==> Abut(r.value, text, pos)
    ensures r.Parsed? ==> forall i | 0 <= i < |r.value| :: r.value[i].start < r.value[i].end
    decreases fuel, 1, |text| - pos
  {
    match Match(g, re, m, text, pos, fuel)
    case Parsed(c) =>
      if c.end == c.start then Parsed([])
      else
        var rest := MatchRepeat(g, re, m, text, c.end, fuel);
        PrependAbut(c, rest, text, pos);
        Prepend([c], rest)
    case NoMatch => Parsed([])
    case OutOfFuel => OutOfFuel
  }

  /** How a Sequence's node is made from its members' list. */
  lemma SequenceCase(g: seq<Cell>, re: RegexEngine, e: Ref, text: string, pos: nat, fuel: nat)
    requires Closed(g) && e < |g| && pos <= |text| && fuel > 0 && g[e].Sequence?
    ensures AllBelow(g[e].members, |g|)
    ensures var cs := MatchSeq(g, re, g[e].members, text, pos, fuel - 1);
      Match(g, re, e, text, pos, fuel) ==
        if cs.Parsed? then Parsed(MakeNode(g[e], text, pos, End(cs.value, pos), cs.value))
        else if cs.NoMatch? then NoMatch else OutOfFuel
  {
    assert Below(g[e], |g|);
  }

  /** One step of Sequence's loop. */
  lemma SeqStep(g: seq<Cell>, re: RegexEngine, ms: seq<Ref>, text: string, pos: nat, fuel: nat)
    requires Closed(g) && AllBelow(ms, |g|) && pos <= |text| && ms != []
    ensures var c := Match(g, re, ms[0], text, pos, fuel);
      MatchSeq(g, re, ms, text, pos, fuel) ==
        if c.Parsed? then Prepend([c.value], MatchSeq(g, re, ms[1..], text, c.value.end, fuel))
        else if c.NoMatch? then NoMatch else OutOfFuel
  {
  }

  /** How a OneOf's node is made from the first member that does not fail. */
  lemma OneOfCase(g: seq<Cell>, re: RegexEngine, e: Ref, text: string, pos: nat, fuel: nat)
    requires Closed(g) && e < |g| && pos <= |text| && fuel > 0 && g[e].OneOf?
    ensures AllBelow(g[e].members, |g|)
    ensures var c := MatchFirst(g, re, g[e].members, text, pos, fuel - 1);
      Match(g, re, e, text, pos, fuel) ==
        if c.Parsed? then Parsed(MakeNode(g[e], text, pos, c.value.end, [c.value]))
        else if c.NoMatch? then NoMatch else OutOfFuel
  {
    assert Below(g[e], |g|);
  }

  /** How a ZeroOrMore's node is made from the run of its member. */
  lemma ZeroOrMoreCase(g: seq<Cell>, re: RegexEngine, e: Ref, text: string, pos: nat, fuel: nat)
    requires Closed(g) && e < |g| && pos <= |text| && fuel > 0 && g[e].ZeroOrMore?
    ensures g[e].member < |g|
    ensures var cs := MatchRepeat(g, re, g[e].member, text, pos, fuel - 1);
      Match(g, re, e, text, pos, fuel) ==
        if cs.OutOfFuel? then OutOfFuel else Parsed(MakeNode(g[e], text, pos, End(cs.value, pos), cs.value))
  {
    assert Below(g[e], |g|) && MembersOf(g[e])[0] == g[e].member;
  }

  /** How a OneOrMore's node is made from the run of its member, or fails below `min`. */
  lemma OneOrMoreCase(g: seq<Cell>, re: RegexEngine, e: Ref, text: string, pos: nat, fuel: nat)
    requires Closed(g) && e < |g| && pos <= |text| && fuel > 0 && g[e].OneOrMore?
    ensures g[e].member < |g|
    ensures var cs := MatchRepeat(g, re, g[e].member, text, pos, fuel - 1);
      Match(g, re, e, text, pos, fuel) ==
        if cs.OutOfFuel? then OutOfFuel
        else if |cs.value| < g[e].min then NoMatch
        else Parsed(MakeNode(g[e], text, pos, End(cs.value, pos), cs.value))
  {
    assert Below(g[e], |g|) && MembersOf(g[e])[0] == g[e].member;
  }

  /** One step of OneOf's loop. */
  lemma FirstStep(g: seq<Cell>, re: RegexEngine, ms: seq<Ref>, text: string, pos: nat, fuel: nat)
    requires Closed(g) && AllBelow(ms, |g|) && pos <= |text| && ms != []
    ensures var c := Match(g, re, ms[0], text, pos, fuel);
      MatchFirst(g, re, ms, text, pos, fuel) ==
        if c.NoMatch? then MatchFirst(g, re, ms[1..], text, pos, fuel) else c
  {
  }

  /** `Prepend` composes: prepending twice is prepending the concatenation. */
  lemma PrependPrepend(a: seq<Node>, b: seq<Node>, o: Outcome<seq<Node>>)
    ensures Prepend(a, Prepend(b, o)) == Prepend(a + b, o)
  {
    if o.Parsed? {
      assert a + (b + o.value) == (a + b) + o.value;
    }
  }

  /** The dynamically dispatched `parse(for:at:)`: one method per subclass below. */
  method Parse(g: seq<Cell>, re: RegexEngine, e: Ref, text: string, pos: nat, fuel: nat) returns (r: Outcome<Node>)
    requires Closed(g) && e < |g| && pos <= |text|
    ensures r == Match(g, re, e, text, pos, fuel)
    decreases fuel, 1
  {
    if fuel == 0 {
      return OutOfFuel;
    }
    match g[e]
    case Literal(_, _) => r := ParseLiteral(g, re, e, text, pos, fuel);
    case Regex(_, _) => r := ParseRegex(g, re, e, text, pos, fuel);
    case Sequence(_, _) => r := ParseSequence(g, re, e, text, pos, fuel);
    case OneOf(_, _) => r := ParseOneOf(g, re, e, text, pos, fuel);
    case Lookahead(_, _) => r := ParseLookahead(g, re, e, text, pos, fuel);
    case Not(_, _) => r := ParseNot(g, re, e, text, pos, fuel);
    case Optional(_, _) => r := ParseOptional(g, re, e, text, pos, fuel);
    case ZeroOrMore(_, _) => r := ParseZeroOrMore(g, re, e, text, pos, fuel);
    case OneOrMore(_, _, _) => r := ParseOneOrMore(g, re, e, text, pos, fuel);
    case LazyReference(_, _, _) => r := NoMatch;
  }

  /** `Literal.parse`: the literal must be a prefix of the remaining text. */
  method ParseLiteral(g: seq<Cell>, re: RegexEngine, e: Ref, text: string, pos: nat, fuel: nat) returns (r: Outcome<Node>)
    requires Closed(g) && e < |g| && pos <= |text| && fuel > 0 && g[e].Literal?
    ensures r == Match(g, re, e, text, pos, fuel)
  {
    var lit := g[e].literal;
    if lit <= text[pos..] {
      r := Parsed(MakeNode(g[e], text, pos, pos + |lit|, []));
    } else {
      r := NoMatch;
    }
  }

  /** `Regex.parse`: ask the engine for a match of the anchored pattern on the remaining text. */
  method ParseRegex(g: seq<Cell>, re: RegexEngine, e: Ref, text: string, pos: nat, fuel: nat) returns (r: Outcome<Node>)
    requires Closed(g) && e < |g| && pos <= |text| && fuel > 0 && g[e].Regex?
    ensures r == Match(g, re, e, text, pos, fuel)
  {
    var found := re(g[e].pattern, text[pos..]);
    if found.Some? {
      r := Parsed(MakeNode(g[e], text, pos, pos + found.value, []));
    } else {
      r := NoMatch;
    }
  }

  /** `Sequence.parse`: match every member in turn, stopping at the first that does not match. */
  method ParseSequence(g: seq<Cell>, re: RegexEngine, e: Ref, text: string, pos: nat, fuel: nat) returns (r: Outcome<Node>)
    requires Closed(g) && e < |g| && pos <= |text| && fuel > 0 && g[e].Sequence?
    ensures r == Match(g, re, e, text, pos, fuel)
    decreases fuel, 0
  {
    SequenceCase(g, re, e, text, pos, fuel);
    var cs := ParseMembers(g, re, g[e].members, text, pos, fuel - 1);
    r := match cs
      case Parsed(children) => Parsed(MakeNode(g[e], text, pos, End(children, pos), children))
      case NoMatch => NoMatch
      case OutOfFuel => OutOfFuel;
  }

  /** The loop of `Sequence.parse`: every member in turn, each where the last ended. */
  method ParseMembers(g: seq<Cell>, re: RegexEngine, ms: seq<Ref>, text: string, pos: nat, fuel: nat)
    returns (r: Outcome<seq<Node>>)
    requires Closed(g) && AllBelow(ms, |g|) && pos <= |text|
    ensures r == MatchSeq(g, re, ms, text, pos, fuel)
    decreases fuel, 2
  {
    var newPos := pos;
    var children: seq<Node> := [];
    PrependNothing(MatchSeq(g, re, ms, text, pos, fuel));
    for i := 0 to |ms|
      invariant pos <= newPos <= |text| && newPos == End(children, pos)
      invariant MatchSeq(g, re, ms, text, pos, fuel) == Prepend(children, MatchSeq(g, re, ms[i..], text, newPos, fuel))
    {
      assert ms[i..][0] == ms[i] && ms[i..][1..] == ms[i + 1..];
      var c := Parse(g, re, ms[i], text, newPos, fuel);
      SeqStep(g, re, ms[i..], text, newPos, fuel);
      if !c.Parsed? {
        return if c.NoMatch? then NoMatch else OutOfFuel;
      }
      PrependPrepend(children, [c.value], MatchSeq(g, re, ms[i + 1..], text, c.value.end, fuel));
      children := children + [c.value];
      newPos := c.value.end;
    }
    assert ms[|ms|..] == [] && children + [] == children;
    r := Parsed(children);
  }

  /** `OneOf.parse`: try the members in order and wrap the first node. */
  method ParseOneOf(g: seq<Cell>, re: RegexEngine, e: Ref, text: string, pos: nat, fuel: nat) returns (r: Outcome<Node>)
    requires Closed(g) && e < |g| && pos <= |text| && fuel > 0 && g[e].OneOf?
    ensures r == Match(g, re, e, text, pos, fuel)
    decreases fuel, 0
  {
    OneOfCase(g, re, e, text, pos, fuel);
    var c := ParseAlternatives(g, re, g[e].members, text, pos, fuel - 1);
    r := match c
      case Parsed(n) => Parsed(MakeNode(g[e], text, pos, n.end, [n]))
      case NoMatch => NoMatch
      case OutOfFuel => OutOfFuel;
  }

  /** The loop of `OneOf.parse`: the first member that does not fail decides. */
  method ParseAlternatives(g: seq<Cell>, re: RegexEngine, ms: seq<Ref>, text: string, pos: nat, fuel: nat)
    returns (r: Outcome<Node>)
    requires Closed(g) && AllBelow(ms, |g|) && pos <= |text|
    ensures r == MatchFirst(g, re, ms, text, pos, fuel)
    decreases fuel, 2
  {
    for i := 0 to |ms|
      invariant MatchFirst(g, re, ms, text, pos, fuel) == MatchFirst(g, re, ms[i..], text, pos, fuel)
    {
      assert ms[i..][0] == ms[i] && ms[i..][1..] == ms[i + 1..];
      var c := Parse(g, re, ms[i], text, pos, fuel);
      FirstStep(g, re, ms[i..], text, pos, fuel);
      if !c.NoMatch? {
        return c;
      }
    }
    assert ms[|ms|..] == [];
    r := NoMatch;
  }

  /** `Lookahead.parse`: succeed, consuming nothing, where the member matches. */
  method ParseLookahead(g: seq<Cell>, re: RegexEngine, e: Ref, text: string, pos: nat, fuel: nat) returns (r: Outcome<Node>)
    requires Closed(g) && e < |g| && pos <= |text| && fuel > 0 && g[e].Lookahead?
    ensures r == Match(g, re, e, text, pos, fuel)
    decreases fuel, 0
  {
    assert Below(g[e], |g|) && MembersOf(g[e])[0] == g[e].member;
    var c := Parse(g, re, g[e].member, text, pos, fuel - 1);
    r := if c.Parsed? then Parsed(MakeNode(g[e], text, pos, pos, []))
         else if c.NoMatch? then NoMatch else OutOfFuel;
  }

  /** `Not.parse`: succeed, consuming nothing, where the member does not match. */
  method ParseNot(g: seq<Cell>, re: RegexEngine, e: Ref, text: string, pos: nat, fuel: nat) returns (r: Outcome<Node>)
    requires Closed(g) && e < |g| && pos <= |text| && fuel > 0 && g[e].Not?
    ensures r == Match(g, re, e, text, pos, fuel)
    decreases fuel, 0
  {
    assert Below(g[e], |g|) && MembersOf(g[e])[0] == g[e].member;
    var c := Parse(g, re, g[e].member, text, pos, fuel - 1);
    r := if c.Parsed? then NoMatch
         else if c.NoMatch? then Parsed(MakeNode(g[e], text, pos, pos, [])) else OutOfFuel;
  }

  /** `Optional.parse`: the member's node as the only child, or an empty node. */
  method ParseOptional(g: seq<Cell>, re: RegexEngine, e: Ref, text: string, pos: nat, fuel: nat) returns (r: Outcome<Node>)
    requires Closed(g) && e < |g| && pos <= |text| && fuel > 0 && g[e].Optional?
    ensures r == Match(g, re, e, text, pos, fuel)
    decreases fuel, 0
  {
    assert Below(g[e], |g|) && MembersOf(g[e])[0] == g[e].member;
    var c := Parse(g, re, g[e].member, text, pos, fuel - 1);
    r := if c.Parsed? then Parsed(MakeNode(g[e], text, pos, c.value.end, [c.value]))
         else if c.NoMatch? then Parsed(MakeNode(g[e], text, pos, pos, [])) else OutOfFuel;
  }

  /** `ZeroOrMore.parse`: as many non-empty matches of the member as there are. */
  method ParseZeroOrMore(g: seq<Cell>, re: RegexEngine, e: Ref, text: string, pos: nat, fuel: nat) returns (r: Outcome<Node>)
    requires Closed(g) && e < |g| && pos <= |text| && fuel > 0 && g[e].ZeroOrMore?
    ensures r == Match(g, re, e, text, pos, fuel)
    decreases fuel, 0
  {
    assert Below(g[e], |g|) && MembersOf(g[e])[0] == g[e].member;
    var cs := ParseRepeat(g, re, g[e].member, text, pos, fuel - 1);
    r := if cs.Parsed? then Parsed(MakeNode(g[e], text, pos, End(cs.value, pos), cs.value)) else OutOfFuel;
  }

  /** `OneOrMore.parse`: the same loop, failing with fewer than `min` children. */
  method ParseOneOrMore(g: seq<Cell>, re: RegexEngine, e: Ref, text: string, pos: nat, fuel: nat) returns (r: Outcome<Node>)
    requires Closed(g) && e < |g| && pos <= |text| && fuel > 0 && g[e].OneOrMore?
    ensures r == Match(g, re, e, text, pos, fuel)
    decreases fuel, 0
  {
    assert Below(g[e], |g|) && MembersOf(g[e])[0] == g[e].member;
    var cs := ParseRepeat(g, re, g[e].member, text, pos, fuel - 1);
    if cs.OutOfFuel? {
      r := OutOfFuel;
    } else if |cs.value| < g[e].min {
      r := NoMatch;
    } else {
      r := Parsed(MakeNode(g[e], text, pos, End(cs.value, pos), cs.value));
    }
  }

  /**
   * The `while true` loop of ZeroOrMore and OneOrMore: stop when the member
   * does not match or matches zero characters, else keep the node and move on.
   */
  method ParseRepeat(g: seq<Cell>, re: RegexEngine, m: Ref, text: string, pos: nat, fuel: nat)
    returns (r: Outcome<seq<Node>>)
    requires Closed(g) && m < |g| && pos <= |text|
    ensures r == MatchRepeat(g, re, m, text, pos, fuel)
    decreases fuel, 2
  {
    var newPos := pos;
    var children: seq<Node> := [];
    PrependNothing(MatchRepeat(g, re, m, text, pos, fuel));
    while true
      invariant pos <= newPos <= |text| && newPos == End(children, pos)
      invariant MatchRepeat(g, re, m, text, pos, fuel) == Prepend(children, MatchRepeat(g, re, m, text, newPos, fuel))
      decreases |text| - newPos
    {
      var c := Parse(g, re, m, text, newPos, fuel);
      if c.OutOfFuel? {
        return OutOfFuel;
      }
      if c.NoMatch? || c.value.end == c.value.start {
        break;
      }
      PrependPrepend(children, [c.value], MatchRepeat(g, re, m, text, c.value.end, fuel));
      children := children + [c.value];
      newPos := c.value.end;
    }
    assert children + [] == children;
    r := Parsed(children);
  }
}
