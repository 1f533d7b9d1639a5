/**
 * Worked examples of the model on the inputs of tests/test_combinators.py
 * and tests/test_basic.py, each stated for every grammar state the
 * elements involved do not depend on.
 */
module Scenarios {
  import opened Prelude
  import opened Results
  import opened Exceptions
  import opened Outcomes
  import opened Engine
  import Literals
  import Chars
  import CharSets
  import Forwards
  import Search
  import Agreement
  import Fuel
  import CombinatorLaws

  /** `Literal("hello")` on "hello world", "goodbye world" and "hello". */
  lemma {:induction false} LiteralScenario(g: Grammar)
    ensures ParseString(g, Literal("hello"), "hello world", 0) == Parsed(ParseResults(["hello"]))
    ensures ParseString(g, Literal("hello"), "goodbye world", 0) == Raised(ParseException(0, Literals.LiteralMessage("hello")))
    ensures ParseString(g, Literal("hello"), "hello", 0) == Parsed(ParseResults(["hello"]))
  {
    assert "hello" <= "hello world"[0..];
    assert !("hello" <= "goodbye world"[0..]) by { assert "goodbye world"[0..][0] != 'h'; }
    assert "hello" <= "hello"[0..];
  }

  /** `Word("abc", "xyz")` takes all of "axxx". */
  lemma {:induction false} WordWithBodyScenario(g: Grammar)
    ensures ParseString(g, Word(Chars.PyWordNew("abc", Some("xyz"))), "axxx", 0) == Parsed(ParseResults(["axxx"]))
  {
    var w := Chars.PyWordNew("abc", Some("xyz"));
    assert "axxx"[0] in w.initChars;
    assert Chars.BodyRun(w.bodyChars, "axxx", 4) == 0;
    assert Chars.BodyRun(w.bodyChars, "axxx", 1) == 3;
    assert "axxx"[0..4] == "axxx";
  }

  /**
   * A forward set to `Word(alphas())` (the `<<=` form) parses "hello world"
   * to ["hello"], stopping at the space.
   */
  lemma {:induction false} WordAlphasScenario(g: Grammar)
    ensures var a := Forwards.NewForward(g);
      var g' := Forwards.SetForward(a.grammar, a.slot, Word(Chars.PyWordNew(CharSets.Alphas(), None)));
      ParseString(g', Forward(a.slot), "hello world", 1) == Parsed(ParseResults(["hello"]))
  {
    CharSets.AlphasAreTheLetters();
    ForwardWordOfLetters(g, CharSets.Alphas());
  }

  /** The same through a forward, for any character set holding exactly the letters. */
  lemma {:induction false} ForwardWordOfLetters(g: Grammar, letters: string)
    requires forall c :: c in letters <==> CharSets.IsLetter(c)
    ensures var a := Forwards.NewForward(g);
      var g' := Forwards.SetForward(a.grammar, a.slot, Word(Chars.PyWordNew(letters, None)));
      ParseString(g', Forward(a.slot), "hello world", 1) == Parsed(ParseResults(["hello"]))
  {
    var a := Forwards.NewForward(g);
    var w := Word(Chars.PyWordNew(letters, None));
    var g' := Forwards.SetForward(a.grammar, a.slot, w);
    WordOfLetters(g', letters);
    Forwards.SetForwardDelegates(a.grammar, a.slot, w, "hello world", 0, 0);
  }

  /** The same run for any character set holding exactly the letters. */
  lemma {:induction false} WordOfLetters(g: Grammar, letters: string)
    requires forall c :: c in letters <==> CharSets.IsLetter(c)
    ensures ParseString(g, Word(Chars.PyWordNew(letters, None)), "hello world", 0) == Parsed(ParseResults(["hello"]))
  {
    var a := Chars.PyWordNew(letters, None);
    var s := "hello world";
    assert s[0] in a.initChars && s[1] in a.bodyChars && s[2] in a.bodyChars;
    assert s[3] in a.bodyChars && s[4] in a.bodyChars && s[5] !in a.bodyChars;
    assert Chars.BodyRun(a.bodyChars, s, 5) == 0;
    assert Chars.BodyRun(a.bodyChars, s, 1) == 4;
    assert s[0..5] == "hello";
  }

  /** `Literal("hello") + Literal(" world")` on "hello world", and its mismatch on "hello there". */
  lemma {:induction false} AndScenario(g: Grammar)
    ensures ParseString(g, And([Literal("hello"), Literal(" world")]), "hello world", 0)
      == Parsed(ParseResults(["hello", " world"]))
    ensures ParseString(g, And([Literal("hello"), Literal(" world")]), "hello there", 0)
      == Raised(ParseException(5, Literals.LiteralMessage(" world")))
  {
    assert "hello" <= "hello world"[0..];
    assert " world" <= "hello world"[5..];
    assert "hello" <= "hello there"[0..];
    assert !(" world" <= "hello there"[5..]) by { assert "hello there"[5..][1] != " world"[1]; }
    CombinatorLaws.AndPair(g, Literal("hello"), Literal(" world"), "hello world", 0, 0);
    assert [Literal("hello"), Literal(" world")][1..] == [Literal(" world")];
  }

  /** `Literal("hello") | Literal("goodbye")`: the first alternative wins, else the second is tried. */
  lemma {:induction false} MatchFirstScenario(g: Grammar)
    ensures ParseString(g, MatchFirst([Literal("hello"), Literal("goodbye")]), "hello", 0)
      == Parsed(ParseResults(["hello"]))
    ensures ParseString(g, MatchFirst([Literal("hello"), Literal("goodbye")]), "goodbye", 0)
      == Parsed(ParseResults(["goodbye"]))
  {
    assert "hello" <= "hello"[0..];
    assert "goodbye" <= "goodbye"[0..];
    assert !("hello" <= "goodbye"[0..]) by { assert "goodbye"[0..][0] != "hello"[0]; }
    assert [Literal("hello"), Literal("goodbye")][1..] == [Literal("goodbye")];
  }

  /** `ZeroOrMore(Literal("a"))` takes all four "a"s of "aaaa" and nothing of "bbbb". */
  lemma {:induction false} ZeroOrMoreScenario(g: Grammar)
    ensures ParseString(g, ZeroOrMore(Literal("a")), "aaaa", 0) == Parsed(ParseResults(["a", "a", "a", "a"]))
    ensures ParseString(g, ZeroOrMore(Literal("a")), "bbbb", 0) == Parsed(ParseResults([]))
  {
    var s := "aaaa";
    assert "a" <= s[0..] && "a" <= s[1..] && "a" <= s[2..] && "a" <= s[3..];
    assert !("a" <= s[4..]);
    assert ParseMany(g, Literal("a"), s, 4, 0) == Success(4, New());
    assert ParseMany(g, Literal("a"), s, 3, 0) == Success(4, ParseResults(["a"]));
    assert ParseMany(g, Literal("a"), s, 2, 0) == Success(4, ParseResults(["a", "a"]));
    assert ParseMany(g, Literal("a"), s, 1, 0) == Success(4, ParseResults(["a", "a", "a"]));
    assert !("a" <= "bbbb"[0..]) by { assert "bbbb"[0..][0] != 'a'; }
  }

  /** `OneOrMore(Literal("a"))` raises on "bbbb". */
  lemma {:induction false} OneOrMoreScenario(g: Grammar)
    ensures ParseString(g, OneOrMore(Literal("a")), "bbbb", 0) == Raised(ParseException(0, AtLeastOneMessage))
  {
    assert !("a" <= "bbbb"[0..]) by { assert "bbbb"[0..][0] != 'a'; }
  }

  /** `Optional(Literal("a"))` on "a" and on "b". */
  lemma {:induction false} OptionalScenario(g: Grammar)
    ensures ParseString(g, Optional(Literal("a")), "a", 0) == Parsed(ParseResults(["a"]))
    ensures ParseString(g, Optional(Literal("a")), "b", 0) == Parsed(ParseResults([]))
  {
    assert "a" <= "a"[0..];
    assert !("a" <= "b"[0..]) by { assert "b"[0..][0] != 'a'; }
  }

  /** `Suppress(Literal("hello"))` on "hello" keeps no tokens. */
  lemma {:induction false} SuppressScenario(g: Grammar)
    ensures ParseString(g, Suppress(Literal("hello")), "hello", 0) == Parsed(ParseResults([]))
  {
    assert "hello" <= "hello"[0..];
  }

  /** `Exactly(Literal("a"), n)`: three on "aaa", too few on "aa", and the extra "a"s of "aaaa" left over. */
  lemma {:induction false} ExactlyScenario(g: Grammar)
    ensures ParseString(g, Exactly(Literal("a"), 3), "aaa", 0) == Parsed(ParseResults(["a", "a", "a"]))
    ensures ParseString(g, Exactly(Literal("a"), 3), "aa", 0).Raised?
    ensures Parse(g, Exactly(Literal("a"), 2), "aaaa", 0, 0) == Success(2, ParseResults(["a", "a"]))
  {
    assert "a" <= "aaa"[0..] && "a" <= "aaa"[1..] && "a" <= "aaa"[2..];
    assert ParseTimes(g, Literal("a"), 1, "aaa", 2, 0) == Success(3, ParseResults(["a"]));
    assert ParseTimes(g, Literal("a"), 2, "aaa", 1, 0) == Success(3, ParseResults(["a", "a"]));
    assert "a" <= "aa"[0..] && "a" <= "aa"[1..] && !("a" <= "aa"[2..]);
    assert "a" <= "aaaa"[0..] && "a" <= "aaaa"[1..];
    assert ParseTimes(g, Literal("a"), 1, "aaaa", 1, 0) == Success(2, ParseResults(["a"]));
  }

  /** `Combine(Literal("abc") + Literal("def"))` yields one token on "abcdef" and raises on "abcxyz". */
  lemma {:induction false} CombineScenario(g: Grammar)
    ensures ParseString(g, Combine(And([Literal("abc"), Literal("def")])), "abcdef", 0)
      == Parsed(ParseResults(["abcdef"]))
    ensures ParseString(g, Combine(And([Literal("abc"), Literal("def")])), "abcxyz", 0).Raised?
  {
    assert "abc" <= "abcdef"[0..] && "def" <= "abcdef"[3..];
    CombinatorLaws.AndPair(g, Literal("abc"), Literal("def"), "abcdef", 0, 0);
    assert "abcdef"[0..6] == "abcdef";
    assert "abc" <= "abcxyz"[0..];
    assert !("def" <= "abcxyz"[3..]) by { assert "abcxyz"[3..][0] != 'd'; }
    assert [Literal("abc"), Literal("def")][1..] == [Literal("def")];
  }

  /**
   * A forward set to `Literal("hello")` parses "hello world" to ["hello"]
   * and, in sequence with `Literal(" world")`, to both tokens; an unset
   * one raises.
   */
  lemma {:induction false} ForwardScenario(g: Grammar)
    ensures var a := Forwards.NewForward(g);
      var g' := Forwards.SetForward(a.grammar, a.slot, Literal("hello"));
      && ParseString(g', Forward(a.slot), "hello world", 1) == Parsed(ParseResults(["hello"]))
      && ParseString(g', And([Forward(a.slot), Literal(" world")]), "hello world", 1)
           == Parsed(ParseResults(["hello", " world"]))
      && ParseString(a.grammar, Forward(a.slot), "hello", 1) == Raised(ParseException(0, UnsetForwardMessage))
  {
    var a := Forwards.NewForward(g);
    var g' := Forwards.SetForward(a.grammar, a.slot, Literal("hello"));
    Forwards.SetForwardDelegates(a.grammar, a.slot, Literal("hello"), "hello world", 0, 0);
    assert "hello" <= "hello world"[0..];
    assert " world" <= "hello world"[5..];
    CombinatorLaws.AndPair(g', Forward(a.slot), Literal(" world"), "hello world", 0, 1);
    Forwards.UnsetForwardFails(a.grammar, a.slot, "hello", 0, 1);
  }

  /** The scan of `Exactly(Literal("a"), 3)` on "aaabaaabaa" finds the two runs of three. */
  lemma {:induction false} SearchScenario(g: Grammar)
    ensures Search.Scan(g, Exactly(Literal("a"), 3), "aaabaaabaa", 0, 0)
      == Search.Found([Search.Span(0, 3, ParseResults(["a", "a", "a"])), Search.Span(4, 7, ParseResults(["a", "a", "a"]))])
  {
    var s := "aaabaaabaa";
    var e := Exactly(Literal("a"), 3);
    assert "a" <= s[0..] && "a" <= s[1..] && "a" <= s[2..];
    assert !("a" <= s[3..]) by { assert s[3..][0] == 'b'; }
    assert "a" <= s[4..] && "a" <= s[5..] && "a" <= s[6..];
    assert !("a" <= s[7..]) by { assert s[7..][0] == 'b'; }
    assert "a" <= s[8..] && "a" <= s[9..];
    Agreement.TryMatchAgrees(g, e, s, 0, 0);
    Agreement.TryMatchAgrees(g, e, s, 3, 0);
    Agreement.TryMatchAgrees(g, e, s, 4, 0);
    Agreement.TryMatchAgrees(g, e, s, 7, 0);
    Agreement.TryMatchAgrees(g, e, s, 8, 0);
    Agreement.TryMatchAgrees(g, e, s, 9, 0);
    assert ParseTimes(g, Literal("a"), 1, s, 2, 0) == Success(3, ParseResults(["a"]));
    assert ParseTimes(g, Literal("a"), 2, s, 1, 0) == Success(3, ParseResults(["a", "a"]));
    assert Parse(g, e, s, 0, 0) == Success(3, ParseResults(["a", "a", "a"]));
    assert Parse(g, e, s, 3, 0).Failure?;
    assert ParseTimes(g, Literal("a"), 1, s, 6, 0) == Success(7, ParseResults(["a"]));
    assert ParseTimes(g, Literal("a"), 2, s, 5, 0) == Success(7, ParseResults(["a", "a"]));
    assert Parse(g, e, s, 4, 0) == Success(7, ParseResults(["a", "a", "a"]));
    assert Parse(g, e, s, 7, 0).Failure?;
    assert ParseTimes(g, Literal("a"), 1, s, 10, 0).Failure?;
    assert ParseTimes(g, Literal("a"), 2, s, 9, 0).Failure?;
    assert Parse(g, e, s, 8, 0).Failure?;
    assert ParseTimes(g, Literal("a"), 2, s, 10, 0).Failure?;
    assert Parse(g, e, s, 9, 0).Failure?;
    assert Search.Scan(g, e, s, 10, 0) == Search.Found([]);
    assert Search.Scan(g, e, s, 7, 0) == Search.Found([]);
    assert Search.Scan(g, e, s, 4, 0) == Search.Found([Search.Span(4, 7, ParseResults(["a", "a", "a"]))]);
  }
  /** Balanced parentheses through a forward that refers to itself. */
  function Nested(slot: nat): Elem {
    MatchFirst([And([Literal("("), Forward(slot), Literal(")")]), Empty])
  }

  /**
   * A recursive grammar: with its forward set to `Nested`, "(())" is
   * matched whole, and any larger fuel gives the same tokens.
   */
  lemma {:induction false} RecursiveScenario(g: Grammar, fuel: nat)
    requires fuel >= 3
    ensures var a := Forwards.NewForward(g);
      var g' := Forwards.SetForward(a.grammar, a.slot, Nested(a.slot));
      Parse(g', Forward(a.slot), "(())", 0, fuel) == Success(4, ParseResults(["(", "(", ")", ")"]))
  {
    var a := Forwards.NewForward(g);
    var g' := Forwards.SetForward(a.grammar, a.slot, Nested(a.slot));
    assert Target(g', a.slot) == Some(Nested(a.slot));
    NestedInner(g', a.slot);
    NestedWrap(g', a.slot, "(())", 1, 2, 1, ParseResults([]));
    NestedWrap(g', a.slot, "(())", 0, 3, 2, ParseResults(["(", ")"]));
    Fuel.ParseMonotone(g', Forward(a.slot), "(())", 0, 3, fuel);
  }

  /** Innermost level: at offset 2 of "(())" the forward takes the empty alternative. */
  lemma {:induction false} NestedInner(g: Grammar, slot: nat)
    requires Target(g, slot) == Some(Nested(slot))
    ensures Parse(g, Forward(slot), "(())", 2, 1) == Success(2, ParseResults([]))
  {
    var s := "(())";
    var open := Literal("(");
    var body := And([open, Forward(slot), Literal(")")]);
    assert !("(" <= s[2..]) by { assert s[2..][0] == ')'; }
    assert Parse(g, open, s, 2, 0).Failure?;
    assert Parse(g, body, s, 2, 0).Failure?;
    assert [body, Empty][1] == Empty;
    CombinatorLaws.MatchFirstTakesFirstNonFailure(g, [body, Empty], 1, s, 2, 0);
    assert Parse(g, Nested(slot), s, 2, 0) == Success(2, ParseResults([]));
  }

  /**
   * One level of nesting: if the forward matches `inner` from just after a
   * "(" up to a ")", then with one more unit of fuel it matches from the
   * "(" to past the ")", with "(" and ")" around the inner tokens.
   */
  lemma {:induction false} NestedWrap(g: Grammar, slot: nat, input: string, loc: nat, mid: nat, f: nat, inner: ParseResults)
    requires Target(g, slot) == Some(Nested(slot))
    requires loc < mid < |input| && input[loc] == '(' && input[mid] == ')'
    requires Parse(g, Forward(slot), input, loc + 1, f) == Success(mid, inner)
    ensures Parse(g, Forward(slot), input, loc, f + 1) == Success(mid + 1, ParseResults(["("] + inner.tokens + [")"]))
  {
    var body := And([Literal("("), Forward(slot), Literal(")")]);
    NestedBody(g, slot, input, loc, mid, f, inner);
    assert [body, Empty][0] == body;
    CombinatorLaws.MatchFirstTakesFirstNonFailure(g, [body, Empty], 0, input, loc, f);
  }

  /** The sequence "(" forward ")" around an inner match. */
  lemma {:induction false} NestedBody(g: Grammar, slot: nat, input: string, loc: nat, mid: nat, f: nat, inner: ParseResults)
    requires loc < mid < |input| && input[loc] == '(' && input[mid] == ')'
    requires Parse(g, Forward(slot), input, loc + 1, f) == Success(mid, inner)
    ensures Parse(g, And([Literal("("), Forward(slot), Literal(")")]), input, loc, f)
      == Success(mid + 1, ParseResults(["("] + inner.tokens + [")"]))
  {
    var open := Literal("(");
    var close := Literal(")");
    var fwd := Forward(slot);
    assert "(" <= input[loc..] by { assert input[loc..][0] == '('; }
    assert ")" <= input[mid..] by { assert input[mid..][0] == ')'; }
    assert Parse(g, open, input, loc, f) == Success(loc + 1, FromSingle("("));
    assert Parse(g, close, input, mid, f) == Success(mid + 1, FromSingle(")"));
    CombinatorLaws.AndPair(g, fwd, close, input, loc + 1, f);
    var rest := Parse(g, And([fwd, close]), input, loc + 1, f);
    assert rest == Success(mid + 1, ParseResults(inner.tokens + [")"]));
    assert [open, fwd, close][0] == open && [open, fwd, close][1..] == [fwd, close];
    assert ParseAll(g, [open, fwd, close], input, loc, f) == Success(mid + 1, Extend(FromSingle("("), rest.results));
    assert ["("] + (inner.tokens + [")"]) == ["("] + inner.tokens + [")"];
  }
}
