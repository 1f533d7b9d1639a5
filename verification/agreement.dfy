/**
 * `try_match_at` is documented as the allocation-free equivalent of
 * `parse_impl` (src/core/parser.rs:13-18). This module proves that every
 * override in the model returns exactly the end position `parse_impl`
 * reaches, and shows the one override of the source that does not:
 * `OneOrMore::try_match_at`.
 */
module Agreement {
  import opened Prelude
  import Results
  import opened Exceptions
  import opened Outcomes
  import opened Engine

  /** For every element, position and fuel, `try_match_at` is the end of `parse_impl`. */
  lemma {:induction false} TryMatchAgrees(g: Grammar, e: Elem, input: string, loc: nat, fuel: nat)
    requires loc <= |input|
    ensures TryMatch(g, e, input, loc, fuel) == EndOf(Parse(g, e, input, loc, fuel))
    ensures TryMatch(g, e, input, loc, fuel) == DefaultTryMatch(g, e, input, loc, fuel)
    decreases fuel, Size(e), 1, 0
  {
    match e
    case And(es) => AllAgree(g, es, input, loc, fuel);
    case MatchFirst(es) => FirstAgree(g, es, input, loc, fuel, None);
    case ZeroOrMore(x) => ManyAgree(g, x, input, loc, fuel);
    case OneOrMore(x) =>
      TryMatchAgrees(g, x, input, loc, fuel);
      var first := Parse(g, x, input, loc, fuel);
      if first.Success? && first.end != loc {
        ManyAgree(g, x, input, first.end, fuel);
      }
    case Optional(x) => TryMatchAgrees(g, x, input, loc, fuel);
    case Exactly(x, n) => TimesAgree(g, x, n, input, loc, fuel);
    case Group(x) => TryMatchAgrees(g, x, input, loc, fuel);
    case Forward(slot) =>
      if Target(g, slot).Some? && fuel > 0 {
        TryMatchAgrees(g, Target(g, slot).value, input, loc, fuel - 1);
      }
    case Literal(_) =>
    case Keyword(_) =>
    case Word(_) =>
    case Regex(_) =>
    case Empty =>
    case NoMatch =>
    case SkipTo(_) =>
    case Suppress(_) =>
    case Combine(_) =>
  }

  lemma {:induction false} AllAgree(g: Grammar, es: seq<Elem>, input: string, loc: nat, fuel: nat)
    requires loc <= |input|
    ensures TryAll(g, es, input, loc, fuel) == EndOf(ParseAll(g, es, input, loc, fuel))
    decreases fuel, SizeAll(es), 2, 0
  {
    if |es| > 0 {
      TryMatchAgrees(g, es[0], input, loc, fuel);
      var first := Parse(g, es[0], input, loc, fuel);
      if first.Success? {
        AllAgree(g, es[1..], input, first.end, fuel);
      }
    }
  }

  lemma {:induction false} FirstAgree(g: Grammar, es: seq<Elem>, input: string, loc: nat, fuel: nat, lastError: Option<ParseException>)
    requires loc <= |input|
    ensures TryFirst(g, es, input, loc, fuel) == EndOf(ParseFirst(g, es, input, loc, fuel, lastError))
    decreases fuel, SizeAll(es), 2, 0
  {
    if |es| > 0 {
      TryMatchAgrees(g, es[0], input, loc, fuel);
      var first := Parse(g, es[0], input, loc, fuel);
      if first.Failure? {
        FirstAgree(g, es[1..], input, loc, fuel, Some(first.error));
      }
    }
  }

  lemma {:induction false} ManyAgree(g: Grammar, x: Elem, input: string, loc: nat, fuel: nat)
    requires loc <= |input|
    ensures TryMany(g, x, input, loc, fuel) == EndOf(ParseMany(g, x, input, loc, fuel))
    decreases fuel, Size(x), 2, |input| - loc
  {
    var step := Parse(g, x, input, loc, fuel);
    var probe := TryMatch(g, x, input, loc, fuel);
    TryMatchAgrees(g, x, input, loc, fuel);
    assert probe == EndOf(step);
    if step.Success? && step.end != loc {
      ManyAgree(g, x, input, step.end, fuel);
      var rest := ParseMany(g, x, input, step.end, fuel);
      assert ParseMany(g, x, input, loc, fuel)
        == (if rest.Success? then Success(rest.end, Results.Extend(step.results, rest.results)) else rest);
      assert TryMany(g, x, input, loc, fuel) == TryMany(g, x, input, step.end, fuel);
    } else {
      assert TryMany(g, x, input, loc, fuel) == EndOf(ParseMany(g, x, input, loc, fuel));
    }
  }

  lemma {:induction false} TimesAgree(g: Grammar, x: Elem, n: nat, input: string, loc: nat, fuel: nat)
    requires loc <= |input|
    ensures TryTimes(g, x, n, input, loc, fuel) == EndOf(ParseTimes(g, x, n, input, loc, fuel))
    decreases fuel, Size(x), 2, n
  {
    if n > 0 {
      TryMatchAgrees(g, x, input, loc, fuel);
      var step := Parse(g, x, input, loc, fuel);
      if step.Success? && step.end != loc {
        TimesAgree(g, x, n - 1, input, step.end, fuel);
      }
    }
  }

  /**
   * `OneOrMore::try_match_at` as written (repetition.rs:81-90): the first
   * match is taken with `?`, whatever its width, and then the loop runs.
   */
  function OneOrMoreTryAsWritten(g: Grammar, x: Elem, input: string, loc: nat, fuel: nat): (p: Probe)
    requires loc <= |input|
  {
    var first := TryMatch(g, x, input, loc, fuel);
    if !first.Hit? then first else TryMany(g, x, input, first.end, fuel)
  }

  /**
   * The as-written probe disagrees with `parse_impl` exactly when the
   * element's first match is zero-width: it then reports a match at `loc`
   * where `parse_impl` fails with "Expected at least one match".
   */
  lemma {:induction false} OneOrMoreTryAsWrittenDisagrees(g: Grammar, x: Elem, input: string, loc: nat, fuel: nat)
    requires loc <= |input|
    ensures OneOrMoreTryAsWritten(g, x, input, loc, fuel) != EndOf(Parse(g, OneOrMore(x), input, loc, fuel))
        <==> Parse(g, x, input, loc, fuel).Success? && Parse(g, x, input, loc, fuel).end == loc
    ensures Parse(g, x, input, loc, fuel).Success? && Parse(g, x, input, loc, fuel).end == loc ==>
      && OneOrMoreTryAsWritten(g, x, input, loc, fuel) == Hit(loc)
      && Parse(g, OneOrMore(x), input, loc, fuel) == Failure(ParseException(loc, AtLeastOneMessage))
  {
    TryMatchAgrees(g, x, input, loc, fuel);
    TryMatchAgrees(g, OneOrMore(x), input, loc, fuel);
  }

  /** `OneOrMore(Empty)` on "": the source's probe says "match at 0", `parse_impl` fails. */
  lemma OneOrMoreOfEmptyDisagrees(g: Grammar)
    ensures OneOrMoreTryAsWritten(g, Empty, "", 0, 0) == Hit(0)
    ensures Parse(g, OneOrMore(Empty), "", 0, 0).Failure?
  {
  }

  /**
   * Elements that consult a child's probe inherit the correction. As
   * written, `Suppress(OneOrMore(Empty))` on "" would see the probe hit at 0
   * and succeed there with no tokens; with the corrected probe it fails.
   */
  lemma {:induction false} SuppressSeesCorrectedProbe(g: Grammar)
    ensures OneOrMoreTryAsWritten(g, Empty, "", 0, 0) == Hit(0)
    ensures TryMatch(g, OneOrMore(Empty), "", 0, 0) == Miss
    ensures Parse(g, Suppress(OneOrMore(Empty)), "", 0, 0) == Failure(ParseException(0, SuppressMessage))
  {
    OneOrMoreOfEmptyDisagrees(g);
    TryMatchAgrees(g, OneOrMore(Empty), "", 0, 0);
  }

  /**
   * The same through a choice: as written, the probe of
   * `MatchFirst([OneOrMore(Empty), Literal("ab")])` on "abc" stops at its
   * first alternative, which hits at 0, so a following `Literal("c")` misses
   * and the search pre-filter skips offset 0; with the corrected probe the
   * sequence hits at 3, as its parse does.
   */
  lemma {:induction false} ChoiceSeesCorrectedProbe(g: Grammar)
    ensures OneOrMoreTryAsWritten(g, Empty, "abc", 0, 0) == Hit(0)
    ensures TryMatch(g, Literal("c"), "abc", 0, 0) == Miss
    ensures TryMatch(g, And([MatchFirst([OneOrMore(Empty), Literal("ab")]), Literal("c")]), "abc", 0, 0) == Hit(3)
  {
    var alt := [OneOrMore(Empty), Literal("ab")];
    var seq2 := [MatchFirst(alt), Literal("c")];
    assert "ab" <= "abc"[0..];
    assert "c" <= "abc"[2..];
    assert !("c" <= "abc"[0..]) by { assert "abc"[0..][0] != 'c'; }
    TryMatchAgrees(g, OneOrMore(Empty), "abc", 0, 0);
    TryMatchAgrees(g, Literal("ab"), "abc", 0, 0);
    TryMatchAgrees(g, Literal("c"), "abc", 0, 0);
    TryMatchAgrees(g, Literal("c"), "abc", 2, 0);
    assert TryMatch(g, OneOrMore(Empty), "abc", 0, 0) == Miss;
    assert TryMatch(g, Literal("ab"), "abc", 0, 0) == Hit(2);
    assert alt[1..] == [Literal("ab")];
    assert TryFirst(g, alt[1..], "abc", 0, 0) == Hit(2);
    assert TryMatch(g, MatchFirst(alt), "abc", 0, 0) == Hit(2);
    assert seq2[1..] == [Literal("c")];
    assert [Literal("c")][1..] == [];
    assert TryAll(g, seq2[1..], "abc", 2, 0) == Hit(3);
  }
}
