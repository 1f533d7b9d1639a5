/**
 * Laws of the repetition elements (src/elements/repetition.rs):
 * `ZeroOrMore`, `OneOrMore`, `Optional` and `Exactly`.
 */
module RepetitionLaws {
  import opened Prelude
  import opened Results
  import opened Exceptions
  import opened Outcomes
  import opened Engine

  /**
   * `ZeroOrMore` stops only where the element fails or matches without
   * advancing: running the element once more at the reported end gives no
   * further progress.
   */
  lemma {:induction false} ZeroOrMoreIsMaximal(g: Grammar, x: Elem, input: string, loc: nat, fuel: nat)
    requires loc <= |input|
    requires Parse(g, ZeroOrMore(x), input, loc, fuel).Success?
    ensures var r := Parse(g, ZeroOrMore(x), input, loc, fuel);
      var next := Parse(g, x, input, r.end, fuel);
      next.Failure? || (next.Success? && next.end == r.end)
    decreases |input| - loc
  {
    var step := Parse(g, x, input, loc, fuel);
    if step.Success? && step.end != loc {
      var rest := Parse(g, ZeroOrMore(x), input, step.end, fuel);
      assert rest.Success?;
      ZeroOrMoreIsMaximal(g, x, input, step.end, fuel);
    }
  }

  /**
   * `ZeroOrMore` never raises, and each advancing iteration is followed by
   * the loop from the new position: the unfolding law of the repetition.
   */
  lemma {:induction false} ZeroOrMoreUnfolds(g: Grammar, x: Elem, input: string, loc: nat, fuel: nat)
    requires loc <= |input|
    ensures !Parse(g, ZeroOrMore(x), input, loc, fuel).Failure?
    ensures var step := Parse(g, x, input, loc, fuel);
      step.Success? && step.end > loc ==>
        Parse(g, ZeroOrMore(x), input, loc, fuel)
          == Parse(g, And([x, ZeroOrMore(x)]), input, loc, fuel)
    ensures var step := Parse(g, x, input, loc, fuel);
      step.Failure? || (step.Success? && step.end == loc) ==>
        Parse(g, ZeroOrMore(x), input, loc, fuel) == Success(loc, New())
  {
    var step := Parse(g, x, input, loc, fuel);
    if step.Success? && step.end > loc {
      var rest := Parse(g, ZeroOrMore(x), input, step.end, fuel);
      assert [x, ZeroOrMore(x)][0] == x;
      assert [x, ZeroOrMore(x)][1..] == [ZeroOrMore(x)];
      assert [ZeroOrMore(x)][0] == ZeroOrMore(x);
      assert [ZeroOrMore(x)][1..] == [];
      if rest.Success? {
        ExtendIdentity(rest.results);
        assert ParseAll(g, [ZeroOrMore(x)], input, step.end, fuel) == Success(rest.end, rest.results);
      } else {
        assert ParseAll(g, [ZeroOrMore(x)], input, step.end, fuel) == rest;
      }
    }
  }

  /**
   * `OneOrMore` fails exactly when the first iteration fails or matches
   * without advancing, and then at `loc` with "Expected at least one match".
   */
  lemma {:induction false} OneOrMoreFailsIff(g: Grammar, x: Elem, input: string, loc: nat, fuel: nat)
    requires loc <= |input|
    ensures var first := Parse(g, x, input, loc, fuel);
      Parse(g, OneOrMore(x), input, loc, fuel).Failure? <==>
        first.Failure? || (first.Success? && first.end == loc)
    ensures Parse(g, OneOrMore(x), input, loc, fuel).Failure? ==>
      Parse(g, OneOrMore(x), input, loc, fuel) == Failure(ParseException(loc, AtLeastOneMessage))
  {
    var first := Parse(g, x, input, loc, fuel);
    if first.Success? && first.end != loc {
      assert !ParseMany(g, x, input, first.end, fuel).Failure?;
    }
  }

  /**
   * A successful `OneOrMore` has advanced, and it agrees with `ZeroOrMore`
   * and with the sequence "one, then zero or more".
   */
  lemma {:induction false} OneOrMoreIsOneThenMany(g: Grammar, x: Elem, input: string, loc: nat, fuel: nat)
    requires loc <= |input|
    requires Parse(g, OneOrMore(x), input, loc, fuel).Success?
    ensures Parse(g, OneOrMore(x), input, loc, fuel).end > loc
    ensures Parse(g, OneOrMore(x), input, loc, fuel) == Parse(g, ZeroOrMore(x), input, loc, fuel)
    ensures Parse(g, OneOrMore(x), input, loc, fuel) == Parse(g, And([x, ZeroOrMore(x)]), input, loc, fuel)
  {
    var first := Parse(g, x, input, loc, fuel);
    assert first.Success? && first.end > loc;
    ZeroOrMoreUnfolds(g, x, input, loc, fuel);
  }

  /**
   * `Optional(x)` is the choice "x, or else nothing": it never raises, it is
   * `x`'s result whenever `x` does not fail, and an empty match at `loc`
   * otherwise.
   */
  lemma {:induction false} OptionalIsChoiceWithEmpty(g: Grammar, x: Elem, input: string, loc: nat, fuel: nat)
    requires loc <= |input|
    ensures Parse(g, Optional(x), input, loc, fuel) == Parse(g, MatchFirst([x, Empty]), input, loc, fuel)
    ensures !Parse(g, Optional(x), input, loc, fuel).Failure?
    ensures Parse(g, x, input, loc, fuel).Failure? ==> Parse(g, Optional(x), input, loc, fuel) == Success(loc, New())
    ensures !Parse(g, x, input, loc, fuel).Failure? ==> Parse(g, Optional(x), input, loc, fuel) == Parse(g, x, input, loc, fuel)
  {
    var inner := Parse(g, x, input, loc, fuel);
    assert [x, Empty][0] == x;
    assert [x, Empty][1..] == [Empty];
    if inner.Failure? {
      assert [Empty][0] == Empty;
      assert ParseFirst(g, [Empty], input, loc, fuel, Some(inner.error)) == Success(loc, New());
    }
  }

  /** `Exactly(x, 0)` matches the empty string without consulting `x`. */
  lemma ExactlyZero(g: Grammar, x: Elem, input: string, loc: nat, fuel: nat)
    requires loc <= |input|
    ensures Parse(g, Exactly(x, 0), input, loc, fuel) == Success(loc, New())
  {
  }

  /** Every iteration of `Exactly` advances, so a success covers at least `n` characters. */
  lemma {:induction false} ExactlyAdvancesEachTime(g: Grammar, x: Elem, n: nat, input: string, loc: nat, fuel: nat)
    requires loc <= |input|
    requires Parse(g, Exactly(x, n), input, loc, fuel).Success?
    ensures Parse(g, Exactly(x, n), input, loc, fuel).end >= loc + n
    decreases n
  {
    if n > 0 {
      var step := Parse(g, x, input, loc, fuel);
      assert step.Success? && step.end > loc;
      ExactlyAdvancesEachTime(g, x, n - 1, input, step.end, fuel);
    }
  }

  /**
   * An iteration that succeeds without advancing stops `Exactly` with the
   * "No progress" error at that iteration's position.
   */
  lemma ExactlyStallFails(g: Grammar, x: Elem, n: nat, input: string, loc: nat, fuel: nat)
    requires loc <= |input| && n > 0
    requires Parse(g, x, input, loc, fuel) .Success? && Parse(g, x, input, loc, fuel).end == loc
    ensures Parse(g, Exactly(x, n), input, loc, fuel) == Failure(ParseException(loc, NoProgressMessage))
  {
  }

  /** `n` more iterations after the outcome `pm` of earlier ones, tokens joined. */
  function TimesThen(g: Grammar, x: Elem, pm: ParseResult, n: nat, input: string, fuel: nat): ParseResult
    requires pm.Success? ==> pm.end <= |input|
  {
    if !pm.Success? then pm
    else
      var pn := ParseTimes(g, x, n, input, pm.end, fuel);
      if pn.Success? then Success(pn.end, Extend(pm.results, pn.results)) else pn
  }

  /**
   * The counted loop splits: `m + n` iterations are `m` iterations and then
   * `n` more from where they ended, their tokens joined.
   */
  lemma {:induction false} TimesAdd(g: Grammar, x: Elem, m: nat, n: nat, input: string, loc: nat, fuel: nat)
    requires loc <= |input|
    ensures ParseTimes(g, x, m + n, input, loc, fuel) == TimesThen(g, x, ParseTimes(g, x, m, input, loc, fuel), n, input, fuel)
    decreases m
  {
    if m == 0 {
      assert m + n == n;
      var pn := ParseTimes(g, x, n, input, loc, fuel);
      if pn.Success? {
        ExtendIdentity(pn.results);
      }
    } else {
      var step := Parse(g, x, input, loc, fuel);
      if step.Success? && step.end != loc {
        TimesAdd(g, x, m - 1, n, input, step.end, fuel);
        TimesAddStep(g, x, m, n, input, loc, fuel);
      }
    }
  }

  /** The inductive step of `TimesAdd`, after one advancing iteration. */
  lemma {:induction false} TimesAddStep(g: Grammar, x: Elem, m: nat, n: nat, input: string, loc: nat, fuel: nat)
    requires loc <= |input| && m > 0
    requires Parse(g, x, input, loc, fuel).Success? && Parse(g, x, input, loc, fuel).end != loc
    requires var e := Parse(g, x, input, loc, fuel).end;
      ParseTimes(g, x, m - 1 + n, input, e, fuel) == TimesThen(g, x, ParseTimes(g, x, m - 1, input, e, fuel), n, input, fuel)
    ensures ParseTimes(g, x, m + n, input, loc, fuel) == TimesThen(g, x, ParseTimes(g, x, m, input, loc, fuel), n, input, fuel)
  {
    var step := Parse(g, x, input, loc, fuel);
    var pm1 := ParseTimes(g, x, m - 1, input, step.end, fuel);
    var rest := ParseTimes(g, x, m + n - 1, input, step.end, fuel);
    assert ParseTimes(g, x, m, input, loc, fuel)
      == if pm1.Success? then Success(pm1.end, Extend(step.results, pm1.results)) else pm1;
    assert ParseTimes(g, x, m + n, input, loc, fuel)
      == if rest.Success? then Success(rest.end, Extend(step.results, rest.results)) else rest;
    if pm1.Success? {
      var pn := ParseTimes(g, x, n, input, pm1.end, fuel);
      if pn.Success? {
        ExtendAssociative(step.results, pm1.results, pn.results);
      }
    }
  }

  /**
   * Counts add: `m + n` repetitions are `m` repetitions followed by `n`,
   * with the same error (or exhausted fuel) as soon as either part stops.
   */
  lemma {:induction false} ExactlyAdd(g: Grammar, x: Elem, m: nat, n: nat, input: string, loc: nat, fuel: nat)
    requires loc <= |input|
    ensures Parse(g, Exactly(x, m + n), input, loc, fuel)
      == Parse(g, And([Exactly(x, m), Exactly(x, n)]), input, loc, fuel)
  {
    TimesAdd(g, x, m, n, input, loc, fuel);
    var pm := Parse(g, Exactly(x, m), input, loc, fuel);
    assert [Exactly(x, m), Exactly(x, n)][0] == Exactly(x, m);
    assert [Exactly(x, m), Exactly(x, n)][1..] == [Exactly(x, n)];
    assert [Exactly(x, n)][0] == Exactly(x, n);
    assert [Exactly(x, n)][1..] == [];
    if pm.Success? {
      var pn := Parse(g, Exactly(x, n), input, pm.end, fuel);
      if pn.Success? {
        ExtendIdentity(pn.results);
      }
      assert ParseAll(g, [Exactly(x, n)], input, pm.end, fuel)
        == if pn.Success? then Success(pn.end, pn.results) else pn;
    }
  }

  /**
   * One repetition is the element itself when it advances; a zero-width
   * match is rejected with "No progress", and an error or exhausted fuel
   * passes through.
   */
  lemma {:induction false} ExactlyOne(g: Grammar, x: Elem, input: string, loc: nat, fuel: nat)
    requires loc <= |input|
    ensures var r := Parse(g, x, input, loc, fuel);
      Parse(g, Exactly(x, 1), input, loc, fuel) ==
        if r.Success? && r.end == loc then Failure(ParseException(loc, NoProgressMessage)) else r
  {
    var r := Parse(g, x, input, loc, fuel);
    if r.Success? && r.end > loc {
      ExtendIdentity(r.results);
      assert ParseTimes(g, x, 0, input, r.end, fuel) == Success(r.end, New());
    }
  }
}
