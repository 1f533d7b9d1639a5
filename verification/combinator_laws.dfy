/**
 * Laws of sequencing and ordered choice (src/elements/combinators.rs).
 */
module CombinatorLaws {
  import opened Prelude
  import opened Results
  import opened Exceptions
  import opened Outcomes
  import opened Engine

  /**
   * Continue a sequence: after `first`, run `And(es)` from where it ended
   * and append the tokens; a failure (or exhausted fuel) is passed on as is.
   */
  function AndThen(g: Grammar, first: ParseResult, es: seq<Elem>, input: string, fuel: nat): ParseResult
    requires first.Success? ==> first.end <= |input|
  {
    if !first.Success? then first
    else
      var rest := Parse(g, And(es), input, first.end, fuel);
      if rest.Success? then Success(rest.end, Extend(first.results, rest.results)) else rest
  }

  /** An empty sequence succeeds where it starts, with no tokens. */
  lemma AndEmpty(g: Grammar, input: string, loc: nat, fuel: nat)
    requires loc <= |input|
    ensures Parse(g, And([]), input, loc, fuel) == Success(loc, New())
  {
  }

  /**
   * Splitting a sequence anywhere: `And(a + b)` is `And(a)` followed by
   * `And(b)` from `And(a)`'s end. Each child therefore starts where the
   * previous one ended, the tokens are concatenated in order, and the first
   * failure is the result, with nothing after it contributing.
   */
  lemma {:induction false} AndAppend(g: Grammar, a: seq<Elem>, b: seq<Elem>, input: string, loc: nat, fuel: nat)
    requires loc <= |input|
    ensures Parse(g, And(a + b), input, loc, fuel) == AndThen(g, Parse(g, And(a), input, loc, fuel), b, input, fuel)
    decreases |a|
  {
    if |a| == 0 {
      assert a + b == b;
      var rest := Parse(g, And(b), input, loc, fuel);
      if rest.Success? {
        ExtendIdentity(rest.results);
      }
    } else {
      assert (a + b)[0] == a[0];
      assert (a + b)[1..] == a[1..] + b;
      var first := Parse(g, a[0], input, loc, fuel);
      if first.Success? {
        AndAppend(g, a[1..], b, input, first.end, fuel);
        var mid := Parse(g, And(a[1..]), input, first.end, fuel);
        if mid.Success? {
          var rest := Parse(g, And(b), input, mid.end, fuel);
          if rest.Success? {
            ExtendAssociative(first.results, mid.results, rest.results);
          }
        }
      }
    }
  }

  /**
   * If the first `i` children succeed together and child `i` then fails,
   * the sequence fails with exactly that child's error.
   */
  lemma {:induction false} AndFailsWithFirstFailure(g: Grammar, es: seq<Elem>, i: nat, input: string, loc: nat, fuel: nat)
    requires loc <= |input| && i < |es|
    requires Parse(g, And(es[..i]), input, loc, fuel).Success?
    requires Parse(g, es[i], input, Parse(g, And(es[..i]), input, loc, fuel).end, fuel).Failure?
    ensures Parse(g, And(es), input, loc, fuel)
      == Parse(g, es[i], input, Parse(g, And(es[..i]), input, loc, fuel).end, fuel)
  {
    assert es == es[..i] + es[i..];
    AndAppend(g, es[..i], es[i..], input, loc, fuel);
    var mid := Parse(g, And(es[..i]), input, loc, fuel);
    assert es[i..][0] == es[i];
    assert Parse(g, And(es[i..]), input, mid.end, fuel) == ParseAll(g, es[i..], input, mid.end, fuel);
    assert ParseAll(g, es[i..], input, mid.end, fuel) == Parse(g, es[i], input, mid.end, fuel);
  }

  /** Two children: the second starts at the first's end, and the tokens are the two lists joined. */
  lemma {:induction false} AndPair(g: Grammar, x: Elem, y: Elem, input: string, loc: nat, fuel: nat)
    requires loc <= |input|
    requires Parse(g, x, input, loc, fuel).Success?
    requires Parse(g, y, input, Parse(g, x, input, loc, fuel).end, fuel).Success?
    ensures Parse(g, And([x, y]), input, loc, fuel) == Success(
      Parse(g, y, input, Parse(g, x, input, loc, fuel).end, fuel).end,
      ParseResults(Parse(g, x, input, loc, fuel).results.tokens
        + Parse(g, y, input, Parse(g, x, input, loc, fuel).end, fuel).results.tokens))
  {
    var rx := Parse(g, x, input, loc, fuel);
    var ry := Parse(g, y, input, rx.end, fuel);
    assert [x, y][1..] == [y];
    assert [y][1..] == [];
    assert ParseAll(g, [y][1..], input, ry.end, fuel) == Success(ry.end, New());
    assert ParseAll(g, [y], input, rx.end, fuel) == Success(ry.end, Extend(ry.results, New()));
    ExtendIdentity(ry.results);
    assert ParseAll(g, [x, y], input, loc, fuel) == Success(ry.end, Extend(rx.results, ry.results));
  }

  /**
   * `MatchFirst` returns the verdict of the first child that does not fail;
   * children after it play no part.
   */
  lemma {:induction false} MatchFirstTakesFirstNonFailure(g: Grammar, es: seq<Elem>, i: nat, input: string, loc: nat, fuel: nat)
    requires loc <= |input| && i < |es|
    requires forall j :: 0 <= j < i ==> Parse(g, es[j], input, loc, fuel).Failure?
    requires !Parse(g, es[i], input, loc, fuel).Failure?
    ensures Parse(g, MatchFirst(es), input, loc, fuel) == Parse(g, es[i], input, loc, fuel)
  {
    FirstTakesFirstNonFailure(g, es, i, input, loc, fuel, None);
  }

  lemma {:induction false} FirstTakesFirstNonFailure(g: Grammar, es: seq<Elem>, i: nat, input: string, loc: nat, fuel: nat, lastError: Option<ParseException>)
    requires loc <= |input| && i < |es|
    requires forall j :: 0 <= j < i ==> Parse(g, es[j], input, loc, fuel).Failure?
    requires !Parse(g, es[i], input, loc, fuel).Failure?
    ensures ParseFirst(g, es, input, loc, fuel, lastError) == Parse(g, es[i], input, loc, fuel)
    decreases i
  {
    if i > 0 {
      var r := Parse(g, es[0], input, loc, fuel);
      assert r.Failure?;
      forall j | 0 <= j < i - 1 ensures Parse(g, es[1..][j], input, loc, fuel).Failure? {
        assert es[1..][j] == es[j + 1];
      }
      FirstTakesFirstNonFailure(g, es[1..], i - 1, input, loc, fuel, Some(r.error));
      assert es[1..][i - 1] == es[i];
    }
  }

  /**
   * When every child fails, `MatchFirst` fails with the last child's error;
   * with no children it fails at `loc` with "No match found".
   */
  lemma {:induction false} MatchFirstAllFail(g: Grammar, es: seq<Elem>, input: string, loc: nat, fuel: nat)
    requires loc <= |input|
    requires forall j :: 0 <= j < |es| ==> Parse(g, es[j], input, loc, fuel).Failure?
    ensures Parse(g, MatchFirst(es), input, loc, fuel) ==
      if |es| == 0 then Failure(ParseException(loc, NoMatchFoundMessage))
      else Parse(g, es[|es| - 1], input, loc, fuel)
  {
    if |es| > 0 {
      FirstAllFail(g, es, input, loc, fuel, None);
    }
  }

  lemma {:induction false} FirstAllFail(g: Grammar, es: seq<Elem>, input: string, loc: nat, fuel: nat, lastError: Option<ParseException>)
    requires loc <= |input| && |es| > 0
    requires forall j :: 0 <= j < |es| ==> Parse(g, es[j], input, loc, fuel).Failure?
    ensures ParseFirst(g, es, input, loc, fuel, lastError) == Parse(g, es[|es| - 1], input, loc, fuel)
    decreases |es|
  {
    var r := Parse(g, es[0], input, loc, fuel);
    assert r.Failure?;
    if |es| > 1 {
      forall j | 0 <= j < |es| - 1 ensures Parse(g, es[1..][j], input, loc, fuel).Failure? {
        assert es[1..][j] == es[j + 1];
      }
      FirstAllFail(g, es[1..], input, loc, fuel, Some(r.error));
      assert es[1..][|es| - 2] == es[|es| - 1];
    } else {
      assert ParseFirst(g, es[1..], input, loc, fuel, Some(r.error)) == Failure(r.error);
    }
  }
}
