/**
 * Laws of the structural elements (src/elements/structure.rs): `Empty`,
 * `NoMatch`, `SkipTo`, `Group`, `Suppress` and `Combine`.
 */
module StructureLaws {
  import opened Results
  import opened Exceptions
  import opened Outcomes
  import opened Engine
  import Agreement
  import CombinatorLaws

  /** `Empty` matches everywhere without consuming; `NoMatch` matches nowhere. */
  lemma {:induction false} EmptyAndNoMatch(g: Grammar, input: string, loc: nat, fuel: nat)
    requires loc <= |input|
    ensures Parse(g, Empty, input, loc, fuel) == Success(loc, New())
    ensures TryMatch(g, Empty, input, loc, fuel) == Hit(loc)
    ensures Parse(g, NoMatch, input, loc, fuel) == Failure(ParseException(loc, NeverMatchesMessage))
    ensures TryMatch(g, NoMatch, input, loc, fuel) == Miss
  {
  }

  /**
   * The scan of `SkipTo` stops at the least position from `loc` on where the
   * target's `try_match_at` succeeds.
   */
  lemma {:induction false} ScanToIsLeast(g: Grammar, t: Elem, input: string, loc: nat, pos: nat, fuel: nat)
    requires loc <= pos <= |input|
    ensures ScanTo(g, t, input, loc, fuel) == Hit(pos) <==>
      && TryMatch(g, t, input, pos, fuel).Hit?
      && forall q :: loc <= q < pos ==> TryMatch(g, t, input, q, fuel).Miss?
    decreases pos - loc
  {
    if loc < pos {
      ScanToIsLeast(g, t, input, loc + 1, pos, fuel);
      var probe := TryMatch(g, t, input, loc, fuel);
      if probe.Miss? {
        assert ScanTo(g, t, input, loc, fuel) == ScanTo(g, t, input, loc + 1, fuel);
        if forall q :: loc + 1 <= q < pos ==> TryMatch(g, t, input, q, fuel).Miss? {
          forall q | loc <= q < pos ensures TryMatch(g, t, input, q, fuel).Miss? {
            if q > loc {
              assert loc + 1 <= q < pos;
            }
          }
        }
      } else {
        assert ScanTo(g, t, input, loc, fuel) != Hit(pos);
        assert !TryMatch(g, t, input, loc, fuel).Miss?;
      }
    }
  }

  /** The scan misses exactly when the target misses at every position from `loc` to the end inclusive. */
  lemma {:induction false} ScanToMissesIff(g: Grammar, t: Elem, input: string, loc: nat, fuel: nat)
    requires loc <= |input|
    ensures ScanTo(g, t, input, loc, fuel) == Miss <==>
      forall q :: loc <= q <= |input| ==> TryMatch(g, t, input, q, fuel).Miss?
    decreases |input| - loc
  {
    var probe := TryMatch(g, t, input, loc, fuel);
    if !probe.Miss? {
      assert ScanTo(g, t, input, loc, fuel) != Miss;
      assert !TryMatch(g, t, input, loc, fuel).Miss?;
    } else if loc < |input| {
      ScanToMissesIff(g, t, input, loc + 1, fuel);
      assert ScanTo(g, t, input, loc, fuel) == ScanTo(g, t, input, loc + 1, fuel);
      if ScanTo(g, t, input, loc, fuel) == Miss {
        forall q | loc <= q <= |input| ensures TryMatch(g, t, input, q, fuel).Miss? {
          if q > loc {
            assert loc + 1 <= q <= |input|;
          }
        }
      }
    }
  }

  /** The target's two methods agree position by position on whether it misses. */
  lemma {:induction false} MissesAreFailures(g: Grammar, t: Elem, input: string, lo: nat, hi: nat, fuel: nat)
    requires lo <= hi <= |input| + 1
    ensures (forall q :: lo <= q < hi ==> TryMatch(g, t, input, q, fuel).Miss?)
      <==> (forall q :: lo <= q < hi ==> Parse(g, t, input, q, fuel).Failure?)
  {
    if forall q :: lo <= q < hi ==> TryMatch(g, t, input, q, fuel).Miss? {
      forall q | lo <= q < hi ensures Parse(g, t, input, q, fuel).Failure? {
        Agreement.TryMatchAgrees(g, t, input, q, fuel);
      }
    } else {
      var q :| lo <= q < hi && !TryMatch(g, t, input, q, fuel).Miss?;
      Agreement.TryMatchAgrees(g, t, input, q, fuel);
      assert !Parse(g, t, input, q, fuel).Failure?;
    }
  }

  /**
   * `SkipTo(t)` ends at `pos` exactly when `t` matches at `pos` and at no
   * earlier position from `loc` on; its one token is the skipped text.
   */
  lemma {:induction false} SkipToStopsAtFirstMatch(g: Grammar, t: Elem, input: string, loc: nat, pos: nat, fuel: nat)
    requires loc <= pos <= |input|
    ensures Parse(g, SkipTo(t), input, loc, fuel) == Success(pos, FromSingle(input[loc..pos])) <==>
      && Parse(g, t, input, pos, fuel).Success?
      && forall q :: loc <= q < pos ==> Parse(g, t, input, q, fuel).Failure?
  {
    ScanToIsLeast(g, t, input, loc, pos, fuel);
    Agreement.TryMatchAgrees(g, t, input, pos, fuel);
    MissesAreFailures(g, t, input, loc, pos, fuel);
    var scan := ScanTo(g, t, input, loc, fuel);
    var r := Parse(g, SkipTo(t), input, loc, fuel);
    if scan.Hit? {
      assert r == Success(scan.end, FromSingle(input[loc..scan.end]));
    } else {
      assert !r.Success?;
    }
  }

  /**
   * `SkipTo(t)` fails exactly when `t` fails at every position from `loc`
   * to the end of the input inclusive, and then at `loc` with its own message.
   */
  lemma {:induction false} SkipToFailsIff(g: Grammar, t: Elem, input: string, loc: nat, fuel: nat)
    requires loc <= |input|
    ensures Parse(g, SkipTo(t), input, loc, fuel).Failure? <==>
      forall q :: loc <= q <= |input| ==> Parse(g, t, input, q, fuel).Failure?
    ensures Parse(g, SkipTo(t), input, loc, fuel).Failure? ==>
      Parse(g, SkipTo(t), input, loc, fuel) == Failure(ParseException(loc, SkipToMessage))
  {
    ScanToMissesIff(g, t, input, loc, fuel);
    MissesAreFailures(g, t, input, loc, |input| + 1, fuel);
    var scan := ScanTo(g, t, input, loc, fuel);
    var r := Parse(g, SkipTo(t), input, loc, fuel);
    assert r.Failure? <==> scan.Miss?;
  }

  /**
   * `Suppress(x)` consumes what `x` consumes and keeps no tokens; when `x`
   * fails, `x`'s own error is replaced by "Suppress: no match" at `loc`.
   */
  lemma {:induction false} SuppressDropsTokens(g: Grammar, x: Elem, input: string, loc: nat, fuel: nat)
    requires loc <= |input|
    ensures var inner := Parse(g, x, input, loc, fuel);
      var r := Parse(g, Suppress(x), input, loc, fuel);
      && (r.Success? <==> inner.Success?)
      && (r.Success? ==> r.end == inner.end && r.results == New())
      && (r.Failure? <==> inner.Failure?)
      && (r.Failure? ==> r.error == ParseException(loc, SuppressMessage))
  {
    Agreement.TryMatchAgrees(g, x, input, loc, fuel);
  }

  /**
   * `Combine(x)` consumes what `x` consumes and yields the matched text as
   * one token; `x`'s failure passes through unchanged.
   */
  lemma {:induction false} CombineYieldsMatchedText(g: Grammar, x: Elem, input: string, loc: nat, fuel: nat)
    requires loc <= |input|
    ensures var inner := Parse(g, x, input, loc, fuel);
      var r := Parse(g, Combine(x), input, loc, fuel);
      && (r.Success? <==> inner.Success?)
      && (r.Success? ==> r.end == inner.end && r.results.tokens == [input[loc..inner.end]])
      && (!r.Success? ==> r == inner)
    ensures TryMatch(g, Combine(x), input, loc, fuel) == TryMatch(g, x, input, loc, fuel)
  {
    Agreement.TryMatchAgrees(g, x, input, loc, fuel);
  }

  /**
   * `Combine` over two children yields one token: the text from `loc` to the
   * first child's end followed by the text from there to the second child's
   * end (`Combine(Word(alphas) + "-" + Word(nums))` yields "abc-123").
   */
  lemma {:induction false} CombinePairJoinsText(g: Grammar, x: Elem, y: Elem, input: string, loc: nat, fuel: nat)
    requires loc <= |input|
    requires Parse(g, x, input, loc, fuel).Success?
    requires Parse(g, y, input, Parse(g, x, input, loc, fuel).end, fuel).Success?
    ensures var mid := Parse(g, x, input, loc, fuel).end;
      var end := Parse(g, y, input, mid, fuel).end;
      Parse(g, Combine(And([x, y])), input, loc, fuel) == Success(end, FromSingle(input[loc..mid] + input[mid..end]))
  {
    var rx := Parse(g, x, input, loc, fuel);
    var ry := Parse(g, y, input, rx.end, fuel);
    CombinatorLaws.AndPair(g, x, y, input, loc, fuel);
    assert input[loc..rx.end] + input[rx.end..ry.end] == input[loc..ry.end];
  }

  /**
   * `Group(x)` matches exactly as `x` does, for both methods; the model
   * keeps `x`'s tokens as they are.
   */
  lemma {:induction false} GroupIsTransparent(g: Grammar, x: Elem, input: string, loc: nat, fuel: nat)
    requires loc <= |input|
    ensures EndOf(Parse(g, Group(x), input, loc, fuel)) == TryMatch(g, Group(x), input, loc, fuel)
    ensures Parse(g, Group(x), input, loc, fuel) == Parse(g, x, input, loc, fuel)
  {
    Agreement.TryMatchAgrees(g, x, input, loc, fuel);
  }
}
