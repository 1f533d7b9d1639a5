/**
 * `search_string` of `And` and `MatchFirst` (src/elements/combinators.rs):
 * scan the input left to right and collect the non-overlapping matches.
 * The two Rust bodies are identical, so the model states the scan once for
 * any element.
 *
 * As written, a match that consumes nothing sets `loc` back to itself and
 * the loop never ends (`SearchStepAsWritten`). The model follows the usual
 * scanning convention instead: a zero-width match is not reported and the
 * scan moves on by one position.
 */
module Search {
  import opened Prelude
  import opened Results
  import opened Outcomes
  import opened Engine
  import Agreement

  /** One reported match: where it starts, where it ends, and its tokens. */
  datatype Span = Span(start: nat, end: nat, results: ParseResults)

  /** The matches found, or (model only) no verdict because a `Forward` ran out of fuel. */
  datatype Scanned = Found(spans: seq<Span>) | ScanOutOfFuel

  /** Put already-found matches in front of the rest of a scan. */
  function Prepend(acc: seq<Span>, s: Scanned): (r: Scanned)
    ensures r.Found? <==> s.Found?
    ensures r.Found? ==> |r.spans| == |acc| + |s.spans| && r.spans[..|acc|] == acc && r.spans[|acc|..] == s.spans
  {
    match s
    case Found(spans) => Found(acc + spans)
    case ScanOutOfFuel => ScanOutOfFuel
  }

  /**
   * The reference scan from `loc`: at each position below the end, the
   * `try_match_at` pre-filter, then `parse_impl`; an advancing match is
   * reported and the scan resumes at its end, anything else moves on by one.
   */
  function Scan(g: Grammar, e: Elem, input: string, loc: nat, fuel: nat): Scanned
    requires loc <= |input|
    decreases |input| - loc
  {
    if loc == |input| then Found([])
    else
      var probe := TryMatch(g, e, input, loc, fuel);
      if probe.ProbeOutOfFuel? then ScanOutOfFuel
      else if probe.Miss? then Scan(g, e, input, loc + 1, fuel)
      else
        var r := Parse(g, e, input, loc, fuel);
        if r.OutOfFuel? then ScanOutOfFuel
        else if r.Success? && r.end > loc then Prepend([Span(loc, r.end, r.results)], Scan(g, e, input, r.end, fuel))
        else Scan(g, e, input, loc + 1, fuel)
  }

  /** The same scan without the pre-filter: `parse_impl` alone at each position. */
  function ScanByParse(g: Grammar, e: Elem, input: string, loc: nat, fuel: nat): Scanned
    requires loc <= |input|
    decreases |input| - loc
  {
    if loc == |input| then Found([])
    else
      var r := Parse(g, e, input, loc, fuel);
      if r.OutOfFuel? then ScanOutOfFuel
      else if r.Success? && r.end > loc then Prepend([Span(loc, r.end, r.results)], ScanByParse(g, e, input, r.end, fuel))
      else ScanByParse(g, e, input, loc + 1, fuel)
  }

  lemma PrependAppend(acc: seq<Span>, s: Span, rest: Scanned)
    ensures Prepend(acc, Prepend([s], rest)) == Prepend(acc + [s], rest)
  {
    if rest.Found? {
      assert acc + ([s] + rest.spans) == (acc + [s]) + rest.spans;
    }
  }

  /**
   * `search_string`: the Rust loop, with the one guard it lacks (a match
   * must advance to be reported). It computes the reference scan from 0.
   */
  method SearchString(g: Grammar, e: Elem, input: string, fuel: nat) returns (found: Scanned)
    ensures found == Scan(g, e, input, 0, fuel)
  {
    var acc: seq<Span> := [];
    var loc: nat := 0;
    while loc < |input|
      invariant loc <= |input|
      invariant Scan(g, e, input, 0, fuel) == Prepend(acc, Scan(g, e, input, loc, fuel))
      decreases |input| - loc
    {
      var probe := TryMatch(g, e, input, loc, fuel);
      if probe.ProbeOutOfFuel? {
        return ScanOutOfFuel;
      }
      if probe.Hit? {
        var r := Parse(g, e, input, loc, fuel);
        if r.OutOfFuel? {
          return ScanOutOfFuel;
        }
        if r.Success? && r.end > loc {
          PrependAppend(acc, Span(loc, r.end, r.results), Scan(g, e, input, r.end, fuel));
          acc := acc + [Span(loc, r.end, r.results)];
          loc := r.end;
          continue;
        }
      }
      loc := loc + 1;
    }
    assert acc + [] == acc;
    return Found(acc);
  }

  /** The pre-filter never changes the outcome: it only skips positions `parse_impl` would reject. */
  lemma {:induction false} PrefilterIsRedundant(g: Grammar, e: Elem, input: string, loc: nat, fuel: nat)
    requires loc <= |input|
    ensures Scan(g, e, input, loc, fuel) == ScanByParse(g, e, input, loc, fuel)
    decreases |input| - loc
  {
    if loc < |input| {
      Agreement.TryMatchAgrees(g, e, input, loc, fuel);
      var r := Parse(g, e, input, loc, fuel);
      if r.Success? && r.end > loc {
        PrefilterIsRedundant(g, e, input, r.end, fuel);
      } else if !r.OutOfFuel? {
        PrefilterIsRedundant(g, e, input, loc + 1, fuel);
      }
    }
  }

  /** Every span is a real, advancing match of the element within the input. */
  predicate SpansMatch(g: Grammar, e: Elem, input: string, fuel: nat, spans: seq<Span>) {
    forall i :: 0 <= i < |spans| ==>
      && spans[i].start < spans[i].end <= |input|
      && Parse(g, e, input, spans[i].start, fuel) == Success(spans[i].end, spans[i].results)
  }

  /** The spans start at or after `loc`, in increasing order, without overlapping. */
  predicate InOrder(spans: seq<Span>, loc: nat) {
    && (forall i :: 0 <= i < |spans| ==> loc <= spans[i].start)
    && (forall i :: 0 <= i < |spans| - 1 ==> spans[i].end <= spans[i + 1].start)
  }

  predicate Uncovered(spans: seq<Span>, p: nat) {
    forall i :: 0 <= i < |spans| ==> !(spans[i].start <= p < spans[i].end)
  }

  /** At `p` the element fails or matches without advancing. */
  predicate Stalls(g: Grammar, e: Elem, input: string, p: nat, fuel: nat)
    requires p <= |input|
  {
    var r := Parse(g, e, input, p, fuel);
    r.Failure? || (r.Success? && r.end == p)
  }

  /** Every position from `loc` that no span covers was tried and gave nothing. */
  predicate Complete(g: Grammar, e: Elem, input: string, loc: nat, fuel: nat, spans: seq<Span>) {
    forall p :: loc <= p < |input| && Uncovered(spans, p) ==> Stalls(g, e, input, p, fuel)
  }

  /** Every reported span is a real, advancing match of the element. */
  lemma {:induction false} ScanSpansMatch(g: Grammar, e: Elem, input: string, loc: nat, fuel: nat)
    requires loc <= |input|
    requires Scan(g, e, input, loc, fuel).Found?
    ensures SpansMatch(g, e, input, fuel, Scan(g, e, input, loc, fuel).spans)
    decreases |input| - loc
  {
    if loc < |input| {
      Agreement.TryMatchAgrees(g, e, input, loc, fuel);
      var r := Parse(g, e, input, loc, fuel);
      if r.Success? && r.end > loc {
        ScanSpansMatch(g, e, input, r.end, fuel);
        var spans := Scan(g, e, input, loc, fuel).spans;
        var rest := Scan(g, e, input, r.end, fuel).spans;
        assert spans == [Span(loc, r.end, r.results)] + rest;
        forall i | 1 <= i < |spans|
          ensures spans[i].start < spans[i].end <= |input|
          ensures Parse(g, e, input, spans[i].start, fuel) == Success(spans[i].end, spans[i].results)
        {
          assert spans[i] == rest[i - 1];
        }
      } else {
        ScanSpansMatch(g, e, input, loc + 1, fuel);
      }
    }
  }

  /** The reported spans are in increasing order and do not overlap. */
  lemma {:induction false} ScanInOrder(g: Grammar, e: Elem, input: string, loc: nat, fuel: nat)
    requires loc <= |input|
    requires Scan(g, e, input, loc, fuel).Found?
    ensures InOrder(Scan(g, e, input, loc, fuel).spans, loc)
    decreases |input| - loc
  {
    if loc < |input| {
      Agreement.TryMatchAgrees(g, e, input, loc, fuel);
      var r := Parse(g, e, input, loc, fuel);
      if r.Success? && r.end > loc {
        ScanInOrder(g, e, input, r.end, fuel);
        var spans := Scan(g, e, input, loc, fuel).spans;
        var rest := Scan(g, e, input, r.end, fuel).spans;
        assert spans == [Span(loc, r.end, r.results)] + rest;
        forall i | 1 <= i < |spans| ensures spans[i] == rest[i - 1] && loc <= spans[i].start { }
      } else {
        ScanInOrder(g, e, input, loc + 1, fuel);
      }
    }
  }

  /** No advancing match was passed over at a position outside the reported spans. */
  lemma {:induction false} ScanComplete(g: Grammar, e: Elem, input: string, loc: nat, fuel: nat)
    requires loc <= |input|
    requires Scan(g, e, input, loc, fuel).Found?
    ensures Complete(g, e, input, loc, fuel, Scan(g, e, input, loc, fuel).spans)
    decreases |input| - loc
  {
    if loc < |input| {
      Agreement.TryMatchAgrees(g, e, input, loc, fuel);
      var spans := Scan(g, e, input, loc, fuel).spans;
      var r := Parse(g, e, input, loc, fuel);
      if r.Success? && r.end > loc {
        ScanComplete(g, e, input, r.end, fuel);
        var rest := Scan(g, e, input, r.end, fuel).spans;
        assert spans == [Span(loc, r.end, r.results)] + rest;
        forall p | loc <= p < |input| && Uncovered(spans, p) ensures Stalls(g, e, input, p, fuel) {
          assert !(spans[0].start <= p < spans[0].end);
          assert Uncovered(rest, p) by {
            forall i | 0 <= i < |rest| ensures !(rest[i].start <= p < rest[i].end) {
              assert spans[i + 1] == rest[i];
            }
          }
        }
      } else {
        ScanComplete(g, e, input, loc + 1, fuel);
        assert Stalls(g, e, input, loc, fuel);
      }
    }
  }

  /**
   * What the scan reports: real matches, in order, non-overlapping, and no
   * advancing match was passed over at a position outside them.
   */
  lemma {:induction false} ScanIsSoundAndComplete(g: Grammar, e: Elem, input: string, fuel: nat)
    requires Scan(g, e, input, 0, fuel).Found?
    ensures var spans := Scan(g, e, input, 0, fuel).spans;
      && SpansMatch(g, e, input, fuel, spans)
      && InOrder(spans, 0)
      && Complete(g, e, input, 0, fuel, spans)
  {
    ScanSpansMatch(g, e, input, 0, fuel);
    ScanInOrder(g, e, input, 0, fuel);
    ScanComplete(g, e, input, 0, fuel);
  }

  /** What one iteration of the Rust loop does: move to `next`, reporting `pushed` if any. */
  datatype Step = Continue(next: nat, pushed: Option<ParseResults>) | Done | StepOutOfFuel

  /** One iteration of the loop exactly as written: any successful match is pushed and `loc` set to its end. */
  function SearchStepAsWritten(g: Grammar, e: Elem, input: string, loc: nat, fuel: nat): Step
    requires loc <= |input|
  {
    if loc >= |input| then Done
    else
      var probe := TryMatch(g, e, input, loc, fuel);
      if probe.ProbeOutOfFuel? then StepOutOfFuel
      else if probe.Hit? then
        var r := Parse(g, e, input, loc, fuel);
        if r.OutOfFuel? then StepOutOfFuel
        else if r.Success? then Continue(r.end, Some(r.results))
        else Continue(loc + 1, None)
      else Continue(loc + 1, None)
  }

  /** One iteration of the corrected loop, the step `Scan` and `SearchString` take. */
  function SearchStep(g: Grammar, e: Elem, input: string, loc: nat, fuel: nat): (s: Step)
    requires loc <= |input|
    ensures s.Continue? ==> loc < s.next <= |input|
    ensures s == Done <==> loc == |input|
  {
    if loc >= |input| then Done
    else
      var probe := TryMatch(g, e, input, loc, fuel);
      if probe.ProbeOutOfFuel? then StepOutOfFuel
      else if probe.Hit? then
        var r := Parse(g, e, input, loc, fuel);
        if r.OutOfFuel? then StepOutOfFuel
        else if r.Success? && r.end > loc then Continue(r.end, Some(r.results))
        else Continue(loc + 1, None)
      else Continue(loc + 1, None)
  }

  /**
   * The loop as written stays where it is (and so repeats forever) exactly
   * when the element matches the empty string at `loc`; at every other
   * position it takes the corrected step.
   */
  lemma {:induction false} SearchStepAsWrittenStalls(g: Grammar, e: Elem, input: string, loc: nat, fuel: nat)
    requires loc < |input|
    ensures var r := Parse(g, e, input, loc, fuel);
      var s := SearchStepAsWritten(g, e, input, loc, fuel);
      (s.Continue? && s.next == loc) <==> (r.Success? && r.end == loc)
    ensures var r := Parse(g, e, input, loc, fuel);
      !(r.Success? && r.end == loc) ==>
        SearchStepAsWritten(g, e, input, loc, fuel) == SearchStep(g, e, input, loc, fuel)
  {
    Agreement.TryMatchAgrees(g, e, input, loc, fuel);
  }

  /** A concrete stall: the empty sequence on "a" matches at 0 without advancing. */
  lemma EmptySequenceStallsSearch(g: Grammar)
    ensures SearchStepAsWritten(g, And([]), "a", 0, 0) == Continue(0, Some(New()))
    ensures SearchStep(g, And([]), "a", 0, 0) == Continue(1, None)
  {
  }
}
