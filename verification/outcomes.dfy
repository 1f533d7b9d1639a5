/**
 * What one match attempt returns (src/core/parser.rs:5-6 and the
 * `try_match_at` signature), extended with the model's fuel outcome.
 */
module Outcomes {
  import opened Results
  import opened Exceptions

  /**
   * `ParseResult`: an end offset and the tokens, or the failure. `OutOfFuel`
   * is the model's own third outcome: the attempt needed more `Forward`
   * indirections than the fuel allowed (where the program itself would
   * recurse without bound).
   */
  datatype ParseResult =
    | Success(end: nat, results: ParseResults)
    | Failure(error: ParseException)
    | OutOfFuel

  /** The `Option<usize>` of `try_match_at`, with the same fuel outcome. */
  datatype Probe = Hit(end: nat) | Miss | ProbeOutOfFuel

  /** `.map(|(end, _)| end).ok()`: keep the end offset, forget tokens and error. */
  function EndOf(r: ParseResult): (p: Probe)
    ensures p.Hit? <==> r.Success?
    ensures p.Hit? ==> p.end == r.end
    ensures p.ProbeOutOfFuel? <==> r.OutOfFuel?
  {
    match r
    case Success(end, _) => Hit(end)
    case Failure(_) => Miss
    case OutOfFuel => ProbeOutOfFuel
  }
}
