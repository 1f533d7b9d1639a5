/**
 * The grammar elements and their matching semantics: the `ParserElement`
 * contract of src/core/parser.rs with `parse_impl` as `Parse` and
 * `try_match_at` as `TryMatch`, for every element of src/elements/.
 *
 * The two are one mutually recursive family: `Suppress` and `SkipTo` parse
 * through their child's `try_match_at`, and `Combine`'s `try_match_at` goes
 * through its own `parse_impl`. Recursion is bounded by the lexicographic
 * measure (fuel, element size, rank, remaining work); fuel is spent only
 * when a `Forward` hands over to its target.
 */
module Engine {
  import opened Prelude
  import opened Results
  import opened Exceptions
  import opened Outcomes
  import Literals
  import Chars

  /** The closed set of element kinds, one constructor per Rust struct. */
  datatype Elem =
    | Literal(text: string)
    | Keyword(text: string)
    | Word(spec: Chars.WordSpec)
    | Regex(pattern: string)
    | And(elements: seq<Elem>)
    | MatchFirst(elements: seq<Elem>)
    | ZeroOrMore(element: Elem)
    | OneOrMore(element: Elem)
    | Optional(element: Elem)
    | Exactly(element: Elem, count: nat)
    | Empty
    | NoMatch
    | SkipTo(target: Elem)
    | Group(element: Elem)
    | Suppress(element: Elem)
    | Combine(element: Elem)
    | Forward(slot: nat)

  /**
   * The shared state elements refer to: one slot per `Forward` (its
   * `RwLock<Option<..>>`, unset until `set`), and the regular-expression
   * engine every `Regex` element consults.
   */
  datatype Grammar = Grammar(forwards: seq<Option<Elem>>, oracle: Chars.RegexOracle)

  /** The element a `Forward` currently points to; an unknown slot is unset. */
  function Target(g: Grammar, slot: nat): Option<Elem> {
    if slot < |g.forwards| then g.forwards[slot] else None
  }

  function Size(e: Elem): (n: nat)
    ensures n >= 1
  {
    match e
    case And(es) => 1 + SizeAll(es)
    case MatchFirst(es) => 1 + SizeAll(es)
    case ZeroOrMore(x) => 1 + Size(x)
    case OneOrMore(x) => 1 + Size(x)
    case Optional(x) => 1 + Size(x)
    case Exactly(x, _) => 1 + Size(x)
    case SkipTo(x) => 1 + Size(x)
    case Group(x) => 1 + Size(x)
    case Suppress(x) => 1 + Size(x)
    case Combine(x) => 1 + Size(x)
    case _ => 1
  }

  function SizeAll(es: seq<Elem>): nat {
    if |es| == 0 then 0 else Size(es[0]) + SizeAll(es[1..])
  }

  const AtLeastOneMessage: string := "Expected at least one match"
  const NoProgressMessage: string := "No progress in Exactly"
  const NoMatchFoundMessage: string := "No match found"
  const NeverMatchesMessage: string := "NoMatch will never match"
  const SkipToMessage: string := "SkipTo: target not found"
  const SuppressMessage: string := "Suppress: no match"
  const UnsetForwardMessage: string := "Forward not initialized"

  /**
   * `parse_impl` of every element. A success never ends before `loc` nor
   * after the input.
   */
  function Parse(g: Grammar, e: Elem, input: string, loc: nat, fuel: nat): (r: ParseResult)
    requires loc <= |input|
    ensures r.Success? ==> loc <= r.end <= |input|
    decreases fuel, Size(e), 0, 0
  {
    match e
    case Literal(s) => Literals.Literal(s, input, loc)
    case Keyword(s) => Literals.Keyword(s, input, loc)
    case Word(w) => Chars.Word(w, input, loc)
    case Regex(p) => Chars.Regex(p, g.oracle, input, loc)
    case And(es) => ParseAll(g, es, input, loc, fuel)
    case MatchFirst(es) => ParseFirst(g, es, input, loc, fuel, None)
    case ZeroOrMore(x) => ParseMany(g, x, input, loc, fuel)
    case OneOrMore(x) =>
      var first := Parse(g, x, input, loc, fuel);
      if first.OutOfFuel? then OutOfFuel
      else if first.Failure? || first.end == loc then Failure(ParseException(loc, AtLeastOneMessage))
      else
        var more := ParseMany(g, x, input, first.end, fuel);
        if more.Success? then Success(more.end, Extend(first.results, more.results)) else more
    case Optional(x) =>
      var inner := Parse(g, x, input, loc, fuel);
      if inner.Failure? then Success(loc, New()) else inner
    case Exactly(x, n) => ParseTimes(g, x, n, input, loc, fuel)
    case Empty => Success(loc, New())
    case NoMatch => Failure(ParseException(loc, NeverMatchesMessage))
    case SkipTo(t) =>
      (match ScanTo(g, t, input, loc, fuel)
       case Hit(pos) => Success(pos, FromSingle(input[loc..pos]))
       case Miss => Failure(ParseException(loc, SkipToMessage))
       case ProbeOutOfFuel => OutOfFuel)
    case Group(x) => Parse(g, x, input, loc, fuel)
    case Suppress(x) =>
      (match TryMatch(g, x, input, loc, fuel)
       case Hit(end) => Success(end, New())
       case Miss => Failure(ParseException(loc, SuppressMessage))
       case ProbeOutOfFuel => OutOfFuel)
    case Combine(x) =>
      var inner := Parse(g, x, input, loc, fuel);
      if inner.Success? then Success(inner.end, FromSingle(input[loc..inner.end])) else inner
    case Forward(slot) =>
      match Target(g, slot)
      case None => Failure(ParseException(loc, UnsetForwardMessage))
      case Some(p) => if fuel == 0 then OutOfFuel else Parse(g, p, input, loc, fuel - 1)
  }

  /** The trait's default `try_match_at`: run `parse_impl` on a fresh context and keep the end. */
  function DefaultTryMatch(g: Grammar, e: Elem, input: string, loc: nat, fuel: nat): (p: Probe)
    requires loc <= |input|
    ensures p.Hit? ==> loc <= p.end <= |input|
    decreases fuel, Size(e), 0, 1
  {
    EndOf(Parse(g, e, input, loc, fuel))
  }

  /**
   * `try_match_at`: the default for the primitives, and each element's own
   * override otherwise. `OneOrMore` here rejects a zero-width first match,
   * as its `parse_impl` does (see `Agreement.OneOrMoreTryAsWritten`).
   */
  function TryMatch(g: Grammar, e: Elem, input: string, loc: nat, fuel: nat): (p: Probe)
    requires loc <= |input|
    ensures p.Hit? ==> loc <= p.end <= |input|
    decreases fuel, Size(e), 1, 0
  {
    match e
    case Literal(_) => DefaultTryMatch(g, e, input, loc, fuel)
    case Keyword(_) => DefaultTryMatch(g, e, input, loc, fuel)
    case Word(_) => DefaultTryMatch(g, e, input, loc, fuel)
    case Regex(_) => DefaultTryMatch(g, e, input, loc, fuel)
    case And(es) => TryAll(g, es, input, loc, fuel)
    case MatchFirst(es) => TryFirst(g, es, input, loc, fuel)
    case ZeroOrMore(x) => TryMany(g, x, input, loc, fuel)
    case OneOrMore(x) =>
      var first := TryMatch(g, x, input, loc, fuel);
      if !first.Hit? then first
      else if first.end == loc then Miss
      else TryMany(g, x, input, first.end, fuel)
    case Optional(x) =>
      var inner := TryMatch(g, x, input, loc, fuel);
      if inner.Miss? then Hit(loc) else inner
    case Exactly(x, n) => TryTimes(g, x, n, input, loc, fuel)
    case Empty => Hit(loc)
    case NoMatch => Miss
    case SkipTo(t) => ScanTo(g, t, input, loc, fuel)
    case Group(x) => TryMatch(g, x, input, loc, fuel)
    case Suppress(x) => TryMatch(g, x, input, loc, fuel)
    case Combine(_) => DefaultTryMatch(g, e, input, loc, fuel)
    case Forward(slot) =>
      match Target(g, slot)
      case None => Miss
      case Some(p) => if fuel == 0 then ProbeOutOfFuel else TryMatch(g, p, input, loc, fuel - 1)
  }

  /** The loop of `And::parse_impl`: thread the position, collect tokens, stop at the first error. */
  function ParseAll(g: Grammar, es: seq<Elem>, input: string, loc: nat, fuel: nat): (r: ParseResult)
    requires loc <= |input|
    ensures r.Success? ==> loc <= r.end <= |input|
    decreases fuel, SizeAll(es), 2, 0
  {
    if |es| == 0 then Success(loc, New())
    else
      var first := Parse(g, es[0], input, loc, fuel);
      if !first.Success? then first
      else
        var rest := ParseAll(g, es[1..], input, first.end, fuel);
        if rest.Success? then Success(rest.end, Extend(first.results, rest.results)) else rest
  }

  /** The loop of `MatchFirst::parse_impl`: the first success, else the last error seen. */
  function ParseFirst(g: Grammar, es: seq<Elem>, input: string, loc: nat, fuel: nat, lastError: Option<ParseException>): (r: ParseResult)
    requires loc <= |input|
    ensures r.Success? ==> loc <= r.end <= |input|
    decreases fuel, SizeAll(es), 2, 0
  {
    if |es| == 0 then Failure(lastError.GetOr(ParseException(loc, NoMatchFoundMessage)))
    else
      var r := Parse(g, es[0], input, loc, fuel);
      if r.Failure? then ParseFirst(g, es[1..], input, loc, fuel, Some(r.error)) else r
  }

  /** The loop of `ZeroOrMore::parse_impl`: repeat while the element matches and advances. */
  function ParseMany(g: Grammar, x: Elem, input: string, loc: nat, fuel: nat): (r: ParseResult)
    requires loc <= |input|
    ensures !r.Failure?
    ensures r.Success? ==> loc <= r.end <= |input|
    decreases fuel, Size(x), 2, |input| - loc
  {
    var step := Parse(g, x, input, loc, fuel);
    if step.OutOfFuel? then OutOfFuel
    else if step.Failure? || step.end == loc then Success(loc, New())
    else
      var rest := ParseMany(g, x, input, step.end, fuel);
      if rest.Success? then Success(rest.end, Extend(step.results, rest.results)) else rest
  }

  /** The loop of `Exactly::parse_impl`: `n` more iterations, each of which must advance. */
  function ParseTimes(g: Grammar, x: Elem, n: nat, input: string, loc: nat, fuel: nat): (r: ParseResult)
    requires loc <= |input|
    ensures r.Success? ==> loc <= r.end <= |input|
    decreases fuel, Size(x), 2, n
  {
    if n == 0 then Success(loc, New())
    else
      var step := Parse(g, x, input, loc, fuel);
      if !step.Success? then step
      else if step.end == loc then Failure(ParseException(loc, NoProgressMessage))
      else
        var rest := ParseTimes(g, x, n - 1, input, step.end, fuel);
        if rest.Success? then Success(rest.end, Extend(step.results, rest.results)) else rest
  }

  /** The scan shared by both methods of `SkipTo`: the first `pos` at which the target matches. */
  function ScanTo(g: Grammar, t: Elem, input: string, pos: nat, fuel: nat): (p: Probe)
    requires pos <= |input|
    ensures p.Hit? ==> pos <= p.end <= |input|
    decreases fuel, Size(t), 2, |input| - pos
  {
    var probe := TryMatch(g, t, input, pos, fuel);
    if probe.Hit? then Hit(pos)
    else if probe.ProbeOutOfFuel? then ProbeOutOfFuel
    else if pos == |input| then Miss
    else ScanTo(g, t, input, pos + 1, fuel)
  }

  /** `And::try_match_at`. */
  function TryAll(g: Grammar, es: seq<Elem>, input: string, loc: nat, fuel: nat): (p: Probe)
    requires loc <= |input|
    ensures p.Hit? ==> loc <= p.end <= |input|
    decreases fuel, SizeAll(es), 3, 0
  {
    if |es| == 0 then Hit(loc)
    else
      var first := TryMatch(g, es[0], input, loc, fuel);
      if !first.Hit? then first else TryAll(g, es[1..], input, first.end, fuel)
  }

  /** `MatchFirst::try_match_at`. */
  function TryFirst(g: Grammar, es: seq<Elem>, input: string, loc: nat, fuel: nat): (p: Probe)
    requires loc <= |input|
    ensures p.Hit? ==> loc <= p.end <= |input|
    decreases fuel, SizeAll(es), 3, 0
  {
    if |es| == 0 then Miss
    else
      var first := TryMatch(g, es[0], input, loc, fuel);
      if first.Miss? then TryFirst(g, es[1..], input, loc, fuel) else first
  }

  /** The loop of `ZeroOrMore::try_match_at` (and of `OneOrMore`'s after its first match). */
  function TryMany(g: Grammar, x: Elem, input: string, pos: nat, fuel: nat): (p: Probe)
    requires pos <= |input|
    ensures p.Hit? ==> pos <= p.end <= |input|
    ensures !p.Miss?
    decreases fuel, Size(x), 3, |input| - pos
  {
    var step := TryMatch(g, x, input, pos, fuel);
    if step.ProbeOutOfFuel? then ProbeOutOfFuel
    else if step.Miss? || step.end == pos then Hit(pos)
    else TryMany(g, x, input, step.end, fuel)
  }

  /** The loop of `Exactly::try_match_at`. */
  function TryTimes(g: Grammar, x: Elem, n: nat, input: string, pos: nat, fuel: nat): (p: Probe)
    requires pos <= |input|
    ensures p.Hit? ==> pos <= p.end <= |input|
    decreases fuel, Size(x), 3, n
  {
    if n == 0 then Hit(pos)
    else
      var step := TryMatch(g, x, input, pos, fuel);
      if !step.Hit? then step
      else if step.end == pos then Miss
      else TryTimes(g, x, n - 1, input, step.end, fuel)
  }

  /** What `parse_string` hands back: the tokens, or the error, or (model only) no verdict. */
  datatype StringResult = Parsed(results: ParseResults) | Raised(error: ParseException) | StringOutOfFuel

  /**
   * `parse_string`: parse from offset 0 and keep the tokens; the input need
   * not be consumed to its end.
   */
  function ParseString(g: Grammar, e: Elem, input: string, fuel: nat): (r: StringResult)
    ensures r.Parsed? <==> Parse(g, e, input, 0, fuel).Success?
    ensures r.Parsed? ==> r.results == Parse(g, e, input, 0, fuel).results
    ensures r.Raised? <==> Parse(g, e, input, 0, fuel).Failure?
    ensures r.Raised? ==> r.error == Parse(g, e, input, 0, fuel).error
  {
    match Parse(g, e, input, 0, fuel)
    case Success(_, results) => Parsed(results)
    case Failure(error) => Raised(error)
    case OutOfFuel => StringOutOfFuel
  }
}
