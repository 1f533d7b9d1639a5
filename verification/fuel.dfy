/**
 * Fuel is a bound of the model, not of the program: once a run finishes
 * within some fuel, every larger amount gives the very same verdict. So a
 * `Success` or `Failure` reported by the model is the one the unbounded
 * recursion of src/elements/forward.rs reaches.
 */
module Fuel {
  import opened Prelude
  import opened Exceptions
  import opened Outcomes
  import opened Engine

  lemma {:induction false} ParseMonotone(g: Grammar, e: Elem, input: string, loc: nat, f: nat, f': nat)
    requires loc <= |input| && f <= f'
    requires !Parse(g, e, input, loc, f).OutOfFuel?
    ensures Parse(g, e, input, loc, f') == Parse(g, e, input, loc, f)
    decreases f, Size(e), 0, 0
  {
    match e
    case And(es) => AllMonotone(g, es, input, loc, f, f');
    case MatchFirst(es) => FirstMonotone(g, es, input, loc, f, f', None);
    case ZeroOrMore(x) => ManyMonotone(g, x, input, loc, f, f');
    case OneOrMore(x) =>
      ParseMonotone(g, x, input, loc, f, f');
      var first := Parse(g, x, input, loc, f);
      if first.Success? && first.end != loc {
        ManyMonotone(g, x, input, first.end, f, f');
      }
    case Optional(x) => ParseMonotone(g, x, input, loc, f, f');
    case Exactly(x, n) => TimesMonotone(g, x, n, input, loc, f, f');
    case SkipTo(t) => ScanMonotone(g, t, input, loc, f, f');
    case Group(x) => ParseMonotone(g, x, input, loc, f, f');
    case Suppress(x) => TryMonotone(g, x, input, loc, f, f');
    case Combine(x) => ParseMonotone(g, x, input, loc, f, f');
    case Forward(slot) =>
      if Target(g, slot).Some? {
        ParseMonotone(g, Target(g, slot).value, input, loc, f - 1, f' - 1);
      }
    case _ =>
  }

  lemma {:induction false} TryMonotone(g: Grammar, e: Elem, input: string, loc: nat, f: nat, f': nat)
    requires loc <= |input| && f <= f'
    requires !TryMatch(g, e, input, loc, f).ProbeOutOfFuel?
    ensures TryMatch(g, e, input, loc, f') == TryMatch(g, e, input, loc, f)
    decreases f, Size(e), 1, 0
  {
    match e
    case And(es) => TryAllMonotone(g, es, input, loc, f, f');
    case MatchFirst(es) => TryFirstMonotone(g, es, input, loc, f, f');
    case ZeroOrMore(x) => TryManyMonotone(g, x, input, loc, f, f');
    case OneOrMore(x) =>
      TryMonotone(g, x, input, loc, f, f');
      var first := TryMatch(g, x, input, loc, f);
      if first.Hit? && first.end != loc {
        TryManyMonotone(g, x, input, first.end, f, f');
      }
    case Optional(x) => TryMonotone(g, x, input, loc, f, f');
    case Exactly(x, n) => TryTimesMonotone(g, x, n, input, loc, f, f');
    case SkipTo(t) => ScanMonotone(g, t, input, loc, f, f');
    case Group(x) => TryMonotone(g, x, input, loc, f, f');
    case Suppress(x) => TryMonotone(g, x, input, loc, f, f');
    case Forward(slot) =>
      if Target(g, slot).Some? {
        TryMonotone(g, Target(g, slot).value, input, loc, f - 1, f' - 1);
      }
    case Empty =>
    case NoMatch =>
    case _ => ParseMonotone(g, e, input, loc, f, f');
  }

  lemma {:induction false} AllMonotone(g: Grammar, es: seq<Elem>, input: string, loc: nat, f: nat, f': nat)
    requires loc <= |input| && f <= f'
    requires !ParseAll(g, es, input, loc, f).OutOfFuel?
    ensures ParseAll(g, es, input, loc, f') == ParseAll(g, es, input, loc, f)
    decreases f, SizeAll(es), 2, 0
  {
    if |es| > 0 {
      ParseMonotone(g, es[0], input, loc, f, f');
      var first := Parse(g, es[0], input, loc, f);
      if first.Success? {
        AllMonotone(g, es[1..], input, first.end, f, f');
      }
    }
  }

  lemma {:induction false} FirstMonotone(g: Grammar, es: seq<Elem>, input: string, loc: nat, f: nat, f': nat, lastError: Option<ParseException>)
    requires loc <= |input| && f <= f'
    requires !ParseFirst(g, es, input, loc, f, lastError).OutOfFuel?
    ensures ParseFirst(g, es, input, loc, f', lastError) == ParseFirst(g, es, input, loc, f, lastError)
    decreases f, SizeAll(es), 2, 0
  {
    if |es| > 0 {
      ParseMonotone(g, es[0], input, loc, f, f');
      var r := Parse(g, es[0], input, loc, f);
      if r.Failure? {
        FirstMonotone(g, es[1..], input, loc, f, f', Some(r.error));
      }
    }
  }

  lemma {:induction false} ManyMonotone(g: Grammar, x: Elem, input: string, loc: nat, f: nat, f': nat)
    requires loc <= |input| && f <= f'
    requires !ParseMany(g, x, input, loc, f).OutOfFuel?
    ensures ParseMany(g, x, input, loc, f') == ParseMany(g, x, input, loc, f)
    decreases f, Size(x), 2, |input| - loc
  {
    ParseMonotone(g, x, input, loc, f, f');
    var step := Parse(g, x, input, loc, f);
    if step.Success? && step.end != loc {
      ManyMonotone(g, x, input, step.end, f, f');
    }
  }

  lemma {:induction false} TimesMonotone(g: Grammar, x: Elem, n: nat, input: string, loc: nat, f: nat, f': nat)
    requires loc <= |input| && f <= f'
    requires !ParseTimes(g, x, n, input, loc, f).OutOfFuel?
    ensures ParseTimes(g, x, n, input, loc, f') == ParseTimes(g, x, n, input, loc, f)
    decreases f, Size(x), 2, n
  {
    if n > 0 {
      ParseMonotone(g, x, input, loc, f, f');
      var step := Parse(g, x, input, loc, f);
      if step.Success? && step.end != loc {
        TimesMonotone(g, x, n - 1, input, step.end, f, f');
      }
    }
  }

  lemma {:induction false} ScanMonotone(g: Grammar, t: Elem, input: string, pos: nat, f: nat, f': nat)
    requires pos <= |input| && f <= f'
    requires !ScanTo(g, t, input, pos, f).ProbeOutOfFuel?
    ensures ScanTo(g, t, input, pos, f') == ScanTo(g, t, input, pos, f)
    decreases f, Size(t), 2, |input| - pos
  {
    TryMonotone(g, t, input, pos, f, f');
    if TryMatch(g, t, input, pos, f).Miss? && pos < |input| {
      ScanMonotone(g, t, input, pos + 1, f, f');
    }
  }

  lemma {:induction false} TryAllMonotone(g: Grammar, es: seq<Elem>, input: string, loc: nat, f: nat, f': nat)
    requires loc <= |input| && f <= f'
    requires !TryAll(g, es, input, loc, f).ProbeOutOfFuel?
    ensures TryAll(g, es, input, loc, f') == TryAll(g, es, input, loc, f)
    decreases f, SizeAll(es), 3, 0
  {
    if |es| > 0 {
      TryMonotone(g, es[0], input, loc, f, f');
      var first := TryMatch(g, es[0], input, loc, f);
      if first.Hit? {
        TryAllMonotone(g, es[1..], input, first.end, f, f');
      }
    }
  }

  lemma {:induction false} TryFirstMonotone(g: Grammar, es: seq<Elem>, input: string, loc: nat, f: nat, f': nat)
    requires loc <= |input| && f <= f'
    requires !TryFirst(g, es, input, loc, f).ProbeOutOfFuel?
    ensures TryFirst(g, es, input, loc, f') == TryFirst(g, es, input, loc, f)
    decreases f, SizeAll(es), 3, 0
  {
    if |es| > 0 {
      TryMonotone(g, es[0], input, loc, f, f');
      if TryMatch(g, es[0], input, loc, f).Miss? {
        TryFirstMonotone(g, es[1..], input, loc, f, f');
      }
    }
  }

  lemma {:induction false} TryManyMonotone(g: Grammar, x: Elem, input: string, pos: nat, f: nat, f': nat)
    requires pos <= |input| && f <= f'
    requires !TryMany(g, x, input, pos, f).ProbeOutOfFuel?
    ensures TryMany(g, x, input, pos, f') == TryMany(g, x, input, pos, f)
    decreases f, Size(x), 3, |input| - pos
  {
    TryMonotone(g, x, input, pos, f, f');
    var step := TryMatch(g, x, input, pos, f);
    if step.Hit? && step.end != pos {
      TryManyMonotone(g, x, input, step.end, f, f');
    }
  }

  lemma {:induction false} TryTimesMonotone(g: Grammar, x: Elem, n: nat, input: string, pos: nat, f: nat, f': nat)
    requires pos <= |input| && f <= f'
    requires !TryTimes(g, x, n, input, pos, f).ProbeOutOfFuel?
    ensures TryTimes(g, x, n, input, pos, f') == TryTimes(g, x, n, input, pos, f)
    decreases f, Size(x), 3, n
  {
    if n > 0 {
      TryMonotone(g, x, input, pos, f, f');
      var step := TryMatch(g, x, input, pos, f);
      if step.Hit? && step.end != pos {
        TryTimesMonotone(g, x, n - 1, input, step.end, f, f');
      }
    }
  }

  /**
   * `parse_string` in particular: a verdict reached with some fuel is the
   * verdict for every larger amount.
   */
  lemma {:induction false} ParseStringMonotone(g: Grammar, e: Elem, input: string, f: nat, f': nat)
    requires f <= f'
    requires !ParseString(g, e, input, f).StringOutOfFuel?
    ensures ParseString(g, e, input, f') == ParseString(g, e, input, f)
  {
    ParseMonotone(g, e, input, 0, f, f');
  }
}
