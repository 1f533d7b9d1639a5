/**
 * `Forward` (src/elements/forward.rs): a late-bound slot that is unset until
 * `set` stores a target. The model keeps all slots in the grammar's arena;
 * a `Forward` element names its slot.
 */
module Forwards {
  import opened Prelude
  import opened Exceptions
  import opened Outcomes
  import opened Engine

  /** The grammar after `Forward::new()`, and the slot of the new forward. */
  datatype Allocated = Allocated(grammar: Grammar, slot: nat)

  /** `Forward::new`: a new, unset slot; the existing slots keep their targets. */
  function NewForward(g: Grammar): (a: Allocated)
    ensures Target(a.grammar, a.slot).None?
    ensures forall s :: s != a.slot ==> Target(a.grammar, s) == Target(g, s)
    ensures a.grammar.oracle == g.oracle
  {
    Allocated(Grammar(g.forwards + [None], g.oracle), |g.forwards|)
  }

  /** `Forward::set`: the slot now points to `p`; every other slot is unchanged. */
  function SetForward(g: Grammar, slot: nat, p: Elem): (g': Grammar)
    requires slot < |g.forwards|
    ensures Target(g', slot) == Some(p)
    ensures forall s :: s != slot ==> Target(g', s) == Target(g, s)
    ensures |g'.forwards| == |g.forwards| && g'.oracle == g.oracle
  {
    g.(forwards := g.forwards[slot := Some(p)])
  }

  /** Setting twice keeps only the second target. */
  lemma {:induction false} SetForwardLastWins(g: Grammar, slot: nat, p: Elem, q: Elem)
    requires slot < |g.forwards|
    ensures SetForward(SetForward(g, slot, p), slot, q) == SetForward(g, slot, q)
  {
    assert g.forwards[slot := Some(p)][slot := Some(q)] == g.forwards[slot := Some(q)];
  }

  /** An unset forward fails at `loc` with "Forward not initialized", and its probe misses. */
  lemma UnsetForwardFails(g: Grammar, slot: nat, input: string, loc: nat, fuel: nat)
    requires loc <= |input|
    requires Target(g, slot).None?
    ensures Parse(g, Forward(slot), input, loc, fuel) == Failure(ParseException(loc, UnsetForwardMessage))
    ensures TryMatch(g, Forward(slot), input, loc, fuel) == Miss
  {
  }

  /** A freshly created forward is unset. */
  lemma {:induction false} NewForwardIsUnset(g: Grammar, input: string, loc: nat, fuel: nat)
    requires loc <= |input|
    ensures Parse(NewForward(g).grammar, Forward(NewForward(g).slot), input, loc, fuel)
      == Failure(ParseException(loc, UnsetForwardMessage))
    ensures TryMatch(NewForward(g).grammar, Forward(NewForward(g).slot), input, loc, fuel) == Miss
  {
    UnsetForwardFails(NewForward(g).grammar, NewForward(g).slot, input, loc, fuel);
  }

  /**
   * Once set to `p`, the forward parses and probes exactly as `p` does at the
   * same position (one unit of fuel pays for the indirection).
   */
  lemma {:induction false} SetForwardDelegates(g: Grammar, slot: nat, p: Elem, input: string, loc: nat, fuel: nat)
    requires slot < |g.forwards|
    requires loc <= |input|
    ensures Parse(SetForward(g, slot, p), Forward(slot), input, loc, fuel + 1)
      == Parse(SetForward(g, slot, p), p, input, loc, fuel)
    ensures TryMatch(SetForward(g, slot, p), Forward(slot), input, loc, fuel + 1)
      == TryMatch(SetForward(g, slot, p), p, input, loc, fuel)
  {
    assert Target(SetForward(g, slot, p), slot) == Some(p);
  }
}
