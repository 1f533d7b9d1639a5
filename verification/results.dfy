/**
 * The token list carried by every successful match (src/core/results.rs).
 * The Rust struct wraps a small-vector of owned strings; the model keeps the
 * same ordered sequence.
 */
module Results {

  datatype ParseResults = ParseResults(tokens: seq<string>)

  /** An empty token list (`ParseResults::new`, via `Default`). */
  function New(): (r: ParseResults)
    ensures |r.tokens| == 0
  {
    ParseResults([])
  }

  /** A token list holding exactly the one token `s`. */
  function FromSingle(s: string): (r: ParseResults)
    ensures |r.tokens| == 1 && r.tokens[0] == s
  {
    ParseResults([s])
  }

  /**
   * `a.extend(b)`: the tokens of `a` followed by those of `b`. Rust mutates
   * `a` in place; the model returns the extended value.
   */
  function Extend(a: ParseResults, b: ParseResults): (r: ParseResults)
    ensures |r.tokens| == |a.tokens| + |b.tokens|
    ensures forall i :: 0 <= i < |a.tokens| ==> r.tokens[i] == a.tokens[i]
    ensures forall j :: 0 <= j < |b.tokens| ==> r.tokens[|a.tokens| + j] == b.tokens[j]
  {
    ParseResults(a.tokens + b.tokens)
  }

  /** `as_list`: an owned copy of the tokens, unchanged and in order. */
  function AsList(r: ParseResults): (l: seq<string>)
    ensures ParseResults(l) == r
  {
    r.tokens
  }

  /** `as_vec`: a borrowed view of the same tokens. */
  function AsVec(r: ParseResults): (l: seq<string>)
    ensures ParseResults(l) == r
  {
    r.tokens
  }

  /** The empty list is a two-sided identity for `Extend`. */
  lemma ExtendIdentity(a: ParseResults)
    ensures Extend(New(), a) == a && Extend(a, New()) == a
  {
    assert [] + a.tokens == a.tokens;
    assert a.tokens + [] == a.tokens;
  }

  /** Extending is associative, so a left-to-right accumulation loop and a right fold agree. */
  lemma ExtendAssociative(a: ParseResults, b: ParseResults, c: ParseResults)
    ensures Extend(Extend(a, b), c) == Extend(a, Extend(b, c))
  {
    assert (a.tokens + b.tokens) + c.tokens == a.tokens + (b.tokens + c.tokens);
  }
}
