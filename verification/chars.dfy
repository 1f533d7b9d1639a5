/**
 * Character-class and regular-expression matchers (src/elements/chars.rs)
 * and the `PyWord::new` wiring of src/lib.rs.
 */
module Chars {
  import opened Prelude
  import opened Results
  import opened Exceptions
  import opened Outcomes

  /**
   * A `Word`: the allowed first characters, the allowed following
   * characters, a minimum length and a maximum length (0 = unlimited), and
   * the display name used in error messages.
   */
  datatype WordSpec = WordSpec(initChars: seq<char>, bodyChars: seq<char>, minLen: nat, maxLen: nat, name: string)

  /** "W:(" followed by at most the first eight characters of the init set, then "...)". */
  function WordName(initChars: string): string {
    "W:(" + initChars[..Min(|initChars|, 8)] + "...)"
  }

  /** `Word::new`: body set = init set, at least one character, no upper limit. */
  function WordNew(initChars: string): (w: WordSpec)
    ensures w.initChars == initChars && w.bodyChars == initChars
    ensures w.minLen == 1 && w.maxLen == 0
    ensures w.name == WordName(initChars)
  {
    WordSpec(initChars, initChars, 1, 0, WordName(initChars))
  }

  /** `with_body_chars`: replaces the body set and nothing else. */
  function WithBodyChars(w: WordSpec, body: string): (w': WordSpec)
    ensures w'.bodyChars == body
    ensures w'.initChars == w.initChars && w'.minLen == w.minLen && w'.maxLen == w.maxLen && w'.name == w.name
  {
    w.(bodyChars := body)
  }

  /** `PyWord::new(init, body)`: the body set defaults to the init set. */
  function PyWordNew(initChars: string, bodyChars: Option<string>): (w: WordSpec)
    ensures w.initChars == initChars
    ensures w.bodyChars == bodyChars.GetOr(initChars)
    ensures w.minLen == 1 && w.maxLen == 0
  {
    var word := WordNew(initChars);
    if bodyChars.Some? then WithBodyChars(word, bodyChars.value) else word
  }

  /** The length of the longest run of `body` characters of `input` starting at `p`. */
  function BodyRun(body: seq<char>, input: string, p: nat): (k: nat)
    requires p <= |input|
    ensures p + k <= |input|
    ensures forall i :: p <= i < p + k ==> input[i] in body
    ensures p + k < |input| ==> input[p + k] !in body
    decreases |input| - p
  {
    if p == |input| || input[p] !in body then 0 else 1 + BodyRun(body, input, p + 1)
  }

  /**
   * How many characters a `Word` takes at `loc` once the first character
   * is accepted: the first one plus the body run, cut at `maxLen` when that
   * is set.
   */
  function WordLength(w: WordSpec, input: string, loc: nat): nat
    requires loc < |input|
  {
    var natural := 1 + BodyRun(w.bodyChars, input, loc + 1);
    if w.maxLen > 0 then Min(natural, w.maxLen) else natural
  }

  /**
   * The loop of `Word::parse_impl` (chars.rs:72-81) over the characters after
   * the first one: stop at the first non-body character, or before the
   * character that would exceed `maxLen`.
   */
  method ScanWordLength(w: WordSpec, input: string, loc: nat) returns (matchLen: nat)
    requires loc < |input|
    ensures matchLen == WordLength(w, input, loc)
  {
    matchLen := 1;
    var i := 0;
    while loc + 1 + i < |input|
      invariant loc + 1 + i <= |input|
      invariant matchLen == 1 + i
      invariant forall k :: loc + 1 <= k < loc + 1 + i ==> input[k] in w.bodyChars
      invariant w.maxLen > 0 ==> i + 1 <= w.maxLen
      decreases |input| - i
    {
      var c := input[loc + 1 + i];
      if c !in w.bodyChars {
        break;
      }
      if w.maxLen > 0 && i + 2 > w.maxLen {
        break;
      }
      matchLen := matchLen + 1;
      i := i + 1;
    }
    RunLengthFromWitness(w.bodyChars, input, loc + 1, i);
  }

  /** No run of body characters starting at `p` is longer than the one `BodyRun` reports. */
  lemma RunLengthFromWitness(body: seq<char>, input: string, p: nat, k: nat)
    requires p + k <= |input|
    requires forall i :: p <= i < p + k ==> input[i] in body
    ensures k <= BodyRun(body, input, p)
  {
  }

  /**
   * `Word::parse_impl`: fail unless a first character from the init set is
   * present, take the body run (cut at `maxLen`), and fail if fewer than
   * `minLen` characters were taken.
   */
  function Word(w: WordSpec, input: string, loc: nat): (r: ParseResult)
    ensures r.Success? ==>
      && loc < r.end <= |input|
      && input[loc] in w.initChars
      && (forall i :: loc < i < r.end ==> input[i] in w.bodyChars)
      && (r.end == |input| || input[r.end] !in w.bodyChars || (w.maxLen > 0 && r.end - loc == w.maxLen))
      && r.end - loc >= w.minLen
      && (w.maxLen > 0 ==> r.end - loc <= w.maxLen)
      && r.results.tokens == [input[loc..r.end]]
    ensures !r.Success? ==> r == Failure(ParseException(loc, "Expected " + w.name))
    ensures loc < |input| && input[loc] in w.initChars && w.minLen <= 1 ==> r.Success?
    ensures !r.Success? && w.minLen <= 1 ==> loc >= |input| || input[loc] !in w.initChars
  {
    if loc >= |input| then Failure(ParseException(loc, "Expected " + w.name))
    else if input[loc] !in w.initChars then Failure(ParseException(loc, "Expected " + w.name))
    else
      var matchLen := WordLength(w, input, loc);
      if w.minLen > 0 && matchLen < w.minLen then Failure(ParseException(loc, "Expected " + w.name))
      else Success(loc + matchLen, FromSingle(input[loc..loc + matchLen]))
  }

  /**
   * The regular-expression engine is outside the model: an oracle that, given
   * the anchored pattern and the text from the current position on, returns
   * where in that text the leftmost match starts and how long it is, if
   * there is one. The only thing assumed of it is that the match lies within
   * the text.
   */
  datatype Found = Found(start: nat, len: nat)

  type RegexOracle = f: (string, string) -> Option<Found> | forall p, s :: f(p, s).Some? ==> f(p, s).value.start + f(p, s).value.len <= |s|
    witness NeverMatches

  function NeverMatches(pattern: string, text: string): Option<Found> {
    None
  }

  predicate StartsWithCaret(p: string) {
    |p| > 0 && p[0] == '^'
  }

  /** `RegexMatch::new`'s anchoring: a pattern not starting with '^' becomes "^(?:p)". */
  function Anchor(pattern: string): (a: string)
    ensures StartsWithCaret(a)
    ensures StartsWithCaret(pattern) ==> a == pattern
    ensures !StartsWithCaret(pattern) ==> |a| == |pattern| + 5 && a[..4] == "^(?:" && a[4..|a| - 1] == pattern && a[|a| - 1] == ')'
  {
    if StartsWithCaret(pattern) then pattern else "^(?:" + pattern + ")"
  }

  /** Anchoring an anchored pattern changes nothing. */
  lemma AnchorIdempotent(pattern: string)
    ensures Anchor(Anchor(pattern)) == Anchor(pattern)
  {
  }

  function RegexMessage(pattern: string): string {
    "Expected match for /" + pattern + "/"
  }

  /**
   * `RegexMatch::parse_impl`: search `input[loc..]` with the anchored pattern;
   * the matched text becomes the single token and the end is `loc` plus its
   * length, wherever in the text the match began. Slicing past the end
   * panics in Rust, hence the precondition.
   */
  function Regex(pattern: string, oracle: RegexOracle, input: string, loc: nat): (r: ParseResult)
    requires loc <= |input|
    ensures r.Success? <==> oracle(Anchor(pattern), input[loc..]).Some?
    ensures r.Success? ==>
      var m := oracle(Anchor(pattern), input[loc..]).value;
      && r.end == loc + m.len
      && r.end <= |input|
      && loc + m.start + m.len <= |input|
      && r.results.tokens == [input[loc + m.start..loc + m.start + m.len]]
    ensures r.Success? && oracle(Anchor(pattern), input[loc..]).value.start == 0 ==>
      r.results.tokens == [input[loc..r.end]]
    ensures !r.Success? ==> r == Failure(ParseException(loc, RegexMessage(pattern)))
  {
    var rest := input[loc..];
    match oracle(Anchor(pattern), rest)
    case Some(m) =>
      assert rest[m.start..m.start + m.len] == input[loc + m.start..loc + m.start + m.len];
      Success(loc + m.len, FromSingle(rest[m.start..m.start + m.len]))
    case None => Failure(ParseException(loc, RegexMessage(pattern)))
  }

  /** An engine for the pattern `^a` alternated with `b`: the '^' binds to the first alternative only, so "b" is found anywhere. */
  function CaretAlternation(pattern: string, text: string): Option<Found> {
    if |text| > 0 && text[0] == 'a' then Some(Found(0, 1))
    else if 'b' in text then Some(Found(FirstIndex(text, 'b'), 1))
    else None
  }

  /** The position of the first `c` in `s`. */
  function FirstIndex(s: string, c: char): (i: nat)
    requires c in s
    ensures i < |s| && s[i] == c
    ensures forall j :: 0 <= j < i ==> s[j] != c
  {
    if s[0] == c then 0 else FirstIndex(s[1..], c) + 1
  }

  /**
   * A '^'-led pattern is passed to the engine as it is, anchoring only its
   * first alternative: "^a|b" at offset 0 of "xb" matches the "b" at offset 1,
   * and the result ends at 1 with the token "b", which is not the text
   * from 0 to 1.
   */
  lemma {:induction false} MatchAwayFromLoc()
    ensures Regex("^a|b", CaretAlternation, "xb", 0) == Success(1, FromSingle("b"))
    ensures "xb"[0..1] != "b"
  {
    assert Anchor("^a|b") == "^a|b";
    assert "xb"[0..] == "xb";
    assert FirstIndex("xb", 'b') == 1 by {
      assert "xb"[0] != 'b';
      assert "xb"[1..] == "b";
    }
    assert "xb"[1..2] == "b";
  }
}
