/**
 * Exact-text matchers (src/elements/literals.rs): `Literal` and `Keyword`.
 * The functions here are the corrected definitions used by the engine; the
 * `...AsWritten` functions reproduce the Rust code including its behaviour
 * on an empty pattern.
 */
module Literals {
  import opened Results
  import opened Exceptions
  import opened Outcomes
  import CharSets

  /** The bytes `Keyword::new` marks in its `ident_chars` table. */
  const IdentChars: string := "ABCDEFGHIJKLMNOPQRSTUVWXYZabcdefghijklmnopqrstuvwxyz0123456789_"

  predicate IsIdentChar(c: char) {
    c in IdentChars
  }

  function LiteralMessage(s: string): string {
    "Expected '" + s + "'"
  }

  function KeywordMessage(s: string): string {
    "Expected keyword '" + s + "'"
  }

  /** The identifier table is exactly the letters, digits and underscore. */
  lemma {:induction false} IdentCharsAreWordChars(c: char)
    ensures IsIdentChar(c) <==> CharSets.IsLetter(c) || CharSets.IsDigitChar(c) || c == '_'
  {
    CharSets.AlphanumsAreLettersAndDigits();
    assert IdentChars == CharSets.Alphanums() + "_";
    CharSets.InConcat(CharSets.Alphanums(), "_", c);
  }

  /**
   * `Literal::parse_impl`: length check, first character, then the rest. The
   * first-character test is skipped for an empty pattern (see
   * `LiteralAsWritten` for what the Rust code does instead).
   */
  function Literal(s: string, input: string, loc: nat): (r: ParseResult)
    ensures r.Success? <==> loc <= |input| && s <= input[loc..]
    ensures r.Success? ==> r.end == loc + |s| && r.results.tokens == [s]
    ensures !r.Success? ==> r == Failure(ParseException(loc, LiteralMessage(s)))
  {
    var len := |s|;
    if loc + len > |input| then Failure(ParseException(loc, LiteralMessage(s)))
    else if len > 0 && input[loc] != s[0] then Failure(ParseException(loc, LiteralMessage(s)))
    else if len > 1 && input[loc + 1..loc + len] != s[1..] then Failure(ParseException(loc, LiteralMessage(s)))
    else
      assert len > 0 ==> input[loc..][..len] == [input[loc]] + input[loc + 1..loc + len];
      Success(loc + len, FromSingle(s))
  }

  /**
   * `Keyword::parse_impl`: the literal comparison, then the boundary test on
   * the character right after the match.
   */
  function Keyword(s: string, input: string, loc: nat): (r: ParseResult)
    ensures r.Success? <==>
      && loc <= |input| && s <= input[loc..]
      && (loc + |s| == |input| || !IsIdentChar(input[loc + |s|]))
    ensures r.Success? ==> r.end == loc + |s| && r.results.tokens == [s]
    ensures !r.Success? ==> r == Failure(ParseException(loc, KeywordMessage(s)))
  {
    var endLoc := loc + |s|;
    if endLoc > |input| then Failure(ParseException(loc, KeywordMessage(s)))
    else if |s| > 0 && input[loc] != s[0] then Failure(ParseException(loc, KeywordMessage(s)))
    else if |s| > 1 && input[loc + 1..endLoc] != s[1..] then Failure(ParseException(loc, KeywordMessage(s)))
    else if endLoc < |input| && IsIdentChar(input[endLoc]) then Failure(ParseException(loc, KeywordMessage(s)))
    else
      assert |s| > 0 ==> input[loc..][..|s|] == [input[loc]] + input[loc + 1..endLoc];
      Success(endLoc, FromSingle(s))
  }

  /** A keyword match is a literal match with the same end and tokens. */
  lemma KeywordImpliesLiteral(s: string, input: string, loc: nat)
    ensures Keyword(s, input, loc).Success? ==> Literal(s, input, loc) == Keyword(s, input, loc)
  {
  }

  /** `Keyword("if")` rejects "ifx" although `Literal("if")` accepts it, and accepts "if ". */
  lemma {:induction false} KeywordNeedsBoundary()
    ensures Keyword("if", "ifx", 0).Failure?
    ensures Literal("if", "ifx", 0).Success?
    ensures Keyword("if", "if", 0) == Success(2, FromSingle("if"))
    ensures Keyword("if", "if ", 0).Success?
  {
    assert IsIdentChar("ifx"[2]) by { assert IdentChars[49] == 'x'; }
    assert !IsIdentChar(' ') by { IdentCharsAreWordChars(' '); }
    assert "if" <= "ifx"[0..];
    assert "if" <= "if"[0..];
    assert "if" <= "if "[0..];
  }

  /** What the Rust code can do: return a result, or panic on an out-of-range index. */
  datatype Checked = Returned(result: ParseResult) | IndexPanic

  /**
   * `Literal::parse_impl` exactly as written: `first_char` is byte 0 for an
   * empty pattern, and `input_bytes[loc]` is read even when `loc == len`.
   */
  function LiteralAsWritten(s: string, input: string, loc: nat): Checked {
    var firstChar := if |s| > 0 then s[0] else 0 as char;
    var len := |s|;
    if loc + len > |input| then Returned(Failure(ParseException(loc, LiteralMessage(s))))
    else if loc >= |input| then IndexPanic
    else if input[loc] != firstChar then Returned(Failure(ParseException(loc, LiteralMessage(s))))
    else if len > 1 && input[loc + 1..loc + len] != s[1..] then Returned(Failure(ParseException(loc, LiteralMessage(s))))
    else Returned(Success(loc + len, FromSingle(s)))
  }

  /** `Keyword::parse_impl` exactly as written, with the same empty-pattern read. */
  function KeywordAsWritten(s: string, input: string, loc: nat): Checked {
    var firstChar := if |s| > 0 then s[0] else 0 as char;
    var endLoc := loc + |s|;
    if endLoc > |input| then Returned(Failure(ParseException(loc, KeywordMessage(s))))
    else if loc >= |input| then IndexPanic
    else if input[loc] != firstChar then Returned(Failure(ParseException(loc, KeywordMessage(s))))
    else if |s| > 1 && input[loc + 1..endLoc] != s[1..] then Returned(Failure(ParseException(loc, KeywordMessage(s))))
    else if endLoc < |input| && IsIdentChar(input[endLoc]) then Returned(Failure(ParseException(loc, KeywordMessage(s))))
    else Returned(Success(endLoc, FromSingle(s)))
  }

  /** For every non-empty pattern the Rust code and the corrected definition agree. */
  lemma LiteralAsWrittenAgrees(s: string, input: string, loc: nat)
    requires |s| > 0
    ensures LiteralAsWritten(s, input, loc) == Returned(Literal(s, input, loc))
  {
  }

  lemma KeywordAsWrittenAgrees(s: string, input: string, loc: nat)
    requires |s| > 0
    ensures KeywordAsWritten(s, input, loc) == Returned(Keyword(s, input, loc))
  {
  }

  /**
   * The empty pattern: at the end of the input the Rust code indexes past the
   * end, and elsewhere it only matches a NUL byte, although "" is a prefix of
   * every suffix.
   */
  lemma {:induction false} EmptyPatternDefect()
    ensures LiteralAsWritten("", "", 0) == IndexPanic
    ensures LiteralAsWritten("", "a", 0) == Returned(Failure(ParseException(0, LiteralMessage(""))))
    ensures Literal("", "a", 0) == Success(0, FromSingle(""))
    ensures KeywordAsWritten("", "", 0) == IndexPanic
    ensures Keyword("", "", 0) == Success(0, FromSingle(""))
  {
    assert "" <= "a"[0..];
  }
}
