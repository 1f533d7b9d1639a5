/**
 * The two error values of the engine (src/core/exceptions.rs) and their
 * `Display` renderings, together with a reader that recovers an exception
 * from its rendering.
 */
module Exceptions {
  import opened Prelude
  import opened Decimal

  /** A recoverable match failure: where it happened and what was expected. */
  datatype ParseException = ParseException(loc: nat, msg: string)

  /** The fatal variant; no element of the engine raises it. */
  datatype ParseFatalException = ParseFatalException(loc: nat, msg: string)

  const ParseExceptionHead: string := "ParseException"
  const ParseFatalExceptionHead: string := "ParseFatalException"

  /** `ParseException::new(loc, msg)` stores both arguments unchanged. */
  function NewParseException(loc: nat, msg: string): (e: ParseException)
    ensures e.loc == loc && e.msg == msg
  {
    ParseException(loc, msg)
  }

  /** `ParseFatalException::new(loc, msg)` stores both arguments unchanged. */
  function NewParseFatalException(loc: nat, msg: string): (e: ParseFatalException)
    ensures e.loc == loc && e.msg == msg
  {
    ParseFatalException(loc, msg)
  }

  /** The shared shape "<head> at position <loc>: <msg>" of both `Display` impls. */
  function Render(head: string, loc: nat, msg: string): string {
    head + " at position " + NatToString(loc) + ": " + msg
  }

  /**
   * Reads "<head> at position <digits>: <msg>" back into its location and
   * message; the location ends at the first non-digit, and a number with a
   * leading zero (other than "0") is not one `{}` writes, so it is refused.
   */
  function ReadRendered(head: string, s: string): Option<(nat, string)> {
    var lead := head + " at position ";
    if !(lead <= s) then None
    else
      var rest := s[|lead|..];
      var k := DigitRun(rest);
      if k == 0 || (k > 1 && rest[0] == '0') then None
      else
        var after := rest[k..];
        if !(": " <= after) then None
        else Some((StringToNat(rest[..k]), after[2..]))
  }

  lemma {:induction false} ReadRenderedRoundTrip(head: string, loc: nat, msg: string)
    ensures ReadRendered(head, Render(head, loc, msg)) == Some((loc, msg))
  {
    var lead := head + " at position ";
    var digits := NatToString(loc);
    var s := Render(head, loc, msg);
    assert s == lead + (digits + (": " + msg));
    var rest := s[|lead|..];
    assert rest == digits + (": " + msg);
    DigitRunOfPrefix(digits, ": " + msg);
    assert rest[..|digits|] == digits;
    var after := rest[|digits|..];
    assert after == ": " + msg;
    assert after[2..] == msg;
    StringToNatOfNatToString(loc);
  }

  /** Cuts `s` into a lead of length `a`, `b` more characters, ": " and the rest. */
  lemma {:induction false} Reassemble(s: string, a: nat, b: nat)
    requires a + b + 2 <= |s| && s[a + b..a + b + 2] == ": "
    ensures s == s[..a] + s[a..][..b] + ": " + s[a..][b..][2..]
  {
    assert s[a..][..b] == s[a..a + b];
    assert s[a..][b..][2..] == s[a + b + 2..];
  }

  /** Every string the reader accepts is the rendering of what it reads. */
  lemma {:induction false} ReadRenderedCanonical(head: string, s: string, loc: nat, msg: string)
    requires ReadRendered(head, s) == Some((loc, msg))
    ensures s == Render(head, loc, msg)
  {
    var lead := head + " at position ";
    var rest := s[|lead|..];
    var k := DigitRun(rest);
    assert lead <= s && ": " <= rest[k..];
    assert k > 0 && !(k > 1 && rest[0] == '0');
    assert loc == StringToNat(rest[..k]) && msg == rest[k..][2..];
    NatToStringOfStringToNat(rest[..k]);
    assert s[|lead| + k..|lead| + k + 2] == rest[k..][..2];
    Reassemble(s, |lead|, k);
    assert s[..|lead|] == lead;
  }

  /** Exactly one string reads back to `(loc, msg)`: the rendering. */
  lemma ReadRenderedUnique(head: string, loc: nat, msg: string)
    ensures ReadRendered(head, Render(head, loc, msg)) == Some((loc, msg))
    ensures forall t :: ReadRendered(head, t) == Some((loc, msg)) ==> t == Render(head, loc, msg)
  {
    ReadRenderedRoundTrip(head, loc, msg);
    forall t | ReadRendered(head, t) == Some((loc, msg)) ensures t == Render(head, loc, msg) {
      ReadRenderedCanonical(head, t, loc, msg);
    }
  }

  /** `Display for ParseException`: the one string that reads back to the exception. */
  function Display(e: ParseException): (s: string)
    ensures ReadRendered(ParseExceptionHead, s) == Some((e.loc, e.msg))
    ensures forall t :: ReadRendered(ParseExceptionHead, t) == Some((e.loc, e.msg)) ==> t == s
  {
    ReadRenderedUnique(ParseExceptionHead, e.loc, e.msg);
    Render(ParseExceptionHead, e.loc, e.msg)
  }

  /** `Display for ParseFatalException`: the one string that reads back to the exception. */
  function DisplayFatal(e: ParseFatalException): (s: string)
    ensures ReadRendered(ParseFatalExceptionHead, s) == Some((e.loc, e.msg))
    ensures forall t :: ReadRendered(ParseFatalExceptionHead, t) == Some((e.loc, e.msg)) ==> t == s
  {
    ReadRenderedUnique(ParseFatalExceptionHead, e.loc, e.msg);
    Render(ParseFatalExceptionHead, e.loc, e.msg)
  }

  /** A leading zero is refused: "05" is not how `{}` writes 5. */
  lemma {:induction false} LeadingZeroRefused()
    ensures ReadRendered(ParseExceptionHead, ParseExceptionHead + " at position 05: m") == None
  {
    var s := ParseExceptionHead + " at position 05: m";
    var lead := ParseExceptionHead + " at position ";
    assert lead <= s;
    var rest := s[|lead|..];
    assert rest == "05: m";
    assert DigitRun(rest) == 2 by {
      DigitRunOfPrefix("05", ": m");
      assert rest == "05" + ": m";
    }
  }

  /** Distinct exceptions render as distinct strings. */
  lemma DisplayInjective(a: ParseException, b: ParseException)
    ensures Display(a) == Display(b) ==> a == b
  {
  }

  /** A fatal and a recoverable exception never render alike: the sixth character differs. */
  lemma {:induction false} DisplayKindsDiffer(a: ParseException, b: ParseFatalException)
    ensures Display(a) != DisplayFatal(b)
  {
    assert Display(a)[5] == 'E';
    assert DisplayFatal(b)[5] == 'F';
  }
}
