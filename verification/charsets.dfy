/**
 * The character-set constants exported by src/lib.rs (`alphas`, `nums`,
 * `alphanums`, `printables`), characterised by ASCII ranges.
 */
module CharSets {

  predicate IsUpper(c: char) { 'A' <= c <= 'Z' }
  predicate IsLower(c: char) { 'a' <= c <= 'z' }
  predicate IsLetter(c: char) { IsUpper(c) || IsLower(c) }
  predicate IsDigitChar(c: char) { '0' <= c <= '9' }

  /** Visible ASCII: everything from '!' to '~', i.e. no space and no control character. */
  predicate IsPrintable(c: char) { '!' <= c <= '~' }

  /** Strictly ascending code points, which in particular means no character repeats. */
  predicate Ascending(s: string) {
    forall i :: 0 <= i < |s| - 1 ==> s[i] < s[i + 1]
  }

  predicate NoDuplicates(s: string) {
    forall i, j :: 0 <= i < j < |s| ==> s[i] != s[j]
  }

  function Alphas(): string {
    "ABCDEFGHIJKLMNOPQRSTUVWXYZabcdefghijklmnopqrstuvwxyz"
  }

  function Nums(): string {
    "0123456789"
  }

  function Alphanums(): (s: string)
    ensures s == Alphas() + Nums()
  {
    "ABCDEFGHIJKLMNOPQRSTUVWXYZabcdefghijklmnopqrstuvwxyz0123456789"
  }

  /** The one 94-character literal of the source, written here in four pieces. */
  function Printables(): string {
    "0123456789" + "abcdefghijklmnopqrstuvwxyz" + "ABCDEFGHIJKLMNOPQRSTUVWXYZ"
      + "!\"#$%&'()*+,-./:;<=>?@[\\]^_`{|}~"
  }

  const Upper: string := "ABCDEFGHIJKLMNOPQRSTUVWXYZ"
  const Lower: string := "abcdefghijklmnopqrstuvwxyz"
  const Punctuation: string := "!\"#$%&'()*+,-./:;<=>?@[\\]^_`{|}~"

  lemma {:induction false} AscendingHasNoDuplicates(s: string)
    requires Ascending(s)
    ensures NoDuplicates(s)
  {
    forall i, j | 0 <= i < j < |s| ensures s[i] < s[j] {
      var k := i;
      while k < j
        invariant i <= k <= j
        invariant s[i] <= s[k]
        invariant k > i ==> s[i] < s[k]
      {
        k := k + 1;
      }
    }
  }

  /** `s` holds the consecutive code points `lo`, `lo + 1`, ... */
  predicate IsRun(s: string, lo: int) {
    forall i :: 0 <= i < |s| ==> s[i] as int == lo + i
  }

  lemma {:induction false} RunMembers(s: string, lo: int)
    requires IsRun(s, lo)
    ensures forall c :: c in s <==> lo <= c as int < lo + |s|
    ensures Ascending(s)
  {
    forall c | lo <= c as int < lo + |s| ensures c in s {
      assert s[c as int - lo] == c;
    }
  }

  lemma UpperIsRun()
    ensures |Upper| == 26 && IsRun(Upper, 'A' as int)
  {
  }

  lemma LowerIsRun()
    ensures |Lower| == 26 && IsRun(Lower, 'a' as int)
  {
  }

  lemma NumsIsRun()
    ensures |Nums()| == 10 && IsRun(Nums(), '0' as int)
  {
  }

  /** `alphas()` lists the upper-case letters before the lower-case ones. */
  lemma AlphasSplit()
    ensures Alphas() == Upper + Lower
  {
  }

  /** `printables()` lists the digits, the lower-case letters, the upper-case letters, then punctuation. */
  lemma PrintablesSplit()
    ensures Printables() == Nums() + Lower + Upper + Punctuation
  {
  }

  /** Membership in a concatenation is membership in either part. */
  lemma {:induction false} InConcat(a: string, b: string, c: char)
    ensures c in a + b <==> c in a || c in b
  {
    if c in a + b {
      var i :| 0 <= i < |a + b| && (a + b)[i] == c;
      if i >= |a| { assert b[i - |a|] == c; }
    }
    if c in b {
      var i :| 0 <= i < |b| && b[i] == c;
      assert (a + b)[|a| + i] == c;
    }
  }

  /** Two ascending strings, the first ending below where the second starts, concatenate to an ascending one. */
  lemma {:induction false} AscendingConcat(a: string, b: string)
    requires Ascending(a) && Ascending(b)
    requires |a| > 0 && |b| > 0 && a[|a| - 1] < b[0]
    ensures Ascending(a + b)
  {
    var s := a + b;
    forall i | 0 <= i < |s| - 1 ensures s[i] < s[i + 1] {
      if i + 1 < |a| {
        assert s[i] == a[i] && s[i + 1] == a[i + 1];
      } else if i + 1 == |a| {
        assert s[i] == a[|a| - 1] && s[i + 1] == b[0];
      } else {
        assert s[i] == b[i - |a|] && s[i + 1] == b[i + 1 - |a|];
      }
    }
  }

  /** Two repetition-free strings with no character in common concatenate to a repetition-free one. */
  lemma {:induction false} NoDuplicatesConcat(a: string, b: string)
    requires NoDuplicates(a) && NoDuplicates(b)
    requires forall c :: c in a ==> c !in b
    ensures NoDuplicates(a + b)
  {
    forall i, j | 0 <= i < j < |a + b| ensures (a + b)[i] != (a + b)[j] {
      if j < |a| {
        assert (a + b)[i] == a[i] && (a + b)[j] == a[j];
      } else if i >= |a| {
        assert (a + b)[i] == b[i - |a|] && (a + b)[j] == b[j - |a|];
      } else {
        assert (a + b)[i] == a[i] && (a + b)[j] == b[j - |a|];
        assert (a + b)[i] in a && (a + b)[j] in b;
      }
    }
  }

  /** `alphas()` is the 52 ASCII letters, upper case first, each once. */
  lemma {:induction false} AlphasAreTheLetters()
    ensures |Alphas()| == 52
    ensures forall c :: c in Alphas() <==> IsLetter(c)
    ensures Ascending(Alphas()) && NoDuplicates(Alphas())
  {
    AlphasSplit();
    UpperIsRun();
    LowerIsRun();
    RunMembers(Upper, 'A' as int);
    RunMembers(Lower, 'a' as int);
    forall c ensures c in Upper + Lower <==> IsLetter(c) {
      InConcat(Upper, Lower, c);
    }
    AscendingConcat(Upper, Lower);
    AscendingHasNoDuplicates(Upper + Lower);
  }

  /** `nums()` is the 10 ASCII digits in order, each once. */
  lemma {:induction false} NumsAreTheDigits()
    ensures |Nums()| == 10
    ensures forall c :: c in Nums() <==> IsDigitChar(c)
    ensures Ascending(Nums()) && NoDuplicates(Nums())
  {
    NumsIsRun();
    RunMembers(Nums(), '0' as int);
    AscendingHasNoDuplicates(Nums());
  }

  /** `alphanums()` is exactly the letters and the digits, each once. */
  lemma {:induction false} AlphanumsAreLettersAndDigits()
    ensures |Alphanums()| == 62
    ensures forall c :: c in Alphanums() <==> IsLetter(c) || IsDigitChar(c)
    ensures NoDuplicates(Alphanums())
  {
    AlphasAreTheLetters();
    NumsAreTheDigits();
    var a, n := Alphas(), Nums();
    forall c ensures c in a + n <==> IsLetter(c) || IsDigitChar(c) {
      InConcat(a, n, c);
    }
    NoDuplicatesConcat(a, n);
  }

  /** The punctuation characters are the four gaps of visible ASCII around digits and letters, in order. */
  lemma {:induction false} PunctuationAscending()
    ensures Ascending(Punctuation)
  {
    var a, b, c, d := "!\"#$%&'()*+,-./", ":;<=>?@", "[\\]^_`", "{|}~";
    assert Punctuation == a + b + c + d;
    assert IsRun(a, '!' as int) && IsRun(b, ':' as int) && IsRun(c, '[' as int) && IsRun(d, '{' as int);
    RunMembers(a, '!' as int);
    RunMembers(b, ':' as int);
    RunMembers(c, '[' as int);
    RunMembers(d, '{' as int);
    AscendingConcat(a, b);
    AscendingConcat(a + b, c);
    AscendingConcat(a + b + c, d);
  }

  /**
   * `printables()` is the digits, the lower-case letters, the upper-case
   * letters and then 32 punctuation characters, each of them visible and
   * neither a letter nor a digit.
   */
  lemma PunctuationIsTheRest()
    ensures Printables() == Nums() + Lower + Upper + Punctuation
    ensures |Punctuation| == 32 && Ascending(Punctuation)
    ensures forall i :: 0 <= i < 32 ==> IsPrintable(Punctuation[i]) && !IsLetter(Punctuation[i]) && !IsDigitChar(Punctuation[i])
  {
    PrintablesSplit();
    PunctuationAscending();
  }

  /** Every visible ASCII character that is neither a letter nor a digit is in `Punctuation`. */
  lemma {:induction false} PunctuationIsComplete(c: char)
    requires IsPrintable(c) && !IsLetter(c) && !IsDigitChar(c)
    ensures c in Punctuation
  {
    var p := Punctuation;
    if c <= '/' {
      assert p[c as int - '!' as int] == c;
    } else if c <= '@' {
      assert p[15 + c as int - ':' as int] == c;
    } else if c <= '`' {
      assert p[22 + c as int - '[' as int] == c;
    } else {
      assert p[28 + c as int - '{' as int] == c;
    }
  }

  /** `printables()` is exactly the 94 visible ASCII characters. */
  lemma {:induction false} PrintablesAreVisibleAscii()
    ensures |Printables()| == 94
    ensures forall c :: c in Printables() <==> IsPrintable(c)
    ensures NoDuplicates(Printables())
  {
    PrintablesSplit();
    NumsIsRun();
    UpperIsRun();
    LowerIsRun();
    RunMembers(Nums(), '0' as int);
    RunMembers(Upper, 'A' as int);
    RunMembers(Lower, 'a' as int);
    PunctuationIsTheRest();
    var n, l, u, p := Nums(), Lower, Upper, Punctuation;
    forall c ensures c in n + l + u + p <==> IsPrintable(c) {
      InConcat(n + l + u, p, c);
      InConcat(n + l, u, c);
      InConcat(n, l, c);
      if c in p {
        var i :| 0 <= i < 32 && p[i] == c;
      }
      if IsPrintable(c) && !IsLetter(c) && !IsDigitChar(c) {
        PunctuationIsComplete(c);
      }
    }
    AscendingHasNoDuplicates(n);
    AscendingHasNoDuplicates(l);
    AscendingHasNoDuplicates(u);
    AscendingHasNoDuplicates(p);
    NoDuplicatesConcat(n, l);
    forall c | c in n + l ensures c !in u { InConcat(n, l, c); }
    NoDuplicatesConcat(n + l, u);
    forall c | c in p ensures c !in n + l + u {
      var i :| 0 <= i < 32 && p[i] == c;
      InConcat(n + l, u, c);
      InConcat(n, l, c);
    }
    NoDuplicatesConcat(n + l + u, p);
  }

  /** Every character of `alphanums()` is in `printables()`. */
  lemma {:induction false} AlphanumsArePrintable()
    ensures forall c :: c in Alphanums() ==> c in Printables()
  {
    AlphanumsAreLettersAndDigits();
    PrintablesAreVisibleAscii();
  }
}
