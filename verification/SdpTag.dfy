/** The check on the tag of an SDP "a=crypto" attribute (section 9.1 of RFC 4568): the tag is
    converted with atoi, printed back into a ten-byte buffer, and compared with the original. */
module SdpTag {
  import opened Decimal

  const INT_MIN: int := -0x8000_0000
  const INT_MAX: int := 0x7fff_ffff
  const TAG_MAX: nat := 999_999_999
  const BUF_SIZE: nat := 10
  const NUL: char := '\0'

  predicate IsInt(x: int) {
    INT_MIN <= x <= INT_MAX
  }

  predicate IsSpace(c: char) {
    c == ' ' || '\t' <= c <= '\r'
  }

  function SkipSpace(s: string): string {
    if s != "" && IsSpace(s[0]) then SkipSpace(s[1..]) else s
  }

  function DigitPrefix(s: string): (p: string)
    ensures AllDigits(p)
  {
    if s != "" && IsDigit(s[0]) then [s[0]] + DigitPrefix(s[1..]) else ""
  }

  /** The unbounded integer atoi reads: white space, an optional sign, then digits. */
  function Denoted(s: string): int {
    var t := SkipSpace(s);
    if t != "" && t[0] == '-' then 0 - Value(DigitPrefix(t[1..]))
    else if t != "" && t[0] == '+' then Value(DigitPrefix(t[1..]))
    else Value(DigitPrefix(t))
  }

  /** What atoi may return: the denoted number if it is an int, any int at all otherwise. */
  predicate AtoiMayReturn(s: string, r: int) {
    IsInt(r) && (IsInt(Denoted(s)) ==> r == Denoted(s))
  }

  /** A C string argument: it holds no NUL. */
  predicate IsCString(s: string) {
    NUL !in s
  }

  /** The C string stored in a buffer. */
  function UpToNul(b: seq<char>): string {
    if b == [] || b[0] == NUL then "" else [b[0]] + UpToNul(b[1..])
  }

  /** What a buffer of the given size holds after snprintf of text. */
  function Truncated(text: string, size: nat): (r: string)
    requires size >= 1
  {
    if |text| < size then text else text[..size - 1]
  }

  /** The tag numbers the check is meant to let through, as their shortest decimal form. */
  ghost predicate IsCanonicalTag(tag: string) {
    exists n: nat :: n <= TAG_MAX && tag == Print(n)
  }

  /** The tag grammar of section 9.1 of RFC 4568: one to nine digits. */
  predicate MatchesGrammar(tag: string) {
    1 <= |tag| <= 9 && AllDigits(tag)
  }

  /** The condition under which the check passes for the number atoi produced. */
  predicate Passes(tag: string, parsed: int) {
    Truncated(PrintInt(parsed), BUF_SIZE) == tag && 0 <= parsed <= TAG_MAX
  }

  class SdpCrypto {
    var tag: int

    /** The tag check of sdp_crypto_process. `parsed` is what atoi makes of the text; the field
        is overwritten even when the tag is then refused. */
    method CheckTag(text: string, parsed: int) returns (ok: bool)
      requires IsCString(text) && AtoiMayReturn(text, parsed)
      modifies this
      ensures this.tag == parsed
      ensures ok <==> IsCanonicalTag(text)
      ensures ok ==> 0 <= this.tag <= TAG_MAX && text == Print(this.tag)
      ensures ok <==>
                1 <= |text| <= 9 && (forall i :: 0 <= i < |text| ==> '0' <= text[i] <= '9') &&
                (|text| > 1 ==> text[0] != '0')
      ensures ok ==> AllDigits(text) && Value(text) == this.tag
    {
      AcceptedWithinGrammar(text);
      var buf := new char[BUF_SIZE];
      this.tag := parsed;
      PrintIntIsCString(parsed);
      PrintInto(buf, PrintInt(this.tag));
      var order := Compare(buf, text);
      if order != 0 || this.tag < 0 || this.tag > TAG_MAX {
        ok := false;
      } else {
        ok := true;
      }
      assert ok == Passes(text, parsed);
      PassesIffCanonical(text, parsed);
      if ok {
        PrintFits(parsed);
        PrintIsCanonical(parsed);
      }
    }
  }

  /** snprintf: as much of the text as fits, and a NUL. */
  method PrintInto(buf: array<char>, text: string)
    requires buf.Length >= 1 && IsCString(text)
    modifies buf
    ensures UpToNul(buf[..]) == Truncated(text, buf.Length)
    ensures exists i :: 0 <= i < buf.Length && buf[i] == NUL
  {
    var i := 0;
    while i < |text| && i < buf.Length - 1
      invariant 0 <= i <= |text| && i <= buf.Length - 1
      invariant buf[..i] == text[..i]
    {
      buf[i] := text[i];
      i := i + 1;
    }
    buf[i] := NUL;
    assert buf[..i] == text[..i] == Truncated(text, buf.Length);
    assert buf[..] == buf[..i] + [NUL] + buf[i + 1..];
    UpToNulOfPrefix(text[..i], buf[i + 1..]);
    assert text[..i] + [NUL] + buf[i + 1..] == buf[..];
  }

  /** strcmp of a NUL-terminated buffer and a C string, up to the sign of the difference. */
  method Compare(buf: array<char>, text: string) returns (order: int)
    requires IsCString(text)
    requires exists i :: 0 <= i < buf.Length && buf[i] == NUL
    ensures order == 0 <==> UpToNul(buf[..]) == text
  {
    ghost var n :| 0 <= n < buf.Length && buf[n] == NUL;
    var i := 0;
    assert buf[..][0..] == buf[..];
    while buf[i] != NUL && i < |text| && buf[i] == text[i]
      invariant 0 <= i <= |text| && i <= n
      invariant UpToNul(buf[..]) == text[..i] + UpToNul(buf[..][i..])
      decreases n - i
    {
      UpToNulStep(buf[..], i);
      assert text[..i + 1] == text[..i] + [buf[i]];
      i := i + 1;
    }
    StopDecides(buf[..], text, i);
    var c := if i < |text| then text[i] else NUL;
    order := buf[i] as int - c as int;
  }

  /** Where the comparison stops, the two characters are equal only if both strings end there. */
  lemma StopDecides(b: seq<char>, text: string, i: nat)
    requires IsCString(text) && i < |b| && i <= |text|
    requires UpToNul(b) == text[..i] + UpToNul(b[i..])
    requires b[i] == NUL || i == |text| || b[i] != text[i]
    ensures b[i] == (if i < |text| then text[i] else NUL) <==> UpToNul(b) == text
  {
    UpToNulStep(b, i);
    if b[i] != NUL {
      assert UpToNul(b)[i] == b[i];
    } else {
      assert UpToNul(b) == text[..i];
      if i == |text| {
        assert text[..i] == text;
      }
    }
  }

  lemma UpToNulStep(b: seq<char>, i: nat)
    requires i < |b|
    ensures UpToNul(b[i..]) == if b[i] == NUL then "" else [b[i]] + UpToNul(b[i + 1..])
  {
    assert b[i..][0] == b[i] && b[i..][1..] == b[i + 1..];
  }

  lemma {:induction false} UpToNulOfPrefix(p: string, rest: seq<char>)
    requires IsCString(p)
    ensures UpToNul(p + [NUL] + rest) == p
  {
    var b := p + [NUL] + rest;
    if p != "" {
      assert b[0] == p[0] && b[1..] == p[1..] + [NUL] + rest;
      UpToNulOfPrefix(p[1..], rest);
    }
  }

  lemma {:induction false} DigitPrefixOfDigits(s: string)
    requires AllDigits(s)
    ensures DigitPrefix(s) == s
  {
    if s != "" {
      DigitPrefixOfDigits(s[1..]);
    }
  }

  lemma PrintIntIsCString(n: int)
    ensures IsCString(PrintInt(n))
  {
    PrintIsCanonical(if n < 0 then -n else n);
  }

  /** atoi reads a printed natural number back. */
  lemma DenotedOfPrint(n: nat)
    ensures Denoted(Print(n)) == n
  {
    PrintIsCanonical(n);
    DigitPrefixOfDigits(Print(n));
    assert IsDigit(Print(n)[0]);
    assert SkipSpace(Print(n)) == Print(n);
  }

  /** Printed tag numbers fit the buffer whole. */
  lemma PrintFits(n: nat)
    requires n <= TAG_MAX
    ensures |Print(n)| < BUF_SIZE && Truncated(PrintInt(n), BUF_SIZE) == Print(n)
  {
    Pow10Of9();
    PrintLength(n, 9);
  }

  /** Whatever int atoi returns, the check passes exactly for canonical tags. */
  lemma PassesIffCanonical(tag: string, parsed: int)
    requires AtoiMayReturn(tag, parsed)
    ensures Passes(tag, parsed) <==> IsCanonicalTag(tag)
  {
    if Passes(tag, parsed) {
      PrintFits(parsed);
    }
    if IsCanonicalTag(tag) {
      var n: nat :| n <= TAG_MAX && tag == Print(n);
      DenotedOfPrint(n);
      PrintFits(n);
    }
  }

  lemma Pow10Of9()
    ensures Pow10(9) == 1_000_000_000
  {
    assert Pow10(3) == 1000;
    assert Pow10(6) == 1_000_000;
  }

  /** Every accepted tag is in the grammar; a tag of the grammar is refused exactly when it has
      a leading zero. */
  lemma AcceptedWithinGrammar(tag: string)
    ensures IsCanonicalTag(tag) <==> MatchesGrammar(tag) && (|tag| == 1 || tag[0] != '0')
  {
    Pow10Of9();
    if IsCanonicalTag(tag) {
      var n: nat :| n <= TAG_MAX && tag == Print(n);
      PrintIsCanonical(n);
      PrintLength(n, 9);
    }
    if MatchesGrammar(tag) && (|tag| == 1 || tag[0] != '0') {
      CanonicalIsPrint(tag);
      PrintLength(Value(tag), 9);
      assert Value(tag) <= TAG_MAX;
    }
  }

  /** Accepted tags and tag numbers correspond one to one: the stored number determines the
      accepted text, and every number in range is the number of an accepted text. */
  lemma TagsAreOneToOne(tag1: string, tag2: string, parsed1: int, parsed2: int)
    requires AtoiMayReturn(tag1, parsed1) && AtoiMayReturn(tag2, parsed2)
    requires Passes(tag1, parsed1) && Passes(tag2, parsed2)
    ensures tag1 == tag2 <==> parsed1 == parsed2
  {
    PrintFits(parsed1);
    PrintFits(parsed2);
    PrintIsCanonical(parsed1);
    PrintIsCanonical(parsed2);
  }

  lemma EveryTagNumberIsAccepted(n: nat, parsed: int)
    requires n <= TAG_MAX && AtoiMayReturn(Print(n), parsed)
    ensures parsed == n && Passes(Print(n), parsed)
  {
    DenotedOfPrint(n);
    PassesIffCanonical(Print(n), parsed);
  }
}
