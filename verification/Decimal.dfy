/** Decimal notation: what C's "%d" prints, and the number a string of digits denotes. */
module Decimal {

  predicate IsDigit(c: char) {
    '0' <= c <= '9'
  }

  predicate AllDigits(s: string) {
    forall i :: 0 <= i < |s| ==> IsDigit(s[i])
  }

  function DigitChar(d: nat): char
    requires d < 10
  {
    '0' + d as char
  }

  function DigitValue(c: char): nat
    requires IsDigit(c)
  {
    (c - '0') as nat
  }

  /** The number a string of decimal digits denotes; 0 for the empty string. */
  function Value(s: string): nat
    requires AllDigits(s)
  {
    if s == "" then 0 else 10 * Value(s[..|s| - 1]) + DigitValue(s[|s| - 1])
  }

  /** The shortest decimal representation of n. */
  function Print(n: nat): (s: string) {
    if n < 10 then [DigitChar(n)] else Print(n / 10) + [DigitChar(n % 10)]
  }

  function PrintInt(n: int): string {
    if n < 0 then "-" + Print(-n) else Print(n)
  }

  /** A non-empty run of digits that starts with '0' only if it is "0" itself. */
  predicate Canonical(s: string) {
    s != "" && AllDigits(s) && (|s| > 1 ==> s[0] != '0')
  }

  /** A canonical number, behind a '-' unless it is zero, or a canonical number alone. */
  predicate CanonicalInteger(s: string) {
    if s != "" && s[0] == '-' then Canonical(s[1..]) && s[1..] != "0" else Canonical(s)
  }

  /** The digits stand for their values. */
  lemma DigitsInOrder(d: nat)
    requires d < 10
    ensures Print(d) == ["0123456789"[d]] && DigitValue("0123456789"[d]) == d
  {
  }

  /** A printed integer is canonical; it begins with '-' exactly for a negative number, and the rest is
      its magnitude. */
  lemma PrintIntIsCanonical(n: int)
    ensures var s := PrintInt(n);
            && s != "" && CanonicalInteger(s) && (s[0] == '-' <==> n < 0)
            && (n < 0 ==> AllDigits(s[1..]) && Value(s[1..]) == -n)
            && (n >= 0 ==> AllDigits(s) && Value(s) == n)
  {
    var a := if n < 0 then -n else n;
    PrintIsCanonical(a);
    if n < 0 {
      assert PrintInt(n)[1..] == Print(a);
    } else {
      assert IsDigit(Print(a)[0]);
    }
  }

  function Pow10(k: nat): (p: nat)
    ensures p >= 1
  {
    if k == 0 then 1 else 10 * Pow10(k - 1)
  }

  lemma {:induction false} PrintIsCanonical(n: nat)
    ensures Canonical(Print(n)) && Value(Print(n)) == n
    ensures n > 0 ==> Print(n)[0] != '0'
  {
    if n >= 10 {
      PrintIsCanonical(n / 10);
      var s, rest := Print(n), Print(n / 10);
      assert s[..|s| - 1] == rest;
      assert s[0] == rest[0];
    }
  }

  lemma {:induction false} CanonicalIsPrint(s: string)
    requires Canonical(s)
    ensures Print(Value(s)) == s
    ensures |s| > 1 ==> Value(s) >= 10
  {
    var init, last := s[..|s| - 1], s[|s| - 1];
    if |s| > 1 {
      CanonicalIsPrint(init);
      assert Value(init) >= 1;
      assert Value(s) / 10 == Value(init) && Value(s) % 10 == DigitValue(last);
      assert s == init + [last];
    } else {
      assert Value(init) == 0;
      assert s == [last];
    }
  }

  lemma {:induction false} PrintLength(n: nat, k: nat)
    requires k >= 1
    ensures |Print(n)| <= k <==> n < Pow10(k)
    decreases k
  {
    if k == 1 {
      assert Pow10(1) == 10 * Pow10(0);
      if n >= 10 {
        assert |Print(n)| == |Print(n / 10)| + 1;
        assert |Print(n / 10)| >= 1 by { PrintIsCanonical(n / 10); }
      }
    } else if n >= 10 {
      PrintLength(n / 10, k - 1);
      assert n / 10 < Pow10(k - 1) <==> n < 10 * Pow10(k - 1);
    }
  }
}
