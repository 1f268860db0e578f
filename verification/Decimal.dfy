/** Decimal text of integers, as a C++ stream writes them. */
module Decimal {
  import opened Options

  function DigitChar(d: nat): char
    requires d < 10
  {
    (d + '0' as int) as char
  }

  predicate IsDigit(c: char) { '0' <= c <= '9' }

  function Digits(n: nat): (s: string)
    ensures |s| > 0
    ensures forall c :: c in s ==> IsDigit(c)
  {
    if n < 10 then [DigitChar(n)] else Digits(n / 10) + [DigitChar(n % 10)]
  }

  function IntText(v: int): (s: string)
    ensures |s| > 0
    ensures forall c :: c in s ==> IsDigit(c) || c == '-'
  {
    if v < 0 then "-" + Digits(-v) else Digits(v)
  }

  /** The number a string of digits denotes. */
  function Number(s: string): nat
    requires forall c :: c in s ==> IsDigit(c)
  {
    if s == "" then 0
    else
      assert IsDigit(s[|s| - 1]);
      10 * Number(s[..|s| - 1]) + (s[|s| - 1] as int - '0' as int)
  }

  function ReadInt(s: string): Option<int> {
    if s != "" && s[0] == '-' && |s| > 1 && (forall c :: c in s[1..] ==> IsDigit(c)) then Some(0 - Number(s[1..]))
    else if s != "" && (forall c :: c in s ==> IsDigit(c)) then Some(Number(s))
    else None
  }

  lemma {:induction false} NumberOfDigits(n: nat)
    ensures Number(Digits(n)) == n
  {
    var s := Digits(n);
    if n < 10 {
      assert s[..0] == "";
    } else {
      NumberOfDigits(n / 10);
      assert s[..|s| - 1] == Digits(n / 10);
    }
  }

  /** Reading what was written gives the same integer. */
  lemma IntTextReadsBack(v: int)
    ensures ReadInt(IntText(v)) == Some(v)
  {
    if v < 0 {
      NumberOfDigits(-v);
      assert IntText(v)[1..] == Digits(-v);
    } else {
      NumberOfDigits(v);
      assert IntText(v)[0] in Digits(v);
    }
  }

  lemma {:induction false} NoLeadingZero(n: nat)
    ensures Digits(n)[0] == '0' <==> n == 0
    ensures n < 10 ==> Digits(n) == ["0123456789"[n]]
  {
    if n >= 10 {
      NoLeadingZero(n / 10);
    } else {
      DigitText(n);
    }
  }

  lemma DigitText(d: nat)
    requires d < 10
    ensures DigitChar(d) == "0123456789"[d]
  {
    if d == 0 {} else if d == 1 {} else if d == 2 {} else if d == 3 {} else if d == 4 {}
    else if d == 5 {} else if d == 6 {} else if d == 7 {} else if d == 8 {} else {}
  }

  /** The text is the shortest one: a minus sign exactly for a negative number, and a leading zero
      for zero alone. */
  lemma IntTextIsShortest(v: int)
    ensures IntText(v)[0] == '-' <==> v < 0
    ensures IntText(v)[0] == '0' <==> v == 0
    ensures 0 <= v < 10 ==> IntText(v) == ["0123456789"[v]]
    ensures v < 0 ==> |IntText(v)| > 1 && '1' <= IntText(v)[1] <= '9'
  {
    if v < 0 {
      NoLeadingZero(-v);
      assert Digits(-v)[0] in Digits(-v);
    } else {
      NoLeadingZero(v);
      assert Digits(v)[0] in Digits(v);
    }
  }
}
