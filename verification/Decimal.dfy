/** Decimal numerals, printed and read. This is what the program asks of `snprintf` and `strtol`, and
    what its own formatter computes. */
module Decimal {

  predicate IsDigit(c: char) {
    '0' <= c <= '9'
  }

  function DigitChar(d: nat): (c: char)
    requires d < 10
    ensures IsDigit(c) && c as int - '0' as int == d
  {
    '0' + d as char
  }

  function DigitValue(c: char): nat
    requires IsDigit(c)
  {
    c as int - '0' as int
  }

  /** The canonical numeral of `n`. */
  function Dec(n: nat): (s: string)
    ensures |s| > 0
  {
    if n < 10 then [DigitChar(n)] else Dec(n / 10) + [DigitChar(n % 10)]
  }

  function DecInt(n: int): string {
    if n < 0 then "-" + Dec(-n) else Dec(n)
  }

  /** Reads digits from the front of `t`, on top of the value `acc` of those already read. */
  function ScanDigits(t: string, acc: nat): (r: (nat, string))
    ensures |r.1| <= |t|
  {
    if t == [] || !IsDigit(t[0]) then (acc, t)
    else ScanDigits(t[1..], 10 * acc + DigitValue(t[0]))
  }

  predicate NoDigitAhead(t: string) {
    t == [] || !IsDigit(t[0])
  }

  /** Reading a numeral gives back the number. */
  lemma {:induction false} ScanDec(n: nat, t: string)
    ensures ScanDigits(Dec(n) + t, 0) == ScanDigits(t, n)
  {
    if n < 10 {
      assert Dec(n) + t == [DigitChar(n)] + t;
    } else {
      var d := [DigitChar(n % 10)];
      assert Dec(n) + t == Dec(n / 10) + (d + t);
      ScanDec(n / 10, d + t);
      assert (d + t)[1..] == t;
    }
  }

  lemma {:induction false} DecDigits(n: nat)
    ensures forall i | 0 <= i < |Dec(n)| :: IsDigit(Dec(n)[i])
    ensures Dec(n)[0] == '0' <==> n == 0
    ensures n > 0 || |Dec(n)| == 1
  {
    if n >= 10 {
      DecDigits(n / 10);
    }
  }

  /** A numeral without a leading zero is the numeral of the number that it reads as. */
  lemma {:induction false} Canonical(s: string, n: nat)
    requires s != [] && (forall i | 0 <= i < |s| :: IsDigit(s[i])) && (s[0] == '0' ==> |s| == 1)
    requires ScanDigits(s, 0) == (n, [])
    ensures s == Dec(n)
    decreases |s|
  {
    ScanLast(s, 0);
    var t, d := s[..|s| - 1], DigitValue(s[|s| - 1]);
    if |s| > 1 {
      var m := ScanDigits(t, 0).0;
      ScanAll(t, 0);
      Canonical(t, m);
      ScanDec(m, []);
      assert Dec(m) + [] == t;
      DecDigits(m);
      assert n == 10 * m + d && n / 10 == m && n % 10 == d;
    }
  }

  lemma {:induction false} ScanAll(s: string, acc: nat)
    requires forall i | 0 <= i < |s| :: IsDigit(s[i])
    ensures ScanDigits(s, acc).1 == []
  {
    if s != [] {
      ScanAll(s[1..], 10 * acc + DigitValue(s[0]));
    }
  }

  lemma {:induction false} ScanLast(s: string, acc: nat)
    requires s != [] && forall i | 0 <= i < |s| :: IsDigit(s[i])
    ensures ScanDigits(s, acc) == (10 * ScanDigits(s[..|s| - 1], acc).0 + DigitValue(s[|s| - 1]), [])
  {
    if |s| > 1 {
      var a := 10 * acc + DigitValue(s[0]);
      ScanLast(s[1..], a);
      assert s[1..][..|s| - 2] == s[..|s| - 1][1..];
    }
  }

  /** 10 to the `k` */
  function Pow10(k: nat): (r: nat)
    ensures r > 0
  {
    if k == 0 then 1 else 10 * Pow10(k - 1)
  }

  /** The length of a numeral is the number of its digits. */
  lemma {:induction false} DecLength(n: nat, k: nat)
    requires k > 0
    ensures |Dec(n)| <= k <==> n < Pow10(k)
    decreases k
  {
    if n >= 10 && k > 1 {
      DecLength(n / 10, k - 1);
    } else if n >= 10 {
      assert Pow10(1) == 10;
    } else {
      Pow10AtLeast(k);
    }
  }

  lemma DecLengthIff(n: nat, k: nat)
    requires k > 1
    ensures |Dec(n)| == k <==> Pow10(k - 1) <= n < Pow10(k)
  {
    DecLength(n, k);
    DecLength(n, k - 1);
    hide *;
  }

  lemma {:induction false} Pow10AtLeast(k: nat)
    requires k > 0
    ensures Pow10(k) >= 10
  {
    if k > 1 {
      Pow10AtLeast(k - 1);
    }
  }

  /** `p` is a minus sign, for a negative number only, and digits that read as the magnitude of `v`. */
  predicate ReadsAs(p: string, v: int) {
    if v < 0 then p != [] && p[0] == '-' && IsNumeral(p[1..], -v) else IsNumeral(p, v)
  }

  predicate IsNumeral(s: string, n: int) {
    s != [] && IsDigit(s[0]) && (s[0] == '0' ==> |s| == 1) && ScanDigits(s, 0) == (n, [])
  }

  lemma PrintedReads(v: int)
    ensures ReadsAs(DecInt(v), v)
  {
    DecIntForm(v);
    DecDigits(if v < 0 then -v else v);
    hide ScanDigits;
    if v < 0 {
      assert DecInt(v)[1..] == Dec(-v);
    }
  }

  /** The form of a printed integer: a minus sign exactly for a negative one, then digits that read back
      as its magnitude, without a leading zero. */
  lemma DecIntForm(v: int)
    ensures DecInt(v)[0] == '-' <==> v < 0
    ensures var digits := if v < 0 then DecInt(v)[1..] else DecInt(v);
            && ScanDigits(digits, 0) == (if v < 0 then -v else v, [])
            && (digits[0] == '0' ==> |digits| == 1)
  {
    var m: nat := if v < 0 then -v else v;
    DecDigits(m);
    ScanDec(m, []);
    assert Dec(m) + [] == Dec(m);
    if v < 0 {
      assert DecInt(v)[1..] == Dec(m);
    } else if v == 0 {
      assert |Dec(0)| == 1;
    }
  }
}
