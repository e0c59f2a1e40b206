/** Binary arithmetic on naturals, as far as `lib/vd_buddy_alloc.h` relies on it: powers of two,
    the bitwise operators and the bit-smearing round-up. A `size_t` is 64 bits wide. */
module Bits {

  predicate IsPow2(n: nat) {
    n == 1 || (n > 1 && n % 2 == 0 && IsPow2(n / 2))
  }

  function Pow2(k: nat): (r: nat)
    ensures r >= 1
  {
    if k == 0 then 1 else 2 * Pow2(k - 1)
  }

  const WORD_BITS: nat := 64

  /** One past the largest `size_t`. */
  function Word(): nat { Pow2(WORD_BITS) }

  /** The largest power of two that is a `size_t`. */
  function HalfWord(): nat { Pow2(WORD_BITS - 1) }

  /** `x & y`, bit by bit. */
  function BitAnd(x: nat, y: nat): nat {
    if x == 0 || y == 0 then 0
    else 2 * BitAnd(x / 2, y / 2) + (if x % 2 == 1 && y % 2 == 1 then 1 else 0)
  }

  /** `x | y`, bit by bit. */
  function BitOr(x: nat, y: nat): nat
    decreases x + y
  {
    if x == 0 && y == 0 then 0
    else 2 * BitOr(x / 2, y / 2) + (if x % 2 == 1 || y % 2 == 1 then 1 else 0)
  }

  /** `x >> k` */
  function ShiftRight(x: nat, k: nat): (r: nat)
    ensures r <= x
  {
    if k == 0 then x else ShiftRight(x / 2, k - 1)
  }

  /** Bit `i` of `x`. */
  predicate Bit(x: nat, i: nat) {
    if i == 0 then x % 2 == 1 else Bit(x / 2, i - 1)
  }

  lemma {:induction false} Pow2IsPow2(k: nat)
    ensures IsPow2(Pow2(k))
  {
    if k > 0 {
      Pow2IsPow2(k - 1);
      assert Pow2(k) / 2 == Pow2(k - 1);
    }
  }

  /** Between a power of two and its double there is no other. */
  lemma {:induction false} Pow2Gap(a: nat, b: nat)
    requires IsPow2(a) && IsPow2(b) && a < b
    ensures 2 * a <= b
  {
    if a > 1 {
      Pow2Gap(a / 2, b / 2);
    }
  }

  lemma Pow2Double(a: nat)
    requires IsPow2(a)
    ensures IsPow2(2 * a)
  {
    assert 2 * a / 2 == a;
  }

  lemma Pow2Half(a: nat)
    requires IsPow2(a) && a > 1
    ensures IsPow2(a / 2) && a == 2 * (a / 2)
  {
    assert a % 2 == 0;
  }

  /** A power of two is a multiple of every smaller one. */
  lemma {:induction false} Pow2Multiple(a: nat, b: nat) returns (q: nat)
    requires IsPow2(a) && IsPow2(b) && a <= b
    ensures b == q * a
  {
    if a == b {
      q := 1;
    } else {
      Pow2Gap(a, b);
      var h := Pow2Multiple(a, b / 2);
      q := 2 * h;
      assert q * a == 2 * (h * a);
    }
  }

  /** Two multiples of `m` less than `m` apart coincide. */
  lemma CloseMultiples(m: nat, x: nat, y: nat, i: nat, j: nat)
    requires x == i * m && y == j * m && x < y + m && y < x + m
    ensures x == y
  {
    assert (i - j) * m == x - y by { assert (i - j) * m == i * m - j * m; }
    assert (j - i) * m == y - x by { assert (j - i) * m == j * m - i * m; }
    if i < j {
      MulAtLeast(j - i, m);
    } else if j < i {
      MulAtLeast(i - j, m);
    }
  }

  /** Masking with `a - 1` is reduction modulo the power of two `a`. */
  lemma {:induction false} MaskIsMod(x: nat, a: nat)
    requires IsPow2(a)
    ensures BitAnd(x, a - 1) == x % a
  {
    if a == 1 {
    } else if x == 0 {
      ModUnique(0, a, 0, 0);
    } else {
      MaskIsMod(x / 2, a / 2);
      MaskHalves(x, a);
      HalveMod(x, a / 2);
    }
  }

  lemma MaskHalves(x: nat, a: nat)
    requires x > 0 && a > 1 && a % 2 == 0
    ensures BitAnd(x, a - 1) == 2 * BitAnd(x / 2, a / 2 - 1) + x % 2
  {
    assert (a - 1) / 2 == a / 2 - 1 && (a - 1) % 2 == 1;
  }

  lemma HalveMod(x: nat, h: nat)
    requires h > 0
    ensures x % (2 * h) == 2 * (x / 2 % h) + x % 2
  {
    var q, r := x / 2 / h, x / 2 % h;
    assert x / 2 == q * h + r;
    assert x == q * (2 * h) + (2 * r + x % 2);
    ModUnique(x, 2 * h, q, 2 * r + x % 2);
  }

  lemma ModUnique(x: nat, m: nat, q: nat, r: nat)
    requires m > 0 && x == q * m + r && r < m
    ensures x % m == r
  {
    EuclidUnique(m, q, r, x / m, x % m);
  }

  lemma EuclidUnique(m: nat, q: nat, r: nat, q': nat, r': nat)
    requires q * m + r == q' * m + r' && r < m && r' < m
    ensures r == r'
  {
    assert (q' - q) * m == r - r' by { assert (q' - q) * m == q' * m - q * m; }
    assert (q - q') * m == r' - r by { assert (q - q') * m == q * m - q' * m; }
    if q < q' {
      MulAtLeast(q' - q, m);
    } else if q' < q {
      MulAtLeast(q - q', m);
    }
  }

  lemma {:induction false} MulAtLeast(k: nat, m: nat)
    requires k > 0
    ensures k * m >= m
  {
    if k > 1 {
      MulAtLeast(k - 1, m);
      assert k * m == (k - 1) * m + m;
    }
  }

  /** The classic test `x & (x - 1) == 0` picks out the powers of two. */
  lemma {:induction false} ClearLowestBit(x: nat)
    requires x > 0
    ensures BitAnd(x, x - 1) == 0 <==> IsPow2(x)
  {
    if x > 1 {
      if x % 2 == 0 {
        ClearLowestBit(x / 2);
        assert (x - 1) / 2 == x / 2 - 1;
      } else {
        assert (x - 1) / 2 == x / 2;
        AndSelf(x / 2);
      }
    }
  }

  lemma {:induction false} AndSelf(x: nat)
    ensures BitAnd(x, x) == x
  {
    if x > 0 {
      AndSelf(x / 2);
    }
  }

  lemma {:induction false} BitOfOr(x: nat, y: nat, i: nat)
    ensures Bit(BitOr(x, y), i) <==> Bit(x, i) || Bit(y, i)
    decreases i
  {
    var b := if x % 2 == 1 || y % 2 == 1 then 1 else 0;
    assert BitOr(x, y) == 2 * BitOr(x / 2, y / 2) + b;
    assert BitOr(x, y) / 2 == BitOr(x / 2, y / 2);
    if i > 0 {
      BitOfOr(x / 2, y / 2, i - 1);
    }
  }

  lemma {:induction false} BitOfShift(x: nat, k: nat, i: nat)
    ensures Bit(ShiftRight(x, k), i) <==> Bit(x, i + k)
  {
    if k > 0 {
      BitOfShift(x / 2, k - 1, i);
    }
  }

  lemma {:induction false} OrBound(x: nat, y: nat, m: nat)
    requires x < Pow2(m) && y < Pow2(m)
    ensures x <= BitOr(x, y) < Pow2(m)
    decreases m
  {
    if m > 0 {
      OrBound(x / 2, y / 2, m - 1);
    }
  }

  lemma {:induction false} TopBit(x: nat, m: nat)
    requires Pow2(m) <= x < Pow2(m + 1)
    ensures Bit(x, m)
  {
    if m > 0 {
      TopBit(x / 2, m - 1);
    }
  }

  lemma {:induction false} AllOnes(x: nat, m: nat)
    requires x < Pow2(m)
    requires forall i: nat | i < m :: Bit(x, i)
    ensures x == Pow2(m) - 1
  {
    if m > 0 {
      assert Bit(x, 0);
      forall i: nat | i < m - 1 ensures Bit(x / 2, i) {
        assert Bit(x, i + 1);
      }
      AllOnes(x / 2, m - 1);
    }
  }

  lemma {:induction false} Log(x: nat) returns (m: nat)
    requires x > 0
    ensures Pow2(m) <= x < Pow2(m + 1)
  {
    if x == 1 {
      m := 0;
    } else {
      var j := Log(x / 2);
      m := j + 1;
    }
  }

  lemma {:induction false} Pow2Monotone(i: nat, j: nat)
    requires i <= j
    ensures Pow2(i) <= Pow2(j)
    decreases j
  {
    if i < j {
      Pow2Monotone(i, j - 1);
    }
  }

  /** The bits of `y` from `m` down, `s` of them, are all set. */
  ghost predicate Smeared(y: nat, m: nat, s: nat) {
    Pow2(m) <= y < Pow2(m + 1) && forall i: nat | i <= m < i + s :: Bit(y, i)
  }

  /** One smearing step doubles the run of ones that starts at the top bit. */
  lemma SmearStep(y: nat, m: nat, s: nat)
    requires s > 0 && Smeared(y, m, s)
    ensures Smeared(BitOr(y, ShiftRight(y, s)), m, 2 * s)
  {
    var z := BitOr(y, ShiftRight(y, s));
    OrBound(y, ShiftRight(y, s), m + 1);
    forall i: nat | i <= m < i + 2 * s ensures Bit(z, i) {
      BitOfOr(y, ShiftRight(y, s), i);
      BitOfShift(y, s, i);
      if i + s <= m {
        assert Bit(y, i + s);
      }
    }
  }

  ghost predicate LeastPow2Above(x: nat, r: nat) {
    IsPow2(r) && x <= r && forall q: nat | IsPow2(q) && x <= q :: r <= q
  }

  /** The six shift-and-or steps fill every bit below the top one of a 64-bit word. */
  function Smear(y: nat): nat {
    var y1 := BitOr(y, ShiftRight(y, 1));
    var y2 := BitOr(y1, ShiftRight(y1, 2));
    var y4 := BitOr(y2, ShiftRight(y2, 4));
    var y8 := BitOr(y4, ShiftRight(y4, 8));
    var y16 := BitOr(y8, ShiftRight(y8, 16));
    BitOr(y16, ShiftRight(y16, 32))
  }

  lemma SmearFills(y: nat, m: nat)
    requires m < WORD_BITS && Pow2(m) <= y < Pow2(m + 1)
    ensures Smear(y) == Pow2(m + 1) - 1
  {
    SmearStart(y, m);
    hide Smeared, BitOr, ShiftRight;
    SmearStep(y, m, 1);
    var y1 := BitOr(y, ShiftRight(y, 1));
    SmearStep(y1, m, 2);
    var y2 := BitOr(y1, ShiftRight(y1, 2));
    SmearStep(y2, m, 4);
    var y4 := BitOr(y2, ShiftRight(y2, 4));
    SmearStep(y4, m, 8);
    var y8 := BitOr(y4, ShiftRight(y4, 8));
    SmearStep(y8, m, 16);
    var y16 := BitOr(y8, ShiftRight(y8, 16));
    SmearStep(y16, m, 32);
    FullySmeared(BitOr(y16, ShiftRight(y16, 32)), m);
  }

  lemma SmearStart(y: nat, m: nat)
    requires Pow2(m) <= y < Pow2(m + 1)
    ensures Smeared(y, m, 1)
  {
    TopBit(y, m);
  }

  lemma FullySmeared(y: nat, m: nat)
    requires m < WORD_BITS && Smeared(y, m, WORD_BITS)
    ensures y == Pow2(m + 1) - 1
  {
    AllOnes(y, m + 1);
  }

  /** Unsigned 64-bit addition of two in-range words. */
  function WrapAdd(x: nat, y: nat): nat
    requires x < Word() && y < Word()
  {
    if x + y < Word() then x + y else x + y - Word()
  }

  /** `vd_buddy_alloc__round_up_to_next_power_of_2`. Past 2^63 the last addition wraps to 0. */
  method RoundUp(x: nat) returns (r: nat)
    requires x < Word()
    ensures x <= HalfWord() ==> LeastPow2Above(x, r)
    ensures x > HalfWord() ==> r == 0
  {
    hide *;
    if x == 0 {
      ZeroRoundsToOne();
      return 1;
    }
    ClearLowestBit(x);
    if BitAnd(x, x - 1) == 0 {
      SinglePow2InTopHalf(x);
      return x;
    }
    SmearedRoundsUp(x);
    r := WrapAdd(Smear(x - 1), 1);
  }

  lemma SmearedRoundsUp(x: nat)
    requires 0 < x < Word() && !IsPow2(x)
    ensures Smear(x - 1) < Word() && 1 < Word()
    ensures x <= HalfWord() ==> LeastPow2Above(x, WrapAdd(Smear(x - 1), 1))
    ensures x > HalfWord() ==> WrapAdd(Smear(x - 1), 1) == 0
  {
    hide *;
    NotOne(x);
    var m := Log(x - 1);
    ExponentInWord(x - 1, m);
    SmearFills(x - 1, m);
    RoundedUp(x, m);
    WrapOne(Pow2(m + 1));
  }

  lemma NotOne(x: nat)
    requires x > 0 && !IsPow2(x)
    ensures x > 1
  {
  }

  lemma WrapOne(w: nat)
    requires 0 < w <= Word()
    ensures 1 < Word() && WrapAdd(w - 1, 1) == if w < Word() then w else 0
  {
  }

  lemma ZeroRoundsToOne()
    ensures LeastPow2Above(0, 1) && 0 <= HalfWord()
  {
  }

  lemma SinglePow2InTopHalf(x: nat)
    requires x < Word() && IsPow2(x)
    ensures x <= HalfWord() && LeastPow2Above(x, x)
  {
    Pow2IsPow2(WORD_BITS - 1);
    if x > HalfWord() {
      Pow2Gap(HalfWord(), x);
    }
  }

  lemma ExponentInWord(y: nat, m: nat)
    requires Pow2(m) <= y < Word()
    ensures m < WORD_BITS
  {
    if m >= WORD_BITS {
      Pow2Monotone(WORD_BITS, m);
    }
  }

  lemma RoundedUp(x: nat, m: nat)
    requires x > 1 && m < WORD_BITS && !IsPow2(x) && Pow2(m) <= x - 1 < Pow2(m + 1)
    ensures LeastPow2Above(x, Pow2(m + 1))
    ensures if x <= HalfWord() then Pow2(m + 1) < Word() else Pow2(m + 1) == Word()
  {
    NextPow2(x, m);
    WordRange(x, m, WORD_BITS - 1);
  }

  lemma NextPow2(x: nat, m: nat)
    requires !IsPow2(x) && Pow2(m) < x <= Pow2(m + 1)
    ensures LeastPow2Above(x, Pow2(m + 1))
  {
    Pow2IsPow2(m);
    Pow2IsPow2(m + 1);
    assert Pow2(m + 1) == 2 * Pow2(m);
    hide IsPow2, Pow2;
    forall q: nat | IsPow2(q) && x <= q ensures Pow2(m + 1) <= q {
      Pow2Gap(Pow2(m), q);
    }
  }

  lemma WordRange(x: nat, m: nat, top: nat)
    requires m <= top && Pow2(m) < x <= Pow2(m + 1)
    ensures if x <= Pow2(top) then Pow2(m + 1) < Pow2(top + 1) else Pow2(m + 1) == Pow2(top + 1)
  {
    if m < top {
      Pow2Monotone(m + 1, top);
    }
  }
}
