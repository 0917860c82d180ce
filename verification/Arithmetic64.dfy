/** 64-bit division on top of the 32-bit divider (lib/arithmetic.c).
    Machine integers are mathematical integers with every wrap-around written out. */
module Arithmetic64 {
  import opened NonLinear

  type uint32 = x: int | 0 <= x < 0x1_0000_0000
  type uint64 = x: int | 0 <= x < 0x1_0000_0000_0000_0000
  type int32 = x: int | -0x8000_0000 <= x < 0x8000_0000
  type int64 = x: int | -0x8000_0000_0000_0000 <= x < 0x8000_0000_0000_0000

  /** Conversions between machine types: the value modulo the width. */
  function ToUint32(x: int): uint32 { x % 0x1_0000_0000 }
  function ToUint64(x: int): uint64 { x % 0x1_0000_0000_0000_0000 }
  function ToInt32(x: int): int32 { (x + 0x8000_0000) % 0x1_0000_0000 - 0x8000_0000 }
  function ToInt64(x: int): int64 { (x + 0x8000_0000_0000_0000) % 0x1_0000_0000_0000_0000 - 0x8000_0000_0000_0000 }

  function Pow2(k: nat): (p: nat)
    ensures p > 0
  {
    if k == 0 then 1 else 2 * Pow2(k - 1)
  }

  /** Shifts of machine words; bits shifted out are lost. */
  function Shl32(x: uint32, k: nat): uint32 { (x * Pow2(k)) % 0x1_0000_0000 }

  function Shl64(x: uint64, k: nat): uint64 { (x * Pow2(k)) % 0x1_0000_0000_0000_0000 }

  function Shr64(x: uint64, k: nat): uint64 {
    QuotientBounds(x, Pow2(k));
    x / Pow2(k)
  }

  // ---------------------------------------------------------------
  // divl: the processor's 64-by-32 division
  // ---------------------------------------------------------------

  /** The instruction raises a divide error on a zero divisor and on a quotient wider than 32 bits. */
  predicate DivlTraps(n: uint64, d: uint32) {
    d == 0 || n / d >= 0x1_0000_0000
  }

  function Divl(n: uint64, d: uint32): uint32
    requires !DivlTraps(n, d)
  {
    QuotientBounds(n, d);
    n / d
  }

  // ---------------------------------------------------------------
  // nlz: number of leading zero bits
  // ---------------------------------------------------------------

  function LeadingZeros(x: uint32): (n: nat)
    requires x > 0
    decreases 0x1_0000_0000 - x
  {
    if x >= 0x8000_0000 then 0 else 1 + LeadingZeros(2 * x)
  }

  /** Normalising by LeadingZeros puts the top bit in place; no smaller shift does. */
  lemma {:induction false} LeadingZerosNormalises(x: uint32)
    requires x > 0
    ensures LeadingZeros(x) <= 31
    ensures 0x8000_0000 <= x * Pow2(LeadingZeros(x)) < 0x1_0000_0000
    decreases 0x1_0000_0000 - x
  {
    if x < 0x8000_0000 {
      LeadingZerosNormalises(2 * x);
      var n := LeadingZeros(2 * x);
      Associate(x, 2, Pow2(n));
      assert Pow2(n + 1) == 2 * Pow2(n);
      if n == 31 {
        Pow2Values();
        ProductMonotone(2, 2 * x, 0x8000_0000, 0x8000_0000);
        assert false;
      }
    } else {
      assert Pow2(0) == 1;
    }
  }

  /** A left shift by k below the leading zeros costs exactly k of them. */
  lemma {:induction false} LeadingZerosShift(x: uint32, k: nat)
    requires x > 0 && x * Pow2(k) < 0x1_0000_0000
    ensures 0 < x * Pow2(k)
    ensures LeadingZeros(x) == k + LeadingZeros(x * Pow2(k))
    decreases k
  {
    if k > 0 {
      assert x * Pow2(k) == (2 * x) * Pow2(k - 1);
      assert 2 * x <= x * Pow2(k) by { ProductMonotone(2 * x, 2 * x, 1, Pow2(k - 1)); }
      LeadingZerosShift(2 * x, k - 1);
    } else {
      assert Pow2(0) == 1;
    }
  }

  lemma {:induction false} Pow2Values()
    ensures Pow2(1) == 2 && Pow2(2) == 4 && Pow2(4) == 16
    ensures Pow2(8) == 0x100 && Pow2(16) == 0x1_0000 && Pow2(31) == 0x8000_0000 && Pow2(32) == 0x1_0000_0000
  {
    assert Pow2(4) == 16 && Pow2(8) == 0x100 && Pow2(12) == 0x1000 && Pow2(16) == 0x1_0000;
    Pow2Add(16, 15);
    assert Pow2(15) == 0x8000;
    Pow2Add(16, 16);
  }

  lemma {:induction false} Pow2Add(a: nat, b: nat)
    ensures Pow2(a + b) == Pow2(a) * Pow2(b)
    decreases b
  {
    if b > 0 { Pow2Add(a, b - 1); }
  }

  lemma {:induction false} Pow2Monotone(a: nat, b: nat)
    requires a <= b
    ensures Pow2(a) <= Pow2(b)
    decreases b
  {
    if a < b { Pow2Monotone(a, b - 1); }
  }

  /** One step of the normalisation: shift out k bits known to be zero. */
  lemma ShiftOut(x: uint32, k: nat, p: nat)
    requires x > 0 && Pow2(k) == p && x * p < 0x1_0000_0000
    ensures Shl32(x, k) == x * p > 0
    ensures LeadingZeros(x) == k + LeadingZeros(Shl32(x, k))
  {
    LeadingZerosShift(x, k);
  }

  lemma TopTwoBits(x: uint32)
    requires x >= 0x4000_0000
    ensures LeadingZeros(x) == if x <= 0x7FFF_FFFF then 1 else 0
  {
    if x <= 0x7FFF_FFFF { assert LeadingZeros(2 * x) == 0; }
  }

  method Nlz(x0: uint32) returns (n: nat)
    requires x0 > 0
    ensures n == LeadingZeros(x0)
  {
    hide *;
    var x := x0;
    n := 0;
    Pow2Values();
    if x <= 0x0000FFFF {
      ShiftOut(x, 16, 0x1_0000);
      n := n + 16;
      x := Shl32(x, 16);
    }
    assert x >= 0x1_0000 && LeadingZeros(x0) == n + LeadingZeros(x);
    if x <= 0x00FFFFFF {
      ShiftOut(x, 8, 0x100);
      n := n + 8;
      x := Shl32(x, 8);
    }
    assert x >= 0x100_0000 && LeadingZeros(x0) == n + LeadingZeros(x);
    if x <= 0x0FFFFFFF {
      ShiftOut(x, 4, 16);
      n := n + 4;
      x := Shl32(x, 4);
    }
    assert x >= 0x1000_0000 && LeadingZeros(x0) == n + LeadingZeros(x);
    if x <= 0x3FFFFFFF {
      ShiftOut(x, 2, 4);
      n := n + 2;
      x := Shl32(x, 2);
    }
    assert x >= 0x4000_0000 && LeadingZeros(x0) == n + LeadingZeros(x);
    TopTwoBits(x);
    if x <= 0x7FFFFFFF {
      n := n + 1;
    }
  }

  // ---------------------------------------------------------------
  // udiv64
  // ---------------------------------------------------------------

  /** A divisor below 2^32: two chained 32-bit divisions, neither of which traps. The
      intermediate sums are checked to fit their 64-bit words. */
  function ShortQuotient(n: uint64, d0: uint32): (q: uint64)
    requires d0 != 0
    ensures q == n / d0
  {
    var n1: uint32 := ToUint32(n / 0x1_0000_0000);
    var n0: uint32 := ToUint32(n);
    ShortDivision(n, n1, n0, d0);
    var low: uint64 := 0x1_0000_0000 * (n1 % d0) + n0;
    Divl(low, d0) + 0x1_0000_0000 * (n1 / d0)
  }

  lemma ShortDivision(n: uint64, n1: uint32, n0: uint32, d: uint32)
    requires d > 0 && n == 0x1_0000_0000 * n1 + n0
    ensures 0 <= 0x1_0000_0000 * (n1 % d) + n0 < 0x1_0000_0000_0000_0000
    ensures !DivlTraps(0x1_0000_0000 * (n1 % d) + n0, d)
    ensures (0x1_0000_0000 * (n1 % d) + n0) / d + 0x1_0000_0000 * (n1 / d) == n / d
    ensures 0 <= n / d <= n
  {
    QuotientBounds(n1, d);
    QuotientBounds(n, d);
    var r := 0x1_0000_0000 * (n1 % d) + n0;
    QuotientBounds(r, d);
    if r / d >= 0x1_0000_0000 {
      ProductMonotone(0x1_0000_0000, r / d, d, d);
      assert false;
    }
    Distribute(r / d, 0x1_0000_0000 * (n1 / d), d);
    Associate(0x1_0000_0000, n1 / d, d);
    QuotientUnique(n, d, r / d + 0x1_0000_0000 * (n1 / d));
  }

  /** Scaling dividend and divisor by the same factor p leaves the quotient. */
  lemma ScaledQuotient(d: nat, p: nat, r: nat)
    requires p > 0 && r > 0
    ensures p * r > 0 && d * p / (p * r) == d / r
  {
    QuotientBounds(d, r);
    var k := d / r;
    ProductMonotone(1, p, 1, r);
    ProductMonotone(k * r, d, p, p);
    ProductMonotone(d + 1, k * r + r, p, p);
    Distribute(k * r, r, p);
    Distribute(d, 1, p);
    Associate(k, r, p);
    Associate(r, p, 0);
    QuotientUnique(d * p, p * r, k);
  }

  /** A word normalised in its top half stays below 2^64 with its low half attached. */
  lemma NormalisedRange(d: uint64, p: nat, r: nat)
    requires p > 0 && r > 0 && p * r == 0x1_0000_0000
    requires 0x8000_0000 <= d / 0x1_0000_0000 * p < 0x1_0000_0000
    ensures 0x8000_0000_0000_0000 <= d * p < 0x1_0000_0000_0000_0000
  {
    var d1, d0 := d / 0x1_0000_0000, d % 0x1_0000_0000;
    assert d == d1 * 0x1_0000_0000 + d0;
    Distribute(d1 * 0x1_0000_0000, d0, p);
    Associate(d1, 0x1_0000_0000, p);
    Associate(0x1_0000_0000, p, 0);
    Associate(d1, p, 0x1_0000_0000);
    assert d * p == (d1 * p) * 0x1_0000_0000 + d0 * p;
    // d1*p <= 2^32 - p, because both are multiples of p
    if d1 >= r {
      ProductMonotone(r, d1, p, p);
      assert false;
    }
    ProductMonotone(d1 + 1, r, p, p);
    Distribute(d1, 1, p);
    ProductMonotone(d0, 0x1_0000_0000 - 1, p, p);
  }

  /** d shifted so that its top bit is in place, and its 32 leading bits v. */
  lemma TopBits(d: uint64, s: nat)
    requires d >= 0x1_0000_0000 && s == LeadingZeros(d / 0x1_0000_0000)
    ensures s <= 31
    ensures Pow2(s) * Pow2(32 - s) == 0x1_0000_0000 && Pow2(32 - s) == 2 * Pow2(31 - s)
    ensures 0x8000_0000_0000_0000 <= d * Pow2(s) < 0x1_0000_0000_0000_0000
    ensures Shr64(Shl64(d, s), 32) == d / Pow2(32 - s)
    ensures 0x8000_0000 <= d / Pow2(32 - s) < 0x1_0000_0000
  {
    LeadingZerosNormalises(d / 0x1_0000_0000);
    Pow2Add(s, 32 - s);
    Pow2Values();
    NormalisedRange(d, Pow2(s), Pow2(32 - s));
    ScaledQuotient(d, Pow2(s), Pow2(32 - s));
  }

  /** Dividing by the truncated divisor e instead of d overshoots by at most one. */
  lemma EstimateWithinOne(n: uint64, d: uint64, e: nat, p: nat, r: nat)
    requires d > 0 && p > 0 && r > 1 && p * r == 0x1_0000_0000
    requires e <= d < e + r
    requires 0x8000_0000 * r <= e && 0x8000_0000_0000_0000 <= d * p
    ensures n / d <= n / e <= n / d + 1
  {
    var k, j := n / d, n / e;
    QuotientBounds(n, d);
    QuotientBounds(n, e);
    ErrorTerm(n, d, e, p, r, k);
    var g := d - e;
    assert (k + 1) * g <= e;
    if j > k + 1 {
      ProductMonotone(k + 2, j, e, e);
      Distribute(k + 1, 1, e);
      Distribute(k, 1, d);
      Distribute(e, g, k + 1);
      assert false;
    }
    if j < k {
      ProductMonotone(j + 1, k, e, d);
      Distribute(j, 1, e);
      assert false;
    }
  }

  /** What the divisor loses, taken k+1 times, is at most one divisor. */
  lemma ErrorTerm(n: uint64, d: uint64, e: nat, p: nat, r: nat, k: nat)
    requires p > 0 && r > 1 && p * r == 0x1_0000_0000
    requires e <= d < e + r
    requires 0x8000_0000 * r <= e && 0x8000_0000_0000_0000 <= d * p
    requires k * d <= n
    ensures (k + 1) * (d - e) <= e
  {
    if k >= 2 * p {
      ProductMonotone(2 * p, k, d, d);
      Associate(2, p, d);
      Associate(d, p, 0);
      assert false;
    }
    ProductMonotone(k + 1, 2 * p, d - e, r - 1);
    Distribute(r, -1, 2 * p);
    Associate(2, p, r);
    Associate(p, r, 0);
    assert 2 * p * (r - 1) == 2 * 0x1_0000_0000 - 2 * p;
  }

  /** The 32 leading significant bits of the divisor. */
  function DivisorTop(d: uint64, s: nat): uint32 {
    ToUint32(Shr64(Shl64(d, s), 32))
  }

  /** The estimate of the long branch, before correction: half the dividend by the
      normalised divisor v, shifted back. */
  function LongQuotient(n: uint64, v: uint32, s: nat): uint64
    requires s <= 31 && !DivlTraps(Shr64(n, 1), v)
  {
    Shr64(Divl(Shr64(n, 1), v), 31 - s)
  }

  lemma LongQuotientValue(n: uint64, v: uint32, s: nat)
    requires s <= 31 && v >= 0x8000_0000
    ensures !DivlTraps(Shr64(n, 1), v)
    ensures LongQuotient(n, v, s) == n / 2 / v / Pow2(31 - s)
  {
    HalfIsShift(n);
    var h := n / 2;
    QuotientBounds(h, v);
    if h / v >= 0x1_0000_0000 {
      ProductMonotone(0x1_0000_0000, h / v, 0x8000_0000, v);
      assert false;
    }
  }

  /** The long branch does not trap, and its shifted quotient is the true one or one more. */
  lemma LongEstimate(n: uint64, d: uint64, s: nat)
    requires d >= 0x1_0000_0000 && s == LeadingZeros(d / 0x1_0000_0000)
    ensures s <= 31 && !DivlTraps(Shr64(n, 1), DivisorTop(d, s))
    ensures n / d <= LongQuotient(n, DivisorTop(d, s), s) <= n / d + 1
  {
    TopBits(d, s);
    var v := DivisorTop(d, s);
    assert n / d <= n / 2 / v / Pow2(31 - s) <= n / d + 1 by {
      EstimateBounds(n, d, v, Pow2(s), Pow2(31 - s));
    }
    LongQuotientValue(n, v, s);
  }

  lemma HalfIsShift(n: uint64)
    ensures Shr64(n, 1) == n / 2
  {
    Pow2Values();
  }

  lemma EstimateBounds(n: uint64, d: uint64, v: uint32, p: nat, w: nat)
    requires p > 0 && w > 0 && p * (2 * w) == 0x1_0000_0000 && v == d / (2 * w)
    requires 0x8000_0000 <= v && 0x8000_0000_0000_0000 <= d * p && d > 0
    ensures n / d <= n / 2 / v / w <= n / d + 1
  {
    HalvedQuotient(n, v, w);
    QuotientBounds(d, 2 * w);
    ProductMonotone(0x8000_0000, v, 2 * w, 2 * w);
    EstimateWithinOne(n, d, v * (2 * w), p, 2 * w);
  }

  lemma HalvedQuotient(n: uint64, v: uint32, w: nat)
    requires v >= 0x8000_0000 && w > 0
    ensures v * (2 * w) > 0 && n / 2 / v / w == n / (v * (2 * w))
  {
    QuotientNested(n, 2, v);
    QuotientNested(n, 2 * v, w);
    Associate(v, 2, w);
    Associate(2, v, 0);
  }

  /** The final correction picks the true quotient, and none of its products wraps. */
  function Corrected(n: uint64, d: uint64, q: uint64): (r: uint64)
    requires 0 < d <= n && n / d <= q <= n / d + 1
    ensures r == n / d
  {
    CorrectionIsExact(n, d, q, n / d);
    if ToUint64(n - ToUint64(ToUint64(q - 1) * d)) < d then ToUint64(q - 1) else q
  }

  lemma CorrectionIsExact(n: uint64, d: uint64, q: uint64, k: nat)
    requires 0 < d <= n && k == n / d
    requires k <= q <= k + 1
    ensures q >= 1 && 0 <= (q - 1) * d <= n
    ensures ToUint64(q - 1) == q - 1 && ToUint64((q - 1) * d) == (q - 1) * d
    ensures ToUint64(n - (q - 1) * d) == n - (q - 1) * d
    ensures (n - (q - 1) * d < d) <==> q == k + 1
  {
    QuotientBounds(n, d);
    ProductMonotone(q - 1, k, d, d);
    Distribute(k, -1, d);
  }

  /** Division of any 64-bit number by any nonzero 64-bit number. */
  function Udiv64(n: uint64, d: uint64): (q: uint64)
    requires d != 0
    ensures q == n / d
  {
    if d / 0x1_0000_0000 == 0 then
      assert ToUint32(d) == d;
      ShortQuotient(n, ToUint32(d))
    else if n < d then
      QuotientUnique(n, d, 0);
      0
    else
      var d1: uint32 := ToUint32(d / 0x1_0000_0000);
      var s := LeadingZeros(d1);
      LongEstimate(n, d, s);
      Corrected(n, d, LongQuotient(n, DivisorTop(d, s), s))
  }

  // ---------------------------------------------------------------
  // umod64, sdiv64, smod64
  // ---------------------------------------------------------------

  function Umod64(n: uint64, d: uint64): uint32
    requires d != 0
  {
    UnsignedRemainder(n, d, Udiv64(n, d))
  }

  function UnsignedRemainder(n: uint64, d: uint64, q: uint64): uint32 {
    ToUint32(ToUint64(n - ToUint64(d * q)))
  }

  function AbsoluteUint64(x: int64): uint64 {
    if x >= 0 then ToUint64(x) else ToUint64(-(ToUint64(x) as int))
  }

  function Sdiv64(n: int64, d: int64): int64
    requires d != 0
  {
    AbsoluteNonzero(d);
    var nAbs := AbsoluteUint64(n);
    var dAbs := AbsoluteUint64(d);
    var qAbs := Udiv64(nAbs, dAbs);
    if (n < 0) == (d < 0) then ToInt64(qAbs) else ToInt64(-(ToInt64(qAbs) as int))
  }

  function Smod64(n: int64, d: int64): int32
    requires d != 0
  {
    SignedRemainder(n, d, Sdiv64(n, d))
  }

  function SignedRemainder(n: int64, d: int64, q: int64): int32 {
    ToInt32(ToInt64(n - ToInt64(d * q)))
  }

  function Abs(x: int): nat { if x < 0 then -x else x }

  /** Quotient truncated toward zero, and its remainder (section 6.5.5 of ISO C99). */
  ghost function TruncQuotient(n: int, d: int): int
    requires d != 0
  {
    if (n < 0) == (d < 0) then Abs(n) / Abs(d) else -(Abs(n) / Abs(d))
  }

  ghost function TruncRemainder(n: int, d: int): int
    requires d != 0
  {
    n - d * TruncQuotient(n, d)
  }

  lemma AbsoluteNonzero(x: int64)
    ensures AbsoluteUint64(x) == Abs(x)
  {
  }

  /** The remainder has the dividend's sign and is smaller than the divisor. */
  lemma TruncRemainderBounds(n: int, d: int)
    requires d != 0
    ensures Abs(TruncRemainder(n, d)) < Abs(d)
    ensures TruncRemainder(n, d) == 0 || (TruncRemainder(n, d) < 0) == (n < 0)
  {
    var q := Abs(n) / Abs(d);
    QuotientBounds(Abs(n), Abs(d));
    var r := Abs(n) - q * Abs(d);
    Distribute(d, -d, q);
    Distribute(q, -q, d);
    Associate(q, Abs(d), 0);
    Associate(d, q, 0);
    assert TruncRemainder(n, d) == if n < 0 then -r else r;
  }

  /** A multiple of d smaller than |d| is 0. */
  lemma SmallMultiple(d: int, k: int)
    requires Abs(d * k) < Abs(d)
    ensures k == 0
  {
    if k != 0 { AbsProduct(d, k); }
  }

  lemma AbsProduct(d: int, k: int)
    requires k != 0
    ensures Abs(d * k) >= Abs(d)
  {
    if k > 0 {
      ProductAtLeast(Abs(d), k);
      assert d < 0 ==> d * k == -(Abs(d) * k);
    } else {
      ProductAtLeast(Abs(d), -k);
      assert d * k == -(d * -k);
      assert d < 0 ==> d * -k == -(Abs(d) * -k);
    }
  }

  lemma ProductAtLeast(a: nat, k: nat)
    requires k > 0
    ensures a * k >= a
  {
    ProductMonotone(a, a, 1, k);
  }

  /** Truncating division is fixed by its defining equations: the quotient and the remainder are
      the only q and r with n == d*q + r, r smaller than d in size, and r zero or of n's sign. */
  lemma TruncDivisionCharacterised(n: int, d: int, q: int, r: int)
    requires d != 0
    ensures n == d * q + r && Abs(r) < Abs(d) && (r == 0 || (r < 0) == (n < 0))
            <==> q == TruncQuotient(n, d) && r == TruncRemainder(n, d)
  {
    TruncRemainderBounds(n, d);
    TruncRemainderIs(n, d);
    hide TruncQuotient, TruncRemainder;
    if n == d * q + r && Abs(r) < Abs(d) && (r == 0 || (r < 0) == (n < 0)) {
      DivisionUnique(n, d, q, r, TruncQuotient(n, d), TruncRemainder(n, d));
    }
  }

  lemma TruncRemainderIs(n: int, d: int)
    requires d != 0
    ensures n == d * TruncQuotient(n, d) + TruncRemainder(n, d)
  {
    hide TruncQuotient;
  }

  lemma DivisionUnique(n: int, d: int, q: int, r: int, t: int, u: int)
    requires n == d * q + r && Abs(r) < Abs(d) && (r == 0 || (r < 0) == (n < 0))
    requires n == d * t + u && Abs(u) < Abs(d) && (u == 0 || (u < 0) == (n < 0))
    ensures q == t && r == u
  {
    assert d * (q - t) == u - r by { Distribute(q, -t, d); }
    SmallMultiple(d, q - t);
  }

  lemma DropHighBits(a: int, k: int)
    ensures (a + 0x1_0000_0000 * k) % 0x1_0000_0000 == a % 0x1_0000_0000
  {
  }

  /** Truncating at every step loses no more than truncating once at the end. */
  lemma UnsignedWrapOnce(n: int, p: int)
    ensures ToUint32(ToUint64(n - ToUint64(p))) == ToUint32(n - p)
  {
    var p64 := ToUint64(p);
    var k := p / 0x1_0000_0000_0000_0000 - (n - p64) / 0x1_0000_0000_0000_0000;
    assert ToUint64(n - p64) == n - p + 0x1_0000_0000 * (0x1_0000_0000 * k);
    DropHighBits(n - p, 0x1_0000_0000 * k);
  }

  lemma SignedWrapOnce(n: int, p: int)
    ensures ToInt32(ToInt64(n - ToInt64(p))) == ToInt32(n - p)
  {
    var p64 := ToInt64(p);
    var k := (p + 0x8000_0000_0000_0000) / 0x1_0000_0000_0000_0000
             - (n - p64 + 0x8000_0000_0000_0000) / 0x1_0000_0000_0000_0000;
    assert ToInt64(n - p64) == n - p + 0x1_0000_0000 * (0x1_0000_0000 * k);
    DropHighBits(n - p + 0x8000_0000, 0x1_0000_0000 * k);
  }

  lemma UnsignedRemainderValue(n: uint64, d: uint64, q: uint64)
    requires d != 0 && q == n / d
    ensures UnsignedRemainder(n, d, q) == (n % d) % 0x1_0000_0000
    ensures 0 <= n % d
  {
    QuotientBounds(n, d);
    Associate(d, q, 0);
    UnsignedWrapOnce(n, d * q);
    assert n - d * q == n % d;
  }

  /** umod64 returns the low 32 bits of the remainder, so __umoddi3 is the remainder
      exactly when that fits in 32 bits. */
  lemma Umod64IsLowRemainder(n: uint64, d: uint64)
    requires d != 0
    ensures Umod64(n, d) == (n % d) % 0x1_0000_0000
    ensures Umod64(n, d) == n % d <==> n % d < 0x1_0000_0000
  {
    UnsignedRemainderValue(n, d, Udiv64(n, d));
    LowWord(n % d);
  }

  lemma LowWord(r: nat)
    ensures r % 0x1_0000_0000 == r <==> r < 0x1_0000_0000
  {
  }

  /** A remainder lost by the 32-bit return type. */
  lemma Umod64TruncatesExample()
    ensures Umod64(0x1_8000_0000, 0x2_0000_0000) == 0x8000_0000
    ensures 0x1_8000_0000 % 0x2_0000_0000 == 0x1_8000_0000
  {
    Umod64IsLowRemainder(0x1_8000_0000, 0x2_0000_0000);
  }

  /** Negating and reinterpreting the unsigned quotient is exact below 2^63; at 2^63
      only the negated form survives the conversion to a signed word. */
  lemma SignedQuotient(q: uint64, sameSign: bool)
    requires q <= 0x8000_0000_0000_0000
    ensures (if sameSign then ToInt64(q) else ToInt64(-(ToInt64(q) as int))) == (if sameSign then q else -(q as int))
      <==> !(sameSign && q == 0x8000_0000_0000_0000)
    ensures ToInt64(0x8000_0000_0000_0000) == -0x8000_0000_0000_0000
  {
  }

  lemma LargestQuotient(n: nat, d: nat)
    requires n <= 0x8000_0000_0000_0000 && d > 0
    ensures n / d <= 0x8000_0000_0000_0000
    ensures n / d == 0x8000_0000_0000_0000 <==> n == 0x8000_0000_0000_0000 && d == 1
  {
    QuotientBounds(n, d);
    if d >= 2 { ProductMonotone(n / d, n / d, 2, d); }
  }

  /** sdiv64 is C's truncating division for every pair but INT64_MIN / -1, whose
      quotient is not representable. */
  lemma Sdiv64IsTruncating(n: int64, d: int64)
    requires d != 0
    ensures Sdiv64(n, d) == TruncQuotient(n, d) <==> !(n == -0x8000_0000_0000_0000 && d == -1)
  {
    AbsoluteNonzero(n);
    AbsoluteNonzero(d);
    LargestQuotient(Abs(n), Abs(d));
    SignedQuotient(Udiv64(AbsoluteUint64(n), AbsoluteUint64(d)), (n < 0) == (d < 0));
  }

  lemma Sdiv64Value(n: int64, d: int64)
    requires d != 0
    ensures Sdiv64(n, d) == TruncQuotient(n, d)
      || (d == -1 && Sdiv64(n, d) == TruncQuotient(n, d) - 0x1_0000_0000_0000_0000)
  {
    AbsoluteNonzero(n);
    AbsoluteNonzero(d);
    LargestQuotient(Abs(n), Abs(d));
    SignedQuotient(Udiv64(AbsoluteUint64(n), AbsoluteUint64(d)), (n < 0) == (d < 0));
  }

  /** The one overflowing quotient is off by 2^64, which the remainder does not see. */
  lemma SignedRemainderValue(n: int64, d: int64, q: int64, t: int)
    requires q == t || (d == -1 && q == t - 0x1_0000_0000_0000_0000)
    ensures SignedRemainder(n, d, q) == ToInt32(n - d * t)
  {
    SignedWrapOnce(n, d * q);
    if q != t {
      assert d * q == -(q as int) && d * t == -t;
      DropHighBits(n + t + 0x8000_0000, -0x1_0000_0000);
    }
  }

  /** smod64 returns the low 32 bits of the true remainder, INT64_MIN % -1 included. */
  lemma Smod64IsLowRemainder(n: int64, d: int64)
    requires d != 0
    ensures Smod64(n, d) == ToInt32(TruncRemainder(n, d))
  {
    Sdiv64Value(n, d);
    SignedRemainderValue(n, d, Sdiv64(n, d), TruncQuotient(n, d));
  }

  /** So __moddi3 is C's remainder exactly when that fits in a signed 32-bit word. */
  lemma Smod64ExactWhenItFits(n: int64, d: int64)
    requires d != 0
    ensures Smod64(n, d) == TruncRemainder(n, d) <==> -0x8000_0000 <= TruncRemainder(n, d) < 0x8000_0000
  {
    Smod64IsLowRemainder(n, d);
    var r := TruncRemainder(n, d);
    assert ToInt32(r) == r <==> -0x8000_0000 <= r < 0x8000_0000;
  }
}
