/** Java's fixed-width integers on top of Dafny's unbounded `int`: two's-complement wrap-around,
    and the bitwise operators defined digit by digit on the unsigned representation. */
module JavaInt {
  const TWO_31 := 0x8000_0000
  const TWO_32 := 0x1_0000_0000
  const TWO_63 := 0x8000_0000_0000_0000
  const TWO_64 := 0x1_0000_0000_0000_0000

  type int32 = x: int | -TWO_31 <= x < TWO_31
  type int64 = x: int | -TWO_63 <= x < TWO_63
  type uint32 = x: int | 0 <= x < TWO_32
  type uint64 = x: int | 0 <= x < TWO_64
  type byte = x: int | 0 <= x < 0x100
  type char16 = x: int | 0 <= x < 0x1_0000

  // ---- representations -------------------------------------------------------------------

  function Unsigned32(x: int32): uint32 {
    if x < 0 then x + TWO_32 else x
  }

  function Signed32(x: uint32): int32 {
    if x < TWO_31 then x else x - TWO_32
  }

  function Unsigned64(x: int64): uint64 {
    if x < 0 then x + TWO_64 else x
  }

  function Signed64(x: uint64): int64 {
    if x < TWO_63 then x else x - TWO_64
  }

  /** What a Java `int` keeps of a mathematical result. */
  function Wrap32(x: int): int32 {
    Signed32(x % TWO_32)
  }

  /** What a Java `long` keeps of a mathematical result. */
  function Wrap64(x: int): int64 {
    Signed64(x % TWO_64)
  }

  // ---- powers of two ---------------------------------------------------------------------

  function Pow2(k: nat): (p: nat)
    ensures p > 0
  {
    if k == 0 then 1 else 2 * Pow2(k - 1)
  }

  ghost predicate IsPow2(n: int) {
    exists k: nat :: n == Pow2(k)
  }

  lemma {:induction false} Pow2Monotone(j: nat, k: nat)
    requires j <= k
    ensures Pow2(j) <= Pow2(k)
    decreases k
  {
    if j < k {
      Pow2Monotone(j, k - 1);
    }
  }

  lemma Pow2Values()
    ensures Pow2(3) == 8 && Pow2(30) == 0x4000_0000 && Pow2(31) == TWO_31
    ensures Pow2(32) == TWO_32 && Pow2(64) == TWO_64
  {
    assert Pow2(8) == 0x100;
    assert Pow2(16) == 0x1_0000;
    assert Pow2(24) == 0x100_0000;
    assert Pow2(30) == 0x4000_0000;
    assert Pow2(40) == 0x100_0000_0000;
    assert Pow2(48) == 0x1_0000_0000_0000;
    assert Pow2(56) == 0x100_0000_0000_0000;
  }

  // ---- bitwise operators -----------------------------------------------------------------

  function BitAnd(x: nat, y: nat): nat
    decreases x
  {
    if x == 0 then 0
    else 2 * BitAnd(x / 2, y / 2) + (if x % 2 == 1 && y % 2 == 1 then 1 else 0)
  }

  function BitOr(x: nat, y: nat): nat
    decreases x + y
  {
    if x == 0 && y == 0 then 0
    else 2 * BitOr(x / 2, y / 2) + (if x % 2 == 1 || y % 2 == 1 then 1 else 0)
  }

  function BitXor(x: nat, y: nat): nat
    decreases x + y
  {
    if x == 0 && y == 0 then 0
    else 2 * BitXor(x / 2, y / 2) + (if x % 2 != y % 2 then 1 else 0)
  }

  /** Binary digit k of x. */
  function Digit(x: nat, k: nat): nat {
    x / Pow2(k) % 2
  }

  lemma DigitOfHalf(x: nat, k: nat)
    ensures Digit(x, k + 1) == Digit(x / 2, k)
  {
    var p := Pow2(k);
    var q, r := x / 2 / p, x / 2 % p;
    assert x == (2 * p) * q + (2 * r + x % 2) by {
      assert (2 * p) * q == 2 * (p * q);
    }
    DivModUnique(x, 2 * p, q, 2 * r + x % 2);
  }

  /** Each operator acts on every binary digit by itself. */
  lemma {:induction false} AndDigits(x: nat, y: nat, k: nat)
    ensures Digit(BitAnd(x, y), k) == if Digit(x, k) == 1 && Digit(y, k) == 1 then 1 else 0
    decreases k
  {
    assert BitAnd(x, y) / 2 == BitAnd(x / 2, y / 2);
    if k > 0 {
      AndDigits(x / 2, y / 2, k - 1);
      DigitOfHalf(x, k - 1);
      DigitOfHalf(y, k - 1);
      DigitOfHalf(BitAnd(x, y), k - 1);
      hide Digit;
    }
  }

  lemma {:induction false} OrDigits(x: nat, y: nat, k: nat)
    ensures Digit(BitOr(x, y), k) == if Digit(x, k) == 1 || Digit(y, k) == 1 then 1 else 0
    decreases k
  {
    assert BitOr(x, y) / 2 == BitOr(x / 2, y / 2);
    if k > 0 {
      OrDigits(x / 2, y / 2, k - 1);
      DigitOfHalf(x, k - 1);
      DigitOfHalf(y, k - 1);
      DigitOfHalf(BitOr(x, y), k - 1);
      hide Digit;
    }
  }

  lemma {:induction false} XorDigits(x: nat, y: nat, k: nat)
    ensures Digit(BitXor(x, y), k) == if Digit(x, k) != Digit(y, k) then 1 else 0
    decreases k
  {
    assert BitXor(x, y) / 2 == BitXor(x / 2, y / 2);
    if k > 0 {
      XorDigits(x / 2, y / 2, k - 1);
      DigitOfHalf(x, k - 1);
      DigitOfHalf(y, k - 1);
      DigitOfHalf(BitXor(x, y), k - 1);
      hide Digit;
    }
  }

  lemma MultipleAway(d: int, n: int)
    requires d > 0
    ensures n >= 1 ==> d * n >= d
    ensures n <= -1 ==> d * n <= -d
  {
    if n >= 1 {
      assert d * n == d + d * (n - 1);
    } else if n <= -1 {
      assert d * n == -d + d * (n + 1);
    }
  }

  lemma DivModUnique(x: int, d: int, q: int, r: int)
    requires d > 0 && x == d * q + r && 0 <= r < d
    ensures x / d == q && x % d == r
  {
    var n := x / d - q;
    assert d * n == r - x % d by {
      assert d * n == d * (x / d) - d * q;
    }
    MultipleAway(d, n);
  }

  lemma SameRemainder(x: int, y: int, d: int)
    requires d > 0
    ensures (x - y) % d == 0 <==> x % d == y % d
  {
    var n := x / d - y / d;
    assert d * n == d * (x / d) - d * (y / d);
    assert x - y == d * n + (x % d - y % d);
    if x % d >= y % d {
      DivModUnique(x - y, d, n, x % d - y % d);
    } else {
      assert d * (n - 1) == d * n - d;
      DivModUnique(x - y, d, n - 1, x % d - y % d + d);
    }
  }

  /** Narrowing keeps the value modulo 2^32 or 2^64, and that fixes the result. */
  lemma WrapIsCongruent(x: int, i: int32, l: int64)
    ensures i == Wrap32(x) <==> (x - i) % TWO_32 == 0
    ensures l == Wrap64(x) <==> (x - l) % TWO_64 == 0
  {
    SameRemainder(x, i, TWO_32);
    SameRemainder(x, l, TWO_64);
  }

  lemma RemainderDoubling(x: nat, h: nat)
    requires h > 0
    ensures x % (2 * h) == 2 * (x / 2 % h) + x % 2
  {
    var y := x / 2;
    var q, r := y / h, y % h;
    assert y == h * q + r;
    assert (2 * h) * q == 2 * (h * q);
    DivModUnique(x, 2 * h, q, 2 * r + x % 2);
  }

  /** Masking with 2^k - 1 is the remainder modulo 2^k. */
  lemma {:induction false} MaskIsRemainder(x: nat, k: nat)
    ensures BitAnd(x, Pow2(k) - 1) == x % Pow2(k)
    decreases k
  {
    var p := Pow2(k);
    if x == 0 {
      DivModUnique(0, p, 0, 0);
    } else if k == 0 {
      AndZero(x);
    } else {
      var h := Pow2(k - 1);
      MaskIsRemainder(x / 2, k - 1);
      assert (p - 1) / 2 == h - 1 && (p - 1) % 2 == 1;
      RemainderDoubling(x, h);
    }
  }

  lemma {:induction false} AndZero(x: nat)
    ensures BitAnd(x, 0) == 0
  {
    if x != 0 {
      AndZero(x / 2);
    }
  }

  /** The masked value never exceeds the mask, whatever the mask. */
  lemma {:induction false} AndAtMost(x: nat, m: nat)
    ensures BitAnd(x, m) <= m
    decreases x
  {
    if x != 0 {
      AndAtMost(x / 2, m / 2);
    }
  }

  /** Or-ing into low bits that are all zero is addition. */
  lemma {:induction false} OrDisjoint(x: nat, y: nat, k: nat)
    requires y < Pow2(k)
    ensures BitOr(x * Pow2(k), y) == x * Pow2(k) + y
    decreases k
  {
    if k == 0 {
      OrZero(x);
    } else {
      var h := Pow2(k - 1);
      assert x * Pow2(k) == 2 * (x * h);
      OrDisjoint(x, y / 2, k - 1);
    }
  }

  lemma {:induction false} OrZero(x: nat)
    ensures BitOr(x, 0) == x
  {
    if x != 0 {
      OrZero(x / 2);
    }
  }

  lemma XorSplit(x: nat, y: nat)
    ensures BitXor(x, y) == 2 * BitXor(x / 2, y / 2) + (if x % 2 != y % 2 then 1 else 0)
  {
  }

  lemma {:induction false} XorBound(x: nat, y: nat, k: nat)
    requires x < Pow2(k) && y < Pow2(k)
    ensures BitXor(x, y) < Pow2(k)
    decreases k
  {
    if k != 0 {
      XorBound(x / 2, y / 2, k - 1);
    }
  }

  /** Exclusive or with the same operand twice is the identity. */
  lemma {:induction false} XorInvolution(x: nat, y: nat)
    ensures BitXor(BitXor(x, y), y) == x
    decreases x + y
  {
    if x != 0 || y != 0 {
      var z := BitXor(x, y);
      assert z / 2 == BitXor(x / 2, y / 2);
      assert z % 2 == if x % 2 != y % 2 then 1 else 0;
      XorInvolution(x / 2, y / 2);
      XorZero(y);
    }
  }

  lemma {:induction false} XorZero(y: nat)
    ensures BitXor(0, y) == y
  {
    if y != 0 {
      XorZero(y / 2);
    }
  }

  lemma {:induction false} XorCommutes(x: nat, y: nat)
    ensures BitXor(x, y) == BitXor(y, x)
    decreases x + y
  {
    if x != 0 || y != 0 {
      XorCommutes(x / 2, y / 2);
    }
  }
}
