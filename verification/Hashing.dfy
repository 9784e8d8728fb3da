/** Hashing: FNV-1a over names (run time and generator), the masked hash of a compound key that
    picks a slot, and the packing of two ints into one long. */
module Hashing {
  import opened JavaInt

  const FNV_32_PRIME: int32 := 0x0100_0193
  const FNV_32_SEED: int32 := 0x811C_9DC5 - TWO_32

  /** The inverse of the prime modulo 2^32: it exists because the prime is odd. */
  const FNV_32_INVERSE := 0x359C_449B

  // ---- FNV-1a ----------------------------------------------------------------------------

  function Xor32(x: int32, y: int32): (r: int32)
    ensures Unsigned32(r) == BitXor(Unsigned32(x), Unsigned32(y))
  {
    Pow2Values();
    XorBound(Unsigned32(x), Unsigned32(y), 32);
    Signed32(BitXor(Unsigned32(x), Unsigned32(y)))
  }

  /** One round: exclusive-or the character in, then multiply, keeping the low 32 bits. */
  function FnvStep(state: int32, c: char16): int32 {
    Wrap32(Xor32(state, c) * FNV_32_PRIME)
  }

  function Fnv1a(state: int32, name: seq<char16>): int32
    decreases |name|
  {
    if name == [] then state else Fnv1a(FnvStep(state, name[0]), name[1..])
  }

  /** The part of a byte string that C string functions see. */
  function UntilNul(s: seq<byte>): (u: seq<byte>)
    ensures u <= s && 0 !in u
    ensures |u| < |s| ==> s[|u|] == 0
  {
    if s == [] || s[0] == 0 then [] else [s[0]] + UntilNul(s[1..])
  }

  /** Run-time hash of a name, over 16-bit characters. */
  method HashName(value: seq<char16>) returns (rv: int32)
    ensures rv == Fnv1a(FNV_32_SEED, value)
  {
    rv := FNV_32_SEED;
    var i := 0;
    while i < |value|
      invariant 0 <= i <= |value|
      invariant Fnv1a(rv, value[i..]) == Fnv1a(FNV_32_SEED, value)
    {
      rv := Xor32(rv, value[i]);
      rv := Wrap32(rv * FNV_32_PRIME);
      assert value[i..][1..] == value[i + 1..];
      i := i + 1;
    }
  }

  /** The generator's hash of a name, over the bytes before the first NUL. */
  method HashWord(word: seq<byte>, seed: int32) returns (hash: int32)
    ensures hash == Fnv1a(seed, UntilNul(word))
  {
    hash := seed;
    var p := 0;
    while p < |word| && word[p] != 0
      invariant 0 <= p <= |word|
      invariant Fnv1a(hash, UntilNul(word[p..])) == Fnv1a(seed, UntilNul(word))
    {
      assert UntilNul(word[p..])[1..] == UntilNul(word[p + 1..]) by {
        assert word[p..][1..] == word[p + 1..];
      }
      XorSymmetric(word[p], hash);
      hash := Wrap32(Xor32(word[p], hash) * FNV_32_PRIME);
      p := p + 1;
    }
  }

  /** A round is the published one: exclusive-or with the character, multiply modulo 2^32. */
  lemma StepIsFnv1a(state: int32, c: char16)
    ensures Unsigned32(FnvStep(state, c)) == BitXor(Unsigned32(state), c) * 0x0100_0193 % 0x1_0000_0000
  {
    hide BitXor;
    var x: int := Xor32(state, c);
    var u: int := Unsigned32(x);
    assert u == BitXor(Unsigned32(state), c);
    hide Xor32;
    var d := if x < 0 then 0x0100_0193 else 0;
    var p, q := u * 0x0100_0193, x * 0x0100_0193;
    assert p - q == 0x1_0000_0000 * d;
    DivModUnique(p - q, 0x1_0000_0000, d, 0);
    SameRemainder(p, q, 0x1_0000_0000);
  }

  /** Exclusive-or of two hexadecimal digits. */
  function Nibble(x: nat, y: nat): nat {
    (if x / 8 != y / 8 then 8 else 0) + (if x / 4 % 2 != y / 4 % 2 then 4 else 0)
    + (if x / 2 % 2 != y / 2 % 2 then 2 else 0) + (if x % 2 != y % 2 then 1 else 0)
  }

  lemma XorDigit(h: nat, g: nat, a: nat, b: nat)
    requires a < 2 && b < 2
    ensures BitXor(2 * h + a, 2 * g + b) == 2 * BitXor(h, g) + (if a != b then 1 else 0)
  {
    hide BitXor;
    XorSplit(2 * h + a, 2 * g + b);
    assert (2 * h + a) / 2 == h && (2 * g + b) / 2 == g;
  }

  lemma BinaryDigits(x: nat)
    requires x < 16
    ensures x == 8 * (x / 8) + 4 * (x / 4 % 2) + 2 * (x / 2 % 2) + x % 2
  {
  }

  lemma XorHex(h: nat, g: nat, x: nat, y: nat)
    requires x < 16 && y < 16
    ensures BitXor(16 * h + x, 16 * g + y) == 16 * BitXor(h, g) + Nibble(x, y)
  {
    hide BitXor;
    var x3, x2, x1, x0 := x / 8, x / 4 % 2, x / 2 % 2, x % 2;
    var y3, y2, y1, y0 := y / 8, y / 4 % 2, y / 2 % 2, y % 2;
    BinaryDigits(x);
    BinaryDigits(y);
    XorDigit(h, g, x3, y3);
    XorDigit(2 * h + x3, 2 * g + y3, x2, y2);
    XorDigit(4 * h + 2 * x3 + x2, 4 * g + 2 * y3 + y2, x1, y1);
    XorDigit(8 * h + 4 * x3 + 2 * x2 + x1, 8 * g + 4 * y3 + 2 * y2 + y1, x0, y0);
  }

  lemma SeedXorA()
    ensures BitXor(0x811C_9DC5, 0x61) == 0x811C_9DA4
  {
    hide BitXor;
    assert Nibble(0x5, 0x1) == 0x4 && Nibble(0xC, 0x6) == 0xA;
    hide Nibble;
    XorHex(0x811_C9DC, 0x6, 0x5, 0x1);
    XorHex(0x81_1C9D, 0, 0xC, 0x6);
    XorZero(0x81_1C9D);
    XorCommutes(0x81_1C9D, 0);
  }

  lemma ShortNames(state: int32, c: char16)
    ensures Fnv1a(state, []) == state
    ensures Fnv1a(state, [c]) == FnvStep(state, c)
  {
    assert [c][1..] == [];
  }

  /** Published hashes of the empty name and of "a" (appendix C of draft-eastlake-fnv). */
  lemma PublishedHashes()
    ensures Unsigned32(Fnv1a(FNV_32_SEED, [])) == 0x811C_9DC5
    ensures Unsigned32(Fnv1a(FNV_32_SEED, [0x61])) == 0xE40C_292C
  {
    hide Fnv1a, FnvStep, BitXor;
    ShortNames(FNV_32_SEED, 0x61);
    SeedXorA();
    StepIsFnv1a(FNV_32_SEED, 0x61);
  }

  lemma XorSymmetric(x: int32, y: int32)
    ensures Xor32(x, y) == Xor32(y, x)
  {
    XorCommutes(Unsigned32(x), Unsigned32(y));
  }

  lemma XorCancels(x: int32, y: int32)
    ensures Xor32(Xor32(x, y), y) == x
  {
    XorInvolution(Unsigned32(x), Unsigned32(y));
  }

  /** Multiplying by the prime loses nothing: multiplying by its inverse gives the value back. */
  lemma PrimeIsInvertible(x: int32)
    ensures Wrap32(Wrap32(x * FNV_32_PRIME) * FNV_32_INVERSE) == x
  {
    var t := 0x359C_449B * 0x0100_0193 / TWO_32;
    assert 0x359C_449B * 0x0100_0193 == 1 + TWO_32 * t;
    var q := x * FNV_32_PRIME / TWO_32;
    var r := x * FNV_32_PRIME % TWO_32;
    var w := Wrap32(x * FNV_32_PRIME);
    var e := if r < TWO_31 then 0 else 1;
    assert w == x * FNV_32_PRIME - TWO_32 * (q + e);
    var m := x * t - (q + e) * FNV_32_INVERSE;
    assert w * FNV_32_INVERSE == x + TWO_32 * m;
    if x >= 0 {
      DivModUnique(w * FNV_32_INVERSE, TWO_32, m, x);
    } else {
      DivModUnique(w * FNV_32_INVERSE, TWO_32, m - 1, x + TWO_32);
    }
  }

  /** A round is a bijection of the state for a fixed character ... */
  lemma StepInjectiveInState(s: int32, s': int32, c: char16)
    ensures FnvStep(s, c) == FnvStep(s', c) <==> s == s'
  {
    PrimeIsInvertible(Xor32(s, c));
    PrimeIsInvertible(Xor32(s', c));
    XorCancels(s, c);
    XorCancels(s', c);
  }

  /** ... and injective in the character for a fixed state. */
  lemma StepInjectiveInChar(s: int32, c: char16, d: char16)
    ensures FnvStep(s, c) == FnvStep(s, d) <==> c == d
  {
    PrimeIsInvertible(Xor32(s, c));
    PrimeIsInvertible(Xor32(s, d));
    XorSymmetric(s, c);
    XorSymmetric(s, d);
    XorCancels(c, s);
    XorCancels(d, s);
  }

  lemma {:induction false} FnvInjectiveInState(s: int32, s': int32, name: seq<char16>)
    ensures Fnv1a(s, name) == Fnv1a(s', name) <==> s == s'
    decreases |name|
  {
    if name != [] {
      StepInjectiveInState(s, s', name[0]);
      FnvInjectiveInState(FnvStep(s, name[0]), FnvStep(s', name[0]), name[1..]);
    }
  }

  lemma {:induction false} FnvAppend(s: int32, a: seq<char16>, b: seq<char16>)
    ensures Fnv1a(s, a + b) == Fnv1a(Fnv1a(s, a), b)
    decreases |a|
  {
    if a == [] {
      assert a + b == b;
    } else {
      assert (a + b)[1..] == a[1..] + b;
      FnvAppend(FnvStep(s, a[0]), a[1..], b);
    }
  }

  /** Two names that agree everywhere except possibly at `i` get the same id exactly when they
      are the same name. */
  lemma OneCharacterDecidesTheId(a: seq<char16>, b: seq<char16>, i: nat, seed: int32)
    requires i < |a| == |b| && a[..i] == b[..i] && a[i + 1..] == b[i + 1..]
    ensures Fnv1a(seed, a) == Fnv1a(seed, b) <==> a == b
  {
    assert a == a[..i] + ([a[i]] + a[i + 1..]);
    assert b == b[..i] + ([b[i]] + b[i + 1..]);
    FnvAppend(seed, a[..i], [a[i]] + a[i + 1..]);
    FnvAppend(seed, b[..i], [b[i]] + b[i + 1..]);
    var s := Fnv1a(seed, a[..i]);
    assert ([a[i]] + a[i + 1..])[1..] == a[i + 1..];
    assert ([b[i]] + b[i + 1..])[1..] == b[i + 1..];
    FnvInjectiveInState(FnvStep(s, a[i]), FnvStep(s, b[i]), a[i + 1..]);
    StepInjectiveInChar(s, a[i], b[i]);
  }

  /** A NUL-free byte string hashes the same in the generator and at run time, where each of its
      bytes is one character. In particular every ASCII name does. */
  lemma {:induction false} GeneratorAndRuntimeAgree(name: seq<byte>)
    ensures UntilNul(name) == name <==> 0 !in name
    ensures 0 !in name ==> Fnv1a(FNV_32_SEED, UntilNul(name)) == Fnv1a(FNV_32_SEED, name)
  {
    if name != [] {
      GeneratorAndRuntimeAgree(name[1..]);
      assert name == [name[0]] + name[1..];
    }
  }

  // ---- compound keys and slots -----------------------------------------------------------

  /** `(keyPartA << 32) | (keyPartB & 0xFFFFFFFFL)` on signed 64-bit values. */
  function CompoundKey(keyPartA: int32, keyPartB: int32): int64 {
    var high := Unsigned64(Wrap64(keyPartA * 0x1_0000_0000));
    var low := BitAnd(Unsigned64(keyPartB), 0xFFFF_FFFF);
    CompoundKeyBits(keyPartA, keyPartB);
    Signed64(BitOr(high, low))
  }

  lemma CompoundKeyBits(keyPartA: int32, keyPartB: int32)
    ensures Unsigned64(Wrap64(keyPartA * 0x1_0000_0000)) == Unsigned32(keyPartA) * 0x1_0000_0000
    ensures BitAnd(Unsigned64(keyPartB), 0xFFFF_FFFF) == Unsigned32(keyPartB)
    ensures BitOr(Unsigned32(keyPartA) * 0x1_0000_0000, Unsigned32(keyPartB))
         == Unsigned32(keyPartA) * 0x1_0000_0000 + Unsigned32(keyPartB)
  {
    hide BitAnd, BitOr, Pow2;
    Pow2Values();
    MaskIsRemainder(Unsigned64(keyPartB), 32);
    OrDisjoint(Unsigned32(keyPartA), Unsigned32(keyPartB), 32);
  }

  lemma CompoundKeyIsSum(keyPartA: int32, keyPartB: int32)
    ensures Unsigned64(CompoundKey(keyPartA, keyPartB))
         == Unsigned32(keyPartA) * 0x1_0000_0000 + Unsigned32(keyPartB)
  {
    CompoundKeyBits(keyPartA, keyPartB);
  }

  /** Reading the two parts back out of a compound key. */
  function KeyPartA(key: int64): int32 {
    Signed32(Unsigned64(key) / 0x1_0000_0000)
  }

  function KeyPartB(key: int64): int32 {
    Signed32(Unsigned64(key) % 0x1_0000_0000)
  }

  /** Packing is invertible on every pair of signed ints ... */
  lemma CompoundKeyRoundTrip(keyPartA: int32, keyPartB: int32)
    ensures KeyPartA(CompoundKey(keyPartA, keyPartB)) == keyPartA
    ensures KeyPartB(CompoundKey(keyPartA, keyPartB)) == keyPartB
  {
    var a, b := Unsigned32(keyPartA), Unsigned32(keyPartB);
    CompoundKeyIsSum(keyPartA, keyPartB);
    hide CompoundKey;
    DivModUnique(Unsigned64(CompoundKey(keyPartA, keyPartB)), 0x1_0000_0000, a, b);
  }

  /** ... and every long is the packing of its parts: keys and pairs correspond one to one. */
  lemma CompoundKeyOnto(key: int64)
    ensures CompoundKey(KeyPartA(key), KeyPartB(key)) == key
  {
    var k := CompoundKey(KeyPartA(key), KeyPartB(key));
    CompoundKeyIsSum(KeyPartA(key), KeyPartB(key));
    hide CompoundKey;
    assert Unsigned64(k) == Unsigned64(key);
  }

  /** Multiply by 31 and fold the two halves of the long together. */
  function Fold(value: int64): int32 {
    var hash := Wrap64(value * 31);
    Xor32(Wrap32(hash), Signed32(Unsigned64(hash) / 0x1_0000_0000))
  }

  /** Slot of a key: the masked fold. */
  function HashMasked(value: int64, mask: int32): (slot: int32)
    requires mask >= 0
    ensures 0 <= slot <= mask
  {
    AndAtMost(Unsigned32(Fold(value)), mask);
    BitAnd(Unsigned32(Fold(value)), mask)
  }

  /** For a power-of-two capacity the slot is the remainder of the fold. */
  lemma SlotIsRemainder(value: int64, k: nat, capacity: int32)
    requires capacity == Pow2(k)
    ensures HashMasked(value, capacity - 1) == Unsigned32(Fold(value)) % capacity
  {
    MaskIsRemainder(Unsigned32(Fold(value)), k);
  }

  /** When the table doubles, a key stays in its slot or moves up by the old capacity. */
  lemma DoublingKeepsOrShifts(key: int64, k: nat, capacity: int32)
    requires k < 30 && capacity == Pow2(k) <= 0x2000_0000
    ensures HashMasked(key, 2 * capacity - 1)
         in {HashMasked(key, capacity - 1), HashMasked(key, capacity - 1) + capacity}
  {
    hide Fold, BitAnd;
    var folded := Unsigned32(Fold(key));
    MaskIsRemainder(folded, k);
    MaskIsRemainder(folded, k + 1);
    RemainderOfDouble(folded, capacity);
  }

  /** Low half of a compound key times 31. */
  function LowHalf(b: uint32): uint32 {
    (b as int) * 31 % 0x1_0000_0000
  }

  /** High half of a compound key times 31, with what the low half carries over. */
  function HighHalf(a: uint32, b: uint32): uint32 {
    ((a as int) * 31 + (b as int) * 31 / 0x1_0000_0000) % 0x1_0000_0000
  }

  lemma FoldOfHalves(a: uint32, b: uint32, value: int64)
    requires Unsigned64(value) == a * 0x1_0000_0000 + b
    ensures Fold(value) == Xor32(Signed32(LowHalf(b)), Signed32(HighHalf(a, b)))
  {
    var c: int, l: int, r: int := b * 31 / 0x1_0000_0000, LowHalf(b), HighHalf(a, b);
    var q := (31 * a + c) / 0x1_0000_0000;
    var hash := Wrap64(value * 31);
    ProductOfParts(a, b, value, q, r, l);
    DivModUnique(Unsigned64(hash), 0x1_0000_0000, r, l);
    DivModUnique(hash, 0x1_0000_0000, if hash < 0 then r - 0x1_0000_0000 else r, l);
  }

  lemma ProductOfParts(a: uint32, b: uint32, value: int64, q: int, r: int, l: int)
    requires Unsigned64(value) == a * 0x1_0000_0000 + b
    requires 31 * a + b * 31 / 0x1_0000_0000 == 0x1_0000_0000 * q + r && 0 <= r < 0x1_0000_0000
    requires l == b * 31 % 0x1_0000_0000
    ensures Unsigned64(Wrap64(value * 31)) == r * 0x1_0000_0000 + l
  {
    var e := if value < 0 then 31 else 0;
    DivModUnique(value * 31, TWO_64, q - e, r * 0x1_0000_0000 + l);
  }

  lemma ThirtyOneSeparates(a: uint32, a': uint32, n: int)
    requires 31 * (a - a') == 0x1_0000_0000 * n
    ensures a == a'
  {
    var m := 0xBDEF_7BDF * n - 23 * (a - a');
    assert a - a' == 0x1_0000_0000 * m;
  }

  lemma HighHalfInjective(a: uint32, a': uint32, b: uint32)
    ensures HighHalf(a, b) == HighHalf(a', b) <==> a == a'
  {
    if HighHalf(a, b) == HighHalf(a', b) {
      var c := b * 31 / 0x1_0000_0000;
      var x, x' := (a as int) * 31 + c, (a' as int) * 31 + c;
      ThirtyOneSeparates(a, a', x / 0x1_0000_0000 - x' / 0x1_0000_0000);
    }
  }

  /** Keys that share their second part collide before masking only if they are equal: for a fixed
      second part the folded hash is injective in the first. */
  lemma FoldSeparatesPartA(keyPartA: int32, keyPartA': int32, keyPartB: int32)
    ensures Fold(CompoundKey(keyPartA, keyPartB)) == Fold(CompoundKey(keyPartA', keyPartB)) <==> keyPartA == keyPartA'
  {
    hide CompoundKey, Xor32, Fold, LowHalf, HighHalf;
    var a, a', b := Unsigned32(keyPartA), Unsigned32(keyPartA'), Unsigned32(keyPartB);
    CompoundKeyIsSum(keyPartA, keyPartB);
    CompoundKeyIsSum(keyPartA', keyPartB);
    FoldOfHalves(a, b, CompoundKey(keyPartA, keyPartB));
    FoldOfHalves(a', b, CompoundKey(keyPartA', keyPartB));
    HighHalfInjective(a, a', b);
    var low, high, high' := Signed32(LowHalf(b)), Signed32(HighHalf(a, b)), Signed32(HighHalf(a', b));
    XorSymmetric(low, high);
    XorSymmetric(low, high');
    XorCancels(high, low);
    XorCancels(high', low);
  }

  lemma RemainderOfDouble(x: nat, n: nat)
    requires n > 0
    ensures x % (2 * n) in {x % n, x % n + n}
  {
    var q, r := x / (2 * n), x % (2 * n);
    assert x == 2 * n * q + r;
    if r < n {
      assert x == n * (2 * q) + r;
      DivModUnique(x, n, 2 * q, r);
    } else {
      assert x == n * (2 * q + 1) + (r - n);
      DivModUnique(x, n, 2 * q + 1, r - n);
    }
  }
}
