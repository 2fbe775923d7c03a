/** Power-of-two alignment: the bitwise code, and the arithmetic that the allocator reads into it. */
module Alignment {
  import opened Types

  function Pow2(k: nat): (p: nat)
    ensures p >= 1
  {
    if k == 0 then 1 else 2 * Pow2(k - 1)
  }

  /** Bitwise "and" of two words, bit by bit from the low end. */
  function And(x: nat, y: nat): (r: nat)
    ensures r <= x && r <= y
  {
    if x == 0 || y == 0 then 0
    else 2 * And(x / 2, y / 2) + (if x % 2 == 1 && y % 2 == 1 then 1 else 0)
  }

  /** Bitwise complement of the w low bits. */
  function Not(x: nat, w: nat): nat {
    if w == 0 then 0 else 2 * Not(x / 2, w - 1) + (1 - x % 2)
  }

  /** Bit i of a word. */
  function Bit(x: nat, i: nat): nat {
    if i == 0 then x % 2 else Bit(x / 2, i - 1)
  }

  lemma {:induction false} AndIsBitwise(x: nat, y: nat, i: nat)
    ensures Bit(And(x, y), i) == if Bit(x, i) == 1 && Bit(y, i) == 1 then 1 else 0
  {
    if i == 0 {
    } else {
      AndIsBitwise(x / 2, y / 2, i - 1);
      ZeroHasNoBits(i);
      assert x == 0 || y == 0 ==> And(x, y) == 0;
      assert x != 0 && y != 0 ==> And(x, y) / 2 == And(x / 2, y / 2);
    }
  }

  lemma {:induction false} ZeroHasNoBits(i: nat)
    ensures Bit(0, i) == 0
  {
    if i == 0 {
    } else {
      ZeroHasNoBits(i - 1);
    }
  }

  lemma {:induction false} NotIsBitwise(x: nat, w: nat, i: nat)
    ensures Bit(Not(x, w), i) == if i < w && Bit(x, i) == 0 then 1 else 0
  {
    if w == 0 {
      ZeroHasNoBits(i);
    } else if i > 0 {
      NotIsBitwise(x / 2, w - 1, i - 1);
      assert Not(x, w) / 2 == Not(x / 2, w - 1);
    }
  }

  predicate IsPowerOfTwo(val: u64) {
    val != 0 && And(val, val - 1) == 0
  }

  function AlignDown(val: u64, alignment: u64): Outcome<u64> {
    if IsPowerOfTwo(alignment) then Ok(And(val, Not(alignment - 1, 64))) else Err(InvalidAlignment)
  }

  function AlignUp(val: u64, alignment: u64): Outcome<u64> {
    if IsPowerOfTwo(alignment)
    then Ok(And(Add(val, alignment - 1), Not(alignment - 1, 64)))
    else Err(InvalidAlignment)
  }

  function AlignedBase(base: u64, alignment: u64): Outcome<u64> {
    var alignedDown := AlignDown(base, alignment);
    if !alignedDown.Ok? then alignedDown
    else if alignedDown.value != base then
      var alignedUp := AlignUp(base, alignment);
      if alignedUp.Ok? then alignedUp else Abort
    else alignedDown
  }

  /** The arithmetic reading of alignment. Alignment 0 asks for nothing. */
  predicate Multiple(x: int, a: nat) {
    a == 0 || x % a == 0
  }

  lemma {:induction false} AndSelf(x: nat)
    ensures And(x, x) == x
  {
    if x == 0 {
    } else {
      AndSelf(x / 2);
    }
  }

  /** A power of two has exactly one bit, at some position k. */
  lemma {:induction false} PowerOfTwoExponent(v: nat) returns (k: nat)
    requires v != 0 && And(v, v - 1) == 0
    ensures v == Pow2(k)
  {
    if v == 1 {
      k := 0;
    } else if v % 2 == 0 {
      assert (v - 1) / 2 == v / 2 - 1;
      var j := PowerOfTwoExponent(v / 2);
      k := j + 1;
    } else {
      assert (v - 1) / 2 == v / 2;
      AndSelf(v / 2);
      assert false;
    }
  }

  lemma {:induction false} Pow2HasOneBit(k: nat)
    ensures And(Pow2(k), Pow2(k) - 1) == 0
  {
    if k == 0 {
    } else {
      Pow2HasOneBit(k - 1);
      assert (Pow2(k) - 1) / 2 == Pow2(k - 1) - 1;
    }
  }

  lemma PowerOfTwoIff(v: u64)
    ensures IsPowerOfTwo(v) <==> exists k: nat :: v == Pow2(k)
  {
    if IsPowerOfTwo(v) {
      var k := PowerOfTwoExponent(v);
    }
    if k: nat :| v == Pow2(k) {
      Pow2HasOneBit(k);
    }
  }

  lemma {:induction false} AndAllOnes(v: nat, w: nat)
    requires v < Pow2(w)
    ensures And(v, Not(0, w)) == v
  {
    if w == 0 || v == 0 {
    } else {
      AndAllOnes(v / 2, w - 1);
      assert Not(0, w) / 2 == Not(0, w - 1);
    }
  }

  lemma MulDistributes(p: int, q: int, m: int)
    ensures (p - q) * m == p * m - q * m && (p + q) * m == p * m + q * m
  {
  }

  lemma MulAtLeast(d: int, m: int)
    requires d >= 1 && m >= 0
    ensures d * m >= m
  {
  }

  /** Multiples q * m and p * m that lie less than m apart have q == p. */
  lemma CloseProducts(p: int, q: int, m: int)
    requires -m < p * m - q * m < m
    ensures p == q
  {
    if p > q {
      MulDistributes(p, q, m);
      MulAtLeast(p - q, m);
    } else if p < q {
      MulDistributes(q, p, m);
      MulAtLeast(q - p, m);
    }
  }

  lemma DivModUnique(v: int, m: int, q: int, r: int)
    requires m > 0 && v == q * m + r && 0 <= r < m
    ensures v / m == q && v % m == r
  {
    var q', r' := v / m, v % m;
    assert v == q' * m + r';
    CloseProducts(q, q', m);
  }

  /** Dropping one low bit halves the modulus. */
  lemma HalveModulus(v: nat, m: nat)
    requires m > 0
    ensures v % (2 * m) == 2 * ((v / 2) % m) + v % 2
  {
    var q, r := (v / 2) / m, (v / 2) % m;
    assert v / 2 == q * m + r;
    assert v == q * (2 * m) + (2 * r + v % 2);
    DivModUnique(v, 2 * m, q, 2 * r + v % 2);
  }

  lemma {:induction false} NotOfLowBits(k: nat, w: nat)
    requires 0 < k && 0 < w
    ensures Not(Pow2(k) - 1, w) == 2 * Not(Pow2(k - 1) - 1, w - 1)
  {
    assert (Pow2(k) - 1) / 2 == Pow2(k - 1) - 1;
    assert (Pow2(k) - 1) % 2 == 1;
  }

  lemma {:induction false} AndEven(v: nat, m: nat)
    ensures And(v, 2 * m) == 2 * And(v / 2, m)
  {
    assert (2 * m) / 2 == m && (2 * m) % 2 == 0;
  }

  lemma HalvedRemainder(v: nat, m: nat, m2: nat)
    requires m > 0 && m2 == 2 * m
    ensures v - v % m2 == 2 * (v / 2 - (v / 2) % m)
  {
    HalveModulus(v, m);
    assert v == 2 * (v / 2) + v % 2;
  }

  /** Masking off the k low bits of a w-bit word subtracts the remainder. */
  predicate MaskSubtracts(v: nat, k: nat, w: nat) {
    And(v, Not(Pow2(k) - 1, w)) == v - v % Pow2(k)
  }

  lemma {:induction false} MaskOneMore(v: nat, half: nat, m: nat, mask: nat)
    requires half == v / 2 && m > 0 && And(half, mask) == half - half % m
    ensures And(v, 2 * mask) == v - v % (2 * m)
  {
    AndEven(v, mask);
    HalvedRemainder(v, m, 2 * m);
  }

  lemma {:induction false} HalfBelow(v: nat, w: nat)
    requires w > 0 && v < Pow2(w)
    ensures v / 2 < Pow2(w - 1)
  {
  }

  lemma {:induction false} MaskStep(v: nat, k: nat, w: nat)
    requires 0 < k <= w && MaskSubtracts(v / 2, k - 1, w - 1)
    ensures MaskSubtracts(v, k, w)
  {
    NotOfLowBits(k, w);
    MaskOneMore(v, v / 2, Pow2(k - 1), Not(Pow2(k - 1) - 1, w - 1));
    assert Pow2(k) == 2 * Pow2(k - 1);
  }

  lemma {:induction false} MaskIsRemainder(v: nat, k: nat, w: nat)
    requires v < Pow2(w) && k <= w
    ensures MaskSubtracts(v, k, w)
    decreases w
  {
    if k == 0 {
      AndAllOnes(v, w);
    } else {
      HalfBelow(v, w);
      MaskIsRemainder(v / 2, k - 1, w - 1);
      MaskStep(v, k, w);
    }
  }

  lemma {:induction false} Pow2Monotone(j: nat, k: nat)
    requires j <= k
    ensures Pow2(j) <= Pow2(k)
    decreases k
  {
    if j == k {
    } else {
      Pow2Monotone(j, k - 1);
    }
  }

  lemma {:induction false} Pow2Splits(j: nat, k: nat)
    ensures Pow2(j + k) == Pow2(j) * Pow2(k)
  {
    if k == 0 {
    } else {
      Pow2Splits(j, k - 1);
    }
  }

  lemma Pow2Of64()
    ensures Pow2(64) == U64
  {
    assert Pow2(2) == 4;
    Pow2Splits(2, 2);
    Pow2Splits(4, 4);
    Pow2Splits(8, 8);
    Pow2Splits(16, 16);
    Pow2Splits(32, 32);
  }

  /** The exponent of a machine-word power of two fits the word. */
  lemma WordExponent(a: u64) returns (k: nat)
    requires IsPowerOfTwo(a)
    ensures k < 64 && a == Pow2(k)
  {
    k := PowerOfTwoExponent(a);
    Pow2Of64();
    if k >= 64 {
      Pow2Monotone(64, k);
    }
  }

  lemma MaskWord(v: u64, a: u64)
    requires IsPowerOfTwo(a)
    ensures And(v, Not(a - 1, 64)) == v - v % a
  {
    var k := WordExponent(a);
    Pow2Of64();
    MaskIsRemainder(v, k, 64);
  }

  /** 2^64 is a multiple of every machine-word power of two. */
  lemma WordIsMultiple(a: u64)
    requires IsPowerOfTwo(a)
    ensures U64 % a == 0
  {
    var k := WordExponent(a);
    Pow2Of64();
    Pow2Splits(64 - k, k);
    DivModUnique(U64, a, Pow2(64 - k), 0);
  }

  /** So is 2^63. */
  lemma HalfIsMultiple(a: u64)
    requires IsPowerOfTwo(a)
    ensures Multiple(0x8000_0000_0000_0000, a)
  {
    var k := WordExponent(a);
    Pow2Of64();
    assert Pow2(64) == 2 * Pow2(63);
    Pow2Splits(63 - k, k);
    DivModUnique(0x8000_0000_0000_0000, a, Pow2(63 - k), 0);
  }

  /** Two multiples of a closer than a are equal. */
  lemma CloseMultiples(x: int, y: int, a: nat)
    requires a > 0 && Multiple(x, a) && Multiple(y, a) && x <= y < x + a
    ensures x == y
  {
    assert x == (x / a) * a && y == (y / a) * a;
    CloseProducts(y / a, x / a, a);
  }

  /** Multiples of a are closed under sum and difference. */
  lemma MultipleSum(x: int, y: int, a: nat)
    requires Multiple(x, a) && Multiple(y, a)
    ensures Multiple(x + y, a) && Multiple(x - y, a)
  {
    if a > 0 {
      var p, q := x / a, y / a;
      assert x == p * a && y == q * a;
      MulDistributes(p, q, a);
      DivModUnique(x + y, a, p + q, 0);
      DivModUnique(x - y, a, p - q, 0);
    }
  }

  ghost predicate IsFloor(r: int, v: int, a: nat) {
    && Multiple(r, a) && r <= v
    && forall m: int :: Multiple(m, a) && m <= v ==> m <= r
  }

  ghost predicate IsCeiling(r: int, v: int, a: nat) {
    && Multiple(r, a) && v <= r
    && forall m: int :: Multiple(m, a) && v <= m ==> r <= m
  }

  lemma RemainderIsFloor(v: nat, a: nat)
    requires a > 0
    ensures IsFloor(v - v % a, v, a) && v < v - v % a + a
  {
    var r := v - v % a;
    DivModUnique(r, a, v / a, 0);
    forall m: int | Multiple(m, a) && m <= v
      ensures m <= r
    {
      if m > r {
        CloseMultiples(r, m, a);
      }
    }
  }

  lemma CloseAboveIsCeiling(r: int, v: int, a: nat)
    requires a > 0 && Multiple(r, a) && v <= r < v + a
    ensures IsCeiling(r, v, a)
  {
    forall m: int | Multiple(m, a) && v <= m
      ensures r <= m
    {
      if m < r {
        CloseMultiples(m, r, a);
      }
    }
  }

  /** AlignDown yields the greatest multiple of the alignment that is not above the value. */
  lemma AlignDownIsFloor(v: u64, a: u64)
    ensures !IsPowerOfTwo(a) ==> AlignDown(v, a) == Err(InvalidAlignment)
    ensures IsPowerOfTwo(a) ==>
              AlignDown(v, a).Ok? &&
              var r := AlignDown(v, a).value;
              IsFloor(r, v, a) && v < r + a && (Multiple(v, a) <==> r == v)
  {
    if IsPowerOfTwo(a) {
      MaskWord(v, a);
      RemainderIsFloor(v, a);
    }
  }

  /** Above the last aligned word the sum in AlignUp wraps. */
  lemma WrappedSum(v: u64, a: u64, r: nat)
    requires IsPowerOfTwo(a) && v > U64 - a
    requires Multiple(r, a) && r <= v + a - 1 - U64
    ensures r == 0 && !Multiple(v, a)
  {
    CloseMultiples(0, r, a);
    WordIsMultiple(a);
    if Multiple(v, a) {
      CloseMultiples(v, U64, a);
    }
  }

  /** AlignUp yields the least multiple not below the value, unless the sum wraps, and then it yields 0. */
  lemma AlignUpIsCeiling(v: u64, a: u64)
    ensures !IsPowerOfTwo(a) ==> AlignUp(v, a) == Err(InvalidAlignment)
    ensures IsPowerOfTwo(a) && v <= U64 - a ==>
              AlignUp(v, a).Ok? && var r := AlignUp(v, a).value; IsCeiling(r, v, a) && r < v + a
    ensures IsPowerOfTwo(a) && v > U64 - a ==> AlignUp(v, a) == Ok(0) && !Multiple(v, a)
  {
    if IsPowerOfTwo(a) {
      AlignDownIsFloor(Add(v, a - 1), a);
      if v <= U64 - a {
        CloseAboveIsCeiling(AlignUp(v, a).value, v, a);
      } else {
        WrappedSum(v, a, AlignUp(v, a).value);
      }
    }
  }

  /** The allocator's rounding: the least aligned address not below the base, or 0 when there is none in a word. */
  lemma AlignedBaseIsCeiling(base: u64, a: u64)
    ensures !IsPowerOfTwo(a) ==> AlignedBase(base, a) == Err(InvalidAlignment)
    ensures IsPowerOfTwo(a) && base <= U64 - a ==>
              AlignedBase(base, a).Ok? && var r := AlignedBase(base, a).value; IsCeiling(r, base, a) && r < base + a
    ensures IsPowerOfTwo(a) && base > U64 - a ==> AlignedBase(base, a) == Ok(0)
  {
    AlignDownIsFloor(base, a);
    AlignUpIsCeiling(base, a);
  }

  /** A nonzero multiple of the alignment is at least the alignment. */
  lemma AlignedSizeCoversAlignment(size: u64, a: u64)
    requires size > 0 && Multiple(size, a)
    ensures a <= size
  {
    if a > size {
      DivModUnique(size, a, 0, size);
    }
  }
}
