// Unsigned machine words as natural numbers, with the bit operators of the
// source given by what they do to each bit. Every operator's postcondition
// speaks about Bit, so code built from shifts, masks, ORs and XORs is reasoned
// about one bit at a time.
module Bits {
  function Pow2(n: nat): (r: nat)
    ensures 1 <= r
  {
    if n == 0 then 1 else 2 * Pow2(n - 1)
  }

  // The bit of weight 2^k.
  predicate Bit(x: nat, k: nat) {
    if k == 0 then x % 2 == 1 else Bit(x / 2, k - 1)
  }

  lemma NoBits(k: nat)
    ensures !Bit(0, k)
  {
  }

  lemma AllZero()
    ensures forall k: nat :: !Bit(0, k)
  {
    forall k: nat ensures !Bit(0, k) { NoBits(k); }
  }

  function Shl(x: nat, n: nat): (r: nat)
    ensures forall k: nat :: Bit(r, k) <==> n <= k && Bit(x, k - n)
  {
    if n == 0 then x else 2 * Shl(x, n - 1)
  }

  function Shr(x: nat, n: nat): (r: nat)
    ensures forall k: nat :: Bit(r, k) <==> Bit(x, k + n)
  {
    if n == 0 then x else Shr(x / 2, n - 1)
  }

  // x & (2^n - 1), which is also truncation to an n-bit unsigned type.
  function Low(x: nat, n: nat): (r: nat)
    ensures forall k: nat :: Bit(r, k) <==> k < n && Bit(x, k)
    ensures r < Pow2(n)
  {
    AllZero();
    if n == 0 then 0 else x % 2 + 2 * Low(x / 2, n - 1)
  }

  function Or(x: nat, y: nat): (r: nat)
    ensures forall k: nat :: Bit(r, k) <==> Bit(x, k) || Bit(y, k)
    decreases x + y
  {
    AllZero();
    if x == 0 then y
    else if y == 0 then x
    else (if x % 2 == 1 || y % 2 == 1 then 1 else 0) + 2 * Or(x / 2, y / 2)
  }

  function Xor(x: nat, y: nat): (r: nat)
    ensures forall k: nat :: Bit(r, k) <==> Bit(x, k) != Bit(y, k)
    decreases x + y
  {
    AllZero();
    if x == 0 then y
    else if y == 0 then x
    else (if x % 2 != y % 2 then 1 else 0) + 2 * Xor(x / 2, y / 2)
  }

  // Numbers with the same bits are equal.
  lemma {:induction false} SameBits(x: nat, y: nat)
    requires forall k: nat :: Bit(x, k) <==> Bit(y, k)
    ensures x == y
  {
    if x != y {
      assert Bit(x, 0) == Bit(y, 0);
      forall k: nat ensures Bit(x / 2, k) == Bit(y / 2, k) {
        assert Bit(x, k + 1) == Bit(y, k + 1);
      }
      SameBits(x / 2, y / 2);
    }
  }

  // A number below 2^n has no bits from n on, and conversely.
  lemma HighBits(x: nat, n: nat)
    requires x < Pow2(n)
    ensures forall k: nat :: n <= k ==> !Bit(x, k)
  {
    forall k: nat | n <= k ensures !Bit(x, k) { HighBit(x, n, k); }
  }

  lemma HighBit(x: nat, n: nat, k: nat)
    requires x < Pow2(n) && n <= k
    ensures !Bit(x, k)
  {
  }

  lemma Fits(x: nat, n: nat)
    requires forall k: nat :: n <= k ==> !Bit(x, k)
    ensures x < Pow2(n)
  {
    SameBits(x, Low(x, n));
  }

  lemma XorSelf(x: nat)
    ensures Xor(x, x) == 0
  {
  }

  lemma XorCommutes(x: nat, y: nat)
    ensures Xor(x, y) == Xor(y, x)
  {
  }

  lemma XorAssociates(x: nat, y: nat, z: nat)
    ensures Xor(Xor(x, y), z) == Xor(x, Xor(y, z))
  {
    SameBits(Xor(Xor(x, y), z), Xor(x, Xor(y, z)));
  }

  lemma XorFits(x: nat, y: nat, n: nat)
    requires x < Pow2(n) && y < Pow2(n)
    ensures Xor(x, y) < Pow2(n)
  {
  }

  type Byte = x: nat | x < 256

  // Truncation to unsigned char.
  function ToByte(x: nat): (r: Byte)
    ensures forall k: nat :: Bit(r, k) <==> k < 8 && Bit(x, k)
  {
    assert Pow2(8) == 256;
    Low(x, 8)
  }

  lemma ByteBits(x: Byte)
    ensures forall k: nat :: 8 <= k ==> !Bit(x, k)
  {
    assert Pow2(8) == 256;
    HighBits(x, 8);
  }
}
