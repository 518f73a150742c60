/** Sequences of booleans packed into bytes, lowest bit first, with zeros after the last, as
    src/bitset.c stores them. */
module BitsetBytes {
  const CHAR_BIT: nat := 8
  const UCHAR_MAX: bv8 := 255

  // 1 << k
  function Mask(k: nat): bv8
    requires k < 8
  {
    if k == 0 then 1 else if k == 1 then 2 else if k == 2 then 4 else if k == 3 then 8
    else if k == 4 then 16 else if k == 5 then 32 else if k == 6 then 64 else 128
  }

  predicate Bit(b: bv8, k: nat)
    requires k < 8
  {
    b & Mask(k) != 0
  }

  // the bits in use in the last byte
  function LastMask(size: nat): bv8 {
    if size % CHAR_BIT == 0 then UCHAR_MAX else Mask(size % CHAR_BIT) - 1
  }

  function NumBytes(n: nat): nat { if n == 0 then 0 else (n + CHAR_BIT - 1) / CHAR_BIT }

  // ---------- one byte ----------

  lemma SetBit(b: bv8, k: nat, j: nat)
    requires k < 8 && j < 8
    ensures Bit(b | Mask(k), j) <==> j == k || Bit(b, j)
  {
  }

  lemma ResetBit(b: bv8, k: nat, j: nat)
    requires k < 8 && j < 8
    ensures Bit(b & !Mask(k), j) <==> j != k && Bit(b, j)
  {
  }

  lemma FlipBit(b: bv8, k: nat, j: nat)
    requires k < 8 && j < 8
    ensures Bit(b ^ Mask(k), j) <==> Bit(b, j) != (j == k)
  {
    XorBit(b, Mask(k), j);
  }

  lemma AndBit(a: bv8, b: bv8, k: nat)
    requires k < 8
    ensures Bit(a & b, k) <==> Bit(a, k) && Bit(b, k)
  {
  }

  lemma OrBit(a: bv8, b: bv8, k: nat)
    requires k < 8
    ensures Bit(a | b, k) <==> Bit(a, k) || Bit(b, k)
  {
  }

  lemma XorBit(a: bv8, b: bv8, k: nat)
    requires k < 8
    ensures Bit(a ^ b, k) <==> Bit(a, k) != Bit(b, k)
  {
    XorValues(Mask(k));
  }

  lemma XorValues(m: bv8)
    ensures m ^ m == 0 && m ^ 0 == m && 0 ^ m == m && 0 as bv8 ^ 0 == 0
  {
  }

  lemma NotBit(a: bv8, k: nat)
    requires k < 8
    ensures Bit(!a, k) <==> !Bit(a, k)
  {
  }

  lemma LastMaskBit(size: nat, k: nat)
    requires k < 8
    ensures Bit(LastMask(size), k) <==> size % 8 == 0 || k < size % 8
  {
  }

  lemma ConstantBit(k: nat)
    requires k < 8
    ensures Bit(UCHAR_MAX, k) && !Bit(0, k)
  {
  }

  // a byte is determined by its bits
  lemma SameBits(a: bv8, b: bv8)
    requires forall k | 0 <= k < 8 :: Bit(a, k) == Bit(b, k)
    ensures a == b
  {
    assert Bit(a, 0) == Bit(b, 0) && Bit(a, 1) == Bit(b, 1) && Bit(a, 2) == Bit(b, 2) && Bit(a, 3) == Bit(b, 3);
    assert Bit(a, 4) == Bit(b, 4) && Bit(a, 5) == Bit(b, 5) && Bit(a, 6) == Bit(b, 6) && Bit(a, 7) == Bit(b, 7);
  }

  function One(b: bv8, k: nat): nat
    requires k < 8
  {
    if Bit(b, k) then 1 else 0
  }

  function Ones(b: bv8): nat {
    One(b, 0) + One(b, 1) + One(b, 2) + One(b, 3) + One(b, 4) + One(b, 5) + One(b, 6) + One(b, 7)
  }

  // b & (b - 1) has one bit less
  lemma DropLowest(b: bv8)
    requires b != 0
    ensures Ones(b & (b - 1)) == Ones(b) - 1
  {
  }
}
