/** One bucket of a bit vector: eight bits, numbered from the most significant. */
module BitBucket {

  const ONES: bv8 := 0xFF

  /** The bucket with bit i alone. */
  function Single(i: nat): bv8
    requires i < 8
  {
    if i == 0 then 0x80 else if i == 1 then 0x40 else if i == 2 then 0x20 else if i == 3 then 0x10
    else if i == 4 then 8 else if i == 5 then 4 else if i == 6 then 2 else 1
  }

  predicate Bit(b: bv8, i: nat)
    requires i < 8
  {
    b & Single(i) != 0
  }

  /** A bit as it is read: shifted to the end and cut. */
  lemma BitByShift(b: bv8, i: nat)
    requires i < 8
    ensures Bit(b, i) <==> (b >> (7 - i)) & 1 == 1
  {
  }

  /** The bits from bottom to top, both included. */
  function Mask(bottom: nat, top: nat): bv8
    requires bottom <= top < 8
  {
    (ONES << (7 - top + bottom)) >> bottom
  }

  lemma ShiftedOnes(k: nat, i: nat)
    requires k < 8 && i < 8
    ensures Bit(ONES << k, i) <==> i + k < 8
  {
  }

  lemma ShiftRightBit(b: bv8, k: nat, i: nat)
    requires k < 8 && i < 8
    ensures Bit(b >> k, i) <==> k <= i && Bit(b, i - k)
  {
  }

  /** A mask has the bits it is for and no others. */
  lemma MaskBit(bottom: nat, top: nat, i: nat)
    requires bottom <= top < 8 && i < 8
    ensures Bit(Mask(bottom, top), i) <==> bottom <= i <= top
  {
    ShiftRightBit(ONES << (7 - top + bottom), bottom, i);
    if bottom <= i {
      ShiftedOnes(7 - top + bottom, i - bottom);
    }
  }

  lemma BitNot(b: bv8, i: nat)
    requires i < 8
    ensures Bit(!b, i) <==> !Bit(b, i)
  {
  }

  lemma BitAnd(a: bv8, b: bv8, i: nat)
    requires i < 8
    ensures Bit(a & b, i) <==> Bit(a, i) && Bit(b, i)
  {
  }

  /** The masked bits of the second bucket and the others of the first. */
  function Select(a: bv8, b: bv8, mask: bv8): bv8 {
    (a & !mask) | (b & mask)
  }

  lemma SelectBit(a: bv8, b: bv8, mask: bv8, i: nat)
    requires i < 8
    ensures Bit(Select(a, b, mask), i) <==> if Bit(mask, i) then Bit(b, i) else Bit(a, i)
  {
  }

  lemma SelectAll(a: bv8, b: bv8)
    ensures Select(a, b, ONES) == b
  {
  }

  lemma FlippedBit(b: bv8, i: nat)
    requires i < 8
    ensures (Bit(ONES ^ b, i) <==> !Bit(b, i)) && Bit(ONES, i) && !Bit(0, i)
  {
  }

  // ---------- counting ----------

  function One(b: bv8, i: nat): nat
    requires i < 8
  {
    if Bit(b, i) then 1 else 0
  }

  /** How many of the bits from lo on, hi excluded, are set. */
  function Ones(b: bv8, lo: nat, hi: nat): nat
    requires hi <= 8
  {
    if hi <= lo then 0 else Ones(b, lo, hi - 1) + One(b, hi - 1)
  }

  /** The table of the bits set in each nibble. */
  function NibbleBitCount(v: bv8): nat {
    if v == 0 then 0
    else if v == 1 || v == 2 || v == 4 || v == 8 then 1
    else if v == 3 || v == 5 || v == 6 || v == 9 || v == 10 || v == 12 then 2
    else if v == 7 || v == 11 || v == 13 || v == 14 then 3
    else 4
  }

  lemma LowNibble(b: bv8)
    ensures NibbleBitCount(b & 0xF) == One(b, 4) + One(b, 5) + One(b, 6) + One(b, 7)
  {
  }

  lemma HighNibble(b: bv8)
    ensures NibbleBitCount((b >> 4) & 0xF) == One(b, 0) + One(b, 1) + One(b, 2) + One(b, 3)
  {
  }

  lemma OnesOfBucket(b: bv8)
    ensures Ones(b, 0, 8) == NibbleBitCount(b & 0xF) + NibbleBitCount((b >> 4) & 0xF)
  {
    LowNibble(b);
    HighNibble(b);
    assert Ones(b, 0, 0) == 0;
    assert Ones(b, 0, 2) == Ones(b, 0, 0) + One(b, 0) + One(b, 1);
    assert Ones(b, 0, 4) == Ones(b, 0, 2) + One(b, 2) + One(b, 3);
    assert Ones(b, 0, 6) == Ones(b, 0, 4) + One(b, 4) + One(b, 5);
    assert Ones(b, 0, 8) == Ones(b, 0, 6) + One(b, 6) + One(b, 7);
  }

  /** Counts the bits set, one nibble after the other. */
  method CountOnes(b: bv8) returns (n: nat)
    ensures n == Ones(b, 0, 8)
  {
    OnesOfBucket(b);
    var val := b;
    n := 0;
    for idx := 0 to 2
      invariant val == (if idx == 0 then b else if idx == 1 then b >> 4 else b >> 4 >> 4)
      invariant n == (if idx == 0 then 0 else NibbleBitCount(b & 0xF))
                     + (if idx == 2 then NibbleBitCount((b >> 4) & 0xF) else 0)
    {
      n := n + NibbleBitCount(val & 0xF);
      val := val >> 4;
    }
  }

  /** The bits with a value, among those from lo on, hi excluded. */
  function Matches(b: bv8, value: bool, lo: nat, hi: nat): nat
    requires hi <= 8
  {
    if hi <= lo then 0 else Matches(b, value, lo, hi - 1) + if Bit(b, hi - 1) == value then 1 else 0
  }

  /** What is counted in a masked bucket: its bits, or for a count of zeroes their complement. */
  function Masked(b: bv8, value: bool, mask: bv8): bv8 {
    (if value then b else !b) & mask
  }

  lemma MaskedBit(b: bv8, value: bool, lo: nat, hi: nat, i: nat)
    requires lo < hi <= 8 && i < 8
    ensures Bit(Masked(b, value, Mask(lo, hi - 1)), i) <==> lo <= i < hi && Bit(b, i) == value
  {
    BitAnd(if value then b else !b, Mask(lo, hi - 1), i);
    BitNot(b, i);
    MaskBit(lo, hi - 1, i);
  }

  lemma {:induction false} OnesMatch(v: bv8, b: bv8, value: bool, lo: nat, hi: nat, n: nat)
    requires hi <= 8 && n <= 8
    requires forall i :: 0 <= i < 8 ==> (Bit(v, i) <==> lo <= i < hi && Bit(b, i) == value)
    ensures Ones(v, 0, n) == Matches(b, value, lo, if n < hi then n else hi)
  {
    if 0 < n {
      OnesMatch(v, b, value, lo, hi, n - 1);
      assert Ones(v, 0, n) == Ones(v, 0, n - 1) + One(v, n - 1);
      assert Bit(v, n - 1) <==> lo <= n - 1 < hi && Bit(b, n - 1) == value;
    }
  }

  lemma MaskedOnes(b: bv8, value: bool, lo: nat, hi: nat)
    requires lo < hi <= 8
    ensures Ones(Masked(b, value, Mask(lo, hi - 1)), 0, 8) == Matches(b, value, lo, hi)
  {
    forall i | 0 <= i < 8
      ensures Bit(Masked(b, value, Mask(lo, hi - 1)), i) <==> lo <= i < hi && Bit(b, i) == value
    {
      MaskedBit(b, value, lo, hi, i);
    }
    OnesMatch(Masked(b, value, Mask(lo, hi - 1)), b, value, lo, hi, 8);
  }
}
