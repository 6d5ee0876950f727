/** 64-bit device addresses (src/address.rs) and the bit-level helpers the search uses on
    `u64` values: single-bit masks, bit tests and the little-endian byte split.
    Bit positions are `u8` values below 64, as the search's own indices are. */
module Addresses {

  /** A bit position of a 64-bit value, counted from the least-significant bit. */
  type BitIndex = i: bv8 | i < 64

  /** `1_u64 << i`. */
  function Mask(i: BitIndex): bv64 {
    (1 as bv64) << i
  }

  /** Bit `i` of `a` is set: `a & (1 << i) != 0`. */
  predicate Bit(a: bv64, i: BitIndex) {
    a & Mask(i) != 0
  }

  lemma BitOfSetSame(a: bv64, i: BitIndex)
    ensures Bit(a | Mask(i), i)
  {}

  lemma BitOfSetOther(a: bv64, i: BitIndex, j: BitIndex)
    requires i != j
    ensures Bit(a | Mask(i), j) == Bit(a, j)
  {}

  /** Setting bit `i` (`a |= 1 << i`) makes bit `i` 1 and changes no other bit. */
  lemma BitOfSet(a: bv64, i: BitIndex, j: BitIndex)
    ensures Bit(a | Mask(i), j) <==> j == i || Bit(a, j)
  {
    if i == j { BitOfSetSame(a, i); } else { BitOfSetOther(a, i, j); }
  }

  lemma BitOfClearSame(a: bv64, i: BitIndex)
    ensures !Bit(a & !Mask(i), i)
  {}

  lemma BitOfClearOther(a: bv64, i: BitIndex, j: BitIndex)
    requires i != j
    ensures Bit(a & !Mask(i), j) == Bit(a, j)
  {}

  /** Clearing bit `i` (`a &= !(1 << i)`) makes bit `i` 0 and changes no other bit. */
  lemma BitOfClear(a: bv64, i: BitIndex, j: BitIndex)
    ensures Bit(a & !Mask(i), j) <==> j != i && Bit(a, j)
  {
    if i == j { BitOfClearSame(a, i); } else { BitOfClearOther(a, i, j); }
  }

  /** `if v { a |= 1 << i } else { a &= !(1 << i) }`. */
  function SetBit(a: bv64, i: BitIndex, v: bool): bv64 {
    if v then a | Mask(i) else a & !Mask(i)
  }

  /** Assigning bit `i` makes it `v` and changes no other bit. */
  lemma BitOfSetBit(a: bv64, i: BitIndex, v: bool, j: BitIndex)
    ensures Bit(SetBit(a, i, v), j) == (if j == i then v else Bit(a, j))
  {
    if v { BitOfSet(a, i, j); } else { BitOfClear(a, i, j); }
  }

  /** No bit of 0 is set. */
  lemma BitOfZero(j: BitIndex)
    ensures !Bit(0, j)
  {}

  /** Eight agreeing bits make an agreeing byte. */
  lemma ByteFromBits(a: bv64, b: bv64, k: bv8)
    requires k < 8
    requires Bit(a, 8 * k + 0) == Bit(b, 8 * k + 0) && Bit(a, 8 * k + 1) == Bit(b, 8 * k + 1)
    requires Bit(a, 8 * k + 2) == Bit(b, 8 * k + 2) && Bit(a, 8 * k + 3) == Bit(b, 8 * k + 3)
    requires Bit(a, 8 * k + 4) == Bit(b, 8 * k + 4) && Bit(a, 8 * k + 5) == Bit(b, 8 * k + 5)
    requires Bit(a, 8 * k + 6) == Bit(b, 8 * k + 6) && Bit(a, 8 * k + 7) == Bit(b, 8 * k + 7)
    ensures a & (0xFF << (8 * k)) == b & (0xFF << (8 * k))
  {}

  lemma SameBit(a: bv64, b: bv64, j: BitIndex)
    requires forall i: BitIndex :: Bit(a, i) == Bit(b, i)
    ensures Bit(a, j) == Bit(b, j)
  {}

  lemma ByteAgrees(a: bv64, b: bv64, k: bv8)
    requires k < 8
    requires forall i: BitIndex :: Bit(a, i) == Bit(b, i)
    ensures a & (0xFF << (8 * k)) == b & (0xFF << (8 * k))
  {
    SameBit(a, b, 8 * k + 0); SameBit(a, b, 8 * k + 1);
    SameBit(a, b, 8 * k + 2); SameBit(a, b, 8 * k + 3);
    SameBit(a, b, 8 * k + 4); SameBit(a, b, 8 * k + 5);
    SameBit(a, b, 8 * k + 6); SameBit(a, b, 8 * k + 7);
    ByteFromBits(a, b, k);
  }

  /** A 64-bit value is determined by its 64 bits. */
  lemma BitsDetermineValue(a: bv64, b: bv64)
    requires forall i: BitIndex :: Bit(a, i) == Bit(b, i)
    ensures a == b
  {
    ByteAgrees(a, b, 0); ByteAgrees(a, b, 1); ByteAgrees(a, b, 2); ByteAgrees(a, b, 3);
    ByteAgrees(a, b, 4); ByteAgrees(a, b, 5); ByteAgrees(a, b, 6); ByteAgrees(a, b, 7);
  }

  /** `a` and `b` have the same bits below position `i`. */
  ghost predicate Agree(a: bv64, b: bv64, i: bv8)
    requires i <= 64
  {
    forall j: BitIndex :: j < i ==> Bit(a, j) == Bit(b, j)
  }

  /** `a` comes before `b` when compared from bit `i` upwards: at the lowest position from
      `i` on where they differ, `a` has a 0. */
  predicate LessFrom(a: bv64, b: bv64, i: bv8)
    requires i <= 64
    decreases 64 - i as int
  {
    i < 64 && (if Bit(a, i) == Bit(b, i) then LessFrom(a, b, i + 1) else !Bit(a, i))
  }

  /** The order in which the search finds addresses: the lowest bit is the most significant
      one, so this is the numeric order of the bit-reversed values, "lowest to highest,
      little endian". */
  predicate LsbLess(a: bv64, b: bv64) {
    LessFrom(a, b, 0)
  }

  lemma {:induction false} LessFromIrreflexive(a: bv64, i: bv8)
    requires i <= 64
    ensures !LessFrom(a, a, i)
    decreases 64 - i as int
  {
    if i < 64 {
      LessFromIrreflexive(a, i + 1);
    }
  }

  lemma {:induction false} LessFromTransitive(a: bv64, b: bv64, c: bv64, i: bv8)
    requires i <= 64
    requires LessFrom(a, b, i) && LessFrom(b, c, i)
    ensures LessFrom(a, c, i)
    decreases 64 - i as int
  {
    if Bit(a, i) == Bit(b, i) && Bit(b, i) == Bit(c, i) {
      LessFromTransitive(a, b, c, i + 1);
    }
  }

  lemma {:induction false} LessFromTotal(a: bv64, b: bv64, i: bv8)
    requires i <= 64
    requires !LessFrom(a, b, i) && !LessFrom(b, a, i)
    ensures forall j: BitIndex :: i <= j ==> Bit(a, j) == Bit(b, j)
    decreases 64 - i as int
  {
    if i < 64 {
      LessFromTotal(a, b, i + 1);
    }
  }

  /** The search order is a strict total order on 64-bit values. */
  lemma LsbLessIrreflexive(a: bv64)
    ensures !LsbLess(a, a)
  {
    LessFromIrreflexive(a, 0);
  }

  lemma LsbLessTransitive(a: bv64, b: bv64, c: bv64)
    requires LsbLess(a, b) && LsbLess(b, c)
    ensures LsbLess(a, c)
  {
    LessFromTransitive(a, b, c, 0);
  }

  lemma LsbLessTotal(a: bv64, b: bv64)
    ensures a == b || LsbLess(a, b) || LsbLess(b, a)
  {
    if !LsbLess(a, b) && !LsbLess(b, a) {
      LessFromTotal(a, b, 0);
      BitsDetermineValue(a, b);
    }
  }

  lemma {:induction false} LessFromAgreeing(a: bv64, b: bv64, j: bv8, i: bv8)
    requires j <= i <= 64 && Agree(a, b, i)
    ensures LessFrom(a, b, j) == LessFrom(a, b, i)
    decreases i - j
  {
    if j < i {
      assert Bit(a, j) == Bit(b, j);
      LessFromAgreeing(a, b, j + 1, i);
    }
  }

  /** Below a common prefix the order is decided by the bits from `i` on. */
  lemma LessAfterPrefix(a: bv64, b: bv64, i: bv8)
    requires i <= 64 && Agree(a, b, i)
    ensures LsbLess(a, b) == LessFrom(a, b, i)
  {
    LessFromAgreeing(a, b, 0, i);
  }

  /** `a` comes before `b` when they agree below `k` and `k` is the first place `b` has a 1
      where `a` has a 0. */
  lemma LessAtFirstDifference(a: bv64, b: bv64, k: BitIndex)
    requires Agree(a, b, k) && !Bit(a, k) && Bit(b, k)
    ensures LsbLess(a, b)
  {
    LessAfterPrefix(a, b, k);
  }

  lemma AgreeExtend(a: bv64, b: bv64, i: BitIndex)
    requires Agree(a, b, i) && Bit(a, i) == Bit(b, i)
    ensures Agree(a, b, i + 1)
  {}

  lemma LessFromHere(a: bv64, b: bv64, i: bv8)
    requires i <= 64 && LessFrom(a, b, i)
    ensures i < 64
    ensures Bit(a, i) == Bit(b, i) ==> LessFrom(a, b, i + 1)
    ensures Bit(a, i) != Bit(b, i) ==> !Bit(a, i) && Bit(b, i)
  {}

  lemma AgreeShrink(a: bv64, b: bv64, i: bv8, j: bv8)
    requires j <= i <= 64 && Agree(a, b, i)
    ensures Agree(a, b, j)
  {}

  lemma AgreeSymmetric(a: bv64, b: bv64, i: bv8)
    requires i <= 64 && Agree(a, b, i)
    ensures Agree(b, a, i)
  {}

  lemma AgreeTransitive(a: bv64, b: bv64, c: bv64, i: bv8)
    requires i <= 64 && Agree(a, b, i) && Agree(b, c, i)
    ensures Agree(a, c, i)
  {}

  lemma {:induction false} LessFromDifference(a: bv64, b: bv64, i: bv8) returns (k: BitIndex)
    requires i <= 64 && Agree(a, b, i) && LessFrom(a, b, i)
    ensures Agree(a, b, k) && !Bit(a, k) && Bit(b, k)
    decreases 64 - i as int
  {
    LessFromHere(a, b, i);
    if Bit(a, i) != Bit(b, i) {
      k := i;
    } else {
      AgreeExtend(a, b, i);
      k := LessFromDifference(a, b, i + 1);
    }
  }

  /** Conversely, `a` comes before `b` only at a first difference where `a` has a 0. */
  lemma FirstDifference(a: bv64, b: bv64) returns (k: BitIndex)
    requires LsbLess(a, b)
    ensures Agree(a, b, k) && !Bit(a, k) && Bit(b, k)
  {
    k := LessFromDifference(a, b, 0);
  }

  /** Byte `k` of `x`, counted from the least-significant byte. */
  function ByteAt(x: bv64, k: bv8): bv8
    requires k < 8
  {
    ((x >> (8 * k)) & 0xFF) as bv8
  }

  /** `x.to_le_bytes()`: the eight bytes of `x`, least-significant first. */
  function LeBytes(x: bv64): (r: seq<bv8>)
    ensures |r| == 8
  {
    [ByteAt(x, 0), ByteAt(x, 1), ByteAt(x, 2), ByteAt(x, 3),
     ByteAt(x, 4), ByteAt(x, 5), ByteAt(x, 6), ByteAt(x, 7)]
  }

  /** Byte `b` moved to byte position `k` of a 64-bit value. */
  function Widen(b: bv8, k: bv8): bv64
    requires k < 8
  {
    (b as bv64) << (8 * k)
  }

  /** `u64::from_le_bytes`: the value whose little-endian bytes are `b`. */
  function FromLeBytes(b: seq<bv8>): bv64
    requires |b| == 8
  {
    Widen(b[0], 0) | Widen(b[1], 1) | Widen(b[2], 2) | Widen(b[3], 3)
    | Widen(b[4], 4) | Widen(b[5], 5) | Widen(b[6], 6) | Widen(b[7], 7)
  }

  /** The byte split loses nothing: the eight bytes put back together give the value. */
  lemma LeBytesRoundTrip(x: bv64)
    ensures FromLeBytes(LeBytes(x)) == x
  {}

  /** ... and every eight bytes are the split of exactly one value. */
  lemma FromLeBytesRoundTrip(b: seq<bv8>)
    requires |b| == 8
    ensures LeBytes(FromLeBytes(b)) == b
  {}

  /** The 64-bit address of a device: a plain wrapper of a `u64`, compared by value. */
  datatype Address = Address(raw: bv64)

  /** The family code is the lowest-order byte of the address, which is also the first
      byte of its little-endian split. */
  function FamilyCode(a: Address): (code: bv8)
    ensures code as bv64 == a.raw & 0xFF
  {
    LeBytes(a.raw)[0]
  }
}
