/** The block and inode bitmaps: one bit per unit, unit i is bit i % 8 of byte i / 8, and a set
    bit means "allocated" (fs.c:314-351). */
module Bitmap {

  /** `1 << bit` for a bit position inside a byte. */
  function BitOf(bit: nat): bv8
    requires bit < 8
  {
    (1 as bv8) << bit
  }

  /** The mask of unit i inside byte i / 8. */
  function Mask(i: nat): bv8 {
    BitOf(i % 8)
  }

  /** `(bitmap[i / 8] & (1 << (i % 8))) != 0` */
  predicate Test(bm: seq<bv8>, i: nat)
    requires i < |bm| * 8
  {
    bm[i / 8] & Mask(i) != 0
  }

  lemma BitOfOr(x: bv8, a: nat, b: nat)
    requires a < 8 && b < 8
    ensures ((x | BitOf(a)) & BitOf(b) != 0) == (a == b || x & BitOf(b) != 0)
  {
  }

  lemma BitOfAndNot(x: bv8, a: nat, b: nat)
    requires a < 8 && b < 8
    ensures ((x & !BitOf(a)) & BitOf(b) != 0) == (a != b && x & BitOf(b) != 0)
  {
  }

  /** Two units share a byte and a bit position only if they are the same unit. */
  lemma SameBitSameUnit(i: nat, k: nat)
    requires i / 8 == k / 8 && i % 8 == k % 8
    ensures i == k
  {
  }

  /** A unit of a bitmap whose byte i / 8 is replaced by v. */
  lemma TestUpdated(bm: seq<bv8>, i: nat, v: bv8, k: nat)
    requires i < |bm| * 8 && k < |bm| * 8
    ensures Test(bm[i / 8 := v], k) == if k / 8 == i / 8 then v & Mask(k) != 0 else Test(bm, k)
  {
  }

  /** `bitmap[i / 8] |= (1 << (i % 8))`: sets unit i and no other. */
  function Set(bm: seq<bv8>, i: nat): (r: seq<bv8>)
    requires i < |bm| * 8
    ensures |r| == |bm|
    ensures forall k :: 0 <= k < |bm| * 8 ==> Test(r, k) == (k == i || Test(bm, k))
  {
    SetTouchesOneUnit(bm, i);
    bm[i / 8 := bm[i / 8] | Mask(i)]
  }

  lemma SetTouchesOneUnit(bm: seq<bv8>, i: nat)
    requires i < |bm| * 8
    ensures forall k :: 0 <= k < |bm| * 8 ==>
      Test(bm[i / 8 := bm[i / 8] | Mask(i)], k) == (k == i || Test(bm, k))
  {
    forall k | 0 <= k < |bm| * 8
      ensures Test(bm[i / 8 := bm[i / 8] | Mask(i)], k) == (k == i || Test(bm, k))
    {
      SetUnit(bm, i, k);
    }
  }

  lemma SetUnit(bm: seq<bv8>, i: nat, k: nat)
    requires i < |bm| * 8 && k < |bm| * 8
    ensures Test(bm[i / 8 := bm[i / 8] | Mask(i)], k) == (k == i || Test(bm, k))
  {
    TestUpdated(bm, i, bm[i / 8] | Mask(i), k);
    if k / 8 == i / 8 {
      MaskOr(bm[i / 8], i, k);
    }
  }

  /** Within one byte, or-ing in the mask of unit i sets unit k exactly when k is i or was set. */
  lemma MaskOr(x: bv8, i: nat, k: nat)
    requires i / 8 == k / 8
    ensures ((x | Mask(i)) & Mask(k) != 0) == (k == i || x & Mask(k) != 0)
  {
    BitOfOr(x, i % 8, k % 8);
    if i % 8 == k % 8 { SameBitSameUnit(i, k); }
  }

  /** `bitmap[i / 8] &= ~(1 << (i % 8))`: clears unit i and no other. */
  function Clear(bm: seq<bv8>, i: nat): (r: seq<bv8>)
    requires i < |bm| * 8
    ensures |r| == |bm|
    ensures forall k :: 0 <= k < |bm| * 8 ==> Test(r, k) == (k != i && Test(bm, k))
  {
    ClearTouchesOneUnit(bm, i);
    bm[i / 8 := bm[i / 8] & !Mask(i)]
  }

  lemma ClearTouchesOneUnit(bm: seq<bv8>, i: nat)
    requires i < |bm| * 8
    ensures forall k :: 0 <= k < |bm| * 8 ==>
      Test(bm[i / 8 := bm[i / 8] & !Mask(i)], k) == (k != i && Test(bm, k))
  {
    forall k | 0 <= k < |bm| * 8
      ensures Test(bm[i / 8 := bm[i / 8] & !Mask(i)], k) == (k != i && Test(bm, k))
    {
      ClearUnit(bm, i, k);
    }
  }

  lemma ClearUnit(bm: seq<bv8>, i: nat, k: nat)
    requires i < |bm| * 8 && k < |bm| * 8
    ensures Test(bm[i / 8 := bm[i / 8] & !Mask(i)], k) == (k != i && Test(bm, k))
  {
    TestUpdated(bm, i, bm[i / 8] & !Mask(i), k);
    if k / 8 == i / 8 {
      MaskAndNot(bm[i / 8], i, k);
    }
  }

  /** Within one byte, clearing the mask of unit i leaves unit k set exactly when k is not i and was set. */
  lemma MaskAndNot(x: bv8, i: nat, k: nat)
    requires i / 8 == k / 8
    ensures ((x & !Mask(i)) & Mask(k) != 0) == (k != i && x & Mask(k) != 0)
  {
    BitOfAndNot(x, i % 8, k % 8);
    if i % 8 == k % 8 { SameBitSameUnit(i, k); }
  }

  /** The first-fit scan of allocateBlock/allocateInode over units from..limit-1: the lowest
      clear unit, or -1 when every unit in range is set. */
  function FirstClear(bm: seq<bv8>, limit: nat, from: nat): (r: int)
    requires limit <= |bm| * 8 && from <= limit
    ensures r == -1 <==> forall k :: from <= k < limit ==> Test(bm, k)
    ensures r != -1 ==> from <= r < limit && !Test(bm, r)
    ensures r != -1 ==> forall k :: from <= k < r ==> Test(bm, k)
    decreases limit - from
  {
    if from == limit then -1
    else if !Test(bm, from) then from
    else FirstClear(bm, limit, from + 1)
  }

  /** A bitmap whose bytes are all zero has every unit clear. */
  lemma ZeroBitmapClear(bm: seq<bv8>, i: nat)
    requires forall b :: 0 <= b < |bm| ==> bm[b] == 0
    requires i < |bm| * 8
    ensures !Test(bm, i)
  {
  }
}
