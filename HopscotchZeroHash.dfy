/** `add` of `hopscotch_v3.cpp` as written, for keys whose hash code comes
    out as 0: the code that also marks a slot as empty. */
module HopscotchZeroHash {
  import opened MathUtil
  import opened HopscotchLists
  import opened Hopscotch

  /** Any hashed value below 2^(64 - iBits) lands on hash code 0, the code
      that marks an empty slot. */
  lemma SmallHashIsEmpty(hashed: int, iBits: nat)
    requires iBits <= 64 && 0 <= hashed < Pow2(64 - iBits)
    ensures HashIndex(hashed, iBits) == EmptyHash
  {
    Pow2Monotone(64 - iBits, 64);
    DivModUnique(hashed, Pow2(64), 0, hashed);
    ShiftRightDiv(hashed, 64 - iBits);
    DivModUnique(hashed, Pow2(64 - iBits), 0, hashed);
  }

  /** With cache-line alignment, a key of home 0 in a table whose slot 0
      reads as empty is handed slot 0. */
  lemma ZeroSlotChosen(t: seq<Bucket>, cap: nat, cacheMask: nat)
    requires cacheMask < cap <= |t| && t[0].hash == EmptyHash
    ensures FreeSlot(t, 0, cap, cacheMask, true) == Some((0, true))
  {
    assert LineStart(0, cacheMask) == 0;
  }

  /** `add` as written, for two different keys whose hash code is 0 and an
      aligned table whose slot 0 is empty: the first is stored in slot 0,
      which still reads as empty; the second does not match it, is handed
      slot 0 again, overwrites the first and leaves slot 0 linked to
      itself. */
  lemma ZeroHashScenario(t0: seq<Bucket>, cap: nat, cacheMask: nat, k1: int, d1: int, k2: int, d2: int)
    requires cacheMask < cap <= |t0| && t0[0] == EmptyBucket && k1 != k2
    ensures FreeSlot(t0, 0, cap, cacheMask, true) == Some((0, true))
    ensures var t1 := PutFirst(t0, 0, 0, EmptyHash, k1, d1);
      && t1[0] == Bucket(Off(0), Null, EmptyHash, k1, d1) && !Matches(t1[0], EmptyHash, k2)
      && FreeSlot(t1, 0, cap, cacheMask, true) == Some((0, true))
      && PutFirst(t1, 0, 0, EmptyHash, k2, d2)[0] == Bucket(Off(0), Off(0), EmptyHash, k2, d2)
  {
    ZeroSlotChosen(t0, cap, cacheMask);
    var t1 := PutFirst(t0, 0, 0, EmptyHash, k1, d1);
    ZeroSlotChosen(t1, cap, cacheMask);
  }
}
