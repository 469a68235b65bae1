/** Page frame numbers: the descriptor array starts at frame 0x80000, so the buddy that the code finds by
    flipping a bit of the frame number is the buddy of the descriptor index. */
module PageFrames {
  import opened Bits
  import opened FreeBlocks

  // The page frame number of descriptor 0: 0x80000000 >> PGSHIFT.
  const NBASE: nat := 0x80000

  function Shl(a: nat, o: nat): nat {
    if o == 0 then a else 2 * Shl(a, o - 1)
  }

  lemma ShlStep(a: nat, o: nat)
    requires o > 0
    ensures Shl(a, o) / 2 == Shl(a, o - 1) && Start(Shl(a, o), o) == 2 * Start(Shl(a, o - 1), o - 1)
    ensures Shl(a, o) == 2 * Shl(a, o - 1)
  {}

  lemma {:induction false} StartOfShl(a: nat, o: nat)
    ensures Start(Shl(a, o), o) == Shl(a, o)
  {
    hide Shl;
    if o > 0 {
      StartOfShl(a, o - 1);
      ShlStep(a, o);
    }
  }

  lemma NbaseValue()
    ensures Shl(8, 16) == NBASE
  {
    assert Shl(8, 4) == 0x80;
    assert Shl(8, 8) == 0x800;
    assert Shl(8, 12) == 0x8000;
  }

  lemma NbaseAligned(o: nat)
    requires o <= 16
    ensures Start(NBASE, o) == NBASE
  {
    StartOfShl(8, 16);
    NbaseValue();
    AlignedDown(NBASE, o, 16);
  }

  /** Flipping bit `order` of the page frame number finds the other half of the parent block. */
  lemma XorFindsBuddy(b: nat, o: nat)
    requires o < 16 && Start(b, o) == b
    ensures Xor(b + NBASE, Pow2(o)) == BuddyOf(b, o) + NBASE
  {
    hide Start;
    hide Xor;
    hide Pow2;
    NbaseAligned(o);
    NbaseAligned(o + 1);
    StartShift(b, NBASE, o);
    StartShift(b, NBASE, o + 1);
    XorIsBuddy(b + NBASE, o);
    ParentAligned(b, o + 1);
    Halves(Start(b, o + 1), o);
  }
}
