/** The marks of the exact-size buddy allocator: what bits and sizes say about the free blocks, what merging does to
    them, and what the marks that merging leaves behind lead to. */
module BuddyMarks {
  import opened Bits
  import opened Lists
  import opened FreeBlocks
  import opened Ranges

  const TOP: nat := 16  // BUDDY_MAX_ORDER

  ghost function Pages(s: set<nat>): iset<nat> {
    iset p | p in s
  }

  /** The head of every maximal block of G carries its bit and its size in pages. */
  ghost predicate HeadsMarked(G: iset<nat>, bit: seq<bool>, property: seq<nat>) {
    && |bit| == |property|
    && (forall p :: p in G ==> p < |bit|)
    && (forall i: nat, k: nat :: MaxBlock(G, TOP, i, k) ==> i < |bit| && bit[i] && property[i] == Pow2(k))
  }

  /** No bit is set outside G and the block in hand. */
  ghost predicate Quiet(G: iset<nat>, b: nat, o: nat, bit: seq<bool>) {
    forall p: nat :: p < |bit| && p !in G && Start(p, o) != b ==> !bit[p]
  }

  /** No bit is set on a page that is not free. */
  ghost predicate Clean(F: iset<nat>, bit: seq<bool>) {
    forall p: nat :: p < |bit| && p !in F ==> !bit[p]
  }

  ghost predicate IsHead(F: iset<nat>, x: nat) {
    exists k: nat :: MaxBlock(F, TOP, x, k)
  }

  /** Bits are set on nothing but the heads of listed blocks. */
  ghost predicate Accurate(F: iset<nat>, bit: seq<bool>) {
    forall x: nat :: x < |bit| && bit[x] ==> IsHead(F, x)
  }

  /** Bits are set on nothing but the heads of listed blocks and the block in hand. */
  ghost predicate QuietAccurate(G: iset<nat>, b: nat, bit: seq<bool>) {
    forall x: nat :: x < |bit| && bit[x] ==> x == b || IsHead(G, x)
  }

  lemma AccurateIsClean(F: iset<nat>, bit: seq<bool>)
    requires Accurate(F, bit)
    ensures Clean(F, bit)
  {
    forall p: nat | p < |bit| && bit[p]
      ensures p in F
    {
      var k: nat :| MaxBlock(F, TOP, p, k);
      InOwnBlock(F, p, k);
    }
  }

  lemma CleanIsQuiet(F: iset<nat>, b: nat, o: nat, bit: seq<bool>)
    requires Clean(F, bit)
    ensures Quiet(F, b, o, bit)
  {}

  lemma {:induction false} Pow2Injective(k: nat, o: nat)
    requires Pow2(k) == Pow2(o)
    ensures k == o
  {
    if k > 0 && o > 0 { Pow2Injective(k - 1, o - 1); }
  }

  /** What the code reads at the buddy: inside the array, the bit, the size. */
  predicate Test(bit: seq<bool>, property: seq<nat>, q: nat, o: nat) {
    q < |bit| && q < |property| && bit[q] && property[q] == Pow2(o)
  }

  /** The buddy of the block is not free, and yet carries the bit and the size of a free block of the order. */
  ghost predicate Stale(G: iset<nat>, bit: seq<bool>, property: seq<nat>, b: nat, o: nat)
    requires Start(b, o) == b
  {
    BuddyOf(b, o) !in G && Test(bit, property, BuddyOf(b, o), o)
  }

  /** The test succeeds exactly when the buddy is a listed block of this order, or a stale one. */
  lemma BuddyTestExact(G: iset<nat>, bit: seq<bool>, property: seq<nat>, b: nat, o: nat)
    requires UsedBlock(G, b, o) && o < TOP && HeadsMarked(G, bit, property)
    ensures Test(bit, property, BuddyOf(b, o), o) <==>
      MaxBlock(G, TOP, BuddyOf(b, o), o) || Stale(G, bit, property, b, o)
  {
    hide Start;
    hide Pow2;
    var q := BuddyOf(b, o);
    BuddyFacts(b, o);
    assert b !in G;
    if q in G {
      var k := FreeBuddyHead(G, TOP, b, o, q);
      if property[q] == Pow2(o) { Pow2Injective(k, o); }
      if MaxBlock(G, TOP, q, o) { MaxDisjoint(G, TOP, q, o, q, k, q); }
    } else if MaxBlock(G, TOP, q, o) {
      MaxFacts(G, q, o);
      InOwnBlock(G, q, o);
      assert false;
    }
  }

  lemma MaxFacts(F: iset<nat>, i: nat, o: nat)
    requires MaxBlock(F, TOP, i, o)
    ensures o <= TOP && FreeBlock(F, i, o) && Start(i, o) == i
  {}

  lemma HeadKept(F: iset<nat>, h: nat, k: nat, x: nat)
    requires MaxBlock(F, TOP, h, k) && IsHead(F, x) && x != h
    ensures IsHead(Without(F, h, k), x)
  {
    hide Start;
    hide MaxBlock;
    TakeMax(F, TOP, h, k);
    var j: nat :| MaxBlock(F, TOP, x, j);
    assert MaxBlock(Without(F, h, k), TOP, x, j);
  }

  // ---- how marks move ----

  lemma PushMarked(G: iset<nat>, bit: seq<bool>, property: seq<nat>, b: nat, o: nat)
    requires HeadsMarked(G, bit, property) && o <= TOP && UsedBlock(G, b, o) && b + Pow2(o) <= |bit|
    requires o == TOP || !FreeBlock(G, BuddyOf(b, o), o)
    ensures b < |bit|
    ensures HeadsMarked(With(G, b, o), bit[b := true], property[b := Pow2(o)])
  {
    hide Start;
    hide Pow2;
    hide MaxBlock;
    BlockIsInterval(b, o);
    assert b in Interval(b, Pow2(o));
    PutMax(G, TOP, b, o);
    forall i: nat, k: nat | MaxBlock(G, TOP, i, k)
      ensures i != b
    {
      MaxFacts(G, i, k);
      InOwnBlock(G, i, k);
      assert Start(b, o) == b;
    }
  }

  lemma TakeMarked(F: iset<nat>, bit: seq<bool>, property: seq<nat>, b: nat, o: nat)
    requires HeadsMarked(F, bit, property) && MaxBlock(F, TOP, b, o)
    ensures b < |bit| && HeadsMarked(Without(F, b, o), bit[b := false], property)
  {
    hide Start;
    TakeMax(F, TOP, b, o);
    forall i: nat, k: nat | MaxBlock(Without(F, b, o), TOP, i, k)
      ensures i != b
    {
      InOwnBlock(Without(F, b, o), i, k);
      assert Start(b, o) == b;
    }
  }

  /** Writing the fields of a page that is not listed disturbs no mark. */
  lemma MarkInHand(G: iset<nat>, bit: seq<bool>, property: seq<nat>, p: nat, s: nat)
    requires HeadsMarked(G, bit, property) && p !in G && p < |bit|
    ensures HeadsMarked(G, bit[p := true], property[p := s])
  {
    forall i: nat, k: nat | MaxBlock(G, TOP, i, k)
      ensures i != p
    {
      InOwnBlock(G, i, k);
    }
  }

  /** The bits after a merge of p with q into P: the source clears q and sets P; the repair clears p too. */
  function Joined(bit: seq<bool>, p: nat, q: nat, P: nat, fix: bool): (r: seq<bool>)
    requires p < |bit| && q < |bit| && P < |bit|
    ensures |r| == |bit|
  {
    (if fix then bit[q := false][p := false] else bit[q := false])[P := true]
  }

  /** One merge: the buddy's mark is cleared and the joined head is marked with the doubled size. */
  lemma MergeMarked(F: iset<nat>, bit: seq<bool>, property: seq<nat>, b: nat, o: nat, fix: bool)
    requires o < TOP && FreeBlock(F, b, o) && b < |bit|
    requires HeadsMarked(Without(F, b, o), bit, property)
    requires MaxBlock(Without(F, b, o), TOP, BuddyOf(b, o), o)
    ensures var q, P := BuddyOf(b, o), Start(b, o + 1);
      q < |bit| && P < |bit| && FreeBlock(F, P, o + 1)
      && Without(Without(F, b, o), q, o) == Without(F, P, o + 1)
      && HeadsMarked(Without(F, P, o + 1), Joined(bit, b, q, P, fix), property[P := 2 * Pow2(o)])
  {
    hide Start;
    var q, P, G := BuddyOf(b, o), Start(b, o + 1), Without(F, b, o);
    BuddyFacts(b, o);
    SubsetFree(G, F, q, o);
    JoinHalves(F, b, o);
    TakeMarked(G, bit, property, q, o);
    ParentAligned(b, o + 1);
    var bit1 := if fix then bit[q := false][b := false] else bit[q := false];
    if fix { UnmarkUnlisted(Without(F, P, o + 1), bit[q := false], property, b); }
    MarkInHand(Without(F, P, o + 1), bit1, property, P, 2 * Pow2(o));
  }

  lemma UnmarkUnlisted(G: iset<nat>, bit: seq<bool>, property: seq<nat>, p: nat)
    requires HeadsMarked(G, bit, property) && p !in G && p < |bit|
    ensures HeadsMarked(G, bit[p := false], property)
  {
    forall i: nat, k: nat | MaxBlock(G, TOP, i, k)
      ensures i != p
    {
      InOwnBlock(G, i, k);
    }
  }

  lemma SubsetFree(G: iset<nat>, F: iset<nat>, i: nat, o: nat)
    requires G <= F && FreeBlock(G, i, o)
    ensures FreeBlock(F, i, o)
  {}

  // ---- the marks that merging leaves behind ----

  /** x headed the upper half of a block that has been joined: its size names the half, and the whole is free. */
  ghost predicate LeftBehind(F: iset<nat>, property: seq<nat>, x: nat) {
    exists t: nat :: UpperHalf(property, x, t) && FreeBlock(F, Start(x, t + 1), t + 1)
  }

  ghost predicate UpperHalf(property: seq<nat>, x: nat, t: nat) {
    t < TOP && x < |property| && property[x] == Pow2(t) && Start(x, t) == x && Start(x, t + 1) < x
  }

  /** Every bit on a free page marks a listed head, or is left behind by a merge. */
  ghost predicate Tidy(F: iset<nat>, bit: seq<bool>, property: seq<nat>) {
    forall x: nat :: x < |bit| && bit[x] && x in F && !IsHead(F, x) ==> LeftBehind(F, property, x)
  }

  /** The same while block (p, o) of F is in hand. */
  ghost predicate TidyAround(F: iset<nat>, p: nat, o: nat, bit: seq<bool>, property: seq<nat>) {
    forall x: nat :: x < |bit| && bit[x] && x in F && x != p && !IsHead(Without(F, p, o), x) ==>
      LeftBehind(F, property, x)
  }

  /** Bits and sizes outside block (p, o) are as they were. */
  ghost predicate SameOutside(p: nat, o: nat, bit0: seq<bool>, property0: seq<nat>, bit: seq<bool>,
      property: seq<nat>) {
    && |bit| == |bit0| == |property| == |property0|
    && forall x: nat :: x < |bit| && Start(x, o) != p ==> bit[x] == bit0[x] && property[x] == property0[x]
  }

  lemma AccurateIsTidy(F: iset<nat>, bit: seq<bool>, property: seq<nat>)
    requires Accurate(F, bit)
    ensures Tidy(F, bit, property)
  {}

  lemma TidyStart(G: iset<nat>, p: nat, o: nat, bit: seq<bool>, property: seq<nat>)
    requires Tidy(G, bit, property) && UsedBlock(G, p, o) && p < |bit| == |property|
    requires forall x: nat :: x < |bit| && Start(x, o) == p ==> !bit[x]
    ensures TidyAround(With(G, p, o), p, o, bit[p := true], property[p := Pow2(o)])
  {
    hide Start;
    hide Pow2;
    hide IsHead;
    var F := With(G, p, o);
    assert Without(F, p, o) == G;
    forall x: nat | x < |bit| && bit[p := true][x] && x in F && x != p && !IsHead(G, x)
      ensures LeftBehind(F, property[p := Pow2(o)], x)
    {
      assert LeftBehind(G, property, x);
      var t: nat :| UpperHalf(property, x, t) && FreeBlock(G, Start(x, t + 1), t + 1);
      SubsetFree(G, F, Start(x, t + 1), t + 1);
      assert UpperHalf(property[p := Pow2(o)], x, t);
    }
  }

  lemma TidyStep(F: iset<nat>, p: nat, o: nat, bit: seq<bool>, property: seq<nat>, fix: bool)
    requires o < TOP && FreeBlock(F, p, o) && p < |bit| == |property| && property[p] == Pow2(o)
    requires MaxBlock(Without(F, p, o), TOP, BuddyOf(p, o), o) && BuddyOf(p, o) < |bit|
    requires TidyAround(F, p, o, bit, property)
    ensures Start(p, o + 1) < |bit|
    ensures TidyAround(F, Start(p, o + 1), o + 1, Joined(bit, p, BuddyOf(p, o), Start(p, o + 1), fix),
                       property[Start(p, o + 1) := 2 * Pow2(o)])
  {
    hide Start;
    hide Pow2;
    hide MaxBlock;
    var q, P := BuddyOf(p, o), Start(p, o + 1);
    BuddyFacts(p, o);
    MaxFacts(Without(F, p, o), q, o);
    SubsetFree(Without(F, p, o), F, q, o);
    JoinHalves(F, p, o);
    TakeMax(Without(F, p, o), TOP, q, o);
    var bit', property' := Joined(bit, p, q, P, fix), property[P := 2 * Pow2(o)];
    forall x: nat | x < |bit| && bit'[x] && x in F && x != P && !IsHead(Without(F, P, o + 1), x)
      ensures LeftBehind(F, property', x)
    {
      if x == p {
        assert UpperHalf(property', x, o);
      } else {
        if IsHead(Without(F, p, o), x) {
          HeadKept(Without(F, p, o), q, o, x);
          assert false;
        }
        var t: nat :| UpperHalf(property, x, t) && FreeBlock(F, Start(x, t + 1), t + 1);
        assert UpperHalf(property', x, t);
      }
    }
  }

  lemma TidyEnd(F: iset<nat>, p: nat, o: nat, bit: seq<bool>, property: seq<nat>)
    requires TidyAround(F, p, o, bit, property) && MaxBlock(F, TOP, p, o)
    ensures Tidy(F, bit, property)
  {
    hide Start;
    hide MaxBlock;
    hide LeftBehind;
    hide IsHead;
    forall x: nat | x < |bit| && bit[x] && x in F && !IsHead(F, x)
      ensures LeftBehind(F, property, x)
    {
      MaxIsHead(F, p, o);
      if IsHead(Without(F, p, o), x) {
        HeadGrows(F, p, o, x);
        assert false;
      }
    }
  }

  lemma MaxIsHead(F: iset<nat>, p: nat, o: nat)
    requires MaxBlock(F, TOP, p, o)
    ensures IsHead(F, p)
  {}

  lemma HeadGrows(F: iset<nat>, p: nat, o: nat, x: nat)
    requires MaxBlock(F, TOP, p, o) && IsHead(Without(F, p, o), x)
    ensures IsHead(F, x)
  {
    hide Start;
    hide MaxBlock;
    TakeMax(F, TOP, p, o);
    var k: nat :| MaxBlock(Without(F, p, o), TOP, x, k);
    assert MaxBlock(F, TOP, x, k);
  }

  // ---- one release, step by step ----

  /** The buddy at order j of the growing block of p0 is free. */
  ghost predicate BuddyFree(G: iset<nat>, p0: nat, j: nat) {
    Start(Start(p0, j), j) == Start(p0, j) && FreeBlock(G, BuddyOf(Start(p0, j), j), j)
  }

  ghost predicate StaleAt(G: iset<nat>, bit: seq<bool>, property: seq<nat>, p0: nat, j: nat) {
    Start(Start(p0, j), j) == Start(p0, j) && Stale(G, bit, property, Start(p0, j), j)
  }

  /** The growing block of (p0, o0) meets, after merges with free buddies only, a buddy that is not free but passes
      the test. */
  ghost predicate Meets(G: iset<nat>, bit: seq<bool>, property: seq<nat>, p0: nat, o0: nat) {
    exists o: nat ::
      o0 <= o < TOP && StaleAt(G, bit, property, p0, o) && forall j: nat :: o0 <= j < o ==> BuddyFree(G, p0, j)
  }

  /** The block (p0, o0) is being given back to the free pages G; joined blocks have grown to (p, o), all with free
      buddies. */
  ghost predicate Merging(G: iset<nat>, p0: nat, o0: nat, p: nat, o: nat, bit0: seq<bool>, bit: seq<bool>, fix: bool) {
    && o0 <= o <= TOP && Start(p0, o) == p && p < |bit| && p0 < |bit| && |bit0| == |bit|
    && UsedBlock(G, p0, o0) && FreeBlock(With(G, p0, o0), p, o)
    && (Quiet(G, p0, o0, bit0) ==> Quiet(Without(With(G, p0, o0), p, o), p, o, bit))
    && bit[p] && (!fix ==> bit[p0] && forall t :: 0 <= t < p0 && bit0[t] ==> bit[t])
    && (QuietAccurate(G, p0, bit0) && (fix || p == p0) ==> QuietAccurate(Without(With(G, p0, o0), p, o), p, bit))
    && forall j: nat :: o0 <= j < o ==> BuddyFree(G, p0, j)
  }

  lemma StartMerge(G: iset<nat>, p0: nat, o0: nat, bit: seq<bool>, property: seq<nat>, fix: bool)
    requires o0 <= TOP && UsedBlock(G, p0, o0) && p0 < |bit| && HeadsMarked(G, bit, property)
    ensures Without(With(G, p0, o0), p0, o0) == G
    ensures Merging(G, p0, o0, p0, o0, bit, bit[p0 := true], fix)
    ensures HeadsMarked(G, bit[p0 := true], property[p0 := Pow2(o0)])
  {
    hide Start;
    assert Start(p0, o0) == p0;
    assert Without(With(G, p0, o0), p0, o0) == G;
    MarkInHand(G, bit, property, p0, Pow2(o0));
  }

  lemma MergingFacts(G: iset<nat>, p0: nat, o0: nat, p: nat, o: nat, bit0: seq<bool>, bit: seq<bool>, fix: bool)
    requires Merging(G, p0, o0, p, o, bit0, bit, fix)
    ensures o0 <= o <= TOP && Start(p0, o) == p && Start(p, o) == p && p < |bit| && p0 < |bit| == |bit0| && bit[p]
    ensures FreeBlock(With(G, p0, o0), p, o) && UsedBlock(G, p0, o0)
    ensures !fix ==> bit[p0] && forall t :: 0 <= t < p0 && bit0[t] ==> bit[t]
  {}

  lemma StepMerge(G: iset<nat>, p0: nat, o0: nat, p: nat, o: nat, bit0: seq<bool>, bit: seq<bool>, fix: bool)
    requires Merging(G, p0, o0, p, o, bit0, bit, fix) && o < TOP
    requires MaxBlock(Without(With(G, p0, o0), p, o), TOP, BuddyOf(p, o), o)
    requires BuddyOf(p, o) < |bit| && Start(p, o + 1) < |bit|
    ensures Merging(G, p0, o0, Start(p, o + 1), o + 1, bit0, Joined(bit, p, BuddyOf(p, o), Start(p, o + 1), fix), fix)
  {
    hide Start;
    hide Pow2;
    hide MaxBlock;
    var F, q, P := With(G, p0, o0), BuddyOf(p, o), Start(p, o + 1);
    MaxIsFree(Without(F, p, o), q, o);
    SubsetFree(Without(F, p, o), F, q, o);
    BuddyFacts(p, o);
    JoinHalves(F, p, o);
    StartNest(p0, o, o + 1);
    if Quiet(G, p0, o0, bit0) { StepQuiet(F, p, o, bit, fix); }
    StartBounds(p0, o);
    StartBounds(p0, o + 1);
    StartBounds(p, o + 1);
    assert q > p ==> q == p + Pow2(o);
    if QuietAccurate(G, p0, bit0) && (fix || P == p0) { StepAccurate(F, p, o, bit, fix); }
    BuddyFreeBefore(G, p0, o0, p, o);
  }

  /** A buddy that is free beside the block in hand was free before. */
  lemma BuddyFreeBefore(G: iset<nat>, p0: nat, o0: nat, p: nat, o: nat)
    requires o0 <= o && Start(p0, o0) == p0 && Start(p0, o) == p && Start(p, o) == p
    ensures FreeBlock(Without(With(G, p0, o0), p, o), BuddyOf(p, o), o) <==> BuddyFree(G, p0, o)
  {
    hide Start;
    BuddyFacts(p, o);
    forall x: nat | Start(x, o) == BuddyOf(p, o)
      ensures x in Without(With(G, p0, o0), p, o) <==> x in G
    {
      StartNest(x, o0, o);
    }
  }

  lemma MaxIsFree(F: iset<nat>, i: nat, o: nat)
    requires MaxBlock(F, TOP, i, o)
    ensures FreeBlock(F, i, o)
  {}

  lemma StepQuiet(F: iset<nat>, p: nat, o: nat, bit: seq<bool>, fix: bool)
    requires o < TOP && FreeBlock(F, p, o) && Quiet(Without(F, p, o), p, o, bit)
    requires p < |bit| && BuddyOf(p, o) < |bit| && Start(p, o + 1) < |bit|
    ensures Quiet(Without(F, Start(p, o + 1), o + 1), Start(p, o + 1), o + 1,
                  Joined(bit, p, BuddyOf(p, o), Start(p, o + 1), fix))
  {
    hide Start;
    hide Pow2;
    var P := Start(p, o + 1);
    BuddyFacts(p, o);
    ParentAligned(p, o + 1);
    forall x: nat | x < |bit| && x !in Without(F, P, o + 1) && Start(x, o + 1) != P
      ensures !bit[x] && x != P
    {
      StartNest(x, o, o + 1);
    }
  }

  lemma StepAccurate(F: iset<nat>, p: nat, o: nat, bit: seq<bool>, fix: bool)
    requires o < TOP && FreeBlock(F, p, o) && FreeBlock(F, BuddyOf(p, o), o)
    requires MaxBlock(Without(F, p, o), TOP, BuddyOf(p, o), o)
    requires p < |bit| && BuddyOf(p, o) < |bit| && Start(p, o + 1) < |bit| && (fix || Start(p, o + 1) == p)
    requires QuietAccurate(Without(F, p, o), p, bit)
    ensures QuietAccurate(Without(F, Start(p, o + 1), o + 1), Start(p, o + 1),
                          Joined(bit, p, BuddyOf(p, o), Start(p, o + 1), fix))
  {
    hide Start;
    hide Pow2;
    hide MaxBlock;
    var q, P := BuddyOf(p, o), Start(p, o + 1);
    JoinHalves(F, p, o);
    TakeMax(Without(F, p, o), TOP, q, o);
    forall x: nat | x < |bit| && bit[x] && x != p && x != q
      ensures IsHead(Without(F, P, o + 1), x)
    {
      var k: nat :| MaxBlock(Without(F, p, o), TOP, x, k);
      assert MaxBlock(Without(F, P, o + 1), TOP, x, k);
    }
  }

  lemma EndMerge(G: iset<nat>, p0: nat, o0: nat, p: nat, o: nat, bit0: seq<bool>, bit: seq<bool>, fix: bool)
    requires Merging(G, p0, o0, p, o, bit0, bit, fix)
    requires o == TOP || !MaxBlock(Without(With(G, p0, o0), p, o), TOP, BuddyOf(p, o), o)
    ensures o == TOP || !FreeBlock(Without(With(G, p0, o0), p, o), BuddyOf(p, o), o)
    ensures UsedBlock(Without(With(G, p0, o0), p, o), p, o)
    ensures With(Without(With(G, p0, o0), p, o), p, o) == With(G, p0, o0)
    ensures MaxBlock(With(G, p0, o0), TOP, p, o)
    ensures Quiet(G, p0, o0, bit0) ==> Clean(With(G, p0, o0), bit)
    ensures QuietAccurate(G, p0, bit0) && (fix || p == p0) ==> Accurate(With(G, p0, o0), bit)
  {
    hide Start;
    hide MaxBlock;
    var F := With(G, p0, o0);
    var H := Without(F, p, o);
    InHandIsUsed(F, p, o);
    if o < TOP && FreeBlock(H, BuddyOf(p, o), o) { FreeBuddyIsMax(H, TOP, p, o); }
    PutIsMax(H, TOP, p, o);
    PutMax(H, TOP, p, o);
    if QuietAccurate(G, p0, bit0) && (fix || p == p0) {
      forall x: nat | x < |bit| && bit[x]
        ensures IsHead(F, x)
      {
        if x != p {
          var k: nat :| MaxBlock(H, TOP, x, k);
          assert MaxBlock(F, TOP, x, k);
        }
      }
    }
  }

  lemma StepOutside(p: nat, o: nat, q: nat, P: nat, bit0: seq<bool>, property0: seq<nat>, bit: seq<bool>,
                    property: seq<nat>, fix: bool, s: nat)
    requires SameOutside(p, o, bit0, property0, bit, property) && p < |bit| && q < |bit| && P < |bit|
    requires Start(p, o) == p && q == BuddyOf(p, o) && P == Start(p, o + 1)
    ensures SameOutside(P, o + 1, bit0, property0, Joined(bit, p, q, P, fix), property[P := s])
  {
    hide Start;
    BuddyFacts(p, o);
    ParentAligned(p, o + 1);
    forall x: nat | Start(x, o + 1) != P
      ensures Start(x, o) != p && x != p && x != q && x != P
    {
      StartNest(x, o, o + 1);
    }
  }

  /** Stale or not: the marks at the buddy are those from before the release. */
  lemma StaleBefore(G: iset<nat>, p0: nat, o0: nat, p: nat, o: nat, bit0: seq<bool>, property0: seq<nat>,
                    bit: seq<bool>, property: seq<nat>)
    requires SameOutside(p, o, bit0, property0, bit, property)
    requires o0 <= o && Start(p0, o0) == p0 && Start(p0, o) == p && Start(p, o) == p
    ensures Stale(Without(With(G, p0, o0), p, o), bit, property, p, o) <==> StaleAt(G, bit0, property0, p0, o)
  {
    hide Start;
    hide Pow2;
    BuddyFacts(p, o);
    StartNest(BuddyOf(p, o), o0, o);
  }

  lemma FreeNotStale(G: iset<nat>, bit: seq<bool>, property: seq<nat>, p0: nat, j: nat)
    requires BuddyFree(G, p0, j)
    ensures !StaleAt(G, bit, property, p0, j)
  {
    hide Start;
    InOwnBlock(G, BuddyOf(Start(p0, j), j), j);
  }

  /** The merges end where the buddy is neither free nor stale, or at the largest order: nothing stale was met. */
  lemma NothingMet(G: iset<nat>, p0: nat, o0: nat, o: nat, bit: seq<bool>, property: seq<nat>)
    requires o0 <= o <= TOP && forall j: nat :: o0 <= j < o ==> BuddyFree(G, p0, j)
    requires o == TOP || (!BuddyFree(G, p0, o) && !StaleAt(G, bit, property, p0, o))
    ensures !Meets(G, bit, property, p0, o0)
  {
    hide Start;
    forall k: nat | o0 <= k < TOP && StaleAt(G, bit, property, p0, k)
      ensures exists j: nat :: o0 <= j < k && !BuddyFree(G, p0, j)
    {
      if k < o {
        FreeNotStale(G, bit, property, p0, k);
        assert false;
      }
    }
  }

  /** What a release of one block does to the marks, when all its merges are with free buddies. */
  ghost predicate Merged(G: iset<nat>, p0: nat, o0: nat, top: nat, bit0: seq<bool>, property0: seq<nat>,
                         bit: seq<bool>, property: seq<nat>, fix: bool) {
    var F := With(G, p0, o0);
    && o0 <= top <= TOP && MaxBlock(F, TOP, Start(p0, top), top) && p0 < |bit| == |bit0| == |property| == |property0|
    && (Quiet(G, p0, o0, bit0) ==> Clean(F, bit))
    && (!fix ==> bit[p0] && forall t :: 0 <= t < p0 && bit0[t] ==> bit[t])
    && (QuietAccurate(G, p0, bit0) && (fix || Start(p0, top) == p0) ==> Accurate(F, bit))
    && (forall x: nat :: x < |bit| && x !in F ==> bit[x] == bit0[x] && property[x] == property0[x])
    && (Tidy(G, bit0, property0) && NoBitsIn(p0, o0, bit0) ==> Tidy(F, bit, property))
  }

  ghost predicate NoBitsIn(p: nat, o: nat, bit: seq<bool>) {
    forall x: nat :: x < |bit| && Start(x, o) == p ==> !bit[x]
  }

  // ---- lists that span pages that are not free ----

  /** A listed block spans page x. */
  ghost predicate Covers(lists: seq<seq<nat>>, x: nat) {
    exists o: nat :: o < |lists| && Start(x, o) in lists[o]
  }

  /** Exact lists span free pages only. */
  lemma ExactCovers(lists: seq<seq<nat>>, F: iset<nat>, x: nat)
    requires Canonical(lists, F, TOP) && Covers(lists, x)
    ensures x in F
  {
    hide Start;
    var o: nat :| o < |lists| && Start(x, o) in lists[o];
    MaxFacts(F, Start(x, o), o);
  }

  lemma {:induction false} DeleteKeeps(s: seq<nat>, x: nat, y: nat)
    requires y in s && y != x
    ensures y in Delete(s, x)
  {
    if s[0] != x && y != s[0] { DeleteKeeps(s[1..], x, y); }
  }

  /** A merge moves spanned pages from a list into the block in hand, no further. */
  lemma CoversStep(lists: seq<seq<nat>>, p: nat, o: nat, x: nat)
    requires o < |lists| && Start(p, o) == p && (Covers(lists, x) || Start(x, o) == p)
    ensures Covers(lists[o := Delete(lists[o], BuddyOf(p, o))], x) || Start(x, o + 1) == Start(p, o + 1)
  {
    hide Start;
    var q := BuddyOf(p, o);
    BuddyFacts(p, o);
    StartNest(x, o, o + 1);
    if Start(x, o) != p && Start(x, o) != q {
      var k: nat :| k < |lists| && Start(x, k) in lists[k];
      if k == o { DeleteKeeps(lists[o], q, Start(x, o)); }
      assert Start(x, k) in lists[o := Delete(lists[o], q)][k];
    }
  }

  lemma MergeSpans(lists0: seq<seq<nat>>, lists: seq<seq<nat>>, p: nat, o: nat, y: nat)
    requires o < |lists| && Start(p, o) == p
    requires forall x: nat :: Covers(lists0, x) ==> Covers(lists, x) || Start(x, o) == p
    ensures forall x: nat :: Covers(lists0, x) ==>
              Covers(lists[o := Delete(lists[o], BuddyOf(p, o))], x) || Start(x, o + 1) == Start(p, o + 1)
    ensures Start(y, o) == p || Start(y, o) == BuddyOf(p, o) ==> Start(y, o + 1) == Start(p, o + 1)
    ensures Start(BuddyOf(p, o), o + 1) == Start(p, o + 1)
  {
    hide Start;
    hide Covers;
    BuddyFacts(p, o);
    StartNest(y, o, o + 1);
    forall x: nat | Covers(lists0, x)
      ensures Covers(lists[o := Delete(lists[o], BuddyOf(p, o))], x) || Start(x, o + 1) == Start(p, o + 1)
    {
      CoversStep(lists, p, o, x);
    }
  }

  lemma PushSpans(lists0: seq<seq<nat>>, lists: seq<seq<nat>>, p: nat, o: nat, y: nat)
    requires o < |lists| && forall x: nat :: Covers(lists0, x) ==> Covers(lists, x) || Start(x, o) == p
    ensures forall x: nat :: Covers(lists0, x) ==> Covers(lists[o := [p] + lists[o]], x)
    ensures Start(y, o) == p ==> Covers(lists[o := [p] + lists[o]], y)
  {
    hide Start;
    hide Covers;
    forall x: nat | Covers(lists0, x)
      ensures Covers(lists[o := [p] + lists[o]], x)
    {
      CoversPush(lists, p, o, x);
    }
    if Start(y, o) == p { CoversPush(lists, p, o, y); }
  }

  lemma CoversPush(lists: seq<seq<nat>>, p: nat, o: nat, x: nat)
    requires o < |lists| && (Covers(lists, x) || Start(x, o) == p)
    ensures Covers(lists[o := [p] + lists[o]], x)
  {
    hide Start;
    var lists' := lists[o := [p] + lists[o]];
    if Start(x, o) == p {
      assert Start(x, o) in lists'[o];
    } else {
      var k: nat :| k < |lists| && Start(x, k) in lists[k];
      assert Start(x, k) in lists'[k];
    }
  }

  /** A listed block spans a page that is not free and carried a bit. */
  ghost predicate Trespass(lists: seq<seq<nat>>, F: iset<nat>, bit: seq<bool>) {
    exists x: nat :: x < |bit| && x !in F && bit[x] && Covers(lists, x)
  }

  lemma PagesInRange(G: iset<nat>, p0: nat, o0: nat, bit: seq<bool>, property: seq<nat>)
    requires HeadsMarked(G, bit, property) && Start(p0, o0) == p0 && p0 + Pow2(o0) <= |bit|
    ensures forall x :: x in With(G, p0, o0) ==> x < |bit|
  {
    hide Start;
    BlockIsInterval(p0, o0);
  }

  lemma EndMarked(G: iset<nat>, p0: nat, o0: nat, p: nat, o: nat, bit: seq<bool>, property: seq<nat>)
    requires HeadsMarked(Without(With(G, p0, o0), p, o), bit, property)
    requires p < |bit| && bit[p] && property[p] == Pow2(o) && o <= TOP
    requires forall x :: x in With(G, p0, o0) ==> x < |bit|
    requires FreeBlock(With(G, p0, o0), p, o)
    requires o == TOP || !FreeBlock(Without(With(G, p0, o0), p, o), BuddyOf(p, o), o)
    ensures HeadsMarked(With(G, p0, o0), bit, property)
  {
    hide Start;
    hide MaxBlock;
    var F := With(G, p0, o0);
    InHandIsUsed(F, p, o);
    PutMax(Without(F, p, o), TOP, p, o);
  }

  lemma StaleMet(G: iset<nat>, p0: nat, o0: nat, p: nat, o: nat, bit0: seq<bool>, property0: seq<nat>,
                 bit: seq<bool>, property: seq<nat>, fix: bool)
    requires Merging(G, p0, o0, p, o, bit0, bit, fix) && SameOutside(p, o, bit0, property0, bit, property)
    requires o < TOP && Start(p, o) == p && Stale(Without(With(G, p0, o0), p, o), bit, property, p, o)
    ensures var q := BuddyOf(p, o); Meets(G, bit0, property0, p0, o0) && q !in With(G, p0, o0) && q < |bit0| && bit0[q]
  {
    hide Start;
    hide Pow2;
    BuddyFacts(p, o);
    StaleBefore(G, p0, o0, p, o, bit0, property0, bit, property);
    assert StaleAt(G, bit0, property0, p0, o);
  }

  /** The state while (p, o), grown from (p0, o0) by merges with free buddies, is in hand. */
  ghost predicate Hand(G: iset<nat>, p0: nat, o0: nat, p: nat, o: nat, bit0: seq<bool>, property0: seq<nat>,
                       bit: seq<bool>, property: seq<nat>, lists: seq<seq<nat>>, fix: bool) {
    var F := With(G, p0, o0);
    && Merging(G, p0, o0, p, o, bit0, bit, fix) && SameOutside(p, o, bit0, property0, bit, property)
    && Canonical(lists, Without(F, p, o), TOP) && HeadsMarked(Without(F, p, o), bit, property) && property[p] == Pow2(o)
    && (forall x :: x in F ==> x < |bit|)
    && (Tidy(G, bit0, property0) && NoBitsIn(p0, o0, bit0) ==> TidyAround(F, p, o, bit, property))
  }

  lemma HandStart(G: iset<nat>, p0: nat, o0: nat, bit: seq<bool>, property: seq<nat>, lists: seq<seq<nat>>, fix: bool)
    requires o0 <= TOP && UsedBlock(G, p0, o0) && p0 + Pow2(o0) <= |bit|
    requires HeadsMarked(G, bit, property) && Canonical(lists, G, TOP)
    ensures Hand(G, p0, o0, p0, o0, bit, property, bit[p0 := true], property[p0 := Pow2(o0)], lists, fix)
  {
    hide Start;
    hide Pow2;
    hide MaxBlock;
    hide Canonical;
    StartMerge(G, p0, o0, bit, property, fix);
    PagesInRange(G, p0, o0, bit, property);
    if Tidy(G, bit, property) && NoBitsIn(p0, o0, bit) { TidyStart(G, p0, o0, bit, property); }
  }

  /** One merge: with a free buddy, or with a stale one. */
  lemma HandStep(G: iset<nat>, p0: nat, o0: nat, p: nat, o: nat, bit0: seq<bool>, property0: seq<nat>,
                 bit: seq<bool>, property: seq<nat>, lists: seq<seq<nat>>, fix: bool)
    requires Hand(G, p0, o0, p, o, bit0, property0, bit, property, lists, fix) && o < TOP && Start(p, o) == p
    requires Test(bit, property, BuddyOf(p, o), o) && Start(p, o + 1) < |bit|
    ensures var q, P := BuddyOf(p, o), Start(p, o + 1);
            if MaxBlock(Without(With(G, p0, o0), p, o), TOP, q, o) then
              Hand(G, p0, o0, P, o + 1, bit0, property0, Joined(bit, p, q, P, fix), property[P := 2 * Pow2(o)],
                   lists[o := Delete(lists[o], q)], fix)
            else
              Meets(G, bit0, property0, p0, o0) && q !in With(G, p0, o0) && q < |bit0| && bit0[q]
  {
    assert |bit| == |property|;
    hide Start;
    hide Pow2;
    hide MaxBlock;
    hide Canonical;
    hide HeadsMarked;
    hide Merging;
    hide Tidy;
    hide TidyAround;
    hide SameOutside;
    hide Stale;
    hide StaleAt;
    MergingFacts(G, p0, o0, p, o, bit0, bit, fix);
    var F, q, P := With(G, p0, o0), BuddyOf(p, o), Start(p, o + 1);
    InHandIsUsed(F, p, o);
    BuddyFacts(p, o);
    BuddyTestExact(Without(F, p, o), bit, property, p, o);
    if MaxBlock(Without(F, p, o), TOP, q, o) {
      StepMerge(G, p0, o0, p, o, bit0, bit, fix);
      MergeMarked(F, bit, property, p, o, fix);
      CanonicalTake(lists, Without(F, p, o), TOP, q, o);
      StepOutside(p, o, q, P, bit0, property0, bit, property, fix, 2 * Pow2(o));
      Doubling(o);
      if TidyAround(F, p, o, bit, property) { TidyStep(F, p, o, bit, property, fix); }
    } else {
      StaleMet(G, p0, o0, p, o, bit0, property0, bit, property, fix);
    }
  }

  /** The end: exact lists again, and the marks as described. */
  lemma HandEnd(G: iset<nat>, p0: nat, o0: nat, p: nat, o: nat, bit0: seq<bool>, property0: seq<nat>,
                bit: seq<bool>, property: seq<nat>, lists: seq<seq<nat>>, fix: bool)
    requires Hand(G, p0, o0, p, o, bit0, property0, bit, property, lists, fix) && Start(p, o) == p
    requires o == TOP || !Test(bit, property, BuddyOf(p, o), o)
    ensures !Meets(G, bit0, property0, p0, o0) && Merged(G, p0, o0, o, bit0, property0, bit, property, fix)
    ensures Canonical(lists[o := [p] + lists[o]], With(G, p0, o0), TOP) && HeadsMarked(With(G, p0, o0), bit, property)
  {
    hide Start;
    hide Pow2;
    hide MaxBlock;
    hide Canonical;
    hide HeadsMarked;
    hide Merging;
    hide Tidy;
    hide TidyAround;
    hide Meets;
    var F := With(G, p0, o0);
    HandEndTest(G, p0, o0, p, o, bit0, property0, bit, property, fix);
    EndMerge(G, p0, o0, p, o, bit0, bit, fix);
    MergingFacts(G, p0, o0, p, o, bit0, bit, fix);
    CanonicalPut(lists, Without(F, p, o), TOP, p, o);
    EndMarked(G, p0, o0, p, o, bit, property);
    if TidyAround(F, p, o, bit, property) { TidyEnd(F, p, o, bit, property); }
    forall x: nat | x < |bit| && x !in F
      ensures bit[x] == bit0[x] && property[x] == property0[x]
    {
      assert Start(x, o) != p;
    }
  }

  lemma HandEndTest(G: iset<nat>, p0: nat, o0: nat, p: nat, o: nat, bit0: seq<bool>, property0: seq<nat>,
                    bit: seq<bool>, property: seq<nat>, fix: bool)
    requires Merging(G, p0, o0, p, o, bit0, bit, fix) && SameOutside(p, o, bit0, property0, bit, property)
    requires HeadsMarked(Without(With(G, p0, o0), p, o), bit, property) && Start(p, o) == p
    requires o == TOP || !Test(bit, property, BuddyOf(p, o), o)
    ensures !Meets(G, bit0, property0, p0, o0)
    ensures o == TOP || !MaxBlock(Without(With(G, p0, o0), p, o), TOP, BuddyOf(p, o), o)
  {
    hide Start;
    hide Pow2;
    hide MaxBlock;
    hide HeadsMarked;
    hide Meets;
    var F := With(G, p0, o0);
    InHandIsUsed(F, p, o);
    if o < TOP {
      BuddyTestExact(Without(F, p, o), bit, property, p, o);
      StaleBefore(G, p0, o0, p, o, bit0, property0, bit, property);
      BuddyFreeBefore(G, p0, o0, p, o);
      if FreeBlock(Without(F, p, o), BuddyOf(p, o), o) { FreeBuddyIsMax(Without(F, p, o), TOP, p, o); }
    }
    NothingMet(G, p0, o0, o, bit0, property0);
  }

  lemma Doubling(o: nat)
    ensures Pow2(o + 1) == 2 * Pow2(o)
  {}
}
