/** The power-of-two buddy allocator: per-order free lists, splitting on allocation, merging by
    exclusive or on release. Pages are indices into the descriptor array. */
module BuddyPmm {
  import opened Bits
  import opened Lists
  import opened PageFrames
  import opened FreeBlocks
  import opened Options
  import opened Ranges
  import opened Sets

  const MAX_ORDER: nat := 10
  const TOP: nat := 9  // the largest order there is a list for

  ghost predicate Unallocated(p: nat, lo: nat, hi: nat, alloc: map<nat, nat>) {
    lo <= p < hi && forall a :: a in alloc ==> Start(p, alloc[a]) != a
  }

  /** The descriptors that lie in [lo, hi) and in no allocated block. */
  ghost function FreeSet(lo: nat, hi: nat, alloc: map<nat, nat>): iset<nat> {
    iset p: nat | Unallocated(p, lo, hi, alloc)
  }

  /** Every block of the largest order that meets the managed region has descriptors. */
  ghost predicate GoodRegion(lo: nat, hi: nat, len: nat) {
    && lo <= hi <= len
    && forall p: nat :: lo <= p < hi ==> Start(p, TOP) + Pow2(TOP) <= len
  }

  /** The allocated blocks are aligned, inside the region, and pairwise disjoint. */
  ghost predicate GoodAlloc(lo: nat, hi: nat, alloc: map<nat, nat>) {
    && (forall a :: a in alloc ==> alloc[a] <= TOP && Start(a, alloc[a]) == a)
    && (forall a, p: nat :: a in alloc && Start(p, alloc[a]) == a ==> lo <= p < hi)
    && (forall a, c, p: nat :: a in alloc && c in alloc && Start(p, alloc[a]) == a && Start(p, alloc[c]) == c ==>
          a == c)
  }

  /** The bits the code relies on, for the maximal blocks of the free pages G: set with the right order
      on the head of each, clear on the head of every allocated block and outside the region. Nothing
      is said about other pages, where stale bits may be left. */
  ghost predicate HeadBits(lo: nat, hi: nat, alloc: map<nat, nat>, G: iset<nat>, bit: seq<bool>, property: seq<nat>) {
    && |bit| == |property|
    && (forall i: nat, k: nat :: MaxBlock(G, TOP, i, k) ==> i < |bit| && bit[i] && property[i] == k)
    && (forall a :: a in alloc ==> a < |bit| && !bit[a])
    && (forall p: nat :: p < |bit| && !(lo <= p < hi) ==> !bit[p])
  }

  ghost predicate Counted(lists: seq<seq<nat>>, nr: seq<nat>) {
    |nr| == |lists| && forall o :: 0 <= o < |nr| ==> nr[o] == |lists[o]|
  }

  /** Order needed for n pages: the least power of two that is enough, found by the source's loop. */
  function OrderFrom(n: nat, o: nat): (r: nat)
    requires o <= MAX_ORDER
    ensures o <= r <= MAX_ORDER
    ensures r < MAX_ORDER ==> n <= Pow2(r)
    ensures forall k :: o <= k < r ==> Pow2(k) < n
    decreases MAX_ORDER - o
  {
    if o < MAX_ORDER && Pow2(o) < n then OrderFrom(n, o + 1) else o
  }

  lemma TopSize()
    ensures Pow2(TOP) == 512
  {
    assert Pow2(3) == 8 && Pow2(6) == 64;
  }

  /** List k is the first non-empty one from order o on. */
  predicate FirstList(lists: seq<seq<nat>>, o: nat, k: nat) {
    o <= k < |lists| && lists[k] != [] && forall j :: o <= j < k ==> lists[j] == []
  }

  // ---- the merge test ----

  /** The state of a merge: the free pages F of the allocation less the block of order o at b, which is in hand. */
  ghost predicate InHand(lo: nat, hi: nat, alloc: map<nat, nat>, b: nat, o: nat) {
    o <= TOP && FreeBlock(FreeSet(lo, hi, alloc), b, o)
  }

  /** An allocated page at the buddy heads its allocated block. */
  lemma AllocatedBuddyHead(lo: nat, hi: nat, alloc: map<nat, nat>, b: nat, o: nat, q: nat)
    requires GoodAlloc(lo, hi, alloc) && Unallocated(b, lo, hi, alloc) && Start(b, o + 1) == Start(q, o + 1)
    requires Start(q, o) == q && lo <= q < hi && !Unallocated(q, lo, hi, alloc)
    ensures q in alloc
  {
    var a :| a in alloc && Start(q, alloc[a]) == a;
    if alloc[a] > o {
      StartNest(q, o + 1, alloc[a]);
      StartNest(b, o + 1, alloc[a]);
      assert false;
    }
    AlignedDown(q, alloc[a], o);
  }

  /** What the code reads at the buddy decides exactly whether the buddy is a listed free block of
      this order, whatever stale bits there are. */
  lemma BuddyTestExact(lo: nat, hi: nat, alloc: map<nat, nat>, bit: seq<bool>, property: seq<nat>, b: nat, o: nat)
    requires GoodRegion(lo, hi, |bit|) && GoodAlloc(lo, hi, alloc) && InHand(lo, hi, alloc, b, o) && o < TOP
    requires HeadBits(lo, hi, alloc, Without(FreeSet(lo, hi, alloc), b, o), bit, property)
    ensures BuddyOf(b, o) < |bit|
    ensures bit[BuddyOf(b, o)] && property[BuddyOf(b, o)] == o
      <==> MaxBlock(Without(FreeSet(lo, hi, alloc), b, o), TOP, BuddyOf(b, o), o)
  {
    var F, q := FreeSet(lo, hi, alloc), BuddyOf(b, o);
    var G := Without(F, b, o);
    assert b in F;
    BuddyInRange(lo, hi, |bit|, b, o);
    BuddyFacts(b, o);
    if q in G {
      var k := FreeBuddyHead(G, TOP, b, o, q);
      if MaxBlock(G, TOP, q, o) { MaxDisjoint(G, TOP, q, o, q, k, q); }
    } else if lo <= q < hi {
      AllocatedBuddyHead(lo, hi, alloc, b, o, q);
    }
  }

  lemma BuddyInRange(lo: nat, hi: nat, len: nat, b: nat, o: nat)
    requires GoodRegion(lo, hi, len) && lo <= b < hi && o < TOP && Start(b, o) == b
    ensures BuddyOf(b, o) < len
  {
    hide Start;
    hide Pow2;
    var q := BuddyOf(b, o);
    BuddyFacts(b, o);
    StartNest(b, o + 1, TOP);
    StartNest(q, o + 1, TOP);
    StartBounds(q, TOP);
  }

  // ---- how the invariant moves ----

  ghost function Remove(alloc: map<nat, nat>, a: nat): map<nat, nat> {
    map x | x in alloc && x != a :: alloc[x]
  }

  lemma UnallocatedAdd(p: nat, lo: nat, hi: nat, alloc: map<nat, nat>, b: nat, o: nat)
    requires b !in alloc
    ensures Unallocated(p, lo, hi, alloc[b := o]) <==> Unallocated(p, lo, hi, alloc) && Start(p, o) != b
  {
    var alloc' := alloc[b := o];
    assert forall a :: a in alloc' <==> a == b || a in alloc;
    if Unallocated(p, lo, hi, alloc') {
      assert b in alloc';
      assert forall a :: a in alloc ==> a in alloc' && alloc'[a] == alloc[a];
    }
  }

  /** Allocating a free block takes exactly its pages from the free ones. */
  lemma TakePages(lo: nat, hi: nat, alloc: map<nat, nat>, b: nat, o: nat)
    requires GoodAlloc(lo, hi, alloc) && o <= TOP && FreeBlock(FreeSet(lo, hi, alloc), b, o)
    ensures b !in alloc && GoodAlloc(lo, hi, alloc[b := o])
    ensures FreeSet(lo, hi, alloc[b := o]) == Without(FreeSet(lo, hi, alloc), b, o)
  {
    var F, alloc' := FreeSet(lo, hi, alloc), alloc[b := o];
    assert Unallocated(b, lo, hi, alloc) by { assert b in F; }
    forall p: nat
      ensures p in FreeSet(lo, hi, alloc') <==> p in Without(F, b, o)
    {
      UnallocatedAdd(p, lo, hi, alloc, b, o);
    }
    forall a, c, p: nat | a in alloc' && c in alloc' && Start(p, alloc'[a]) == a && Start(p, alloc'[c]) == c
      ensures a == c
    {
      if a == b || c == b { assert p in F; }
    }
  }

  /** Releasing an allocated block gives exactly its pages back. */
  lemma ReleasePages(lo: nat, hi: nat, alloc: map<nat, nat>, a: nat)
    requires GoodAlloc(lo, hi, alloc) && a in alloc
    ensures GoodAlloc(lo, hi, Remove(alloc, a))
    ensures FreeBlock(FreeSet(lo, hi, Remove(alloc, a)), a, alloc[a])
    ensures Without(FreeSet(lo, hi, Remove(alloc, a)), a, alloc[a]) == FreeSet(lo, hi, alloc)
    ensures alloc[a] <= TOP
  {
    var alloc', o := Remove(alloc, a), alloc[a];
    assert alloc == alloc'[a := o];
    forall p: nat
      ensures Unallocated(p, lo, hi, alloc) <==> Unallocated(p, lo, hi, alloc') && Start(p, o) != a
    {
      UnallocatedAdd(p, lo, hi, alloc', a, o);
    }
    forall p: nat | Start(p, o) == a
      ensures Unallocated(p, lo, hi, alloc')
    {
      ReleasedPageFree(lo, hi, alloc, a, p);
    }
  }

  lemma ReleasedPageFree(lo: nat, hi: nat, alloc: map<nat, nat>, a: nat, p: nat)
    requires GoodAlloc(lo, hi, alloc) && a in alloc && Start(p, alloc[a]) == a
    ensures Unallocated(p, lo, hi, Remove(alloc, a))
  {
    var alloc' := Remove(alloc, a);
    forall c | c in alloc'
      ensures Start(p, alloc'[c]) != c
    {
      assert c in alloc && alloc[c] == alloc'[c];
    }
  }

  /** Heading a new maximal block with its bit and order. */
  lemma HeadBitsPut(lo: nat, hi: nat, alloc: map<nat, nat>, G: iset<nat>, bit: seq<bool>, property: seq<nat>,
      b: nat, o: nat)
    requires HeadBits(lo, hi, alloc, G, bit, property)
    requires o <= TOP && UsedBlock(G, b, o) && (o == TOP || !FreeBlock(G, BuddyOf(b, o), o))
    requires b < |bit| && lo <= b < hi && b !in alloc
    ensures HeadBits(lo, hi, alloc, With(G, b, o), bit[b := true], property[b := o])
  {
    PutMax(G, TOP, b, o);
    forall i: nat, k: nat | MaxBlock(G, TOP, i, k)
      ensures i != b
    {
      InOwnBlock(G, i, k);
      assert Start(b, o) == b;
    }
  }

  /** Clearing the bit of a block that is handed out. */
  lemma HeadBitsAlloc(lo: nat, hi: nat, alloc: map<nat, nat>, G: iset<nat>, bit: seq<bool>, property: seq<nat>,
      b: nat, o: nat)
    requires HeadBits(lo, hi, alloc, G, bit, property) && b !in G && b < |bit|
    ensures HeadBits(lo, hi, alloc[b := o], G, bit[b := false], property)
  {
    forall i: nat, k: nat | MaxBlock(G, TOP, i, k)
      ensures i != b
    {
      InOwnBlock(G, i, k);
    }
  }

  /** Taking a maximal block out only removes heads. */
  lemma HeadBitsTake(lo: nat, hi: nat, alloc: map<nat, nat>, F: iset<nat>, bit: seq<bool>, property: seq<nat>,
      b: nat, o: nat)
    requires HeadBits(lo, hi, alloc, F, bit, property) && MaxBlock(F, TOP, b, o)
    ensures HeadBits(lo, hi, alloc, Without(F, b, o), bit, property)
  {
    TakeMax(F, TOP, b, o);
  }

  /** Fewer allocated blocks, fewer bits to be clear. */
  lemma HeadBitsRelease(lo: nat, hi: nat, alloc: map<nat, nat>, G: iset<nat>, bit: seq<bool>, property: seq<nat>,
      a: nat)
    requires HeadBits(lo, hi, alloc, G, bit, property)
    ensures HeadBits(lo, hi, Remove(alloc, a), G, bit, property)
  {}

  /** Pushing the upper half of a block in hand. */
  lemma HeadBitsSplit(lo: nat, hi: nat, alloc: map<nat, nat>, F: iset<nat>, bit: seq<bool>, property: seq<nat>,
      b: nat, o: nat)
    requires HeadBits(lo, hi, alloc, Without(F, b, o + 1), bit, property)
    requires GoodAlloc(lo, hi, alloc) && o < TOP && FreeBlock(F, b, o + 1) && F == FreeSet(lo, hi, alloc) && hi <= |bit|
    ensures b + Pow2(o) < |bit|
    ensures HeadBits(lo, hi, alloc, Without(F, b, o), bit[b + Pow2(o) := true], property[b + Pow2(o) := o])
  {
    hide Start;
    hide Pow2;
    hide HeadBits;
    hide GoodAlloc;
    var G, h := Without(F, b, o + 1), b + Pow2(o);
    Halves(b, o);
    SplitHalves(F, b, o);
    BuddyFacts(h, o);
    StartNest(b, o, o + 1);
    assert b !in G && h in F;
    assert Unallocated(h, lo, hi, alloc);
    HeadInF(lo, hi, alloc, h);
    HeadBitsPut(lo, hi, alloc, G, bit, property, h, o);
  }

  lemma HeadInF(lo: nat, hi: nat, alloc: map<nat, nat>, h: nat)
    requires GoodAlloc(lo, hi, alloc) && Unallocated(h, lo, hi, alloc)
    ensures h !in alloc
  {}

  // ---- runs of calls ----

  ghost predicate HoldsBlock(b: (nat, nat), alloc: map<nat, nat>) {
    b.1 > 0 && b.0 in alloc && alloc[b.0] == OrderFrom(b.1, 0)
  }

  /** The blocks a client holds, with the sizes it asked for, are the allocated ones. */
  ghost predicate HoldsBlocks(held: seq<(nat, nat)>, alloc: map<nat, nat>) {
    && |held| == |alloc|
    && (forall j :: 0 <= j < |held| ==> HoldsBlock(held[j], alloc))
    && (forall i, j :: 0 <= i < j < |held| ==> held[i].0 != held[j].0)
  }

  lemma OneMoreBlock(held: seq<(nat, nat)>, alloc: map<nat, nat>, a: nat, n: nat)
    requires HoldsBlocks(held, alloc) && a !in alloc && n > 0
    ensures HoldsBlocks(held + [(a, n)], alloc[a := OrderFrom(n, 0)])
  {
    hide OrderFrom;
    var held', alloc' := held + [(a, n)], alloc[a := OrderFrom(n, 0)];
    forall j | 0 <= j < |held'|
      ensures HoldsBlock(held'[j], alloc') && held'[j] == (if j < |held| then held[j] else (a, n))
      ensures j < |held| ==> held[j].0 != a
    {
      if j < |held| { assert HoldsBlock(held[j], alloc); }
    }
    assert alloc'.Keys == alloc.Keys + {a};
  }

  lemma OneBlockLess(held: seq<(nat, nat)>, alloc: map<nat, nat>, k: nat)
    requires HoldsBlocks(held, alloc) && k < |held|
    ensures HoldsBlocks(held[..k] + held[k + 1..], Remove(alloc, held[k].0))
  {
    hide OrderFrom;
    var held', alloc' := held[..k] + held[k + 1..], Remove(alloc, held[k].0);
    assert HoldsBlock(held[k], alloc);
    assert alloc'.Keys == alloc.Keys - {held[k].0};
    forall j | 0 <= j < |held'|
      ensures HoldsBlock(held'[j], alloc')
    {
      var m := if j < k then j else j + 1;
      assert held'[j] == held[m] && HoldsBlock(held[m], alloc);
    }
  }

  /** The pages of all allocated blocks together. */
  ghost function AllocatedPages(alloc: map<nat, nat>): nat {
    if alloc == map[] then 0 else Pow2(alloc[SomeBlock(alloc)]) + AllocatedPages(Remove(alloc, SomeBlock(alloc)))
  }

  ghost function SomeBlock(alloc: map<nat, nat>): (a: nat)
    requires alloc != map[]
    ensures a in alloc && |Remove(alloc, a)| < |alloc|
  {
    var a :| a in alloc;
    assert Remove(alloc, a).Keys == alloc.Keys - {a};
    a
  }

  /** The region's pages that lie in no allocated block, as a finite set of the right size. */
  lemma {:induction false} FreePagesLeft(lo: nat, hi: nat, alloc: map<nat, nat>) returns (free: set<nat>)
    requires GoodAlloc(lo, hi, alloc) && lo <= hi
    ensures forall p: nat :: p in free <==> p in FreeSet(lo, hi, alloc)
    ensures |free| + AllocatedPages(alloc) == hi - lo
    decreases |alloc|
  {
    if alloc == map[] {
      free := Interval(lo, hi - lo);
      assert forall p: nat :: Unallocated(p, lo, hi, alloc) <==> p in free;
    } else {
      hide GoodAlloc;
      hide FreeSet;
      var a := SomeBlock(alloc);
      var more := FreePagesOfRest(lo, hi, alloc, a);
      var block := Interval(a, Pow2(alloc[a]));
      BlockLeaves(lo, hi, alloc, a, more, block);
      free := more - block;
      SubsetSize(block, more);
    }
  }

  lemma {:induction false} FreePagesOfRest(lo: nat, hi: nat, alloc: map<nat, nat>, a: nat) returns (more: set<nat>)
    requires GoodAlloc(lo, hi, alloc) && lo <= hi && a in alloc && |Remove(alloc, a)| < |alloc|
    ensures forall p: nat :: p in more <==> p in FreeSet(lo, hi, Remove(alloc, a))
    ensures |more| + AllocatedPages(Remove(alloc, a)) == hi - lo
    decreases |alloc|, 0
  {
    ReleasePages(lo, hi, alloc, a);
    more := FreePagesLeft(lo, hi, Remove(alloc, a));
  }

  lemma BlockLeaves(lo: nat, hi: nat, alloc: map<nat, nat>, a: nat, more: set<nat>, block: set<nat>)
    requires GoodAlloc(lo, hi, alloc) && a in alloc && block == Interval(a, Pow2(alloc[a]))
    requires forall p: nat :: p in more <==> p in FreeSet(lo, hi, Remove(alloc, a))
    ensures block <= more && forall p: nat :: p in more - block <==> p in FreeSet(lo, hi, alloc)
  {
    ReleasePages(lo, hi, alloc, a);
    hide FreeSet;
    BlockIsInterval(a, alloc[a]);
    forall p: nat
      ensures p in more - block <==> p in FreeSet(lo, hi, alloc)
    {
      assert p in Without(FreeSet(lo, hi, Remove(alloc, a)), a, alloc[a]) <==> p in FreeSet(lo, hi, alloc);
    }
  }

  /** No page is lost: the sizes of the listed blocks and of the allocated ones add up to the region. */
  lemma PagesConserved(lists: seq<seq<nat>>, lo: nat, hi: nat, alloc: map<nat, nat>)
    requires Canonical(lists, FreeSet(lo, hi, alloc), TOP) && GoodAlloc(lo, hi, alloc) && lo <= hi
    ensures PagesFrom(lists, 0) + AllocatedPages(alloc) == hi - lo
  {
    hide *;
    var free := FreePagesLeft(lo, hi, alloc);
    CountsFreePages(lists, FreeSet(lo, hi, alloc), TOP, free);
  }

  lemma RegionOrder(lo: nat, hi: nat, len: nat)
    requires GoodRegion(lo, hi, len)
    ensures lo <= hi <= len
  {}

  /** What there is to see between two calls: the allocated blocks, the ones a client holds, and the pages listed. */
  datatype Snapshot = Snapshot(alloc: map<nat, nat>, held: seq<(nat, nat)>, listed: nat)

  /** A request for n pages can be met. */
  ghost predicate CanGrant(lo: nat, hi: nat, alloc: map<nat, nat>, n: nat) {
    0 < n <= 512 && exists i: nat :: FreeBlock(FreeSet(lo, hi, alloc), i, OrderFrom(n, 0))
  }

  ghost predicate Conserves(lo: nat, hi: nat, a: Snapshot) {
    a.listed + AllocatedPages(a.alloc) == hi - lo
  }

  /** What one call does: a request is met if it can be, by a free block of its order; a release gives back exactly
      the block named. */
  ghost predicate Step(lo: nat, hi: nat, c: Call, a: Snapshot, b: Snapshot) {
    match c
    case Request(n) =>
      if CanGrant(lo, hi, a.alloc, n) then
        exists r: nat :: FreeBlock(FreeSet(lo, hi, a.alloc), r, OrderFrom(n, 0))
          && b.alloc == a.alloc[r := OrderFrom(n, 0)] && b.held == a.held + [(r, n)]
      else b == a
    case Release(k) =>
      if k < |a.held| then b.alloc == Remove(a.alloc, a.held[k].0) && b.held == a.held[..k] + a.held[k + 1..]
      else b == a
  }

  /** Two histories that leave the same pages allocated leave the same blocks on every list. */
  lemma SamePagesSameLists(l1: seq<seq<nat>>, l2: seq<seq<nat>>, lo: nat, hi: nat, alloc1: map<nat, nat>,
      alloc2: map<nat, nat>, o: nat)
    requires Canonical(l1, FreeSet(lo, hi, alloc1), TOP) && Canonical(l2, FreeSet(lo, hi, alloc2), TOP) && o <= TOP
    requires forall p: nat :: Unallocated(p, lo, hi, alloc1) <==> Unallocated(p, lo, hi, alloc2)
    ensures multiset(l1[o]) == multiset(l2[o])
  {
    assert FreeSet(lo, hi, alloc1) == FreeSet(lo, hi, alloc2);
    ListsDependOnPages(l1, l2, FreeSet(lo, hi, alloc1), TOP, o);
  }

  // ---- laying out the initial region ----

  ghost function Span(lo: nat, hi: nat): iset<nat> {
    iset p: nat | Within(p, lo, hi)
  }

  /** The pages laid out so far. */
  ghost function Below(base: nat, offset: nat): iset<nat> {
    Span(base, base + offset)
  }

  lemma EmptyLists(lists: seq<seq<nat>>, bit: seq<bool>, property: seq<nat>, lo: nat, hi: nat)
    requires |lists| == MAX_ORDER && forall k :: 0 <= k < MAX_ORDER ==> lists[k] == []
    requires |bit| == |property| && forall p :: 0 <= p < |bit| ==> !bit[p]
    ensures Canonical(lists, Below(lo, 0), TOP) && HeadBits(lo, hi, map[], Below(lo, 0), bit, property)
  {
    forall i: nat, k: nat
      ensures !MaxBlock(Below(lo, 0), TOP, i, k)
    {
      if MaxBlock(Below(lo, 0), TOP, i, k) { InOwnBlock(Below(lo, 0), i, k); }
    }
  }

  lemma NoBlocks(lists: seq<seq<nat>>)
    requires |lists| == MAX_ORDER && forall k :: 0 <= k < MAX_ORDER ==> lists[k] == []
    ensures ListsThese(lists, [])
  {}

  lemma LayoutEnd(base: nat)
    ensures Layout(base, 0) == []
  {}

  lemma NothingGranted(lo: nat, hi: nat)
    ensures GoodAlloc(lo, hi, map[])
  {}

  lemma NothingAllocated(base: nat, n: nat)
    ensures FreeSet(base, base + n, map[]) == Below(base, n)
  {
    var end := base + n;
    assert forall p: nat :: Unallocated(p, base, end, map[]) <==> Within(p, base, end);
  }

  lemma LayOut(base: nat, offset: nat, o: nat)
    requires Start(base + offset, o) == base + offset
    ensures UsedBlock(Below(base, offset), base + offset, o)
    ensures With(Below(base, offset), base + offset, o) == Below(base, offset + Pow2(o))
    ensures Start(base + offset + Pow2(o), o) == base + offset + Pow2(o)
  {
    hide Start;
    hide Pow2;
    hide Interval;
    var page := base + offset;
    StartAdd(page, o);
    BlockIsInterval(page, o);
    forall p: nat
      ensures Start(p, o) == page <==> page <= p < page + Pow2(o)
    {
      assert p in Interval(page, Pow2(o)) <==> page <= p < page + Pow2(o);
    }
    assert With(Below(base, offset), page, o) == Below(base, offset + Pow2(o));
  }

  /** The largest order up to o of which a block fits in what is left. */
  function Fit(left: nat, o: nat): (r: nat)
    requires left > 0
    ensures r <= o && Pow2(r) <= left && (r == o || left < Pow2(r + 1))
  {
    if Pow2(o) <= left then o else Fit(left, o - 1)
  }

  /** The blocks the region is cut into, as base and order: always the largest that fits what is left. */
  function Layout(base: nat, n: nat): seq<(nat, nat)>
    decreases n
  {
    if n == 0 then [] else
      var o := Fit(n, TOP);
      [(base, o)] + Layout(base + Pow2(o), n - Pow2(o))
  }

  lemma LayoutStep(base: nat, n: nat)
    requires n > 0
    ensures Fit(n, TOP) <= TOP && Pow2(Fit(n, TOP)) <= n
    ensures var o := Fit(n, TOP); Layout(base, n) == [(base, o)] + Layout(base + Pow2(o), n - Pow2(o))
  {
    hide Fit;
    hide Pow2;
  }

  /** The blocks follow one another inside [lo, hi). */
  ghost predicate InOrder(blocks: seq<(nat, nat)>, lo: nat, hi: nat) {
    && (forall j :: 0 <= j < |blocks| ==> lo <= blocks[j].0 && blocks[j].0 + Pow2(blocks[j].1) <= hi)
    && (forall i, j :: 0 <= i < j < |blocks| ==> blocks[i].0 + Pow2(blocks[i].1) <= blocks[j].0)
  }

  lemma InOrderMore(blocks: seq<(nat, nat)>, lo: nat, o: nat, hi: nat)
    requires lo + Pow2(o) <= hi && InOrder(blocks, lo + Pow2(o), hi)
    ensures InOrder([(lo, o)] + blocks, lo, hi)
  {
    hide Pow2;
  }

  /** Whatever the base, they partition the region: they follow one another inside it, and no page is left out. */
  lemma {:induction false} LayoutInOrder(base: nat, n: nat)
    ensures InOrder(Layout(base, n), base, base + n)
    decreases n
  {
    LayoutEnd(base);
    hide Layout;
    hide Fit;
    hide Pow2;
    if n > 0 {
      var o := Fit(n, TOP);
      LayoutStep(base, n);
      hide InOrder;
      LayoutInOrder(base + Pow2(o), n - Pow2(o));
      InOrderMore(Layout(base + Pow2(o), n - Pow2(o)), base, o, base + n);
    }
  }

  lemma {:induction false} LayoutCovers(base: nat, n: nat, p: nat)
    requires base <= p < base + n
    ensures Covered(Layout(base, n), p)
    decreases n
  {
    hide Layout;
    hide Pow2;
    hide Fit;
    var o := Fit(n, TOP);
    LayoutStep(base, n);
    var all, rest := Layout(base, n), Layout(base + Pow2(o), n - Pow2(o));
    if p < base + Pow2(o) {
      assert CoveredBy(all[0], p);
    } else {
      LayoutCovers(base + Pow2(o), n - Pow2(o), p);
      var j :| 0 <= j < |rest| && CoveredBy(rest[j], p);
      assert CoveredBy(all[j + 1], p);
    }
  }

  predicate CoveredBy(block: (nat, nat), p: nat) {
    block.0 <= p < block.0 + Pow2(block.1)
  }

  ghost predicate Covered(blocks: seq<(nat, nat)>, p: nat) {
    exists j :: 0 <= j < |blocks| && CoveredBy(blocks[j], p)
  }

  ghost predicate ListsThese(lists: seq<seq<nat>>, blocks: seq<(nat, nat)>) {
    |lists| == MAX_ORDER && forall i: nat, o: nat :: o <= TOP ==> (i in lists[o] <==> (i, o) in blocks)
  }

  lemma ListsOneMore(lists: seq<seq<nat>>, blocks: seq<(nat, nat)>, page: nat, order: nat)
    requires ListsThese(lists, blocks) && order <= TOP
    ensures ListsThese(lists[order := [page] + lists[order]], blocks + [(page, order)])
  {
    var lists', blocks' := lists[order := [page] + lists[order]], blocks + [(page, order)];
    forall i: nat, o: nat | o <= TOP
      ensures i in lists'[o] <==> (i, o) in blocks'
    {
      assert (i, o) in blocks' <==> (i, o) in blocks || (i, o) == (page, order);
    }
  }

  /** A first block that is not aligned is no maximal block, although it is listed. */
  lemma FirstBlockAligned(lists: seq<seq<nat>>, F: iset<nat>, base: nat, n: nat)
    requires n > 0 && ListsThese(lists, Layout(base, n)) && Canonical(lists, F, TOP)
    ensures Start(base, Fit(n, TOP)) == base
  {
    var o := Fit(n, TOP);
    assert Layout(base, n)[0] == (base, o);
    assert base in lists[o];
  }

  /** The region of the two pages 1 and 2 is not cut into maximal blocks. */
  lemma UnalignedRegion()
    ensures Layout(1, 2) == [(1, 1)] && Start(1, Fit(2, TOP)) != 1
  {
    assert Pow2(1) == 2 && Fit(2, 1) == 1;
    assert forall o :: 1 < o <= TOP ==> Fit(2, o) == Fit(2, o - 1);
    assert Layout(3, 0) == [];
  }

  /** The next block of the layout is aligned, and nothing laid out before it is its free buddy. */
  lemma NextBlock(base: nat, offset: nat, cap: nat, order: nat, left: nat)
    requires cap <= TOP && Start(base + offset, cap) == base + offset
    requires cap == TOP || left < Pow2(cap) || (offset == 0 && order == cap)
    requires order <= TOP && Pow2(order) <= left
    ensures Start(base + offset, order) == base + offset
    ensures order == TOP || !FreeBlock(Below(base, offset), BuddyOf(base + offset, order), order)
  {
    var page := base + offset;
    if order > cap { Pow2Mono(cap, order); }
    AlignedDown(page, order, cap);
    if order < TOP {
      BuddyFacts(page, order);
      if FreeBlock(Below(base, offset), BuddyOf(page, order), order) {
        InOwnBlock(Below(base, offset), BuddyOf(page, order), order);
        AlignedDown(page, order + 1, cap);
        assert false;
      }
    }
  }

  /** Listing and marking the next block. */
  lemma LayPut(lists: seq<seq<nat>>, bit: seq<bool>, property: seq<nat>, base: nat, offset: nat, hi: nat, o: nat)
    requires base + offset < hi <= |bit| && o <= TOP && Start(base + offset, o) == base + offset
    requires o == TOP || !FreeBlock(Below(base, offset), BuddyOf(base + offset, o), o)
    requires Canonical(lists, Below(base, offset), TOP) && HeadBits(base, hi, map[], Below(base, offset), bit, property)
    ensures Start(base + offset + Pow2(o), o) == base + offset + Pow2(o)
    ensures Canonical(lists[o := [base + offset] + lists[o]], Below(base, offset + Pow2(o)), TOP)
    ensures HeadBits(base, hi, map[], Below(base, offset + Pow2(o)), bit[base + offset := true],
                     property[base + offset := o])
  {
    var page, G := base + offset, Below(base, offset);
    LayOut(base, offset, o);
    hide *;
    CanonicalPut(lists, G, TOP, page, o);
    HeadBitsPut(base, hi, map[], G, bit, property, page, o);
  }

  /** The order of the next block, and the alignment that follows it. */
  lemma LayNext(base: nat, offset: nat, left: nat, cap: nat)
    requires left > 0 && cap <= TOP && Start(base + offset, cap) == base + offset
    requires cap == TOP || left < Pow2(cap) || (offset == 0 && cap == Fit(left, TOP))
    ensures var page, o := base + offset, Fit(left, TOP); (
      && Start(page, o) == page && (o == TOP || left - Pow2(o) < Pow2(o))
      && (o == TOP || !FreeBlock(Below(base, offset), BuddyOf(page, o), o)))
  {
    assert Pow2(Fit(left, TOP) + 1) == 2 * Pow2(Fit(left, TOP));
    hide *;
    NextBlock(base, offset, cap, Fit(left, TOP), left);
  }

  /** The allocator's static state. The bit is PG_property of a page's flags. */
  class Buddy {
    const bit: array<bool>
    const property: array<nat>
    const freeList: array<seq<nat>>
    const nrFree: array<nat>
    ghost var lo: nat
    ghost var hi: nat
    ghost var alloc: map<nat, nat>

    ghost predicate Shape()
      reads this
    {
      && bit.Length == property.Length
      && freeList.Length == nrFree.Length == MAX_ORDER
      && property != nrFree
    }

    /** The lists hold exactly the maximal blocks of the free pages F, and the bits say so. */
    ghost predicate Lists(F: iset<nat>)
      reads this, bit, property, freeList, nrFree
    {
      && Shape()
      && Canonical(freeList[..], F, TOP) && Counted(freeList[..], nrFree[..])
      && HeadBits(lo, hi, alloc, F, bit[..], property[..])
    }

    ghost predicate Valid()
      reads this, bit, property, freeList, nrFree
    {
      && Lists(FreeSet(lo, hi, alloc))
      && GoodRegion(lo, hi, bit.Length)
      && GoodAlloc(lo, hi, alloc)
    }

    ghost predicate Empty()
      reads this, freeList, nrFree
    {
      Shape() && alloc == map[] && forall k :: 0 <= k < MAX_ORDER ==> freeList[k] == [] && nrFree[k] == 0
    }

    constructor (pages: nat)
      ensures fresh(bit) && fresh(property) && fresh(freeList) && fresh(nrFree)
      ensures Empty() && bit.Length == pages && forall p :: 0 <= p < pages ==> !bit[p]
    {
      bit := new bool[pages](_ => false);
      property := new nat[pages](_ => 0);
      freeList := new seq<nat>[MAX_ORDER](_ => []);
      nrFree := new nat[MAX_ORDER](_ => 0);
      lo, hi, alloc := 0, 0, map[];
      new;
      Init();
    }

    method Init()
      requires Shape()
      modifies this`alloc, freeList, nrFree
      ensures Empty()
    {
      alloc := map[];
      for i := 0 to MAX_ORDER
        modifies freeList, nrFree
        invariant forall k :: 0 <= k < i ==> freeList[k] == [] && nrFree[k] == 0
      {
        freeList[i] := [];
        nrFree[i] := 0;
      }
    }

    method ClearFlags(base: nat, n: nat)
      requires Shape() && base + n <= bit.Length
      requires forall p :: 0 <= p < bit.Length && !(base <= p < base + n) ==> !bit[p]
      modifies bit
      ensures forall p :: 0 <= p < bit.Length ==> !bit[p]
    {
      for i := 0 to n
        invariant forall p :: 0 <= p < bit.Length && !(base + i <= p < base + n) ==> !bit[p]
      {
        bit[base + i] := false;
      }
    }

    /** The largest order that fits in what is left. */
    method LargestFit(left: nat) returns (order: nat)
      requires left > 0
      ensures order == Fit(left, TOP)
    {
      order := MAX_ORDER - 1;
      while Pow2(order) > left
        invariant order < MAX_ORDER && Fit(left, order) == Fit(left, TOP)
      {
        order := order - 1;
      }
    }

    /** The layout loop. */
    method LayRegion(base: nat, n: nat)
      requires Empty() && n > 0 && lo == base && hi == base + n <= bit.Length
      requires forall p :: 0 <= p < bit.Length ==> !bit[p]
      modifies bit, property, freeList, nrFree
      ensures ListsThese(freeList[..], Layout(base, n)) && Counted(freeList[..], nrFree[..])
      ensures Start(base, Fit(n, TOP)) == base ==> Lists(Below(base, n))
    {
      hide Below;
      hide Canonical;
      hide HeadBits;
      hide Start;
      hide Layout;
      hide ListsThese;
      hide Pow2;
      EmptyLists(freeList[..], bit[..], property[..], base, base + n);
      NoBlocks(freeList[..]);
      var offset: nat, left: nat := 0, n;
      ghost var cap: nat, laid: seq<(nat, nat)> := Fit(n, TOP), [];
      ghost var aligned := Start(base, cap) == base;
      while left > 0
        modifies bit, property, freeList, nrFree
        invariant offset + left == n && Shape() && Counted(freeList[..], nrFree[..])
        invariant laid + Layout(base + offset, left) == Layout(base, n) && ListsThese(freeList[..], laid)
        invariant aligned ==> (Canonical(freeList[..], Below(base, offset), TOP)
          && HeadBits(lo, hi, alloc, Below(base, offset), bit[..], property[..])
          && cap <= TOP && Start(base + offset, cap) == base + offset
          && (cap == TOP || left < Pow2(cap) || (offset == 0 && cap == Fit(left, TOP))))
      {
        var order := LargestFit(left);
        LayoutStep(base + offset, left);
        ListsOneMore(freeList[..], laid, base + offset, order);
        if aligned {
          LayNext(base, offset, left, cap);
          LayPut(freeList[..], bit[..], property[..], base, offset, hi, order);
        }
        PushBlock(base + offset, order);
        laid := laid + [(base + offset, order)];
        offset := offset + Pow2(order);
        left := left - Pow2(order);
        cap := order;
      }
      LayoutEnd(base + offset);
      assert laid + [] == laid;
    }

    /** The region is cut into blocks that are all listed. They are the maximal blocks of its pages exactly when the
        first of them is aligned to its own size. */
    method InitMemmap(base: nat, n: nat)
      requires Empty() && n > 0 && GoodRegion(base, base + n, bit.Length)
      requires forall p :: 0 <= p < bit.Length && !(base <= p < base + n) ==> !bit[p]
      modifies this`lo, this`hi, bit, property, freeList, nrFree
      ensures lo == base && hi == base + n
      ensures ListsThese(freeList[..], Layout(base, n)) && Counted(freeList[..], nrFree[..])
      ensures Valid() <==> Start(base, Fit(n, TOP)) == base
    {
      hide FreeSet;
      hide Below;
      hide Canonical;
      hide HeadBits;
      hide Start;
      hide Layout;
      hide ListsThese;
      hide Pow2;
      ClearFlags(base, n);
      lo, hi := base, base + n;
      LayRegion(base, n);
      NothingAllocated(base, n);
      NothingGranted(base, base + n);
      if Canonical(freeList[..], FreeSet(lo, hi, alloc), TOP) {
        FirstBlockAligned(freeList[..], FreeSet(lo, hi, alloc), base, n);
      }
    }

    /** The statements that put a block on a list: property, bit, list_add, counter. */
    method PushBlock(page: nat, order: nat)
      requires Shape() && page < bit.Length && order < MAX_ORDER
      modifies bit, property, freeList, nrFree
      ensures bit[..] == old(bit[..])[page := true]
      ensures property[..] == old(property[..])[page := order]
      ensures freeList[..] == old(freeList[..])[order := [page] + old(freeList[order])]
      ensures nrFree[..] == old(nrFree[..])[order := old(nrFree[order]) + 1]
    {
      property[page] := order;
      bit[page] := true;
      freeList[order] := [page] + freeList[order];
      nrFree[order] := nrFree[order] + 1;
    }

    /** The least order whose blocks hold n pages; MAX_ORDER when there is none. */
    method OrderFor(n: nat) returns (order: nat)
      ensures order == OrderFrom(n, 0)
    {
      order := 0;
      while order < MAX_ORDER && Pow2(order) < n
        invariant order <= MAX_ORDER && OrderFrom(n, 0) == OrderFrom(n, order)
      {
        order := order + 1;
      }
    }

    method FirstNonEmpty(order: nat) returns (cur: nat)
      requires Shape() && order <= MAX_ORDER
      ensures order <= cur <= MAX_ORDER
      ensures forall k :: order <= k < cur ==> freeList[k] == []
      ensures cur < MAX_ORDER ==> freeList[cur] != []
    {
      cur := order;
      while cur < MAX_ORDER && freeList[cur] == []
        invariant order <= cur <= MAX_ORDER
        invariant forall k :: order <= k < cur ==> freeList[k] == []
      {
        cur := cur + 1;
      }
    }

    /** list_del of a block, and its counter. */
    method TakeBlock(page: nat, order: nat, ghost F: iset<nat>)
      requires Lists(F) && order < MAX_ORDER && MaxBlock(F, TOP, page, order)
      modifies freeList, nrFree
      ensures Lists(Without(F, page, order))
      ensures bit[..] == old(bit[..]) && property[..] == old(property[..])
    {
      CanonicalTake(freeList[..], F, TOP, page, order);
      DeleteEffect(freeList[order], page);
      HeadBitsTake(lo, hi, alloc, F, bit[..], property[..], page, order);
      assert page in freeList[..][order];
      freeList[order] := Delete(freeList[order], page);
      nrFree[order] := nrFree[order] - 1;
      assert freeList[..] == old(freeList[..])[order := Delete(old(freeList[order]), page)];
    }

    /** The splitting loop: the block of order cur in hand is cut down to the one of order `order`. */
    method SplitTo(page: nat, start: nat, order: nat, ghost F: iset<nat>)
      requires order <= start <= TOP && FreeBlock(F, page, start)
      requires Lists(Without(F, page, start))
      requires F == FreeSet(lo, hi, alloc) && GoodAlloc(lo, hi, alloc) && hi <= bit.Length
      modifies bit, property, freeList, nrFree
      ensures Lists(Without(F, page, order)) && FreeBlock(F, page, order)
    {
      hide Start;
      hide Pow2;
      var cur := start;
      while cur > order
        invariant order <= cur <= TOP && FreeBlock(F, page, cur)
        invariant Lists(Without(F, page, cur))
      {
        cur := cur - 1;
        CanonicalSplit(freeList[..], F, TOP, page, cur);
        HeadBitsSplit(lo, hi, alloc, F, bit[..], property[..], page, cur);
        PushBlock(page + Pow2(cur), cur);
      }
    }

    /** An empty tail of lists means that no block of the order is free. */
    lemma NoneFree(order: nat)
      requires Valid() && order <= TOP
      ensures (forall k :: order <= k <= TOP ==> freeList[k] == [])
        <==> (forall i: nat :: !FreeBlock(FreeSet(lo, hi, alloc), i, order))
    {
      var F := FreeSet(lo, hi, alloc);
      if i: nat :| FreeBlock(F, i, order) {
        var k := MaxExists(F, TOP, i, order);
        assert Start(i, k) in freeList[..][k];
      }
      if k :| order <= k <= TOP && freeList[k] != [] {
        var i := freeList[..][k][0];
        assert i in freeList[..][k];
        AlignedDown(i, order, k);
        SubBlockFree(F, i, k, i, order);
      }
    }

    /** NULL exactly when the request is empty, above the largest order, or no aligned free run of its
        order exists; otherwise the first block of the least non-empty list is cut down and handed out. */
    method AllocPages(n: nat) returns (r: Option<nat>)
      requires Valid()
      modifies this`alloc, bit, property, freeList, nrFree
      ensures Valid()
      ensures r.None? ==> alloc == old(alloc) && freeList[..] == old(freeList[..])
      ensures r.None? <==>
        (n == 0 || n > 512 || forall i: nat :: !FreeBlock(old(FreeSet(lo, hi, alloc)), i, OrderFrom(n, 0)))
      ensures r.Some? ==> FreeBlock(old(FreeSet(lo, hi, alloc)), r.value, OrderFrom(n, 0))
      ensures r.Some? ==> r.value !in old(alloc) && alloc == old(alloc)[r.value := OrderFrom(n, 0)]
      ensures r.Some? ==> exists k ::
        OrderFrom(n, 0) <= k <= 9 && FirstList(old(freeList[..]), OrderFrom(n, 0), k)
        && old(freeList[..])[k][0] == r.value
    {
      hide Start;
      hide Pow2;
      if n == 0 { return None; }
      var order := OrderFor(n);
      TopSize();
      if order >= MAX_ORDER { return None; }
      Pow2Mono(order, TOP);
      NoneFree(order);
      var cur := FirstNonEmpty(order);
      if cur == MAX_ORDER { return None; }
      ghost var F := FreeSet(lo, hi, alloc);
      var page := freeList[cur][0];
      assert page in freeList[..][cur];
      assert FirstList(freeList[..], order, cur);
      TakeBlock(page, cur, F);
      SplitTo(page, cur, order, F);
      HeadBitsAlloc(lo, hi, alloc, Without(F, page, order), bit[..], property[..], page, order);
      TakePages(lo, hi, alloc, page, order);
      alloc := alloc[page := order];
      bit[page] := false;
      r := Some(page);
    }

    /** One round of the merging loop: join the block in hand with its buddy if that is free and whole. */
    method TryMerge(head: nat, order: nat) returns (merged: bool, joined: nat)
      requires InHand(lo, hi, alloc, head, order) && order < TOP
      requires GoodRegion(lo, hi, bit.Length) && GoodAlloc(lo, hi, alloc)
      requires Lists(Without(FreeSet(lo, hi, alloc), head, order))
      modifies freeList, nrFree
      ensures merged ==> InHand(lo, hi, alloc, joined, order + 1)
      ensures merged ==> Lists(Without(FreeSet(lo, hi, alloc), joined, order + 1))
      ensures !merged ==> (Lists(Without(FreeSet(lo, hi, alloc), head, order))
        && !FreeBlock(Without(FreeSet(lo, hi, alloc), head, order), BuddyOf(head, order), order))
    {
      hide Start;
      hide Pow2;
      ghost var F := FreeSet(lo, hi, alloc);
      XorFindsBuddy(head, order);
      BuddyTestExact(lo, hi, alloc, bit[..], property[..], head, order);
      var buddy: nat := Xor(head + NBASE, Pow2(order)) - NBASE;
      InHandIsUsed(F, head, order);
      merged, joined := bit[buddy] && property[buddy] == order, head;
      if merged {
        BuddyFacts(head, order);
        JoinHalves(F, head, order);
        TakeBlock(buddy, order, Without(F, head, order));
        if buddy < head { joined := buddy; }
      } else if FreeBlock(Without(F, head, order), BuddyOf(head, order), order) {
        FreeBuddyIsMax(Without(F, head, order), TOP, head, order);
      }
    }

    /** Putting the merged block on its list. */
    method Finish(head: nat, order: nat)
      requires InHand(lo, hi, alloc, head, order)
      requires GoodRegion(lo, hi, bit.Length) && GoodAlloc(lo, hi, alloc)
      requires Lists(Without(FreeSet(lo, hi, alloc), head, order))
      requires order == TOP || !FreeBlock(Without(FreeSet(lo, hi, alloc), head, order), BuddyOf(head, order), order)
      modifies bit, property, freeList, nrFree
      ensures Lists(FreeSet(lo, hi, alloc))
    {
      hide Start;
      hide Pow2;
      ghost var F := FreeSet(lo, hi, alloc);
      ghost var G := Without(F, head, order);
      InHandIsUsed(F, head, order);
      CanonicalPut(freeList[..], G, TOP, head, order);
      assert head in F;
      HeadInF(lo, hi, alloc, head);
      HeadBitsPut(lo, hi, alloc, G, bit[..], property[..], head, order);
      PushBlock(head, order);
    }

    /** Releasing an allocated block: merge upwards, then list the result. */
    method FreePages(base: nat, n: nat)
      requires Valid() && n > 0 && base in alloc && OrderFrom(n, 0) == alloc[base]
      modifies this`alloc, bit, property, freeList, nrFree
      ensures Valid()
      ensures alloc == Remove(old(alloc), base)
    {
      hide GoodRegion;
      hide GoodAlloc;
      hide Canonical;
      hide HeadBits;
      hide MaxBlock;
      hide Start;
      var order := OrderFor(n);
      ReleasePages(lo, hi, alloc, base);
      HeadBitsRelease(lo, hi, alloc, FreeSet(lo, hi, alloc), bit[..], property[..], base);
      alloc := Remove(alloc, base);
      var head := base;
      while order < MAX_ORDER - 1
        modifies freeList, nrFree
        invariant InHand(lo, hi, alloc, head, order)
        invariant Lists(Without(FreeSet(lo, hi, alloc), head, order))
      {
        var merged, joined := TryMerge(head, order);
        if !merged { break; }
        head := joined;
        order := order + 1;
      }
      Finish(head, order);
    }

    /** The reported count is the number of pages of the region that are not allocated: with the allocated ones it makes
        up the region. */
    method NrFreePages(ghost free: set<nat>) returns (total: nat)
      requires Valid() && forall p: nat :: p in free <==> p in FreeSet(lo, hi, alloc)
      ensures total == |free| && total + AllocatedPages(alloc) == hi - lo
    {
      total := 0;
      PagesConserved(freeList[..], lo, hi, alloc);
      CountsFreePages(freeList[..], FreeSet(lo, hi, alloc), TOP, free);
      for i := 0 to MAX_ORDER
        invariant total + PagesFrom(freeList[..], i) == PagesFrom(freeList[..], 0)
      {
        total := total + nrFree[i] * Pow2(i);
      }
    }

    ghost function Now(held: seq<(nat, nat)>): Snapshot
      reads this, freeList
    {
      Snapshot(alloc, held, PagesFrom(freeList[..], 0))
    }

    /** One call of a client. */
    method Serve(c: Call, held: seq<(nat, nat)>) returns (held': seq<(nat, nat)>)
      requires Valid() && HoldsBlocks(held, alloc)
      modifies this`alloc, bit, property, freeList, nrFree
      ensures Valid() && HoldsBlocks(held', alloc)
      ensures Step(lo, hi, c, old(Now(held)), Now(held'))
    {
      hide Valid;
      hide HoldsBlocks;
      hide OrderFrom;
      hide FreeBlock;
      hide FreeSet;
      hide Pow2;
      hide PagesFrom;
      hide Step;
      held' := held;
      match c {
        case Request(n) =>
          var r := AllocPages(n);
          if r.Some? {
            OneMoreBlock(held, old(alloc), r.value, n);
            held' := held + [(r.value, n)];
          }
          StepRequest(lo, hi, n, old(Now(held)), Now(held'), r);
        case Release(k) =>
          if k < |held| {
            OneBlockLess(held, alloc, k);
            HeldBlock(held, alloc, k);
            FreePages(held[k].0, held[k].1);
            held' := held[..k] + held[k + 1..];
          }
          StepRelease(lo, hi, k, old(Now(held)), Now(held'));
      }
    }

    /** Any run of requests and releases keeps the invariant at every step and loses no page, and one that ends with
        nothing allocated restores the lists it started from. */
    method Run(calls: seq<Call>) returns (held: seq<(nat, nat)>, ghost snapshots: seq<Snapshot>)
      requires Valid() && alloc == map[]
      modifies this`alloc, bit, property, freeList, nrFree
      ensures Valid() && HoldsBlocks(held, alloc)
      ensures |snapshots| == |calls| + 1 && snapshots[0] == Snapshot(map[], [], hi - lo)
      ensures snapshots[|calls|] == Snapshot(alloc, held, PagesFrom(freeList[..], 0))
      ensures forall i :: 0 <= i <= |calls| ==> Conserves(lo, hi, snapshots[i])
      ensures forall i :: 0 <= i < |calls| ==> Step(lo, hi, calls[i], snapshots[i], snapshots[i + 1])
      ensures held == [] ==> forall o :: 0 <= o <= TOP ==> multiset(freeList[..][o]) == multiset(old(freeList[..])[o])
    {
      hide GoodRegion;
      hide GoodAlloc;
      hide Canonical;
      hide Counted;
      hide HeadBits;
      hide FreeSet;
      hide Step;
      hide HoldsBlock;
      hide PagesFrom;
      RegionOrder(lo, hi, bit.Length);
      PagesConserved(freeList[..], lo, hi, alloc);
      held, snapshots := [], [Now([])];
      for i := 0 to |calls|
        invariant Valid() && HoldsBlocks(held, alloc)
        invariant |snapshots| == i + 1 && snapshots[0] == Snapshot(map[], [], hi - lo) && snapshots[i] == Now(held)
        invariant forall j :: 0 <= j <= i ==> Conserves(lo, hi, snapshots[j])
        invariant forall j :: 0 <= j < i ==> Step(lo, hi, calls[j], snapshots[j], snapshots[j + 1])
      {
        held := Serve(calls[i], held);
        PagesConserved(freeList[..], lo, hi, alloc);
        snapshots := snapshots + [Now(held)];
      }
      if held == [] { SameLists(freeList[..], old(freeList[..]), lo, hi, alloc); }
    }
  }

  lemma SameLists(l1: seq<seq<nat>>, l2: seq<seq<nat>>, lo: nat, hi: nat, alloc: map<nat, nat>)
    requires Canonical(l1, FreeSet(lo, hi, alloc), TOP) && Canonical(l2, FreeSet(lo, hi, map[]), TOP) && alloc == map[]
    ensures |l1| == |l2| == MAX_ORDER
    ensures forall o :: 0 <= o <= TOP ==> multiset(l1[o]) == multiset(l2[o])
  {
    hide FreeSet;
    forall o | 0 <= o <= TOP
      ensures multiset(l1[o]) == multiset(l2[o])
    {
      SamePagesSameLists(l1, l2, lo, hi, alloc, map[], o);
    }
  }

  lemma HeldBlock(held: seq<(nat, nat)>, alloc: map<nat, nat>, k: nat)
    requires HoldsBlocks(held, alloc) && k < |held|
    ensures held[k].1 > 0 && held[k].0 in alloc && OrderFrom(held[k].1, 0) == alloc[held[k].0]
  {
    hide OrderFrom;
    assert HoldsBlock(held[k], alloc);
  }

  lemma StepRequest(lo: nat, hi: nat, n: nat, a: Snapshot, b: Snapshot, r: Option<nat>)
    requires r.None? <==>
      (n == 0 || n > 512 || forall i: nat :: !FreeBlock(FreeSet(lo, hi, a.alloc), i, OrderFrom(n, 0)))
    requires r.None? ==> b == a
    requires r.Some? ==> FreeBlock(FreeSet(lo, hi, a.alloc), r.value, OrderFrom(n, 0))
    requires r.Some? ==> b.alloc == a.alloc[r.value := OrderFrom(n, 0)] && b.held == a.held + [(r.value, n)]
    ensures Step(lo, hi, Request(n), a, b)
  {
    hide FreeBlock;
    hide FreeSet;
    hide OrderFrom;
    hide Pow2;
    if r.Some? {
      assert CanGrant(lo, hi, a.alloc, n);
    } else {
      assert n == 0 || n > 512 || forall i: nat :: !FreeBlock(FreeSet(lo, hi, a.alloc), i, OrderFrom(n, 0));
      assert !(0 < n <= 512 && exists i: nat :: FreeBlock(FreeSet(lo, hi, a.alloc), i, OrderFrom(n, 0)));
      assert !CanGrant(lo, hi, a.alloc, n);
    }
  }

  lemma StepRelease(lo: nat, hi: nat, k: nat, a: Snapshot, b: Snapshot)
    requires k < |a.held| ==> b.alloc == Remove(a.alloc, a.held[k].0) && b.held == a.held[..k] + a.held[k + 1..]
    requires k >= |a.held| ==> b == a
    ensures Step(lo, hi, Release(k), a, b)
  {}
}
