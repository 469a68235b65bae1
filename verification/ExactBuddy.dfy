/** The buddy allocator that hands out exactly n pages: greedy aligned tiling of any range, recursive
    splitting, and release of arbitrary allocated ranges with merging. */
module ExactBuddy {
  import opened Bits
  import opened Lists
  import opened PageFrames
  import opened FreeBlocks
  import opened Options
  import opened Ranges
  import opened Sets
  import opened BuddyMarks
  import opened BuddyTiles

  /** The right half of a block, page by page. */
  lemma RightHalf(G: iset<nat>, head: nat, o: nat)
    requires 0 < o && Start(head + Pow2(o - 1), o - 1) == head + Pow2(o - 1)
    ensures With(G, head + Pow2(o - 1), o - 1) == Plus(G, head + Pow2(o - 1), head + Pow2(o))
  {
    hide Start;
    var right := head + Pow2(o - 1);
    BlockIsInterval(right, o - 1);
    hide Pow2;
    Doubling(o - 1);
    var block := Interval(right, Pow2(o - 1));
    assert forall x: nat :: x in block <==> Within(x, right, head + Pow2(o));
  }

  /** Splitting a block in use: both halves are in use, and returning the right one frees exactly its pages. */
  lemma SplitRight(G: iset<nat>, head: nat, o: nat)
    requires 0 < o <= TOP && UsedBlock(G, head, o)
    ensures Start(head, o - 1) == head && Start(head + Pow2(o - 1), o - 1) == head + Pow2(o - 1)
    ensures UsedBlock(G, head, o - 1) && UsedBlock(G, head + Pow2(o - 1), o - 1)
    ensures !FreeBlock(G, BuddyOf(head + Pow2(o - 1), o - 1), o - 1)
    ensures UsedBlock(With(G, head + Pow2(o - 1), o - 1), head, o - 1)
    ensures With(G, head + Pow2(o - 1), o - 1) == Plus(G, head + Pow2(o - 1), head + Pow2(o))
  {
    hide Start;
    hide Plus;
    var right := head + Pow2(o - 1);
    Halves(head, o - 1);
    BuddyFacts(right, o - 1);
    BuddyFacts(head, o - 1);
    hide Pow2;
    RightHalf(G, head, o);
    forall x: nat
      ensures Start(x, o) == Start(Start(x, o - 1), o)
    {
      StartNest(x, o - 1, o);
    }
    assert head !in G;
  }

  lemma PlusPlus(G: iset<nat>, a: nat, b: nat, c: nat)
    requires a <= b <= c
    ensures Plus(Plus(G, b, c), a, b) == Plus(G, a, c)
    ensures Plus(G, c, c) == G
  {
    assert forall x: nat :: Within(x, a, c) <==> Within(x, a, b) || Within(x, b, c);
  }

  /** How marks move while blocks are pushed: no bit is cleared, and only new heads are marked. */
  ghost predicate MarksPushed(G: iset<nat>, bit0: seq<bool>, property0: seq<nat>, bit: seq<bool>, property: seq<nat>,
                              F: iset<nat>) {
    && G <= F && |bit0| == |bit| && |property0| == |property|
    && (forall x: nat :: x < |bit| && bit0[x] ==> bit[x])
    && (forall x: nat :: x < |bit| && bit[x] && !bit0[x] ==> IsHead(F, x))
    && (forall x: nat :: x < |property| && property[x] != property0[x] ==> IsHead(F, x))
    && (forall x: nat :: IsHead(G, x) ==> IsHead(F, x))
  }

  lemma AccuratePush(G: iset<nat>, bit0: seq<bool>, property0: seq<nat>, bit: seq<bool>, property: seq<nat>,
      F: iset<nat>)
    requires Accurate(G, bit0) && MarksPushed(G, bit0, property0, bit, property, F)
    ensures Accurate(F, bit)
  {
    hide IsHead;
  }

  lemma PushMarks(G: iset<nat>, bit: seq<bool>, property: seq<nat>, b: nat, o: nat)
    requires o <= TOP && UsedBlock(G, b, o) && b < |bit| == |property| && (o == TOP || !FreeBlock(G, BuddyOf(b, o), o))
    ensures MarksPushed(G, bit, property, bit[b := true], property[b := Pow2(o)], With(G, b, o))
  {
    hide Start;
    hide MaxBlock;
    var F := With(G, b, o);
    PutMax(G, TOP, b, o);
    assert MaxBlock(F, TOP, b, o);
    forall x: nat | IsHead(G, x)
      ensures IsHead(F, x)
    {
      var k: nat :| MaxBlock(G, TOP, x, k);
      assert MaxBlock(F, TOP, x, k);
    }
  }

  lemma PushedTwice(G: iset<nat>, bit0: seq<bool>, property0: seq<nat>, bit1: seq<bool>, property1: seq<nat>,
                    H: iset<nat>, bit: seq<bool>, property: seq<nat>, F: iset<nat>)
    requires MarksPushed(G, bit0, property0, bit1, property1, H) && MarksPushed(H, bit1, property1, bit, property, F)
    ensures MarksPushed(G, bit0, property0, bit, property, F)
  {
    hide IsHead;
  }

  lemma NothingPushed(G: iset<nat>, bit: seq<bool>, property: seq<nat>)
    ensures MarksPushed(G, bit, property, bit, property, G)
  {}

  lemma HalfSize(o: nat, n: nat)
    requires 0 < n <= Pow2(o) && n != Pow2(o)
    ensures o > 0 && Pow2(o) == 2 * Pow2(o - 1)
  {}

  lemma UnlistedProperty(G: iset<nat>, bit: seq<bool>, property: seq<nat>, p: nat, s: nat)
    requires HeadsMarked(G, bit, property) && p !in G && p < |bit|
    ensures HeadsMarked(G, bit, property[p := s])
  {
    hide Start;
    hide MaxBlock;
    forall i: nat, k: nat | MaxBlock(G, TOP, i, k)
      ensures i != p
    {
      MaxFacts(G, i, k);
      InOwnBlock(G, i, k);
    }
  }

  /** A free block has no more pages than are free. */
  lemma BlockFits(free: set<nat>, i: nat, k: nat)
    requires FreeBlock(Pages(free), i, k)
    ensures Pow2(k) <= |free| && forall p: nat :: Within(p, i, i + Pow2(k)) ==> p in free
  {
    hide Start;
    var block := Interval(i, Pow2(k));
    BlockIsInterval(i, k);
    assert block <= free;
    SubsetSize(block, free);
  }

  /** The free pages after n pages are cut off the front of a maximal block. */
  lemma CutFacts(free: set<nat>, h: nat, k: nat, n: nat)
    requires MaxBlock(Pages(free), TOP, h, k) && 0 < n <= Pow2(k)
    ensures Interval(h, n) <= free && |free - Interval(h, n)| == |free| - n
    ensures Plus(Without(Pages(free), h, k), h + n, h + Pow2(k)) == Pages(free - Interval(h, n))
    ensures UsedBlock(Without(Pages(free), h, k), h, k)
  {
    hide Start;
    hide MaxBlock;
    hide FreeBlock;
    hide UsedBlock;
    hide Pow2;
    hide Interval;
    MaxFacts(Pages(free), h, k);
    InHandIsUsed(Pages(free), h, k);
    BlockFits(free, h, k);
    BlockIsInterval(h, k);
    var block, cut := Interval(h, Pow2(k)), Interval(h, n);
    assert forall p: nat :: p in block <==> Within(p, h, h + Pow2(k));
    assert forall p: nat :: p in cut ==> Within(p, h, h + Pow2(k));
    SubsetSize(cut, free);
    forall p: nat
      ensures p in Plus(Without(Pages(free), h, k), h + n, h + Pow2(k)) <==> p in Pages(free - cut)
    {
      assert Within(p, h + n, h + Pow2(k)) <==> p in block && p !in cut;
    }
  }

  /** After a block is popped and its tail pushed, bits are accurate if they were, those on the pages handed out are as
      before but for the first, and unfree pages carry none exactly when those do not. */
  lemma AllocBits(free: set<nat>, bit0: seq<bool>, property0: seq<nat>, bit: seq<bool>, property: seq<nat>,
                  h: nat, k: nat, n: nat)
    requires MaxBlock(Pages(free), TOP, h, k) && 0 < n <= Pow2(k) && h + n <= |bit0| == |property0|
    requires MarksPushed(Without(Pages(free), h, k), bit0[h := false], property0[h := 0], bit, property,
                         Pages(free - Interval(h, n)))
    ensures Accurate(Pages(free), bit0) ==> Accurate(Pages(free - Interval(h, n)), bit)
    ensures !bit[h] && forall x :: h < x < h + n ==> bit[x] == bit0[x]
    ensures Clean(Pages(free), bit0) ==> (Clean(Pages(free - Interval(h, n)), bit) <==> Unmarked(bit, h, h + n))
    ensures SameUnfree(Pages(free), bit0, property0, bit, property)
  {
    hide Start;
    hide MaxBlock;
    hide IsHead;
    var F, G, F' := Pages(free), Without(Pages(free), h, k), Pages(free - Interval(h, n));
    CutFacts(free, h, k, n);
    MaxFacts(F, h, k);
    InOwnBlock(F, h, k);
    if Accurate(F, bit0) {
      forall x: nat | x < |bit| && bit[x]
        ensures IsHead(F', x)
      {
        if bit0[x] && x != h {
          HeadKept(F, h, k, x);
        }
      }
    }
    assert forall x :: x in Interval(h, n) <==> Within(x, h, h + n);
    forall x: nat | x < |bit| && x !in F'
      ensures bit[x] <==> x != h && bit0[x]
      ensures x != h ==> property[x] == property0[x]
    {
      HeadIsFree(F', x);
    }
  }

  /** The range granted is tidy: each bit in it heads the upper half of a block that begins in the range. */
  ghost predicate Upper(property: seq<nat>, x: nat, lo: nat) {
    exists t: nat :: UpperHalf(property, x, t) && lo <= Start(x, t + 1)
  }

  lemma AllocUpper(free: set<nat>, bit0: seq<bool>, property0: seq<nat>, property: seq<nat>, h: nat, k: nat,
      n: nat, x: nat)
    requires MaxBlock(Pages(free), TOP, h, k) && 0 < n <= Pow2(k) && h < x < h + n && x < |bit0| == |property0|
    requires Tidy(Pages(free), bit0, property0) && bit0[x] && x < |property| && property[x] == property0[x]
    ensures Upper(property, x, h)
  {
    hide Start;
    hide Pow2;
    hide MaxBlock;
    var F := Pages(free);
    MaxFacts(F, h, k);
    BlockIsInterval(h, k);
    assert x in Interval(h, Pow2(k));
    assert x in F;
    if IsHead(F, x) {
      var j: nat :| MaxBlock(F, TOP, x, j);
      MaxFacts(F, x, j);
      MaxDisjoint(F, TOP, h, k, x, j, x);
      assert false;
    }
    var t: nat :| UpperHalf(property0, x, t) && FreeBlock(F, Start(x, t + 1), t + 1);
    MaxAbsorbs(F, TOP, h, k, Start(x, t + 1), t + 1, x);
    StartBounds(Start(x, t + 1), k);
    assert UpperHalf(property, x, t);
  }

  ghost predicate RangeTidy(bit: seq<bool>, property: seq<nat>, lo: nat, n: nat) {
    forall x: nat :: x < |bit| && bit[x] && Within(x, lo, lo + n) ==> Upper(property, x, lo)
  }

  lemma GrantTidy(free: set<nat>, bit0: seq<bool>, property0: seq<nat>, bit: seq<bool>, property: seq<nat>,
                  h: nat, k: nat, n: nat)
    requires MaxBlock(Pages(free), TOP, h, k) && 0 < n <= Pow2(k) && h + n <= |bit0| == |property0|
    requires MarksPushed(Without(Pages(free), h, k), bit0[h := false], property0[h := 0], bit, property,
                         Pages(free - Interval(h, n)))
    requires Tidy(Pages(free), bit0, property0)
    ensures RangeTidy(bit, property, h, n)
  {
    hide Start;
    hide Pow2;
    hide MaxBlock;
    hide IsHead;
    hide Upper;
    hide Tidy;
    var F' := Pages(free - Interval(h, n));
    forall x: nat | x < |bit| && bit[x] && Within(x, h, h + n)
      ensures Upper(property, x, h)
    {
      assert x in Interval(h, n);
      HeadIsFree(F', x);
      AllocUpper(free, bit0, property0, property, h, k, n, x);
    }
  }

  lemma AllocTidy(free: set<nat>, bit0: seq<bool>, property0: seq<nat>, bit: seq<bool>, property: seq<nat>,
                  h: nat, k: nat, n: nat)
    requires MaxBlock(Pages(free), TOP, h, k) && 0 < n <= Pow2(k) && h + n <= |bit0| == |property0|
    requires MarksPushed(Without(Pages(free), h, k), bit0[h := false], property0[h := 0], bit, property,
                         Pages(free - Interval(h, n)))
    requires Tidy(Pages(free), bit0, property0)
    ensures Tidy(Pages(free - Interval(h, n)), bit, property)
  {
    hide Start;
    hide Pow2;
    hide MaxBlock;
    hide FreeBlock;
    hide UpperHalf;
    var F, F' := Pages(free), Pages(free - Interval(h, n));
    forall x: nat | x < |bit| && bit[x] && x in F' && !IsHead(F', x)
      ensures LeftBehind(F', property, x)
    {
      assert x != h;
      if IsHead(F, x) {
        HeadKept(F, h, k, x);
        assert false;
      }
      var t: nat :| UpperHalf(property0, x, t) && FreeBlock(F, Start(x, t + 1), t + 1);
      SameUpper(property0, property, x, t);
      KeptWhole(free, h, k, n, x, t, property0);
    }
  }

  lemma SameUpper(property0: seq<nat>, property: seq<nat>, x: nat, t: nat)
    requires UpperHalf(property0, x, t) && x < |property| && property[x] == property0[x]
    ensures UpperHalf(property, x, t)
  {}

  /** The joined block of a page left behind is not cut: if it were, the page would head a listed block. */
  lemma KeptWhole(free: set<nat>, h: nat, k: nat, n: nat, x: nat, t: nat, property: seq<nat>)
    requires MaxBlock(Pages(free), TOP, h, k) && 0 < n <= Pow2(k) && UpperHalf(property, x, t)
    requires FreeBlock(Pages(free), Start(x, t + 1), t + 1)
    requires x in Pages(free - Interval(h, n)) && !IsHead(Pages(free - Interval(h, n)), x)
    ensures FreeBlock(Pages(free - Interval(h, n)), Start(x, t + 1), t + 1)
  {
    hide Start;
    hide Pow2;
    hide MaxBlock;
    var F' := Pages(free - Interval(h, n));
    ParentAligned(x, t + 1);
    PageIsBlock(F', x);
    var j := MaxExists(F', TOP, x, 0);
    MaxFacts(F', Start(x, j), j);
    if j <= t {
      AlignedDown(x, j, t);
      assert false;
    } else {
      StartNest(x, t + 1, j);
      SubBlockFree(F', Start(x, j), j, Start(x, t + 1), t + 1);
    }
  }

  lemma HeadIsFree(F: iset<nat>, x: nat)
    ensures IsHead(F, x) ==> x in F
  {
    if IsHead(F, x) {
      var k: nat :| MaxBlock(F, TOP, x, k);
      InOwnBlock(F, x, k);
    }
  }

  /** find_upper_number: the least order whose blocks hold n pages. */
  method FindUpperNumber(n: nat) returns (k: nat)
    ensures n <= Pow2(k) && forall j: nat :: j < k ==> Pow2(j) < n
  {
    k := 0;
    var v: nat := 1;
    while v < n
      invariant v == Pow2(k) && forall j: nat :: j < k ==> Pow2(j) < n
      decreases n - v
    {
      v := 2 * v;
      k := k + 1;
    }
  }

  /** The block at h is maximal, holds n pages, and no maximal block of lower order does. */
  ghost predicate TakenFrom(F: iset<nat>, h: nat, n: nat) {
    exists k: nat :: MaxBlock(F, TOP, h, k) && n <= Pow2(k) && NoneBelow(F, n, k)
  }

  ghost predicate NoneBelow(F: iset<nat>, n: nat, k: nat) {
    forall i: nat, j: nat :: j < k && n <= Pow2(j) ==> !MaxBlock(F, TOP, i, j)
  }

  ghost predicate NoBlockFor(F: iset<nat>, n: nat) {
    forall i: nat, k: nat :: k <= 16 && n <= Pow2(k) ==> !FreeBlock(F, i, k)
  }

  /** h heads the first list that is not empty, among those of the orders up to 16 whose blocks hold n pages. */
  ghost predicate HeadsFirst(lists: seq<seq<nat>>, h: nat, n: nat) {
    exists k: nat :: HeadOf(lists, h, k) && n <= Pow2(k) && EmptyBelow(lists, n, k)
  }

  ghost predicate HeadOf(lists: seq<seq<nat>>, h: nat, k: nat) {
    k <= 16 && k < |lists| && lists[k] != [] && lists[k][0] == h
  }

  ghost predicate EmptyBelow(lists: seq<seq<nat>>, n: nat, k: nat)
    requires k < |lists|
  {
    forall j: nat :: j < k && n <= Pow2(j) ==> lists[j] == []
  }

  lemma NoRoom(free: set<nat>, n: nat)
    requires n > |free|
    ensures NoBlockFor(Pages(free), n)
  {
    forall i: nat, k: nat | k <= TOP && n <= Pow2(k)
      ensures !FreeBlock(Pages(free), i, k)
    {
      if FreeBlock(Pages(free), i, k) { BlockFits(free, i, k); }
    }
  }

  /** What the search over the lists finds. */
  lemma SearchResult(lists: seq<seq<nat>>, F: iset<nat>, need: nat, curr: nat, n: nat)
    requires Canonical(lists, F, TOP) && need <= curr
    requires n <= Pow2(need) && forall j: nat :: j < need ==> Pow2(j) < n
    requires forall k :: need <= k < curr && k <= TOP ==> lists[k] == []
    requires curr <= TOP ==> lists[curr] != []
    ensures curr > TOP ==> NoBlockFor(F, n)
    ensures curr <= TOP ==> !NoBlockFor(F, n) && TakenFrom(F, lists[curr][0], n)
    ensures curr <= TOP ==> HeadsFirst(lists, lists[curr][0], n)
  {
    hide Start;
    hide FreeBlock;
    hide Pow2;
    forall i: nat, j: nat | j < curr && n <= Pow2(j)
      ensures !MaxBlock(F, TOP, i, j)
    {
      if j <= TOP { assert i !in lists[j]; }
    }
    if curr > TOP {
      forall i: nat, k: nat | k <= TOP && n <= Pow2(k)
        ensures !FreeBlock(F, i, k)
      {
        if FreeBlock(F, i, k) {
          var m := MaxExists(F, TOP, i, k);
          Pow2Mono(k, m);
        }
      }
    } else {
      var h := lists[curr][0];
      assert h in lists[curr];
      MaxFacts(F, h, curr);
      Pow2Mono(need, curr);
    }
  }

  lemma BlockInRange(F: iset<nat>, bit: seq<bool>, property: seq<nat>, h: nat, k: nat)
    requires HeadsMarked(F, bit, property) && MaxBlock(F, TOP, h, k)
    ensures h + Pow2(k) <= |bit|
  {
    hide Start;
    MaxFacts(F, h, k);
    BlockIsInterval(h, k);
    assert h + Pow2(k) - 1 in Interval(h, Pow2(k));
  }

  /** What one call does. A request is met, off the front of a sufficient maximal block, if there is one. */
  ghost predicate Step(c: Call, a: Moment, b: Moment) {
    match c
    case Request(n) =>
      if n == 0 || NoBlockFor(Pages(a.free), n) then b == a
      else exists r: nat :: TakenFrom(Pages(a.free), r, n) && b == Granted(a, n, r)
    case Release(k) => b == Released(a, k)
  }

  lemma StepRequest(n: nat, a: Moment, b: Moment, r: Option<nat>)
    requires n > 0 && (r.None? <==> NoBlockFor(Pages(a.free), n)) && (r.None? ==> b == a)
    requires r.Some? ==> TakenFrom(Pages(a.free), r.value, n) && b == Granted(a, n, r.value)
    ensures Step(Request(n), a, b)
  {}

  lemma StepOther(c: Call, a: Moment)
    ensures c == Request(0) ==> Step(c, a, a)
    ensures c.Release? ==> Step(c, a, Released(a, c.k))
  {}

  class Buddy {
    const bit: array<bool>
    const property: array<nat>
    const flist: array<seq<nat>>
    /** Whether the head that a merge makes an interior page gets its bit cleared. The source does not do that. */
    const repair: bool
    var nrFree: nat
    ghost var free: set<nat>

    ghost predicate Shape() {
      bit.Length == property.Length && flist.Length == TOP + 1
    }

    /** The lists hold exactly the maximal blocks of G, marked. */
    ghost predicate Listed(G: iset<nat>)
      reads bit, property, flist
    {
      Shape() && Canonical(flist[..], G, TOP) && HeadsMarked(G, bit[..], property[..])
    }

    ghost predicate Valid()
      reads this, bit, property, flist
    {
      Listed(Pages(free)) && nrFree == |free|
    }

    ghost predicate Empty()
      reads this, flist
    {
      Shape() && nrFree == 0 && free == {} && forall k :: 0 <= k <= TOP ==> flist[k] == []
    }

    constructor (pages: nat, repair: bool)
      ensures fresh(bit) && fresh(property) && fresh(flist) && this.repair == repair
      ensures Empty() && bit.Length == pages && forall p :: 0 <= p < pages ==> !bit[p]
    {
      this.repair := repair;
      bit := new bool[pages](_ => false);
      property := new nat[pages](_ => 0);
      flist := new seq<nat>[TOP + 1](_ => []);
      nrFree, free := 0, {};
      new;
      Init();
    }

    method Init()
      requires Shape()
      modifies this`nrFree, this`free, flist
      ensures Empty()
    {
      for o := 0 to TOP + 1
        modifies flist
        invariant forall k :: 0 <= k < o ==> flist[k] == []
      {
        flist[o] := [];
      }
      nrFree, free := 0, {};
    }

    method ClearFlags(base: nat, n: nat)
      requires Shape() && base + n <= bit.Length
      requires forall p :: 0 <= p < bit.Length && !(base <= p < base + n) ==> !bit[p]
      modifies bit, property
      ensures forall p :: 0 <= p < bit.Length ==> !bit[p]
    {
      for i := 0 to n
        invariant forall p :: 0 <= p < bit.Length && !(base + i <= p < base + n) ==> !bit[p]
      {
        bit[base + i] := false;
        property[base + i] := 0;
      }
    }

    /** push_block: size, mark, list_add. */
    method PushBlock(p: nat, order: nat)
      requires Shape() && p < bit.Length && order <= TOP
      modifies bit, property, flist
      ensures bit[..] == old(bit[..])[p := true]
      ensures property[..] == old(property[..])[p := Pow2(order)]
      ensures flist[..] == old(flist[..])[order := [p] + old(flist[order])]
    {
      property[p] := Pow2(order);
      bit[p] := true;
      flist[order] := [p] + flist[order];
    }

    method LayTile(base: nat, p: nat, k: nat)
      requires base <= p && k <= TOP && Start(p, k) == p && p + Pow2(k) <= bit.Length
      requires Listed(Plus(iset{}, base, p)) && Accurate(Plus(iset{}, base, p), bit[..])
      requires k == TOP || !FreeBlock(Plus(iset{}, base, p), BuddyOf(p, k), k)
      modifies bit, property, flist
      ensures Listed(Plus(iset{}, base, p + Pow2(k))) && Accurate(Plus(iset{}, base, p + Pow2(k)), bit[..])
    {
      hide Start;
      hide Pow2;
      hide Canonical;
      hide HeadsMarked;
      hide MaxBlock;
      hide UsedBlock;
      hide FreeBlock;
      hide MarksPushed;
      hide Accurate;
      ghost var G, bits, sizes := Plus(iset{}, base, p), bit[..], property[..];
      TileUsed(iset{}, base, p, k);
      PlusBlock(iset{}, base, p, k);
      CanonicalPut(flist[..], G, TOP, p, k);
      PushMarked(G, bit[..], property[..], p, k);
      PushMarks(G, bit[..], property[..], p, k);
      PushBlock(p, k);
      AccuratePush(G, bits, sizes, bit[..], property[..], With(G, p, k));
    }

    /** The region [base, base + n), of any alignment, becomes free: the greedy tiles are its maximal blocks. */
    method InitMemmap(base: nat, n: nat)
      requires Empty() && n > 0 && base + n <= bit.Length
      requires forall p :: 0 <= p < bit.Length && !(base <= p < base + n) ==> !bit[p]
      modifies this`nrFree, this`free, bit, property, flist
      ensures Valid() && free == Interval(base, n) && Accurate(Pages(free), bit[..])
      ensures forall i: nat, k: nat :: MaxBlock(Pages(free), TOP, i, k) <==> (i, k) in Tiles(base, n)
    {
      hide Tiles;
      hide Start;
      hide MaxBlock;
      ClearFlags(base, n);
      EmptyListed(flist[..], bit[..], property[..], base);
      LayTiles(base, n);
      free := Interval(base, n);
      IntervalPages(base, n);
      forall i: nat, k: nat | MaxBlock(Pages(free), TOP, i, k)
        ensures (i, k) in Tiles(base, n)
      {
        MaxIsTile(base, n, i, k);
      }
      forall i: nat, k: nat | (i, k) in Tiles(base, n)
        ensures MaxBlock(Pages(free), TOP, i, k)
      {
        assert MaxBlock(Pages(free), TOP, (i, k).0, (i, k).1);
      }
    }

    method LayTiles(base: nat, n: nat)
      requires base + n <= bit.Length && nrFree == 0
      requires Listed(Plus(iset{}, base, base)) && Accurate(Plus(iset{}, base, base), bit[..])
      modifies this`nrFree, bit, property, flist
      ensures Listed(Plus(iset{}, base, base + n)) && Accurate(Plus(iset{}, base, base + n), bit[..])
      ensures nrFree == n
      ensures forall t :: t in Tiles(base, n) ==> MaxBlock(Plus(iset{}, base, base + n), TOP, t.0, t.1)
    {
      hide *;
      NoStraddleFirst(base, base + n);
      var p: nat, left: nat := base, n;
      ghost var done: seq<(nat, nat)> := [];
      while left > 0
        invariant p + left == base + n && base <= p && nrFree == p - base
        invariant Listed(Plus(iset{}, base, p)) && Accurate(Plus(iset{}, base, p), bit[..])
        invariant NoStraddle(base, base + n, p)
        invariant done + Tiles(p, left) == Tiles(base, n)
        invariant forall t :: t in done ==> MaxBlock(Plus(iset{}, base, p), TOP, t.0, t.1)
      {
        var k := LargestAligned(p, left);
        NothingIn(base, p + left);
        TileFacts(iset{}, base, p, left, k);
        NextTile(base, base + n, p, k);
        NoStraddleNext(base, base + n, p, k);
        TileUsed(iset{}, base, p, k);
        PlusBlock(iset{}, base, p, k);
        TilesStayMax(done, Plus(iset{}, base, p), p, k);
        LayTile(base, p, k);
        done := done + [(p, k)];
        var blk := Pow2(k);
        p, left := p + blk, left - blk;
        nrFree := nrFree + blk;
      }
      NoMoreTiles(p);
      assert done == Tiles(base, n);
    }

    /** One round of the merging loop, whatever the marks say: a buddy that passes the test is taken off its list and
        joined. */
    method TryMerge(p: nat, o: nat) returns (merged: bool, q: nat, joined: nat)
      requires Shape() && o < TOP && Start(p, o) == p && p < bit.Length
      modifies bit, property, flist
      ensures q == BuddyOf(p, o) && (merged <==> Test(old(bit[..]), old(property[..]), q, o))
      ensures !merged ==> bit[..] == old(bit[..]) && property[..] == old(property[..]) && flist[..] == old(flist[..])
      ensures merged ==> joined == Start(p, o + 1) && joined < bit.Length && q < bit.Length
      ensures merged ==> bit[..] == Joined(old(bit[..]), p, q, joined, repair)
      ensures merged ==> property[..] == old(property[..])[joined := 2 * Pow2(o)]
      ensures merged ==> flist[..] == old(flist[..])[o := Delete(old(flist[..])[o], q)]
    {
      hide Start;
      XorFindsBuddy(p, o);
      BuddyFacts(p, o);
      q := Xor(p + NBASE, Pow2(o)) - NBASE;
      merged, joined := q < bit.Length && bit[q] && property[q] == Pow2(o), p;
      if merged {
        flist[o] := Delete(flist[o], q);
        bit[q] := false;
        if repair { bit[p] := false; }
        if q < p { joined := q; }
        property[joined] := 2 * Pow2(o);
        bit[joined] := true;
      }
    }

    /** free_one_block_and_merge: give back one aligned block, joining it with what passes for free buddies. From exact
        lists - `good` - they are exact again if the growing block meets no stale buddy; if it does, a listed block
        spans a page that is not free. Pages that a listed block spans stay spanned in any case. */
    method FreeOneBlockAndMerge(p0: nat, o0: nat, ghost G: iset<nat>, ghost good: bool) returns (ghost top: nat)
      requires Shape() && o0 <= TOP && Start(p0, o0) == p0 && p0 + Pow2(o0) <= bit.Length
      requires good ==> UsedBlock(G, p0, o0) && Listed(G)
      modifies bit, property, flist
      ensures forall x: nat :: old(Covers(flist[..], x)) ==> Covers(flist[..], x)
      ensures good && !Meets(G, old(bit[..]), old(property[..]), p0, o0) ==>
                Listed(With(G, p0, o0))
                && Merged(G, p0, o0, top, old(bit[..]), old(property[..]), bit[..], property[..], repair)
      ensures good && Meets(G, old(bit[..]), old(property[..]), p0, o0) ==>
                Trespass(flist[..], With(G, p0, o0), old(bit[..]))
    {
      hide Start;
      hide Pow2;
      hide Canonical;
      hide HeadsMarked;
      hide Hand;
      hide Merged;
      hide Meets;
      hide Covers;
      hide UsedBlock;
      ghost var F, bit0, property0, lists0 := With(G, p0, o0), bit[..], property[..], flist[..];
      ghost var stale, y: nat := false, 0;
      if good { HandStart(G, p0, o0, bit[..], property[..], flist[..], repair); }
      var p: nat, o: nat, s: nat := p0, o0, Pow2(o0);
      property[p] := s;
      bit[p] := true;
      while o < TOP
        invariant o0 <= o <= TOP && p < bit.Length && s == Pow2(o) && Start(p, o) == p
        invariant good && !stale ==> Hand(G, p0, o0, p, o, bit0, property0, bit[..], property[..], flist[..], repair)
        invariant good && stale ==> Meets(G, bit0, property0, p0, o0) && y !in F
        invariant good && stale ==> y < |bit0| && bit0[y] && Start(y, o) == p
        invariant forall x: nat :: Covers(lists0, x) ==> Covers(flist[..], x) || Start(x, o) == p
      {
        ghost var bits, sizes, lists := bit[..], property[..], flist[..];
        var merged, q, joined := TryMerge(p, o);
        if !merged { break; }
        MergeSpans(lists0, lists, p, o, y);
        if good && !stale {
          HandStep(G, p0, o0, p, o, bit0, property0, bits, sizes, lists, repair);
          if !MaxBlock(Without(F, p, o), TOP, q, o) {
            stale, y := true, q;
          }
        }
        Doubling(o);
        ParentAligned(p, o + 1);
        p, s, o := joined, 2 * s, o + 1;
      }
      if good && !stale { HandEnd(G, p0, o0, p, o, bit0, property0, bit[..], property[..], flist[..], repair); }
      PushSpans(lists0, flist[..], p, o, y);
      ghost var lists := flist[..];
      flist[o] := [p] + flist[o];
      assert flist[..] == lists[o := [p] + lists[o]];
      top := o;
    }

    /** split_block: the first n pages of the block in hand are kept, the rest goes back as aligned blocks. */
    method SplitBlock(head: nat, o: nat, n: nat, ghost G: iset<nat>) returns (r: nat)
      requires o <= TOP && 0 < n <= Pow2(o) && UsedBlock(G, head, o) && head + Pow2(o) <= bit.Length
      requires Listed(G)
      modifies bit, property, flist
      ensures r == head && Listed(Plus(G, head + n, head + Pow2(o)))
      ensures MarksPushed(G, old(bit[..]), old(property[..]), bit[..], property[..], Plus(G, head + n, head + Pow2(o)))
      decreases o
    {
      hide Start;
      hide Pow2;
      hide Canonical;
      hide HeadsMarked;
      hide MaxBlock;
      hide UsedBlock;
      hide FreeBlock;
      hide MarksPushed;
      r := head;
      if n == Pow2(o) {
        PlusPlus(G, head, head, head + n);
        NothingPushed(G, bit[..], property[..]);
        return;
      }
      HalfSize(o, n);
      var half := Pow2(o - 1);
      var right := head + half;
      SplitRight(G, head, o);
      if n <= half {
        CanonicalPut(flist[..], G, TOP, right, o - 1);
        PushMarked(G, bit[..], property[..], right, o - 1);
        PushMarks(G, bit[..], property[..], right, o - 1);
        ghost var bits, sizes := bit[..], property[..];
        PushBlock(right, o - 1);
        ghost var H := With(G, right, o - 1);
        ghost var bits1, sizes1 := bit[..], property[..];
        r := SplitBlock(head, o - 1, n, H);
        PlusPlus(G, head + n, right, head + Pow2(o));
        PushedTwice(G, bits, sizes, bits1, sizes1, H, bit[..], property[..], Plus(G, head + n, head + Pow2(o)));
      } else {
        var temp := SplitBlock(right, o - 1, n - half, G);
      }
    }

    /** pop_block: the first block of a list, its mark cleared. */
    method PopBlock(order: nat, ghost F: iset<nat>) returns (p: nat)
      requires Listed(F) && order <= TOP && flist[order] != []
      modifies bit, property, flist
      ensures p == old(flist[order])[0]
      ensures MaxBlock(F, TOP, p, order) && p < bit.Length && Listed(Without(F, p, order))
      ensures bit[..] == old(bit[..])[p := false] && property[..] == old(property[..])[p := 0]
    {
      hide Start;
      hide MaxBlock;
      p := flist[order][0];
      assert p in flist[..][order];
      CanonicalTake(flist[..], F, TOP, p, order);
      TakeMarked(F, bit[..], property[..], p, order);
      MaxFacts(F, p, order);
      UnlistedProperty(Without(F, p, order), bit[..][p := false], property[..], p, 0);
      ghost var lists := flist[..];
      flist[order] := Delete(flist[order], p);
      assert flist[..] == lists[order := Delete(lists[order], p)];
      bit[p] := false;
      property[p] := 0;
    }

    /** The search for a list with a block, upwards from the order needed. */
    method FirstNonEmpty(need: nat) returns (curr: nat)
      requires Shape()
      ensures need <= curr && (curr <= TOP ==> flist[curr] != [])
      ensures forall k :: need <= k < curr && k <= TOP ==> flist[k] == []
    {
      curr := need;
      while curr <= TOP && flist[curr] == []
        invariant need <= curr && forall k :: need <= k < curr && k <= TOP ==> flist[k] == []
      {
        curr := curr + 1;
      }
    }

    lemma ValidIf()
      requires Listed(Pages(free)) && nrFree == |free|
      ensures Valid()
    {}

    lemma ValidParts()
      requires Valid()
      ensures bit.Length == property.Length && flist.Length == TOP + 1 && Shape() && Listed(Pages(free))
      ensures Canonical(flist[..], Pages(free), TOP) && HeadsMarked(Pages(free), bit[..], property[..])
      ensures nrFree == |free|
    {
      hide Canonical;
      hide HeadsMarked;
    }

    /** Allocation takes exactly n pages off the front of a block of the least order that has one; NULL
        exactly when no aligned free block has n pages. */
    method AllocPages(n: nat) returns (r: Option<nat>)
      requires Valid() && n > 0
      modifies this`nrFree, this`free, bit, property, flist
      ensures Valid()
      ensures r.None? ==> free == old(free) && bit[..] == old(bit[..]) && property[..] == old(property[..])
      ensures r.None? ==> flist[..] == old(flist[..])
      ensures r.None? <==> NoBlockFor(Pages(old(free)), n)
      ensures r.Some? ==> Interval(r.value, n) <= old(free) && free == old(free) - Interval(r.value, n)
      ensures r.Some? ==> TakenFrom(Pages(old(free)), r.value, n) && HeadsFirst(old(flist[..]), r.value, n)
      ensures r.Some? && old(Accurate(Pages(free), bit[..])) ==> Accurate(Pages(free), bit[..])
      ensures r.Some? ==> r.value < bit.Length && !bit[r.value]
      ensures r.Some? ==> forall x :: r.value < x < r.value + n && x < bit.Length ==> bit[..][x] == old(bit[..])[x]
      ensures r.Some? && old(Clean(Pages(free), bit[..])) ==>
        (Clean(Pages(free), bit[..]) <==> Unmarked(bit[..], r.value, r.value + n))
      ensures r.Some? ==> SameUnfree(Pages(old(free)), old(bit[..]), old(property[..]), bit[..], property[..])
      ensures r.Some? && old(Tidy(Pages(free), bit[..], property[..])) ==>
        (Tidy(Pages(free), bit[..], property[..]) && RangeTidy(bit[..], property[..], r.value, n))
    {
      hide *;
      ValidParts();
      if n > nrFree {
        NoRoom(free, n);
        return None;
      }
      var need := FindUpperNumber(n);
      var curr := FirstNonEmpty(need);
      SearchResult(flist[..], Pages(free), need, curr, n);
      if curr > TOP { return None; }
      ghost var F, bits := Pages(free), bit[..];
      ghost var props := property[..];
      var h := PopBlock(curr, F);
      Pow2Mono(need, curr);
      CutFacts(free, h, curr, n);
      BlockInRange(F, bits, props, h, curr);
      ghost var bits1 := bit[..];
      var result := SplitBlock(h, curr, n, Without(F, h, curr));
      AllocBits(free, bits, props, bit[..], property[..], h, curr, n);
      if Tidy(F, bits, props) {
        AllocTidy(free, bits, props, bit[..], property[..], h, curr, n);
        GrantTidy(free, bits, props, bit[..], property[..], h, curr, n);
      }
      nrFree := nrFree - n;
      free := free - Interval(h, n);
      ValidIf();
      r := Some(result);
    }

    /** Where a release that gives back [base, end) stands when it has come to p. */
    ghost predicate Tiled(G: iset<nat>, base: nat, p: nat, end: nat, done: seq<(nat, nat)>, bit0: seq<bool>,
                          property0: seq<nat>, good: bool)
      reads bit, property, flist
    {
      if good then Listed(Plus(G, base, p)) && TilesOk(G, base, p, done, bit0, property0, bit[..], property[..], repair)
      else Spanned(flist[..], Plus(G, base, end))
    }

    /** One tile of a release. */
    method FreeTile(base: nat, n: nat, p: nat, remaining: nat, ghost G: iset<nat>, ghost done: seq<(nat, nat)>,
                    ghost bit0: seq<bool>, ghost property0: seq<nat>, ghost good: bool)
      returns (next: nat, left: nat, ghost more: seq<(nat, nat)>, ghost still: bool)
      requires Shape() && base <= p && p + remaining == base + n <= bit.Length && remaining > 0
      requires Unmarked(bit0, base, base + n) && NoneIn(G, base, base + n)
      requires Tiled(G, base, p, base + n, done, bit0, property0, good)
      requires Reached(base, n, done, p, remaining)
      modifies bit, property, flist
      ensures p < next && next + left == base + n && Reached(base, n, more, next, left)
      ensures Tiled(G, base, next, base + n, more, bit0, property0, still)
      ensures (still ==> good) && (good && !still ==> Clash(G, bit0, property0, base, n))
    {
      hide *;
      var order := LargestAligned(p, remaining);
      ghost var k := order;
      more := done + [(p, k)];
      TileFacts(G, base, p, remaining, k);
      next, left := p + Pow2(order), remaining - Pow2(order);
      ReachedNext(base, n, done, p, remaining, k);
      TileUsed(G, base, p, k);
      PlusBlock(G, base, p, k);
      RangeOf(bit0, base, base + n, p, p + Pow2(k));
      ghost var bits, sizes, lists := bit[..], property[..], flist[..];
      TiledFacts(G, base, p, base + n, done, bit0, property0, good);
      ghost var top := FreeOneBlockAndMerge(p, order, Plus(G, base, p), good);
      still := good;
      if !good {
        StillSpanned(lists, flist[..], Plus(G, base, base + n));
      } else if Meets(Plus(G, base, p), bits, sizes, p, k) {
        TileClash(G, base, p, k, base + n, done, bit0, property0, bits, sizes, flist[..], repair);
        ClashAt(G, bit0, property0, base, n, done, p, k, Tiles(p + Pow2(k), remaining - Pow2(k)));
        still := false;
      } else {
        TilesNext(G, base, p, k, done, bit0, property0, bits, sizes, bit[..], property[..], repair, top);
      }
      TiledIf(G, base, p + Pow2(k), base + n, done + [(p, k)], bit0, property0, still);
    }

    lemma TiledFacts(G: iset<nat>, base: nat, p: nat, end: nat, done: seq<(nat, nat)>, bit0: seq<bool>,
                     property0: seq<nat>, good: bool)
      requires Tiled(G, base, p, end, done, bit0, property0, good)
      ensures good ==> Listed(Plus(G, base, p))
      ensures good ==> TilesOk(G, base, p, done, bit0, property0, bit[..], property[..], repair)
      ensures !good ==> Spanned(flist[..], Plus(G, base, end))
    {
      hide Listed;
      hide TilesOk;
      hide Spanned;
    }

    lemma TiledIf(G: iset<nat>, base: nat, p: nat, end: nat, done: seq<(nat, nat)>, bit0: seq<bool>,
                  property0: seq<nat>, good: bool)
      requires good ==> Listed(Plus(G, base, p))
      requires good ==> TilesOk(G, base, p, done, bit0, property0, bit[..], property[..], repair)
      requires !good ==> Spanned(flist[..], Plus(G, base, end))
      ensures Tiled(G, base, p, end, done, bit0, property0, good)
    {
      hide Listed;
      hide TilesOk;
      hide Spanned;
    }

    /** The tile loop of a release: good to the end exactly when there is no clash. */
    method FreeTiles(base: nat, n: nat, ghost G: iset<nat>) returns (ghost good: bool)
      requires Shape() && Tiled(G, base, base, base + n, [], bit[..], property[..], true)
      requires Unmarked(bit[..], base, base + n)
      requires base + n <= bit.Length && NoneIn(G, base, base + n)
      modifies bit, property, flist
      ensures good <==> !Clash(G, old(bit[..]), old(property[..]), base, n)
      ensures Tiled(G, base, base + n, base + n, Tiles(base, n), old(bit[..]), old(property[..]), good)
    {
      hide *;
      ghost var bit0, property0 := bit[..], property[..];
      ReachedStart(base, n);
      var p: nat, remaining: nat := base, n;
      ghost var done: seq<(nat, nat)> := [];
      good := true;
      while remaining > 0
        invariant Shape() && p + remaining == base + n && base <= p && Reached(base, n, done, p, remaining)
        invariant Tiled(G, base, p, base + n, done, bit0, property0, good)
        invariant !good ==> Clash(G, bit0, property0, base, n)
      {
        p, remaining, done, good := FreeTile(base, n, p, remaining, G, done, bit0, property0, good);
      }
      ReachedEnd(base, n, done, p);
      AllTiled(G, base, n, done, bit0, property0, good);
    }

    lemma AllTiled(G: iset<nat>, base: nat, n: nat, done: seq<(nat, nat)>, bit0: seq<bool>, property0: seq<nat>,
                   good: bool)
      requires Tiled(G, base, base + n, base + n, done, bit0, property0, good) && done == Tiles(base, n)
      ensures good ==> !Clash(G, bit0, property0, base, n)
    {
      hide *;
      TiledFacts(G, base, base + n, base + n, done, bit0, property0, good);
      if good { NoClash(G, base, base + n, done, bit0, property0, bit[..], property[..], repair, n); }
    }

    /** The assertion over the released pages. */
    method CheckRange(base: nat, n: nat) returns (ok: bool)
      requires base + n <= bit.Length
      ensures ok <==> Unmarked(bit[..], base, base + n)
    {
      ok := true;
      var p := base;
      while p < base + n && ok
        invariant base <= p <= base + n
        invariant ok ==> Unmarked(bit[..], base, p)
        invariant !ok ==> !Unmarked(bit[..], base, base + n)
      {
        assert bit[..][p] == bit[p];
        if bit[p] {
          assert Within(p, base, base + n);
          ok := false;
        }
        p := p + 1;
      }
    }

    /** Release of any range that is not free: tile it greedily and give back each tile, merging as it goes. The
        source first asserts that no page of the range carries a bit, and ends the program otherwise. When it goes on,
        the lists are exact again if and only if no growing tile meets a stale buddy. */
    method FreePages(base: nat, n: nat) returns (ok: bool)
      requires Valid() && n > 0 && base + n <= bit.Length && forall p: nat :: Within(p, base, base + n) ==> p !in free
      modifies this`nrFree, this`free, bit, property, flist
      ensures ok <==> Unmarked(old(bit[..]), base, base + n)
      ensures !ok ==> Valid() && free == old(free) && bit[..] == old(bit[..]) && property[..] == old(property[..])
      ensures ok ==> free == old(free) + Interval(base, n) && nrFree == old(nrFree) + n
      ensures ok ==> (Valid() <==> !Clash(Pages(old(free)), old(bit[..]), old(property[..]), base, n))
      ensures old(Clean(Pages(free), bit[..])) ==> ok && Valid() && Clean(Pages(free), bit[..])
      ensures ok && Valid() && old(Tidy(Pages(free), bit[..], property[..])) ==>
        Tidy(Pages(free), bit[..], property[..])
      ensures ok && Valid() ==> SameUnfree(Pages(free), old(bit[..]), old(property[..]), bit[..], property[..])
      ensures ok && Valid() && !repair ==> forall t :: t in Tiles(base, n) ==> t.0 < bit.Length && bit[t.0]
      ensures ok && Valid() && old(Accurate(Pages(free), bit[..])) ==>
        (Accurate(Pages(free), bit[..]) <==> repair || AllHeads(Tiles(base, n), Pages(free)))
    {
      hide Start;
      hide Pow2;
      hide Canonical;
      hide HeadsMarked;
      hide Tiles;
      hide TilesOk;
      hide Clash;
      hide Spanned;
      hide Clean;
      hide Accurate;
      hide Tidy;
      hide AllHeads;
      hide SameUnfree;
      hide Tiled;
      ghost var F, bits, sizes := free, bit[..], property[..];
      if Clean(Pages(F), bits) {
        RangeUnfree(F, base, n);
        CleanUnmarked(F, bits, base, n);
        CleanNoClash(Pages(F), bits, sizes, base, n);
      }
      ok := CheckRange(base, n);
      if !ok { return; }
      ReleaseFacts(free, base, n);
      TilesStart(Pages(free), base, bits, sizes, repair);
      TiledIf(Pages(free), base, base, base + n, [], bits, sizes, true);
      ghost var good := FreeTiles(base, n, Pages(free));
      TiledFacts(Pages(free), base, base + n, base + n, Tiles(base, n), bits, sizes, good);
      nrFree := nrFree + n;
      free := free + Interval(base, n);
      if Spanned(flist[..], Pages(free)) { SpannedNotExact(flist[..], Pages(free)); }
      if good {
        ReleaseEffects(Pages(F), base, n, bits, sizes, bit[..], property[..], repair);
      }
    }

    /** A request of a run. */
    method ServeRequest(n: nat, held: seq<(nat, nat)>, ghost size: nat) returns (now: seq<(nat, nat)>)
      requires Valid() && Tracked(held, size) && n > 0
      modifies this`nrFree, this`free, bit, property, flist
      ensures Valid() && Tracked(now, size)
      ensures repair && old(Accurate(Pages(free), bit[..])) ==> Accurate(Pages(free), bit[..])
      ensures Step(Request(n), old(Moment(free, held)), Moment(free, now))
    {
      hide Start;
      hide Listed;
      hide Clean;
      hide Accurate;
      hide Tidy;
      hide RangeTidy;
      hide MarksHeld;
      hide SameUnfree;
      hide NoBlockFor;
      hide TakenFrom;
      hide Holds;
      hide Step;
      ghost var a := Moment(free, held);
      ghost var bits, sizes := bit[..], property[..];
      now := held;
      var r := AllocPages(n);
      if r.Some? {
        assert forall p: nat :: r.value <= p < r.value + n ==> p in Interval(r.value, n);
        HoldsMore(held, a.free, bit.Length, size, r.value, n);
        now := held + [(r.value, n)];
        GrantHeld(held, a.free, bits, sizes, bit[..], property[..], r.value, n);
      } else {
        assert Pages(free) == Pages(a.free);
      }
      StepRequest(n, a, Moment(free, now), r);
    }

    /** A release of a run: of a whole range held. It is right exactly when the range carries no bit: then the source's
        assertion holds, and the lists are exact afterwards; else the assertion ends the program. */
    method ServeRelease(k: nat, held: seq<(nat, nat)>, ghost size: nat) returns (now: seq<(nat, nat)>, ok: bool)
      requires Valid() && Tracked(held, size)
      modifies this`nrFree, this`free, bit, property, flist
      ensures Valid() && Tracked(now, size)
      ensures ok <==> k >= |held| || Unmarked(old(bit[..]), held[k].0, held[k].0 + held[k].1)
      ensures ok ==> Moment(free, now) == Released(old(Moment(free, held)), k)
      ensures !ok ==> now == held && free == old(free) && bit[..] == old(bit[..])
      ensures repair && old(Accurate(Pages(free), bit[..])) ==> ok && Accurate(Pages(free), bit[..])
    {
      hide Start;
      hide Listed;
      hide Clean;
      hide Accurate;
      hide Tidy;
      hide MarksHeld;
      hide AllHeads;
      hide Tiles;
      hide TilesMarked;
      hide Holds;
      hide Unmarked;
      hide Clash;
      hide SameUnfree;
      now, ok := held, true;
      if k < |held| {
        ghost var F, bits, sizes := free, bit[..], property[..];
        var (p, n) := held[k];
        HeldUnused(held, free, bit.Length, size, k);
        HoldsLess(held, free, bit.Length, size, k);
        if Accurate(Pages(F), bits) {
          AccurateIsClean(Pages(F), bits);
          CleanUnmarked(F, bits, p, n);
        }
        ok := FreePages(p, n);
        if ok {
          WholeRangeRight(held, F, bit.Length, size, bits, sizes, k);
          now := held[..k] + held[k + 1..];
          ReleaseHeld(held, F, bit.Length, size, bits, sizes, bit[..], property[..], k);
        }
      }
    }

    /** What a run keeps: held ranges and free pages partition the region, bits on free pages are heads or left behind,
        and bits on other pages are left behind inside one held range. */
    ghost predicate Tracked(held: seq<(nat, nat)>, size: nat)
      reads this, bit, property
    {
      && bit.Length == property.Length && Holds(held, free, bit.Length, size)
      && Tidy(Pages(free), bit[..], property[..])
      && MarksHeld(held, free, bit[..], property[..])
    }

    /** Any run of requests and releases by clients that release what they were granted. A request is met off the front
        of a sufficient maximal block exactly when there is one; a release gives back exactly its range, and the lists
        stay exact. The run ends early only at a release whose range carries a bit, where the source's assertion fails;
        with the repair it never does, and bits mark exactly the heads of listed blocks throughout. */
    method Run(base: nat, size: nat, calls: seq<Call>)
      returns (held: seq<(nat, nat)>, stopped: bool, ghost moments: seq<Moment>)
      requires Valid() && free == Interval(base, size) && base + size <= bit.Length && Accurate(Pages(free), bit[..])
      modifies this`nrFree, this`free, bit, property, flist
      ensures Valid() && Holds(held, free, bit.Length, size)
      ensures 0 < |moments| <= |calls| + 1 && (!stopped ==> |moments| == |calls| + 1)
      ensures stopped ==> |moments| <= |calls| && MarkedRelease(calls[|moments| - 1], held, bit[..])
      ensures moments[0] == Moment(Interval(base, size), []) && moments[|moments| - 1] == Moment(free, held)
      ensures forall i :: 0 <= i < |moments| - 1 ==> Step(calls[i], moments[i], moments[i + 1])
      ensures repair ==> !stopped && Accurate(Pages(free), bit[..])
    {
      hide *;
      HoldsNothing(base, size, bit.Length);
      AccurateIsTidy(Pages(free), bit[..], property[..]);
      NothingHeld(free, bit[..], property[..]);
      ValidParts();
      TrackedIf([], size);
      held, stopped, moments := [], false, [Moment(free, [])];
      for i := 0 to |calls|
        invariant Valid() && Tracked(held, size) && !stopped
        invariant repair ==> Accurate(Pages(free), bit[..])
        invariant |moments| == i + 1
        invariant moments[0] == Moment(Interval(base, size), []) && moments[i] == Moment(free, held)
        invariant forall j :: 0 <= j < i ==> Step(calls[j], moments[j], moments[j + 1])
      {
        StepOther(calls[i], Moment(free, held));
        match calls[i] {
          case Request(n) => if n > 0 { held := ServeRequest(n, held, size); }
          case Release(k) =>
            ghost var bits := bit[..];
            var ok;
            held, ok := ServeRelease(k, held, size);
            if !ok {
              MarkedHere(k, held, bit[..]);
              TrackedHolds(held, size);
              return held, true, moments;
            }
        }
        moments := moments + [Moment(free, held)];
      }
      TrackedHolds(held, size);
    }

    lemma TrackedIf(held: seq<(nat, nat)>, size: nat)
      requires bit.Length == property.Length && Holds(held, free, bit.Length, size)
      requires Tidy(Pages(free), bit[..], property[..]) && MarksHeld(held, free, bit[..], property[..])
      ensures Tracked(held, size)
    {}

    lemma TrackedHolds(held: seq<(nat, nat)>, size: nat)
      requires Tracked(held, size)
      ensures Holds(held, free, bit.Length, size)
    {}

    /** With the repair, whatever ranges clients give back - parts of grants, or several at once - the lists stay exact,
        bits mark exactly their heads, no assertion fails, and no page is lost. */
    method RunRepaired(base: nat, size: nat, calls: seq<PartCall>)
      returns (held: set<nat>, ghost moments: seq<(set<nat>, set<nat>)>)
      requires repair && Valid() && free == Interval(base, size) && base + size <= bit.Length
      requires Accurate(Pages(free), bit[..])
      modifies this`nrFree, this`free, bit, property, flist
      ensures Valid() && Accurate(Pages(free), bit[..]) && free !! held && free + held == Interval(base, size)
      ensures |moments| == |calls| + 1 && moments[0] == (Interval(base, size), {}) && moments[|calls|] == (free, held)
      ensures forall i :: 0 <= i < |calls| ==>
        PartStep(calls[i], moments[i].0, moments[i].1, moments[i + 1].0, moments[i + 1].1)
    {
      hide *;
      held, moments := {}, [(free, {})];
      for i := 0 to |calls|
        invariant Valid() && Accurate(Pages(free), bit[..]) && free !! held && free + held == Interval(base, size)
        invariant |moments| == i + 1 && moments[0] == (Interval(base, size), {}) && moments[i] == (free, held)
        invariant forall j :: 0 <= j < i ==>
          PartStep(calls[j], moments[j].0, moments[j].1, moments[j + 1].0, moments[j + 1].1)
      {
        held := ServePart(calls[i], base, size, held);
        moments := moments + [(free, held)];
      }
    }

    method ServePart(c: PartCall, base: nat, size: nat, held: set<nat>) returns (now: set<nat>)
      requires repair && Valid() && Accurate(Pages(free), bit[..]) && base + size <= bit.Length
      requires free !! held && free + held == Interval(base, size)
      modifies this`nrFree, this`free, bit, property, flist
      ensures Valid() && Accurate(Pages(free), bit[..]) && free !! now && free + now == Interval(base, size)
      ensures PartStep(c, old(free), held, free, now)
    {
      hide Valid;
      hide Accurate;
      hide NoBlockFor;
      hide TakenFrom;
      hide Interval;
      now := held;
      match c {
        case Ask(n) => if n > 0 { now := ServeAsk(n, held); }
        case Give(p, n) => if n > 0 && Interval(p, n) <= held { now := ServeGive(p, n, held, base, size); }
      }
    }

    method ServeAsk(n: nat, held: set<nat>) returns (now: set<nat>)
      requires repair && Valid() && Accurate(Pages(free), bit[..]) && n > 0 && free !! held
      modifies this`nrFree, this`free, bit, property, flist
      ensures Valid() && Accurate(Pages(free), bit[..]) && free !! now && free + now == old(free) + held
      ensures PartStep(Ask(n), old(free), held, free, now)
    {
      hide *;
      now := held;
      ghost var F := free;
      var r := AllocPages(n);
      if r.Some? { now := held + Interval(r.value, n); }
      AskStep(n, F, held, free, now, r);
    }

    method ServeGive(p: nat, n: nat, held: set<nat>, ghost base: nat, ghost size: nat) returns (now: set<nat>)
      requires repair && Valid() && Accurate(Pages(free), bit[..]) && base + size <= bit.Length
      requires free !! held && free + held == Interval(base, size) && n > 0 && Interval(p, n) <= held
      modifies this`nrFree, this`free, bit, property, flist
      ensures Valid() && Accurate(Pages(free), bit[..]) && free !! now && free + now == old(free) + held
      ensures PartStep(Give(p, n), old(free), held, free, now)
    {
      hide *;
      ghost var F := free;
      GiveFacts(F, held, p, n, base, size);
      AccurateIsClean(Pages(F), bit[..]);
      var ok := FreePages(p, n);
      now := held - Interval(p, n);
      GiveStep(F, held, p, n);
    }
  }

  lemma GiveFacts(free: set<nat>, held: set<nat>, p: nat, n: nat, base: nat, size: nat)
    requires free !! held && free + held == Interval(base, size) && n > 0 && Interval(p, n) <= held
    ensures p + n <= base + size && forall x: nat :: Within(x, p, p + n) ==> x !in free
  {
    hide Interval;
    assert p + n - 1 in Interval(p, n);
    assert forall x: nat :: Within(x, p, p + n) ==> x in Interval(p, n);
  }

  lemma GiveStep(free: set<nat>, held: set<nat>, p: nat, n: nat)
    requires free !! held && n > 0 && Interval(p, n) <= held
    ensures var free', held' := free + Interval(p, n), held - Interval(p, n);
      PartStep(Give(p, n), free, held, free', held') && free' !! held' && free' + held' == free + held
  {
    hide Interval;
  }

  lemma AskStep(n: nat, free: set<nat>, held: set<nat>, free': set<nat>, held': set<nat>, r: Option<nat>)
    requires n > 0 && free !! held && (r.None? <==> NoBlockFor(Pages(free), n))
    requires r.None? ==> free' == free && held' == held
    requires r.Some? ==> Interval(r.value, n) <= free && TakenFrom(Pages(free), r.value, n)
    requires r.Some? ==> free' == free - Interval(r.value, n) && held' == held + Interval(r.value, n)
    ensures PartStep(Ask(n), free, held, free', held') && free' !! held' && free' + held' == free + held
  {
    hide NoBlockFor;
    hide TakenFrom;
    hide Interval;
  }

  /** A call of a client that may give back any part of what it was granted, pages of different grants included. */
  datatype PartCall = Ask(n: nat) | Give(base: nat, n: nat)

  ghost predicate PartStep(c: PartCall, free: set<nat>, held: set<nat>, free': set<nat>, held': set<nat>) {
    match c
    case Ask(n) =>
      if n == 0 || NoBlockFor(Pages(free), n) then free' == free && held' == held
      else exists r: nat ::
        TakenFrom(Pages(free), r, n) && free' == free - Interval(r, n) && held' == held + Interval(r, n)
    case Give(p, n) =>
      if n > 0 && Interval(p, n) <= held then free' == free + Interval(p, n) && held' == held - Interval(p, n)
      else free' == free && held' == held
  }

  // ---- marks on held ranges ----

  ghost predicate InHeld(held: seq<(nat, nat)>, j: nat, x: nat) {
    j < |held| && held[j].0 <= x < held[j].0 + held[j].1
  }

  /** Every bit on a page that is not free was left behind inside one held range, together with the lower half. */
  ghost predicate MarksHeld(held: seq<(nat, nat)>, free: set<nat>, bit: seq<bool>, property: seq<nat>) {
    forall x: nat :: x < |bit| && bit[x] && x !in free ==> HeldMark(held, property, x)
  }

  ghost predicate HeldMark(held: seq<(nat, nat)>, property: seq<nat>, x: nat) {
    exists j: nat :: InHeld(held, j, x) && Upper(property, x, held[j].0)
  }

  ghost predicate MarkedRelease(c: Call, held: seq<(nat, nat)>, bit: seq<bool>) {
    c.Release? && c.k < |held| && !Unmarked(bit, held[c.k].0, held[c.k].0 + held[c.k].1)
  }

  lemma MarkedHere(k: nat, held: seq<(nat, nat)>, bit: seq<bool>)
    requires k < |held| && !Unmarked(bit, held[k].0, held[k].0 + held[k].1)
    ensures MarkedRelease(Release(k), held, bit)
  {}

  lemma NothingHeld(free: set<nat>, bit: seq<bool>, property: seq<nat>)
    requires Accurate(Pages(free), bit)
    ensures MarksHeld([], free, bit, property)
  {
    AccurateIsClean(Pages(free), bit);
  }

  lemma CleanUnmarked(free: set<nat>, bit: seq<bool>, p: nat, n: nat)
    requires Clean(Pages(free), bit) && forall x: nat :: p <= x < p + n ==> x !in free
    ensures Unmarked(bit, p, p + n)
  {}

  lemma CleanNoClash(G: iset<nat>, bit: seq<bool>, property: seq<nat>, base: nat, n: nat)
    requires Clean(G, bit)
    ensures !Clash(G, bit, property, base, n)
  {
    hide Start;
    hide Pow2;
    hide Tiles;
    hide BuddyFree;
  }

  lemma GrantHeld(held: seq<(nat, nat)>, free: set<nat>, bit0: seq<bool>, property0: seq<nat>, bit: seq<bool>,
                  property: seq<nat>, r: nat, n: nat)
    requires MarksHeld(held, free, bit0, property0) && SameUnfree(Pages(free), bit0, property0, bit, property)
    requires RangeTidy(bit, property, r, n)
    ensures MarksHeld(held + [(r, n)], free - Interval(r, n), bit, property)
  {
    hide UpperHalf;
    var held' := held + [(r, n)];
    forall x: nat | x < |bit| && bit[x] && x !in free - Interval(r, n)
      ensures HeldMark(held', property, x)
    {
      if x in free {
        assert InHeld(held', |held|, x) && held'[|held|] == (r, n);
        assert Within(x, r, r + n);
      } else {
        var j: nat :| InHeld(held, j, x) && Upper(property0, x, held[j].0);
        SameUpperMark(property0, property, x, held[j].0);
        assert held'[j] == held[j] && InHeld(held', j, x);
      }
    }
  }

  lemma SameUpperMark(property0: seq<nat>, property: seq<nat>, x: nat, lo: nat)
    requires Upper(property0, x, lo) && x < |property| && x < |property0| && property[x] == property0[x]
    ensures Upper(property, x, lo)
  {
    var t: nat :| UpperHalf(property0, x, t) && lo <= Start(x, t + 1);
    SameUpper(property0, property, x, t);
  }

  lemma FirstTile(p: nat, n: nat) returns (k: nat)
    requires n > 0
    ensures k <= TOP && Pow2(k) <= n && Start(p, k) == p && Tiles(p, n) == [(p, k)] + Tiles(p + Pow2(k), n - Pow2(k))
  {
    hide Start;
    hide Pow2;
    hide GreedyFrom;
    ZeroOrder(p);
    k := GreedyFrom(p, n, 0);
  }

  /** Every page of the range lies in a tile. */
  lemma {:induction false} TileOf(p: nat, n: nat, x: nat) returns (t: (nat, nat))
    requires p <= x < p + n
    ensures t in Tiles(p, n) && Start(x, t.1) == t.0
    decreases n
  {
    hide *;
    var k := FirstTile(p, n);
    var rest := Tiles(p + Pow2(k), n - Pow2(k));
    assert Tiles(p, n) == [(p, k)] + rest;
    if x < p + Pow2(k) {
      StartUnique(x, p, k);
      t := (p, k);
      assert t == Tiles(p, n)[0];
    } else {
      t := TileOf(p + Pow2(k), n - Pow2(k), x);
      assert t in rest;
    }
  }

  /** When the tiles of a range are maximal blocks, there are no others. */
  lemma MaxIsTile(base: nat, n: nat, i: nat, k: nat)
    requires forall t :: t in Tiles(base, n) ==> MaxBlock(Plus(iset{}, base, base + n), TOP, t.0, t.1)
    requires MaxBlock(Plus(iset{}, base, base + n), TOP, i, k)
    ensures (i, k) in Tiles(base, n)
  {
    var F := Plus(iset{}, base, base + n);
    MaxFacts(F, i, k);
    InOwnBlock(F, i, k);
    assert Within(i, base, base + n);
    var t := TileOf(base, n, i);
    hide *;
    MaxDisjoint(F, TOP, i, k, t.0, t.1, i);
  }

  lemma {:induction false} TilesInside(p: nat, n: nat, t: (nat, nat))
    requires t in Tiles(p, n)
    ensures p <= t.0 && t.0 + Pow2(t.1) <= p + n && Start(t.0, t.1) == t.0
    decreases n
  {
    hide *;
    NoMoreTiles(p);
    var k := FirstTile(p, n);
    var rest := Tiles(p + Pow2(k), n - Pow2(k));
    assert Tiles(p, n) == [(p, k)] + rest;
    if t != (p, k) {
      assert t in rest;
      TilesInside(p + Pow2(k), n - Pow2(k), t);
    }
  }

  /** A release of a whole held range without bits meets no stale buddy: a stale buddy lies in one held range with the
      block before it, and that block would lie in two. */
  lemma WholeRangeRight(held: seq<(nat, nat)>, free: set<nat>, hi: nat, total: nat, bit: seq<bool>,
      property: seq<nat>, k: nat)
    requires Holds(held, free, hi, total) && MarksHeld(held, free, bit, property) && k < |held|
    requires Unmarked(bit, held[k].0, held[k].0 + held[k].1)
    ensures !Clash(Pages(free), bit, property, held[k].0, held[k].1)
  {
    hide Start;
    hide Pow2;
    hide Tiles;
    hide Stale;
    hide Holds;
    var (base, n) := held[k];
    if Clash(Pages(free), bit, property, base, n) {
      var t :| t in Tiles(base, n) && Meets(Plus(Pages(free), base, t.0), bit, property, t.0, t.1);
      var o: nat :| o < TOP && StaleAt(Plus(Pages(free), base, t.0), bit, property, t.0, o);
      TilesInside(base, n, t);
      Pow2Positive(t.1);
      StaleElsewhere(held, free, hi, total, bit, property, k, t.0, o);
      assert false;
    }
  }

  lemma Pow2Positive(k: nat)
    ensures Pow2(k) > 0
  {}

  lemma StaleElsewhere(held: seq<(nat, nat)>, free: set<nat>, hi: nat, total: nat, bit: seq<bool>, property: seq<nat>,
                       k: nat, p: nat, o: nat)
    requires Holds(held, free, hi, total) && MarksHeld(held, free, bit, property) && InHeld(held, k, p)
    requires Unmarked(bit, held[k].0, held[k].0 + held[k].1)
    ensures !StaleAt(Plus(Pages(free), held[k].0, p), bit, property, p, o)
  {
    hide Start;
    hide Pow2;
    if StaleAt(Plus(Pages(free), held[k].0, p), bit, property, p, o) {
      var b := Start(p, o);
      var q := BuddyOf(b, o);
      BuddyFacts(b, o);
      assert q !in free && HeldMark(held, property, q);
      var j: nat :| InHeld(held, j, q) && Upper(property, q, held[j].0);
      var t: nat :| UpperHalf(property, q, t) && held[j].0 <= Start(q, t + 1);
      Pow2Injective(t, o);
      LowerHalfHeld(held, property, j, q, o, p);
      assert false;
    }
  }

  /** With the upper half of a block the range holds the pages of the lower half. */
  lemma LowerHalfHeld(held: seq<(nat, nat)>, property: seq<nat>, j: nat, q: nat, o: nat, p: nat)
    requires InHeld(held, j, q) && UpperHalf(property, q, o) && held[j].0 <= Start(q, o + 1)
    requires Start(Start(p, o), o) == Start(p, o) && q == BuddyOf(Start(p, o), o)
    ensures InHeld(held, j, p)
  {
    hide Start;
    BuddyFacts(Start(p, o), o);
    StartBounds(p, o);
  }

  lemma ReleaseHeld(held: seq<(nat, nat)>, free: set<nat>, hi: nat, total: nat, bit0: seq<bool>, property0: seq<nat>,
                    bit: seq<bool>, property: seq<nat>, k: nat)
    requires k < |held| && MarksHeld(held, free, bit0, property0)
    requires SameUnfree(Pages(free + Interval(held[k].0, held[k].1)), bit0, property0, bit, property)
    ensures MarksHeld(held[..k] + held[k + 1..], free + Interval(held[k].0, held[k].1), bit, property)
  {
    hide UpperHalf;
    var held' := held[..k] + held[k + 1..];
    var (base, n) := held[k];
    forall x: nat | x < |bit| && bit[x] && x !in free + Interval(base, n)
      ensures HeldMark(held', property, x)
    {
      var j: nat :| InHeld(held, j, x) && Upper(property0, x, held[j].0);
      SameUpperMark(property0, property, x, held[j].0);
      var i := if j < k then j else j - 1;
      assert held'[i] == held[j] && InHeld(held', i, x);
    }
  }

  lemma OneTile(p: nat, end: nat)
    requires end == p + 1
    ensures (p, 0) in Tiles(p, 1)
    ensures forall x: nat :: Within(x, p, end) ==> x == p
  {
    assert Pow2(1) == 2;
    assert GreedyFrom(p, 1, 0) == 0;
    assert Tiles(p, 1)[0] == (p, 0);
  }

  lemma TwoPages()
    ensures Interval(0, 2) == {0, 1} && Interval(0, 1) == {0} && Interval(1, 1) == {1}
    ensures forall h: nat :: Interval(h, 2) <= {0, 1} ==> h == 0
    ensures forall h: nat :: Interval(h, 1) <= {1} ==> h == 1
  {
    assert forall h: nat :: h in Interval(h, 2) && h + 1 in Interval(h, 2);
    assert forall h: nat :: h in Interval(h, 1);
  }

  lemma PairIsFree()
    ensures FreeBlock(Pages({0, 1}), 0, 1)
  {
    BlockIsInterval(0, 1);
  }

  lemma CanGrant()
    ensures !NoBlockFor(Pages({0, 1}), 1) && !NoBlockFor(Pages({1}), 1) && !NoBlockFor(Pages({0, 1}), 2)
  {
    PairIsFree();
    assert Pow2(1) == 2 && Pow2(0) == 1;
    PageIsBlock(Pages({1}), 1);
  }

  /** With both pages free, only the block of order 1 at page 0 is maximal. */
  lemma FirstGrant(h: nat)
    requires TakenFrom(Pages({0, 1}), h, 1)
    ensures h == 0
  {
    hide Start;
    var F := Pages({0, 1});
    var k: nat :| MaxBlock(F, TOP, h, k);
    PairIsFree();
    MaxFacts(F, h, k);
    InOwnBlock(F, h, k);
    if h == 1 {
      assert Start(1, 1) == 0 by { Halves(0, 0); }
      MaxAbsorbs(F, TOP, 1, k, 0, 1, 1);
      StartBounds(0, k);
      assert false;
    }
  }

  /** The failing family is not empty. On a region of two pages, two one-page requests and their releases
      in order leave a stale bit on page 1, which the next two-page request hands out, with the size of one page. */
  method StaleBitReachesClient() returns (b: Buddy)
    ensures fresh(b) && fresh(b.bit) && fresh(b.property) && fresh(b.flist)
    ensures b.Valid() && b.bit.Length == b.property.Length == 2 && b.free == {} && !b.repair
    ensures !b.bit[0] && b.bit[1] && b.property[1] == 1
  {
    hide *;
    b := new Buddy(2, false);
    TwoPages();
    CanGrant();
    PairShape(b);
    b.InitMemmap(0, 2);
    assert b.free == {0, 1};
    AccurateIsTidy(Pages(b.free), b.bit[..], b.property[..]);
    var r0 := b.AllocPages(1);
    FirstGrant(r0.value);
    AccurateIsClean(Pages(b.free), b.bit[..]);
    assert b.free == {1};
    var r1 := b.AllocPages(1);
    AccurateIsClean(Pages(b.free), b.bit[..]);
    assert b.free == {};
    var ok0 := b.FreePages(0, 1);
    assert b.free == {0};
    OneTile(1, 2);
    var ok1 := b.FreePages(1, 1);
    assert b.free == {0, 1} && (1, 0) in Tiles(1, 1);
    ghost var bits := b.bit[..];
    assert bits[1];
    var r2 := b.AllocPages(2);
    assert r2.value == 0;
    SecondPage(b.bit[..], b.property[..]);
  }

  lemma PairShape(b: Buddy)
    requires b.Empty()
    ensures b.property.Length == b.bit.Length
  {}

  lemma SecondPage(bit: seq<bool>, property: seq<nat>)
    requires RangeTidy(bit, property, 0, 2) && |bit| == |property| == 2 && bit[1]
    ensures property[1] == 1
  {
    assert Within(1, 0, 2);
    var t: nat :| UpperHalf(property, 1, t) && 0 <= Start(1, t + 1);
    if t > 0 { StartOfOne(t); }
  }

  lemma {:induction false} StartOfOne(t: nat)
    requires t > 0
    ensures Start(1, t) == 0
  {
    StartOfZero(t - 1);
  }

  lemma {:induction false} StartOfZero(t: nat)
    ensures Start(0, t) == 0
  {
    if t > 0 { StartOfZero(t - 1); }
  }

  /** Then the client gives back the first of the two pages. No page of that range carries a bit, so nothing stops the
      release; the page that is still held passes for a free buddy, and the lists are wrong afterwards. */
  method HeldPageMerged() returns (b: Buddy, ok: bool)
    ensures ok && !b.Valid() && b.free == {0}
  {
    hide *;
    b := StaleBitReachesClient();
    FirstPageClash(b.bit[..], b.property[..]);
    ok := b.FreePages(0, 1);
    TwoPages();
  }

  lemma FirstPageClash(bit: seq<bool>, property: seq<nat>)
    requires |bit| == |property| == 2 && !bit[0] && bit[1] && property[1] == 1
    ensures Unmarked(bit, 0, 1) && Clash(Pages({}), bit, property, 0, 1)
  {
    OneTile(0, 1);
    var G := Plus(Pages({}), 0, 0);
    assert BuddyOf(0, 0) == 1;
    assert 1 !in G;
    assert Stale(G, bit, property, 0, 0);
    assert StaleAt(G, bit, property, 0, 0);
    assert Meets(G, bit, property, 0, 0);
  }
}
