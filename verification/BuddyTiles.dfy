/** The greedy aligned tiling of a range: the tiles that initialisation lays out and that a release gives back one by
    one. */
module BuddyTiles {
  import opened Bits
  import opened Lists
  import opened PageFrames
  import opened FreeBlocks
  import opened Ranges
  import opened Sets
  import opened BuddyMarks

  /** Order k is the largest whose block at p is aligned and fits in n pages. */
  ghost predicate Greedy(p: nat, n: nat, k: nat) {
    && k <= TOP && Pow2(k) <= n && Start(p, k) == p
    && (k == TOP || Pow2(k + 1) > n || Start(p, k + 1) != p)
  }

  function GreedyFrom(p: nat, n: nat, k: nat): (r: nat)
    requires k <= TOP && Pow2(k) <= n && Start(p, k) == p
    ensures Greedy(p, n, r)
    decreases TOP - k
  {
    if k + 1 <= TOP && Pow2(k + 1) <= n && Start(p, k + 1) == p then GreedyFrom(p, n, k + 1) else k
  }

  /** The blocks that the greedy loop cuts [p, p + n) into, in order. */
  function Tiles(p: nat, n: nat): seq<(nat, nat)>
    decreases n
  {
    if n == 0 then [] else
      var k := GreedyFrom(p, n, 0);
      [(p, k)] + Tiles(p + Pow2(k), n - Pow2(k))
  }

  /** The source tests alignment by masking the page frame number. */
  lemma MaskTest(p: nat, k: nat)
    requires k <= 16
    ensures And(p + NBASE, Pow2(k) - 1) == 0 <==> Start(p, k) == p
  {
    hide Start;
    hide And;
    hide Pow2;
    AndMask(p + NBASE, k);
    NbaseAligned(k);
    StartShift(p, NBASE, k);
    StartBounds(p, k);
  }

  lemma GreedyStep(p: nat, n: nat, k: nat)
    requires k <= TOP && Pow2(k) <= n && Start(p, k) == p
    ensures GreedyFrom(p, n, k) ==
      if k + 1 <= TOP && Pow2(k + 1) <= n && Start(p, k + 1) == p then GreedyFrom(p, n, k + 1) else k
  {
    hide Pow2;
    hide Start;
    hide Greedy;
  }

  /** The alignment test of the greedy loops. */
  method IsAligned(p: nat, k: nat) returns (aligned: bool)
    requires k <= TOP
    ensures aligned <==> Start(p, k) == p
  {
    hide Start;
    hide And;
    MaskTest(p, k);
    aligned := And(p + NBASE, Pow2(k) - 1) == 0;
  }

  lemma ZeroOrder(p: nat)
    ensures Start(p, 0) == p && Pow2(0) == 1
  {}

  /** The greedy loop of initialisation and release. */
  method LargestAligned(p: nat, n: nat) returns (k: nat)
    requires n > 0
    ensures k == GreedyFrom(p, n, 0) && Greedy(p, n, k)
  {
    hide *;
    k := 0;
    ZeroOrder(p);
    while k + 1 <= TOP && Pow2(k + 1) <= n
      invariant k <= TOP && Pow2(k) <= n && Start(p, k) == p
      invariant GreedyFrom(p, n, k) == GreedyFrom(p, n, 0)
    {
      GreedyStep(p, n, k);
      var aligned := IsAligned(p, k + 1);
      if !aligned { return; }
      k := k + 1;
    }
    GreedyStep(p, n, k);
  }

  /** The pages of G together with [lo, hi). */
  ghost function Plus(G: iset<nat>, lo: nat, hi: nat): iset<nat> {
    iset p: nat | p in G || Within(p, lo, hi)
  }

  lemma PlusBlock(G: iset<nat>, lo: nat, p: nat, k: nat)
    requires Start(p, k) == p && lo <= p
    ensures With(Plus(G, lo, p), p, k) == Plus(G, lo, p + Pow2(k))
  {
    hide Start;
    BlockIsInterval(p, k);
    var block := Interval(p, Pow2(k));
    assert forall x: nat :: x in block <==> p <= x < p + Pow2(k);
    assert forall x: nat :: Within(x, lo, p + Pow2(k)) <==> Within(x, lo, p) || x in block;
  }

  ghost predicate NoneIn(G: iset<nat>, lo: nat, hi: nat) {
    forall x: nat :: Within(x, lo, hi) ==> x !in G
  }

  lemma NothingIn(lo: nat, hi: nat)
    ensures NoneIn(iset{}, lo, hi)
  {}

  lemma TileUsed(G: iset<nat>, lo: nat, p: nat, k: nat)
    requires Start(p, k) == p && lo <= p && NoneIn(G, p, p + Pow2(k))
    ensures UsedBlock(Plus(G, lo, p), p, k)
  {
    hide Start;
    BlockIsInterval(p, k);
    forall x: nat | Start(x, k) == p
      ensures x !in Plus(G, lo, p)
    {
      assert Within(x, p, p + Pow2(k));
    }
  }

  /** A head of the larger free set that was free before was a head before. */
  lemma HeadShrinks(G: iset<nat>, F: iset<nat>, t: nat)
    requires G <= F && IsHead(F, t) && t in G
    ensures IsHead(G, t)
  {
    hide Start;
    hide MaxBlock;
    var k: nat :| MaxBlock(F, TOP, t, k);
    PageIsBlock(G, t);
    ParentAligned(t, 0);
    var j := MaxExists(G, TOP, t, 0);
    MaxFacts(G, Start(t, j), j);
    MaxFacts(F, t, k);
    SubsetFree(G, F, Start(t, j), j);
    MaxAbsorbs(F, TOP, t, k, Start(t, j), j, t);
    StartBounds(Start(t, j), k);
    StartBounds(t, j);
  }

  /** The block that holds a head starts at it. */
  lemma HeadIsStart(F: iset<nat>, t: nat, o: nat)
    requires MaxBlock(F, TOP, Start(t, o), o) && IsHead(F, t)
    ensures Start(t, o) == t
  {
    hide Start;
    hide MaxBlock;
    var k: nat :| MaxBlock(F, TOP, t, k);
    MaxFacts(F, t, k);
    MaxDisjoint(F, TOP, t, k, Start(t, o), o, t);
  }

  /** Every tile given back so far still carries its bit. */
  ghost predicate TilesMarked(done: seq<(nat, nat)>, G: iset<nat>, bit: seq<bool>, p: nat) {
    forall t :: t in done ==> t.0 < p && t.0 in G && t.0 < |bit| && bit[t.0]
  }

  ghost predicate AllHeads(tiles: seq<(nat, nat)>, G: iset<nat>) {
    forall t :: t in tiles ==> IsHead(G, t.0)
  }

  /** The line of a release that asserts it: no page of the range carries a bit. */
  ghost predicate Unmarked(bit: seq<bool>, lo: nat, hi: nat) {
    forall x: nat :: x < |bit| && Within(x, lo, hi) ==> !bit[x]
  }

  /** Some tile of the range, while it is given back after the tiles before it, meets a stale buddy. */
  ghost predicate Clash(G: iset<nat>, bit: seq<bool>, property: seq<nat>, base: nat, n: nat) {
    exists t :: t in Tiles(base, n) && Meets(Plus(G, base, t.0), bit, property, t.0, t.1)
  }

  ghost predicate SameUnfree(F: iset<nat>, bit0: seq<bool>, property0: seq<nat>, bit: seq<bool>, property: seq<nat>) {
    && |bit| == |bit0| == |property| == |property0|
    && forall x: nat :: x < |bit| && x !in F ==> bit[x] == bit0[x] && property[x] == property0[x]
  }

  /** The marks after the tiles `done` of a release that starts at base, all merged with free buddies only. */
  ghost predicate TilesOk(G: iset<nat>, base: nat, p: nat, done: seq<(nat, nat)>, bit0: seq<bool>, property0: seq<nat>,
                          bit: seq<bool>, property: seq<nat>, fix: bool) {
    var F := Plus(G, base, p);
    && SameUnfree(F, bit0, property0, bit, property)
    && (Clean(G, bit0) ==> Clean(F, bit))
    && (!fix ==> TilesMarked(done, F, bit, p))
    && (Accurate(G, bit0) && (fix || AllHeads(done, F)) ==> Accurate(F, bit))
    && (Tidy(G, bit0, property0) ==> Tidy(F, bit, property))
    && (forall t :: t in done ==> !Meets(Plus(G, base, t.0), bit0, property0, t.0, t.1))
  }

  lemma TilesStart(G: iset<nat>, base: nat, bit: seq<bool>, property: seq<nat>, fix: bool)
    requires |bit| == |property|
    ensures Plus(G, base, base) == G && TilesOk(G, base, base, [], bit, property, bit, property, fix)
  {
    hide Tidy;
    assert Plus(G, base, base) == G;
  }

  /** Only marks on unfree pages can be stale. */
  lemma MeetsSame(G: iset<nat>, bit0: seq<bool>, property0: seq<nat>, bit: seq<bool>, property: seq<nat>, p0: nat,
      o0: nat)
    requires SameUnfree(G, bit0, property0, bit, property) && Meets(G, bit0, property0, p0, o0)
    ensures Meets(G, bit, property, p0, o0)
  {
    hide Start;
    hide Pow2;
    hide BuddyFree;
    var o: nat :|
      o0 <= o < TOP && StaleAt(G, bit0, property0, p0, o) && forall j: nat :: o0 <= j < o ==> BuddyFree(G, p0, j);
    assert StaleAt(G, bit, property, p0, o);
  }

  lemma TileMarks(done: seq<(nat, nat)>, G: iset<nat>, bit: seq<bool>, bit': seq<bool>, p: nat, k: nat)
    requires TilesMarked(done, G, bit, p) && Start(p, k) == p && p < |bit'| == |bit| && bit'[p]
    requires forall t :: 0 <= t < p && bit[t] ==> bit'[t]
    ensures TilesMarked(done + [(p, k)], With(G, p, k), bit', p + Pow2(k))
  {
    hide Start;
    hide Pow2;
  }

  lemma TileAccurate(acc: bool, fix: bool, done: seq<(nat, nat)>, G: iset<nat>, bit: seq<bool>, bit': seq<bool>,
                     p: nat, k: nat, top: nat)
    requires (acc && (fix || AllHeads(done, G)) ==> Accurate(G, bit)) && (!fix ==> TilesMarked(done, G, bit, p))
    requires Start(p, k) == p && MaxBlock(With(G, p, k), TOP, Start(p, top), top)
    requires QuietAccurate(G, p, bit) && (fix || Start(p, top) == p) ==> Accurate(With(G, p, k), bit')
    ensures acc && (fix || AllHeads(done + [(p, k)], With(G, p, k))) ==> Accurate(With(G, p, k), bit')
  {
    hide Start;
    hide Pow2;
    hide MaxBlock;
    hide IsHead;
    var F, done' := With(G, p, k), done + [(p, k)];
    if acc && !fix && AllHeads(done', F) {
      assert (p, k) in done';
      HeadIsStart(F, p, top);
      forall t | t in done
        ensures IsHead(G, t.0)
      {
        assert t in done';
        HeadShrinks(G, F, t.0);
      }
    }
  }

  lemma TileUnmarked(p: nat, k: nat, F: iset<nat>, bit0: seq<bool>, property0: seq<nat>, bit: seq<bool>,
      property: seq<nat>)
    requires SameUnfree(F, bit0, property0, bit, property) && UsedBlock(F, p, k) && Unmarked(bit0, p, p + Pow2(k))
    ensures NoBitsIn(p, k, bit)
  {
    hide Pow2;
    hide Start;
    BlockIsInterval(p, k);
    forall x: nat | x < |bit| && Start(x, k) == p
      ensures !bit[x]
    {
      assert Within(x, p, p + Pow2(k));
    }
  }

  lemma SameTwice(H: iset<nat>, F: iset<nat>, bit0: seq<bool>, property0: seq<nat>, bit: seq<bool>, property: seq<nat>,
                  bit': seq<bool>, property': seq<nat>)
    requires H <= F && SameUnfree(H, bit0, property0, bit, property) && SameUnfree(F, bit, property, bit', property')
    ensures SameUnfree(F, bit0, property0, bit', property')
  {}

  lemma NoMeetsNext(G: iset<nat>, base: nat, done: seq<(nat, nat)>, p: nat, k: nat, bit: seq<bool>, property: seq<nat>)
    requires forall t :: t in done ==> !Meets(Plus(G, base, t.0), bit, property, t.0, t.1)
    requires !Meets(Plus(G, base, p), bit, property, p, k)
    ensures forall t :: t in done + [(p, k)] ==> !Meets(Plus(G, base, t.0), bit, property, t.0, t.1)
  {
    hide Meets;
    hide Plus;
  }

  /** One more tile. */
  lemma TilesNext(G: iset<nat>, base: nat, p: nat, k: nat, done: seq<(nat, nat)>, bit0: seq<bool>, property0: seq<nat>,
                  bit: seq<bool>, property: seq<nat>, bit': seq<bool>, property': seq<nat>, fix: bool, top: nat)
    requires TilesOk(G, base, p, done, bit0, property0, bit, property, fix) && base <= p && Start(p, k) == p
    requires !Meets(Plus(G, base, p), bit, property, p, k) && Unmarked(bit0, p, p + Pow2(k))
    requires UsedBlock(Plus(G, base, p), p, k)
    requires Merged(Plus(G, base, p), p, k, top, bit, property, bit', property', fix)
    ensures TilesOk(G, base, p + Pow2(k), done + [(p, k)], bit0, property0, bit', property', fix)
  {
    hide *;
    var H, F := Plus(G, base, p), Plus(G, base, p + Pow2(k));
    PlusBlock(G, base, p, k);
    TilesFacts(G, base, p, done, bit0, property0, bit, property, fix);
    MergedFacts(H, p, k, top, bit, property, bit', property', fix);
    TileUnmarked(p, k, H, bit0, property0, bit, property);
    PlusGrows(G, base, p, k);
    SameTwice(H, F, bit0, property0, bit, property, bit', property');
    if Clean(H, bit) { CleanIsQuiet(H, p, k, bit); }
    if !fix { TileMarks(done, H, bit, bit', p, k); }
    TileAccurate(Accurate(G, bit0), fix, done, H, bit, bit', p, k, top);
    if Meets(H, bit0, property0, p, k) { MeetsSame(H, bit0, property0, bit, property, p, k); }
    NoMeetsNext(G, base, done, p, k, bit0, property0);
    TilesIf(G, base, p + Pow2(k), done + [(p, k)], bit0, property0, bit', property', fix);
  }

  lemma PlusGrows(G: iset<nat>, base: nat, p: nat, k: nat)
    ensures Plus(G, base, p) <= Plus(G, base, p + Pow2(k))
  {
    hide Pow2;
    forall x: nat
      ensures Within(x, base, p) ==> Within(x, base, p + Pow2(k))
    {}
  }

  lemma TilesFacts(G: iset<nat>, base: nat, p: nat, done: seq<(nat, nat)>, bit0: seq<bool>, property0: seq<nat>,
                   bit: seq<bool>, property: seq<nat>, fix: bool)
    requires TilesOk(G, base, p, done, bit0, property0, bit, property, fix)
    ensures var F := Plus(G, base, p);
      && SameUnfree(F, bit0, property0, bit, property) && (Clean(G, bit0) ==> Clean(F, bit))
      && |bit| == |bit0| == |property| == |property0|
      && (!fix ==> TilesMarked(done, F, bit, p))
      && (Accurate(G, bit0) && (fix || AllHeads(done, F)) ==> Accurate(F, bit))
      && (Tidy(G, bit0, property0) ==> Tidy(F, bit, property))
      && (forall t :: t in done ==> !Meets(Plus(G, base, t.0), bit0, property0, t.0, t.1))
  {
    hide Clean;
    hide TilesMarked;
    hide Accurate;
    hide AllHeads;
    hide Tidy;
    hide Meets;
    hide Plus;
  }

  lemma TilesIf(G: iset<nat>, base: nat, p: nat, done: seq<(nat, nat)>, bit0: seq<bool>, property0: seq<nat>,
                bit: seq<bool>, property: seq<nat>, fix: bool)
    requires var F := Plus(G, base, p);
      && SameUnfree(F, bit0, property0, bit, property) && (Clean(G, bit0) ==> Clean(F, bit))
      && (!fix ==> TilesMarked(done, F, bit, p))
      && (Accurate(G, bit0) && (fix || AllHeads(done, F)) ==> Accurate(F, bit))
      && (Tidy(G, bit0, property0) ==> Tidy(F, bit, property))
      && (forall t :: t in done ==> !Meets(Plus(G, base, t.0), bit0, property0, t.0, t.1))
    ensures TilesOk(G, base, p, done, bit0, property0, bit, property, fix)
  {
    hide Clean;
    hide SameUnfree;
    hide TilesMarked;
    hide Accurate;
    hide AllHeads;
    hide Tidy;
    hide Meets;
    hide Plus;
  }

  lemma MergedFacts(G: iset<nat>, p0: nat, o0: nat, top: nat, bit0: seq<bool>, property0: seq<nat>, bit: seq<bool>,
                    property: seq<nat>, fix: bool)
    requires Merged(G, p0, o0, top, bit0, property0, bit, property, fix)
    ensures var F := With(G, p0, o0);
      && o0 <= top <= TOP && MaxBlock(F, TOP, Start(p0, top), top) && p0 < |bit| == |bit0| == |property| == |property0|
      && (Quiet(G, p0, o0, bit0) ==> Clean(F, bit))
      && (!fix ==> bit[p0] && forall t :: 0 <= t < p0 && bit0[t] ==> bit[t])
      && (QuietAccurate(G, p0, bit0) && (fix || Start(p0, top) == p0) ==> Accurate(F, bit))
      && SameUnfree(F, bit0, property0, bit, property)
      && (Tidy(G, bit0, property0) && NoBitsIn(p0, o0, bit0) ==> Tidy(F, bit, property))
  {
    hide Start;
    hide MaxBlock;
    hide Clean;
    hide Quiet;
    hide QuietAccurate;
    hide Accurate;
    hide Tidy;
    hide With;
  }

  /** A release of [base, base + n) has given back the tiles `done`; `remaining` pages are left, from p on. */
  ghost predicate Reached(base: nat, n: nat, done: seq<(nat, nat)>, p: nat, remaining: nat) {
    Tiles(base, n) == done + Tiles(p, remaining)
  }

  lemma ReachedStart(base: nat, n: nat)
    ensures Reached(base, n, [], base, n)
  {
    hide Tiles;
  }

  lemma ReachedNext(base: nat, n: nat, done: seq<(nat, nat)>, p: nat, remaining: nat, k: nat)
    requires Reached(base, n, done, p, remaining) && Pow2(k) <= remaining
    requires Tiles(p, remaining) == [(p, k)] + Tiles(p + Pow2(k), remaining - Pow2(k))
    ensures Reached(base, n, done + [(p, k)], p + Pow2(k), remaining - Pow2(k))
    ensures Tiles(base, n) == done + ([(p, k)] + Tiles(p + Pow2(k), remaining - Pow2(k)))
  {
    hide Tiles;
  }

  lemma ReachedEnd(base: nat, n: nat, done: seq<(nat, nat)>, p: nat)
    requires Reached(base, n, done, p, 0)
    ensures done == Tiles(base, n)
  {
    NoMoreTiles(p);
  }

  lemma RangeOf(bit: seq<bool>, lo: nat, hi: nat, p: nat, q: nat)
    requires Unmarked(bit, lo, hi) && lo <= p && q <= hi
    ensures Unmarked(bit, p, q)
  {}

  lemma ClashAt(G: iset<nat>, bit: seq<bool>, property: seq<nat>, base: nat, n: nat, done: seq<(nat, nat)>, p: nat,
      k: nat,
                rest: seq<(nat, nat)>)
    requires Tiles(base, n) == done + ([(p, k)] + rest) && Meets(Plus(G, base, p), bit, property, p, k)
    ensures Clash(G, bit, property, base, n)
  {
    hide Meets;
    hide Tiles;
    assert Tiles(base, n)[|done|] == (p, k);
  }

  lemma NoClash(G: iset<nat>, base: nat, p: nat, done: seq<(nat, nat)>, bit0: seq<bool>, property0: seq<nat>,
                bit: seq<bool>, property: seq<nat>, fix: bool, n: nat)
    requires TilesOk(G, base, p, done, bit0, property0, bit, property, fix) && done == Tiles(base, n)
    ensures !Clash(G, bit0, property0, base, n)
  {
    hide Meets;
    hide Tiles;
  }

  lemma RangeUnfree(free: set<nat>, base: nat, n: nat)
    requires forall p: nat :: Within(p, base, base + n) ==> p !in free
    ensures forall x: nat :: base <= x < base + n ==> x !in free
  {
    forall x: nat | base <= x < base + n
      ensures x !in free
    {
      assert Within(x, base, base + n);
    }
  }

  /** What a release whose tiles merged with free buddies only does to the marks as a whole. */
  lemma ReleaseEffects(G: iset<nat>, base: nat, n: nat, bit0: seq<bool>, property0: seq<nat>, bit: seq<bool>,
                       property: seq<nat>, fix: bool)
    requires TilesOk(G, base, base + n, Tiles(base, n), bit0, property0, bit, property, fix)
    ensures var F := Plus(G, base, base + n);
      && (Clean(G, bit0) ==> Clean(F, bit))
      && (Tidy(G, bit0, property0) ==> Tidy(F, bit, property))
      && SameUnfree(F, bit0, property0, bit, property)
      && (!fix ==> forall t :: t in Tiles(base, n) ==> t.0 < |bit| && bit[t.0])
      && (Accurate(G, bit0) ==> (Accurate(F, bit) <==> fix || AllHeads(Tiles(base, n), F)))
  {
    hide Tiles;
    hide Tidy;
    hide IsHead;
    hide Plus;
  }

  lemma StillSpanned(lists0: seq<seq<nat>>, lists: seq<seq<nat>>, F: iset<nat>)
    requires Spanned(lists0, F) && forall x: nat :: Covers(lists0, x) ==> Covers(lists, x)
    ensures Spanned(lists, F)
  {
    hide Covers;
  }

  /** A tile that meets a stale buddy: a page outside the range, still not free, is spanned. */
  lemma TileClash(G: iset<nat>, base: nat, p: nat, k: nat, end: nat, done: seq<(nat, nat)>, bit0: seq<bool>,
                  property0: seq<nat>, bit: seq<bool>, property: seq<nat>, lists: seq<seq<nat>>, fix: bool)
    requires TilesOk(G, base, p, done, bit0, property0, bit, property, fix) && base <= p && p + Pow2(k) <= end
    requires Start(p, k) == p && Meets(Plus(G, base, p), bit, property, p, k) && Unmarked(bit0, base, end)
    requires Trespass(lists, With(Plus(G, base, p), p, k), bit)
    ensures Meets(Plus(G, base, p), bit0, property0, p, k) && Spanned(lists, Plus(G, base, end))
  {
    hide Start;
    hide Pow2;
    hide Covers;
    hide Meets;
    MeetsSame(Plus(G, base, p), bit, property, bit0, property0, p, k);
    PlusBlock(G, base, p, k);
    var x: nat :| x < |bit| && x !in With(Plus(G, base, p), p, k) && bit[x] && Covers(lists, x);
    assert bit0[x] && !Within(x, base, end);
  }

  /** A listed block spans a page that is not free. */
  ghost predicate Spanned(lists: seq<seq<nat>>, F: iset<nat>) {
    exists x: nat :: x !in F && Covers(lists, x)
  }

  lemma SpannedNotExact(lists: seq<seq<nat>>, F: iset<nat>)
    requires Spanned(lists, F)
    ensures !Canonical(lists, F, TOP)
  {
    hide Canonical;
    hide Covers;
    var x: nat :| x !in F && Covers(lists, x);
    if Canonical(lists, F, TOP) { ExactCovers(lists, F, x); }
  }

  lemma NoMoreTiles(p: nat)
    ensures Tiles(p, 0) == []
  {}

  /** The first tile of what is left, and the pages it needs. */
  lemma TileFacts(G: iset<nat>, base: nat, p: nat, n: nat, k: nat)
    requires n > 0 && base <= p && k == GreedyFrom(p, n, 0)
    requires NoneIn(G, base, p + n)
    ensures k <= TOP && Pow2(k) <= n && Start(p, k) == p
    ensures Tiles(p, n) == [(p, k)] + Tiles(p + Pow2(k), n - Pow2(k))
    ensures NoneIn(G, p, p + Pow2(k))
  {
    hide Start;
    hide Pow2;
    forall x: nat | Within(x, p, p + Pow2(k))
      ensures x !in G
    {
      assert Within(x, base, p + n);
    }
  }

  lemma ReleaseFacts(free: set<nat>, base: nat, n: nat)
    requires forall p: nat :: Within(p, base, base + n) ==> p !in free
    ensures Pages(free + Interval(base, n)) == Plus(Pages(free), base, base + n)
    ensures Plus(Pages(free), base, base) == Pages(free) && NoneIn(Pages(free), base, base + n)
    ensures |free + Interval(base, n)| == |free| + n
  {
    var block := Interval(base, n);
    assert forall x: nat :: x in block <==> Within(x, base, base + n);
    DisjointUnion(free, block);
  }

  // ---- the initial tiling ----

  /** No aligned block inside [base, end) has `page` strictly inside it. */
  ghost predicate NoStraddle(base: nat, end: nat, page: nat) {
    forall j: nat :: j <= TOP ==> Start(page, j) == page || Start(page, j) < base || Start(page, j) + Pow2(j) > end
  }

  lemma NoStraddleFirst(base: nat, end: nat)
    ensures NoStraddle(base, end, base)
  {
    forall j: nat
      ensures Start(base, j) <= base
    {
      StartBounds(base, j);
    }
  }

  /** A greedy step ends where again no block of the range straddles. */
  lemma NoStraddleNext(base: nat, end: nat, page: nat, k: nat)
    requires NoStraddle(base, end, page) && base <= page < end && Greedy(page, end - page, k)
    ensures NoStraddle(base, end, page + Pow2(k))
  {
    forall j: nat | j <= TOP
      ensures var next := page + Pow2(k);
        Start(next, j) == next || Start(next, j) < base || Start(next, j) + Pow2(j) > end
    {
      StraddleStep(base, end, page, k, j);
    }
  }

  lemma StraddleStep(base: nat, end: nat, page: nat, k: nat, j: nat)
    requires NoStraddle(base, end, page) && base <= page < end && Greedy(page, end - page, k) && j <= TOP
    ensures var next := page + Pow2(k);
      Start(next, j) == next || Start(next, j) < base || Start(next, j) + Pow2(j) > end
  {
    hide Start;
    hide Pow2;
    var next := page + Pow2(k);
    var B := Start(next, j);
    StartBounds(next, j);
    StartAdd(page, k);
    if j <= k {
      AlignedDown(next, j, k);
    } else if base <= B < next && B + Pow2(j) <= end {
      ParentAligned(next, j);
      AlignedDown(B, k, j);
      if page < B {
        StartBounds(page, k);
        StartUnique(B, page, k);
        assert false;
      }
      StartUnique(page, B, j);
      if B == page {
        AlignedDown(page, k + 1, j);
        Pow2Mono(k + 1, j);
        assert false;
      }
    }
  }

  /** The next tile is maximal among the pages laid out so far and itself. */
  lemma NextTile(base: nat, end: nat, page: nat, k: nat)
    requires NoStraddle(base, end, page) && base <= page < end && Greedy(page, end - page, k)
    ensures k == TOP || !FreeBlock(Plus(iset{}, base, page), BuddyOf(page, k), k)
  {
    hide Start;
    hide Pow2;
    if k < TOP {
      var q := BuddyOf(page, k);
      BuddyFacts(page, k);
      ParentAligned(page, k + 1);
      Halves(Start(page, k + 1), k);
      assert q in Plus(iset{}, base, page) ==> Within(q, base, page);
      Doubling(k);
    }
  }

  /** Laying out a tile keeps the earlier tiles maximal. */
  lemma TilesStayMax(done: seq<(nat, nat)>, G: iset<nat>, page: nat, k: nat)
    requires forall t :: t in done ==> MaxBlock(G, TOP, t.0, t.1)
    requires k <= TOP && UsedBlock(G, page, k) && (k == TOP || !FreeBlock(G, BuddyOf(page, k), k))
    ensures forall t :: t in done + [(page, k)] ==> MaxBlock(With(G, page, k), TOP, t.0, t.1)
  {
    hide Start;
    hide MaxBlock;
    PutMax(G, TOP, page, k);
  }

  lemma EmptyListed(lists: seq<seq<nat>>, bit: seq<bool>, property: seq<nat>, base: nat)
    requires |lists| == TOP + 1 && forall k :: 0 <= k <= TOP ==> lists[k] == []
    requires |bit| == |property| && forall p :: 0 <= p < |bit| ==> !bit[p]
    ensures var G := Plus(iset{}, base, base);
      Canonical(lists, G, TOP) && HeadsMarked(G, bit, property) && Accurate(G, bit)
  {
    hide Start;
    var G := Plus(iset{}, base, base);
    forall i: nat, k: nat
      ensures !MaxBlock(G, TOP, i, k)
    {
      if MaxBlock(G, TOP, i, k) {
        MaxFacts(G, i, k);
        InOwnBlock(G, i, k);
      }
    }
  }

  lemma IntervalPages(base: nat, n: nat)
    ensures Pages(Interval(base, n)) == Plus(iset{}, base, base + n)
  {
    var block := Interval(base, n);
    assert forall x: nat :: x in block <==> Within(x, base, base + n);
  }
}
