/** The aligned power-of-two blocks of a set of free pages. Both buddy allocators keep, for each
    order, a list of exactly the maximal ones; this module says what those are and how they change
    when pages are taken or given back. */
module FreeBlocks {
  import opened Bits
  import opened Lists
  import opened Ranges
  import opened Sets

  /** The block of order o at i is aligned and every page of it is in F. */
  ghost predicate FreeBlock(F: iset<nat>, i: nat, o: nat) {
    Start(i, o) == i && forall p: nat :: Start(p, o) == i ==> p in F
  }

  /** A free block of order at most M whose enclosing block is not free too (or is above the cap). */
  ghost predicate MaxBlock(F: iset<nat>, M: nat, i: nat, o: nat) {
    o <= M && FreeBlock(F, i, o) && (o == M || !FreeBlock(F, Start(i, o + 1), o + 1))
  }

  /** The pages of F without those of one block, and with them. */
  ghost function Without(F: iset<nat>, i: nat, o: nat): iset<nat> {
    iset p | p in F && Start(p, o) != i
  }

  ghost function With(F: iset<nat>, i: nat, o: nat): iset<nat> {
    iset p: nat | p in F || Start(p, o) == i
  }

  /** Per-order lists that hold exactly the maximal free blocks, each once. */
  ghost predicate Canonical(lists: seq<seq<nat>>, F: iset<nat>, M: nat) {
    && |lists| == M + 1
    && (forall o :: 0 <= o <= M ==> NoDup(lists[o]))
    && (forall o, i :: 0 <= o <= M ==> (i in lists[o] <==> MaxBlock(F, M, i, o)))
  }

  lemma InOwnBlock(F: iset<nat>, i: nat, o: nat)
    requires FreeBlock(F, i, o)
    ensures i in F
  {}

  /** A block inside a free block is free. */
  lemma SubBlockFree(F: iset<nat>, i: nat, o: nat, j: nat, k: nat)
    requires FreeBlock(F, i, o) && k <= o && Start(j, k) == j && Start(j, o) == i
    ensures FreeBlock(F, j, k)
  {
    forall p: nat | Start(p, k) == j
      ensures p in F
    {
      StartNest(p, k, o);
    }
  }

  /** The enclosing block of a sub-block of a block is that block. */
  lemma ParentAligned(i: nat, o: nat)
    ensures Start(Start(i, o), o) == Start(i, o)
  {
    StartNest(i, o, o);
  }

  /** A free block that meets a maximal one is inside it. */
  lemma MaxAbsorbs(F: iset<nat>, M: nat, i: nat, o: nat, j: nat, k: nat, p: nat)
    requires MaxBlock(F, M, i, o) && FreeBlock(F, j, k) && k <= M
    requires Start(p, o) == i && Start(p, k) == j
    ensures k <= o && Start(j, o) == i
  {
    if k > o {
      var q := Start(i, o + 1);
      StartNest(p, o, o + 1);
      StartNest(p, o + 1, k);
      ParentAligned(i, o + 1);
      SubBlockFree(F, j, k, q, o + 1);
      assert false;
    } else {
      StartNest(p, k, o);
    }
  }

  /** Two maximal blocks that meet are the same block. */
  lemma MaxDisjoint(F: iset<nat>, M: nat, i: nat, o: nat, j: nat, k: nat, p: nat)
    requires MaxBlock(F, M, i, o) && MaxBlock(F, M, j, k)
    requires Start(p, o) == i && Start(p, k) == j
    ensures i == j && o == k
  {
    MaxAbsorbs(F, M, i, o, j, k, p);
    MaxAbsorbs(F, M, j, k, i, o, p);
  }

  /** Every free block of order at most M lies in a maximal one. */
  lemma {:induction false} MaxExists(F: iset<nat>, M: nat, i: nat, o: nat) returns (k: nat)
    requires o <= M && FreeBlock(F, i, o)
    ensures o <= k <= M && MaxBlock(F, M, Start(i, k), k)
    decreases M - o
  {
    if MaxBlock(F, M, i, o) {
      k := o;
    } else {
      k := MaxExists(F, M, Start(i, o + 1), o + 1);
      StartNest(i, o + 1, k);
    }
  }

  /** A single free page is a free block of order 0. */
  lemma PageIsBlock(F: iset<nat>, p: nat)
    requires p in F
    ensures FreeBlock(F, p, 0)
  {}

  /** The half of the parent block that is not b. */
  ghost function BuddyOf(b: nat, o: nat): nat
    requires Start(b, o) == b
  {
    if Start(b, o + 1) == b then b + Pow2(o) else Start(b, o + 1)
  }

  lemma BuddyFacts(b: nat, o: nat)
    requires Start(b, o) == b
    ensures Start(BuddyOf(b, o), o) == BuddyOf(b, o) != b
    ensures Start(BuddyOf(b, o), o + 1) == Start(b, o + 1)
    ensures Start(b, o + 1) == if BuddyOf(b, o) < b then BuddyOf(b, o) else b
    ensures forall p: nat :: Start(p, o + 1) == Start(b, o + 1) ==> Start(p, o) == b || Start(p, o) == BuddyOf(b, o)
  {
    ParentAligned(b, o + 1);
    Halves(Start(b, o + 1), o);
    StartBounds(b, o + 1);
    StartBounds(b, o);
  }

  /** The block of order o at b is aligned and no page of it is in G. */
  ghost predicate UsedBlock(G: iset<nat>, b: nat, o: nat) {
    Start(b, o) == b && forall p: nat :: Start(p, o) == b ==> p !in G
  }

  /** A used block whose buddy is not free becomes maximal when it is given back. */
  lemma PutIsMax(G: iset<nat>, M: nat, b: nat, o: nat)
    requires o <= M && UsedBlock(G, b, o) && (o == M || !FreeBlock(G, BuddyOf(b, o), o))
    ensures MaxBlock(With(G, b, o), M, b, o)
  {
    var F, P := With(G, b, o), Start(b, o + 1);
    if o < M && FreeBlock(F, P, o + 1) {
      var q := BuddyOf(b, o);
      BuddyFacts(b, o);
      forall p: nat | Start(p, o) == q
        ensures p in G
      {
        StartNest(p, o, o + 1);
      }
      assert false;
    }
  }

  /** Giving it back changes no other maximal block. */
  lemma PutMax(G: iset<nat>, M: nat, b: nat, o: nat)
    requires o <= M && UsedBlock(G, b, o) && (o == M || !FreeBlock(G, BuddyOf(b, o), o))
    ensures forall i: nat, k: nat :: MaxBlock(With(G, b, o), M, i, k) <==> (i == b && k == o) || MaxBlock(G, M, i, k)
  {
    PutIsMax(G, M, b, o);
    forall i: nat, k: nat
      ensures MaxBlock(With(G, b, o), M, i, k) <==> (i == b && k == o) || MaxBlock(G, M, i, k)
    {
      PutOne(G, M, b, o, i, k);
    }
  }

  lemma PutOne(G: iset<nat>, M: nat, b: nat, o: nat, i: nat, k: nat)
    requires UsedBlock(G, b, o) && MaxBlock(With(G, b, o), M, b, o)
    ensures MaxBlock(With(G, b, o), M, i, k) <==> (i == b && k == o) || MaxBlock(G, M, i, k)
  {
    var F := With(G, b, o);
    if MaxBlock(F, M, i, k) && !(i == b && k == o) {
      MaxApart(F, M, b, o, i, k);
    }
    if MaxBlock(G, M, i, k) && !MaxBlock(F, M, i, k) {
      var P := Start(i, k + 1);
      ParentAligned(i, k + 1);
      var p: nat :| Start(p, k + 1) == P && p !in G;
      MaxAbsorbs(F, M, b, o, P, k + 1, p);
      StartNest(i, k + 1, o);
      assert false;
    }
  }

  /** Taking a maximal block changes no other maximal block. */
  lemma TakeMax(F: iset<nat>, M: nat, b: nat, o: nat)
    requires MaxBlock(F, M, b, o)
    ensures forall i: nat, k: nat ::
      MaxBlock(Without(F, b, o), M, i, k) <==> MaxBlock(F, M, i, k) && !(i == b && k == o)
  {
    var G := Without(F, b, o);
    assert With(G, b, o) == F;
    if o < M && FreeBlock(G, BuddyOf(b, o), o) {
      BuddyFacts(b, o);
      assert false;
    }
    PutMax(G, M, b, o);
    assert forall k: nat :: MaxBlock(G, M, b, k) ==> Start(b, k) == b;
  }

  lemma SplitHalves(F: iset<nat>, b: nat, o: nat)
    requires FreeBlock(F, b, o + 1)
    ensures Start(b + Pow2(o), o) == b + Pow2(o)
    ensures UsedBlock(Without(F, b, o + 1), b + Pow2(o), o)
    ensures With(Without(F, b, o + 1), b + Pow2(o), o) == Without(F, b, o)
  {
    Halves(b, o);
    BuddyFacts(b, o);
    forall p: nat
      ensures Start(p, o + 1) == Start(Start(p, o), o + 1)
    {
      StartNest(p, o, o + 1);
    }
  }

  /** Distinct maximal blocks have no page in common. */
  lemma MaxApart(F: iset<nat>, M: nat, b: nat, o: nat, i: nat, k: nat)
    requires MaxBlock(F, M, b, o) && MaxBlock(F, M, i, k) && !(i == b && k == o)
    ensures Start(i, o) != b
    ensures forall p: nat :: Start(p, k) == i ==> Start(p, o) != b
  {
    forall p: nat | Start(p, k) == i
      ensures Start(p, o) != b
    {
      if Start(p, o) == b { MaxDisjoint(F, M, b, o, i, k, p); }
    }
  }

  /** A free buddy of a used block is maximal. */
  lemma FreeBuddyIsMax(G: iset<nat>, M: nat, b: nat, o: nat)
    requires o < M && UsedBlock(G, b, o) && FreeBlock(G, BuddyOf(b, o), o)
    ensures MaxBlock(G, M, BuddyOf(b, o), o)
  {
    BuddyFacts(b, o);
    assert b !in G;
  }

  /** A free page at the buddy of a used block heads its maximal block. */
  lemma FreeBuddyHead(G: iset<nat>, M: nat, b: nat, o: nat, q: nat) returns (k: nat)
    requires b !in G && o < M && Start(b, o + 1) == Start(q, o + 1) && Start(q, o) == q && q in G
    ensures k <= o && MaxBlock(G, M, q, k)
  {
    PageIsBlock(G, q);
    k := MaxExists(G, M, q, 0);
    if k > o {
      StartNest(q, o + 1, k);
      StartNest(b, o + 1, k);
      assert false;
    }
    AlignedDown(q, k, o);
  }

  /** A free block and its free buddy make a free block of the next order. */
  lemma JoinHalves(F: iset<nat>, b: nat, o: nat)
    requires FreeBlock(F, b, o) && FreeBlock(F, BuddyOf(b, o), o)
    ensures FreeBlock(F, Start(b, o + 1), o + 1)
    ensures Without(Without(F, b, o), BuddyOf(b, o), o) == Without(F, Start(b, o + 1), o + 1)
  {
    var q := BuddyOf(b, o);
    BuddyFacts(b, o);
    ParentAligned(b, o + 1);
    forall p: nat
      ensures Start(p, o + 1) == Start(b, o + 1) <==> Start(p, o) == b || Start(p, o) == q
    {
      StartNest(p, o, o + 1);
    }
  }

  lemma InHandIsUsed(F: iset<nat>, b: nat, o: nat)
    requires FreeBlock(F, b, o)
    ensures UsedBlock(Without(F, b, o), b, o) && With(Without(F, b, o), b, o) == F
  {}

  // ---- the lists that follow ----

  /** Pushing a used block whose buddy is not free keeps the lists canonical. */
  lemma CanonicalPut(lists: seq<seq<nat>>, G: iset<nat>, M: nat, b: nat, o: nat)
    requires Canonical(lists, G, M) && o <= M && UsedBlock(G, b, o)
    requires o == M || !FreeBlock(G, BuddyOf(b, o), o)
    ensures Canonical(lists[o := [b] + lists[o]], With(G, b, o), M)
  {
    PutMax(G, M, b, o);
    assert b !in lists[o] by { assert Start(b, o) == b; }
    PushEffect(lists[o], b);
  }

  /** Deleting a listed block keeps the lists canonical. */
  lemma CanonicalTake(lists: seq<seq<nat>>, F: iset<nat>, M: nat, b: nat, o: nat)
    requires Canonical(lists, F, M) && MaxBlock(F, M, b, o)
    ensures Canonical(lists[o := Delete(lists[o], b)], Without(F, b, o), M)
  {
    TakeMax(F, M, b, o);
    DeleteEffect(lists[o], b);
  }

  /** Pushing the upper half of a block in use, while its lower half stays in use. */
  lemma CanonicalSplit(lists: seq<seq<nat>>, F: iset<nat>, M: nat, b: nat, o: nat)
    requires Canonical(lists, Without(F, b, o + 1), M) && o < M && FreeBlock(F, b, o + 1)
    ensures Canonical(lists[o := [b + Pow2(o)] + lists[o]], Without(F, b, o), M)
    ensures FreeBlock(F, b, o)
  {
    var G, h := Without(F, b, o + 1), b + Pow2(o);
    Halves(b, o);
    SplitHalves(F, b, o);
    BuddyFacts(h, o);
    StartNest(b, o, o + 1);
    assert b !in G;
    CanonicalPut(lists, G, M, h, o);
    SubBlockFree(F, b, o + 1, b, o);
  }

  /** The lists depend only on which pages are free, up to the order of their entries. */
  lemma ListsDependOnPages(l1: seq<seq<nat>>, l2: seq<seq<nat>>, F: iset<nat>, M: nat, o: nat)
    requires Canonical(l1, F, M) && Canonical(l2, F, M) && o <= M
    ensures multiset(l1[o]) == multiset(l2[o])
  {
    SameElements(l1[o], l2[o]);
  }

  // ---- counting pages ----

  /** The number of pages on the lists of order o and above. */
  function PagesFrom(lists: seq<seq<nat>>, o: nat): nat
    decreases |lists| - o
  {
    if o >= |lists| then 0 else |lists[o]| * Pow2(o) + PagesFrom(lists, o + 1)
  }

  lemma BlockIsInterval(i: nat, o: nat)
    requires Start(i, o) == i
    ensures forall p: nat :: Start(p, o) == i <==> p in Interval(i, Pow2(o))
  {
    forall p: nat
      ensures Start(p, o) == i <==> p in Interval(i, Pow2(o))
    {
      StartBounds(p, o);
      if p in Interval(i, Pow2(o)) { StartUnique(p, i, o); }
    }
  }

  /** The pages of the blocks of order o on a list. */
  ghost function ListPages(s: seq<nat>, o: nat): set<nat> {
    if s == [] then {} else Interval(s[0], Pow2(o)) + ListPages(s[1..], o)
  }

  lemma {:induction false} ListPagesIn(s: seq<nat>, o: nat, p: nat)
    requires forall i :: i in s ==> Start(i, o) == i
    ensures p in ListPages(s, o) <==> Start(p, o) in s
  {
    if s != [] {
      assert s == [s[0]] + s[1..];
      BlockIsInterval(s[0], o);
      ListPagesIn(s[1..], o, p);
    }
  }

  lemma MulStep(n: nat, m: nat)
    requires n > 0
    ensures n * m == (n - 1) * m + m
  {}

  lemma {:induction false} ListPagesSize(s: seq<nat>, o: nat)
    requires NoDup(s) && forall i :: i in s ==> Start(i, o) == i
    ensures |ListPages(s, o)| == |s| * Pow2(o)
  {
    if s != [] {
      var A, B := Interval(s[0], Pow2(o)), ListPages(s[1..], o);
      ListPagesSize(s[1..], o);
      assert s == [s[0]] + s[1..];
      forall p | p in A
        ensures p !in B
      {
        BlockIsInterval(s[0], o);
        ListPagesIn(s[1..], o, p);
      }
      DisjointUnion(A, B);
      MulStep(|s|, Pow2(o));
    }
  }

  /** The pages of the blocks on the list of order o. */
  lemma OrderPages(lists: seq<seq<nat>>, F: iset<nat>, M: nat, o: nat) returns (L: set<nat>)
    requires Canonical(lists, F, M) && o <= M
    ensures |L| == |lists[o]| * Pow2(o)
    ensures forall p: nat :: p in L <==> MaxBlock(F, M, Start(p, o), o)
  {
    L := ListPages(lists[o], o);
    ListPagesSize(lists[o], o);
    forall p: nat
      ensures p in L <==> MaxBlock(F, M, Start(p, o), o)
    {
      ListPagesIn(lists[o], o, p);
    }
  }

  /** The pages of F whose maximal block has order o or above. */
  ghost predicate InMaxFrom(F: iset<nat>, M: nat, o: nat, p: nat) {
    exists k: nat :: o <= k <= M && MaxBlock(F, M, Start(p, k), k)
  }

  lemma InMaxStep(F: iset<nat>, M: nat, o: nat, p: nat)
    requires o <= M
    ensures InMaxFrom(F, M, o, p) <==> MaxBlock(F, M, Start(p, o), o) || InMaxFrom(F, M, o + 1, p)
    ensures !(MaxBlock(F, M, Start(p, o), o) && InMaxFrom(F, M, o + 1, p))
  {
    if InMaxFrom(F, M, o + 1, p) {
      var k: nat :| o + 1 <= k <= M && MaxBlock(F, M, Start(p, k), k);
      if MaxBlock(F, M, Start(p, o), o) { MaxDisjoint(F, M, Start(p, k), k, Start(p, o), o, p); }
    }
  }

  lemma UnionStep(F: iset<nat>, M: nat, o: nat, T: set<nat>, L: set<nat>)
    requires o <= M && forall p: nat :: p in T <==> InMaxFrom(F, M, o + 1, p)
    requires forall p: nat :: p in L <==> MaxBlock(F, M, Start(p, o), o)
    ensures T !! L && forall p: nat :: p in T + L <==> InMaxFrom(F, M, o, p)
  {
    forall p: nat
      ensures !(p in T && p in L) && (p in T + L <==> InMaxFrom(F, M, o, p))
    {
      InMaxStep(F, M, o, p);
    }
  }

  lemma {:induction false} PagesFromCounts(lists: seq<seq<nat>>, F: iset<nat>, M: nat, o: nat) returns (S: set<nat>)
    requires Canonical(lists, F, M) && o <= M + 1
    ensures forall p: nat :: p in S <==> InMaxFrom(F, M, o, p)
    ensures PagesFrom(lists, o) == |S|
    decreases M + 1 - o
  {
    if o > M {
      S := {};
    } else {
      var T := PagesFromCounts(lists, F, M, o + 1);
      var L := OrderPages(lists, F, M, o);
      assert PagesFrom(lists, o) == |L| + |T|;
      UnionStep(F, M, o, T, L);
      DisjointUnion(T, L);
      S := T + L;
    }
  }

  /** The sizes of the listed blocks add up to the number of free pages. */
  lemma CountsFreePages(lists: seq<seq<nat>>, F: iset<nat>, M: nat, S: set<nat>)
    requires Canonical(lists, F, M) && forall p: nat :: p in S <==> p in F
    ensures PagesFrom(lists, 0) == |S|
  {
    var T := PagesFromCounts(lists, F, M, 0);
    forall p: nat
      ensures p in T <==> p in F
    {
      if p in F {
        PageIsBlock(F, p);
        var k := MaxExists(F, M, p, 0);
        assert InMaxFrom(F, M, 0, p);
      }
      if p in T {
        var k: nat :| 0 <= k <= M && MaxBlock(F, M, Start(p, k), k);
      }
    }
    assert S == T;
  }
}
