/** The best-fit list allocator: an address-ordered circular list of free blocks, coalesced on both sides
    when pages are released. The tail case of the insertion loop lacks a break; the model keeps it. */
module BestFit {
  import opened Lists
  import opened LinkedList
  import opened Options
  import opened Ranges
  import opened Sets

  // ---- blocks as values ----

  /** The block at position i of the list. */
  ghost predicate InBlock(L: seq<nat>, size: seq<nat>, i: nat, p: nat) {
    i < |L| && L[i] < |size| && L[i] <= p < L[i] + size[L[i]]
  }

  ghost predicate Covered(L: seq<nat>, size: seq<nat>, p: nat) {
    exists i: nat :: InBlock(L, size, i, p)
  }

  /** The blocks are not empty, in address order, disjoint, inside the array, and hold exactly the pages F. */
  ghost predicate Blocks(F: set<nat>, L: seq<nat>, size: seq<nat>) {
    && (forall i :: 0 <= i < |L| ==> L[i] < |size| && size[L[i]] > 0 && L[i] + size[L[i]] <= |size|)
    && (forall i, j :: 0 <= i < j < |L| ==> L[i] + size[L[i]] <= L[j])
    && (forall p: nat :: p in F <==> Covered(L, size, p))
  }

  /** PG_property is set on exactly the heads of the blocks. */
  ghost predicate Marked(L: seq<nat>, bit: seq<bool>) {
    forall p: nat :: p < |bit| ==> (bit[p] <==> p in L)
  }

  /** No two neighbouring blocks touch. */
  ghost predicate Apart(L: seq<nat>, size: seq<nat>) {
    forall j :: 0 < j < |L| && L[j - 1] < |size| ==> L[j - 1] + size[L[j - 1]] < L[j]
  }

  /** The pages from h up to e are a maximal run of F. */
  ghost predicate MaxRun(F: set<nat>, h: nat, e: nat) {
    h < e && (forall p :: h <= p < e ==> p in F) && e !in F && (h > 0 ==> h - 1 !in F)
  }

  lemma BlocksNoDup(F: set<nat>, L: seq<nat>, size: seq<nat>)
    requires Blocks(F, L, size)
    ensures NoDup(L) && Below(L, |size|)
  {}

  /** Blocks that do not touch are exactly the maximal runs of free pages. */
  lemma BlocksAreRuns(F: set<nat>, L: seq<nat>, size: seq<nat>)
    requires Blocks(F, L, size) && Apart(L, size)
    ensures forall i :: 0 <= i < |L| ==> MaxRun(F, L[i], L[i] + size[L[i]])
    ensures forall h: nat, e: nat :: MaxRun(F, h, e) ==> h in L && e == h + size[h]
  {
    forall i | 0 <= i < |L|
      ensures MaxRun(F, L[i], L[i] + size[L[i]])
    {
      BlockIsRun(F, L, size, i);
    }
    forall h: nat, e: nat | MaxRun(F, h, e)
      ensures h in L && e == h + size[h]
    {
      RunIsBlock(F, L, size, h, e);
    }
  }

  lemma BlockIsRun(F: set<nat>, L: seq<nat>, size: seq<nat>, i: nat)
    requires Blocks(F, L, size) && Apart(L, size) && i < |L|
    ensures MaxRun(F, L[i], L[i] + size[L[i]])
  {
    var h, e := L[i], L[i] + size[L[i]];
    forall p: nat | h <= p < e
      ensures p in F
    {
      assert InBlock(L, size, i, p) && Covered(L, size, p);
    }
    forall j: nat
      ensures !InBlock(L, size, j, e)
    {
      if j < |L| { EdgesFree(L, size, i, j); }
    }
    assert !Covered(L, size, e);
    if h > 0 {
      var g: nat := h - 1;
      forall j: nat
        ensures !InBlock(L, size, j, g)
      {
        if j < |L| { EdgesFree(L, size, i, j); }
      }
      assert !Covered(L, size, g);
    }
  }

  /** Neither edge of block i lies in block j. */
  lemma EdgesFree(L: seq<nat>, size: seq<nat>, i: nat, j: nat)
    requires i < |L| && j < |L| && Apart(L, size)
    requires forall x :: 0 <= x < |L| ==> L[x] < |size| && size[L[x]] > 0 && L[x] + size[L[x]] <= |size|
    requires forall x, y :: 0 <= x < y < |L| ==> L[x] + size[L[x]] <= L[y]
    ensures !InBlock(L, size, j, L[i] + size[L[i]]) && (L[i] > 0 ==> !InBlock(L, size, j, L[i] - 1))
  {
    assert L[j] < |size| && L[i] < |size|;
    if i < j {
      assert L[i] + size[L[i]] < L[i + 1];
      assert i + 1 < j ==> L[i + 1] + size[L[i + 1]] <= L[j];
    } else if j < i {
      assert L[i - 1] + size[L[i - 1]] < L[i];
      assert j < i - 1 ==> L[j] + size[L[j]] <= L[i - 1];
    }
  }

  lemma RunIsBlock(F: set<nat>, L: seq<nat>, size: seq<nat>, h: nat, e: nat)
    requires Blocks(F, L, size) && Apart(L, size) && MaxRun(F, h, e)
    ensures h in L && h < |size| && e == h + size[h]
  {
    assert h in F;
    var i: nat :| InBlock(L, size, i, h);
    BlockIsRun(F, L, size, i);
    var b, c := L[i], L[i] + size[L[i]];
    assert b < h ==> h - 1 in F;
    assert c < e ==> c in F;
    assert e < c ==> e in F;
  }

  lemma BlockPage(F: set<nat>, L: seq<nat>, size: seq<nat>, i: nat, p: nat)
    requires Blocks(F, L, size) && i < |L| && L[i] <= p < L[i] + size[L[i]]
    ensures p in F
  {
    assert InBlock(L, size, i, p);
  }

  /** Where unused pages lie among the blocks. */
  lemma InsertPlace(F: set<nat>, L: seq<nat>, size: seq<nat>, k: nat, base: nat, n: nat, i: nat)
    requires Blocks(F, L, size) && k <= |L| && n > 0 && i < |L|
    requires forall p: nat :: base <= p < base + n ==> p !in F
    requires (forall i :: 0 <= i < k ==> L[i] < base) && (forall i :: k <= i < |L| ==> base < L[i])
    ensures L[i] != base && (i < k ==> L[i] + size[L[i]] <= base) && (k <= i ==> base + n <= L[i])
  {
    assert base !in F;
    if i < k {
      if base < L[i] + size[L[i]] { BlockPage(F, L, size, i, base); }
    } else {
      BlockPage(F, L, size, i, L[i]);
    }
  }

  /** Putting a block of unused pages in its place in the list. */
  lemma InsertBlock(F: set<nat>, L: seq<nat>, size: seq<nat>, k: nat, base: nat, n: nat, range: set<nat>)
    requires Blocks(F, L, size) && k <= |L| && n > 0 && base + n <= |size|
    requires forall p: nat :: p in range <==> base <= p < base + n
    requires forall p: nat :: base <= p < base + n ==> p !in F
    requires (forall i :: 0 <= i < k ==> L[i] < base) && (forall i :: k <= i < |L| ==> base < L[i])
    ensures Blocks(F + range, Inserted(L, k, base), size[base := n])
    ensures base !in L
  {
    var M, size' := Inserted(L, k, base), size[base := n];
    forall i | 0 <= i < |L|
      ensures L[i] != base && (i < k ==> L[i] + size[L[i]] <= base) && (k <= i ==> base + n <= L[i])
    {
      InsertPlace(F, L, size, k, base, n, i);
    }
    forall i | 0 <= i < |M|
      ensures M[i] == if i < k then L[i] else if i == k then base else L[i - 1]
    {}
    forall p: nat
      ensures p in F + range <==> Covered(M, size', p)
    {
      InsertCover(F, L, size, k, base, n, range, p);
    }
  }

  lemma InsertCover(F: set<nat>, L: seq<nat>, size: seq<nat>, k: nat, base: nat, n: nat, range: set<nat>, p: nat)
    requires k <= |L| && base < |size| && forall i :: 0 <= i < |L| ==> L[i] != base
    requires p in F <==> Covered(L, size, p)
    requires p in range <==> base <= p < base + n
    ensures p in F + range <==> Covered(Inserted(L, k, base), size[base := n], p)
  {
    var M, size' := Inserted(L, k, base), size[base := n];
    if p in F {
      var i: nat :| InBlock(L, size, i, p);
      assert InBlock(M, size', if i < k then i else i + 1, p);
    }
    if p in range { assert InBlock(M, size', k, p); }
    if i: nat :| InBlock(M, size', i, p) {
      if i != k { assert InBlock(L, size, if i < k then i else i - 1, p); }
    }
  }

  /** The order of two blocks after the merge. */
  lemma MergeOrder(L: seq<nat>, size: seq<nat>, i: nat, x: nat, y: nat)
    requires i + 1 < |L| && x < y < |L| - 1
    requires forall j :: 0 <= j < |L| ==> L[j] < |size| && size[L[j]] > 0 && L[j] + size[L[j]] <= |size|
    requires forall j, k :: 0 <= j < k < |L| ==> L[j] + size[L[j]] <= L[k]
    requires L[i] + size[L[i]] == L[i + 1]
    ensures var M, size' := Deleted(L, i + 1), size[L[i] := size[L[i]] + size[L[i + 1]]];
      M[x] < |size'| && M[x] + size'[M[x]] <= M[y]
  {
    var u, v := if x <= i then x else x + 1, if y <= i then y else y + 1;
    assert L[u] + size[L[u]] <= L[v];
    if u == i {
      assert L[i + 1] + size[L[i + 1]] <= L[v];
    } else {
      assert L[u] != L[i];
    }
  }

  /** Merging a block with the one right after it. */
  lemma MergeBlocks(F: set<nat>, L: seq<nat>, size: seq<nat>, i: nat)
    requires Blocks(F, L, size) && i + 1 < |L| && L[i] + size[L[i]] == L[i + 1]
    ensures Blocks(F, Deleted(L, i + 1), size[L[i] := size[L[i]] + size[L[i + 1]]])
  {
    hide Covered;
    var M, size' := Deleted(L, i + 1), size[L[i] := size[L[i]] + size[L[i + 1]]];
    forall j | 0 <= j < |M|
      ensures M[j] < |size'| && size'[M[j]] > 0 && M[j] + size'[M[j]] <= |size'|
    {
      assert M[j] == if j <= i then L[j] else L[j + 1];
    }
    forall x, y | 0 <= x < y < |M|
      ensures M[x] + size'[M[x]] <= M[y]
    {
      MergeOrder(L, size, i, x, y);
    }
    forall p: nat
      ensures p in F <==> Covered(M, size', p)
    {
      MergeCover(F, L, size, i, p);
    }
  }

  lemma MergeCover(F: set<nat>, L: seq<nat>, size: seq<nat>, i: nat, p: nat)
    requires i + 1 < |L| && L[i] < |size| && L[i + 1] < |size| && L[i] + size[L[i]] == L[i + 1]
    requires forall j :: 0 <= j < |L| && j != i ==> L[j] != L[i]
    requires p in F <==> Covered(L, size, p)
    ensures p in F <==> Covered(Deleted(L, i + 1), size[L[i] := size[L[i]] + size[L[i + 1]]], p)
  {
    var M, size' := Deleted(L, i + 1), size[L[i] := size[L[i]] + size[L[i + 1]]];
    if p in F {
      var j: nat :| InBlock(L, size, j, p);
      assert InBlock(M, size', if j <= i then j else j - 1, p);
    }
    if j: nat :| InBlock(M, size', j, p) {
      if j == i {
        assert InBlock(L, size, i, p) || InBlock(L, size, i + 1, p);
      } else {
        assert InBlock(L, size, if j < i then j else j + 1, p);
      }
    }
  }

  /** Cutting n pages off the front of a block. */
  lemma CutBlock(F: set<nat>, L: seq<nat>, size: seq<nat>, k: nat, n: nat, range: set<nat>)
    requires Blocks(F, L, size) && k < |L| && 0 < n < size[L[k]]
    requires forall p: nat :: p in range <==> L[k] <= p < L[k] + n
    ensures L[k] + n < |size|
    ensures Blocks(F - range, L[k := L[k] + n], size[L[k] + n := size[L[k]] - n])
  {
    var M, size' := L[k := L[k] + n], size[L[k] + n := size[L[k]] - n];
    forall i | 0 <= i < |L|
      ensures L[i] != L[k] + n
    {}
    forall p: nat
      ensures p in F - range <==> Covered(M, size', p)
    {
      if p in F - range {
        var i: nat :| InBlock(L, size, i, p);
        assert InBlock(M, size', i, p);
      }
      if i: nat :| InBlock(M, size', i, p) {
        assert InBlock(L, size, i, p);
      }
    }
  }

  /** Taking a whole block. */
  lemma TakeBlock(F: set<nat>, L: seq<nat>, size: seq<nat>, k: nat, range: set<nat>)
    requires Blocks(F, L, size) && k < |L|
    requires forall p: nat :: p in range <==> L[k] <= p < L[k] + size[L[k]]
    ensures Blocks(F - range, Deleted(L, k), size)
  {
    var M := Deleted(L, k);
    assert forall i :: 0 <= i < |M| ==> M[i] == L[if i < k then i else i + 1];
    hide Deleted;
    forall p: nat
      ensures p in F - range <==> Covered(M, size, p)
    {
      TakeCover(F, L, size, k, range, p);
    }
  }

  lemma TakeCover(F: set<nat>, L: seq<nat>, size: seq<nat>, k: nat, range: set<nat>, p: nat)
    requires Blocks(F, L, size) && k < |L|
    requires p in range <==> L[k] <= p < L[k] + size[L[k]]
    ensures p in F - range <==> Covered(Deleted(L, k), size, p)
  {
    var M := Deleted(L, k);
    if p in F - range {
      var i: nat :| InBlock(L, size, i, p);
      assert InBlock(M, size, if i < k then i else i - 1, p);
    }
    if i: nat :| InBlock(M, size, i, p) {
      assert InBlock(L, size, if i < k then i else i + 1, p);
    }
  }

  /** Block k is the smallest that holds n pages, the first of its size. */
  ghost predicate Best(L: seq<nat>, size: seq<nat>, n: nat, k: nat) {
    && k < |L| && (forall i :: 0 <= i < |L| ==> L[i] < |size|)
    && size[L[k]] >= n
    && (forall i :: 0 <= i < |L| && size[L[i]] >= n ==> size[L[k]] <= size[L[i]] && (i < k ==> size[L[k]] < size[L[i]]))
  }

  ghost predicate TooSmall(L: seq<nat>, size: seq<nat>, n: nat) {
    forall i :: 0 <= i < |L| && L[i] < |size| ==> size[L[i]] < n
  }

  /** What one call does. A request takes pages off the front of the best run, if a run is long enough. */
  ghost predicate Step(c: Call, a: Moment, b: Moment) {
    match c
    case Request(n) =>
      if n == 0 || NoRun(a.free, n) then b == a
      else exists r: nat :: BestRun(a.free, n, r) && b == Granted(a, n, r)
    case Release(k) => b == Released(a, k)
  }

  lemma StepRequest(n: nat, a: Moment, b: Moment, r: Option<nat>)
    requires n > 0 && (r.None? <==> NoRun(a.free, n)) && (r.None? ==> b == a)
    requires r.Some? ==> BestRun(a.free, n, r.value) && b == Granted(a, n, r.value)
    ensures Step(Request(n), a, b)
  {}

  lemma StepOther(c: Call, a: Moment)
    ensures c == Request(0) ==> Step(c, a, a)
    ensures c.Release? ==> Step(c, a, Released(a, c.k))
  {}

  class Allocator {
    const next: array<nat>      // page_link.next of every page, and of the sentinel
    const prev: array<nat>
    const bit: array<bool>      // PG_property
    const property: array<nat>
    var nrFree: nat
    ghost var free: set<nat>
    ghost var list: seq<nat>

    ghost predicate Shape() {
      && bit.Length == property.Length && next.Length == prev.Length == bit.Length + 1
      && next != prev && property != next && property != prev
    }

    /** The arrays describe the list L, whose blocks are the maximal runs of the free pages F. */
    ghost predicate Good(F: set<nat>, L: seq<nat>)
      reads this`nrFree, next, prev, bit, property
    {
      && Shape()
      && Ring(next[..], prev[..], bit.Length, L)
      && Blocks(F, L, property[..]) && Apart(L, property[..]) && Marked(L, bit[..])
      && nrFree == |F|
    }

    ghost predicate Valid()
      reads this, next, prev, bit, property
    {
      Good(free, list)
    }

    /** The insertion loop shared by initialisation and release, with its missing break: behind the last
        entry the new one is added twice, the second time after itself. */
    method InsertSorted(base: nat, ghost L: seq<nat>) returns (ghost k: nat)
      requires Shape() && Ring(next[..], prev[..], bit.Length, L) && base < bit.Length && base !in L
      requires forall i, j :: 0 <= i < j < |L| ==> L[i] < L[j]
      modifies next, prev
      ensures k <= |L| && (forall i :: 0 <= i < k ==> L[i] < base) && (forall i :: k <= i < |L| ==> base < L[i])
      ensures L == [] || base < L[|L| - 1] ==> Ring(next[..], prev[..], bit.Length, Inserted(L, k, base))
      ensures !(L == [] || base < L[|L| - 1]) ==> prev[base] == base && next[base] == bit.Length
    {
      hide NoDup;
      ghost var H := bit.Length;
      RingStep(next[..], prev[..], H, L, 0);
      if next[bit.Length] == bit.Length {
        ListAdd(next, prev, bit.Length, base, H, L, 0);
        return 0;
      }
      k := 0;
      var le := next[bit.Length];
      ghost var stage := 0;
      while le != bit.Length
        invariant 0 <= stage <= 2 && k <= |L| && forall i :: 0 <= i < k ==> L[i] < base
        invariant stage == 0 ==> k < |L| && Ring(next[..], prev[..], H, L) && le == Node(L, H, k + 1)
        invariant stage == 1 ==> k == |L| > 0 && le == base && next[base] == H
        invariant stage == 2 ==> k == |L| > 0 && le == H && prev[base] == base && next[base] == H
        decreases 2 - stage, |L| - k
      {
        var page := le;
        if base < page {
          assert stage == 0;
          ListAddBefore(next, prev, le, base, H, L, k);
          return;
        } else if next[le] == bit.Length {
          if stage == 0 {
            RingStep(next[..], prev[..], H, L, k + 1);
            k := |L|;
          }
          AddBetween(next, prev, base, le, next[le]);
          stage := stage + 1;
        } else {
          RingStep(next[..], prev[..], H, L, k + 1);
          k := k + 1;
        }
        le := next[le];
      }
    }

    /** Coalescing with the block before. When the insertion went wrong, base points back at itself, the
        block before base is taken to be base, and nothing is merged. */
    method MergeBack(base: nat, ghost good: bool, ghost F: set<nat>, ghost L: seq<nat>, ghost k: nat)
      returns (b: nat, ghost M: seq<nat>, ghost m: nat)
      requires Shape() && base < bit.Length
      requires good ==> Ring(next[..], prev[..], bit.Length, L) && k < |L| && L[k] == base
      requires good ==> Blocks(F, L, property[..]) && Marked(L, bit[..]) && ApartBut(L, property[..], k, k + 1)
      requires !good ==> prev[base] == base && property[base] > 0
      modifies next, prev, bit, property
      ensures good ==> Ring(next[..], prev[..], bit.Length, M) && m < |M| && M[m] == b && b < bit.Length
      ensures good ==> Blocks(F, M, property[..]) && Marked(M, bit[..]) && ApartBut(M, property[..], m + 1, m + 1)
      ensures !good ==> b == base && next[..] == old(next[..]) && prev[..] == old(prev[..]) && bit[..] == old(bit[..])
    {
      hide Ring;
      hide Blocks;
      hide Marked;
      hide ApartBut;
      hide Deleted;
      ghost var H := bit.Length;
      M, m, b := L, k, base;
      if good {
        RingStep(next[..], prev[..], H, L, k);
        BlockFacts(F, L, property[..], k);
      }
      var le := prev[base];
      if le != bit.Length {
        if good { BlockFacts(F, L, property[..], k - 1); }
        var p := le;
        if p + property[p] == base {
          MergeBlocks(F, L, property[..], k - 1);
          MergeApart(F, L, property[..], k - 1, k);
          UnmarkBlock(F, L, property[..], bit[..], k);
          property[p] := property[p] + property[base];
          bit[base] := false;
          ListDel(next, prev, base, H, L, k);
          DeletedAt(L, k);
          b, M, m := p, Deleted(L, k), k - 1;
          BlockFacts(F, M, property[..], m);
        } else if good {
          ApartNow(F, L, property[..], k, k + 1);
        }
      } else if good {
        ApartFirst(L, property[..], k + 1);
      }
    }

    /** Coalescing with the block after. */
    method MergeForward(base: nat, ghost good: bool, ghost F: set<nat>, ghost L: seq<nat>, ghost k: nat)
      returns (ghost M: seq<nat>)
      requires Shape() && base < bit.Length
      requires good ==> Ring(next[..], prev[..], bit.Length, L) && k < |L| && L[k] == base
      requires good ==> Blocks(F, L, property[..]) && Marked(L, bit[..]) && ApartBut(L, property[..], k + 1, k + 1)
      requires !good ==> next[base] == bit.Length
      modifies next, prev, bit, property
      ensures good ==> Ring(next[..], prev[..], bit.Length, M)
      ensures good ==> Blocks(F, M, property[..]) && Marked(M, bit[..]) && Apart(M, property[..])
      ensures !good ==> next[..] == old(next[..]) && prev[..] == old(prev[..]) && bit[..] == old(bit[..])
    {
      hide Ring;
      hide Blocks;
      hide Marked;
      hide ApartBut;
      hide Deleted;
      ghost var H := bit.Length;
      M := L;
      if good {
        RingStep(next[..], prev[..], H, L, k + 1);
        BlockFacts(F, L, property[..], k);
      }
      var le := next[base];
      if le != bit.Length {
        BlockFacts(F, L, property[..], k + 1);
        var p := le;
        if base + property[base] == p {
          MergeBlocks(F, L, property[..], k);
          MergeApart(F, L, property[..], k, k + 1);
          UnmarkBlock(F, L, property[..], bit[..], k + 1);
          property[base] := property[base] + property[p];
          bit[p] := false;
          ListDel(next, prev, p, H, L, k + 1);
          M := Deleted(L, k + 1);
        } else {
          ApartNow(F, L, property[..], k + 1, k + 1);
        }
      } else if good {
        ApartLast(L, property[..]);
      }
    }

    constructor (pages: nat)
      ensures fresh(next) && fresh(prev) && fresh(bit) && fresh(property)
      ensures Valid() && free == {} && bit.Length == pages
    {
      bit := new bool[pages](_ => false);
      property := new nat[pages](_ => 0);
      next := new nat[pages + 1](_ => pages);
      prev := new nat[pages + 1](_ => pages);
      nrFree, free, list := 0, {}, [];
    }

    /** The loop over a new region: no page of it heads a block. */
    method WipeRange(base: nat, n: nat)
      requires Valid() && base + n <= bit.Length
      requires forall p: nat :: base <= p < base + n ==> p !in free
      modifies bit, property
      ensures bit[..] == old(bit[..]) && Blocks(free, list, property[..]) && Apart(list, property[..])
    {
      hide Ring;
      hide Blocks;
      hide Apart;
      hide Marked;
      ghost var F, L, size := free, list, property[..];
      for p := base to base + n
        invariant bit[..] == old(bit[..])
        invariant Blocks(F, L, property[..]) && Apart(L, property[..])
      {
        HeadsAreFree(F, L, property[..], bit[..], p);
        NotHead(F, L, property[..], p);
        WipedPage(F, L, property[..], p);
        property[p] := 0;
        bit[p] := false;
        assert bit[..] == old(bit[..]);
      }
    }

    /** One more region for the allocator: a block in address order, with the loop of InsertSorted and without any
        coalescing. The result is well formed exactly when the list was empty or the region lies below its last block,
        and the region touches no free page. Otherwise no list fits the links, sizes and marks that are left. */
    method InitMemmap(base: nat, n: nat)
      requires Valid() && n > 0 && base + n <= bit.Length
      requires forall p: nat :: base <= p < base + n ==> p !in free
      modifies this, next, prev, bit, property
      ensures free == old(free) + Interval(base, n)
      ensures Valid() <==> old(list == [] || base < list[|list| - 1]) && !TouchesFree(old(free), base, n)
      ensures !Valid() ==> forall F: set<nat>, L: seq<nat> :: !Good(F, L)
    {
      hide Ring;
      hide Blocks;
      hide Apart;
      hide ApartBut;
      hide Marked;
      hide Interval;
      hide TouchesFree;
      hide Inserted;
      ghost var F, L := free, list;
      WipeRange(base, n);
      NotHead(F, L, property[..], base);
      InAddressOrder(F, L, property[..]);
      ghost var size, bits := property[..], bit[..];
      property[base] := n;
      bit[base] := true;
      nrFree := nrFree + n;
      ghost var k := InsertSorted(base, L);
      list := Inserted(L, k, base);
      InsertBlock(F, L, size, k, base, n, Interval(base, n));
      MarkBlock(L, bits, k, base);
      InsertApart(F, L, size, k, base, n);
      free := F + Interval(base, n);
      RangeUnused(F, base, n);
      if !TouchesFree(F, base, n) { InsertedApart(F, L, size, k, base, n); }
      if !(L == [] || base < L[|L| - 1]) {
        SelfLoop(base);
      } else if TouchesFree(F, base, n) {
        ghost var x := TouchingPair(F, L, size, k, base, n);
        MarkedAt(list, bit[..], x);
        MarkedAt(list, bit[..], x + property[x]);
        TouchingBreaks(x);
      }
    }

    /** The loop over the released pages: the source asserts that no bit is set there, and clears it. */
    method ClearRange(base: nat, n: nat)
      requires Valid() && base + n <= bit.Length
      requires forall p: nat :: base <= p < base + n ==> p !in free
      modifies bit
      ensures bit[..] == old(bit[..])
    {
      hide Ring;
      hide Blocks;
      hide Apart;
      hide Marked;
      ghost var F, L := free, list;
      for p := base to base + n
        invariant bit[..] == old(bit[..])
      {
        HeadsAreFree(F, L, property[..], bit[..], p);
        assert !bit[p];
        bit[p] := false;
        assert bit[..] == old(bit[..]);
      }
    }

    /** Release of allocated pages: insert in address order, then coalesce on both sides. The result is
        well formed exactly when the list was empty or the pages lie below its last block; otherwise no
        list at all fits the links and marks that are left. */
    method FreePages(base: nat, n: nat)
      requires Valid() && n > 0 && base + n <= bit.Length
      requires forall p: nat :: base <= p < base + n ==> p !in free
      modifies this, next, prev, bit, property
      ensures free == old(free) + Interval(base, n)
      ensures Valid() <==> old(list == [] || base < list[|list| - 1])
      ensures !Valid() ==> forall F: set<nat>, L: seq<nat> :: !Good(F, L)
    {
      hide Ring;
      hide Blocks;
      hide Apart;
      hide ApartBut;
      hide Marked;
      hide Interval;
      ghost var F, L := free, list;
      ClearRange(base, n);
      NotHead(F, L, property[..], base);
      InAddressOrder(F, L, property[..]);
      ghost var size, bits := property[..], bit[..];
      property[base] := n;
      bit[base] := true;
      nrFree := nrFree + n;
      ghost var k := InsertSorted(base, L);
      ghost var M := Inserted(L, k, base);
      InsertBlock(F, L, size, k, base, n, Interval(base, n));
      MarkBlock(L, bits, k, base);
      InsertApart(F, L, size, k, base, n);
      ghost var good := L == [] || base < L[|L| - 1];
      free := F + Interval(base, n);
      RangeUnused(F, base, n);
      var b;
      ghost var m;
      b, M, m := MergeBack(base, good, free, M, k);
      list := MergeForward(b, good, free, M, m);
      if !good { SelfLoop(base); }
    }

    /** The scan over the whole list, stopping early at an exact fit. */
    method FindBest(n: nat) returns (page: Option<nat>, ghost k: nat)
      requires Valid() && n > 0
      ensures page.None? ==> TooSmall(list, property[..], n)
      ensures page.Some? ==> Best(list, property[..], n, k) && k < |list| && page.value == list[k]
    {
      hide Ring;
      hide Apart;
      hide Marked;
      hide Blocks;
      hide TooSmall;
      hide Best;
      ghost var H, L := bit.Length, list;
      page, k := None, 0;
      var minSize := nrFree + 1;
      RingStep(next[..], prev[..], H, L, 0);
      ScanStart(L, property[..], n);
      BlocksNoDup(free, L, property[..]);
      var le := next[bit.Length];
      ghost var i: nat := 0;
      while le != bit.Length
        invariant i <= |L| && le == Node(L, H, i + 1)
        invariant page.None? ==> minSize == nrFree + 1 && TooSmall(L[..i], property[..], n)
        invariant page.Some? ==> k < i && Best(L[..i], property[..], n, k)
        invariant page.Some? ==> page.value == L[k] && minSize == property[L[k]]
        decreases |L| - i
      {
        BlockFits(free, L, property[..], i);
        var p := le;
        RingStep(next[..], prev[..], H, L, i + 1);
        ScanStep(L, property[..], n, i, k);
        if property[p] >= n && property[p] < minSize {
          page, minSize, k := Some(p), property[p], i;
          if minSize == n {
            ExactFit(free, L, property[..], n, k);
            return;
          }
        }
        le := next[le];
        i := i + 1;
      }
      assert L[..i] == L;
    }

    /** The rest of a block that is larger than the request takes its place in the list. */
    method KeepRest(h: nat, n: nat, before: nat, ghost F: set<nat>, ghost L: seq<nat>, ghost k: nat)
      requires Shape() && k < |L| && Ring(next[..], prev[..], bit.Length, Deleted(L, k))
      requires before == Node(Deleted(L, k), bit.Length, k)
      requires Blocks(F, L, property[..]) && Apart(L, property[..]) && Marked(L, bit[..])
      requires L[k] == h && h < bit.Length && 0 < n < property[h]
      modifies next, prev, bit, property
      ensures Ring(next[..], prev[..], bit.Length, L[k := h + n])
      ensures Blocks(F - Interval(h, n), L[k := h + n], property[..]) && Apart(L[k := h + n], property[..])
      ensures h < bit.Length && Marked(L[k := h + n], bit[..][h := false])
    {
      hide Ring;
      hide Blocks;
      hide Apart;
      hide Marked;
      ghost var bits := bit[..];
      CutBlock(F, L, property[..], k, n, Interval(h, n));
      CutPlace(F, L, property[..], bits, k, n);
      var p := h + n;
      property[p] := property[h] - n;
      bit[p] := true;
      ListAdd(next, prev, before, p, bit.Length, Deleted(L, k), k);
      assert bit[..][h := false] == bits[h := false][p := true];
    }

    /** Taking n pages off the front of block k. */
    method CutFront(h: nat, n: nat, ghost k: nat)
      requires Valid() && k < |list| && list[k] == h && h < bit.Length && 0 < n <= property[h]
      modifies this, next, prev, bit, property
      ensures Valid() && free == old(free) - Interval(h, n)
    {
      hide Ring;
      hide Blocks;
      hide Apart;
      hide Marked;
      hide Deleted;
      hide Node;
      hide Interval;
      ghost var F, L, size, bits := free, list, property[..], bit[..];
      BlockFacts(F, L, size, k);
      RingStep(next[..], prev[..], bit.Length, L, k);
      BlockFits(F, L, size, k);
      CutRange(F, h, n, size[h]);
      NodeDeleted(L, bit.Length, k, k);
      NodeIs(L, bit.Length, k);
      var before := prev[h];
      ListDel(next, prev, h, bit.Length, L, k);
      if property[h] > n {
        KeepRest(h, n, before, F, L, k);
        list := L[k := h + n];
      } else {
        WholeBlock(F, L, size, bits, k);
        list := Deleted(L, k);
      }
      ghost var bits1 := bit[..];
      nrFree := nrFree - n;
      bit[h] := false;
      assert bit[..] == bits1[h := false];
      free := F - Interval(h, n);
    }

    /** Best fit: n pages off the front of the smallest run that holds them, the lowest of its size; NULL
        exactly when no run does. */
    method AllocPages(n: nat) returns (r: Option<nat>)
      requires Valid() && n > 0
      modifies this, next, prev, bit, property
      ensures Valid()
      ensures r.None? ==> free == old(free) && list == old(list) && property[..] == old(property[..])
      ensures r.None? <==> NoRun(old(free), n)
      ensures r.Some? ==> free == old(free) - Interval(r.value, n) && BestRun(old(free), n, r.value)
    {
      hide Ring;
      hide Blocks;
      hide Apart;
      hide Marked;
      hide Best;
      hide NoRun;
      hide BestRun;
      if n > nrFree {
        NoRunThatLong(free, list, property[..], n);
        return None;
      }
      var page;
      ghost var k;
      page, k := FindBest(n);
      if page.None? {
        NoneFits(free, list, property[..], n);
        return None;
      }
      BestIsRun(free, list, property[..], n, k);
      CutFront(page.value, n, k);
      r := page;
    }

    /** The guard of the release that works, as the links give it: the list is empty, or its last block lies above. */
    method CanRelease(base: nat) returns (ok: bool)
      requires Valid() && base < bit.Length && base !in free
      ensures ok <==> list == [] || base < list[|list| - 1]
      ensures ok <==> !AboveAll(free, base)
    {
      hide NoDup;
      RingStep(next[..], prev[..], bit.Length, list, |list|);
      var last := prev[bit.Length];
      ok := last == bit.Length || base < last;
      LastBlock(base);
    }

    /** A page that is not free lies above all free ones exactly when it lies above the last block. */
    lemma LastBlock(base: nat)
      requires Valid() && base !in free
      ensures list == [] || base < list[|list| - 1] <==> !AboveAll(free, base)
    {
      hide Ring;
      hide Marked;
      hide Apart;
      if list == [] {
        forall p: nat
          ensures p !in free
        {
          assert !Covered(list, property[..], p);
        }
      } else {
        BlockPage(free, list, property[..], |list| - 1, list[|list| - 1]);
        forall p | p in free && list[|list| - 1] <= base
          ensures p < base
        {
          var i: nat :| InBlock(list, property[..], i, p);
          if base <= p { BlockPage(free, list, property[..], |list| - 1, base); }
        }
      }
    }

    /** One call. A release is refused when its pages lie above all free ones. */
    method Serve(c: Call, held: seq<(nat, nat)>, ghost hi: nat, ghost total: nat)
      returns (ok: bool, held': seq<(nat, nat)>)
      requires Valid() && Holds(held, free, hi, total) && hi <= bit.Length
      modifies this, next, prev, bit, property
      ensures Valid() && Holds(held', free, hi, total)
      ensures ok <==> !Refused(c, old(Moment(free, held)))
      ensures if ok then Step(c, old(Moment(free, held)), Moment(free, held')) else held' == held && free == old(free)
    {
      hide Good;
      hide Holds;
      hide Interval;
      hide HoldsOne;
      hide HoldsAll;
      hide BestRun;
      hide NoRun;
      hide Step;
      hide AboveAll;
      ghost var a := Moment(free, held);
      StepOther(c, a);
      ok, held' := true, held;
      match c {
        case Request(n) =>
          if n > 0 {
            var r := AllocPages(n);
            if r.Some? {
              GrantFacts(a.free, n, r.value);
              HoldsMore(held, a.free, hi, total, r.value, n);
              held' := held + [(r.value, n)];
            }
            StepRequest(n, a, Moment(free, held'), r);
          }
        case Release(k) =>
          if k < |held| {
            var (base, n) := held[k];
            HeldUnused(held, free, hi, total, k);
            ok := CanRelease(base);
            if ok {
              HoldsLess(held, free, hi, total, k);
              FreePages(base, n);
              held' := held[..k] + held[k + 1..];
            }
          }
      }
    }

    /** Any run of requests and releases from any free pages. It stops exactly at the first release of pages that lie
        above all free ones, where the release would break the links. */
    method Run(calls: seq<Call>) returns (held: seq<(nat, nat)>, ghost moments: seq<Moment>)
      requires Valid()
      modifies this, next, prev, bit, property
      ensures Valid() && Holds(held, free, bit.Length, old(|free|))
      ensures 0 < |moments| <= |calls| + 1
      ensures |moments| <= |calls| ==> Refused(calls[|moments| - 1], Moment(free, held))
      ensures moments[0] == Moment(old(free), []) && moments[|moments| - 1] == Moment(free, held)
      ensures forall i :: 0 <= i < |moments| - 1 ==>
        !Refused(calls[i], moments[i]) && Step(calls[i], moments[i], moments[i + 1])
    {
      hide Good;
      hide Holds;
      hide Refused;
      hide Step;
      NothingHeld();
      held, moments := [], [Moment(free, [])];
      ghost var total := |free|;
      for i := 0 to |calls|
        invariant Valid() && Holds(held, free, bit.Length, total)
        invariant |moments| == i + 1
        invariant moments[0] == Moment(old(free), []) && moments[i] == Moment(free, held)
        invariant forall j :: 0 <= j < i ==>
          !Refused(calls[j], moments[j]) && Step(calls[j], moments[j], moments[j + 1])
      {
        var ok;
        ok, held := Serve(calls[i], held, bit.Length, total);
        if !ok { return; }
        moments := moments + [Moment(free, held)];
      }
    }

    lemma NothingHeld()
      requires Valid()
      ensures Holds([], free, bit.Length, |free|)
    {
      forall p | p in free
        ensures p < bit.Length
      {
        var i: nat :| InBlock(list, property[..], i, p);
      }
    }

    lemma EmptyList()
      requires Valid() && free == {}
      ensures list == []
    {
      NoBlocks(list, property[..]);
    }

    lemma LastIsFree()
      requires Valid() && free != {}
      ensures list != [] && list[|list| - 1] in free
    {
      var p :| p in free;
      assert Covered(list, property[..], p);
      BlockPage(free, list, property[..], |list| - 1, list[|list| - 1]);
    }

    /** Two marked blocks of which one starts where the other ends are on no well-formed list. */
    lemma TouchingBreaks(x: nat)
      requires Shape() && x < bit.Length && bit[x] && property[x] > 0
      requires x + property[x] < bit.Length && bit[x + property[x]]
      ensures forall F: set<nat>, L: seq<nat> :: !Good(F, L)
    {
      forall F: set<nat>, L: seq<nat>
        ensures !Good(F, L)
      {
        if Good(F, L) { TouchingListed(F, L, property[..], x); }
      }
    }

    lemma SelfLoop(base: nat)
      requires Shape() && base < bit.Length && bit[base] && prev[base] == base
      ensures forall F: set<nat>, L: seq<nat> :: !Good(F, L)
    {
      forall F: set<nat>, L: seq<nat>
        ensures !Good(F, L)
      {
        if Good(F, L) {
          assert base in L;
          NoSelfLoop(next[..], prev[..], bit.Length, L, base);
        }
      }
    }
  }

  /** The run that starts at h is the smallest that holds n pages, the lowest of its size. */
  ghost predicate BestRun(F: set<nat>, n: nat, h: nat) {
    exists e: nat :: MaxRun(F, h, e) && e - h >= n
      && forall g: nat, f: nat :: MaxRun(F, g, f) && f - g >= n ==> e - h <= f - g && (g < h ==> e - h < f - g)
  }

  /** No maximal run of free pages holds n. */
  ghost predicate NoRun(F: set<nat>, n: nat) {
    forall h: nat, e: nat :: MaxRun(F, h, e) ==> e - h < n
  }

  lemma ScanStart(L: seq<nat>, size: seq<nat>, n: nat)
    ensures TooSmall(L[..0], size, n)
  {}

  /** No block is larger than the number of free pages. */
  lemma BlockFits(F: set<nat>, L: seq<nat>, size: seq<nat>, i: nat)
    requires Blocks(F, L, size) && i < |L|
    ensures L[i] < |size| && size[L[i]] <= |F| && Interval(L[i], size[L[i]]) <= F
  {
    var range := Interval(L[i], size[L[i]]);
    forall p | p in range
      ensures p in F
    {
      BlockPage(F, L, size, i, p);
    }
    SubsetSize(range, F);
  }

  lemma CutRange(F: set<nat>, h: nat, n: nat, m: nat)
    requires n <= m && Interval(h, m) <= F
    ensures Interval(h, n) <= F && |F - Interval(h, n)| == |F| - n
  {
    assert forall p :: p in Interval(h, n) ==> p in Interval(h, m);
    SubsetSize(Interval(h, n), F);
  }

  /** What one more block of the scan says. */
  lemma ScanStep(L: seq<nat>, size: seq<nat>, n: nat, i: nat, k: nat)
    requires i < |L| && L[i] < |size|
    ensures TooSmall(L[..i], size, n) && size[L[i]] < n ==> TooSmall(L[..i + 1], size, n)
    ensures TooSmall(L[..i], size, n) && size[L[i]] >= n && Below(L, |size|) ==> Best(L[..i + 1], size, n, i)
    ensures k < i && Best(L[..i], size, n, k) ==>
      (if n <= size[L[i]] < size[L[k]] then Best(L[..i + 1], size, n, i) else Best(L[..i + 1], size, n, k))
  {
    assert forall j :: 0 <= j < i ==> L[..i][j] == L[j] == L[..i + 1][j];
    assert L[..i + 1][i] == L[i];
  }

  /** An exact fit ends the scan: nothing after it can be better. */
  lemma ExactFit(F: set<nat>, L: seq<nat>, size: seq<nat>, n: nat, k: nat)
    requires Blocks(F, L, size) && k < |L| && L[k] < |size| && size[L[k]] == n && Best(L[..k + 1], size, n, k)
    ensures Best(L, size, n, k)
  {
    assert forall j :: 0 <= j <= k ==> L[..k + 1][j] == L[j];
  }

  lemma BestIsRun(F: set<nat>, L: seq<nat>, size: seq<nat>, n: nat, k: nat)
    requires Blocks(F, L, size) && Apart(L, size) && Best(L, size, n, k)
    ensures BestRun(F, n, L[k]) && !NoRun(F, n)
    ensures L[k] < |size| && n <= size[L[k]]
  {
    BlocksAreRuns(F, L, size);
    InAddressOrder(F, L, size);
    var h, e := L[k], L[k] + size[L[k]];
    assert MaxRun(F, h, e);
    forall g: nat, f: nat | MaxRun(F, g, f) && f - g >= n
      ensures e - h <= f - g && (g < h ==> e - h < f - g)
    {
      var i :| 0 <= i < |L| && L[i] == g;
    }
  }

  lemma NoneFits(F: set<nat>, L: seq<nat>, size: seq<nat>, n: nat)
    requires Blocks(F, L, size) && Apart(L, size) && TooSmall(L, size, n)
    ensures NoRun(F, n)
  {
    BlocksAreRuns(F, L, size);
  }

  lemma NoRunThatLong(F: set<nat>, L: seq<nat>, size: seq<nat>, n: nat)
    requires Blocks(F, L, size) && Apart(L, size) && |F| < n
    ensures NoRun(F, n)
  {
    forall i | 0 <= i < |L| && L[i] < |size|
      ensures size[L[i]] < n
    {
      BlockFits(F, L, size, i);
    }
    NoneFits(F, L, size, n);
  }

  /** The rest of a cut block goes where the block was. */
  lemma CutPlace(F: set<nat>, L: seq<nat>, size: seq<nat>, bit: seq<bool>, k: nat, n: nat)
    requires Blocks(F, L, size) && Apart(L, size) && Marked(L, bit) && k < |L| && 0 < n < size[L[k]] && |bit| == |size|
    ensures var p := L[k] + n;
      p < |bit| && p !in Deleted(L, k) && Inserted(Deleted(L, k), k, p) == L[k := p]
      && Apart(L[k := p], size[p := size[L[k]] - n])
      && Marked(Inserted(Deleted(L, k), k, p), bit[L[k] := false][p := true])
  {
    hide *;
    var p := L[k] + n;
    BlockFacts(F, L, size, k);
    CutList(L, k, p);
    CutApart(F, L, size, k, n);
    UnmarkBlock(F, L, size, bit, k);
    MarkBlock(Deleted(L, k), bit[L[k] := false], k, p);
  }

  lemma CutList(L: seq<nat>, k: nat, p: nat)
    requires k < |L|
    ensures |Deleted(L, k)| == |L| - 1 && (p !in L ==> p !in Deleted(L, k))
    ensures Inserted(Deleted(L, k), k, p) == L[k := p]
  {}

  lemma CutApart(F: set<nat>, L: seq<nat>, size: seq<nat>, k: nat, n: nat)
    requires Blocks(F, L, size) && Apart(L, size) && k < |L| && 0 < n < size[L[k]]
    ensures L[k] + n !in L && L[k] + n < |size|
    ensures Apart(L[k := L[k] + n], size[L[k] + n := size[L[k]] - n])
  {
    forall j | 0 <= j < |L|
      ensures L[j] != L[k] + n
    {
      if j > k { assert L[k] + size[L[k]] <= L[j]; }
    }
  }

  lemma TakeApart(F: set<nat>, L: seq<nat>, size: seq<nat>, k: nat)
    requires Blocks(F, L, size) && Apart(L, size) && k < |L|
    ensures Apart(Deleted(L, k), size)
  {
    var M := Deleted(L, k);
    forall j | 0 < j < |M| && M[j - 1] < |size|
      ensures M[j - 1] + size[M[j - 1]] < M[j]
    {
      if j == k {
        BlockFacts(F, L, size, k);
        assert L[k - 1] + size[L[k - 1]] < L[k];
        assert L[k] + size[L[k]] <= L[k + 1];
      } else if j < k {
        assert M[j - 1] == L[j - 1] && M[j] == L[j];
      } else {
        assert M[j - 1] == L[j] && M[j] == L[j + 1];
      }
    }
  }

  lemma WholeBlock(F: set<nat>, L: seq<nat>, size: seq<nat>, bit: seq<bool>, k: nat)
    requires Blocks(F, L, size) && Apart(L, size) && Marked(L, bit) && k < |L| && L[k] < |bit| == |size|
    ensures Blocks(F - Interval(L[k], size[L[k]]), Deleted(L, k), size) && Apart(Deleted(L, k), size)
    ensures Marked(Deleted(L, k), bit[L[k] := false])
  {
    hide *;
    TakeBlock(F, L, size, k, Interval(L[k], size[L[k]]));
    TakeApart(F, L, size, k);
    UnmarkBlock(F, L, size, bit, k);
  }

  lemma DeletedAt(L: seq<nat>, k: nat)
    requires 0 < k < |L|
    ensures |Deleted(L, k)| == |L| - 1 && Deleted(L, k)[k - 1] == L[k - 1]
  {}

  lemma ApartLast(L: seq<nat>, size: seq<nat>)
    requires ApartBut(L, size, |L|, |L|)
    ensures Apart(L, size)
  {}

  lemma NodeIs(L: seq<nat>, H: nat, k: nat)
    requires k < |L|
    ensures Node(L, H, k + 1) == L[k]
  {}

  lemma RangeUnused(F: set<nat>, base: nat, n: nat)
    requires forall p: nat :: base <= p < base + n ==> p !in F
    ensures |F + Interval(base, n)| == |F| + n
  {
    assert F !! Interval(base, n);
  }

  lemma TouchingListed(F: set<nat>, L: seq<nat>, size: seq<nat>, x: nat)
    requires Blocks(F, L, size) && x < |size| && x in L && x + size[x] in L
    ensures !Apart(L, size)
  {
    var i :| 0 <= i < |L| && L[i] == x;
    var j :| 0 <= j < |L| && L[j] == x + size[x];
    assert i < j;
    assert L[i + 1] <= L[i] + size[L[i]];
  }

  /** The size of a page that heads no block does not matter. */
  lemma WipedPage(F: set<nat>, L: seq<nat>, size: seq<nat>, p: nat)
    requires Blocks(F, L, size) && Apart(L, size) && p !in L && p < |size|
    ensures Blocks(F, L, size[p := 0]) && Apart(L, size[p := 0])
  {
    var size' := size[p := 0];
    assert forall i :: 0 <= i < |L| ==> L[i] != p;
    forall q: nat
      ensures Covered(L, size', q) <==> Covered(L, size, q)
    {
      if i: nat :| InBlock(L, size, i, q) { assert InBlock(L, size', i, q); }
      if i: nat :| InBlock(L, size', i, q) { assert InBlock(L, size, i, q); }
    }
  }

  lemma NotHead(F: set<nat>, L: seq<nat>, size: seq<nat>, p: nat)
    requires Blocks(F, L, size) && p !in F
    ensures p !in L
  {
    if p in L {
      var i :| 0 <= i < |L| && L[i] == p;
      BlockPage(F, L, size, i, p);
    }
  }

  lemma InAddressOrder(F: set<nat>, L: seq<nat>, size: seq<nat>)
    requires Blocks(F, L, size)
    ensures forall i, j :: 0 <= i < j < |L| ==> L[i] < L[j]
  {}

  lemma MarkBlock(L: seq<nat>, bit: seq<bool>, k: nat, base: nat)
    requires Marked(L, bit) && k <= |L| && base < |bit|
    ensures Marked(Inserted(L, k, base), bit[base := true])
  {
    var M := Inserted(L, k, base);
    forall p: nat
      ensures p in M <==> p in L || p == base
    {
      if p in L {
        var i :| 0 <= i < |L| && L[i] == p;
        assert M[if i < k then i else i + 1] == p;
      }
      assert M[k] == base;
    }
  }

  lemma InsertApart(F: set<nat>, L: seq<nat>, size: seq<nat>, k: nat, base: nat, n: nat)
    requires Blocks(F, L, size) && Apart(L, size) && k <= |L| && base < |size| && base !in L
    ensures ApartBut(Inserted(L, k, base), size[base := n], k, k + 1)
  {
    var M := Inserted(L, k, base);
    forall x | 0 < x < |M| && x != k && x != k + 1 && M[x - 1] < |size|
      ensures M[x - 1] + size[base := n][M[x - 1]] < M[x]
    {
      if x < k {
        assert M[x - 1] == L[x - 1] && M[x] == L[x];
      } else {
        assert M[x - 1] == L[x - 2] && M[x] == L[x - 1];
      }
    }
  }

  lemma NoBlocks(L: seq<nat>, size: seq<nat>)
    requires Blocks({}, L, size)
    ensures L == []
  {
    if L != [] {
      BlockPage({}, L, size, 0, L[0]);
      assert false;
    }
  }

  lemma HeadsAreFree(F: set<nat>, L: seq<nat>, size: seq<nat>, bit: seq<bool>, p: nat)
    requires Blocks(F, L, size) && Marked(L, bit) && p < |bit| && p !in F
    ensures !bit[p]
  {
    if p in L {
      var i :| 0 <= i < |L| && L[i] == p;
      BlockPage(F, L, size, i, p);
    }
  }

  // ---- runs of calls ----

  lemma GrantFacts(F: set<nat>, n: nat, h: nat)
    requires BestRun(F, n, h) && n > 0
    ensures Interval(h, n) <= F && forall p: nat :: h <= p < h + n ==> p in F
  {
    var e: nat :| MaxRun(F, h, e) && e - h >= n;
  }

  /** The page lies above all free ones, and there are some. */
  ghost predicate AboveAll(F: set<nat>, base: nat) {
    F != {} && forall p :: p in F ==> p < base
  }

  /** A release of pages that lie above all free ones. */
  ghost predicate Refused(c: Call, a: Moment) {
    c.Release? && c.k < |a.held| && AboveAll(a.free, a.held[c.k].0)
  }

  /** The page before the range or the page behind it is free. */
  ghost predicate TouchesFree(F: set<nat>, base: nat, n: nat) {
    (base > 0 && base - 1 in F) || base + n in F
  }

  /** The blocks next to the place of a range are the ones whose pages it touches. */
  lemma Neighbours(F: set<nat>, L: seq<nat>, size: seq<nat>, k: nat, base: nat, n: nat)
    requires Blocks(F, L, size) && k <= |L| && n > 0 && base < |size|
    requires forall p: nat :: base <= p < base + n ==> p !in F
    requires (forall i :: 0 <= i < k ==> L[i] < base) && (forall i :: k <= i < |L| ==> base < L[i])
    ensures k > 0 ==> L[k - 1] < |size|
    ensures base > 0 && base - 1 in F <==> k > 0 && L[k - 1] + size[L[k - 1]] == base
    ensures base + n in F <==> k < |L| && L[k] == base + n
  {
    forall i | 0 <= i < |L|
      ensures L[i] < |size| && size[L[i]] > 0
      ensures L[i] != base && (i < k ==> L[i] + size[L[i]] <= base) && (k <= i ==> base + n <= L[i])
    {
      InsertPlace(F, L, size, k, base, n, i);
    }
    if k > 0 && L[k - 1] + size[L[k - 1]] == base { BlockPage(F, L, size, k - 1, base - 1); }
    if k < |L| && L[k] == base + n { BlockPage(F, L, size, k, base + n); }
    if base > 0 && base - 1 in F {
      var p: nat := base - 1;
      var i: nat :| InBlock(L, size, i, p);
      assert i == k - 1;
    }
    if base + n in F {
      var i: nat :| InBlock(L, size, i, base + n);
      assert k < i ==> L[k] + size[L[k]] <= L[i];
    }
  }

  /** With no coalescing, the blocks are apart exactly when the new one touches none. */
  lemma InsertedApart(F: set<nat>, L: seq<nat>, size: seq<nat>, k: nat, base: nat, n: nat)
    requires Blocks(F, L, size) && k <= |L| && n > 0 && base + n <= |size|
    requires forall p: nat :: base <= p < base + n ==> p !in F
    requires (forall i :: 0 <= i < k ==> L[i] < base) && (forall i :: k <= i < |L| ==> base < L[i])
    requires ApartBut(Inserted(L, k, base), size[base := n], k, k + 1)
    ensures !TouchesFree(F, base, n) ==> Apart(Inserted(L, k, base), size[base := n])
  {
    var M, size' := Inserted(L, k, base), size[base := n];
    Neighbours(F, L, size, k, base, n);
    assert M[k] == base && (k > 0 ==> M[k - 1] == L[k - 1]) && (k < |L| ==> M[k + 1] == L[k]);
    if k > 0 { InsertPlace(F, L, size, k, base, n, k - 1); }
    if k < |L| { InsertPlace(F, L, size, k, base, n, k); }
  }

  lemma Around(L: seq<nat>, k: nat, base: nat)
    requires k <= |L|
    ensures var M := Inserted(L, k, base); base in M && (k > 0 ==> L[k - 1] in M) && (k < |L| ==> L[k] in M)
  {
    var M := Inserted(L, k, base);
    assert M[k] == base && (k > 0 ==> M[k - 1] == L[k - 1]) && (k < |L| ==> M[k + 1] == L[k]);
  }

  lemma TouchingPair(F: set<nat>, L: seq<nat>, size: seq<nat>, k: nat, base: nat, n: nat) returns (x: nat)
    requires Blocks(F, L, size) && k <= |L| && n > 0 && base + n <= |size|
    requires forall p: nat :: base <= p < base + n ==> p !in F
    requires (forall i :: 0 <= i < k ==> L[i] < base) && (forall i :: k <= i < |L| ==> base < L[i])
    requires TouchesFree(F, base, n)
    ensures var M, size' := Inserted(L, k, base), size[base := n];
      x in M && x < |size| && size'[x] > 0 && x + size'[x] < |size| && x + size'[x] in M
  {
    hide Inserted;
    hide Blocks;
    Neighbours(F, L, size, k, base, n);
    Around(L, k, base);
    if base > 0 && base - 1 in F {
      x := L[k - 1];
      InsertPlace(F, L, size, k, base, n, k - 1);
      BlockFacts(F, L, size, k - 1);
    } else {
      x := base;
      BlockFacts(F, L, size, k);
    }
  }

  lemma MarkedAt(L: seq<nat>, bit: seq<bool>, p: nat)
    requires Marked(L, bit) && p in L && p < |bit|
    ensures bit[p]
  {}

  // ---- the failing family is not empty ----

  lemma OneRun(F: set<nat>, n: nat, h: nat, lo: nat, hi: nat)
    requires BestRun(F, n, h) && n > 0 && forall p: nat :: p in F <==> lo <= p < hi
    ensures h == lo
  {
    var e: nat :| MaxRun(F, h, e) && e - h >= n;
    assert h in F;
    assert h > lo ==> h - 1 in F;
  }

  lemma RunThere(F: set<nat>, n: nat, lo: nat, hi: nat)
    requires 0 < n <= hi - lo && forall p: nat :: p in F <==> lo <= p < hi
    ensures !NoRun(F, n)
  {
    assert MaxRun(F, lo, hi);
  }

  /** An allocator all of whose three pages are handed out, as one and two. */
  method ThreeTaken() returns (a: Allocator)
    ensures fresh(a) && fresh(a.next) && fresh(a.prev) && fresh(a.bit) && fresh(a.property)
    ensures a.Valid() && a.free == {} && a.bit.Length == 3
  {
    hide Allocator.Good;
    hide BestRun;
    hide NoRun;
    hide Interval;
    a := new Allocator(3);
    a.EmptyList();
    a.InitMemmap(0, 3);
    RunThere(a.free, 1, 0, 3);
    ghost var F0 := a.free;
    var r := a.AllocPages(1);
    OneRun(F0, 1, r.value, 0, 3);
    ghost var F1 := a.free;
    RunThere(F1, 2, 1, 3);
    var q := a.AllocPages(2);
    OneRun(F1, 2, q.value, 1, 3);
  }

  /** Released in address order: the second release goes behind the last entry, and no list fits the links it
      leaves. */
  method TailReleaseBreaks() returns (a: Allocator)
    ensures fresh(a) && forall F: set<nat>, L: seq<nat> :: !a.Good(F, L)
  {
    hide Allocator.Good;
    hide Interval;
    a := ThreeTaken();
    a.EmptyList();
    a.FreePages(0, 1);
    assert a.free == {0};
    a.LastIsFree();
    a.FreePages(1, 2);
  }

  /** Neighbouring blocks do not touch, except perhaps at positions i and j. */
  ghost predicate ApartBut(L: seq<nat>, size: seq<nat>, i: nat, j: nat) {
    forall x :: 0 < x < |L| && x != i && x != j && L[x - 1] < |size| ==> L[x - 1] + size[L[x - 1]] < L[x]
  }

  lemma BlockFacts(F: set<nat>, L: seq<nat>, size: seq<nat>, k: nat)
    requires Blocks(F, L, size) && k < |L|
    ensures L[k] < |size| && 0 < size[L[k]] && L[k] + size[L[k]] <= |size|
    ensures k > 0 ==> L[k - 1] < |size| && L[k - 1] + size[L[k - 1]] <= L[k]
  {}

  /** A neighbour found not to touch is apart. */
  lemma ApartNow(F: set<nat>, L: seq<nat>, size: seq<nat>, k: nat, j: nat)
    requires Blocks(F, L, size) && 0 < k < |L| && L[k - 1] < |size| && ApartBut(L, size, k, j)
    requires L[k - 1] + size[L[k - 1]] != L[k]
    ensures ApartBut(L, size, j, j) && (j == k ==> Apart(L, size))
  {
    BlockFacts(F, L, size, k);
  }

  lemma ApartFirst(L: seq<nat>, size: seq<nat>, j: nat)
    requires ApartBut(L, size, 0, j)
    ensures ApartBut(L, size, j, j)
  {}

  /** After blocks i and i + 1 = k are merged, what touched nothing still does not. */
  lemma MergeApart(F: set<nat>, L: seq<nat>, size: seq<nat>, i: nat, k: nat)
    requires Blocks(F, L, size) && k == i + 1 < |L| && L[i] + size[L[i]] == L[k]
    ensures ApartBut(L, size, k, k + 1) ==> ApartBut(Deleted(L, k), size[L[i] := size[L[i]] + size[L[k]]], k, k)
    ensures ApartBut(L, size, k, k) ==> Apart(Deleted(L, k), size[L[i] := size[L[i]] + size[L[k]]])
  {
    var M, size' := Deleted(L, k), size[L[i] := size[L[i]] + size[L[k]]];
    assert |M| == |L| - 1 && forall x :: 0 <= x < |M| ==> M[x] == if x <= i then L[x] else L[x + 1];
    hide Deleted;
    forall x | 0 <= x < |L| && x != i
      ensures L[x] != L[i]
    {}
  }

  lemma UnmarkBlock(F: set<nat>, L: seq<nat>, size: seq<nat>, bit: seq<bool>, k: nat)
    requires Blocks(F, L, size) && Marked(L, bit) && k < |L| && L[k] < |bit|
    ensures Marked(Deleted(L, k), bit[L[k] := false])
  {
    BlocksNoDup(F, L, size);
    forall p: nat
      ensures p in Deleted(L, k) <==> p in L && p != L[k]
    {
      if p in L && p != L[k] {
        var i :| 0 <= i < |L| && L[i] == p;
        assert Deleted(L, k)[if i < k then i else i - 1] == p;
      }
    }
  }

  /** One step along the circle. */
  lemma RingStep(next: seq<nat>, prev: seq<nat>, H: nat, L: seq<nat>, i: nat)
    requires Ring(next, prev, H, L) && i <= |L|
    ensures Node(L, H, i) <= H && Node(L, H, i + 1) <= H
    ensures next[Node(L, H, i)] == Node(L, H, i + 1) && prev[Node(L, H, i + 1)] == Node(L, H, i)
    ensures Node(L, H, i + 1) == H <==> i == |L|
  {}
}
