/** One page of the SLUB allocator: its slots, the header, and the free list threaded through the free objects. Memory
    is a sequence of 8-byte words; a pointer is a word index (every address the allocator deals in is a multiple of 8),
    and 0 is NULL. */
module SlabPages {
  import opened Lists
  import opened Sets

  const PAGE: nat := 512  // PGSIZE in words

  // Word offsets of the header fields in a slab page; prev and next of the list entry are words 0 and 1.
  const FREE: nat := 2
  const OBJ_SIZE: nat := 3
  const NR_FREE: nat := 4
  const CAPACITY: nat := 5
  const HEADER: nat := 6

  /** How many objects of w words fit into n words, and the words that k of them take. */
  function Fitting(n: nat, w: nat): nat
    requires w > 0
  {
    if n < w then 0 else 1 + Fitting(n - w, w)
  }

  function Offset(k: nat, w: nat): nat {
    if k == 0 then 0 else w + Offset(k - 1, w)
  }

  /** The number of objects of w words a page holds, and the address of the k-th. */
  function Cap(w: nat): nat
    requires w > 0
  {
    Fitting(PAGE - HEADER, w)
  }

  function Slot(p: nat, w: nat, k: nat): nat {
    PAGE * p + HEADER + Offset(k, w)
  }

  ghost predicate IsSlot(p: nat, w: nat, a: nat)
    requires w > 0
  {
    exists k: nat :: k < Cap(w) && a == Slot(p, w, k)
  }

  lemma {:induction false} OffsetMono(a: nat, b: nat, w: nat)
    requires a <= b
    ensures Offset(a, w) <= Offset(b, w)
  {
    if a < b { OffsetMono(a, b - 1, w); }
  }

  lemma {:induction false} FittingBound(n: nat, w: nat)
    requires w > 0
    ensures Offset(Fitting(n, w), w) <= n < Offset(Fitting(n, w) + 1, w)
  {
    if n >= w { FittingBound(n - w, w); }
  }

  lemma CapBound(w: nat)
    requires w > 0
    ensures Offset(Cap(w), w) <= PAGE - HEADER < Offset(Cap(w) + 1, w)
  {
    FittingBound(PAGE - HEADER, w);
  }

  lemma {:induction false} OffsetIs(k: nat, w: nat)
    ensures Offset(k, w) == k * w
  {
    if k > 0 { OffsetIs(k - 1, w); }
  }

  /** A page is 512 words, of which the header takes 6; the rest is filled with as many objects as fit. */
  lemma PageLayout(p: nat, w: nat, k: nat)
    requires w > 0
    ensures Slot(p, w, k) == 512 * p + 6 + k * w
    ensures Cap(w) * w <= 506 < (Cap(w) + 1) * w
  {
    hide Cap;
    CapBound(w);
    OffsetIs(k, w);
    OffsetIs(Cap(w), w);
    OffsetIs(Cap(w) + 1, w);
  }

  /** Objects lie in their page, clear of its header. */
  lemma SlotBounds(p: nat, w: nat, k: nat)
    requires w > 0 && k < Cap(w)
    ensures PAGE * p + HEADER <= Slot(p, w, k) && Slot(p, w, k) + w <= PAGE * (p + 1)
  {
    CapBound(w);
    hide Cap;
    OffsetMono(k + 1, Cap(w), w);
  }

  /** Different objects of a page do not overlap. */
  lemma SlotsApart(p: nat, w: nat, j: nat, k: nat)
    requires w > 0 && j < k
    ensures Slot(p, w, j) + w <= Slot(p, w, k)
  {
    OffsetMono(j + 1, k, w);
  }

  lemma SlotFacts(p: nat, w: nat, a: nat)
    requires w > 0 && IsSlot(p, w, a)
    ensures PAGE * p + HEADER <= a && a + w <= PAGE * (p + 1) && a / PAGE == p
  {
    var k: nat :| k < Cap(w) && a == Slot(p, w, k);
    SlotBounds(p, w, k);
  }

  lemma TwoSlots(p: nat, w: nat, a: nat, c: nat)
    requires w > 0 && IsSlot(p, w, a) && IsSlot(p, w, c) && a != c
    ensures a + w <= c || c + w <= a
  {
    var j: nat :| j < Cap(w) && a == Slot(p, w, j);
    var k: nat :| k < Cap(w) && c == Slot(p, w, k);
    if j < k { SlotsApart(p, w, j, k); } else if k < j { SlotsApart(p, w, k, j); }
  }

  predicate OnPage(a: nat, p: nat) {
    PAGE * p <= a < PAGE * (p + 1)
  }

  // ---- what a slab page holds ----

  /** The i-th address of a chain, NULL after its end. */
  function At(chain: seq<nat>, i: nat): nat {
    if i < |chain| then chain[i] else 0
  }

  /** The free list threaded through memory: each free object holds the address of the next. */
  ghost predicate Linked(mem: seq<nat>, chain: seq<nat>) {
    && (forall i :: 0 <= i < |chain| ==> 0 < chain[i] < |mem|)
    && (forall i :: 0 <= i < |chain| ==> mem[chain[i]] == At(chain, i + 1))
  }

  /** The header of page p and its threaded list describe `chain`. */
  ghost predicate HeaderOk(mem: seq<nat>, p: nat, w: nat, chain: seq<nat>)
    requires w > 0
  {
    && p > 0 && PAGE * (p + 1) <= |mem|
    && mem[PAGE * p + FREE] == At(chain, 0)
    && mem[PAGE * p + OBJ_SIZE] == 8 * w
    && mem[PAGE * p + NR_FREE] == |chain|
    && mem[PAGE * p + CAPACITY] == Cap(w)
    && Linked(mem, chain)
  }

  /** The chain is acyclic and is exactly the objects of the page that are not live. */
  ghost predicate ChainOk(p: nat, w: nat, chain: seq<nat>, live: map<nat, nat>)
    requires w > 0
  {
    && NoDup(chain)
    && (forall a: nat :: a in chain <==> IsSlot(p, w, a) && a !in live)
  }

  /** Memory may change anywhere but in the header and the free objects of the page. */
  lemma HeaderFrame(mem: seq<nat>, mem': seq<nat>, p: nat, w: nat, chain: seq<nat>)
    requires w > 0 && HeaderOk(mem, p, w, chain) && |mem'| == |mem|
    requires forall i :: PAGE * p <= i < PAGE * p + HEADER ==> mem'[i] == mem[i]
    requires forall i :: 0 <= i < |chain| ==> mem'[chain[i]] == mem[chain[i]]
    ensures HeaderOk(mem', p, w, chain)
  {}

  /** What becomes live elsewhere does not matter to a page. */
  lemma ChainFrame(p: nat, w: nat, chain: seq<nat>, live: map<nat, nat>, live': map<nat, nat>)
    requires w > 0 && ChainOk(p, w, chain, live)
    requires forall a: nat :: OnPage(a, p) ==> (a in live <==> a in live')
    ensures ChainOk(p, w, chain, live')
  {
    forall a: nat
      ensures a in chain <==> IsSlot(p, w, a) && a !in live'
    {
      if IsSlot(p, w, a) { SlotFacts(p, w, a); }
    }
  }

  // ---- counting objects ----

  /** The first n objects of a page. */
  ghost function SlotSet(p: nat, w: nat, n: nat): (r: set<nat>)
    requires w > 0
    ensures forall a :: a in r <==> exists k: nat :: k < n && a == Slot(p, w, k)
    ensures |r| == n
  {
    if n == 0 then {} else
      var r := SlotSet(p, w, n - 1);
      assert Slot(p, w, n - 1) !in r by {
        forall k: nat | k < n - 1
          ensures Slot(p, w, k) != Slot(p, w, n - 1)
        {
          SlotsApart(p, w, k, n - 1);
        }
      }
      r + {Slot(p, w, n - 1)}
  }

  ghost function Members(s: seq<nat>): set<nat> {
    set x | x in s
  }

  lemma {:induction false} MembersSize(s: seq<nat>)
    requires NoDup(s)
    ensures |Members(s)| == |s|
  {
    if s != [] {
      assert Members(s) == Members(s[1..]) + {s[0]};
      MembersSize(s[1..]);
    }
  }

  /** A chain has all the objects of its page exactly when no object of the page is live. */
  lemma FullChain(p: nat, w: nat, chain: seq<nat>, live: map<nat, nat>)
    requires w > 0 && ChainOk(p, w, chain, live)
    ensures |chain| <= Cap(w)
    ensures |chain| == Cap(w) <==> forall a: nat :: IsSlot(p, w, a) ==> a !in live
  {
    var S, C := SlotSet(p, w, Cap(w)), Members(chain);
    MembersSize(chain);
    assert forall a: nat :: a in S <==> IsSlot(p, w, a);
    SubsetSize(C, S);
    if forall a: nat :: IsSlot(p, w, a) ==> a !in live {
      assert C == S;
    }
  }

  // ---- the effect of each write on a page ----

  /** slab_page_init has threaded the first k objects, last one first. */
  ghost function Threaded(p: nat, w: nat, k: nat): (r: seq<nat>)
    ensures |r| == k
    ensures forall i :: 0 <= i < k ==> r[i] == Slot(p, w, k - 1 - i)
  {
    if k == 0 then [] else [Slot(p, w, k - 1)] + Threaded(p, w, k - 1)
  }

  lemma ThreadedOk(p: nat, w: nat, live: map<nat, nat>)
    requires w > 0 && forall a: nat :: OnPage(a, p) ==> a !in live
    ensures ChainOk(p, w, Threaded(p, w, Cap(w)), live)
  {
    var c := Threaded(p, w, Cap(w));
    forall i, j | 0 <= i < j < |c|
      ensures c[i] != c[j]
    {
      SlotsApart(p, w, Cap(w) - 1 - j, Cap(w) - 1 - i);
    }
    forall a: nat
      ensures a in c <==> IsSlot(p, w, a) && a !in live
    {
      if IsSlot(p, w, a) {
        SlotFacts(p, w, a);
        var k: nat :| k < Cap(w) && a == Slot(p, w, k);
        assert c[Cap(w) - 1 - k] == a;
      }
    }
  }

  /** Threading one more object. */
  lemma LinkMore(mem: seq<nat>, chain: seq<nat>, a: nat)
    requires Linked(mem, chain) && 0 < a < |mem| && a !in chain
    ensures Linked(mem[a := At(chain, 0)], [a] + chain)
  {
    var mem', chain' := mem[a := At(chain, 0)], [a] + chain;
    forall i | 0 <= i < |chain'|
      ensures 0 < chain'[i] < |mem'| && mem'[chain'[i]] == At(chain', i + 1)
    {
      if i > 0 {
        assert chain'[i] == chain[i - 1] && chain[i - 1] in chain;
        assert mem[chain[i - 1]] == At(chain, i);
      }
    }
  }

  lemma LinkFrame(mem: seq<nat>, mem': seq<nat>, chain: seq<nat>)
    requires Linked(mem, chain) && |mem'| == |mem|
    requires forall a :: a in chain && a < |mem| ==> mem'[a] == mem[a]
    ensures Linked(mem', chain)
  {}

  lemma LinkLess(mem: seq<nat>, chain: seq<nat>)
    requires Linked(mem, chain) && chain != []
    ensures Linked(mem, chain[1..]) && mem[chain[0]] == At(chain[1..], 0)
  {
    forall i | 0 <= i < |chain[1..]|
      ensures 0 < chain[1..][i] < |mem| && mem[chain[1..][i]] == At(chain[1..], i + 1)
    {
      assert chain[1..][i] == chain[i + 1];
      assert mem[chain[i + 1]] == At(chain, i + 2);
    }
    assert mem[chain[0]] == At(chain, 1);
  }

  ghost predicate InPage(p: nat, chain: seq<nat>) {
    forall a :: a in chain ==> PAGE * p + HEADER <= a < PAGE * (p + 1)
  }

  /** The words of header p after its free pointer and counter are set. */
  function SetHeader(mem: seq<nat>, p: nat, free: nat, nr: nat): (r: seq<nat>)
    requires PAGE * (p + 1) <= |mem|
    ensures |r| == |mem|
    ensures forall i :: 0 <= i < |mem| && i != PAGE * p + FREE && i != PAGE * p + NR_FREE ==> r[i] == mem[i]
  {
    mem[PAGE * p + FREE := free][PAGE * p + NR_FREE := nr]
  }

  /** slab_page_init has written the header of page p and threaded k objects. */
  ghost predicate Initialising(mem: seq<nat>, p: nat, w: nat, k: nat)
    requires w > 0
  {
    && p > 0 && PAGE * (p + 1) <= |mem| && k <= Cap(w)
    && mem[PAGE * p + FREE] == At(Threaded(p, w, k), 0)
    && mem[PAGE * p + OBJ_SIZE] == 8 * w
    && mem[PAGE * p + NR_FREE] == k
    && Linked(mem, Threaded(p, w, k))
  }

  lemma InitStep(mem: seq<nat>, p: nat, w: nat, k: nat)
    requires w > 0 && Initialising(mem, p, w, k)
    ensures Slot(p, w, k) + w <= PAGE * (p + 1) <==> k < Cap(w)
    ensures Slot(p, w, k + 1) == Slot(p, w, k) + w
    ensures k < Cap(w) ==> OnPage(Slot(p, w, k), p) && Slot(p, w, k) >= PAGE * p + HEADER
    ensures k < Cap(w) ==>
      Initialising(SetHeader(mem[Slot(p, w, k) := mem[PAGE * p + FREE]], p, Slot(p, w, k), k + 1), p, w, k + 1)
  {
    hide Linked;
    var a, c := Slot(p, w, k), Threaded(p, w, k);
    hide Cap;
    CapBound(w);
    if k < Cap(w) {
      OffsetMono(k + 1, Cap(w), w);
      SlotBounds(p, w, k);
      ThreadedBelow(p, w, k);
      LinkMore(mem, c, a);
      var m := mem[a := mem[PAGE * p + FREE]];
      LinkFrame(m, SetHeader(m, p, a, k + 1), [a] + c);
    }
  }

  lemma SlotLow(p: nat, w: nat, k: nat)
    ensures PAGE * p + HEADER <= Slot(p, w, k)
  {}

  lemma ThreadedBelow(p: nat, w: nat, k: nat)
    requires w > 0 && k <= Cap(w)
    ensures forall x :: x in Threaded(p, w, k) ==> PAGE * p + HEADER <= x
    ensures forall x :: x in Threaded(p, w, k) ==> x != Slot(p, w, k)
  {
    hide Slot;
    hide Threaded;
    hide Cap;
    forall x | x in Threaded(p, w, k)
      ensures x != Slot(p, w, k) && PAGE * p + HEADER <= x
    {
      var i :| 0 <= i < k && Threaded(p, w, k)[i] == x;
      SlotsApart(p, w, k - 1 - i, k);
      SlotLow(p, w, k - 1 - i);
    }
  }

  lemma InitStart(mem: seq<nat>, p: nat, w: nat)
    requires w > 0 && p > 0 && PAGE * (p + 1) <= |mem|
    requires mem[PAGE * p + FREE] == 0 && mem[PAGE * p + OBJ_SIZE] == 8 * w && mem[PAGE * p + NR_FREE] == 0
    ensures Initialising(mem, p, w, 0) && Slot(p, w, 0) == PAGE * p + HEADER
  {}

  lemma InitDone(mem: seq<nat>, p: nat, w: nat)
    requires w > 0 && Initialising(mem, p, w, Cap(w))
    ensures HeaderOk(mem[PAGE * p + CAPACITY := mem[PAGE * p + NR_FREE]], p, w, Threaded(p, w, Cap(w)))
  {
    ThreadedBelow(p, w, Cap(w));
    LinkFrame(mem, mem[PAGE * p + CAPACITY := mem[PAGE * p + NR_FREE]], Threaded(p, w, Cap(w)));
  }

  /** Taking the first free object. */
  lemma TakeHeader(mem: seq<nat>, p: nat, w: nat, chain: seq<nat>)
    requires w > 0 && HeaderOk(mem, p, w, chain) && InPage(p, chain) && chain != []
    ensures mem[PAGE * p + FREE] == chain[0] && 0 < chain[0] < |mem| && mem[PAGE * p + NR_FREE] > 0
    ensures HeaderOk(SetHeader(mem, p, mem[chain[0]], mem[PAGE * p + NR_FREE] - 1), p, w, chain[1..])
  {
    LinkLess(mem, chain);
    assert forall a :: a in chain[1..] ==> a in chain;
    LinkFrame(mem, SetHeader(mem, p, mem[chain[0]], mem[PAGE * p + NR_FREE] - 1), chain[1..]);
  }

  /** Putting an object back in front. */
  lemma PutHeader(mem: seq<nat>, p: nat, w: nat, chain: seq<nat>, a: nat)
    requires w > 0 && HeaderOk(mem, p, w, chain) && InPage(p, chain)
    requires PAGE * p + HEADER <= a < PAGE * (p + 1) && a !in chain
    ensures var m := mem[a := mem[PAGE * p + FREE]];
      HeaderOk(SetHeader(m, p, a, mem[PAGE * p + NR_FREE] + 1), p, w, [a] + chain)
  {
    var m := mem[a := mem[PAGE * p + FREE]];
    LinkMore(mem, chain, a);
    LinkFrame(m, SetHeader(m, p, a, mem[PAGE * p + NR_FREE] + 1), [a] + chain);
  }
}
