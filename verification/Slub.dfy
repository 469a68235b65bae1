/** The SLUB object allocator: one cache of slab pages per object size, on pages as SlabPages describes them. */
module Slub {
  import opened Bits
  import opened Lists
  import opened Options
  import opened SlabPages

  const BUCKETS: nat := 9
  const BUCKET_SIZE: seq<nat> := [8, 16, 32, 64, 128, 256, 512, 1024, 2048]

  function Words(b: nat): (w: nat)
    requires b < BUCKETS
    ensures w > 0
  {
    BUCKET_SIZE[b] / 8
  }

  /** A snapshot: memory, the page list of every cache, the free chain of every held page, the live
      objects with the sizes asked for, and the pages left to the page allocator, out of all it manages. */
  datatype State = State(mem: seq<nat>, lists: seq<seq<nat>>, chain: map<nat, seq<nat>>, live: map<nat, nat>,
                         avail: set<nat>, all: set<nat>)

  ghost predicate PageAt(s: State, b: nat, p: nat)
    requires b < BUCKETS
  {
    p in s.chain && HeaderOk(s.mem, p, Words(b), s.chain[p]) && ChainOk(p, Words(b), s.chain[p], s.live)
  }

  ghost predicate LiveAt(s: State, b: nat, a: nat)
    requires b < BUCKETS && |s.lists| == BUCKETS && a in s.live
  {
    a / PAGE in s.lists[b] && IsSlot(a / PAGE, Words(b), a) && 0 < s.live[a] <= 8 * Words(b)
  }

  ghost predicate ListsOk(s: State) {
    && |s.lists| == BUCKETS && s.avail <= s.all
    && (forall b :: 0 <= b < BUCKETS ==> NoDup(s.lists[b]))
    && (forall b, c, p :: 0 <= b < BUCKETS && 0 <= c < BUCKETS && p in s.lists[b] && p in s.lists[c] ==> b == c)
    && (forall b, p :: 0 <= b < BUCKETS && p in s.lists[b] ==> p in s.all && p !in s.avail)
    && (forall p :: p in s.all ==> p in s.avail || exists b :: 0 <= b < BUCKETS && p in s.lists[b])
    && (forall p :: p in s.all ==> 0 < p && PAGE * (p + 1) <= |s.mem|)
  }

  /** The invariant, except that page `but` may be wholly free (page 0 is never held). */
  ghost predicate Inv(s: State, but: nat) {
    && ListsOk(s)
    && (forall b, p :: 0 <= b < BUCKETS && p in s.lists[b] ==> PageAt(s, b, p))
    && (forall b, p :: 0 <= b < BUCKETS && p in s.lists[b] && p != but ==> |s.chain[p]| < Cap(Words(b)))
    && (forall a :: a in s.live ==> exists b :: 0 <= b < BUCKETS && LiveAt(s, b, a))
  }

  lemma ChainInPage(p: nat, w: nat, chain: seq<nat>, live: map<nat, nat>)
    requires w > 0 && ChainOk(p, w, chain, live)
    ensures InPage(p, chain)
  {
    forall a | a in chain
      ensures PAGE * p + HEADER <= a < PAGE * (p + 1)
    {
      SlotFacts(p, w, a);
    }
  }

  /** Memory and the live objects agree outside page p. */
  ghost predicate SameOutside(s: State, t: State, p: nat) {
    && |t.mem| == |s.mem|
    && (forall i: nat :: i < |s.mem| && !OnPage(i, p) ==> t.mem[i] == s.mem[i])
    && (forall a: nat :: !OnPage(a, p) ==> (a in s.live <==> a in t.live) && (a in s.live ==> t.live[a] == s.live[a]))
    && (forall q :: q in s.chain && q != p ==> q in t.chain && t.chain[q] == s.chain[q])
  }

  /** A page is not affected by what happens inside another. */
  lemma PageElsewhere(s: State, t: State, b: nat, q: nat, p: nat)
    requires b < BUCKETS && q != p && PageAt(s, b, q) && SameOutside(s, t, p)
    ensures PageAt(t, b, q) && t.chain[q] == s.chain[q]
  {
    var w, chain := Words(b), s.chain[q];
    ChainInPage(q, w, chain, s.live);
    forall i | 0 <= i < |chain|
      ensures t.mem[chain[i]] == s.mem[chain[i]]
    {
      assert chain[i] in chain && !OnPage(chain[i], p);
    }
    assert forall i: nat :: OnPage(i, q) ==> !OnPage(i, p);
    forall i | PAGE * q <= i < PAGE * q + HEADER
      ensures t.mem[i] == s.mem[i]
    {
      assert OnPage(i, q);
    }
    HeaderFrame(s.mem, t.mem, q, w, chain);
    ChainFrame(q, w, chain, s.live, t.live);
  }

  /** All the other pages and live objects survive what happens inside page p. */
  lemma OthersKept(s: State, t: State, p: nat, but: nat)
    requires Inv(s, but) && (but == 0 || but == p) && SameOutside(s, t, p)
    ensures forall c, q :: 0 <= c < BUCKETS && q in s.lists[c] && q != p ==>
      PageAt(t, c, q) && |t.chain[q]| < Cap(Words(c))
  {
    hide HeaderOk;
    hide ChainOk;
    forall c, q | 0 <= c < BUCKETS && q in s.lists[c] && q != p
      ensures PageAt(t, c, q) && |t.chain[q]| < Cap(Words(c))
    {
      assert PageAt(s, c, q);
      assert q in s.all && q != 0;
      PageElsewhere(s, t, c, q, p);
    }
  }

  function Removed(live: map<nat, nat>, a: nat): map<nat, nat> {
    map x | x in live && x != a :: live[x]
  }

  ghost function Taken(s: State, p: nat, size: nat): State
    requires p in s.chain && s.chain[p] != [] && PAGE * (p + 1) <= |s.mem|
    requires s.chain[p][0] < |s.mem| && s.mem[PAGE * p + NR_FREE] > 0
  {
    var a := s.chain[p][0];
    s.(mem := SetHeader(s.mem, p, s.mem[a], s.mem[PAGE * p + NR_FREE] - 1),
       chain := s.chain[p := s.chain[p][1..]],
       live := s.live[a := size])
  }

  /** Handing out the first free object of a page, as the page sees it. */
  lemma TakePage(s: State, b: nat, p: nat, size: nat)
    requires b < BUCKETS && PageAt(s, b, p) && s.chain[p] != [] && 0 < size <= 8 * Words(b)
    ensures p in s.chain && PAGE * (p + 1) <= |s.mem| && 0 < s.chain[p][0] < |s.mem| && s.mem[PAGE * p + NR_FREE] > 0
    ensures var a := s.chain[p][0];
      a == s.mem[PAGE * p + FREE] && a !in s.live && a / PAGE == p && OnPage(a, p) && IsSlot(p, Words(b), a)
    ensures var t := Taken(s, p, size);
      PageAt(t, b, p) && |t.chain[p]| < Cap(Words(b)) && SameOutside(s, t, p)
  {
    hide Linked;
    hide Cap;
    var w, a := Words(b), s.chain[p][0];
    ChainInPage(p, w, s.chain[p], s.live);
    TakeHeader(s.mem, p, w, s.chain[p]);
    FullChain(p, w, s.chain[p], s.live);
    assert a in s.chain[p];
    SlotFacts(p, w, a);
    TakeChain(p, w, s.chain[p], s.live, size);
  }

  lemma TakeInv(s: State, b: nat, p: nat, size: nat, but: nat)
    requires Inv(s, but) && (but == 0 || but == p) && b < BUCKETS && p in s.lists[b] && s.chain[p] != []
    requires 0 < size <= 8 * Words(b)
    ensures p in s.chain && PAGE * (p + 1) <= |s.mem| && 0 < s.chain[p][0] < |s.mem| && s.mem[PAGE * p + NR_FREE] > 0
    ensures s.chain[p][0] == s.mem[PAGE * p + FREE] && s.chain[p][0] !in s.live
    ensures Inv(Taken(s, p, size), 0) && LiveAt(Taken(s, p, size), b, s.chain[p][0]) && s.chain[p][0] / PAGE == p
  {
    hide PageAt;
    hide ListsOk;
    hide Cap;
    hide IsSlot;
    OnLists(s);
    TakePage(s, b, p, size);
    var t := Taken(s, p, size);
    OthersKept(s, t, p, but);
    assert LiveAt(t, b, s.chain[p][0]);
    TakeLive(s, t, b, s.chain[p][0], size);
    SameLists(s, t);
    OneList(s, b, p);
  }

  lemma OnLists(s: State)
    requires ListsOk(s)
    ensures |s.lists| == BUCKETS
  {}

  lemma SameLists(s: State, t: State)
    requires ListsOk(s) && t.lists == s.lists && t.avail == s.avail && t.all == s.all && |t.mem| == |s.mem|
    ensures ListsOk(t)
  {}

  lemma OneList(s: State, b: nat, p: nat)
    requires ListsOk(s) && b < BUCKETS && p in s.lists[b]
    ensures forall c :: 0 <= c < BUCKETS && p in s.lists[c] ==> c == b
  {}

  lemma TakeLive(s: State, t: State, b: nat, a: nat, size: nat)
    requires b < BUCKETS && |s.lists| == BUCKETS && t.lists == s.lists && t.live == s.live[a := size]
    requires forall x :: x in s.live ==> exists c :: 0 <= c < BUCKETS && LiveAt(s, c, x)
    requires LiveAt(t, b, a)
    ensures forall x :: x in t.live ==> exists c :: 0 <= c < BUCKETS && LiveAt(t, c, x)
  {
    hide IsSlot;
    forall x | x in t.live
      ensures exists c :: 0 <= c < BUCKETS && LiveAt(t, c, x)
    {
      if x != a {
        var c :| 0 <= c < BUCKETS && LiveAt(s, c, x);
        assert LiveAt(t, c, x);
      }
    }
  }

  lemma TakeChain(p: nat, w: nat, chain: seq<nat>, live: map<nat, nat>, size: nat)
    requires w > 0 && ChainOk(p, w, chain, live) && chain != []
    ensures ChainOk(p, w, chain[1..], live[chain[0] := size])
  {
    assert chain == [chain[0]] + chain[1..];
    assert forall a :: a in chain[1..] ==> a != chain[0];
  }

  ghost function PutBack(s: State, p: nat, a: nat): State
    requires p in s.chain && PAGE * (p + 1) <= |s.mem| && a < |s.mem|
  {
    var m := s.mem[a := s.mem[PAGE * p + FREE]];
    s.(mem := SetHeader(m, p, a, s.mem[PAGE * p + NR_FREE] + 1),
       chain := s.chain[p := [a] + s.chain[p]],
       live := Removed(s.live, a))
  }

  lemma PutChain(p: nat, w: nat, chain: seq<nat>, live: map<nat, nat>, a: nat)
    requires w > 0 && ChainOk(p, w, chain, live) && a in live && IsSlot(p, w, a)
    ensures ChainOk(p, w, [a] + chain, Removed(live, a)) && a !in chain
  {
    assert a !in chain;
    PushEffect(chain, a);
  }

  /** Giving a live object back, as the page sees it. */
  lemma PutPage(s: State, b: nat, p: nat, a: nat)
    requires b < BUCKETS && PageAt(s, b, p) && a in s.live && IsSlot(p, Words(b), a)
    ensures p in s.chain && PAGE * (p + 1) <= |s.mem| && a < |s.mem| && OnPage(a, p) && a !in s.chain[p]
    ensures PAGE * p + HEADER <= a
    ensures var t := PutBack(s, p, a); PageAt(t, b, p) && SameOutside(s, t, p)
  {
    hide Linked;
    hide Cap;
    hide IsSlot;
    ChainInPage(p, Words(b), s.chain[p], s.live);
    SlotFacts(p, Words(b), a);
    PutChain(p, Words(b), s.chain[p], s.live, a);
    PutHeader(s.mem, p, Words(b), s.chain[p], a);
  }

  lemma PutInv(s: State, b: nat, p: nat, a: nat)
    requires Inv(s, 0) && b < BUCKETS && p in s.lists[b] && a in s.live && IsSlot(p, Words(b), a)
    ensures p in s.chain && PAGE * (p + 1) <= |s.mem| && a < |s.mem|
    ensures Inv(PutBack(s, p, a), p)
  {
    hide PageAt;
    hide ListsOk;
    hide Cap;
    hide IsSlot;
    hide LiveAt;
    OnLists(s);
    PutPage(s, b, p, a);
    var t := PutBack(s, p, a);
    OthersKept(s, t, p, 0);
    PutLive(s, t, a);
    SameLists(s, t);
    OneList(s, b, p);
  }

  lemma PutLive(s: State, t: State, a: nat)
    requires |s.lists| == BUCKETS && t.lists == s.lists && t.live == Removed(s.live, a)
    requires forall x :: x in s.live ==> exists c :: 0 <= c < BUCKETS && LiveAt(s, c, x)
    ensures forall x :: x in t.live ==> exists c :: 0 <= c < BUCKETS && LiveAt(t, c, x)
  {
    hide IsSlot;
    forall x | x in t.live
      ensures exists c :: 0 <= c < BUCKETS && LiveAt(t, c, x)
    {
      var c :| 0 <= c < BUCKETS && LiveAt(s, c, x);
      assert LiveAt(t, c, x);
    }
  }

  /** The bucket and page a live object belongs to. */
  lemma LiveHome(s: State, a: nat) returns (b: nat)
    requires Inv(s, 0) && a in s.live
    ensures b < BUCKETS && a / PAGE in s.lists[b] && IsSlot(a / PAGE, Words(b), a) && PageAt(s, b, a / PAGE)
  {
    b :| b < BUCKETS && LiveAt(s, b, a);
  }

  /** Returning a wholly free page: off its list, header cleared, back to the page allocator. */
  ghost function Released(s: State, b: nat, p: nat): State
    requires b < |s.lists| && PAGE * (p + 1) <= |s.mem|
  {
    s.(mem := s.mem[PAGE * p + FREE := 0][PAGE * p + OBJ_SIZE := 0][PAGE * p + NR_FREE := 0][PAGE * p + CAPACITY := 0],
       lists := s.lists[b := Delete(s.lists[b], p)],
       avail := s.avail + {p})
  }

  lemma ReleaseInv(s: State, b: nat, p: nat)
    requires Inv(s, p) && b < BUCKETS && p in s.lists[b] && |s.chain[p]| >= Cap(Words(b))
    ensures PAGE * (p + 1) <= |s.mem| && Inv(Released(s, b, p), 0)
  {
    hide Cap;
    hide IsSlot;
    hide HeaderOk;
    hide ChainOk;
    hide SetHeader;
    assert PageAt(s, b, p) && p in s.all;
    var t := Released(s, b, p);
    assert SameOutside(s, t, p);
    OthersKept(s, t, p, p);
    OneList(s, b, p);
    DeleteEffect(s.lists[b], p);
    ReleaseLists(s, b, p);
    NoneLive(s, b, p);
    forall x | x in t.live
      ensures exists c :: 0 <= c < BUCKETS && LiveAt(t, c, x)
    {
      var c :| 0 <= c < BUCKETS && LiveAt(s, c, x);
      assert LiveAt(t, c, x);
    }
  }

  lemma ReleaseLists(s: State, b: nat, p: nat)
    requires ListsOk(s) && b < BUCKETS && p in s.lists[b] && PAGE * (p + 1) <= |s.mem|
    ensures ListsOk(Released(s, b, p))
  {
    var t := Released(s, b, p);
    DeleteEffect(s.lists[b], p);
    OneList(s, b, p);
    forall q | q in t.all
      ensures q in t.avail || exists c :: 0 <= c < BUCKETS && q in t.lists[c]
    {
      if q !in s.avail && q != p {
        var c :| 0 <= c < BUCKETS && q in s.lists[c];
        assert q in t.lists[c];
      }
    }
  }

  /** No object of a wholly free page is live. */
  lemma NoneLive(s: State, b: nat, p: nat)
    requires Inv(s, p) && b < BUCKETS && p in s.lists[b] && |s.chain[p]| >= Cap(Words(b))
    ensures forall a :: a in s.live ==> a / PAGE != p
  {
    assert PageAt(s, b, p);
    FullChain(p, Words(b), s.chain[p], s.live);
    forall a | a in s.live
      ensures a / PAGE != p
    {
      var c :| 0 <= c < BUCKETS && LiveAt(s, c, a);
      if a / PAGE == p { OneList(s, b, p); }
    }
  }

  /** A page fresh from the page allocator, initialised and put first on the list of cache b. */
  ghost function Held(s: State, b: nat, p: nat, mem: seq<nat>): State
    requires b < BUCKETS && |s.lists| == BUCKETS
  {
    s.(mem := mem, lists := s.lists[b := [p] + s.lists[b]], avail := s.avail - {p},
       chain := s.chain[p := Threaded(p, Words(b), Cap(Words(b)))])
  }

  lemma HoldInv(s: State, b: nat, p: nat, mem: seq<nat>)
    requires Inv(s, 0) && b < BUCKETS && p in s.avail && |mem| == |s.mem|
    requires forall i: nat :: i < |mem| && !OnPage(i, p) ==> mem[i] == s.mem[i]
    requires HeaderOk(mem, p, Words(b), Threaded(p, Words(b), Cap(Words(b))))
    ensures |s.lists| == BUCKETS && Inv(Held(s, b, p, mem), p)
  {
    hide PageAt;
    hide ListsOk;
    hide Cap;
    hide IsSlot;
    hide LiveAt;
    hide HeaderOk;
    OnLists(s);
    var t := Held(s, b, p, mem);
    HoldLists(s, b, p, mem);
    HoldPage(s, b, p, mem);
    OthersKept(s, t, p, 0);
    HoldLive(s, t);
  }

  lemma HoldPage(s: State, b: nat, p: nat, mem: seq<nat>)
    requires Inv(s, 0) && b < BUCKETS && p in s.avail && |mem| == |s.mem|
    requires forall i: nat :: i < |mem| && !OnPage(i, p) ==> mem[i] == s.mem[i]
    requires HeaderOk(mem, p, Words(b), Threaded(p, Words(b), Cap(Words(b))))
    ensures |s.lists| == BUCKETS && SameOutside(s, Held(s, b, p, mem), p) && PageAt(Held(s, b, p, mem), b, p)
  {
    hide Cap;
    hide IsSlot;
    hide HeaderOk;
    hide ChainOk;
    NoneThere(s, p);
    ThreadedOk(p, Words(b), s.live);
  }

  lemma HoldLive(s: State, t: State)
    requires |s.lists| == |t.lists| == BUCKETS && t.live == s.live
    requires forall c, q :: 0 <= c < BUCKETS && q in s.lists[c] ==> q in t.lists[c]
    requires forall x :: x in s.live ==> exists c :: 0 <= c < BUCKETS && LiveAt(s, c, x)
    ensures forall x :: x in t.live ==> exists c :: 0 <= c < BUCKETS && LiveAt(t, c, x)
  {
    hide IsSlot;
    forall x | x in t.live
      ensures exists c :: 0 <= c < BUCKETS && LiveAt(t, c, x)
    {
      var c :| 0 <= c < BUCKETS && LiveAt(s, c, x);
      assert LiveAt(t, c, x);
    }
  }

  lemma HoldLists(s: State, b: nat, p: nat, mem: seq<nat>)
    requires ListsOk(s) && b < BUCKETS && p in s.avail && |mem| == |s.mem|
    ensures ListsOk(Held(s, b, p, mem))
    ensures forall c, q :: 0 <= c < BUCKETS ==>
      (q in Held(s, b, p, mem).lists[c] <==> q in s.lists[c] || (c == b && q == p))
  {
    var t := Held(s, b, p, mem);
    PushEffect(s.lists[b], p);
    forall q | q in t.all
      ensures q in t.avail || exists c :: 0 <= c < BUCKETS && q in t.lists[c]
    {
      if q == p {
        assert q in t.lists[b];
      } else if q !in s.avail {
        var c :| 0 <= c < BUCKETS && q in s.lists[c];
        assert q in t.lists[c];
      }
    }
  }

  /** A page of the page allocator has no live object. */
  lemma NoneThere(s: State, p: nat)
    requires Inv(s, 0) && p in s.avail
    ensures forall a: nat :: OnPage(a, p) ==> a !in s.live
  {
    hide HeaderOk;
    hide ChainOk;
    hide IsSlot;
    forall a | a in s.live
      ensures !OnPage(a, p)
    {
      var c :| 0 <= c < BUCKETS && LiveAt(s, c, a);
      assert a / PAGE in s.all && a / PAGE != p;
    }
  }

  // ---- what the invariant means ----

  /** Word i lies in the live object a, of cache b. */
  ghost predicate InObject(s: State, b: nat, a: nat, i: nat)
    requires b < BUCKETS && |s.lists| == BUCKETS
  {
    a in s.live && LiveAt(s, b, a) && a <= i < a + Words(b)
  }

  /** Live objects are as large as asked for, inside one page, clear of its header. */
  lemma LiveObject(s: State, b: nat, a: nat)
    requires Inv(s, 0) && b < BUCKETS && a in s.live && LiveAt(s, b, a)
    ensures var p := a / PAGE; p in s.all && p !in s.avail && PAGE * p + HEADER <= a && a + Words(b) <= PAGE * (p + 1)
    ensures 8 * Words(b) >= s.live[a] && a > 0
  {
    hide PageAt;
    SlotFacts(a / PAGE, Words(b), a);
  }

  /** Different live objects do not overlap. */
  lemma LiveDisjoint(s: State, b: nat, a: nat, c: nat, d: nat)
    requires Inv(s, 0) && b < BUCKETS && c < BUCKETS && a in s.live && d in s.live && a != d
    requires LiveAt(s, b, a) && LiveAt(s, c, d)
    ensures a + Words(b) <= d || d + Words(c) <= a
  {
    hide PageAt;
    hide IsSlot;
    var p, q := a / PAGE, d / PAGE;
    if p == q {
      OneList(s, b, p);
      TwoSlots(p, Words(b), a, d);
    } else {
      SlotFacts(p, Words(b), a);
      SlotFacts(q, Words(c), d);
    }
  }

  /** The allocator's own words - headers and free objects - are outside every live object. */
  lemma OwnWords(s: State, b: nat, a: nat, i: nat, c: nat, p: nat)
    requires Inv(s, 0) && b < BUCKETS && |s.lists| == BUCKETS && InObject(s, b, a, i)
    requires c < BUCKETS && p in s.lists[c]
    ensures !(PAGE * p <= i < PAGE * p + HEADER) && p in s.chain && i !in s.chain[p]
  {
    hide *;
    ObjectFacts(s, b, a, i);
    HeldPage(s, c, p);
    PageFacts(s, c, p);
    if a / PAGE == p {
      InvOneList(s, b, p);
      if i in s.chain[p] { ChainApart(s, b, p, a, i); }
    } else {
      PagesApart(i, a / PAGE, p);
    }
  }

  lemma ObjectFacts(s: State, b: nat, a: nat, i: nat)
    requires Inv(s, 0) && b < BUCKETS && |s.lists| == BUCKETS && InObject(s, b, a, i)
    ensures a in s.live && a / PAGE in s.lists[b] && IsSlot(a / PAGE, Words(b), a) && a <= i < a + Words(b)
    ensures OnPage(i, a / PAGE) && PAGE * (a / PAGE) + HEADER <= i
  {
    SlotFacts(a / PAGE, Words(b), a);
  }

  lemma PageFacts(s: State, c: nat, p: nat)
    requires c < BUCKETS && PageAt(s, c, p)
    ensures p in s.chain && ChainOk(p, Words(c), s.chain[p], s.live)
    ensures forall i :: i in s.chain[p] ==> OnPage(i, p)
  {
    ChainInPage(p, Words(c), s.chain[p], s.live);
  }

  lemma InvOneList(s: State, b: nat, p: nat)
    requires Inv(s, 0) && b < BUCKETS && p in s.lists[b]
    ensures forall c :: 0 <= c < BUCKETS && p in s.lists[c] ==> c == b
  {}

  /** A free object does not meet a live one of its page. */
  lemma ChainApart(s: State, b: nat, p: nat, a: nat, i: nat)
    requires b < BUCKETS && p in s.chain && ChainOk(p, Words(b), s.chain[p], s.live)
    requires a in s.live && IsSlot(p, Words(b), a) && i in s.chain[p]
    ensures !(a <= i < a + Words(b))
  {
    hide IsSlot;
    TwoSlots(p, Words(b), a, i);
  }

  lemma PagesApart(i: nat, q: nat, p: nat)
    requires OnPage(i, q) && q != p
    ensures !OnPage(i, p) && !(PAGE * p <= i < PAGE * p + HEADER)
  {}

  /** Every word that differs lies in some live object. */
  ghost predicate OnlyObjectsDiffer(s: State, mem: seq<nat>)
    requires Inv(s, 0) && |mem| == |s.mem|
  {
    forall i: nat :: i < |mem| && mem[i] != s.mem[i] ==>
      exists b, a :: 0 <= b < BUCKETS && InObject(s, b, a, i)
  }

  /** Whatever clients write inside live objects, the invariant and the whole allocator state stand. */
  lemma UserWrites(s: State, mem: seq<nat>)
    requires Inv(s, 0) && |mem| == |s.mem|
    requires OnlyObjectsDiffer(s, mem)
    ensures Inv(s.(mem := mem), 0)
  {
    hide IsSlot;
    hide Cap;
    var t := s.(mem := mem);
    forall c, p | 0 <= c < BUCKETS && p in s.lists[c]
      ensures PageAt(t, c, p)
    {
      WritesKeepPage(s, mem, c, p);
    }
    SameLists(s, t);
    HoldLive(s, t);
  }

  lemma WritesKeepPage(s: State, mem: seq<nat>, c: nat, p: nat)
    requires Inv(s, 0) && |mem| == |s.mem| && c < BUCKETS && p in s.lists[c]
    requires OnlyObjectsDiffer(s, mem)
    ensures PageAt(s.(mem := mem), c, p)
  {
    hide IsSlot;
    hide Cap;
    hide ListsOk;
    OnLists(s);
    assert PageAt(s, c, p);
    forall i: nat | i < |mem| && (PAGE * p <= i < PAGE * p + HEADER || i in s.chain[p])
      ensures mem[i] == s.mem[i]
    {
      if mem[i] != s.mem[i] {
        var b, a :| 0 <= b < BUCKETS && InObject(s, b, a, i);
        OwnWords(s, b, a, i, c, p);
        assert false;
      }
    }
    assert forall k :: 0 <= k < |s.chain[p]| ==> s.chain[p][k] in s.chain[p];
    HeaderFrame(s.mem, mem, p, Words(c), s.chain[p]);
  }

  /** No cached page is wholly free. */
  lemma SomeLive(s: State, b: nat, p: nat) returns (a: nat)
    requires Inv(s, 0) && b < BUCKETS && p in s.lists[b]
    ensures a in s.live && IsSlot(p, Words(b), a)
  {
    hide Cap;
    hide IsSlot;
    assert p in s.all && p != 0;
    assert PageAt(s, b, p);
    FullChain(p, Words(b), s.chain[p], s.live);
    a :| IsSlot(p, Words(b), a) && a in s.live;
  }

  /** Freeing every object empties every cache and gives every page back. */
  lemma AllFreed(s: State)
    requires Inv(s, 0) && s.live == map[]
    ensures s.avail == s.all && |s.lists| == BUCKETS && forall b :: 0 <= b < BUCKETS ==> s.lists[b] == []
  {
    hide IsSlot;
    forall b | 0 <= b < BUCKETS
      ensures s.lists[b] == []
    {
      if s.lists[b] != [] {
        var p := s.lists[b][0];
        var a := SomeLive(s, b, p);
        assert false;
      }
    }
    forall p | p in s.all
      ensures p in s.avail
    {}
  }

  /** The number of pages on the first n caches. */
  function HeldPages(lists: seq<seq<nat>>, n: nat): nat
    requires n <= |lists|
  {
    if n == 0 then 0 else HeldPages(lists, n - 1) + |lists[n - 1]|
  }

  lemma {:induction false} HeldSet(s: State, n: nat) returns (held: set<nat>)
    requires ListsOk(s) && n <= BUCKETS
    ensures |held| == HeldPages(s.lists, n)
    ensures forall p :: p in held <==> exists b :: 0 <= b < n && p in s.lists[b]
  {
    if n == 0 {
      held := {};
    } else {
      var before := HeldSet(s, n - 1);
      var M := Members(s.lists[n - 1]);
      MembersSize(s.lists[n - 1]);
      assert before !! M;
      held := before + M;
    }
  }

  /** Pages held plus pages left to the page allocator are all the pages there are. */
  lemma PagesConserved(s: State)
    requires Inv(s, 0)
    ensures HeldPages(s.lists, BUCKETS) + |s.avail| == |s.all|
  {
    hide PageAt;
    hide IsSlot;
    hide Cap;
    hide NoDup;
    var held := HeldSet(s, BUCKETS);
    assert held !! s.avail;
    assert s.all == held + s.avail;
  }

  /** No word of a live object other than `but` differs. */
  ghost predicate ObjectsKept(s: State, mem: seq<nat>, but: nat)
    requires |s.lists| == BUCKETS
  {
    && |mem| == |s.mem|
    && forall b, a, i: nat :: 0 <= b < BUCKETS && a != but && i < |mem| && InObject(s, b, a, i) ==> mem[i] == s.mem[i]
  }

  /** Changes to the header of a held page, and inside one live object, touch no other live object. */
  lemma HeaderWritesKeep(s: State, c: nat, p: nat, mem: seq<nat>, d: nat)
    requires Inv(s, 0) && c < BUCKETS && p in s.lists[c] && |mem| == |s.mem|
    requires forall i: nat :: i < |mem| && mem[i] != s.mem[i] ==> PAGE * p <= i < PAGE * p + HEADER || i == d
    requires d == 0 || (d in s.live && LiveAt(s, c, d) && d / PAGE == p)
    ensures ObjectsKept(s, mem, d)
  {
    hide IsSlot;
    hide ListsOk;
    hide PageAt;
    hide LiveAt;
    OnLists(s);
    forall b, a, i: nat | 0 <= b < BUCKETS && a != d && i < |mem| && InObject(s, b, a, i)
      ensures mem[i] == s.mem[i]
    {
      OwnWords(s, b, a, i, c, p);
      LiveObject(s, b, a);
      if d != 0 {
        LiveDisjoint(s, b, a, c, d);
      }
    }
  }

  /** Nor do changes inside a page of the page allocator. */
  lemma FreshPageKeeps(s: State, p: nat, mem: seq<nat>)
    requires Inv(s, 0) && p in s.avail && |mem| == |s.mem|
    requires forall i: nat :: i < |mem| && !OnPage(i, p) ==> mem[i] == s.mem[i]
    ensures ObjectsKept(s, mem, 0)
  {
    hide IsSlot;
    hide PageAt;
    forall b, a, i: nat | 0 <= b < BUCKETS && i < |mem| && InObject(s, b, a, i)
      ensures mem[i] == s.mem[i]
    {
      LiveObject(s, b, a);
    }
  }

  // ---- runs ----

  /** What a client does: ask for up to 2048 bytes, free the k-th object it holds, or write a word of it. */
  datatype Call = Alloc(size: nat) | Free(k: nat) | Write(k: nat, offset: nat, value: nat)

  /** The objects a client holds, with the sizes it asked for, are the live ones. */
  ghost predicate Holds(held: seq<(nat, nat)>, live: map<nat, nat>) {
    && |held| == |live|
    && (forall i :: 0 <= i < |held| ==> held[i].0 in live && live[held[i].0] == held[i].1)
    && (forall i, j :: 0 <= i < j < |held| ==> held[i].0 != held[j].0)
  }

  lemma HoldsLess(held: seq<(nat, nat)>, live: map<nat, nat>, k: nat)
    requires Holds(held, live) && k < |held|
    ensures Holds(held[..k] + held[k + 1..], Removed(live, held[k].0))
  {
    var held' := held[..k] + held[k + 1..];
    assert Removed(live, held[k].0).Keys == live.Keys - {held[k].0};
    forall i | 0 <= i < |held'|
      ensures held'[i].0 in Removed(live, held[k].0) && Removed(live, held[k].0)[held'[i].0] == held'[i].1
    {
      assert held'[i] == held[if i < k then i else i + 1];
    }
  }

  /** A moment between two calls: the allocator, and what clients hold. */
  datatype Moment = Moment(state: State, held: seq<(nat, nat)>)

  ghost predicate StepOf(c: Call, a: Moment, b: Moment) {
    (c.Alloc? ==> c.size <= 2048) && |a.state.lists| == BUCKETS && Step(c, a, b)
  }

  /** What one call does. A request is refused exactly when it is empty, or no page is left and no held page of its
      bucket has a free object; a write changes the word named and nothing else. */
  ghost predicate Step(c: Call, a: Moment, b: Moment)
    requires c.Alloc? ==> c.size <= 2048
    requires |a.state.lists| == BUCKETS
  {
    match c
    case Alloc(size) =>
      if size == 0 || (a.state.avail == {} && NoneLeft(a.state, Bucket(size))) then b == a
      else exists o: nat :: Granted(a.state, size, o, b.state) && b.held == a.held + [(o, size)]
    case Free(k) =>
      if k < |a.held| then Freed(a.state, a.held[k].0, b.state) && b.held == a.held[..k] + a.held[k + 1..] else b == a
    case Write(k, offset, value) =>
      if k < |a.held| && 8 * offset + 8 <= a.held[k].1 then
        && a.held[k].0 + offset < |a.state.mem|
        && b == a.(state := a.state.(mem := a.state.mem[a.held[k].0 + offset := value]))
      else b == a
  }

  // ---- what a request and a release do ----

  ghost predicate NoneOn(s: State, p: nat) {
    p in s.chain && s.chain[p] == []
  }

  /** No page of cache b has a free object. */
  ghost predicate NoneLeft(s: State, b: nat)
    requires b < |s.lists|
  {
    forall p :: p in s.lists[b] ==> NoneOn(s, p)
  }

  /** Page p is the first on the list of cache b that has a free object. */
  ghost predicate FirstWithFree(s: State, b: nat, p: nat)
    requires b < |s.lists|
  {
    && p in s.chain && s.chain[p] != []
    && exists i :: 0 <= i < |s.lists[b]| && s.lists[b][i] == p && forall j :: 0 <= j < i ==> NoneOn(s, s.lists[b][j])
  }

  /** The object is the first free one of that page; no page is taken or moved. */
  ghost predicate FromHeldPage(s: State, b: nat, o: nat, t: State)
    requires b < |s.lists|
  {
    var p := o / 512;
    && FirstWithFree(s, b, p) && o == s.chain[p][0] && t.chain == s.chain[p := s.chain[p][1..]]
    && t.lists == s.lists && t.avail == s.avail
  }

  /** No held page of the cache has a free object; one page of the page allocator becomes the first of this cache
      alone, and all its objects but the one granted are free. */
  ghost predicate FromNewPage(s: State, b: nat, o: nat, t: State)
    requires b < |s.lists| == BUCKETS
  {
    var p := o / 512;
    && NoneLeft(s, b) && p in s.avail && t.avail == s.avail - {p} && t.lists == s.lists[b := [p] + s.lists[b]]
    && p in t.chain && [o] + t.chain[p] == Threaded(p, Words(b), Cap(Words(b))) && t.chain == s.chain[p := t.chain[p]]
  }

  /** A request that is met: an object of the least sufficient bucket that was not live. */
  ghost predicate Granted(s: State, size: nat, o: nat, t: State)
    requires size <= 2048 && |s.lists| == BUCKETS
  {
    && o != 0 && o !in s.live && t.live == s.live[o := size] && t.all == s.all
    && |t.lists| == BUCKETS && LiveAt(t, Bucket(size), o) && ObjectsKept(s, t.mem, 0)
    && (FromHeldPage(s, Bucket(size), o, t) || FromNewPage(s, Bucket(size), o, t))
  }

  /** A live object is given back: it becomes the first free one of its page, and a page left without live objects
      goes from its list to the page allocator. */
  ghost predicate Freed(s: State, a: nat, t: State)
    requires |s.lists| == BUCKETS
  {
    var p := a / 512;
    && a in s.live && t.live == Removed(s.live, a) && t.all == s.all && ObjectsKept(s, t.mem, a)
    && p in s.chain && t.chain == s.chain[p := [a] + s.chain[p]]
    && if exists x :: x in t.live && x / 512 == p then t.avail == s.avail && t.lists == s.lists
       else t.avail == s.avail + {p} && exists b :: 0 <= b < BUCKETS && OffList(s, b, p, t)
  }

  ghost predicate OffList(s: State, b: nat, p: nat, t: State)
    requires b < |s.lists|
  {
    |t.lists| == |s.lists| && Dropped(s.lists[b], p, t.lists[b]) && t.lists == s.lists[b := t.lists[b]]
  }

  lemma GrantedLive(s: State, size: nat, o: nat, t: State)
    requires size <= 2048 && |s.lists| == BUCKETS && Granted(s, size, o, t)
    ensures o != 0 && o !in s.live && t.live == s.live[o := size]
  {}

  lemma StepAlloc(size: nat, a: Moment, b: Moment, o: nat)
    requires size <= 2048 && |a.state.lists| == BUCKETS
    requires o == 0 <==> size == 0 || (a.state.avail == {} && NoneLeft(a.state, Bucket(size)))
    requires o == 0 ==> b == a
    requires o != 0 ==> Granted(a.state, size, o, b.state) && b.held == a.held + [(o, size)]
    ensures Step(Alloc(size), a, b)
  {
    hide Granted;
    hide NoneLeft;
    hide Bucket;
  }

  // ---- the allocator itself ----

  /** The least bucket whose objects hold `size` bytes. */
  ghost function Bucket(size: nat): (b: nat)
    requires size <= 2048
    ensures b < BUCKETS && size <= BUCKET_SIZE[b] && forall c :: 0 <= c < b ==> BUCKET_SIZE[c] < size
  {
    assert size <= BUCKET_SIZE[8];
    BucketFrom(size, 0)
  }

  /** The buckets double from 8 bytes to 2048, so the least sufficient one is less than twice too large. */
  lemma BucketSizes(b: nat, size: nat)
    requires b < BUCKETS
    ensures |BUCKET_SIZE| == 9 && BUCKET_SIZE[b] == 8 * Pow2(b) == 8 * Words(b)
    ensures size <= 2048 ==> (Bucket(size) == b <==> size <= 8 * Pow2(b) && (b > 0 ==> 4 * Pow2(b) < size))
  {
    hide BucketFrom;
    assert Pow2(0) == 1 && Pow2(1) == 2 && Pow2(2) == 4 && Pow2(3) == 8;
    assert Pow2(4) == 16 && Pow2(5) == 32 && Pow2(6) == 64 && Pow2(7) == 128 && Pow2(8) == 256;
  }

  ghost function BucketFrom(size: nat, i: nat): (b: nat)
    requires i < BUCKETS && size <= BUCKET_SIZE[8] && forall c :: 0 <= c < i ==> BUCKET_SIZE[c] < size
    ensures b < BUCKETS && size <= BUCKET_SIZE[b] && forall c :: 0 <= c < b ==> BUCKET_SIZE[c] < size
    decreases BUCKETS - i
  {
    if size <= BUCKET_SIZE[i] then i else BucketFrom(size, i + 1)
  }

  class Allocator {
    const mem: array<nat>
    const caches: array<seq<nat>>  // the slab pages of each cache, first to last
    const nrPages: array<nat>
    var avail: set<nat>            // the pages left to the page allocator
    ghost const all: set<nat>
    ghost var chain: map<nat, seq<nat>>
    ghost var live: map<nat, nat>

    ghost function Snap(): State
      reads this, mem, caches
    {
      State(mem[..], caches[..], chain, live, avail, all)
    }

    ghost predicate Shape()
      reads nrPages, caches
    {
      && caches.Length == nrPages.Length == BUCKETS && mem != nrPages
      && forall b :: 0 <= b < BUCKETS ==> nrPages[b] == |caches[b]|
    }

    ghost predicate Valid()
      reads this, mem, caches, nrPages
    {
      Shape() && Inv(Snap(), 0)
    }

    constructor (words: nat, pages: set<nat>)
      requires forall p :: p in pages ==> 0 < p && PAGE * (p + 1) <= words
      ensures fresh(mem) && fresh(caches) && fresh(nrPages)
      ensures Valid() && live == map[] && avail == all == pages
    {
      mem := new nat[words](_ => 0);
      caches := new seq<nat>[BUCKETS](_ => []);
      nrPages := new nat[BUCKETS](_ => 0);
      avail, all, chain, live := pages, pages, map[], map[];
      new;
      Init();
    }

    /** slub_init: every cache starts with no page. */
    method Init()
      requires caches.Length == nrPages.Length == BUCKETS && mem != nrPages
      requires live == map[] && avail == all && forall p :: p in all ==> 0 < p && PAGE * (p + 1) <= mem.Length
      modifies caches, nrPages
      ensures Valid()
    {
      for i := 0 to BUCKETS
        invariant forall b :: 0 <= b < i ==> caches[b] == [] && nrPages[b] == 0
      {
        caches[i] := [];
        nrPages[i] := 0;
      }
    }

    /** The least bucket whose objects hold `size` bytes. */
    static method SizeToBucket(size: nat) returns (r: Option<nat>)
      ensures r.Some? ==> r.value < BUCKETS && size <= BUCKET_SIZE[r.value]
      ensures r.Some? ==> forall c :: 0 <= c < r.value ==> BUCKET_SIZE[c] < size
      ensures r.None? <==> size > 2048
      ensures r.Some? ==> r.value == Bucket(size)
    {
      for i := 0 to BUCKETS
        invariant forall c :: 0 <= c < i ==> BUCKET_SIZE[c] < size
      {
        if size <= BUCKET_SIZE[i] { return Some(i); }
      }
      assert BUCKET_SIZE[8] == 2048;
      r := None;
    }

    /** slab_page_init: the header is written and every object threaded. */
    method SlabPageInit(p: nat, size: nat)
      requires p > 0 && PAGE * (p + 1) <= mem.Length && size > 0 && size % 8 == 0
      modifies mem
      ensures HeaderOk(mem[..], p, size / 8, Threaded(p, size / 8, Cap(size / 8)))
      ensures forall i: nat :: i < mem.Length && !OnPage(i, p) ==> mem[i] == old(mem[i])
    {
      hide Linked;
      hide Cap;
      hide Slot;
      hide Threaded;
      var sp := PAGE * p;
      mem[sp + FREE] := 0;
      mem[sp + OBJ_SIZE] := size;
      mem[sp + NR_FREE] := 0;
      var base, end, stride := sp + HEADER, sp + PAGE, (size + 7) / 8;
      var cur: nat := base;
      ghost var k: nat := 0;
      InitStart(mem[..], p, stride);
      InitStep(mem[..], p, stride, k);
      while cur + stride <= end
        invariant cur == Slot(p, stride, k) && Initialising(mem[..], p, stride, k)
        invariant forall i: nat :: i < mem.Length && !OnPage(i, p) ==> mem[i] == old(mem[i])
      {
        InitStep(mem[..], p, stride, k);
        ghost var before := mem[..];
        mem[cur] := mem[sp + FREE];
        mem[sp + FREE] := cur;
        mem[sp + NR_FREE] := mem[sp + NR_FREE] + 1;
        assert mem[..] == SetHeader(before[cur := before[sp + FREE]], p, cur, k + 1);
        cur := cur + stride;
        k := k + 1;
      }
      InitStep(mem[..], p, stride, k);
      InitDone(mem[..], p, stride);
      mem[sp + CAPACITY] := mem[sp + NR_FREE];
    }

    /** Taking the first free object off a page. */
    method TakeObject(b: nat, p: nat, size: nat, ghost but: nat) returns (o: nat)
      requires Shape() && Inv(Snap(), but) && (but == 0 || but == p) && b < BUCKETS && p in caches[b]
      requires p in chain && chain[p] != [] && 0 < size <= BUCKET_SIZE[b]
      modifies this`chain, this`live, mem
      ensures Valid() && o != 0 && o !in old(live) && live == old(live)[o := size]
      ensures o == old(chain)[p][0] && o / PAGE == p && chain == old(chain)[p := old(chain)[p][1..]]
      ensures LiveAt(Snap(), b, o)
      ensures forall i: nat :: i < mem.Length && mem[i] != old(mem[i]) ==> PAGE * p <= i < PAGE * p + HEADER
    {
      hide Inv;
      ghost var s := Snap();
      assert p in s.lists[b] && p in s.chain && 8 * Words(b) == BUCKET_SIZE[b];
      TakeInv(s, b, p, size, but);
      var sp := PAGE * p;
      o := mem[sp + FREE];
      mem[sp + FREE] := mem[o];
      mem[sp + NR_FREE] := mem[sp + NR_FREE] - 1;
      chain := chain[p := chain[p][1..]];
      live := live[o := size];
      assert Snap() == Taken(s, p, size);
    }

    /** The first page of a cache with a free object. */
    method FindPage(b: nat) returns (r: Option<nat>)
      requires Valid() && b < BUCKETS
      ensures r.Some? ==> r.value in caches[b] && FirstWithFree(Snap(), b, r.value)
      ensures r.None? ==> NoneLeft(Snap(), b)
    {
      hide ChainOk;
      hide Linked;
      ghost var s := Snap();
      assert s.lists[b] == caches[b];
      for i := 0 to |caches[b]|
        invariant forall j :: 0 <= j < i ==> NoneOn(s, s.lists[b][j])
      {
        var p := caches[b][i];
        assert p in s.lists[b] && PageAt(s, b, p);
        FirstIsNull(s.mem, p, Words(b), chain[p]);
        if mem[PAGE * p + FREE] != 0 { return Some(p); }
      }
      r := None;
    }

    /** A page from the page allocator joins the cache. */
    method NewPage(b: nat) returns (r: Option<nat>)
      requires Valid() && b < BUCKETS
      modifies this`avail, this`chain, mem, caches, nrPages
      ensures Shape() && live == old(live)
      ensures r.None? <==> old(avail) == {}
      ensures r.None? ==> Valid() && Snap() == old(Snap())
      ensures r.Some? ==> Inv(Snap(), r.value) && r.value in caches[b] && r.value in chain && chain[r.value] != []
      ensures r.Some? ==> r.value in old(avail) && avail == old(avail) - {r.value}
      ensures r.Some? ==> caches[..] == old(caches[..])[b := [r.value] + old(caches[b])]
      ensures r.Some? ==> chain == old(chain)[r.value := Threaded(r.value, Words(b), Cap(Words(b)))]
      ensures r.Some? ==> forall i: nat :: i < mem.Length && !OnPage(i, r.value) ==> mem[i] == old(mem[i])
    {
      hide Inv;
      hide Cap;
      hide ChainOk;
      hide Threaded;
      if avail == {} { return None; }
      ghost var s := Snap();
      InvLists(s);
      var p :| p in avail;
      avail := avail - {p};
      assert BUCKET_SIZE[b] % 8 == 0;
      SlabPageInit(p, BUCKET_SIZE[b]);
      HoldInv(s, b, p, mem[..]);
      CapPositive(b);
      caches[b] := [p] + caches[b];
      nrPages[b] := nrPages[b] + 1;
      chain := chain[p := Threaded(p, Words(b), Cap(Words(b)))];
      assert Snap() == Held(s, b, p, mem[..]);
      r := Some(p);
    }

    /** kmalloc of at most 2048 bytes: an object of the least bucket that is large enough, from the first
        page with one, else from a new page; NULL exactly when neither is to be had. */
    method Kmalloc(size: nat) returns (o: nat)
      requires Valid() && size <= 2048
      modifies this`avail, this`chain, this`live, mem, caches, nrPages
      ensures Valid()
      ensures o == 0 <==> size == 0 || (old(avail) == {} && NoneLeft(old(Snap()), Bucket(size)))
      ensures o == 0 ==> Snap() == old(Snap())
      ensures o != 0 ==> Granted(old(Snap()), size, o, Snap())
    {
      hide Inv;
      hide ObjectsKept;
      hide BucketFrom;
      hide Granted;
      hide NoneLeft;
      hide FirstWithFree;
      hide LiveAt;
      ghost var s := Snap();
      InvLists(s);
      if size == 0 { return 0; }
      var b := SizeToBucket(size);
      var p := FindPage(b.value);
      if p.Some? {
        FirstIsFree(s, b.value, p.value);
        o := TakeObject(b.value, p.value, size, 0);
        HeaderWritesKeep(s, b.value, p.value, mem[..], 0);
        GrantHeld(s, size, o, Snap());
        return;
      }
      var page := NewPage(b.value);
      if page.None? { return 0; }
      o := TakeObject(b.value, page.value, size, page.value);
      FreshPageKeeps(s, page.value, mem[..]);
      GrantNew(s, size, o, Snap());
    }

    /** The walk over a page's free list that catches a double free. */
    method OnFreeList(ptr: nat, p: nat, ghost b: nat) returns (found: bool)
      requires Valid() && b < BUCKETS && p in caches[b]
      ensures p in chain && (found <==> ptr in chain[p])
    {
      hide ChainOk;
      hide ListsOk;
      ghost var s := Snap();
      assert p in s.lists[b] && PageAt(s, b, p);
      var it := mem[PAGE * p + FREE];
      ghost var i: nat := 0;
      while it != 0
        invariant i <= |chain[p]| && it == At(chain[p], i) && ptr !in chain[p][..i]
        decreases |chain[p]| - i
      {
        if it == ptr { return true; }
        assert s.mem[chain[p][i]] == At(chain[p], i + 1);
        it := mem[it];
        i := i + 1;
      }
      assert i == |chain[p]| && chain[p][..i] == chain[p];
      found := false;
    }

    /** The tail of kfree: a wholly free page leaves its cache. */
    method ReleasePage(p: nat, ghost home: nat)
      requires Shape() && Inv(Snap(), p) && home < BUCKETS && p in caches[home]
      requires p in chain && |chain[p]| >= Cap(Words(home))
      modifies this`avail, mem, caches, nrPages
      ensures Valid() && avail == old(avail) + {p}
      ensures caches[..] == old(caches[..])[home := Delete(old(caches[home]), p)]
      ensures forall i: nat :: i < mem.Length && mem[i] != old(mem[i]) ==> PAGE * p <= i < PAGE * p + HEADER
    {
      hide Inv;
      hide Cap;
      ghost var s := Snap();
      var sp := PAGE * p;
      assert p in s.lists[home];
      ReleaseInv(s, home, p);
      HomeSize(s, home, p, p);
      var i := 0;
      while i < BUCKETS && BUCKET_SIZE[i] != mem[sp + OBJ_SIZE]
        invariant i <= home
      {
        i := i + 1;
      }
      SizesDiffer(i, home);
      InList(s, home, p);
      caches[i] := Delete(caches[i], p);
      if nrPages[i] > 0 { nrPages[i] := nrPages[i] - 1; }
      mem[sp + FREE] := 0;
      mem[sp + OBJ_SIZE] := 0;
      mem[sp + NR_FREE] := 0;
      mem[sp + CAPACITY] := 0;
      avail := avail + {p};
      assert Snap() == Released(s, home, p);
    }

    /** Threading an object back in front of its page's free list. */
    method PutObject(ptr: nat, p: nat, ghost b: nat)
      requires Valid() && b < BUCKETS && p in caches[b] && ptr in live && IsSlot(p, Words(b), ptr)
      modifies this`chain, this`live, mem
      ensures Shape() && Inv(Snap(), p) && p in old(chain) && chain == old(chain)[p := [ptr] + old(chain)[p]]
      ensures live == Removed(old(live), ptr)
      ensures forall i: nat :: i < mem.Length && mem[i] != old(mem[i]) ==> PAGE * p <= i < PAGE * p + HEADER || i == ptr
    {
      hide Inv;
      hide IsSlot;
      hide PageAt;
      ghost var s := Snap();
      assert p in s.lists[b];
      PutInv(s, b, p, ptr);
      HeldPage(s, b, p);
      PutPage(s, b, p, ptr);
      var sp := PAGE * p;
      mem[ptr] := mem[sp + FREE];
      mem[sp + FREE] := ptr;
      mem[sp + NR_FREE] := mem[sp + NR_FREE] + 1;
      chain := chain[p := [ptr] + chain[p]];
      live := Removed(live, ptr);
      assert Snap() == PutBack(s, p, ptr);
    }

    /** kfree of a live object, of NULL, or of an object of a held page that is already free. */
    method Kfree(ptr: nat)
      requires Valid()
      requires ptr == 0 || ptr in live || exists b :: 0 <= b < BUCKETS && FreeAt(b, ptr)
      modifies this`avail, this`chain, this`live, mem, caches, nrPages
      ensures Valid() && live == Removed(old(live), ptr)
      ensures ptr !in old(live) ==> old(Snap()) == Snap()
      ensures ptr in old(live) ==> Freed(old(Snap()), ptr, Snap())
    {
      hide Inv;
      hide ObjectsKept;
      hide IsSlot;
      hide LiveAt;
      hide PageAt;
      hide ListsOk;
      hide Cap;
      hide Removed;
      hide Freed;
      ghost var s := Snap();
      InvLists(s);
      FreePtr(s, ptr);
      if ptr == 0 { return; }
      var p := ptr / PAGE;
      ghost var b: nat;
      if ptr in live {
        b := LiveHome(s, ptr);
        LiveAtHome(s, b, ptr);
      } else {
        b :| 0 <= b < BUCKETS && FreeAt(b, ptr);
      }
      PtrHome(s, b, p, ptr);
      var sp := PAGE * p;
      if mem[sp + OBJ_SIZE] == 0 { return; }
      if ptr < sp + HEADER || ptr >= sp + PAGE { return; }
      var found := OnFreeList(ptr, p, b);
      if found { return; }
      PutObject(ptr, p, b);
      HeaderWritesKeep(s, b, p, mem[..], ptr);
      ghost var t := Snap();
      PageEmpty(t, b, p);
      if mem[sp + NR_FREE] >= mem[sp + CAPACITY] {
        ReleasePage(p, b);
        HeaderWritesKeep(s, b, p, mem[..], ptr);
        FreeAll(s, b, ptr, Snap());
      } else {
        FreeOne(s, ptr, Snap());
      }
    }

    /** A client writes a word of an object it holds: nothing of the allocator changes. */
    method UserWrite(ptr: nat, offset: nat, value: nat)
      requires Valid() && ptr in live && 8 * offset + 8 <= live[ptr]
      modifies mem
      ensures Valid() && ptr + offset < mem.Length && mem[..] == old(mem[..])[ptr + offset := value]
    {
      hide PageAt;
      hide IsSlot;
      hide Cap;
      ghost var s := Snap();
      ghost var b := LiveHome(s, ptr);
      LiveAtHome(s, b, ptr);
      LiveObject(s, b, ptr);
      assert ptr / PAGE in s.all;
      assert InObject(s, b, ptr, ptr + offset);
      UserWrites(s, s.mem[ptr + offset := value]);
      mem[ptr + offset] := value;
      assert Snap() == s.(mem := s.mem[ptr + offset := value]);
    }

    /** Any run of small requests, frees of held objects and writes into them keeps the invariant; a run
        that ends with nothing held ends with every cache empty and every page given back. */
    method Run(calls: seq<Call>) returns (held: seq<(nat, nat)>, ghost moments: seq<Moment>)
      requires Valid() && live == map[]
      requires forall c :: c in calls && c.Alloc? ==> c.size <= 2048
      modifies this`avail, this`chain, this`live, mem, caches, nrPages
      ensures Valid() && Holds(held, live)
      ensures |moments| == |calls| + 1
      ensures moments[0] == Moment(old(Snap()), []) && moments[|calls|] == Moment(Snap(), held)
      ensures forall i :: 0 <= i <= |calls| ==> Inv(moments[i].state, 0)
      ensures forall i :: 0 <= i < |calls| ==> StepOf(calls[i], moments[i], moments[i + 1])
      ensures HeldPages(caches[..], BUCKETS) + |avail| == |all|
      ensures held == [] ==> avail == all && forall b :: 0 <= b < BUCKETS ==> caches[b] == []
    {
      hide Inv;
      hide StepOf;
      held, moments := [], [Moment(Snap(), [])];
      for i := 0 to |calls|
        invariant Valid() && Holds(held, live)
        invariant |moments| == i + 1
        invariant moments[0] == Moment(old(Snap()), []) && moments[i] == Moment(Snap(), held)
        invariant forall j :: 0 <= j <= i ==> Inv(moments[j].state, 0)
        invariant forall j :: 0 <= j < i ==> StepOf(calls[j], moments[j], moments[j + 1])
      {
        assert calls[i] in calls;
        held := Serve(calls[i], held);
        moments := moments + [Moment(Snap(), held)];
      }
      PagesConserved(Snap());
      if held == [] {
        assert live == map[];
        AllFreed(Snap());
      }
    }

    /** One call of a run. */
    method Serve(c: Call, held: seq<(nat, nat)>) returns (now: seq<(nat, nat)>)
      requires Valid() && Holds(held, live) && (c.Alloc? ==> c.size <= 2048)
      modifies this`avail, this`chain, this`live, mem, caches, nrPages
      ensures Valid() && Holds(now, live)
      ensures StepOf(c, Moment(old(Snap()), held), Moment(Snap(), now))
    {
      hide Inv;
      hide ObjectsKept;
      hide Granted;
      hide Freed;
      hide NoneLeft;
      hide Bucket;
      ghost var a := Moment(Snap(), held);
      InvLists(a.state);
      now := held;
      match c {
        case Alloc(size) =>
          var o := Kmalloc(size);
          if o != 0 {
            now := held + [(o, size)];
            GrantedLive(a.state, size, o, Snap());
          }
          StepAlloc(size, a, Moment(Snap(), now), o);
        case Free(k) =>
          if k < |held| {
            HoldsLess(held, live, k);
            Kfree(held[k].0);
            now := held[..k] + held[k + 1..];
          }
        case Write(k, offset, value) =>
          if k < |held| && 8 * offset + 8 <= held[k].1 { UserWrite(held[k].0, offset, value); }
      }
    }

    /** ptr is a free object of a page of cache b. */
    ghost predicate FreeAt(b: nat, ptr: nat)
      requires b < caches.Length
      reads this`chain, caches
    {
      ptr / PAGE in caches[b] && ptr / PAGE in chain && ptr in chain[ptr / PAGE]
    }
  }

  lemma FirstIsFree(s: State, b: nat, p: nat)
    requires Inv(s, 0) && b < BUCKETS && |s.lists| == BUCKETS && FirstWithFree(s, b, p)
    ensures p in s.lists[b] && p in s.chain && s.chain[p] != [] && !NoneLeft(s, b)
  {
    hide Inv;
    var i :| 0 <= i < |s.lists[b]| && s.lists[b][i] == p;
    assert !NoneOn(s, p);
  }

  lemma GrantHeld(s: State, size: nat, o: nat, t: State)
    requires size <= 2048 && |s.lists| == |t.lists| == BUCKETS
    requires o != 0 && o !in s.live && t.live == s.live[o := size] && LiveAt(t, Bucket(size), o)
    requires ObjectsKept(s, t.mem, 0) && t == s.(mem := t.mem, chain := t.chain, live := t.live)
    requires var p := o / PAGE;
      FirstWithFree(s, Bucket(size), p) && o == s.chain[p][0] && t.chain == s.chain[p := s.chain[p][1..]]
    ensures Granted(s, size, o, t)
  {
    hide Bucket;
    hide LiveAt;
    hide ObjectsKept;
    hide FirstWithFree;
  }

  lemma GrantNew(s: State, size: nat, o: nat, t: State)
    requires size <= 2048 && |s.lists| == |t.lists| == BUCKETS
    requires o != 0 && o !in s.live && t.live == s.live[o := size] && LiveAt(t, Bucket(size), o)
    requires ObjectsKept(s, t.mem, 0) && t.all == s.all && NoneLeft(s, Bucket(size))
    requires var p, b := o / PAGE, Bucket(size);
      var c := Threaded(p, Words(b), Cap(Words(b)));
      && p in s.avail && t.avail == s.avail - {p} && t.lists == s.lists[b := [p] + s.lists[b]]
      && c != [] && o == c[0] && t.chain == s.chain[p := c][p := c[1..]]
    ensures Granted(s, size, o, t)
  {
    hide Bucket;
    hide LiveAt;
    hide ObjectsKept;
    hide NoneLeft;
    hide Words;
    hide Cap;
    hide Threaded;
    var p, b := o / PAGE, Bucket(size);
    var c := Threaded(p, Words(b), Cap(Words(b)));
    assert c == [o] + c[1..];
    assert FromNewPage(s, b, o, t);
  }

  lemma FreeOne(s: State, a: nat, t: State)
    requires |s.lists| == BUCKETS && a in s.live && a / PAGE in s.chain && ObjectsKept(s, t.mem, a)
    requires t == s.(mem := t.mem, chain := s.chain[a / PAGE := [a] + s.chain[a / PAGE]], live := Removed(s.live, a))
    requires exists x :: x in t.live && x / PAGE == a / PAGE
    ensures Freed(s, a, t)
  {
    hide ObjectsKept;
    hide Removed;
    var x :| x in t.live && x / PAGE == a / PAGE;
    assert x / 512 == a / 512;
  }

  lemma FreeAll(s: State, b: nat, a: nat, t: State)
    requires |s.lists| == |t.lists| == BUCKETS && a in s.live && a / PAGE in s.chain && ObjectsKept(s, t.mem, a)
    requires b < BUCKETS && a / PAGE in s.lists[b]
    requires t == s.(mem := t.mem, chain := s.chain[a / PAGE := [a] + s.chain[a / PAGE]], live := Removed(s.live, a),
                     lists := s.lists[b := Delete(s.lists[b], a / PAGE)], avail := s.avail + {a / PAGE})
    requires forall x :: x in t.live ==> x / PAGE != a / PAGE
    ensures Freed(s, a, t)
  {
    hide ObjectsKept;
    hide Removed;
    hide Delete;
    hide Dropped;
    DeleteOrder(s.lists[b], a / PAGE);
    assert OffList(s, b, a / PAGE, t);
    assert forall x :: x in t.live ==> x / 512 != a / 512;
  }

  lemma HeldPage(s: State, b: nat, p: nat)
    requires Inv(s, 0) && b < BUCKETS && p in s.lists[b]
    ensures PageAt(s, b, p)
  {}

  lemma FreePtr(s: State, ptr: nat)
    requires Inv(s, 0)
    ensures ptr == 0 ==> ptr !in s.live
    ensures ptr !in s.live ==> Removed(s.live, ptr) == s.live
  {
    if ptr in s.live {
      var b := LiveHome(s, ptr);
      LiveAtHome(s, b, ptr);
      LiveObject(s, b, ptr);
    }
  }

  lemma LiveAtHome(s: State, b: nat, a: nat)
    requires Inv(s, 0) && a in s.live && b < BUCKETS && a / PAGE in s.lists[b]
    ensures LiveAt(s, b, a)
  {
    var c :| 0 <= c < BUCKETS && LiveAt(s, c, a);
    OneList(s, b, a / PAGE);
  }

  /** A live or free object of a held page: its page has a size, and it lies past the header. */
  lemma PtrHome(s: State, b: nat, p: nat, ptr: nat)
    requires Inv(s, 0) && b < BUCKETS && p in s.lists[b] && p == ptr / PAGE
    requires ptr in s.live || (p in s.chain && ptr in s.chain[p])
    ensures p in s.chain && PAGE * (p + 1) <= |s.mem| && s.mem[PAGE * p + OBJ_SIZE] != 0
    ensures PAGE * p + HEADER <= ptr < PAGE * p + PAGE && ptr < |s.mem|
    ensures IsSlot(p, Words(b), ptr) && (ptr in s.live <==> ptr !in s.chain[p])
  {
    hide Linked;
    assert PageAt(s, b, p);
    if ptr in s.live { LiveAtHome(s, b, ptr); }
    SlotFacts(p, Words(b), ptr);
  }

  /** A page's counter reaches its capacity exactly when none of its objects is live. */
  lemma PageEmpty(s: State, b: nat, p: nat)
    requires Inv(s, p) && b < BUCKETS && p in s.lists[b]
    ensures p in s.chain && PAGE * (p + 1) <= |s.mem|
    ensures s.mem[PAGE * p + NR_FREE] >= s.mem[PAGE * p + CAPACITY] <==> |s.chain[p]| >= Cap(Words(b))
    ensures |s.chain[p]| >= Cap(Words(b)) <==> forall a :: a in s.live ==> a / PAGE != p
    ensures |s.chain[p]| < Cap(Words(b)) ==> Inv(s, 0)
  {
    hide Linked;
    hide Cap;
    hide IsSlot;
    assert PageAt(s, b, p);
    FullChain(p, Words(b), s.chain[p], s.live);
    if |s.chain[p]| >= Cap(Words(b)) {
      NoneLive(s, b, p);
    } else {
      OneList(s, b, p);
      var a: nat :| IsSlot(p, Words(b), a) && a in s.live;
      SlotFacts(p, Words(b), a);
    }
  }

  /** The size field of a held page names its cache. */
  lemma HomeSize(s: State, b: nat, p: nat, but: nat)
    requires Inv(s, but) && b < BUCKETS && p in s.lists[b]
    ensures PAGE * (p + 1) <= |s.mem| && s.mem[PAGE * p + OBJ_SIZE] == BUCKET_SIZE[b] > 0
  {
    assert PageAt(s, b, p);
  }

  lemma SizesDiffer(i: nat, b: nat)
    requires i <= b < BUCKETS
    ensures BUCKET_SIZE[i] == BUCKET_SIZE[b] ==> i == b
  {}

  lemma InList(s: State, b: nat, p: nat)
    requires Inv(s, p) && b < BUCKETS && p in s.lists[b]
    ensures |Delete(s.lists[b], p)| == |s.lists[b]| - 1
  {
    DeleteEffect(s.lists[b], p);
  }

  lemma InvLists(s: State)
    requires Inv(s, 0)
    ensures |s.lists| == BUCKETS && forall p :: p in s.avail ==> 0 < p && PAGE * (p + 1) <= |s.mem|
  {}

  lemma CapPositive(b: nat)
    requires b < BUCKETS
    ensures |Threaded(0, Words(b), Cap(Words(b)))| > 0
    ensures Cap(Words(b)) > 0
  {}

  lemma FirstIsNull(mem: seq<nat>, p: nat, w: nat, chain: seq<nat>)
    requires w > 0 && HeaderOk(mem, p, w, chain)
    ensures PAGE * (p + 1) <= |mem| && (mem[PAGE * p + FREE] == 0 <==> chain == [])
  {}
}
