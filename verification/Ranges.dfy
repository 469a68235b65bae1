/** Ranges of pages, and the ranges that the clients of an allocator hold. */
module Ranges {
  import opened Sets

  predicate Within(p: nat, lo: nat, hi: nat) {
    lo <= p < hi
  }

  function Interval(i: nat, n: nat): (s: set<nat>)
    ensures |s| == n
    ensures forall p: nat :: p in s <==> i <= p < i + n
  {
    if n == 0 then {} else Interval(i, n - 1) + {i + n - 1}
  }

  // ---- runs of calls ----

  /** A call a client can make: a request, or the release of the k-th of the ranges it holds. */
  datatype Call = Request(n: nat) | Release(k: nat)

  /** The pages of all held ranges together. */
  function HeldPages(held: seq<(nat, nat)>): nat {
    if held == [] then 0 else HeldPages(held[..|held| - 1]) + held[|held| - 1].1
  }

  lemma HeldPagesMore(held: seq<(nat, nat)>, h: nat, n: nat)
    ensures HeldPages(held + [(h, n)]) == HeldPages(held) + n
  {
    assert (held + [(h, n)])[..|held|] == held;
  }

  lemma {:induction false} HeldPagesLess(held: seq<(nat, nat)>, k: nat)
    requires k < |held|
    ensures HeldPages(held[..k] + held[k + 1..]) == HeldPages(held) - held[k].1
    decreases |held|
  {
    var last := |held| - 1;
    if k == last {
      assert held[..k] + held[k + 1..] == held[..last];
    } else {
      var init := held[..last];
      assert held[..k] + held[k + 1..] == (init[..k] + init[k + 1..]) + [held[last]];
      HeldPagesLess(init, k);
      HeldPagesMore(init[..k] + init[k + 1..], held[last].0, held[last].1);
    }
  }

  ghost predicate HoldsOne(b: (nat, nat), free: set<nat>, hi: nat) {
    b.1 > 0 && b.0 + b.1 <= hi && forall p: nat :: b.0 <= p < b.0 + b.1 ==> p !in free
  }

  /** The ranges the clients hold lie below `hi`, are not free, and do not overlap. */
  ghost predicate HoldsAll(held: seq<(nat, nat)>, free: set<nat>, hi: nat) {
    && (forall p :: p in free ==> p < hi)
    && (forall j :: 0 <= j < |held| ==> HoldsOne(held[j], free, hi))
    && (forall i, j :: 0 <= i < j < |held| ==> held[i].0 + held[i].1 <= held[j].0 || held[j].0 + held[j].1 <= held[i].0)
  }

  /** Together with the free pages they make up `total` pages. */
  ghost predicate Holds(held: seq<(nat, nat)>, free: set<nat>, hi: nat, total: nat) {
    HoldsAll(held, free, hi) && |free| + HeldPages(held) == total
  }

  lemma HoldsAllMore(held: seq<(nat, nat)>, free: set<nat>, hi: nat, h: nat, n: nat)
    requires HoldsAll(held, free, hi) && n > 0 && forall p: nat :: h <= p < h + n ==> p in free
    ensures HoldsAll(held + [(h, n)], free - Interval(h, n), hi)
  {
    var held', free' := held + [(h, n)], free - Interval(h, n);
    assert h + n - 1 in free;
    forall j | 0 <= j < |held'|
      ensures HoldsOne(held'[j], free', hi)
      ensures j < |held| ==> held'[j].0 + held'[j].1 <= h || h + n <= held'[j].0
    {
      if j < |held| {
        assert HoldsOne(held[j], free, hi) && held'[j] == held[j];
        assert held[j].0 !in free;
        assert h in free;
      }
    }
  }

  lemma HoldsAllLess(held: seq<(nat, nat)>, free: set<nat>, hi: nat, k: nat)
    requires HoldsAll(held, free, hi) && k < |held|
    ensures HoldsAll(held[..k] + held[k + 1..], free + Interval(held[k].0, held[k].1), hi)
  {
    var held', free' := held[..k] + held[k + 1..], free + Interval(held[k].0, held[k].1);
    assert HoldsOne(held[k], free, hi);
    forall j | 0 <= j < |held'|
      ensures HoldsOne(held'[j], free', hi)
    {
      var m := if j < k then j else j + 1;
      assert held'[j] == held[m] && HoldsOne(held[m], free, hi);
    }
  }

  /** A grant and a release keep that. */
  lemma HoldsMore(held: seq<(nat, nat)>, free: set<nat>, hi: nat, total: nat, h: nat, n: nat)
    requires Holds(held, free, hi, total) && n > 0 && forall p: nat :: h <= p < h + n ==> p in free
    ensures Holds(held + [(h, n)], free - Interval(h, n), hi, total)
  {
    hide HoldsAll;
    hide Interval;
    HoldsAllMore(held, free, hi, h, n);
    SubsetSize(Interval(h, n), free);
    HeldPagesMore(held, h, n);
  }

  lemma HoldsLess(held: seq<(nat, nat)>, free: set<nat>, hi: nat, total: nat, k: nat)
    requires Holds(held, free, hi, total) && k < |held|
    ensures Holds(held[..k] + held[k + 1..], free + Interval(held[k].0, held[k].1), hi, total)
  {
    HeldUnused(held, free, hi, total, k);
    hide HoldsAll;
    hide Interval;
    HoldsAllLess(held, free, hi, k);
    DisjointUnion(free, Interval(held[k].0, held[k].1));
    HeldPagesLess(held, k);
  }

  /** At first a whole region is free. */
  lemma HoldsNothing(base: nat, n: nat, hi: nat)
    requires base + n <= hi
    ensures Holds([], Interval(base, n), hi, n) && (n > 0 ==> base + n - 1 in Interval(base, n))
  {}

  lemma HeldUnused(held: seq<(nat, nat)>, free: set<nat>, hi: nat, total: nat, k: nat)
    requires Holds(held, free, hi, total) && k < |held|
    ensures held[k].0 !in free && held[k].0 + held[k].1 <= hi && held[k].1 > 0
    ensures forall p: nat :: held[k].0 <= p < held[k].0 + held[k].1 ==> p !in free
    ensures forall p :: p in free ==> p < hi
  {
    assert HoldsOne(held[k], free, hi);
  }

  /** What clients see between two calls: the free pages, and the ranges they hold. */
  datatype Moment = Moment(free: set<nat>, held: seq<(nat, nat)>)

  ghost function Granted(a: Moment, n: nat, r: nat): Moment {
    Moment(a.free - Interval(r, n), a.held + [(r, n)])
  }

  /** A release gives back exactly the range named, if there is one. */
  ghost function Released(a: Moment, k: nat): Moment {
    if k < |a.held| then Moment(a.free + Interval(a.held[k].0, a.held[k].1), a.held[..k] + a.held[k + 1..]) else a
  }
}
