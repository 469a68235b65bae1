/** The circular doubly linked lists of list.h. An entry is an index, the sentinel is the last one, and
    the links are two arrays; what a list holds is a sequence of entries, sentinel left out. */
module LinkedList {
  import opened Lists

  /** The entry at position i of the circle that starts at the sentinel H. */
  function Node(L: seq<nat>, H: nat, i: nat): nat
    requires i <= |L| + 1
  {
    if i == 0 || i == |L| + 1 then H else L[i - 1]
  }

  predicate Below(L: seq<nat>, H: nat) {
    forall i :: 0 <= i < |L| ==> L[i] < H
  }

  /** Forward and backward links go round exactly the entries of L, and the sentinel. */
  ghost predicate Ring(next: seq<nat>, prev: seq<nat>, H: nat, L: seq<nat>) {
    && |next| == |prev| == H + 1
    && NoDup(L) && Below(L, H)
    && (forall i :: 0 <= i <= |L| ==> next[Node(L, H, i)] == Node(L, H, i + 1))
    && (forall i :: 0 <= i <= |L| ==> prev[Node(L, H, i + 1)] == Node(L, H, i))
  }

  function Inserted(L: seq<nat>, k: nat, e: nat): seq<nat>
    requires k <= |L|
  {
    L[..k] + [e] + L[k..]
  }

  function Deleted(L: seq<nat>, k: nat): seq<nat>
    requires k < |L|
  {
    L[..k] + L[k + 1..]
  }

  lemma NodeInserted(L: seq<nat>, H: nat, k: nat, e: nat, i: nat)
    requires k <= |L| && i <= |L| + 2
    ensures Node(Inserted(L, k, e), H, i) ==
      if i <= k then Node(L, H, i) else if i == k + 1 then e else Node(L, H, i - 1)
  {}

  lemma NodeDeleted(L: seq<nat>, H: nat, k: nat, i: nat)
    requires k < |L| && i <= |L|
    ensures Node(Deleted(L, k), H, i) == if i <= k then Node(L, H, i) else Node(L, H, i + 1)
  {}

  /** Positions of a circle hold different entries, but for the sentinel at both ends. */
  lemma NodesDiffer(L: seq<nat>, H: nat, i: nat, j: nat)
    requires NoDup(L) && Below(L, H) && i < j <= |L| + 1 && !(i == 0 && j == |L| + 1)
    ensures Node(L, H, i) != Node(L, H, j)
  {
  }

  /** The links at position i after an insertion. */
  lemma InsertLink(next: seq<nat>, prev: seq<nat>, H: nat, L: seq<nat>, k: nat, e: nat, i: nat)
    requires Ring(next, prev, H, L) && k <= |L| && e < H && e !in L && i <= |L| + 1
    ensures var p, n, M := Node(L, H, k), Node(L, H, k + 1), Inserted(L, k, e);
      p <= H && n <= H && Node(M, H, i) <= H && Node(M, H, i + 1) <= H
      && next[p := e][e := n][Node(M, H, i)] == Node(M, H, i + 1)
      && prev[n := e][e := p][Node(M, H, i + 1)] == Node(M, H, i)
  {
    NodeInserted(L, H, k, e, i);
    NodeInserted(L, H, k, e, i + 1);
    hide Inserted;
    if i < k {
      NodesDiffer(L, H, i, k);
      NodesDiffer(L, H, i + 1, k + 1);
    } else if i > k + 1 {
      NodesDiffer(L, H, k, i - 1);
      NodesDiffer(L, H, k + 1, i);
    }
  }

  lemma InsertRing(next: seq<nat>, prev: seq<nat>, H: nat, L: seq<nat>, k: nat, e: nat)
    requires Ring(next, prev, H, L) && k <= |L| && e < H && e !in L
    ensures var p, n := Node(L, H, k), Node(L, H, k + 1);
      p <= H && n <= H && Ring(next[p := e][e := n], prev[n := e][e := p], H, Inserted(L, k, e))
  {
    var M := Inserted(L, k, e);
    assert NoDup(M) && Below(M, H);
    assert forall i :: 0 <= i <= |M| + 1 ==> Node(M, H, i) <= H;
    hide NoDup;
    hide Below;
    hide Inserted;
    hide Node;
    assert |M| == |L| + 1;
    InsertLink(next, prev, H, L, k, e, 0);
    var next' := next[Node(L, H, k) := e][e := Node(L, H, k + 1)];
    var prev' := prev[Node(L, H, k + 1) := e][e := Node(L, H, k)];
    forall i | 0 <= i <= |M|
      ensures next'[Node(M, H, i)] == Node(M, H, i + 1) && prev'[Node(M, H, i + 1)] == Node(M, H, i)
    {
      InsertLink(next, prev, H, L, k, e, i);
    }
  }

  /** The links at position i after a deletion. */
  lemma DeleteLink(next: seq<nat>, prev: seq<nat>, H: nat, L: seq<nat>, k: nat, i: nat)
    requires Ring(next, prev, H, L) && k < |L| && i < |L|
    ensures var p, n, M := Node(L, H, k), Node(L, H, k + 2), Deleted(L, k);
      p <= H && n <= H && Node(M, H, i) <= H && Node(M, H, i + 1) <= H
      && next[p := n][Node(M, H, i)] == Node(M, H, i + 1) && prev[n := p][Node(M, H, i + 1)] == Node(M, H, i)
  {
    NodeDeleted(L, H, k, i);
    NodeDeleted(L, H, k, i + 1);
    hide Deleted;
    if i < k {
      NodesDiffer(L, H, i, k);
      NodesDiffer(L, H, i + 1, k + 2);
    } else if i > k {
      NodesDiffer(L, H, k, i + 1);
      NodesDiffer(L, H, k + 2, i + 2);
    }
  }

  lemma DeleteRing(next: seq<nat>, prev: seq<nat>, H: nat, L: seq<nat>, k: nat)
    requires Ring(next, prev, H, L) && k < |L|
    ensures var p, n := Node(L, H, k), Node(L, H, k + 2);
      p <= H && n <= H && p == prev[L[k]] && n == next[L[k]] && Ring(next[p := n], prev[n := p], H, Deleted(L, k))
  {
    var M := Deleted(L, k);
    assert Node(L, H, k + 1) == L[k];
    assert NoDup(M) && Below(M, H);
    assert forall i :: 0 <= i <= |M| + 1 ==> Node(M, H, i) <= H;
    hide NoDup;
    hide Below;
    hide Deleted;
    hide Node;
    assert |M| == |L| - 1;
    DeleteLink(next, prev, H, L, k, 0);
    var next', prev' := next[Node(L, H, k) := Node(L, H, k + 2)], prev[Node(L, H, k + 2) := Node(L, H, k)];
    forall i | 0 <= i <= |M|
      ensures next'[Node(M, H, i)] == Node(M, H, i + 1) && prev'[Node(M, H, i + 1)] == Node(M, H, i)
    {
      DeleteLink(next, prev, H, L, k, i);
    }
  }

  /** __list_add: a new entry between two consecutive ones. */
  method AddBetween(next: array<nat>, prev: array<nat>, elm: nat, p: nat, n: nat)
    requires next != prev && elm < next.Length && p < next.Length && n < next.Length == prev.Length
    modifies next, prev
    ensures next[..] == old(next[..])[p := elm][elm := n]
    ensures prev[..] == old(prev[..])[n := elm][elm := p]
  {
    prev[n] := elm;
    next[p] := elm;
    next[elm] := n;
    prev[elm] := p;
  }

  /** list_add: after an entry of the list, or after the sentinel. */
  method ListAdd(next: array<nat>, prev: array<nat>, listelm: nat, elm: nat, ghost H: nat, ghost L: seq<nat>,
      ghost k: nat)
    requires next != prev && Ring(next[..], prev[..], H, L) && k <= |L|
    requires listelm == Node(L, H, k) && elm < H && elm !in L
    modifies next, prev
    ensures Ring(next[..], prev[..], H, Inserted(L, k, elm))
  {
    InsertRing(next[..], prev[..], H, L, k, elm);
    assert next[..][Node(L, H, k)] == Node(L, H, k + 1);
    AddBetween(next, prev, elm, listelm, next[listelm]);
  }

  /** list_add_before. */
  method ListAddBefore(next: array<nat>, prev: array<nat>, listelm: nat, elm: nat, ghost H: nat, ghost L: seq<nat>,
      ghost k: nat)
    requires next != prev && Ring(next[..], prev[..], H, L) && k <= |L|
    requires listelm == Node(L, H, k + 1) && elm < H && elm !in L
    modifies next, prev
    ensures Ring(next[..], prev[..], H, Inserted(L, k, elm))
  {
    InsertRing(next[..], prev[..], H, L, k, elm);
    assert prev[..][Node(L, H, k + 1)] == Node(L, H, k);
    AddBetween(next, prev, elm, prev[listelm], listelm);
  }

  /** list_del. */
  method ListDel(next: array<nat>, prev: array<nat>, listelm: nat, ghost H: nat, ghost L: seq<nat>, ghost k: nat)
    requires next != prev && Ring(next[..], prev[..], H, L) && k < |L| && listelm == L[k]
    modifies next, prev
    ensures Ring(next[..], prev[..], H, Deleted(L, k))
  {
    assert Node(L, H, k + 1) == L[k];
    DeleteRing(next[..], prev[..], H, L, k);
    var p, n := prev[listelm], next[listelm];
    next[p] := n;
    prev[n] := p;
  }

  /** No entry of a well-formed circle points back at itself. */
  lemma NoSelfLoop(next: seq<nat>, prev: seq<nat>, H: nat, L: seq<nat>, x: nat)
    requires Ring(next, prev, H, L) && x in L
    ensures x < |prev| && prev[x] != x
  {
    var i :| 0 <= i < |L| && L[i] == x;
    assert Node(L, H, i + 1) == x;
    NodesDiffer(L, H, i, i + 1);
  }
}
