/** The doubly linked lists of list.h, seen as sequences of entries: head first, sentinel left out. */
module Lists {

  /** The sequence left after list_del of entry x. */
  function Delete(s: seq<nat>, x: nat): (r: seq<nat>)
  {
    if s == [] then [] else if s[0] == x then s[1..] else [s[0]] + Delete(s[1..], x)
  }

  predicate NoDup(s: seq<nat>) {
    forall a, b :: 0 <= a < b < |s| ==> s[a] != s[b]
  }

  lemma {:induction false} DeleteEffect(s: seq<nat>, x: nat)
    requires NoDup(s)
    ensures NoDup(Delete(s, x))
    ensures forall y :: y in Delete(s, x) <==> y in s && y != x
    ensures |Delete(s, x)| == |s| - if x in s then 1 else 0
  {
    if s != [] {
      assert s == [s[0]] + s[1..];
      assert forall y :: y in s[1..] ==> y != s[0];
      if s[0] != x {
        DeleteEffect(s[1..], x);
        PushEffect(Delete(s[1..], x), s[0]);
      }
    }
  }

  /** t is s with one x taken out, everything else in its order. */
  ghost predicate Dropped(s: seq<nat>, x: nat, t: seq<nat>) {
    exists i :: 0 <= i < |s| && s[i] == x && t == s[..i] + s[i + 1..]
  }

  lemma {:induction false} DeleteOrder(s: seq<nat>, x: nat)
    requires x in s
    ensures Dropped(s, x, Delete(s, x))
  {
    hide Dropped;
    if s[0] == x {
      DroppedFirst(s);
    } else {
      DeleteOrder(s[1..], x);
      DroppedMore(s[0], s[1..], x, Delete(s[1..], x));
      assert s == [s[0]] + s[1..];
    }
  }

  lemma DroppedFirst(s: seq<nat>)
    requires s != []
    ensures Dropped(s, s[0], s[1..])
  {
    assert s[1..] == s[..0] + s[0 + 1..];
  }

  lemma DroppedMore(c: nat, s: seq<nat>, x: nat, t: seq<nat>)
    requires Dropped(s, x, t)
    ensures Dropped([c] + s, x, [c] + t)
  {
    var i :| 0 <= i < |s| && s[i] == x && t == s[..i] + s[i + 1..];
    var u := [c] + s;
    assert u[..i + 1] == [c] + s[..i] && u[i + 1 + 1..] == s[i + 1..];
    assert u[i + 1] == x && [c] + t == u[..i + 1] + u[i + 1 + 1..];
  }

  /** list_add at the head of a list the entry is not on. */
  lemma PushEffect(s: seq<nat>, x: nat)
    requires NoDup(s) && x !in s
    ensures NoDup([x] + s)
    ensures forall y :: y in [x] + s <==> y == x || y in s
  {}

  lemma {:induction false} CountOnce(s: seq<nat>, x: nat)
    requires NoDup(s)
    ensures multiset(s)[x] == if x in s then 1 else 0
  {
    if s != [] {
      assert s == [s[0]] + s[1..];
      assert forall y :: y in s[1..] ==> y != s[0];
      CountOnce(s[1..], x);
    }
  }

  /** Two lists without repetitions and with the same members are permutations of each other. */
  lemma SameElements(s: seq<nat>, t: seq<nat>)
    requires NoDup(s) && NoDup(t) && forall x :: x in s <==> x in t
    ensures multiset(s) == multiset(t)
  {
    forall x: nat
      ensures multiset(s)[x] == multiset(t)[x]
    {
      CountOnce(s, x);
      CountOnce(t, x);
    }
  }
}
