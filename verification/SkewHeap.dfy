/** The skew heap of skew_heap.h: a pointer heap with parent links. The trees it represents are the
    specification; the pointer code is proved to compute them, and the trees to be heaps. */
module SkewHeap {

  /** A heap entry. What the client's comparison looks at is the key of the enclosing structure. */
  class Node<K> {
    var parent: Node?<K>
    var left: Node?<K>
    var right: Node?<K>
    const key: K

    constructor (k: K)
      ensures key == k
    {
      key := k;
      parent, left, right := null, null, null;
    }
  }

  datatype Tree<K> = Leaf | Bin(l: Tree<K>, x: Node<K>, r: Tree<K>)

  function Size<K>(t: Tree<K>): nat {
    match t
    case Leaf => 0
    case Bin(l, _, r) => Size(l) + Size(r) + 1
  }

  ghost function Elems<K>(t: Tree<K>): set<Node<K>> {
    match t
    case Leaf => {}
    case Bin(l, x, r) => Elems(l) + {x} + Elems(r)
  }

  /** No node occurs twice. */
  ghost predicate Distinct<K>(t: Tree<K>) {
    match t
    case Leaf => true
    case Bin(l, x, r) =>
      && x !in Elems(l) && x !in Elems(r) && Elems(l) !! Elems(r)
      && Distinct(l) && Distinct(r)
  }

  /** The pointers from n represent t: child links and the parent links back are exact. */
  ghost predicate Rep<K>(n: Node?<K>, t: Tree<K>)
    reads Elems(t)
  {
    match t
    case Leaf => n == null
    case Bin(l, x, r) =>
      && n == x
      && Rep(x.left, l) && Rep(x.right, r)
      && (l.Bin? ==> l.x.parent == x)
      && (r.Bin? ==> r.x.parent == x)
  }

  type Compare<!K> = (K, K) -> int

  /** The tree that skew_heap_merge builds. */
  function Merge<K>(comp: Compare<K>, a: Tree<K>, b: Tree<K>): Tree<K>
    decreases Size(a) + Size(b)
  {
    if a.Leaf? then b
    else if b.Leaf? then a
    else if comp(a.x.key, b.x.key) == -1 then Bin(Merge(comp, a.r, b), a.x, a.l)
    else Bin(Merge(comp, a, b.r), b.x, b.l)
  }

  /** The number of calls it makes, itself included. */
  function Calls<K>(comp: Compare<K>, a: Tree<K>, b: Tree<K>): nat
    decreases Size(a) + Size(b)
  {
    if a.Leaf? || b.Leaf? then 1
    else if comp(a.x.key, b.x.key) == -1 then 1 + Calls(comp, a.r, b)
    else 1 + Calls(comp, a, b.r)
  }

  // ---- what merging keeps ----

  lemma {:induction false} MergeElems<K>(comp: Compare<K>, a: Tree<K>, b: Tree<K>)
    ensures Elems(Merge(comp, a, b)) == Elems(a) + Elems(b)
    ensures Size(Merge(comp, a, b)) == Size(a) + Size(b)
    ensures Distinct(a) && Distinct(b) && Elems(a) !! Elems(b) ==> Distinct(Merge(comp, a, b))
    decreases Size(a) + Size(b)
  {
    if a.Bin? && b.Bin? {
      if comp(a.x.key, b.x.key) == -1 {
        MergeElems(comp, a.r, b);
      } else {
        MergeElems(comp, a, b.r);
      }
    }
  }

  /** The order the comparison stands for: y does not come strictly before x. */
  predicate Leq<K>(comp: Compare<K>, x: K, y: K) {
    comp(y, x) != -1
  }

  /** A comparison that answers exactly -1 for "less", under some total preorder. */
  ghost predicate TotalPreorder<K(!new)>(comp: Compare<K>) {
    && (forall x, y :: comp(x, y) == -1 ==> Leq(comp, x, y))
    && (forall x, y, z :: Leq(comp, x, y) && Leq(comp, y, z) ==> Leq(comp, x, z))
  }

  /** No child comes before its parent. */
  predicate HeapOrdered<K>(comp: Compare<K>, t: Tree<K>) {
    match t
    case Leaf => true
    case Bin(l, x, r) =>
      && (l.Bin? ==> Leq(comp, x.key, l.x.key)) && (r.Bin? ==> Leq(comp, x.key, r.x.key))
      && HeapOrdered(comp, l) && HeapOrdered(comp, r)
  }

  lemma {:induction false} MergeOrdered<K(!new)>(comp: Compare<K>, a: Tree<K>, b: Tree<K>)
    requires TotalPreorder(comp) && HeapOrdered(comp, a) && HeapOrdered(comp, b)
    ensures HeapOrdered(comp, Merge(comp, a, b))
    decreases Size(a) + Size(b)
  {
    if a.Bin? && b.Bin? {
      if comp(a.x.key, b.x.key) == -1 {
        assert Leq(comp, a.x.key, b.x.key);
        MergeOrdered(comp, a.r, b);
        MergeRoot(comp, a.r, b);
      } else {
        assert Leq(comp, b.x.key, a.x.key);
        MergeOrdered(comp, a, b.r);
        MergeRoot(comp, a, b.r);
      }
    }
  }

  lemma MergeRoot<K>(comp: Compare<K>, a: Tree<K>, b: Tree<K>)
    ensures var m := Merge(comp, a, b);
      (m.Bin? <==> a.Bin? || b.Bin?) && (m.Bin? ==> (a.Bin? && m.x == a.x) || (b.Bin? && m.x == b.x))
  {}

  /** The root of a heap comes first. */
  lemma {:induction false} RootIsFirst<K(!new)>(comp: Compare<K>, t: Tree<K>, y: Node<K>)
    requires TotalPreorder(comp) && HeapOrdered(comp, t) && t.Bin? && y in Elems(t)
    ensures Leq(comp, t.x.key, y.key)
  {
    if y == t.x {
      assert comp(y.key, y.key) == -1 ==> Leq(comp, y.key, y.key);
    } else if y in Elems(t.l) {
      RootIsFirst(comp, t.l, y);
      assert Leq(comp, t.x.key, t.l.x.key);
    } else {
      RootIsFirst(comp, t.r, y);
      assert Leq(comp, t.x.key, t.r.x.key);
    }
  }

  // ---- the pointer code ----

  /** The step after each recursive call: the merged tree becomes the left child, the old left child the right. */
  method Relink<K>(x: Node<K>, l: Node?<K>, ghost tl: Tree<K>, ghost tr: Tree<K>)
    requires Rep(l, tl) && Rep(x.left, tr) && (tr.Bin? ==> tr.x.parent == x)
    requires Distinct(Bin(tl, x, tr))
    modifies x, l
    ensures Rep(x, Bin(tl, x, tr))
    ensures x.parent == old(x.parent)
  {
    if tl.Bin? {
      assert l == tl.x && Rep(l.left, tl.l) && Rep(l.right, tl.r);
    }
    assert l == null || l in Elems(tl);
    var r := x.left;
    x.left := l;
    x.right := r;
    if l != null { l.parent := x; }
  }

  lemma RepParts<K>(n: Node?<K>, t: Tree<K>)
    requires Rep(n, t)
    ensures n == null <==> t.Leaf?
    ensures t.Bin? ==>
      (n == t.x && n in Elems(t) && Rep(n.left, t.l) && Rep(n.right, t.r)
      && (t.l.Bin? ==> t.l.x.parent == n) && (t.r.Bin? ==> t.r.x.parent == n)
      && Elems(t) == Elems(t.l) + {n} + Elems(t.r))
  {}

  lemma MergeSteps<K>(comp: Compare<K>, a: Tree<K>, b: Tree<K>)
    ensures a.Leaf? ==> Merge(comp, a, b) == b && Calls(comp, a, b) == 1
    ensures a.Bin? && b.Leaf? ==> Merge(comp, a, b) == a && Calls(comp, a, b) == 1
    ensures a.Bin? && b.Bin? && comp(a.x.key, b.x.key) == -1 ==>
      Merge(comp, a, b) == Bin(Merge(comp, a.r, b), a.x, a.l) && Calls(comp, a, b) == 1 + Calls(comp, a.r, b)
    ensures a.Bin? && b.Bin? && comp(a.x.key, b.x.key) != -1 ==>
      Merge(comp, a, b) == Bin(Merge(comp, a, b.r), b.x, b.l) && Calls(comp, a, b) == 1 + Calls(comp, a, b.r)
  {}

  /** skew_heap_merge. The parent link of the root it returns is left as it was. */
  method MergeHeaps<K>(a: Node?<K>, b: Node?<K>, comp: Compare<K>, ghost ta: Tree<K>, ghost tb: Tree<K>)
    returns (m: Node?<K>, ghost calls: nat)
    requires Rep(a, ta) && Rep(b, tb) && Distinct(ta) && Distinct(tb) && Elems(ta) !! Elems(tb)
    modifies Elems(ta) + Elems(tb)
    ensures Rep(m, Merge(comp, ta, tb))
    ensures m == a || m == b
    ensures m != null ==> m.parent == old(m.parent)
    ensures calls == Calls(comp, ta, tb)
    decreases Size(ta) + Size(tb)
  {
    hide Merge;
    hide Calls;
    hide Rep;
    hide Elems;
    MergeSteps(comp, ta, tb);
    RepParts(a, ta);
    RepParts(b, tb);
    if a == null { return b, 1; }
    if b == null { return a, 1; }
    var l;
    if comp(a.key, b.key) == -1 {
      MergeElems(comp, ta.r, tb);
      RepParts(a.left, ta.l);
      RepParts(a.right, ta.r);
      assert allocated(Elems(ta.l)) && Elems(ta.l) !! Elems(ta.r) + Elems(tb);
      l, calls := MergeHeaps(a.right, b, comp, ta.r, tb);
      Relink(a, l, Merge(comp, ta.r, tb), ta.l);
      m, calls := a, calls + 1;
    } else {
      MergeElems(comp, ta, tb.r);
      RepParts(b.left, tb.l);
      RepParts(b.right, tb.r);
      assert allocated(Elems(tb.l)) && Elems(tb.l) !! Elems(ta) + Elems(tb.r);
      l, calls := MergeHeaps(a, b.right, comp, ta, tb.r);
      Relink(b, l, Merge(comp, ta, tb.r), tb.l);
      m, calls := b, calls + 1;
    }
  }

  /** skew_heap_insert: the new entry is reset to a one-node tree and merged. */
  method Insert<K>(a: Node?<K>, b: Node<K>, comp: Compare<K>, ghost ta: Tree<K>)
    returns (m: Node<K>, ghost calls: nat)
    requires Rep(a, ta) && Distinct(ta) && b !in Elems(ta) && (a != null ==> a.parent == null)
    modifies Elems(ta), b
    ensures Rep(m, Merge(comp, ta, Bin(Leaf, b, Leaf))) && m.parent == null
    ensures calls == Calls(comp, ta, Bin(Leaf, b, Leaf))
  {
    RepParts(a, ta);
    b.left, b.right, b.parent := null, null, null;
    assert Elems(Bin(Leaf, b, Leaf)) == {b};
    var r;
    r, calls := MergeHeaps(a, b, comp, ta, Bin(Leaf, b, Leaf));
    m := r;
  }

  // ---- removing any member ----

  /** The tree skew_heap_remove leaves: the subtree at b is replaced by the merge of its children. */
  ghost function Remove<K>(comp: Compare<K>, t: Tree<K>, b: Node<K>): Tree<K> {
    match t
    case Leaf => Leaf
    case Bin(l, x, r) =>
      if x == b then Merge(comp, l, r)
      else if b in Elems(l) then Bin(Remove(comp, l, b), x, r)
      else Bin(l, x, Remove(comp, r, b))
  }

  /** The calls of merge that a removal makes. */
  ghost function RemoveCalls<K>(comp: Compare<K>, t: Tree<K>, b: Node<K>): nat {
    match t
    case Leaf => 0
    case Bin(l, x, r) =>
      if x == b then Calls(comp, l, r)
      else if b in Elems(l) then RemoveCalls(comp, l, b)
      else RemoveCalls(comp, r, b)
  }

  lemma {:induction false} RemoveElems<K>(comp: Compare<K>, t: Tree<K>, b: Node<K>)
    requires Distinct(t) && b in Elems(t)
    ensures Elems(Remove(comp, t, b)) == Elems(t) - {b}
    ensures Distinct(Remove(comp, t, b)) && Size(Remove(comp, t, b)) == Size(t) - 1
  {
    if t.x == b {
      MergeElems(comp, t.l, t.r);
    } else if b in Elems(t.l) {
      RemoveElems(comp, t.l, b);
    } else {
      RemoveElems(comp, t.r, b);
    }
  }

  lemma {:induction false} RemoveOrdered<K(!new)>(comp: Compare<K>, t: Tree<K>, b: Node<K>)
    requires TotalPreorder(comp) && HeapOrdered(comp, t) && b in Elems(t)
    ensures HeapOrdered(comp, Remove(comp, t, b))
    ensures Remove(comp, t, b).Bin? ==> Leq(comp, t.x.key, Remove(comp, t, b).x.key)
  {
    RootIsFirst(comp, t, t.x);
    if t.x == b {
      MergeOrdered(comp, t.l, t.r);
      MergeRoot(comp, t.l, t.r);
    } else if b in Elems(t.l) {
      RemoveOrdered(comp, t.l, b);
    } else {
      RemoveOrdered(comp, t.r, b);
    }
  }

  /** The subtree rooted at p. */
  ghost function Sub<K>(t: Tree<K>, p: Node<K>): Tree<K> {
    match t
    case Leaf => Leaf
    case Bin(l, x, r) => if x == p then t else if p in Elems(l) then Sub(l, p) else Sub(r, p)
  }

  /** t with the subtree at p replaced. */
  ghost function Put<K>(t: Tree<K>, p: Node<K>, s: Tree<K>): Tree<K> {
    match t
    case Leaf => Leaf
    case Bin(l, x, r) =>
      if x == p then s else if p in Elems(l) then Bin(Put(l, p, s), x, r) else Bin(l, x, Put(r, p, s))
  }

  lemma {:induction false} SubFacts<K>(t: Tree<K>, p: Node<K>)
    requires p in Elems(t)
    ensures Sub(t, p).Bin? && Sub(t, p).x == p && Elems(Sub(t, p)) <= Elems(t)
    ensures Distinct(t) ==> Distinct(Sub(t, p)) && (t.x != p ==> t.x !in Elems(Sub(t, p)))
  {
    if t.x != p {
      if p in Elems(t.l) { SubFacts(t.l, p); } else { SubFacts(t.r, p); }
    }
  }

  /** Removing below p is removing in the subtree of p. */
  lemma {:induction false} RemoveBelow<K>(comp: Compare<K>, t: Tree<K>, p: Node<K>, b: Node<K>)
    requires Distinct(t) && p in Elems(t) && b in Elems(Sub(t, p))
    ensures Remove(comp, t, b) == Put(t, p, Remove(comp, Sub(t, p), b))
  {
    if t.x != p {
      if p in Elems(t.l) {
        SubFacts(t.l, p);
        RemoveBelow(comp, t.l, p, b);
      } else {
        SubFacts(t.r, p);
        RemoveBelow(comp, t.r, p, b);
      }
    }
  }

  /** The pointers represent t outside the subtree at p, and lead to p. */
  ghost predicate Around<K>(n: Node?<K>, t: Tree<K>, p: Node<K>)
    requires Distinct(t) && p in Elems(t)
    reads Elems(t) - Elems(Sub(t, p))
    decreases t
  {
    if t.x == p then n == p
    else if p in Elems(t.l) then
      SubFacts(t.l, p);
      n == t.x && Around(t.x.left, t.l, p) && Rep(t.x.right, t.r)
      && (t.l.x != p ==> t.l.x.parent == t.x) && (t.r.Bin? ==> t.r.x.parent == t.x)
    else
      SubFacts(t.r, p);
      n == t.x && Rep(t.x.left, t.l) && Around(t.x.right, t.r, p)
      && (t.l.Bin? ==> t.l.x.parent == t.x) && (t.r.x != p ==> t.r.x.parent == t.x)
  }

  /** The parent of p in t, if p is not the root. */
  ghost function ParentIn<K>(t: Tree<K>, p: Node<K>): (q: Node?<K>)
  {
    match t
    case Leaf => null
    case Bin(l, x, r) =>
      if x == p then null
      else if (l.Bin? && l.x == p) || (r.Bin? && r.x == p) then x
      else if p in Elems(l) then ParentIn(l, p)
      else ParentIn(r, p)
  }

  lemma {:induction false} Open<K>(n: Node?<K>, t: Tree<K>, p: Node<K>)
    requires Rep(n, t) && Distinct(t) && p in Elems(t)
    ensures Around(n, t, p) && Rep(p, Sub(t, p))
    ensures p != t.x ==> ParentIn(t, p) != null && p.parent == ParentIn(t, p)
    ensures p != t.x ==> ParentIn(t, p) in Elems(t) && (ParentIn(t, p).left == p || ParentIn(t, p).right == p)
  {
    if t.x != p {
      if p in Elems(t.l) {
        SubFacts(t.l, p);
        Open(t.x.left, t.l, p);
      } else {
        SubFacts(t.r, p);
        Open(t.x.right, t.r, p);
      }
    }
  }

  lemma {:induction false} Close<K>(n: Node?<K>, t: Tree<K>, p: Node<K>, s: Tree<K>)
    requires Distinct(t) && p in Elems(t) && Around(n, t, p) && Rep(p, s) && s.Bin?
    requires p != t.x ==> p.parent == ParentIn(t, p)
    ensures Rep(n, Put(t, p, s))
  {
    if t.x != p {
      if p in Elems(t.l) {
        SubFacts(t.l, p);
        if t.l.x != p { Close(t.x.left, t.l, p, s); }
      } else {
        SubFacts(t.r, p);
        if t.r.x != p { Close(t.x.right, t.r, p, s); }
      }
    }
  }

  /** The tree of p after its child b has been replaced. */
  ghost function SwapChild<K>(s: Tree<K>, b: Node<K>, m: Tree<K>): Tree<K>
    requires s.Bin?
  {
    if s.l.Bin? && s.l.x == b then Bin(m, s.x, s.r) else Bin(s.l, s.x, m)
  }

  lemma RemoveChild<K>(comp: Compare<K>, s: Tree<K>, b: Node<K>)
    requires Distinct(s) && s.Bin? && ((s.l.Bin? && s.l.x == b) || (s.r.Bin? && s.r.x == b))
    ensures b in Elems(s) && b != s.x
    ensures var tb := if s.l.Bin? && s.l.x == b then s.l else s.r;
      Sub(s, b) == tb && Remove(comp, s, b) == SwapChild(s, b, Merge(comp, tb.l, tb.r))
  {}

  lemma {:induction false} SubOfSub<K>(t: Tree<K>, p: Node<K>, b: Node<K>)
    requires Distinct(t) && p in Elems(t) && b in Elems(Sub(t, p))
    ensures b in Elems(t) && Sub(t, b) == Sub(Sub(t, p), b)
  {
    SubFacts(t, p);
    if t.x != p {
      if p in Elems(t.l) {
        SubFacts(t.l, p);
        SubOfSub(t.l, p, b);
      } else {
        SubFacts(t.r, p);
        SubOfSub(t.r, p, b);
      }
    }
  }

  /** Hanging the replacement where b hung. */
  method Hook<K>(p: Node<K>, b: Node<K>, rep: Node?<K>, ghost s: Tree<K>, ghost m: Tree<K>)
    requires s.Bin? && s.x == p && Rep(rep, m) && (m.Bin? ==> m.x.parent == p)
    requires Distinct(SwapChild(s, b, m))
    requires p.left == b <==> s.l.Bin? && s.l.x == b
    requires Rep(if p.left == b then p.right else p.left, Sibling(s, b))
    requires Sibling(s, b).Bin? ==> Sibling(s, b).x.parent == p
    modifies p`left, p`right
    ensures Rep(p, SwapChild(s, b, m))
  {
    if p.left == b {
      p.left := rep;
    } else {
      p.right := rep;
    }
  }

  lemma DistinctParts<K>(t: Tree<K>)
    requires Distinct(t) && t.Bin?
    ensures Distinct(t.l) && Distinct(t.r) && Elems(t.l) !! Elems(t.r) && t.x !in Elems(t.l) && t.x !in Elems(t.r)
    ensures t.l.Bin? ==> t.l.x in Elems(t.l)
    ensures t.r.Bin? ==> t.r.x in Elems(t.r)
  {}

  lemma SwapDistinct<K>(s: Tree<K>, b: Node<K>, m: Tree<K>)
    requires Distinct(s) && s.Bin? && Distinct(m)
    requires Elems(m) <= if s.l.Bin? && s.l.x == b then Elems(s.l) else Elems(s.r)
    ensures SwapChild(s, b, m).Bin? && Distinct(SwapChild(s, b, m))
  {}

  /** The subtree of the removed node b, a child of p. */
  ghost function ChildTree<K>(s: Tree<K>, b: Node<K>): Tree<K>
    requires s.Bin?
  {
    if s.l.Bin? && s.l.x == b then s.l else s.r
  }

  ghost function Sibling<K>(s: Tree<K>, b: Node<K>): Tree<K>
    requires s.Bin?
  {
    if s.l.Bin? && s.l.x == b then s.r else s.l
  }

  lemma AtChild<K>(a: Node<K>, b: Node<K>, p: Node<K>, ta: Tree<K>)
    requires Rep(a, ta) && Distinct(ta) && b in Elems(ta) && b != a && p == b.parent
    ensures p in Elems(ta) && Around(a, ta, p) && Rep(p, Sub(ta, p))
    ensures Sub(ta, p).Bin? && Sub(ta, p).x == p && ta.Bin? && ta.x == a
    ensures Distinct(Sub(ta, p)) && Elems(Sub(ta, p)) <= Elems(ta) && (p != a ==> a !in Elems(Sub(ta, p)))
    ensures p != a ==> p.parent == ParentIn(ta, p)
    ensures ChildTree(Sub(ta, p), b).Bin? && ChildTree(Sub(ta, p), b).x == b
  {
    hide Around;
    RepParts(a, ta);
    Open(a, ta, b);
    SubFacts(ta, p);
    Open(a, ta, p);
    RepParts(p, Sub(ta, p));
    RepParts(p.left, Sub(ta, p).l);
    RepParts(p.right, Sub(ta, p).r);
  }

  lemma ChildFacts<K>(p: Node<K>, b: Node<K>, s: Tree<K>)
    requires Rep(p, s) && Distinct(s) && s.Bin? && ChildTree(s, b).Bin? && ChildTree(s, b).x == b
    ensures var tb, sib := ChildTree(s, b), Sibling(s, b);
      && Rep(b, tb) && Rep(b.left, tb.l) && Rep(b.right, tb.r)
      && Distinct(tb.l) && Distinct(tb.r) && Elems(tb.l) !! Elems(tb.r)
      && b in Elems(s) && p in Elems(s) && Elems(tb.l) + Elems(tb.r) <= Elems(s) - {b, p} - Elems(sib)
      && (p.left == b <==> s.l.Bin? && s.l.x == b)
      && Rep(if p.left == b then p.right else p.left, sib) && (sib.Bin? ==> sib.x in Elems(sib) && sib.x.parent == p)
      && p !in Elems(sib) && Elems(sib) <= Elems(s)
  {
    RepParts(p, s);
    RepParts(p.left, s.l);
    RepParts(p.right, s.r);
    DistinctParts(s);
    RepParts(b, ChildTree(s, b));
    DistinctParts(ChildTree(s, b));
  }

  lemma ChildRemoved<K>(comp: Compare<K>, ta: Tree<K>, p: Node<K>, b: Node<K>)
    requires Distinct(ta) && p in Elems(ta) && Sub(ta, p).Bin? && Distinct(Sub(ta, p))
    requires ChildTree(Sub(ta, p), b).Bin? && ChildTree(Sub(ta, p), b).x == b
    ensures var s := Sub(ta, p);
      var m := Merge(comp, ChildTree(s, b).l, ChildTree(s, b).r);
      && Remove(comp, ta, b) == Put(ta, p, SwapChild(s, b, m))
      && Distinct(SwapChild(s, b, m)) && Distinct(m) && SwapChild(s, b, m).Bin?
      && Elems(m) == Elems(ChildTree(s, b).l) + Elems(ChildTree(s, b).r)
  {
    hide Merge;
    var s := Sub(ta, p);
    var tb := ChildTree(s, b);
    RemoveChild(comp, s, b);
    SubOfSub(ta, p, b);
    RemoveBelow(comp, ta, p, b);
    MergeElems(comp, tb.l, tb.r);
    SwapDistinct(s, b, Merge(comp, tb.l, tb.r));
  }

  lemma ChildCalls<K>(comp: Compare<K>, ta: Tree<K>, p: Node<K>, b: Node<K>)
    requires Distinct(ta) && p in Elems(ta) && Sub(ta, p).Bin? && Distinct(Sub(ta, p))
    requires ChildTree(Sub(ta, p), b).Bin? && ChildTree(Sub(ta, p), b).x == b
    ensures var tb := ChildTree(Sub(ta, p), b); RemoveCalls(comp, ta, b) == Calls(comp, tb.l, tb.r)
  {
    hide Merge;
    hide Calls;
    hide RemoveCalls;
    RemoveChild(comp, Sub(ta, p), b);
    SubOfSub(ta, p, b);
    CallsBelow(comp, ta, b);
  }

  /** The non-root case of a removal: p is the parent of b. */
  method ReplaceAt<K>(a: Node<K>, b: Node<K>, p: Node<K>, comp: Compare<K>, ghost ta: Tree<K>)
    returns (ghost calls: nat)
    requires Rep(a, ta) && Distinct(ta) && b in Elems(ta) && b != a && p == b.parent
    modifies Elems(ta)
    ensures Rep(a, Remove(comp, ta, b)) && a.parent == old(a.parent)
    ensures calls == RemoveCalls(comp, ta, b)
  {
    hide *;
    AtChild(a, b, p, ta);
    ghost var s := Sub(ta, p);
    ghost var tb, sib := ChildTree(s, b), Sibling(s, b);
    ChildFacts(p, b, s);
    ChildRemoved(comp, ta, p, b);
    ghost var m := Merge(comp, tb.l, tb.r);
    assert allocated(Elems(ta)) && allocated(Elems(sib));
    ChildCalls(comp, ta, p, b);
    var rep;
    rep, calls := MergeHeaps(b.left, b.right, comp, tb.l, tb.r);
    RepParts(rep, m);
    HangRoot(rep, p, m);
    Hook(p, b, rep, s, m);
    Close(a, ta, p, SwapChild(s, b, m));
  }

  method HangRoot<K>(rep: Node?<K>, p: Node?<K>, ghost m: Tree<K>)
    requires Rep(rep, m) && Distinct(m)
    modifies if rep == null then {} else {rep}
    ensures Rep(rep, m) && (rep != null ==> rep.parent == p)
  {
    if m.Bin? {
      assert rep == m.x && Rep(rep.left, m.l) && Rep(rep.right, m.r);
    }
    if rep != null { rep.parent := p; }
  }

  /** skew_heap_remove of any member b of the heap at a. */
  method RemoveNode<K>(a: Node<K>, b: Node<K>, comp: Compare<K>, ghost ta: Tree<K>)
    returns (m: Node?<K>, ghost calls: nat)
    requires Rep(a, ta) && Distinct(ta) && a.parent == null && b in Elems(ta)
    modifies Elems(ta)
    ensures Rep(m, Remove(comp, ta, b))
    ensures m != null ==> m.parent == null
    ensures calls == RemoveCalls(comp, ta, b)
  {
    hide Rep;
    hide Merge;
    hide Calls;
    RepParts(a, ta);
    var p := b.parent;
    if p != null {
      calls := ReplaceAt(a, b, p, comp, ta);
      m := a;
    } else {
      if b != a { Open(a, ta, b); }
      var rep;
      rep, calls := MergeHeaps(b.left, b.right, comp, ta.l, ta.r);
      MergeElems(comp, ta.l, ta.r);
      RepParts(rep, Merge(comp, ta.l, ta.r));
      HangRoot(rep, null, Merge(comp, ta.l, ta.r));
      m := rep;
    }
  }

  lemma {:induction false} CallsBelow<K>(comp: Compare<K>, t: Tree<K>, b: Node<K>)
    requires b in Elems(t)
    ensures Sub(t, b).Bin? && RemoveCalls(comp, t, b) == Calls(comp, Sub(t, b).l, Sub(t, b).r)
  {
    if t.x != b {
      if b in Elems(t.l) { CallsBelow(comp, t.l, b); } else { CallsBelow(comp, t.r, b); }
    }
  }

  // ---- amortised cost ----

  /** The floor of the base-two logarithm. */
  function Log2(n: nat): nat {
    if n < 2 then 0 else 1 + Log2(n / 2)
  }

  lemma {:induction false} Log2Mono(m: nat, n: nat)
    requires m <= n
    ensures Log2(m) <= Log2(n)
  {
    if m >= 2 { Log2Mono(m / 2, n / 2); }
  }

  lemma Log2Double(m: nat, n: nat)
    requires 0 < m && 2 * m <= n
    ensures 1 + Log2(m) <= Log2(n)
  {
    Log2Mono(m, n / 2);
  }

  /** A node is heavy when its right subtree is larger than its left one. */
  function Heavy<K>(t: Tree<K>): nat {
    if t.Bin? && Size(t.r) > Size(t.l) then 1 else 0
  }

  /** The potential: the number of heavy nodes. */
  function Potential<K>(t: Tree<K>): nat {
    match t
    case Leaf => 0
    case Bin(l, _, r) => Potential(l) + Potential(r) + Heavy(t)
  }

  /** Light nodes on the right spine, heavy nodes on the left spine. */
  function LightRight<K>(t: Tree<K>): nat {
    if t.Leaf? then 0 else LightRight(t.r) + 1 - Heavy(t)
  }

  function HeavyLeft<K>(t: Tree<K>): nat {
    if t.Leaf? then 0 else HeavyLeft(t.l) + Heavy(t)
  }

  lemma {:induction false} LightRightLog<K>(t: Tree<K>)
    ensures LightRight(t) <= Log2(Size(t) + 1)
  {
    if t.Bin? {
      LightRightLog(t.r);
      if Heavy(t) == 0 {
        Log2Double(Size(t.r) + 1, Size(t) + 1);
      } else {
        Log2Mono(Size(t.r) + 1, Size(t) + 1);
      }
    }
  }

  lemma {:induction false} HeavyLeftLog<K>(t: Tree<K>)
    ensures HeavyLeft(t) <= Log2(Size(t) + 1)
  {
    if t.Bin? {
      HeavyLeftLog(t.l);
      if Heavy(t) == 1 {
        Log2Double(Size(t.l) + 1, Size(t) + 1);
      } else {
        Log2Mono(Size(t.l) + 1, Size(t) + 1);
      }
    }
  }

  lemma {:induction false} SpineCost<K>(comp: Compare<K>, a: Tree<K>, b: Tree<K>)
    ensures Calls(comp, a, b) + Potential(Merge(comp, a, b))
      <= Potential(a) + Potential(b) + LightRight(a) + LightRight(b) + HeavyLeft(Merge(comp, a, b)) + 1
    decreases Size(a) + Size(b)
  {
    if a.Bin? && b.Bin? {
      if comp(a.x.key, b.x.key) == -1 {
        SpineCost(comp, a.r, b);
      } else {
        SpineCost(comp, a, b.r);
      }
    }
  }

  /** The amortised cost of a merge is logarithmic, for any comparison at all. */
  lemma MergeCost<K>(comp: Compare<K>, a: Tree<K>, b: Tree<K>)
    ensures Calls(comp, a, b) + Potential(Merge(comp, a, b))
      <= Potential(a) + Potential(b) + Log2(Size(a) + 1) + Log2(Size(b) + 1) + Log2(Size(a) + Size(b) + 1) + 1
  {
    hide *;
    SpineCost(comp, a, b);
    MergeElems(comp, a, b);
    LightRightLog(a);
    LightRightLog(b);
    HeavyLeftLog(Merge(comp, a, b));
  }

  lemma {:induction false} RemoveSize<K>(comp: Compare<K>, t: Tree<K>, b: Node<K>)
    requires b in Elems(t)
    ensures Size(Remove(comp, t, b)) == Size(t) - 1
  {
    hide Merge;
    if t.x == b {
      MergeElems(comp, t.l, t.r);
    } else if b in Elems(t.l) {
      RemoveSize(comp, t.l, b);
    } else {
      RemoveSize(comp, t.r, b);
    }
  }

  lemma NodeSums<K>(l: Tree<K>, x: Node<K>, r: Tree<K>)
    ensures Size(Bin(l, x, r)) == Size(l) + Size(r) + 1
    ensures Potential(Bin(l, x, r)) == Potential(l) + Potential(r) + if Size(r) > Size(l) then 1 else 0
  {}

  /** A removal on the left makes a node heavy only if its subtrees had one size, and then its own size is twice
      that. */
  lemma LeftSmaller<K>(l: Tree<K>, l': Tree<K>, x: Node<K>, r: Tree<K>)
    requires Size(l') + 1 == Size(l)
    ensures Potential(Bin(l', x, r)) + Potential(l) + Log2(Size(l) + 1)
      <= Potential(Bin(l, x, r)) + Potential(l') + Log2(Size(Bin(l, x, r)) + 1)
  {
    hide *;
    NodeSums(l, x, r);
    NodeSums(l', x, r);
    if Size(l) == Size(r) {
      Log2Double(Size(l) + 1, Size(l) + Size(r) + 2);
    } else {
      Log2Mono(Size(l) + 1, Size(l) + Size(r) + 2);
    }
  }

  /** A removal on the right makes none heavy. */
  lemma RightSmaller<K>(l: Tree<K>, x: Node<K>, r: Tree<K>, r': Tree<K>)
    requires Size(r') + 1 == Size(r)
    ensures Potential(Bin(l, x, r')) + Potential(r) + Log2(Size(r) + 1)
      <= Potential(Bin(l, x, r)) + Potential(r') + Log2(Size(Bin(l, x, r)) + 1)
  {
    hide *;
    NodeSums(l, x, r);
    NodeSums(l, x, r');
    Log2Mono(Size(r) + 1, Size(l) + Size(r) + 2);
  }

  lemma RootCost<K>(comp: Compare<K>, t: Tree<K>, n: nat)
    requires t.Bin? && Size(t) <= n
    ensures Calls(comp, t.l, t.r) + Potential(Merge(comp, t.l, t.r)) <= Potential(t) + 3 * Log2(n + 1) + 1
  {
    hide Log2;
    hide Merge;
    hide Calls;
    CostAtMost(comp, t.l, t.r, n);
  }

  /** So the potential rises by one logarithm at most above the removed node, whichever member of the heap that is. */
  lemma {:induction false} RemoveCost<K>(comp: Compare<K>, t: Tree<K>, b: Node<K>, n: nat)
    requires b in Elems(t) && Size(t) <= n
    ensures RemoveCalls(comp, t, b) + Potential(Remove(comp, t, b))
      <= Potential(t) + Log2(Size(t) + 1) + 3 * Log2(n + 1) + 1
    decreases t
  {
    hide Log2;
    hide Merge;
    hide Calls;
    hide Potential;
    if t.x == b {
      RootCost(comp, t, n);
    } else if b in Elems(t.l) {
      RemoveCost(comp, t.l, b, n);
      RemoveSize(comp, t.l, b);
      LeftSmaller(t.l, Remove(comp, t.l, b), t.x, t.r);
    } else {
      RemoveCost(comp, t.r, b, n);
      RemoveSize(comp, t.r, b);
      RightSmaller(t.l, t.x, t.r, Remove(comp, t.r, b));
    }
  }

  // ---- runs of a priority queue ----

  datatype Op<K> = Push(b: Node<K>) | Pop | Delete(b: Node<K>)

  /** The heap after one operation: an insertion, the removal of the root, or the removal of any member. */
  ghost function Apply<K>(comp: Compare<K>, t: Tree<K>, op: Op<K>): Tree<K> {
    match op
    case Push(b) => Merge(comp, t, Bin(Leaf, b, Leaf))
    case Pop => if t.Leaf? then t else Remove(comp, t, t.x)
    case Delete(b) => if b in Elems(t) then Remove(comp, t, b) else t
  }

  ghost function OpCalls<K>(comp: Compare<K>, t: Tree<K>, op: Op<K>): nat {
    match op
    case Push(b) => Calls(comp, t, Bin(Leaf, b, Leaf))
    case Pop => if t.Leaf? then 0 else RemoveCalls(comp, t, t.x)
    case Delete(b) => if b in Elems(t) then RemoveCalls(comp, t, b) else 0
  }

  ghost function ApplyAll<K>(comp: Compare<K>, t: Tree<K>, ops: seq<Op<K>>): Tree<K>
    decreases |ops|
  {
    if ops == [] then t else ApplyAll(comp, Apply(comp, t, ops[0]), ops[1..])
  }

  ghost function TotalCalls<K>(comp: Compare<K>, t: Tree<K>, ops: seq<Op<K>>): nat
    decreases |ops|
  {
    if ops == [] then 0 else OpCalls(comp, t, ops[0]) + TotalCalls(comp, Apply(comp, t, ops[0]), ops[1..])
  }

  lemma OpCost<K>(comp: Compare<K>, t: Tree<K>, op: Op<K>, n: nat)
    requires Size(t) < n
    ensures OpCalls(comp, t, op) + Potential(Apply(comp, t, op)) <= Potential(t) + 4 * Log2(n + 1) + 1
    ensures Size(Apply(comp, t, op)) <= Size(t) + 1
  {
    hide Log2;
    hide Merge;
    hide Calls;
    hide Remove;
    hide RemoveCalls;
    match op
    case Push(b) =>
      SingleNode(b);
      CostAtMost(comp, t, Bin(Leaf, b, Leaf), n);
    case Pop => if t.Bin? { MemberCost(comp, t, t.x, n); }
    case Delete(b) => if b in Elems(t) { MemberCost(comp, t, b, n); }
  }

  lemma MemberCost<K>(comp: Compare<K>, t: Tree<K>, b: Node<K>, n: nat)
    requires b in Elems(t) && Size(t) < n
    ensures RemoveCalls(comp, t, b) + Potential(Remove(comp, t, b)) <= Potential(t) + 4 * Log2(n + 1) + 1
    ensures Size(Remove(comp, t, b)) < Size(t)
  {
    hide *;
    RemoveCost(comp, t, b, n);
    RemoveSize(comp, t, b);
    Log2Mono(Size(t) + 1, n + 1);
  }

  lemma SingleNode<K>(b: Node<K>)
    ensures Size(Bin(Leaf, b, Leaf)) == 1 && Potential(Bin(Leaf, b, Leaf)) == 0
  {}

  lemma CostAtMost<K>(comp: Compare<K>, a: Tree<K>, b: Tree<K>, n: nat)
    requires Size(a) + Size(b) <= n
    ensures Calls(comp, a, b) + Potential(Merge(comp, a, b)) <= Potential(a) + Potential(b) + 3 * Log2(n + 1) + 1
    ensures Size(Merge(comp, a, b)) == Size(a) + Size(b)
  {
    hide *;
    MergeCost(comp, a, b);
    MergeElems(comp, a, b);
    Log2Mono(Size(a) + 1, n + 1);
    Log2Mono(Size(b) + 1, n + 1);
    Log2Mono(Size(a) + Size(b) + 1, n + 1);
  }

  /** Over any run of insertions and removals, of the first entry or of any other, the calls made are at most
      logarithmically many per operation, plus the potential of the heap the run starts from. */
  lemma {:induction false} RunCost<K>(comp: Compare<K>, t: Tree<K>, ops: seq<Op<K>>, n: nat)
    requires Size(t) + |ops| <= n
    ensures TotalCalls(comp, t, ops) + Potential(ApplyAll(comp, t, ops)) <= Potential(t) + |ops| * (4 * Log2(n + 1) + 1)
    decreases |ops|
  {
    hide Log2;
    hide Apply;
    hide OpCalls;
    hide Potential;
    if ops != [] {
      OpCost(comp, t, ops[0], n);
      RunCost(comp, Apply(comp, t, ops[0]), ops[1..], n);
      Distribute(|ops| - 1, 4 * Log2(n + 1) + 1);
    }
  }

  lemma Distribute(k: nat, c: nat)
    ensures (k + 1) * c == k * c + c
  {}
}
