/** The directory tree that mksfs.c builds in the image: open_dir, add_dir, add_file and add_link. Block numbers are
    counted as the class Mksfs.Sfs is proved to use them; here the subject is what the directories hold. */
module ImageTree {
  import opened Options
  import Mksfs

  const BLKN_ROOT := 1
  const MAX_FNAME_LEN := 255

  /** What the host's directories list; `host` is the host's inode number. */
  datatype Item =
    | Dir(host: nat, kids: seq<Named>)
    | Regular(host: nat, length: nat)
    | Symlink(host: nat, length: nat)
    | Other
  datatype Named = Named(name: string, what: Item)

  datatype Kind = DirKind | FileKind | LinkKind
  datatype Entry = Entry(name: string, ino: nat)
  datatype Inode = Inode(host: nat, kind: Kind, nlinks: Mksfs.Half, nblks: nat, entries: seq<Entry>)

  /** The cached inodes, by number. */
  type Table = map<nat, Inode>

  /** Hidden names - "." and ".." among them - and special files are left out of the image. */
  predicate Skipped(x: Named) {
    Hidden(x.name) || x.what.Other?
  }

  // ---- counting in the host tree ----

  /** How many names the file `host` has among the first n entries of a directory and all that is below them. */
  function Names(h: Item, n: nat, host: nat): nat
    requires h.Dir? && n <= |h.kids|
    decreases h, n
  {
    if n == 0 then 0 else Names(h, n - 1, host) + NamesIn(h.kids[n - 1], host)
  }

  function NamesIn(x: Named, host: nat): nat
    decreases x, 0
  {
    if Skipped(x) then 0
    else match x.what
      case Dir(_, kids) => Names(x.what, |kids|, host)
      case Regular(r, _) => if r == host then 1 else 0
      case _ => 0
  }

  /** The length of the file `host` where its first name is met. */
  function FirstLen(h: Item, n: nat, host: nat): nat
    requires h.Dir? && n <= |h.kids|
    decreases h, n
  {
    if n == 0 then 0
    else if Names(h, n - 1, host) > 0 then FirstLen(h, n - 1, host)
    else FirstLenIn(h.kids[n - 1], host)
  }

  function FirstLenIn(x: Named, host: nat): nat
    decreases x, 0
  {
    if Skipped(x) then 0
    else match x.what
      case Dir(_, kids) => FirstLen(x.what, |kids|, host)
      case Regular(r, length) => if r == host then length else 0
      case _ => 0
  }

  function Subdirs(h: Item, n: nat): nat
    requires h.Dir? && n <= |h.kids|
  {
    if n == 0 then 0 else Subdirs(h, n - 1) + if !Skipped(h.kids[n - 1]) && h.kids[n - 1].what.Dir? then 1 else 0
  }

  /** How many directories among the first n entries, and below, have the number `host`. */
  function Dirs(h: Item, n: nat, host: nat): nat
    requires h.Dir? && n <= |h.kids|
    decreases h, n
  {
    if n == 0 then 0 else Dirs(h, n - 1, host) + DirsIn(h.kids[n - 1], host)
  }

  function DirsIn(x: Named, host: nat): nat
    decreases x, 0
  {
    if Skipped(x) || !x.what.Dir? then 0
    else (if x.what.host == host then 1 else 0) + Dirs(x.what, |x.what.kids|, host)
  }

  /** A host number belongs to one kind of thing. */
  ghost predicate Consistent(h: Item, kinds: nat -> Kind)
    decreases h
  {
    match h
    case Dir(host, kids) => kinds(host) == DirKind && forall i :: 0 <= i < |kids| ==> Consistent(kids[i].what, kinds)
    case Regular(host, _) => kinds(host) == FileKind
    case Symlink(host, _) => kinds(host) == LinkKind
    case Other => true
  }

  // ---- the image mirrors the host ----

  /** The entries `es` of directory d are, in order, the first n entries of h without those left out. Each names an
      inode of the same kind and host number; subdirectories have "." and ".." in front and mirror theirs in turn. */
  ghost predicate Mirrors(m: Table, d: nat, es: seq<Entry>, h: Item, n: nat)
    requires h.Dir? && n <= |h.kids|
    decreases h, n
  {
    if n == 0 then es == []
    else if Skipped(h.kids[n - 1]) then Mirrors(m, d, es, h, n - 1)
    else
      && es != [] && es[|es| - 1].name == h.kids[n - 1].name && Mirrors(m, d, es[..|es| - 1], h, n - 1)
      && MirrorsItem(m, d, es[|es| - 1].ino, h.kids[n - 1].what)
  }

  ghost predicate MirrorsItem(m: Table, d: nat, j: nat, x: Item)
    decreases x, if x.Dir? then |x.kids| + 1 else 0
  {
    j in m &&
    match x
    case Dir(host, kids) =>
      && j > d && m[j].kind == DirKind && m[j].host == host && m[j].nlinks == 2 + Subdirs(x, |kids|)
      && |m[j].entries| >= 2 && m[j].entries[..2] == [Entry(".", j), Entry("..", d)]
      && Mirrors(m, j, m[j].entries[2..], x, |kids|)
    case Regular(host, _) => m[j].kind == FileKind && m[j].host == host
    case Symlink(host, _) => m[j].kind == LinkKind && m[j].host == host && m[j].nlinks == 1 && m[j].nblks == 1
    case Other => false
  }

  /** From m1 to m2 only directories up to d changed, and link counts of files. */
  ghost predicate FrameAbove(m1: Table, m2: Table, d: nat) {
    forall k :: k in m1 ==> k in m2 && Kept(m1[k], m2[k]) && (k > d && m1[k].kind == DirKind ==> SameDir(m1[k], m2[k]))
  }

  predicate Kept(a: Inode, b: Inode) {
    && a.kind == b.kind && a.host == b.host
    && (a.kind == LinkKind ==> a.nlinks == b.nlinks) && (a.kind != DirKind ==> a.nblks == b.nblks)
  }

  predicate SameDir(a: Inode, b: Inode) {
    a.entries == b.entries && a.nlinks == b.nlinks
  }

  lemma {:induction false} MirrorsFrame(m1: Table, m2: Table, d: nat, es: seq<Entry>, h: Item, n: nat)
    requires FrameAbove(m1, m2, d) && h.Dir? && n <= |h.kids| && Mirrors(m1, d, es, h, n)
    ensures Mirrors(m2, d, es, h, n)
    decreases h, n
  {
    if n > 0 {
      if Skipped(h.kids[n - 1]) {
        MirrorsFrame(m1, m2, d, es, h, n - 1);
      } else {
        MirrorsFrame(m1, m2, d, es[..|es| - 1], h, n - 1);
        ItemFrame(m1, m2, d, es[|es| - 1].ino, h.kids[n - 1].what);
      }
    }
  }

  lemma {:induction false} ItemFrame(m1: Table, m2: Table, d: nat, j: nat, x: Item)
    requires FrameAbove(m1, m2, d) && MirrorsItem(m1, d, j, x)
    ensures MirrorsItem(m2, d, j, x)
    decreases x, if x.Dir? then |x.kids| + 1 else 0
  {
    if x.Dir? { MirrorsFrame(m1, m2, j, m1[j].entries[2..], x, |x.kids|); }
  }

  // ---- what a mirrored directory shows ----

  /** pos picks, in order, those of the first n entries of a host directory that are no special files and whose names
      do not start with a dot. */
  ghost predicate Picks(kids: seq<Named>, n: nat, pos: seq<nat>)
    requires n <= |kids|
  {
    && (forall k :: 0 <= k < |pos| ==> pos[k] < n) && (forall k, l :: 0 <= k < l < |pos| ==> pos[k] < pos[l])
    && forall i: nat :: i < n ==>
         (i in pos <==> !kids[i].what.Other? && (kids[i].name == "" || kids[i].name[0] != '.'))
  }

  /** The entries `es` of directory d are those, with their names, and each stands for what the host has. */
  ghost predicate Shows(m: Table, d: nat, es: seq<Entry>, h: Item)
    requires h.Dir?
    decreases h, 1
  {
    exists pos: seq<nat> :: Picks(h.kids, |h.kids|, pos) && ShowsAt(m, d, es, h, |h.kids|, pos)
  }

  ghost predicate ShowsAt(m: Table, d: nat, es: seq<Entry>, h: Item, n: nat, pos: seq<nat>)
    requires h.Dir? && n <= |h.kids| && Picks(h.kids, n, pos)
    decreases h, 0
  {
    && |es| == |pos|
    && forall k :: 0 <= k < |pos| ==>
         es[k].name == h.kids[pos[k]].name && ShowsItem(m, d, es[k].ino, h.kids[pos[k]].what)
  }

  ghost predicate ShowsItem(m: Table, d: nat, j: nat, x: Item)
    decreases x, 3
  {
    j in m &&
    match x
    case Dir(host, _) => m[j].kind == DirKind && m[j].host == host && Pictured(m, j, d, x)
    case Regular(host, _) => m[j].kind == FileKind && m[j].host == host
    case Symlink(host, _) => m[j].kind == LinkKind && m[j].host == host && m[j].nlinks == 1 && m[j].nblks == 1
    case Other => false
  }

  /** Directory j begins with "." and "..", which is d, and then shows x. */
  ghost predicate Pictured(m: Table, j: nat, d: nat, x: Item)
    requires x.Dir?
    decreases x, 2
  {
    && j in m && |m[j].entries| >= 2 && m[j].entries[0] == Entry(".", j) && m[j].entries[1] == Entry("..", d)
    && Shows(m, j, m[j].entries[2..], x)
  }

  lemma {:induction false} MirrorsShow(m: Table, d: nat, es: seq<Entry>, h: Item, n: nat) returns (pos: seq<nat>)
    requires h.Dir? && n <= |h.kids| && Mirrors(m, d, es, h, n)
    ensures Picks(h.kids, n, pos) && ShowsAt(m, d, es, h, n, pos)
    decreases h, n
  {
    if n == 0 {
      pos := [];
    } else if Skipped(h.kids[n - 1]) {
      pos := MirrorsShow(m, d, es, h, n - 1);
      PickSkip(h.kids, n, pos);
    } else {
      pos := MirrorsShow(m, d, es[..|es| - 1], h, n - 1);
      ItemShows(m, d, es[|es| - 1].ino, h.kids[n - 1].what);
      PickMore(h.kids, n, pos);
      pos := pos + [n - 1];
    }
  }

  lemma PickSkip(kids: seq<Named>, n: nat, pos: seq<nat>)
    requires 0 < n <= |kids| && Picks(kids, n - 1, pos) && Skipped(kids[n - 1])
    ensures Picks(kids, n, pos)
  {}

  lemma PickMore(kids: seq<Named>, n: nat, pos: seq<nat>)
    requires 0 < n <= |kids| && Picks(kids, n - 1, pos) && !Skipped(kids[n - 1])
    ensures Picks(kids, n, pos + [n - 1])
  {
    var pos' := pos + [n - 1];
    assert pos'[|pos|] == n - 1;
    forall i: nat | i < n
      ensures i in pos' <==> !kids[i].what.Other? && (kids[i].name == "" || kids[i].name[0] != '.')
    {
      assert i in pos' <==> i in pos || i == n - 1;
    }
  }

  lemma {:induction false} ItemShows(m: Table, d: nat, j: nat, x: Item)
    requires MirrorsItem(m, d, j, x)
    ensures ShowsItem(m, d, j, x)
    decreases x, if x.Dir? then |x.kids| + 1 else 0
  {
    if x.Dir? { MirroredShows(m, j, d, x); }
  }

  lemma {:induction false} MirroredShows(m: Table, j: nat, d: nat, x: Item)
    requires x.Dir? && j in m && Mirrored(m, j, d, x)
    ensures Pictured(m, j, d, x)
    decreases x, |x.kids| + 1, 0
  {
    var pos := MirrorsShow(m, j, m[j].entries[2..], x, |x.kids|);
    assert m[j].entries[0] == m[j].entries[..2][0] && m[j].entries[1] == m[j].entries[..2][1];
  }

  // ---- what filling a directory does to the table ----

  /** Every number is below `next`, has the kind its host number has, and only symbolic links share host numbers. */
  ghost predicate WellFormed(m: Table, next: nat, kinds: nat -> Kind) {
    && (forall k :: k in m ==> k < next && kinds(m[k].host) == m[k].kind)
    && (forall j, k :: j in m && k in m && m[j].host == m[k].host && m[j].kind != LinkKind ==> j == k)
  }

  /** All directories but cur, and all links, stay as they are. */
  ghost predicate Stable(m1: Table, m2: Table, cur: nat) {
    forall k :: k in m1 ==>
      k in m2 && Kept(m1[k], m2[k]) && (k != cur && m1[k].kind == DirKind ==> SameDir(m1[k], m2[k]))
  }

  ghost predicate HasFile(m: Table, host: nat) {
    exists k :: k in m && m[k].kind == FileKind && m[k].host == host
  }

  function Before(m: Table, k: nat): Mksfs.Half {
    if k in m then m[k].nlinks else 0
  }

  /** Each file has gained as many links as it has names in the first n entries of h. */
  ghost predicate FileLinks(m1: Table, m2: Table, h: Item, n: nat)
    requires h.Dir? && n <= |h.kids|
  {
    && (forall k :: k in m2 && m2[k].kind == FileKind ==>
         m2[k].nlinks == Mksfs.Wrapped(Before(m1, k) + Names(h, n, m2[k].host)))
    && (forall r :: Names(h, n, r) > 0 ==> HasFile(m2, r))
  }

  ghost predicate FileLinksIn(m1: Table, m2: Table, x: Named) {
    && (forall k :: k in m2 && m2[k].kind == FileKind ==>
         m2[k].nlinks == Mksfs.Wrapped(Before(m1, k) + NamesIn(x, m2[k].host)))
    && (forall r :: NamesIn(x, r) > 0 ==> HasFile(m2, r))
  }

  ghost predicate HasDir(m: Table, host: nat) {
    exists k :: k in m && m[k].kind == DirKind && m[k].host == host
  }

  /** So many blocks of 4096 bytes, the last of which may be short, hold so many bytes. */
  predicate Holds(nblks: nat, length: nat) {
    length <= 4096 * nblks < length + 4096
  }

  /** The directories and files that are new in m2 come from the first n entries of h, and the files have the blocks
      they need. */
  ghost predicate NewOnes(m1: Table, m2: Table, h: Item, n: nat)
    requires h.Dir? && n <= |h.kids|
  {
    forall k :: k in m2 && k !in m1 ==>
      && (m2[k].kind == DirKind ==> Dirs(h, n, m2[k].host) > 0)
      && (m2[k].kind == FileKind ==>
            Names(h, n, m2[k].host) > 0 && Holds(m2[k].nblks, FirstLen(h, n, m2[k].host)))
  }

  ghost predicate NewOnesIn(m1: Table, m2: Table, x: Named) {
    forall k :: k in m2 && k !in m1 ==>
      && (m2[k].kind == DirKind ==> DirsIn(x, m2[k].host) > 0)
      && (m2[k].kind == FileKind ==> NamesIn(x, m2[k].host) > 0 && Holds(m2[k].nblks, FirstLenIn(x, m2[k].host)))
  }

  lemma NewOnesTrans(m1: Table, m2: Table, m3: Table, h: Item, n: nat, next: nat, kinds: nat -> Kind, cur: nat)
    requires h.Dir? && n < |h.kids| && NewOnes(m1, m2, h, n) && NewOnesIn(m2, m3, h.kids[n]) && Stable(m2, m3, cur)
    requires FileLinks(m1, m2, h, n) && WellFormed(m3, next, kinds)
    ensures NewOnes(m1, m3, h, n + 1)
  {
    hide DirsIn;
    hide NamesIn;
    hide FirstLenIn;
    hide Names;
    hide FirstLen;
    hide Holds;
    hide WellFormed;
    forall k | k in m3 && k !in m1
      ensures m3[k].kind == DirKind ==> Dirs(h, n + 1, m3[k].host) > 0
      ensures m3[k].kind == FileKind ==>
        Names(h, n + 1, m3[k].host) > 0 && Holds(m3[k].nblks, FirstLen(h, n + 1, m3[k].host))
    {
      if m3[k].kind == FileKind {
        NamesStep(h, n, m3[k].host);
        if k !in m2 { OnlyFile(m2, m3, k, next, kinds); }
      }
    }
  }

  /** The first n entries of h are in directory cur, which had "." and ".." in m1. */
  ghost predicate Filled(m1: Table, m2: Table, cur: nat, h: Item, n: nat)
    requires h.Dir? && n <= |h.kids|
  {
    && Stable(m1, m2, cur) && cur in m1 && m1[cur].kind == DirKind && |m1[cur].entries| == 2
    && m1[cur].entries <= m2[cur].entries && Mirrors(m2, cur, m2[cur].entries[2..], h, n)
    && m2[cur].nlinks == Mksfs.Wrapped(m1[cur].nlinks + Subdirs(h, n))
    && FileLinks(m1, m2, h, n) && NewOnes(m1, m2, h, n)
  }

  /** The entry x has been added to directory cur. */
  ghost predicate ItemDone(m1: Table, m2: Table, cur: nat, x: Named) {
    && Stable(m1, m2, cur) && cur in m1 && m1[cur].kind == DirKind && m2[cur].entries != []
    && m2[cur].entries[..|m2[cur].entries| - 1] == m1[cur].entries
    && m2[cur].entries[|m2[cur].entries| - 1].name == x.name
    && MirrorsItem(m2, cur, m2[cur].entries[|m2[cur].entries| - 1].ino, x.what)
    && m2[cur].nlinks == Mksfs.Wrapped(m1[cur].nlinks + (if x.what.Dir? then 1 else 0))
    && FileLinksIn(m1, m2, x) && NewOnesIn(m1, m2, x)
  }

  lemma StableTrans(m1: Table, m2: Table, m3: Table, cur: nat)
    requires Stable(m1, m2, cur) && Stable(m2, m3, cur)
    ensures Stable(m1, m3, cur)
  {}

  lemma FileLinksTrans(m1: Table, m2: Table, m3: Table, h: Item, n: nat, next: nat, kinds: nat -> Kind, cur: nat)
    requires h.Dir? && n < |h.kids| && FileLinks(m1, m2, h, n) && FileLinksIn(m2, m3, h.kids[n])
    requires Stable(m1, m2, cur) && Stable(m2, m3, cur) && WellFormed(m3, next, kinds)
    ensures FileLinks(m1, m3, h, n + 1)
  {
    hide NamesIn;
    hide Names;
    hide Mksfs.Wrapped;
    hide WellFormed;
    forall k | k in m3 && m3[k].kind == FileKind
      ensures m3[k].nlinks == Mksfs.Wrapped(Before(m1, k) + Names(h, n + 1, m3[k].host))
    {
      NamesStep(h, n, m3[k].host);
      if k in m2 {
        Mksfs.WrapSum(Before(m1, k) + Names(h, n, m3[k].host), NamesIn(h.kids[n], m3[k].host));
      } else {
        OnlyFile(m2, m3, k, next, kinds);
      }
    }
    forall r | Names(h, n + 1, r) > 0
      ensures HasFile(m3, r)
    {
      NamesStep(h, n, r);
      if Names(h, n, r) > 0 {
        var j :| j in m2 && m2[j].kind == FileKind && m2[j].host == r;
        assert j in m3 && m3[j].kind == FileKind && m3[j].host == r;
      }
    }
  }

  lemma NamesStep(h: Item, n: nat, r: nat)
    requires h.Dir? && n < |h.kids|
    ensures Names(h, n + 1, r) == Names(h, n, r) + NamesIn(h.kids[n], r)
    ensures FirstLen(h, n + 1, r) == if Names(h, n, r) > 0 then FirstLen(h, n, r) else FirstLenIn(h.kids[n], r)
  {}

  /** A new file's host number was on no file before. */
  lemma OnlyFile(m2: Table, m3: Table, k: nat, next: nat, kinds: nat -> Kind)
    requires WellFormed(m3, next, kinds) && k in m3 && k !in m2 && m3[k].kind == FileKind
    requires forall j :: j in m2 ==> j in m3 && Kept(m2[j], m3[j])
    ensures !HasFile(m2, m3[k].host)
  {}

  /** One more entry. */
  lemma FillStep(m1: Table, m2: Table, m3: Table, cur: nat, h: Item, n: nat, next: nat, kinds: nat -> Kind)
    requires h.Dir? && n < |h.kids| && Filled(m1, m2, cur, h, n) && WellFormed(m3, next, kinds)
    requires !Skipped(h.kids[n]) && ItemDone(m2, m3, cur, h.kids[n])
    ensures Filled(m1, m3, cur, h, n + 1) && cur in m3 && m3[cur].kind == DirKind
  {
    hide FileLinks;
    hide FileLinksIn;
    hide MirrorsItem;
    hide Skipped;
    StableTrans(m1, m2, m3, cur);
    FileLinksTrans(m1, m2, m3, h, n, next, kinds, cur);
    NewOnesTrans(m1, m2, m3, h, n, next, kinds, cur);
    hide NewOnes;
    hide NewOnesIn;
    var es, fs := m2[cur].entries[2..], m3[cur].entries[2..];
    assert fs[..|fs| - 1] == es;
    MirrorsFrame(m2, m3, cur, es, h, n);
  }

  lemma FillSkip(m1: Table, m2: Table, cur: nat, h: Item, n: nat)
    requires h.Dir? && n < |h.kids| && Filled(m1, m2, cur, h, n) && Skipped(h.kids[n])
    ensures Filled(m1, m2, cur, h, n + 1)
  {
    hide Names;
    hide Dirs;
    hide FirstLen;
    hide Holds;
    hide Stable;
    hide HasFile;
    forall r
      ensures Names(h, n + 1, r) == Names(h, n, r)
      ensures Dirs(h, n + 1, r) == Dirs(h, n, r)
      ensures Names(h, n, r) > 0 ==> FirstLen(h, n + 1, r) == FirstLen(h, n, r)
    {
      CountSkip(h, n, r);
    }
  }

  lemma CountSkip(h: Item, n: nat, r: nat)
    requires h.Dir? && n < |h.kids| && Skipped(h.kids[n])
    ensures Names(h, n + 1, r) == Names(h, n, r) && Dirs(h, n + 1, r) == Dirs(h, n, r)
    ensures Names(h, n, r) > 0 ==> FirstLen(h, n + 1, r) == FirstLen(h, n, r)
  {}

  // ---- the steps, on tables ----

  /** The table after add_entry: one more entry and block for the directory, one more link for the file. */
  function Linked(m: Table, cur: nat, j: nat, name: string): Table
    requires cur in m && j in m
  {
    var m' := m[cur := m[cur].(entries := m[cur].entries + [Entry(name, j)], nblks := m[cur].nblks + 1)];
    m'[j := m'[j].(nlinks := Mksfs.Wrapped(m'[j].nlinks + 1))]
  }

  /** What open_dir does: the directory mirrors h, it has a link from itself and one from each subdirectory, its
      parent has one more, and the files are linked from all their names. */
  ghost predicate Opened(m1: Table, m2: Table, cur: nat, par: nat, h: Item)
    requires h.Dir?
  {
    && cur in m2 && Mirrored(m2, cur, par, h)
    && FileLinks(m1, m2, h, |h.kids|) && NewOnes(m1, m2, h, |h.kids|)
    && forall k :: k in m1 ==> k in m2 && Kept(m1[k], m2[k]) && DirGained(m1[k], m2[k], k, cur, par, h)
  }

  predicate DirGained(a: Inode, b: Inode, k: nat, cur: nat, par: nat, h: Item)
    requires h.Dir?
  {
    a.kind == DirKind ==>
      b.nlinks == Mksfs.Wrapped(a.nlinks + Gained(k, cur, par, h)) && (k != cur ==> a.entries == b.entries)
  }

  ghost predicate Mirrored(m: Table, cur: nat, par: nat, h: Item)
    requires h.Dir? && cur in m
  {
    && |m[cur].entries| >= 2 && m[cur].entries[..2] == [Entry(".", cur), Entry("..", par)]
    && Mirrors(m, cur, m[cur].entries[2..], h, |h.kids|)
  }

  function Gained(k: nat, cur: nat, par: nat, h: Item): nat
    requires h.Dir?
  {
    (if k == cur then 1 + Subdirs(h, |h.kids|) else 0) + if k == par then 1 else 0
  }

  lemma OpenedShows(m1: Table, m2: Table, cur: nat, par: nat, h: Item)
    requires h.Dir? && Opened(m1, m2, cur, par, h)
    ensures Pictured(m2, cur, par, h)
  {
    hide *;
    OpenedMirrors(m1, m2, cur, par, h);
    MirroredShows(m2, cur, par, h);
  }

  lemma OpenedMirrors(m1: Table, m2: Table, cur: nat, par: nat, h: Item)
    requires h.Dir? && Opened(m1, m2, cur, par, h)
    ensures cur in m2 && Mirrored(m2, cur, par, h)
  {
    hide Mirrors;
  }

  /** The two entries every directory starts with. */
  function Dotted(m: Table, cur: nat, par: nat): Table
    requires cur in m && par in m
  {
    Linked(Linked(m, cur, cur, "."), cur, par, "..")
  }

  lemma LinkedAt(m: Table, cur: nat, j: nat, name: string, k: nat)
    requires cur in m && j in m && k in m
    ensures var e := Linked(m, cur, j, name)[k]; (
      && e.kind == m[k].kind && e.host == m[k].host && e.nlinks == Mksfs.Wrapped(m[k].nlinks + if k == j then 1 else 0)
      && (k != cur ==> e.nblks == m[k].nblks)
      && e.entries == m[k].entries + if k == cur then [Entry(name, j)] else [])
  {}

  lemma LinkedKeys(m: Table, cur: nat, j: nat, name: string)
    requires cur in m && j in m
    ensures Linked(m, cur, j, name).Keys == m.Keys
  {}

  /** Directories above j are not touched. */
  lemma LinkedFrame(m: Table, cur: nat, j: nat, name: string)
    requires cur in m && j in m && cur < j && m[cur].kind == m[j].kind == DirKind
    ensures FrameAbove(m, Linked(m, cur, j, name), j)
  {
    hide Linked;
    hide Mksfs.Wrapped;
    LinkedKeys(m, cur, j, name);
    forall k | k in m
      ensures Kept(m[k], Linked(m, cur, j, name)[k])
      ensures k > j ==> SameDir(m[k], Linked(m, cur, j, name)[k])
    {
      LinkedAt(m, cur, j, name, k);
      Mksfs.WrapSum(m[k].nlinks, 0);
    }
  }

  lemma DottedAt(m: Table, cur: nat, par: nat, k: nat)
    requires cur in m && par in m && k in m
    ensures var e := Dotted(m, cur, par)[k]; (
      && e.kind == m[k].kind && e.host == m[k].host && (k != cur ==> e.entries == m[k].entries && e.nblks == m[k].nblks)
      && e.nlinks == Mksfs.Wrapped(m[k].nlinks + (if k == cur then 1 else 0) + if k == par then 1 else 0))
  {
    var d := Linked(m, cur, cur, ".");
    LinkedAt(m, cur, cur, ".", k);
    LinkedAt(d, cur, par, "..", k);
    hide Linked;
    hide Mksfs.Wrapped;
    Mksfs.WrapSum(m[k].nlinks + if k == cur then 1 else 0, if k == par then 1 else 0);
  }

  lemma LinkedWell(m: Table, cur: nat, j: nat, name: string, next: nat, kinds: nat -> Kind, next2: nat)
    requires WellFormed(m, next, kinds) && cur in m && j in m && next <= next2
    ensures WellFormed(Linked(m, cur, j, name), next2, kinds)
  {}

  lemma FillStart(m: Table, cur: nat, par: nat, h: Item)
    requires h.Dir? && cur in m && par in m && m[cur].kind == m[par].kind == DirKind && m[cur].entries == []
    ensures Filled(Dotted(m, cur, par), Dotted(m, cur, par), cur, h, 0)
  {}

  lemma DottedEntries(m: Table, cur: nat, par: nat)
    requires cur in m && par in m && m[cur].entries == []
    ensures Dotted(m, cur, par).Keys == m.Keys
    ensures Dotted(m, cur, par)[cur].entries == [Entry(".", cur), Entry("..", par)]
  {}

  lemma DottedKeys(m: Table, cur: nat, par: nat)
    requires cur in m && par in m
    ensures Dotted(m, cur, par).Keys == m.Keys
  {}

  lemma FillEnd(m1: Table, m2: Table, cur: nat, par: nat, h: Item)
    requires h.Dir? && cur in m1 && par in m1 && m1[cur].kind == m1[par].kind == DirKind && m1[cur].entries == []
    requires Filled(Dotted(m1, cur, par), m2, cur, h, |h.kids|)
    ensures Opened(m1, m2, cur, par, h)
  {
    hide Mirrors;
    hide Dotted;
    hide Subdirs;
    hide FileLinks;
    hide NewOnes;
    hide DirGained;
    hide Mksfs.Wrapped;
    var d := Dotted(m1, cur, par);
    DottedEntries(m1, cur, par);
    assert m2[cur].entries[..2] == d[cur].entries;
    forall k | k in m1
      ensures k in m2 && Kept(m1[k], m2[k]) && DirGained(m1[k], m2[k], k, cur, par, h)
    {
      FillEndAt(m1, m2, cur, par, h, k);
    }
    FillEndLinks(m1, m2, cur, par, h);
  }

  lemma FillEndAt(m1: Table, m2: Table, cur: nat, par: nat, h: Item, k: nat)
    requires h.Dir? && cur in m1 && par in m1 && m1[cur].kind == m1[par].kind == DirKind && k in m1
    requires Filled(Dotted(m1, cur, par), m2, cur, h, |h.kids|) && Dotted(m1, cur, par).Keys == m1.Keys
    ensures k in m2 && Kept(m1[k], m2[k]) && DirGained(m1[k], m2[k], k, cur, par, h)
  {
    hide Mirrors;
    hide Dotted;
    hide Subdirs;
    hide FileLinks;
    hide NewOnes;
    hide Mksfs.Wrapped;
    DottedAt(m1, cur, par, k);
    assert k in Dotted(m1, cur, par);
    Mksfs.WrapSum(m1[k].nlinks + (if k == cur then 1 else 0) + if k == par then 1 else 0,
                  if k == cur then Subdirs(h, |h.kids|) else 0);
    Mksfs.WrapSum(m1[k].nlinks, 0);
  }

  lemma FillEndLinks(m1: Table, m2: Table, cur: nat, par: nat, h: Item)
    requires h.Dir? && cur in m1 && par in m1 && m1[cur].kind == m1[par].kind == DirKind
    requires FileLinks(Dotted(m1, cur, par), m2, h, |h.kids|) && forall k :: k in m1 ==> k in m2 && Kept(m1[k], m2[k])
    requires NewOnes(Dotted(m1, cur, par), m2, h, |h.kids|)
    ensures FileLinks(m1, m2, h, |h.kids|) && NewOnes(m1, m2, h, |h.kids|)
  {
    hide Names;
    hide Dirs;
    hide FirstLen;
    hide Holds;
    hide Mksfs.Wrapped;
    DottedKeys(m1, cur, par);
    forall k | k in m2 && m2[k].kind == FileKind
      ensures Before(m1, k) == Before(Dotted(m1, cur, par), k)
    {
      if k in m1 {
        DottedAt(m1, cur, par, k);
        Mksfs.WrapSum(m1[k].nlinks, 0);
      }
    }
  }

  /** add_dir: a fresh inode j, open_dir on it, and its entry. */
  lemma DirDone(m1: Table, m3: Table, cur: nat, j: nat, x: Named)
    requires x.what.Dir? && !Skipped(x) && cur in m1 && m1[cur].kind == DirKind
    requires forall k :: k in m1 ==> k < j
    requires Opened(m1[j := Inode(x.what.host, DirKind, 0, 0, [])], m3, j, cur, x.what)
    requires 2 + Subdirs(x.what, |x.what.kids|) < 0x1_0000
    ensures cur in m3 && j in m3 && m3[cur].kind == DirKind && ItemDone(m1, Linked(m3, cur, j, x.name), cur, x)
  {
    hide FileLinks;
    hide FileLinksIn;
    hide NewOnes;
    hide NewOnesIn;
    hide DirsIn;
    hide Mirrors;
    hide Names;
    hide Subdirs;
    hide Mksfs.Wrapped;
    hide Linked;
    var m2, m4 := m1[j := Inode(x.what.host, DirKind, 0, 0, [])], Linked(m3, cur, j, x.name);
    forall k | k in m2
      ensures k in m4 && Kept(m2[k], m4[k])
      ensures k != cur && k != j && m2[k].kind == DirKind ==> SameDir(m2[k], m4[k])
      ensures k == cur ==> m4[k].entries == m1[cur].entries + [Entry(x.name, j)]
      ensures k == cur ==> m4[k].nlinks == Mksfs.Wrapped(m1[cur].nlinks + 1)
      ensures k == j ==> m4[k].nlinks == 2 + Subdirs(x.what, |x.what.kids|) && m4[k].entries == m3[k].entries
    {
      DirDoneAt(m2, m3, cur, j, x, k);
      LinkedKeys(m3, cur, j, x.name);
    }
    assert cur in m2 && j in m2;
    LinkedFrame(m3, cur, j, x.name);
    MirrorsFrame(m3, m4, j, m3[j].entries[2..], x.what, |x.what.kids|);
    DirLinks(m1, m3, cur, j, x);
    DirNew(m1, m3, cur, j, x);
  }

  /** One inode, when directory j has been filled and entered into cur. */
  lemma DirDoneAt(m2: Table, m3: Table, cur: nat, j: nat, x: Named, k: nat)
    requires x.what.Dir? && cur in m2 && j in m2 && k in m2 && cur != j && m2[cur].kind == m2[j].kind == DirKind
    requires m2[j].nlinks == 0 && Opened(m2, m3, j, cur, x.what) && 2 + Subdirs(x.what, |x.what.kids|) < 0x1_0000
    ensures cur in m3 && j in m3 && k in m3
    ensures var e := Linked(m3, cur, j, x.name)[k]; (
      && Kept(m2[k], e) && (k != cur && k != j && m2[k].kind == DirKind ==> SameDir(m2[k], e))
      && (k == cur ==>
            e.entries == m2[cur].entries + [Entry(x.name, j)] && e.nlinks == Mksfs.Wrapped(m2[cur].nlinks + 1))
      && (k == j ==> e.nlinks == 2 + Subdirs(x.what, |x.what.kids|) && e.entries == m3[j].entries))
  {
    hide FileLinks;
    hide NewOnes;
    hide Mirrors;
    hide Subdirs;
    hide Linked;
    hide Mksfs.Wrapped;
    assert cur in m3 && j in m3 && k in m3 && DirGained(m2[k], m3[k], k, j, cur, x.what);
    LinkedAt(m3, cur, j, x.name, k);
    Mksfs.WrapSum(m3[k].nlinks, 0);
    Mksfs.WrapSum(m2[k].nlinks, 0);
    Mksfs.WrapSum(Gained(k, j, cur, x.what), 1);
    Mksfs.WrapSum(Gained(k, j, cur, x.what) + 1, 0);
  }

  lemma DirNew(m1: Table, m3: Table, cur: nat, j: nat, x: Named)
    requires x.what.Dir? && !Skipped(x) && cur in m3 && j in m3 && j !in m1
    requires m3[cur].kind == m3[j].kind == DirKind && m3[j].host == x.what.host
    requires NewOnes(m1[j := Inode(x.what.host, DirKind, 0, 0, [])], m3, x.what, |x.what.kids|)
    ensures NewOnesIn(m1, Linked(m3, cur, j, x.name), x)
  {
    hide Dirs;
    hide Names;
    hide FirstLen;
    hide Holds;
  }

  lemma DirLinks(m1: Table, m3: Table, cur: nat, j: nat, x: Named)
    requires x.what.Dir? && !Skipped(x) && cur in m1 && cur in m3 && j in m3 && j !in m1
    requires m3[cur].kind == m3[j].kind == DirKind
    requires FileLinks(m1[j := Inode(x.what.host, DirKind, 0, 0, [])], m3, x.what, |x.what.kids|)
    ensures FileLinksIn(m1, Linked(m3, cur, j, x.name), x)
  {
    hide Names;
    var m4 := Linked(m3, cur, j, x.name);
    forall r | NamesIn(x, r) > 0
      ensures HasFile(m4, r)
    {
      assert HasFile(m3, r);
      var k :| k in m3 && m3[k].kind == FileKind && m3[k].host == r;
      assert k in m4 && m4[k].kind == FileKind && m4[k].host == r;
    }
  }

  /** add_file: the file's inode, known or fresh, and its entry. */
  lemma FileDone(m1: Table, m2: Table, cur: nat, j: nat, x: Named, next: nat, kinds: nat -> Kind)
    requires x.what.Regular? && !Skipped(x) && cur in m1 && m1[cur].kind == DirKind && WellFormed(m2, next, kinds)
    requires j in m2 && m2[j].kind == FileKind && m2[j].host == x.what.host
    requires m2 == m1 || (j !in m1 && m2[j].nlinks == 0 && m2 == m1[j := m2[j]] && Holds(m2[j].nblks, x.what.length))
    ensures cur in m2 && ItemDone(m1, Linked(m2, cur, j, x.name), cur, x)
  {
    hide *;
    var m4 := Linked(m2, cur, j, x.name);
    FileDoneLinks(m1, m2, cur, j, x, next, kinds);
    FileDoneNew(m1, m2, cur, j, x);
    FileDoneKept(m1, m2, cur, j, x);
    FileDoneAll(m1, m4, cur, j, x);
  }

  lemma FileDoneNew(m1: Table, m2: Table, cur: nat, j: nat, x: Named)
    requires x.what.Regular? && !Skipped(x) && cur in m1 && m1[cur].kind == DirKind
    requires j in m2 && m2[j].kind == FileKind && m2[j].host == x.what.host
    requires m2 == m1 || (j !in m1 && m2 == m1[j := m2[j]] && Holds(m2[j].nblks, x.what.length))
    ensures cur in m2 && NewOnesIn(m1, Linked(m2, cur, j, x.name), x)
  {
    hide Holds;
  }

  lemma FileDoneKept(m1: Table, m2: Table, cur: nat, j: nat, x: Named)
    requires cur in m1 && j in m2 && m1[cur].kind == DirKind && m2[j].kind == FileKind
    requires m2 == m1 || (j !in m1 && m2 == m1[j := m2[j]])
    ensures cur in m2 && j in Linked(m2, cur, j, x.name) && Stable(m1, Linked(m2, cur, j, x.name), cur)
    ensures var m4 := Linked(m2, cur, j, x.name);
      && m4[cur].entries == m1[cur].entries + [Entry(x.name, j)]
      && m4[cur].nlinks == m1[cur].nlinks && m4[j].kind == FileKind && m4[j].host == m2[j].host
  {
    hide Linked;
    hide Mksfs.Wrapped;
    LinkedKeys(m2, cur, j, x.name);
    LinkedAt(m2, cur, j, x.name, j);
    LinkedAt(m2, cur, j, x.name, cur);
    Mksfs.WrapSum(m1[cur].nlinks, 0);
    forall k | k in m1
      ensures var e := Linked(m2, cur, j, x.name)[k];
        Kept(m1[k], e) && (k != cur && m1[k].kind == DirKind ==> SameDir(m1[k], e))
    {
      LinkedAt(m2, cur, j, x.name, k);
      Mksfs.WrapSum(m2[k].nlinks, 0);
    }
  }

  lemma FileDoneAll(m1: Table, m4: Table, cur: nat, j: nat, x: Named)
    requires x.what.Regular? && cur in m1 && m1[cur].kind == DirKind && j in m4 && Stable(m1, m4, cur)
    requires m4[cur].entries == m1[cur].entries + [Entry(x.name, j)] && m4[cur].nlinks == m1[cur].nlinks
    requires m4[j].kind == FileKind && m4[j].host == x.what.host
    requires FileLinksIn(m1, m4, x) && NewOnesIn(m1, m4, x)
    ensures ItemDone(m1, m4, cur, x)
  {
    hide FileLinksIn;
    hide NewOnesIn;
    hide Stable;
    hide Mksfs.Wrapped;
    Mksfs.WrapSum(m1[cur].nlinks, 0);
  }

  lemma FileDoneLinks(m1: Table, m2: Table, cur: nat, j: nat, x: Named, next: nat, kinds: nat -> Kind)
    requires x.what.Regular? && !Skipped(x) && cur in m1 && m1[cur].kind == DirKind && WellFormed(m2, next, kinds)
    requires j in m2 && m2[j].kind == FileKind && m2[j].host == x.what.host
    requires m2 == m1 || (j !in m1 && m2[j].nlinks == 0 && m2 == m1[j := m2[j]])
    ensures cur in m2 && FileLinksIn(m1, Linked(m2, cur, j, x.name), x)
  {
    hide Mksfs.Wrapped;
    hide NamesIn;
    hide WellFormed;
    hide Linked;
    var m4 := Linked(m2, cur, j, x.name);
    LinkedKeys(m2, cur, j, x.name);
    forall k | k in m4 && m4[k].kind == FileKind
      ensures m4[k].nlinks == Mksfs.Wrapped(Before(m1, k) + NamesIn(x, m4[k].host))
    {
      LinkedAt(m2, cur, j, x.name, k);
      OneName(x, m4[k].host);
      OneInode(m2, j, k, next, kinds);
      Mksfs.WrapSum(m2[k].nlinks, 0);
    }
    forall r | NamesIn(x, r) > 0
      ensures HasFile(m4, r)
    {
      OneName(x, r);
      LinkedAt(m2, cur, j, x.name, j);
    }
  }

  lemma OneInode(m: Table, j: nat, k: nat, next: nat, kinds: nat -> Kind)
    requires WellFormed(m, next, kinds) && j in m && k in m && m[j].kind == FileKind
    ensures m[k].host == m[j].host <==> k == j
  {}

  lemma OneName(x: Named, r: nat)
    requires x.what.Regular? && !Skipped(x)
    ensures NamesIn(x, r) == if r == x.what.host then 1 else 0
  {}

  /** add_link: always a fresh inode. */
  lemma LinkDone(m1: Table, m2: Table, cur: nat, j: nat, x: Named)
    requires x.what.Symlink? && !Skipped(x) && cur in m1 && m1[cur].kind == DirKind && j !in m1
    requires m2 == m1[j := Inode(x.what.host, LinkKind, 0, 1, [])]
    ensures cur in m2 && j in m2 && ItemDone(m1, Linked(m2, cur, j, x.name), cur, x)
  {
    var m4 := Linked(m2, cur, j, x.name);
    assert m4[cur].entries == m1[cur].entries + [Entry(x.name, j)];
  }

  // ---- how the program can end early ----

  datatype Outcome = Done | NoRoom | TooBig | NameTooLong | LinkTooLong | MetTwice

  predicate Hidden(name: string) {
    name != "" && name[0] == '.'
  }

  /** The entry, or one below it, has a name that is too long. */
  ghost predicate LongName(x: Named)
    decreases x
  {
    && !Hidden(x.name)
    && (|x.name| > 255 || (x.what.Dir? && exists i :: 0 <= i < |x.what.kids| && LongName(x.what.kids[i])))
  }

  /** The entry, or one below it, is a symbolic link whose target does not fit a block. */
  ghost predicate LongLink(x: Named)
    decreases x
  {
    !Hidden(x.name) &&
    match x.what
    case Symlink(_, length) => length >= 4096
    case Dir(_, kids) => exists i :: 0 <= i < |kids| && LongLink(kids[i])
    case _ => false
  }

  /** A directory number that occurs twice, or that the table knows already. */
  ghost predicate Twice(m: Table, h: Item, n: nat)
    requires h.Dir? && n <= |h.kids|
  {
    exists r :: Dirs(h, n, r) >= 2 || (HasDir(m, r) && Dirs(h, n, r) >= 1)
  }

  ghost predicate TwiceIn(m: Table, x: Named) {
    exists r :: DirsIn(x, r) >= 2 || (HasDir(m, r) && DirsIn(x, r) >= 1)
  }

  ghost predicate Full(m: Table) {
    exists k :: k in m && m[k].nblks >= 32768
  }

  /** What is true when the work on one entry ends the program. */
  ghost predicate WhyIn(o: Outcome, m1: Table, m2: Table, x: Named, room: int) {
    match o
    case Done => false
    case NoRoom => room < 2
    case TooBig => Full(m2)
    case NameTooLong => LongName(x)
    case LinkTooLong => LongLink(x)
    case MetTwice => TwiceIn(m1, x)
  }

  /** The same for the entries of a directory. */
  ghost predicate Why(o: Outcome, m1: Table, m2: Table, h: Item, room: int)
    requires h.Dir?
  {
    match o
    case Done => false
    case NoRoom => room < 2
    case TooBig => Full(m2)
    case NameTooLong => exists i :: 0 <= i < |h.kids| && LongName(h.kids[i])
    case LinkTooLong => exists i :: 0 <= i < |h.kids| && LongLink(h.kids[i])
    case MetTwice => Twice(m1, h, |h.kids|)
  }

  lemma {:induction false} DirsMono(h: Item, n: nat, k: nat, r: nat)
    requires h.Dir? && n <= k <= |h.kids|
    ensures Dirs(h, n, r) <= Dirs(h, k, r)
    decreases k
  {
    hide DirsIn;
    if n < k { DirsMono(h, n, k - 1, r); }
  }

  /** An entry's reason is its directory's. */
  lemma WhyUp(o: Outcome, m0: Table, m1: Table, m2: Table, m3: Table, cur: nat, h: Item, n: nat, room: int)
    requires h.Dir? && n < |h.kids| && WhyIn(o, m2, m3, h.kids[n], room)
    requires m0.Keys == m1.Keys && (forall k :: k in m0 ==> Kept(m0[k], m1[k])) && Filled(m1, m2, cur, h, n)
    ensures Why(o, m0, m3, h, room)
  {
    hide DirsIn;
    hide Mirrors;
    hide FileLinks;
    if o == MetTwice {
      var x := h.kids[n];
      var r :| DirsIn(x, r) >= 2 || (HasDir(m2, r) && DirsIn(x, r) >= 1);
      assert Dirs(h, n + 1, r) == Dirs(h, n, r) + DirsIn(x, r);
      DirsMono(h, n + 1, |h.kids|, r);
      if DirsIn(x, r) < 2 {
        var k :| k in m2 && m2[k].kind == DirKind && m2[k].host == r;
        if k in m1 {
          assert m0[k].kind == DirKind && m0[k].host == r;
          assert HasDir(m0, r);
        }
      }
    }
  }

  lemma HostCounts(x: Named)
    requires x.what.Dir? && !Skipped(x)
    ensures DirsIn(x, x.what.host) >= 1
  {}

  /** A subdirectory's reason is its entry's. */
  lemma WhyDown(o: Outcome, m1: Table, m3: Table, j: nat, x: Named, room: int)
    requires x.what.Dir? && !Skipped(x) && j !in m1
    requires Why(o, m1[j := Inode(x.what.host, DirKind, 0, 0, [])], m3, x.what, room)
    ensures WhyIn(o, m1, m3, x, room)
  {
    if o == MetTwice {
      var m2, n := m1[j := Inode(x.what.host, DirKind, 0, 0, [])], |x.what.kids|;
      var r :| Dirs(x.what, n, r) >= 2 || (HasDir(m2, r) && Dirs(x.what, n, r) >= 1);
      assert DirsIn(x, r) == Dirs(x.what, n, r) + if x.what.host == r then 1 else 0;
      if Dirs(x.what, n, r) < 2 && r != x.what.host {
        var k :| k in m2 && m2[k].kind == DirKind && m2[k].host == r;
        assert k in m1 && m1[k] == m2[k];
        assert HasDir(m1, r);
      }
    }
  }

  // ---- what a host tree costs ----

  /** The host numbers of the files and the directories met so far. */
  datatype Met = Met(files: set<nat>, dirs: set<nat>)

  /** What has been met after the first n entries of a directory. */
  function After(h: Item, n: nat, met: Met): Met
    requires h.Dir? && n <= |h.kids|
    decreases h, n
  {
    if n == 0 then met else AfterIn(h.kids[n - 1], After(h, n - 1, met))
  }

  function AfterIn(x: Named, met: Met): Met
    decreases x, 0
  {
    if Skipped(x) then met
    else match x.what
      case Dir(host, kids) => After(x.what, |kids|, WithDir(met, host))
      case Regular(host, _) => met.(files := met.files + {host})
      case _ => met
  }

  function WithDir(met: Met, host: nat): Met {
    met.(dirs := met.dirs + {host})
  }

  /** How many of the first n entries are not left out. */
  function Entries(h: Item, n: nat): nat
    requires h.Dir? && n <= |h.kids|
  {
    if n == 0 then 0 else Entries(h, n - 1) + if Skipped(h.kids[n - 1]) then 0 else 1
  }

  /** The block numbers that the first n entries of a directory take, with all that is below them. */
  function Price(h: Item, n: nat, met: Met): nat
    requires h.Dir? && n <= |h.kids|
    decreases h, n
  {
    if n == 0 then 0
    else Price(h, n - 1, met) + PriceIn(h.kids[n - 1], 2 + Entries(h, n - 1), After(h, n - 1, met))
  }

  /** What one entry takes in a directory of b entries: its record, and whatever is new: an inode, the blocks of a file
      and its index blocks, the target of a link, a whole directory. */
  function PriceIn(x: Named, b: nat, met: Met): nat
    decreases x, 0
  {
    if Skipped(x) then 0
    else
      1 + Mksfs.Sfs.Needed(b) + (
      match x.what
      case Dir(host, kids) => 1 + 2 + Price(x.what, |kids|, WithDir(met, host))
      case Regular(host, length) => if host in met.files then 0 else 1 + Mksfs.Cost(0, Mksfs.Chunks(length))
      case _ => 2)
  }

  /** The first n entries of a directory, and all below them, keep within the format: names and link targets are short
      enough, no file or directory has too many blocks, and no directory is met twice. */
  predicate Fits(h: Item, n: nat, met: Met)
    requires h.Dir? && n <= |h.kids|
    decreases h, n
  {
    n == 0 || (Fits(h, n - 1, met) && FitsIn(h.kids[n - 1], 2 + Entries(h, n - 1), After(h, n - 1, met)))
  }

  predicate FitsIn(x: Named, b: nat, met: Met)
    decreases x, 0
  {
    Hidden(x.name) || (|x.name| <= 255 && (x.what.Other? || (b < 32768 &&
      match x.what
      case Dir(host, kids) => host !in met.dirs && Fits(x.what, |kids|, WithDir(met, host))
      case Regular(host, length) => host in met.files || length <= 0x800_0000
      case Symlink(_, length) => length < 4096
      case Other => true)))
  }

  /** What does not fit after n + 1 entries does not fit at all. */
  lemma {:induction false} FitsMono(h: Item, n: nat, k: nat, met: Met)
    requires h.Dir? && n <= k <= |h.kids|
    ensures Fits(h, k, met) ==> Fits(h, n, met)
    ensures Price(h, n, met) <= Price(h, k, met)
    decreases k
  {
    hide FitsIn;
    hide PriceIn;
    if n < k { FitsMono(h, n, k - 1, met); }
  }

  /** A directory that fits has few entries, so that its own link count never wraps. */
  lemma {:induction false} FewSubdirs(h: Item, n: nat, met: Met)
    requires h.Dir? && n <= |h.kids| && Fits(h, n, met)
    ensures Subdirs(h, n) <= Entries(h, n) <= 32766
    decreases n
  {
    if n > 0 { FewSubdirs(h, n - 1, met); }
  }

  /** Of a tree that fits, every directory is met once, and none that was met before. */
  lemma {:induction false} EachDirOnce(h: Item, n: nat, met: Met, r: nat)
    requires h.Dir? && n <= |h.kids| && Fits(h, n, met)
    ensures Dirs(h, n, r) <= (if r in met.dirs then 0 else 1)
    ensures r in After(h, n, met).dirs <==> r in met.dirs || Dirs(h, n, r) > 0
    decreases h, n
  {
    if n > 0 {
      var x, before := h.kids[n - 1], After(h, n - 1, met);
      EachDirOnce(h, n - 1, met, r);
      if !Skipped(x) && x.what.Dir? {
        EachDirOnce(x.what, |x.what.kids|, WithDir(before, x.what.host), r);
      }
    }
  }

  // ---- what a table has met ----

  ghost function MetIn(m: Table): Met {
    Met(set k | k in m && m[k].kind == FileKind :: m[k].host, set k | k in m && m[k].kind == DirKind :: m[k].host)
  }

  /** A directory has one block for each of its entries. */
  ghost predicate Counted(m: Table) {
    forall k :: k in m && m[k].kind == DirKind ==> m[k].nblks == |m[k].entries|
  }

  /** The program goes on exactly when the work keeps within the format and there is room for it; then it has taken
      just that many numbers. */
  ghost predicate Paid(o: Outcome, fits: bool, next: nat, price: nat, next': nat, ninos: nat) {
    (o == Done <==> fits && next + price <= ninos) && (o == Done ==> next' == next + price)
  }

  lemma MetKey(m: Table, r: nat)
    ensures r in MetIn(m).files <==> HasFile(m, r)
    ensures r in MetIn(m).dirs <==> HasDir(m, r)
  {}

  /** Only the table's numbers of blocks and links, and its entries, change. */
  lemma SameMet(m1: Table, m2: Table)
    requires m1.Keys == m2.Keys && forall k :: k in m1 ==> m2[k].kind == m1[k].kind && m2[k].host == m1[k].host
    ensures MetIn(m2) == MetIn(m1)
  {
    hide MetIn;
    forall r: nat
      ensures r in MetIn(m1).files <==> r in MetIn(m2).files
      ensures r in MetIn(m1).dirs <==> r in MetIn(m2).dirs
    {
      MetKey(m1, r);
      MetKey(m2, r);
      if k :| k in m1 && m1[k].host == r && m1[k].kind == FileKind { assert k in m2 && m2[k].host == r; }
    }
    assert MetIn(m1).files == MetIn(m2).files;
    assert MetIn(m1).dirs == MetIn(m2).dirs;
  }

  lemma MetMore(m: Table, j: nat, e: Inode)
    requires j !in m
    ensures e.kind == FileKind ==> MetIn(m[j := e]) == MetIn(m).(files := MetIn(m).files + {e.host})
    ensures e.kind == DirKind ==> MetIn(m[j := e]) == WithDir(MetIn(m), e.host)
    ensures e.kind == LinkKind ==> MetIn(m[j := e]) == MetIn(m)
  {
    var m' := m[j := e];
    forall r: nat
      ensures r in MetIn(m').files <==> r in MetIn(m).files || (e.kind == FileKind && r == e.host)
      ensures r in MetIn(m').dirs <==> r in MetIn(m).dirs || (e.kind == DirKind && r == e.host)
    {
      if k :| k in m && m[k].host == r && m[k].kind == FileKind { assert k in m' && m'[k].host == r; }
      if k :| k in m && m[k].host == r && m[k].kind == DirKind { assert k in m' && m'[k].host == r; }
      assert m'[j].host == e.host;
    }
    assert e.kind == FileKind ==> MetIn(m').files == MetIn(m).files + {e.host};
    assert e.kind != FileKind ==> MetIn(m').files == MetIn(m).files;
    assert e.kind == DirKind ==> MetIn(m').dirs == MetIn(m).dirs + {e.host};
    assert e.kind != DirKind ==> MetIn(m').dirs == MetIn(m).dirs;
  }

  lemma LinkedCounts(m: Table, cur: nat, j: nat, name: string)
    requires cur in m && j in m && m[cur].kind == DirKind && Counted(m)
    ensures Counted(Linked(m, cur, j, name)) && MetIn(Linked(m, cur, j, name)) == MetIn(m)
    ensures |Linked(m, cur, j, name)[cur].entries| == |m[cur].entries| + 1
  {
    hide MetIn;
    SameMet(m, Linked(m, cur, j, name));
  }

  lemma {:induction false} MirrorsCount(m: Table, d: nat, es: seq<Entry>, h: Item, n: nat)
    requires h.Dir? && n <= |h.kids| && Mirrors(m, d, es, h, n)
    ensures |es| == Entries(h, n)
    decreases n
  {
    hide MirrorsItem;
    hide Skipped;
    if n > 0 { MirrorsCount(m, d, if Skipped(h.kids[n - 1]) then es else es[..|es| - 1], h, n - 1); }
  }

  lemma FilledCount(m1: Table, m2: Table, cur: nat, h: Item, n: nat)
    requires h.Dir? && n <= |h.kids| && Filled(m1, m2, cur, h, n)
    ensures cur in m2 && |m2[cur].entries| == 2 + Entries(h, n)
  {
    hide Mirrors;
    MirrorsCount(m2, cur, m2[cur].entries[2..], h, n);
  }

  /** When an entry does not fit or has no room, neither has the whole directory. */
  lemma TooMuch(h: Item, n: nat, met: Met, next: nat, ninos: nat)
    requires h.Dir? && n < |h.kids|
    requires !(FitsIn(h.kids[n], 2 + Entries(h, n), After(h, n, met))
      && next + Price(h, n, met) + PriceIn(h.kids[n], 2 + Entries(h, n), After(h, n, met)) <= ninos)
    ensures !(Fits(h, |h.kids|, met) && next + Price(h, |h.kids|, met) <= ninos)
  {
    hide *;
    OneMore(h, n, met);
    FitsMono(h, n + 1, |h.kids|, met);
  }

  lemma OneMore(h: Item, n: nat, met: Met)
    requires h.Dir? && n < |h.kids|
    ensures Fits(h, n + 1, met) <==> Fits(h, n, met) && FitsIn(h.kids[n], 2 + Entries(h, n), After(h, n, met))
    ensures Price(h, n + 1, met) == Price(h, n, met) + PriceIn(h.kids[n], 2 + Entries(h, n), After(h, n, met))
    ensures After(h, n + 1, met) == AfterIn(h.kids[n], After(h, n, met))
  {}

  /** What is left out costs nothing; only the length of a special file's name matters. */
  lemma SkipCost(x: Named, b: nat, met: Met)
    requires Skipped(x)
    ensures PriceIn(x, b, met) == 0 && AfterIn(x, met) == met
    ensures FitsIn(x, b, met) <==> Hidden(x.name) || |x.name| <= MAX_FNAME_LEN
  {}

  lemma FileCost(x: Named, b: nat, met: Met)
    requires x.what.Regular? && !Skipped(x) && |x.name| <= MAX_FNAME_LEN
    ensures FitsIn(x, b, met) <==> b < Mksfs.LN && (x.what.host in met.files || Mksfs.Chunks(x.what.length) <= Mksfs.LN)
    ensures PriceIn(x, b, met) == 1 + Mksfs.Sfs.Needed(b) +
      if x.what.host in met.files then 0 else 1 + Mksfs.Cost(0, Mksfs.Chunks(x.what.length))
    ensures AfterIn(x, met) == met.(files := met.files + {x.what.host})
  {}

  lemma LinkCost(x: Named, b: nat, met: Met)
    requires x.what.Symlink? && !Skipped(x) && |x.name| <= MAX_FNAME_LEN
    ensures FitsIn(x, b, met) <==> b < Mksfs.LN && x.what.length < Mksfs.BLKSIZE
    ensures PriceIn(x, b, met) == 1 + Mksfs.Sfs.Needed(b) + 2 && AfterIn(x, met) == met
  {}

  lemma DirCost(x: Named, b: nat, met: Met)
    requires x.what.Dir? && !Skipped(x) && |x.name| <= MAX_FNAME_LEN
    ensures var n, met' := |x.what.kids|, WithDir(met, x.what.host); (
      && (FitsIn(x, b, met) <==> b < Mksfs.LN && x.what.host !in met.dirs && Fits(x.what, n, met'))
      && PriceIn(x, b, met) == 1 + Mksfs.Sfs.Needed(b) + 1 + 2 + Price(x.what, n, met')
      && AfterIn(x, met) == After(x.what, n, met'))
  {}

  lemma LongCost(x: Named, b: nat, met: Met)
    requires !Hidden(x.name) && |x.name| > MAX_FNAME_LEN
    ensures !FitsIn(x, b, met)
  {}

  lemma ParentKept(m1: Table, m3: Table, cur: nat, j: nat, x: Named)
    requires x.what.Dir? && cur in m1 && m1[cur].kind == DirKind && j !in m1
    requires Opened(m1[j := Inode(x.what.host, DirKind, 0, 0, [])], m3, j, cur, x.what)
    ensures cur in m3 && m3[cur].kind == DirKind && m3[cur].entries == m1[cur].entries
  {
    hide Mirrored;
    hide FileLinks;
    hide NewOnes;
    var m2 := m1[j := Inode(x.what.host, DirKind, 0, 0, [])];
    assert cur in m2 && DirGained(m2[cur], m3[cur], cur, j, cur, x.what);
  }

  /** At first only the root has been met, whose host number is 0. */
  lemma RootMet()
    ensures MetIn(map[1 := Inode(0, DirKind, 0, 0, [])]) == Met({}, {0})
  {
    var m: Table := map[1 := Inode(0, DirKind, 0, 0, [])];
    assert m[BLKN_ROOT].host == 0;
  }

  /** The two entries every directory starts with take two numbers. */
  lemma DottedCounts(m: Table, cur: nat, par: nat)
    requires cur in m && par in m && m[cur].kind == DirKind && Counted(m) && m[cur].entries == []
    ensures Counted(Dotted(m, cur, par)) && MetIn(Dotted(m, cur, par)) == MetIn(m)
    ensures m[cur].nblks == 0 && Linked(m, cur, cur, ".")[cur].nblks == 1
    ensures Mksfs.Sfs.Needed(0) == Mksfs.Sfs.Needed(1) == 0
  {
    hide MetIn;
    LinkedCounts(m, cur, cur, ".");
    LinkedCounts(Linked(m, cur, cur, "."), cur, par, "..");
  }

  lemma NoEntries(h: Item, met: Met)
    requires h.Dir?
    ensures Fits(h, 0, met) && Price(h, 0, met) == 0 && After(h, 0, met) == met && Entries(h, 0) == 0
  {}

  /** A number that the table has not seen has not been met. */
  lemma NotMet(m: Table, r: nat)
    requires forall k :: k in m ==> m[k].host != r
    ensures r !in MetIn(m).files && r !in MetIn(m).dirs
  {}

  lemma IsMet(m: Table, j: nat)
    requires j in m
    ensures m[j].kind == FileKind ==> m[j].host in MetIn(m).files
    ensures m[j].kind == DirKind ==> m[j].host in MetIn(m).dirs
  {}

  // ---- the code ----

  class Image {
    const ninos: nat
    ghost const kinds: nat -> Kind
    var nextIno: nat
    var inodes: Table
    /** The inodes newest first. The hash chains are this list, divided by the hash of the host number. */
    var order: seq<nat>

    ghost predicate Valid()
      reads this
    {
      && nextIno <= ninos && WellFormed(inodes, nextIno, kinds)
      && forall k :: k in order <==> k in inodes
    }

    /** create_sfs: the root's inode has a number of its own, and host number 0. */
    constructor (n: nat, kinds: nat -> Kind)
      requires Mksfs.Sfs.Reserved(n) < n && kinds(0) == DirKind
      ensures Valid() && this.kinds == kinds && ninos == n && nextIno == Mksfs.Sfs.Reserved(n)
      ensures inodes == map[1 := Inode(0, DirKind, 0, 0, [])]
    {
      ninos, this.kinds, nextIno := n, kinds, Mksfs.Sfs.Reserved(n);
      inodes, order := map[BLKN_ROOT := Inode(0, DirKind, 0, 0, [])], [BLKN_ROOT];
    }

    /** sfs_alloc_ino */
    method AllocIno() returns (r: Option<nat>)
      requires Valid()
      modifies this`nextIno
      ensures Valid() && (r.None? <==> old(nextIno) == ninos)
      ensures nextIno == old(nextIno) + (if r.Some? then 1 else 0) && (r.Some? ==> r.value == old(nextIno))
    {
      if nextIno < ninos {
        nextIno := nextIno + 1;
        return Some(nextIno - 1);
      }
      r := None;
    }

    /** append_block, which also takes the numbers of new index blocks. */
    method AppendBlock(x: nat) returns (o: Outcome)
      requires Valid() && x in inodes
      modifies this`nextIno, this`inodes
      ensures Valid() && (o == Done || o == TooBig || o == NoRoom)
      ensures o == TooBig <==> old(inodes[x].nblks) >= Mksfs.LN
      ensures o == Done <==> old(inodes[x].nblks) < Mksfs.LN &&
                             old(nextIno) + Mksfs.Sfs.Needed(old(inodes[x].nblks)) <= ninos
      ensures o == Done ==> nextIno == old(nextIno) + Mksfs.Sfs.Needed(old(inodes[x].nblks))
      ensures o == Done ==> inodes == old(inodes)[x := old(inodes)[x].(nblks := old(inodes)[x].nblks + 1)]
      ensures o != Done ==> inodes == old(inodes) && nextIno == old(nextIno)
    {
      var n := inodes[x].nblks;
      if n >= Mksfs.LN { return TooBig; }
      if nextIno + Mksfs.Sfs.Needed(n) > ninos { return NoRoom; }
      nextIno := nextIno + Mksfs.Sfs.Needed(n);
      inodes := inodes[x := inodes[x].(nblks := n + 1)];
      o := Done;
    }

    /** search_cache_inode */
    method SearchInode(host: nat) returns (r: Option<nat>)
      requires Valid()
      ensures r.Some? ==> r.value in inodes && inodes[r.value].host == host
      ensures r.None? ==> forall k :: k in inodes ==> inodes[k].host != host
    {
      for i := 0 to |order|
        invariant forall j :: 0 <= j < i ==> inodes[order[j]].host != host
      {
        assert order[i] in inodes;
        if inodes[order[i]].host == host { return Some(order[i]); }
      }
      r := None;
    }

    /** alloc_cache_inode under a fresh number. Only symbolic links may reuse a host number. */
    method AllocInode(host: nat, kind: Kind) returns (r: Option<nat>)
      requires Valid() && kinds(host) == kind
      requires kind != LinkKind ==> forall k :: k in inodes ==> inodes[k].host != host
      modifies this`nextIno, this`inodes, this`order
      ensures Valid() && (r.None? <==> old(nextIno) == ninos)
      ensures nextIno == old(nextIno) + if r.Some? then 1 else 0
      ensures r.Some? ==> r.value !in old(inodes) && forall k :: k in old(inodes) ==> k < r.value
      ensures r.Some? ==> inodes == old(inodes)[r.value := Inode(host, kind, 0, 0, [])]
    {
      r := AllocIno();
      if r.Some? {
        inodes := inodes[r.value := Inode(host, kind, 0, 0, [])];
        order := [r.value] + order;
      }
    }

    /** add_entry */
    method AddEntry(cur: nat, j: nat, name: string) returns (o: Outcome)
      requires Valid() && cur in inodes && j in inodes && inodes[cur].kind == DirKind && |name| <= MAX_FNAME_LEN
      modifies this`nextIno, this`inodes
      ensures Valid() && (o == Done || o == TooBig || o == NoRoom)
      ensures o == Done <==> old(inodes[cur].nblks) < Mksfs.LN &&
                             old(nextIno) + 1 + Mksfs.Sfs.Needed(old(inodes[cur].nblks)) <= ninos
      ensures o == Done ==> inodes == Linked(old(inodes), cur, j, name)
      ensures o == Done ==> nextIno == old(nextIno) + 1 + Mksfs.Sfs.Needed(old(inodes[cur].nblks))
      ensures o == TooBig ==> Full(inodes)
      ensures o == NoRoom ==> ninos - nextIno < 2
    {
      hide WellFormed;
      ghost var m, next := inodes, nextIno;
      var ino := AllocIno();
      if ino == None { return NoRoom; }
      o := AppendBlock(cur);
      if o != Done { return; }
      inodes := inodes[cur := inodes[cur].(entries := inodes[cur].entries + [Entry(name, j)])];
      inodes := inodes[j := inodes[j].(nlinks := Mksfs.Wrapped(inodes[j].nlinks + 1))];
      assert inodes == Linked(m, cur, j, name);
      LinkedWell(m, cur, j, name, next, kinds, nextIno);
    }

    /** open_file: a block for every chunk that is read; nothing but the number of blocks of inode j changes. */
    method OpenFile(j: nat, length: nat) returns (o: Outcome)
      requires Valid() && j in inodes && inodes[j].nblks <= Mksfs.LN
      modifies this`nextIno, this`inodes
      ensures Valid() && (o == Done || o == TooBig || o == NoRoom)
      ensures inodes.Keys == old(inodes).Keys
      ensures Paid(o, old(inodes[j].nblks) + Mksfs.Chunks(length) <= Mksfs.LN,
                   old(nextIno), Mksfs.Cost(old(inodes[j].nblks), Mksfs.Chunks(length)), nextIno, ninos)
      ensures o == Done ==>
                inodes == old(inodes)[j := old(inodes)[j].(nblks := old(inodes)[j].nblks + Mksfs.Chunks(length))]
      ensures o == TooBig ==> Full(inodes)
      ensures o == NoRoom ==> ninos - nextIno < 2
    {
      hide WellFormed;
      hide Mksfs.Cost;
      var remaining: nat := length;
      ghost var done: nat, left: nat, start := 0, Mksfs.Chunks(length), inodes[j].nblks;
      o := Done;
      assert inodes == inodes[j := inodes[j].(nblks := inodes[j].nblks + 0)];
      while remaining > 0
        invariant Valid() && j in inodes && done + left == Mksfs.Chunks(length) && left == Mksfs.Chunks(remaining)
        invariant inodes == old(inodes)[j := old(inodes)[j].(nblks := start + done)] && start + done <= Mksfs.LN
        invariant nextIno + Mksfs.Cost(start + done, left) == old(nextIno) + Mksfs.Cost(start, Mksfs.Chunks(length))
      {
        Mksfs.CostStep(start + done, left);
        var ino := AllocIno();
        if ino == None { return NoRoom; }
        o := AppendBlock(j);
        if o != Done { return; }
        done, left := done + 1, left - 1;
        remaining := if remaining < Mksfs.BLKSIZE then 0 else remaining - Mksfs.BLKSIZE;
      }
      Mksfs.CostStep(start + done, 0);
      o := Done;
    }

    /** open_link: one block for the target, which must be shorter than that. */
    method OpenLink(j: nat, length: nat) returns (o: Outcome)
      requires Valid() && j in inodes
      modifies this`nextIno, this`inodes
      ensures Valid() && (o == Done || o == TooBig || o == NoRoom || o == LinkTooLong)
      ensures o == LinkTooLong ==> length >= Mksfs.BLKSIZE
      ensures Paid(o, length < Mksfs.BLKSIZE && old(inodes[j].nblks) < Mksfs.LN,
                   old(nextIno), 1 + Mksfs.Sfs.Needed(old(inodes[j].nblks)), nextIno, ninos)
      ensures o == Done ==> inodes == old(inodes)[j := old(inodes)[j].(nblks := old(inodes)[j].nblks + 1)]
      ensures o == TooBig ==> Full(inodes)
      ensures o == NoRoom ==> ninos - nextIno < 2
    {
      var ino := AllocIno();
      if ino == None { return NoRoom; }
      if length >= Mksfs.BLKSIZE { return LinkTooLong; }
      o := AppendBlock(j);
    }

    /** The inode of a file: the known one, or a new one with the file's blocks. */
    method FileInode(x: Item) returns (o: Outcome, j: nat)
      requires Valid() && Counted(inodes) && x.Regular? && Consistent(x, kinds)
      modifies this
      ensures Valid() && (o == Done || o == TooBig || o == NoRoom)
      ensures o == Done ==> j in inodes && inodes[j].kind == FileKind && inodes[j].host == x.host
      ensures o == Done ==>
        || inodes == old(inodes)
        || (j !in old(inodes) && inodes[j].nlinks == 0 && inodes == old(inodes)[j := inodes[j]]
            && Holds(inodes[j].nblks, x.length))
      ensures o == Done ==> Counted(inodes)
      ensures o == Done ==> MetIn(inodes) == MetIn(old(inodes)).(files := MetIn(old(inodes)).files + {x.host})
      ensures var known := x.host in MetIn(old(inodes)).files;
        Paid(o, known || Mksfs.Chunks(x.length) <= Mksfs.LN, old(nextIno),
             if known then 0 else 1 + Mksfs.Cost(0, Mksfs.Chunks(x.length)), nextIno, ninos)
      ensures o == TooBig ==> Full(inodes)
      ensures o == NoRoom ==> ninos - nextIno < 2
    {
      hide MetIn;
      hide Mksfs.Cost;
      hide Mksfs.Sfs.Needed;
      var known := SearchInode(x.host);
      if known != None {
        IsMet(inodes, known.value);
        return Done, known.value;
      }
      NotMet(inodes, x.host);
      ghost var m := inodes;
      var r := AllocInode(x.host, FileKind);
      if r == None { return NoRoom, 0; }
      j := r.value;
      o := OpenFile(j, x.length);
      if o == Done { MetMore(m, j, inodes[j]); }
    }

    /** add_file: a file met before gets another name, not another inode. */
    method AddFile(cur: nat, x: Named) returns (o: Outcome)
      requires Valid() && Counted(inodes) && cur in inodes && inodes[cur].kind == DirKind
      requires x.what.Regular? && !Skipped(x) && |x.name| <= MAX_FNAME_LEN && Consistent(x.what, kinds)
      modifies this
      ensures Valid()
      ensures o == Done ==> ItemDone(old(inodes), inodes, cur, x)
      ensures o == Done ==> Counted(inodes) && MetIn(inodes) == AfterIn(x, MetIn(old(inodes)))
      ensures var b, met := |old(inodes[cur].entries)|, MetIn(old(inodes));
        Paid(o, FitsIn(x, b, met), old(nextIno), PriceIn(x, b, met), nextIno, ninos)
      ensures o != Done ==> WhyIn(o, old(inodes), inodes, x, ninos - nextIno)
    {
      hide WellFormed;
      hide ItemDone;
      hide MetIn;
      hide FitsIn;
      hide PriceIn;
      hide AfterIn;
      hide Mksfs.Cost;
      hide Mksfs.Sfs.Needed;
      ghost var m1 := inodes;
      FileCost(x, |m1[cur].entries|, MetIn(m1));
      var j;
      o, j := FileInode(x.what);
      if o != Done { return; }
      FileDone(m1, inodes, cur, j, x, nextIno, kinds);
      LinkedCounts(inodes, cur, j, x.name);
      o := AddEntry(cur, j, x.name);
    }

    /** add_link */
    method AddLink(cur: nat, x: Named) returns (o: Outcome)
      requires Valid() && Counted(inodes) && cur in inodes && inodes[cur].kind == DirKind
      requires x.what.Symlink? && !Skipped(x) && |x.name| <= MAX_FNAME_LEN && Consistent(x.what, kinds)
      modifies this
      ensures Valid()
      ensures o == Done ==> ItemDone(old(inodes), inodes, cur, x)
      ensures o == Done ==> Counted(inodes) && MetIn(inodes) == AfterIn(x, MetIn(old(inodes)))
      ensures var b, met := |old(inodes[cur].entries)|, MetIn(old(inodes));
        Paid(o, FitsIn(x, b, met), old(nextIno), PriceIn(x, b, met), nextIno, ninos)
      ensures o != Done ==> WhyIn(o, old(inodes), inodes, x, ninos - nextIno)
    {
      hide ItemDone;
      hide MetIn;
      hide FitsIn;
      hide PriceIn;
      hide AfterIn;
      ghost var m1 := inodes;
      LinkCost(x, |m1[cur].entries|, MetIn(m1));
      var r := AllocInode(x.what.host, LinkKind);
      if r == None { return NoRoom; }
      var j := r.value;
      o := OpenLink(j, x.what.length);
      if o != Done { return; }
      MetMore(m1, j, inodes[j]);
      LinkDone(m1, inodes, cur, j, x);
      LinkedCounts(inodes, cur, j, x.name);
      o := AddEntry(cur, j, x.name);
    }

    /** The inode of a directory, which must be new. */
    method DirInode(x: Item) returns (o: Outcome, j: nat)
      requires Valid() && Counted(inodes) && x.Dir? && Consistent(x, kinds)
      modifies this
      ensures Valid() && (o == Done || o == MetTwice || o == NoRoom)
      ensures o == Done ==> j !in old(inodes) && (forall k :: k in old(inodes) ==> k < j)
      ensures o == Done ==> inodes == old(inodes)[j := Inode(x.host, DirKind, 0, 0, [])]
      ensures o == Done ==> Counted(inodes) && MetIn(inodes) == WithDir(MetIn(old(inodes)), x.host)
      ensures Paid(o, x.host !in MetIn(old(inodes)).dirs, old(nextIno), 1, nextIno, ninos)
      ensures o == MetTwice ==> HasDir(old(inodes), x.host)
      ensures o == NoRoom ==> ninos - nextIno < 2
    {
      hide MetIn;
      ghost var m := inodes;
      var known := SearchInode(x.host);
      if known != None {
        IsMet(m, known.value);
        MetKey(m, x.host);
        return MetTwice, known.value;
      }
      NotMet(m, x.host);
      var r := AllocInode(x.host, DirKind);
      if r == None { return NoRoom, 0; }
      j := r.value;
      MetMore(m, j, inodes[j]);
      o := Done;
    }

    /** add_dir. The source asserts that it meets no directory twice. */
    method AddDir(cur: nat, x: Named) returns (o: Outcome)
      requires Valid() && Counted(inodes) && cur in inodes && inodes[cur].kind == DirKind
      requires x.what.Dir? && !Skipped(x) && |x.name| <= MAX_FNAME_LEN && Consistent(x.what, kinds)
      modifies this
      ensures Valid()
      ensures o == Done ==> ItemDone(old(inodes), inodes, cur, x)
      ensures o == Done ==> Counted(inodes) && MetIn(inodes) == AfterIn(x, MetIn(old(inodes)))
      ensures var b, met := |old(inodes[cur].entries)|, MetIn(old(inodes));
        Paid(o, FitsIn(x, b, met), old(nextIno), PriceIn(x, b, met), nextIno, ninos)
      ensures o != Done ==> WhyIn(o, old(inodes), inodes, x, ninos - nextIno)
      decreases x.what, 1
    {
      hide Opened;
      hide ItemDone;
      hide Why;
      hide MetIn;
      hide FitsIn;
      hide PriceIn;
      hide AfterIn;
      hide Fits;
      hide Price;
      hide After;
      hide Mksfs.Sfs.Needed;
      hide WellFormed;
      ghost var m1 := inodes;
      DirCost(x, |m1[cur].entries|, MetIn(m1));
      var j;
      o, j := DirInode(x.what);
      if o != Done {
        HostCounts(x);
        return;
      }
      ghost var met := MetIn(inodes);
      o := OpenDir(j, cur, x.what);
      if o != Done {
        WhyDown(o, m1, inodes, j, x, ninos - nextIno);
        return;
      }
      FewSubdirs(x.what, |x.what.kids|, met);
      DirDone(m1, inodes, cur, j, x);
      ParentKept(m1, inodes, cur, j, x);
      LinkedCounts(inodes, cur, j, x.name);
      o := AddEntry(cur, j, x.name);
    }

    /** One entry that is not left out. */
    method AddItem(cur: nat, x: Named) returns (o: Outcome)
      requires Valid() && Counted(inodes) && cur in inodes && inodes[cur].kind == DirKind
      requires !Skipped(x) && |x.name| <= MAX_FNAME_LEN && Consistent(x.what, kinds)
      modifies this
      ensures Valid()
      ensures o == Done ==> ItemDone(old(inodes), inodes, cur, x)
      ensures o == Done ==> Counted(inodes) && MetIn(inodes) == AfterIn(x, MetIn(old(inodes)))
      ensures var b, met := |old(inodes[cur].entries)|, MetIn(old(inodes));
        Paid(o, FitsIn(x, b, met), old(nextIno), PriceIn(x, b, met), nextIno, ninos)
      ensures o != Done ==> WhyIn(o, old(inodes), inodes, x, ninos - nextIno)
      decreases x.what, 2
    {
      hide ItemDone;
      hide WhyIn;
      hide MetIn;
      hide FitsIn;
      hide PriceIn;
      hide AfterIn;
      match x.what {
        case Symlink(_, _) => o := AddLink(cur, x);
        case Dir(_, _) => o := AddDir(cur, x);
        case Regular(_, _) => o := AddFile(cur, x);
      }
    }

    /** The entries "." and "..". */
    method AddDots(cur: nat, par: nat) returns (o: Outcome)
      requires Valid() && cur in inodes && par in inodes && inodes[cur].kind == inodes[par].kind == DirKind
      requires Counted(inodes) && inodes[cur].entries == []
      modifies this`nextIno, this`inodes
      ensures Valid() && (o == Done || o == TooBig || o == NoRoom)
      ensures o == Done ==> inodes == Dotted(old(inodes), cur, par)
      ensures o == Done ==> Counted(inodes) && MetIn(inodes) == MetIn(old(inodes))
      ensures Paid(o, true, old(nextIno), 2, nextIno, ninos)
      ensures o == TooBig ==> Full(inodes)
      ensures o == NoRoom ==> ninos - nextIno < 2
    {
      hide WellFormed;
      hide MetIn;
      hide Counted;
      DottedCounts(inodes, cur, par);
      o := AddEntry(cur, cur, ".");
      if o != Done { return; }
      o := AddEntry(cur, par, "..");
    }

    /** open_dir: the directory mirrors the host's, or the program ends for one of the reasons it names. */
    method OpenDir(cur: nat, par: nat, h: Item) returns (o: Outcome)
      requires Valid() && cur in inodes && par in inodes && inodes[cur].kind == inodes[par].kind == DirKind
      requires Counted(inodes) && inodes[cur].entries == [] && h.Dir? && Consistent(h, kinds)
      modifies this
      ensures Valid()
      ensures o == Done ==> Opened(old(inodes), inodes, cur, par, h) && Pictured(inodes, cur, par, h)
      ensures o == Done ==> Counted(inodes) && MetIn(inodes) == After(h, |h.kids|, MetIn(old(inodes)))
      ensures var n, met := |h.kids|, MetIn(old(inodes));
        Paid(o, Fits(h, n, met), old(nextIno), 2 + Price(h, n, met), nextIno, ninos)
      ensures o != Done ==> Why(o, old(inodes), inodes, h, ninos - nextIno)
      decreases h, 0
    {
      hide WellFormed;
      hide Filled;
      hide Opened;
      hide ItemDone;
      hide WhyIn;
      hide MetIn;
      hide FitsIn;
      hide PriceIn;
      hide AfterIn;
      hide Fits;
      hide Price;
      hide After;
      hide Entries;
      hide Counted;
      ghost var m0, met, next := inodes, MetIn(inodes), nextIno + 2;
      NoEntries(h, met);
      o := AddDots(cur, par);
      if o != Done { return; }
      ghost var m1 := inodes;
      FillStart(m0, cur, par, h);
      for i := 0 to |h.kids|
        invariant Valid() && Filled(m1, inodes, cur, h, i) && o == Done
        invariant cur in inodes && inodes[cur].kind == DirKind
        invariant Counted(inodes) && MetIn(inodes) == After(h, i, met)
        invariant Fits(h, i, met) && nextIno == next + Price(h, i, met)
      {
        var x := h.kids[i];
        ghost var m2, b, met' := inodes, 2 + Entries(h, i), After(h, i, met);
        OneMore(h, i, met);
        FilledCount(m1, m2, cur, h, i);
        if Hidden(x.name) {
          FillSkip(m1, m2, cur, h, i);
          SkipCost(x, b, met');
          continue;
        }
        if |x.name| > MAX_FNAME_LEN {
          assert LongName(h.kids[i]);
          LongCost(x, b, met');
          TooMuch(h, i, met, next, ninos);
          return NameTooLong;
        }
        if x.what.Other? {
          FillSkip(m1, m2, cur, h, i);
          SkipCost(x, b, met');
          continue;
        }
        o := AddItem(cur, x);
        if o != Done {
          WhyUp(o, m0, m1, m2, inodes, cur, h, i, ninos - nextIno);
          TooMuch(h, i, met, next, ninos);
          return;
        }
        FillStep(m1, m2, inodes, cur, h, i, nextIno, kinds);
      }
      FillEnd(m0, inodes, cur, par, h);
      OpenedShows(m0, inodes, cur, par, h);
    }

    /** create_img, up to close_sfs: the image's root mirrors the host's directory; the root has two links of its own
        and one from each subdirectory; and each file is linked from all its names, counted in sixteen bits, so that the
        counts are exact if and only if no file has 65536 names. Otherwise the image is full, a file or directory is
        too big, a name or a link target is too long, or a directory number occurs twice or is the root's: it succeeds
        exactly when the tree keeps within the format and its price is at most the room. */
    method CreateImg(h: Item) returns (o: Outcome)
      requires Valid() && inodes == map[1 := Inode(0, DirKind, 0, 0, [])]
      requires h.Dir? && Consistent(h, kinds)
      modifies this
      ensures Valid()
      ensures o == Done ==> 1 in inodes && Mirrored(inodes, 1, 1, h) && Pictured(inodes, 1, 1, h)
      ensures o == Done ==> inodes[1].nlinks == 2 + Subdirs(h, |h.kids|)
      ensures o == Done ==> FilesLinked(inodes, h) && FilesSized(inodes, h) && Counted(inodes)
      ensures o == Done ==> (LinksExact(inodes, h) <==> forall r :: FewNames(h, r))
      ensures o == Done <==>
        Fits(h, |h.kids|, Met({}, {0})) && old(nextIno) + 2 + Price(h, |h.kids|, Met({}, {0})) <= ninos
      ensures o == Done ==> nextIno == old(nextIno) + 2 + Price(h, |h.kids|, Met({}, {0}))
      ensures o != Done ==> Why(o, old(inodes), inodes, h, ninos - nextIno)
    {
      hide Fits;
      hide Price;
      hide Names;
      hide Subdirs;
      hide Consistent;
      hide Opened;
      hide Mirrored;
      hide Pictured;
      hide FilesLinked;
      hide FilesSized;
      hide LinksExact;
      hide Why;
      RootMet();
      RootAlone();
      o := OpenDir(BLKN_ROOT, BLKN_ROOT, h);
      if o == Done {
        FewSubdirs(h, |h.kids|, Met({}, {0}));
        RootDone(inodes, h);
      }
    }
  }

  /** Exactly the files that the tree names are there, with the number of their names cut to sixteen bits. */
  ghost predicate FilesLinked(m: Table, h: Item)
    requires h.Dir?
  {
    && (forall k :: k in m && m[k].kind == FileKind ==> m[k].nlinks == Mksfs.Wrapped(Names(h, |h.kids|, m[k].host)))
    && (forall r :: Names(h, |h.kids|, r) > 0 ==> HasFile(m, r))
  }

  /** Every file has the blocks that its length needs. */
  ghost predicate FilesSized(m: Table, h: Item)
    requires h.Dir?
  {
    forall k :: k in m && m[k].kind == FileKind ==>
      Names(h, |h.kids|, m[k].host) > 0 && Holds(m[k].nblks, FirstLen(h, |h.kids|, m[k].host))
  }

  ghost predicate LinksExact(m: Table, h: Item)
    requires h.Dir?
  {
    forall k :: k in m && m[k].kind == FileKind ==> m[k].nlinks == Names(h, |h.kids|, m[k].host)
  }

  ghost predicate FewNames(h: Item, r: nat)
    requires h.Dir?
  {
    Names(h, |h.kids|, r) < 0x1_0000
  }

  lemma RootAlone()
    ensures Counted(map[1 := Inode(0, DirKind, 0, 0, [])])
  {}

  lemma RootDone(m: Table, h: Item)
    requires h.Dir? && Opened(map[1 := Inode(0, DirKind, 0, 0, [])], m, 1, 1, h)
    requires Subdirs(h, |h.kids|) <= 32766
    ensures 1 in m && Mirrored(m, 1, 1, h) && m[1].nlinks == 2 + Subdirs(h, |h.kids|)
    ensures FilesLinked(m, h) && FilesSized(m, h) && (LinksExact(m, h) <==> forall r :: FewNames(h, r))
  {
    hide Mirrored;
    hide Names;
    hide FirstLen;
    hide Holds;
    hide Dirs;
    hide Subdirs;
    var m0: Table := map[1 := Inode(0, DirKind, 0, 0, [])];
    assert 1 in m0 && DirGained(m0[1], m[1], 1, 1, 1, h);
    assert m[1].kind == DirKind;
    assert forall k :: k in m && m[k].kind == FileKind ==> Before(m0, k) == 0;
    WhenExact(m, h);
  }

  /** A count that was wrapped is not the number of names. */
  lemma WhenExact(m: Table, h: Item)
    requires h.Dir? && FilesLinked(m, h)
    ensures LinksExact(m, h) <==> forall r :: FewNames(h, r)
  {
    hide Names;
    if LinksExact(m, h) {
      forall r
        ensures FewNames(h, r)
      {
        if Names(h, |h.kids|, r) > 0 {
          var k :| k in m && m[k].kind == FileKind && m[k].host == r;
        }
      }
    } else {
      var k :| k in m && m[k].kind == FileKind && m[k].nlinks != Names(h, |h.kids|, m[k].host);
      Mksfs.WrapSum(Names(h, |h.kids|, m[k].host), 0);
      assert !FewNames(h, m[k].host);
    }
  }

  // ---- a file with too many names ----

  const CROWD: nat := 32766

  /** Three letters, different for every number below 32768. */
  function Letters(i: nat): (s: string)
    requires i < 0x8000
    ensures |s| == 3 && s[0] != '.'
  {
    [(0x40 + i / 0x400) as char, (0x40 + i / 0x20 % 0x20) as char, (0x40 + i % 0x20) as char]
  }

  function NumberOf(s: string): int
    requires |s| == 3
  {
    (s[0] as int - 0x40) * 0x400 + (s[1] as int - 0x40) * 0x20 + (s[2] as int - 0x40)
  }

  lemma Pieces(i: nat)
    ensures i == i / 0x400 * 0x400 + i / 0x20 % 0x20 * 0x20 + i % 0x20
  {
    assert i / 0x20 / 0x20 == i / 0x400;
  }

  lemma LettersBack(i: nat)
    requires i < 0x8000
    ensures NumberOf(Letters(i)) == i
  {
    Pieces(i);
  }

  lemma LettersDiffer(i: nat, j: nat)
    requires i < j < 0x8000
    ensures Letters(i) != Letters(j)
  {
    hide *;
    LettersBack(i);
    LettersBack(j);
  }

  predicate NamesDiffer(d: Item)
    requires d.Dir?
  {
    forall i, j :: 0 <= i < j < |d.kids| ==> d.kids[i].name != d.kids[j].name
  }

  /** A directory that is full with names of the one empty file 7. */
  function CrowdDir(host: nat): (d: Item)
    ensures d.Dir? && d.host == host && |d.kids| == CROWD
    ensures forall i :: 0 <= i < CROWD ==> d.kids[i] == Named(Letters(i), Regular(7, 0))
  {
    Dir(host, seq(CROWD, i requires 0 <= i < CROWD => Named(Letters(i), Regular(7, 0))))
  }

  /** The file and three such directories. */
  function Crowded(): (h: Item)
    ensures h.Dir? && |h.kids| == 4
  {
    Dir(10, [Named("f", Regular(7, 0)), Named("a", CrowdDir(1)), Named("b", CrowdDir(2)), Named("c", CrowdDir(3))])
  }

  function CrowdKind(host: nat): Kind {
    if host == 7 then FileKind else DirKind
  }

  lemma {:induction false} CrowdCounts(d: Item, n: nat, met: Met)
    requires d.Dir? && |d.kids| == CROWD && n <= CROWD && 7 in met.files
    requires forall i :: 0 <= i < CROWD ==> d.kids[i] == Named(Letters(i), Regular(7, 0))
    ensures Names(d, n, 7) == Entries(d, n) == n && Fits(d, n, met) && Price(d, n, met) <= 3 * n
    ensures After(d, n, met) == met
  {
    hide Letters;
    if n > 0 {
      CrowdCounts(d, n - 1, met);
      FileCost(d.kids[n - 1], 2 + (n - 1), met);
      assert met.(files := met.files + {7}) == met;
    }
  }

  /** A full directory as an entry of the root. */
  lemma CrowdEntry(name: string, host: nat, b: nat, met: Met)
    requires |name| == 1 && name[0] != '.' && b < 10 && 7 in met.files && host !in met.dirs
    ensures var x := Named(name, CrowdDir(host));
      !Skipped(x) && FitsIn(x, b, met) && PriceIn(x, b, met) <= 6 + 3 * CROWD && AfterIn(x, met) == WithDir(met, host)
      && NamesIn(x, 7) == CROWD
  {
    hide CrowdDir;
    var x := Named(name, CrowdDir(host));
    CrowdCounts(x.what, CROWD, WithDir(met, host));
    DirCost(x, b, met);
  }

  function Upto(n: nat): (s: set<nat>)
    ensures forall x: nat :: x in s <==> x < n
  {
    if n == 0 then {} else Upto(n - 1) + {n - 1}
  }

  /** The root after its first n entries. */
  ghost predicate CrowdAt(h: Item, n: nat)
    requires h.Dir? && n <= |h.kids|
  {
    var met := Met({}, {0});
    && Entries(h, n) == n && Fits(h, n, met) && After(h, n, met) == Met({7}, Upto(n))
    && Price(h, n, met) <= 4 + (n - 1) * (6 + 3 * CROWD) && Names(h, n, 7) == 1 + (n - 1) * CROWD
  }

  lemma CrowdFirst(h: Item)
    requires h == Crowded()
    ensures CrowdAt(h, 1)
  {
    var met := Met({}, {0});
    NoEntries(h, met);
    OneMore(h, 0, met);
    FileCost(h.kids[0], 2, met);
    Mksfs.CostStep(0, 0);
    assert Upto(1) == {0} by { assert Upto(0) == {}; }
  }

  lemma CrowdNext(h: Item, n: nat)
    requires h == Crowded() && 1 <= n < 4 && CrowdAt(h, n)
    ensures CrowdAt(h, n + 1)
  {
    hide CrowdDir;
    hide Fits;
    hide Price;
    hide After;
    hide FitsIn;
    hide PriceIn;
    hide AfterIn;
    hide NamesIn;
    var met, now := Met({}, {0}), Met({7}, Upto(n));
    assert h.kids[n].what == CrowdDir(n);
    CrowdEntry(h.kids[n].name, n, 2 + n, now);
    OneMore(h, n, met);
    assert Upto(n) + {n} == Upto(n + 1);
  }

  /** Names, room and format allow it, and the file has 98299 names. */
  lemma CrowdedFits(h: Item)
    requires h == Crowded()
    ensures Fits(h, 4, Met({}, {0})) && 2 + Price(h, 4, Met({}, {0})) <= 300000 && Names(h, 4, 7) == 98299
    ensures NamesDiffer(h) && NamesDiffer(h.kids[1].what) && NamesDiffer(h.kids[2].what) && NamesDiffer(h.kids[3].what)
  {
    hide Fits;
    hide Price;
    hide After;
    hide Names;
    hide Letters;
    CrowdFirst(h);
    CrowdNext(h, 1);
    CrowdNext(h, 2);
    CrowdNext(h, 3);
    forall i: nat, j: nat | i < j < CROWD
      ensures Letters(i) != Letters(j)
    {
      LettersDiffer(i, j);
    }
  }

  lemma CrowdedConsistent(h: Item)
    requires h == Crowded()
    ensures Consistent(h, CrowdKind)
  {
    forall host | 1 <= host <= 3
      ensures Consistent(CrowdDir(host), CrowdKind)
    {
      hide CrowdDir;
    }
    hide CrowdDir;
  }

  lemma ReservedBlocks()
    ensures Mksfs.Sfs.Reserved(Mksfs.MAX_NBLKS) == 18 && CrowdKind(0) == DirKind
  {}

  lemma FileSeven(m: Table, h: Item) returns (k: nat)
    requires h.Dir? && FilesLinked(m, h) && Names(h, |h.kids|, 7) == 98299
    ensures k in m && m[k].host == 7 && m[k].nlinks == 32763
  {
    hide Names;
    assert HasFile(m, 7);
    k :| k in m && m[k].kind == FileKind && m[k].host == 7;
  }

  /** On an image of the largest size the file ends up with 32763 links. */
  method LinkCountWraps() returns (image: Image, h: Item, o: Outcome, ghost k: nat)
    ensures h.Dir? && Names(h, |h.kids|, 7) == 98299 && o == Done
    ensures k in image.inodes && image.inodes[k].host == 7 && image.inodes[k].nlinks == 32763
  {
    hide Fits;
    hide Price;
    hide Names;
    hide Consistent;
    hide Crowded;
    hide FilesLinked;
    hide CrowdKind;
    h := Crowded();
    CrowdedFits(h);
    CrowdedConsistent(h);
    ReservedBlocks();
    image := new Image(Mksfs.MAX_NBLKS, CrowdKind);
    o := image.CreateImg(h);
    k := FileSeven(image.inodes, h);
  }
}
