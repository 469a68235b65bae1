/** The SFS image builder: a bump allocator of block numbers, and files whose block numbers are recorded
    in direct, indirect and double-indirect entries through a one-block cache per level. Index blocks are
    kept in memory, keyed by block number, until the image is closed. */
module Mksfs {
  import opened Options
  import opened Lists
  import opened FreeMap

  const NDIRECT: nat := 12
  const NENTRY: nat := 1024             // SFS_BLK_NENTRY
  const L0: nat := 12                   // SFS_L0_NBLKS
  const L1: nat := 1036                 // SFS_L1_NBLKS
  const LN: nat := 32768                // SFS_LN_NBLKS
  const BLKSIZE: nat := 4096
  const FREEMAP: nat := 2               // SFS_BLKN_FREEMAP
  const MAX_NBLKS: nat := 0x80000
  const HASH_LIST_SIZE: nat := 1024

  type Cache = map<nat, seq<nat>>

  /** Link counts are kept in a uint16_t. */
  type Half = x: nat | x < 0x1_0000

  function Wrapped(n: nat): Half {
    n % 0x1_0000
  }

  /** Wrapping at every step is wrapping once. */
  lemma WrapSum(a: nat, b: nat)
    ensures Wrapped(Wrapped(a) + b) == Wrapped(a + b)
    ensures a < 0x1_0000 ==> Wrapped(a) == a
  {}

  // ---- the block map of one file ----

  /** A file's in-memory inode: what the image stores, the cached index blocks, and two ghosts of the
      model: the numbers appended so far and the numbers of its first-level index blocks. */
  datatype File = File(direct: seq<nat>, indirect: nat, db: nat, nblks: nat, l1: Option<nat>, l2: Option<nat>,
                       log: seq<nat>, leaves: seq<nat>)

  /** The index blocks of a file. */
  ghost function Own(f: File): set<nat> {
    (set x | x in f.leaves) + if f.db == 0 then {} else {f.db}
  }

  ghost predicate Zeros(s: seq<nat>, k: nat) {
    |s| == NENTRY && forall r :: k <= r < NENTRY ==> s[r] == 0
  }

  /** How many first-level index blocks n blocks need. */
  ghost predicate LeavesFor(n: nat, leaves: nat) {
    if n <= L0 then leaves == 0 else L0 + NENTRY * (leaves - 1) < n <= L0 + NENTRY * leaves
  }

  ghost predicate DirectOk(f: File) {
    && |f.direct| == NDIRECT && |f.log| == f.nblks <= LN
    && forall i :: 0 <= i < NDIRECT && i < f.nblks ==> f.direct[i] == f.log[i]
  }

  /** Entry r of first-level block q holds the number appended at L0 + NENTRY * q + r. */
  ghost predicate LeafOk(f: File, c: Cache, q: nat)
    requires q < |f.leaves|
  {
    && f.leaves[q] in c && f.leaves[q] != 0 && |c[f.leaves[q]]| == NENTRY
    && forall r: nat :: r < NENTRY && L0 + NENTRY * q + r < |f.log| ==> c[f.leaves[q]][r] == f.log[L0 + NENTRY * q + r]
  }

  /** The first-level blocks are reached from the inode: the first directly, the others through the
      double-indirect block; the one-block caches hold the last of each level. */
  ghost predicate TreeOk(f: File, c: Cache) {
    && f.nblks <= LN && LeavesFor(f.nblks, |f.leaves|)
    && f.indirect == (if |f.leaves| == 0 then 0 else f.leaves[0])
    && (|f.leaves| > 0 ==> f.l1 == Some(f.leaves[|f.leaves| - 1]))
    && (|f.leaves| <= 1 ==> f.db == 0)
    && (|f.leaves| > 1 ==>
         && f.db != 0 && f.db in c && f.l2 == Some(f.db) && Zeros(c[f.db], |f.leaves| - 1)
         && forall q :: 1 <= q < |f.leaves| ==> c[f.db][q - 1] == f.leaves[q])
    && NoDup(f.leaves) && f.db !in f.leaves
  }

  ghost predicate FileOk(f: File, c: Cache) {
    && DirectOk(f) && TreeOk(f, c)
    && forall q :: 0 <= q < |f.leaves| ==> LeafOk(f, c, q)
  }

  /** Reading entry i from the image: the number the inode and the index blocks record for it. */
  function Lookup(c: Cache, ino: nat, i: nat): nat {
    if ino in c && i < |c[ino]| then c[ino][i] else 0
  }

  function Walk(f: File, c: Cache, i: nat): nat {
    if i < L0 then if i < |f.direct| then f.direct[i] else 0
    else if i < L1 then Lookup(c, f.indirect, i - L0)
    else Lookup(c, Lookup(c, f.db, (i - L1) / NENTRY), (i - L1) % NENTRY)
  }

  /** Walking the index blocks gives back exactly the numbers appended, in order. */
  lemma WalkIsLog(f: File, c: Cache, i: nat)
    requires FileOk(f, c) && i < f.nblks
    ensures Walk(f, c, i) == f.log[i]
  {
    if i >= L0 {
      var q, r := (i - L0) / NENTRY, (i - L0) % NENTRY;
      assert i == L0 + NENTRY * q + r && q < |f.leaves|;
      assert LeafOk(f, c, q);
      if i >= L1 { assert (i - L1) / NENTRY == q - 1 && (i - L1) % NENTRY == r; }
    }
  }

  /** Writing word i of index block b. */
  function Put(c: Cache, b: nat, i: nat, v: nat): (r: Cache)
    requires b in c && i < |c[b]|
    ensures r.Keys == c.Keys
  {
    var words: seq<nat> := c[b][i := v];
    c[b := words]
  }

  /** A file is not affected by changes to index blocks it does not own. */
  lemma FileFrame(f: File, c: Cache, c': Cache)
    requires FileOk(f, c)
    requires forall k :: k in Own(f) && k in c ==> k in c' && c'[k] == c[k]
    ensures FileOk(f, c')
  {
    forall q | 0 <= q < |f.leaves|
      ensures LeafOk(f, c', q)
    {
      assert LeafOk(f, c, q) && f.leaves[q] in Own(f);
    }
  }

  /** An entry written to a direct slot. */
  lemma AppendDirect(f: File, c: Cache, ino: nat)
    requires FileOk(f, c) && f.nblks < L0
    ensures FileOk(f.(direct := f.direct[f.nblks := ino], nblks := f.nblks + 1, log := f.log + [ino]), c)
  {}

  /** An entry written to the first-level block in use. */
  lemma AppendLeaf(f: File, c: Cache, ino: nat)
    requires FileOk(f, c) && L0 < f.nblks < LN && (f.nblks - L0) % NENTRY != 0
    ensures |f.leaves| > 0 && f.leaves[|f.leaves| - 1] in c && |c[f.leaves[|f.leaves| - 1]]| == NENTRY
    ensures |f.leaves| - 1 == (f.nblks - L0) / NENTRY
    ensures var last := f.leaves[|f.leaves| - 1];
      FileOk(f.(nblks := f.nblks + 1, log := f.log + [ino]), Put(c, last, (f.nblks - L0) % NENTRY, ino))
  {
    var m := |f.leaves| - 1;
    assert LeafOk(f, c, m);
    var last, g := f.leaves[m], f.(nblks := f.nblks + 1, log := f.log + [ino]);
    var c' := Put(c, last, (f.nblks - L0) % NENTRY, ino);
    forall q | 0 <= q < |g.leaves|
      ensures LeafOk(g, c', q)
    {
      assert LeafOk(f, c, q);
      if q < m { assert f.leaves[q] != f.leaves[m]; }
    }
  }

  /** A file with a fresh first-level block, still empty, hung where the next entry will go. */
  ghost predicate Opening(f: File, c: Cache) {
    && DirectOk(f) && L0 <= f.nblks < LN && (f.nblks - L0) % NENTRY == 0
    && TreeOk(f.(nblks := f.nblks + 1), c)
    && forall q :: 0 <= q < |f.leaves| ==> LeafOk(f, c, q)
  }

  lemma AppendFirst(f: File, c: Cache, ino: nat)
    requires Opening(f, c)
    ensures |f.leaves| > 0 && f.leaves[|f.leaves| - 1] in c && |c[f.leaves[|f.leaves| - 1]]| == NENTRY
    ensures var last := f.leaves[|f.leaves| - 1];
      FileOk(f.(nblks := f.nblks + 1, log := f.log + [ino]), Put(c, last, 0, ino))
  {
    var m := |f.leaves| - 1;
    assert LeafOk(f, c, m);
    var last, g := f.leaves[m], f.(nblks := f.nblks + 1, log := f.log + [ino]);
    var c' := Put(c, last, 0, ino);
    forall q | 0 <= q < |g.leaves|
      ensures LeafOk(g, c', q)
    {
      assert LeafOk(f, c, q);
      if q < m { assert f.leaves[q] != f.leaves[m]; }
    }
  }

  // ---- opening a first-level block ----

  /** The first first-level block hangs off the inode. */
  lemma OpenIndirect(f: File, c: Cache, b: nat)
    requires FileOk(f, c) && f.nblks == L0 && b != 0 && b !in c
    ensures f.indirect == 0 && f.leaves == []
    ensures Opening(f.(indirect := b, l1 := Some(b), leaves := [b]), c[b := ZeroBlock()])
  {}

  /** The double-indirect block is created with its first entry still empty. */
  lemma OpenDouble(f: File, c: Cache, d: nat, b: nat)
    requires FileOk(f, c) && f.nblks == L1 && d != 0 && b != 0 && d !in c && b !in c && d != b && Own(f) <= c.Keys
    ensures f.db == 0 && |f.leaves| == 1
    ensures var c1 := c[d := ZeroBlock()][b := ZeroBlock()];
      Opening(f.(db := d, l1 := Some(b), l2 := Some(d), leaves := f.leaves + [b]), Put(c1, d, 0, b))
  {
    var g := f.(db := d, l1 := Some(b), l2 := Some(d), leaves := f.leaves + [b]);
    var c' := Put(c[d := ZeroBlock()][b := ZeroBlock()], d, 0, b);
    assert LeafOk(f, c, 0) && f.leaves[0] in Own(f);
    forall q | 0 <= q < |g.leaves|
      ensures LeafOk(g, c', q)
    {}
    PushBack(f.leaves, b);
  }

  /** Further first-level blocks get the next entry of the double-indirect block. */
  lemma OpenNext(f: File, c: Cache, b: nat)
    requires FileOk(f, c) && L1 < f.nblks < LN && (f.nblks - L0) % NENTRY == 0 && b != 0 && b !in c && Own(f) <= c.Keys
    ensures f.db != 0 && f.db in c && f.l2 == Some(f.db) && |c[f.db]| == NENTRY
    ensures var k := (f.nblks - L1) / NENTRY;
      k < NENTRY && c[f.db][k] == 0 && k + 1 == |f.leaves|
      && Opening(f.(l1 := Some(b), leaves := f.leaves + [b]), Put(c[b := ZeroBlock()], f.db, k, b))
  {
    var k := (f.nblks - L1) / NENTRY;
    assert f.nblks == L1 + NENTRY * k;
    var g := f.(l1 := Some(b), leaves := f.leaves + [b]);
    var c' := Put(c[b := ZeroBlock()], f.db, k, b);
    forall q | 0 <= q < |g.leaves|
      ensures LeafOk(g, c', q)
    {
      if q < |f.leaves| {
        assert LeafOk(f, c, q) && f.leaves[q] in Own(f) && g.leaves[q] == f.leaves[q];
      }
    }
    assert f.db in Own(f);
    assert forall x :: x in f.leaves ==> x in Own(f);
    PushBack(f.leaves, b);
  }

  function ZeroBlock(): (s: seq<nat>)
    ensures Zeros(s, 0)
  {
    seq(NENTRY, _ => 0)
  }

  lemma PushBack(s: seq<nat>, x: nat)
    requires NoDup(s) && x !in s
    ensures NoDup(s + [x])
  {}

  /** In between, the entry of the double-indirect block is the block in use. */
  lemma InUse(f: File, c: Cache)
    requires FileOk(f, c) && L1 < f.nblks < LN && (f.nblks - L0) % NENTRY != 0
    ensures f.db != 0 && f.db in c && f.l2 == Some(f.db) && |c[f.db]| == NENTRY
    ensures var k := (f.nblks - L1) / NENTRY;
      k < NENTRY && c[f.db][k] == f.leaves[|f.leaves| - 1] != 0 && f.l1 == Some(c[f.db][k])
  {
    var m := |f.leaves| - 1;
    assert LeafOk(f, c, m);
    assert (f.nblks - L1) / NENTRY == m - 1;
    assert c[f.db][m - 1] == f.leaves[m];
  }

  // ---- the builder ----

  /** __hash32(val, HASH_SHIFT): the product wraps at 32 bits and its top ten bits are kept. */
  function Hash32(val: nat): (h: nat)
    ensures h < HASH_LIST_SIZE
  {
    (val * 0x9e370001 % 0x1_0000_0000) / 0x40_0000
  }

  /** Nothing but the index blocks in `own` changed, and new ones appeared. */
  ghost predicate Grown(c: Cache, c': Cache, own: set<nat>) {
    forall k :: k in c ==> k in c' && (k in own || c'[k] == c[k])
  }

  /** A file all of whose index blocks are in the cache. */
  ghost predicate Sound(f: File, c: Cache) {
    FileOk(f, c) && Own(f) <= c.Keys
  }

  lemma SoundFrame(f: File, c: Cache, c': Cache, own: set<nat>)
    requires Sound(f, c) && Grown(c, c', own) && Own(f) !! own
    ensures Sound(f, c')
  {
    FileFrame(f, c, c');
  }

  /** The file with one more number appended. */
  ghost function Longer(f: File, ino: nat): File {
    f.(nblks := f.nblks + 1, log := f.log + [ino])
  }

  /** What the indirect branch finds: no index block before the first entry, the cached one after. */
  lemma IndirectFacts(f: File, c: Cache)
    requires Sound(f, c) && L0 <= f.nblks < L1
    ensures f.indirect == 0 <==> f.nblks == L0
    ensures f.indirect != 0 ==> f.l1 == Some(f.indirect) && f.leaves == [f.indirect]
    ensures f.indirect != 0 ==> f.indirect in c && |c[f.indirect]| == NENTRY
    ensures f.db == 0
  {
    if f.nblks > L0 { assert LeafOk(f, c, 0); }
  }

  /** What the double-indirect branch finds, at each of the two levels. */
  lemma DoubleFacts(f: File, c: Cache)
    requires Sound(f, c) && L1 <= f.nblks < LN
    ensures f.db == 0 <==> f.nblks == L1
    ensures f.db != 0 ==> f.l2 == Some(f.db) && f.db in c && |c[f.db]| == NENTRY
    ensures var k := (f.nblks - L1) / NENTRY;
      k < NENTRY
      && (f.db != 0 ==> (c[f.db][k] == 0 <==> (f.nblks - L0) % NENTRY == 0))
      && (f.db != 0 && c[f.db][k] != 0 ==> f.l1 == Some(c[f.db][k]))
  {
    if f.nblks > L1 {
      if (f.nblks - L0) % NENTRY == 0 {
        var k := (f.nblks - L1) / NENTRY;
        assert f.nblks == L1 + NENTRY * k && |f.leaves| == k + 1;
      } else {
        InUse(f, c);
      }
    }
  }

  lemma OwnBelow(f: File, c: Cache)
    requires Sound(f, c)
    ensures Own(f) <= c.Keys && |f.direct| == NDIRECT && f.nblks <= LN && Grown(c, c, Own(f))
  {}

  lemma DirectSound(f: File, c: Cache, ino: nat)
    requires Sound(f, c) && f.nblks < L0
    ensures Sound(Longer(f.(direct := f.direct[f.nblks := ino]), ino), c)
    ensures Own(Longer(f.(direct := f.direct[f.nblks := ino]), ino)) == Own(f)
  {
    AppendDirect(f, c, ino);
  }

  lemma SameOwn(f: File, g: File)
    requires g.leaves == f.leaves && g.db == f.db
    ensures Own(g) == Own(f)
  {}

  lemma DoubleOwn(f: File, c: Cache)
    requires Sound(f, c) && L1 <= f.nblks < LN
    ensures Own(f) <= c.Keys && (f.nblks > L1 ==> f.db in Own(f))
    ensures f.nblks > L1 && (f.nblks - L0) % NENTRY != 0 ==>
      f.db in c && (f.nblks - L1) / NENTRY < |c[f.db]| && c[f.db][(f.nblks - L1) / NENTRY] in Own(f)
  {
    DoubleFacts(f, c);
    if f.nblks > L1 && (f.nblks - L0) % NENTRY != 0 { InUse(f, c); }
  }

  lemma ZeroEntry(q: nat)
    ensures |ZeroBlock()| == NENTRY && (q < NENTRY ==> ZeroBlock()[q] == 0)
  {}

  /** The file after an entry behind the double-indirect block d went into first-level block b. */
  ghost function DoubleFile(f: File, d: nat, b: nat, ino: nat): File
    requires f.nblks >= L1
  {
    Longer(f.(db := d, l1 := Some(b), l2 := Some(d),
              leaves := if (f.nblks - L0) % NENTRY == 0 then f.leaves + [b] else f.leaves), ino)
  }

  /** The whole effect of the double-indirect branch, once both blocks are there. */
  lemma DoubleStep(f: File, c: Cache, c1: Cache, d: nat, b: nat, ino: nat)
    requires Sound(f, c) && L1 <= f.nblks < LN && d != 0 && b != 0
    requires f.nblks == L1 ==> d !in c && b !in c && d != b && c1 == c[d := ZeroBlock()][b := ZeroBlock()]
    requires f.nblks > L1 ==> d == f.db
    requires f.nblks > L1 && (f.nblks - L0) % NENTRY == 0 ==> b !in c && c1 == c[b := ZeroBlock()]
    requires (f.nblks - L0) % NENTRY != 0 ==> d in c && (f.nblks - L1) / NENTRY < |c[d]|
    requires (f.nblks - L0) % NENTRY != 0 ==> b == c[d][(f.nblks - L1) / NENTRY] && c1 == c
    ensures var q, r := (f.nblks - L1) / NENTRY, (f.nblks - L1) % NENTRY;
      d in c1 && b in c1 && q < |c1[d]| == NENTRY && d != b && |c1[b]| == NENTRY
      && b in Put(c1, d, q, b) && |Put(c1, d, q, b)[b]| == NENTRY
      && var c2 := Put(Put(c1, d, q, b), b, r, ino);
      Sound(DoubleFile(f, d, b, ino), c2) && Grown(c, c2, Own(f))
      && forall x :: x in Own(DoubleFile(f, d, b, ino)) ==> x in Own(f) || x == b || x == d
  {
    hide TreeOk;
    hide LeafOk;
    hide DirectOk;
    hide ZeroBlock;
    var q := (f.nblks - L1) / NENTRY;
    var g := f.(db := d, l1 := Some(b), l2 := Some(d), leaves := f.leaves + [b]);
    if f.nblks == L1 {
      ZeroEntry(0);
      OpenDouble(f, c, d, b);
      AppendFirst(g, Put(c1, d, q, b), ino);
    } else if (f.nblks - L0) % NENTRY == 0 {
      ZeroEntry(0);
      OpenNext(f, c, b);
      assert f.db in Own(f);
      AppendFirst(g, Put(c1, d, q, b), ino);
    } else {
      InUse(f, c);
      AppendLeaf(f, c, ino);
      LastNotDouble(f, c);
      assert f.leaves[|f.leaves| - 1] in Own(f);
      PutSame(c, d, q);
    }
  }

  lemma PutSame(c: Cache, b: nat, i: nat)
    requires b in c && i < |c[b]|
    ensures Put(c, b, i, c[b][i]) == c
  {
    assert c[b][i := c[b][i]] == c[b];
  }

  lemma LastNotDouble(f: File, c: Cache)
    requires TreeOk(f, c) && f.leaves != []
    ensures f.leaves[|f.leaves| - 1] != f.db
  {}

  lemma WalkSound(f: File, c: Cache, i: nat)
    requires Sound(f, c) && i < |f.log|
    ensures Walk(f, c, i) == f.log[i]
  {
    WalkIsLog(f, c, i);
  }

  /** The block numbers that n blocks take, the first of them being block `nblks` of its file: one each, and those of
      the index blocks that become necessary on the way. */
  function Cost(nblks: nat, n: nat): nat
    decreases n
  {
    if n == 0 then 0 else 1 + Sfs.Needed(nblks) + Cost(nblks + 1, n - 1)
  }

  function Chunks(length: nat): nat {
    (length + BLKSIZE - 1) / BLKSIZE
  }

  lemma CostStep(nblks: nat, n: nat)
    ensures Cost(nblks, n) == if n == 0 then 0 else 1 + Sfs.Needed(nblks) + Cost(nblks + 1, n - 1)
  {}

  datatype Call = Create(inode: nat) | Append(k: nat)

  /** The numbers of the inodes themselves. */
  function Numbers(handles: seq<CacheInode>): (s: seq<nat>)
    ensures |s| == |handles|
  {
    seq(|handles|, i requires 0 <= i < |handles| => handles[i].ino)
  }

  /** Every number has one owner: a file's inode, or one entry of one file. So no number is used twice. */
  ghost predicate Owned(inos: seq<nat>, logs: seq<seq<nat>>, owner: map<nat, (nat, int)>) {
    && |inos| == |logs|
    && (forall i :: 0 <= i < |inos| ==> inos[i] in owner && owner[inos[i]] == (i, -1))
    && (forall i, j: nat :: 0 <= i < |logs| && j < |logs[i]| ==> logs[i][j] in owner && owner[logs[i][j]] == (i, j))
  }

  lemma OwnedDistinct(inos: seq<nat>, logs: seq<seq<nat>>, owner: map<nat, (nat, int)>, i: nat, j: nat, k: nat, l: nat)
    requires Owned(inos, logs, owner) && i < |logs| && j < |logs[i]| && k < |logs|
    ensures l < |logs[k]| && logs[i][j] == logs[k][l] ==> i == k && j == l
    ensures logs[i][j] != inos[k]
  {
    assert owner[inos[k]] == (k, -1);
  }

  lemma OwnedCreate(inos: seq<nat>, logs: seq<seq<nat>>, owner: map<nat, (nat, int)>, ino: nat)
    requires Owned(inos, logs, owner) && ino !in owner
    ensures Owned(inos + [ino], logs + [[]], owner[ino := (|logs|, -1)])
  {}

  lemma OwnedAppend(inos: seq<nat>, logs: seq<seq<nat>>, owner: map<nat, (nat, int)>, k: nat, ino: nat)
    requires Owned(inos, logs, owner) && ino !in owner && k < |logs|
    ensures Owned(inos, logs[k := logs[k] + [ino]], owner[ino := (k, |logs[k]|)])
  {}

  /** How many appends each file has seen after the first n calls. */
  function Appends(calls: seq<Call>, n: nat): seq<nat>
    requires n <= |calls|
  {
    if n == 0 then []
    else
      var s := Appends(calls, n - 1);
      match calls[n - 1]
      case Create(_) => s + [0]
      case Append(k) => if k < |s| then s[k := s[k] + 1] else s
  }

  ghost predicate Lengths(logs: seq<seq<nat>>, s: seq<nat>) {
    |logs| == |s| && forall i :: 0 <= i < |s| ==> |logs[i]| == s[i]
  }

  lemma OwnedStart(calls: seq<Call>)
    ensures Owned([], [], map[]) && Lengths([], Appends(calls, 0))
  {}

  /** The numbers after a call that takes number x for a block. */
  function Logged(logs: seq<seq<nat>>, c: Call, x: nat): seq<seq<nat>> {
    match c
    case Create(_) => logs + [[]]
    case Append(k) => if k < |logs| then logs[k := logs[k] + [x]] else logs
  }

  lemma AppendsStep(calls: seq<Call>, n: nat, logs: seq<seq<nat>>, x: nat)
    requires n < |calls| && Lengths(logs, Appends(calls, n))
    ensures Lengths(Logged(logs, calls[n], x), Appends(calls, n + 1))
  {}

  // ---- the image ----

  /** What write_block puts into a block of the image. */
  datatype Block =
    | Data(bytes: seq<nat>)
    | Super(blocks: nat, unused: nat)
    | Bitmap(words: seq<nat>)
    | Index(entries: seq<nat>)
    | Inode(size: nat, nlinks: Half, used: nat, direct: seq<nat>, indirect: nat, db: nat)

  type Disk = map<nat, Block>

  /** Reading an entry of an index block from the image, and block i of the file whose inode is in block ino. */
  function Entry(disk: Disk, b: nat, i: nat): nat {
    if b in disk && disk[b].Index? && i < |disk[b].entries| then disk[b].entries[i] else 0
  }

  function WalkDisk(disk: Disk, ino: nat, i: nat): nat {
    if ino !in disk || !disk[ino].Inode? then 0
    else if i < 12 then if i < |disk[ino].direct| then disk[ino].direct[i] else 0
    else if i < 1036 then Entry(disk, disk[ino].indirect, i - 12)
    else Entry(disk, Entry(disk, disk[ino].db, (i - 1036) / 1024), (i - 1036) % 1024)
  }

  /** Block k of the image is as it was. */
  predicate Same(disk: Disk, disk': Disk, k: nat) {
    (k in disk' <==> k in disk) && (k in disk ==> disk'[k] == disk[k])
  }

  lemma OneWrite(disk: Disk, before: Disk, disk': Disk, first: nat)
    requires (forall k :: k >= first ==> Same(disk, before, k)) && (forall k :: k >= first ==> Same(before, disk', k))
    ensures forall k :: k >= first ==> Same(disk, disk', k)
  {
    forall k | k >= first
      ensures Same(disk, disk', k)
    {
      assert Same(disk, before, k) && Same(before, disk', k);
    }
  }

  /** The index blocks are on the image as they are in the cache. */
  ghost predicate Flushed(disk: Disk, c: Cache) {
    forall k :: k in c ==> k in disk && disk[k] == Index(c[k])
  }

  ghost predicate Recorded(disk: Disk, ino: nat, f: File) {
    ino in disk && disk[ino].Inode? && disk[ino].direct == f.direct && disk[ino].indirect == f.indirect
    && disk[ino].db == f.db
  }

  /** On an image that holds the inode and the index blocks, the walk gives the numbers appended. */
  lemma WalkDiskIsLog(disk: Disk, c: Cache, ino: nat, f: File, i: nat)
    requires FileOk(f, c) && i < f.nblks && Flushed(disk, c) && Recorded(disk, ino, f)
    ensures WalkDisk(disk, ino, i) == f.log[i]
  {
    if i >= L0 {
      var q, r := (i - L0) / NENTRY, (i - L0) % NENTRY;
      assert i == L0 + NENTRY * q + r && q < |f.leaves|;
      assert LeafOk(f, c, q);
      if i >= L1 { assert (i - L1) / NENTRY == q - 1 && (i - L1) % NENTRY == r; }
    }
  }

  /** hash64(real): the number is cut to 32 bits. */
  function HashOf(f: CacheInode): (h: nat)
    ensures h < HASH_LIST_SIZE
  {
    Hash32(f.inode % 0x1_0000_0000)
  }

  /** The inodes of one hash chain, the last one created first. */
  function Chain(handles: seq<CacheInode>, h: nat): seq<CacheInode> {
    if handles == [] then []
    else
      var last := handles[|handles| - 1];
      (if HashOf(last) == h then [last] else []) + Chain(handles[..|handles| - 1], h)
  }

  lemma {:induction false} ChainMembers(handles: seq<CacheInode>, h: nat)
    ensures forall i :: 0 <= i < |Chain(handles, h)| ==> Chain(handles, h)[i] in handles
    ensures forall f :: f in handles && HashOf(f) == h ==> f in Chain(handles, h)
  {
    hide HashOf;
    if handles != [] {
      ChainMembers(handles[..|handles| - 1], h);
      assert handles == handles[..|handles| - 1] + [handles[|handles| - 1]];
    }
  }

  class CacheInode {
    const ino: nat
    const inode: nat  // the number the host file system knows the file by
    const direct: array<nat>
    var size: nat
    var nlinks: Half
    var blocks: nat
    var indirect: nat
    var db: nat
    var nblks: nat
    var l1: Option<nat>
    var l2: Option<nat>
    ghost var log: seq<nat>
    ghost var leaves: seq<nat>

    ghost function Snap(): File
      reads this, direct
    {
      File(direct[..], indirect, db, nblks, l1, l2, log, leaves)
    }

    /** The struct that is written to the inode's block. */
    function OnDisk(): Block
      reads this, direct
    {
      Inode(size, nlinks, blocks, direct[..], indirect, db)
    }

    constructor (inode: nat, ino: nat)
      ensures fresh(direct) && this.inode == inode && this.ino == ino
      ensures Sound(Snap(), map[]) && Own(Snap()) == {} && log == [] && size == nlinks == blocks == 0
    {
      this.inode, this.ino := inode, ino;
      direct := new nat[NDIRECT](_ => 0);
      size, nlinks, blocks, indirect, db, nblks := 0, 0, 0, 0, 0, 0;
      l1, l2, log, leaves := None, None, [], [];
    }
  }

  class Sfs {
    const ninos: nat
    ghost const first: nat            // the first number after the bitmap
    var nextIno: nat
    var unused: nat                   // super.unused_blocks
    var cache: Cache                  // the cached index blocks
    const chains: array<seq<nat>>     // the hash chains they are on, by number
    ghost var files: set<CacheInode>

    ghost predicate Counters()
      reads this
    {
      && FREEMAP < first <= nextIno <= ninos <= MAX_NBLKS && unused + nextIno == ninos
      && forall k :: k in cache ==> first <= k < nextIno
    }

    /** Every index block is on chain 0, whatever its number. */
    ghost predicate Chained()
      reads this`cache, chains
    {
      && chains.Length == HASH_LIST_SIZE
      && (forall k :: k in chains[0] <==> k in cache)
      && forall h :: 1 <= h < HASH_LIST_SIZE ==> chains[h] == []
    }

    ghost predicate Valid()
      reads this, chains, files, set f | f in files :: f.direct
    {
      && Counters() && Chained()
      && (forall f :: f in files ==> Sound(f.Snap(), cache))
      && (forall f, g :: f in files && g in files && f != g ==> f.direct != g.direct && Own(f.Snap()) !! Own(g.Snap()))
    }

    /** sfs_alloc_ino: block numbers are handed out in order; out of space ends the program. */
    method AllocIno() returns (r: Option<nat>)
      requires Counters()
      modifies this`nextIno, this`unused
      ensures Counters()
      ensures r.None? <==> old(nextIno) == ninos
      ensures r.None? ==> nextIno == old(nextIno)
      ensures r.Some? ==> r.value == old(nextIno) && nextIno == old(nextIno) + 1
    {
      if nextIno < ninos {
        unused := unused - 1;
        nextIno := nextIno + 1;
        return Some(nextIno - 1);
      }
      r := None;
    }

    /** alloc_cache_block(sfs, 0): a zeroed index block under a new number. The chain is chosen by the
        argument, which is 0 here, and not by the number. */
    method AllocCacheBlock() returns (r: Option<nat>)
      requires Counters() && Chained()
      modifies this`nextIno, this`unused, this`cache, chains
      ensures Counters() && Chained()
      ensures r.None? <==> old(nextIno) == ninos
      ensures r.None? ==> cache == old(cache) && nextIno == old(nextIno)
      ensures r.Some? ==> r.value == old(nextIno) && nextIno == old(nextIno) + 1
      ensures r.Some? ==> r.value !in old(cache) && cache == old(cache)[r.value := ZeroBlock()]
      ensures nextIno >= old(nextIno) && forall k :: k in cache ==> k in old(cache) || k >= old(nextIno)
    {
      r := AllocIno();
      if r.Some? {
        cache := cache[r.value := ZeroBlock()];
        chains[Hash32(0)] := [r.value] + chains[Hash32(0)];
      }
    }

    /** search_cache_block: the chain picked by the number itself. It can only find a block whose number
        happens to hash to 0. */
    method SearchCacheBlock(ino: nat) returns (r: Option<nat>)
      requires Counters() && Chained()
      ensures r == if ino in cache && ino * 0x9e37_0001 % 0x1_0000_0000 < 0x40_0000 then Some(ino) else None
    {
      var chain := chains[Hash32(ino)];
      for i := 0 to |chain|
        invariant ino !in chain[..i]
      {
        if chain[i] == ino {
          assert chain[i] in chain;
          return Some(ino);
        }
      }
      r := None;
    }

    /** update_cache. Its callers always pass either no block yet or the block the one-block cache holds:
        the branch that searches the hash chains is dead. */
    method UpdateCache(cb: Option<nat>, inop: nat) returns (ok: bool, cb': Option<nat>, inop': nat)
      requires Counters() && Chained() && (inop != 0 ==> cb == Some(inop))
      modifies this`nextIno, this`unused, this`cache, chains
      ensures Counters() && Chained()
      ensures ok <==> inop != 0 || old(nextIno) < ninos
      ensures ok && inop != 0 ==> inop' == inop && cb' == cb && cache == old(cache) && nextIno == old(nextIno)
      ensures ok && inop == 0 ==> inop' == old(nextIno) && cb' == Some(inop') && inop' !in old(cache)
      ensures ok && inop == 0 ==> nextIno == old(nextIno) + 1 && cache == old(cache)[inop' := ZeroBlock()]
      ensures nextIno >= old(nextIno) && forall k :: k in cache ==> k in old(cache) || k >= old(nextIno)
    {
      ok, cb', inop' := true, cb, inop;
      if inop == 0 {
        cb' := AllocCacheBlock();
        if cb' == None { return false, cb, inop; }
        inop' := cb'.value;
      } else if cb == None || cb.value != inop {
        assert false;
      }
    }

    /** The numbers the index blocks of one more entry need: one for a new first-level block, one for the
        double-indirect block before its first use. */
    static function Needed(nblks: nat): nat {
      (if nblks >= L0 && (nblks - L0) % NENTRY == 0 then 1 else 0) + if nblks == L1 then 1 else 0
    }

    /** data[i] = v on a cached index block. */
    method WriteEntry(b: nat, i: nat, v: nat)
      requires Counters() && Chained() && b in cache && i < |cache[b]|
      modifies this`cache
      ensures Counters() && Chained() && cache == Put(old(cache), b, i, v)
    {
      cache := Put(cache, b, i, v);
    }

    lemma CounterFacts()
      requires Counters()
      ensures 0 < first <= nextIno <= ninos && forall k :: k in cache ==> k < nextIno
    {}

    /** The middle branch of append_block: an entry of the indirect block. */
    method PutIndirect(file: CacheInode, k: nat, ino: nat) returns (ok: bool)
      requires Counters() && Chained() && Sound(file.Snap(), cache)
      requires L0 <= file.nblks < L1 && k == file.nblks - L0
      modifies this`nextIno, this`unused, this`cache, chains, file`l1, file`indirect, file`leaves
      ensures ok <==> old(nextIno) + Needed(file.nblks) <= ninos
      ensures ok ==> Counters() && Chained() && nextIno == old(nextIno) + Needed(file.nblks)
      ensures ok ==> Sound(Longer(file.Snap(), ino), cache) && Grown(old(cache), cache, Own(old(file.Snap())))
      ensures ok ==> forall x :: x in Own(file.Snap()) ==> x in Own(old(file.Snap())) || x >= old(nextIno)
      ensures nextIno >= old(nextIno) && forall k :: k in cache ==> k in old(cache) || k >= old(nextIno)
    {
      hide TreeOk;
      hide LeafOk;
      hide DirectOk;
      ghost var f, c := file.Snap(), cache;
      IndirectFacts(f, c);
      var cb, inop;
      ok, cb, inop := UpdateCache(file.l1, file.indirect);
      if !ok { return; }
      file.l1, file.indirect := cb, inop;
      if f.nblks == L0 {
        OpenIndirect(f, c, inop);
        file.leaves := [inop];
        AppendFirst(file.Snap(), cache, ino);
      } else {
        AppendLeaf(f, c, ino);
      }
      WriteEntry(file.l1.value, k, ino);
    }

    /** The two cached blocks the last branch works on. */
    method OpenBlocks(file: CacheInode, q: nat) returns (ok: bool, b: nat)
      requires Counters() && Chained() && Sound(file.Snap(), cache)
      requires L1 <= file.nblks < LN && q == (file.nblks - L1) / NENTRY
      modifies this`nextIno, this`unused, this`cache, chains, file`l1, file`l2, file`db
      ensures ok <==> old(nextIno) + Needed(file.nblks) <= ninos
      ensures ok ==> Counters() && Chained() && nextIno == old(nextIno) + Needed(file.nblks)
      ensures ok ==> file.db != 0 && b != 0 && file.l1 == Some(b) && file.l2 == Some(file.db)
      ensures ok && file.nblks == L1 ==>
        (file.db >= old(nextIno) && b >= old(nextIno) && file.db !in old(cache) && b !in old(cache) && file.db != b
        && cache == old(cache)[file.db := ZeroBlock()][b := ZeroBlock()])
      ensures ok && file.nblks > L1 ==> file.db == old(file.db)
      ensures ok && file.nblks > L1 && (file.nblks - L0) % NENTRY == 0 ==>
        (b >= old(nextIno) && b !in old(cache) && cache == old(cache)[b := ZeroBlock()])
      ensures ok && (file.nblks - L0) % NENTRY != 0 ==>
        (file.db in cache && q < |cache[file.db]| && b == cache[file.db][q] && cache == old(cache))
      ensures nextIno >= old(nextIno) && forall k :: k in cache ==> k in old(cache) || k >= old(nextIno)
    {
      hide FileOk;
      hide Own;
      hide ZeroBlock;
      hide Sound;
      hide Counters;
      hide Chained;
      ghost var f, c := file.Snap(), cache;
      CounterFacts();
      DoubleFacts(f, c);
      OwnBelow(f, c);
      var cb, inop;
      ok, cb, inop := UpdateCache(file.l2, file.db);
      b := 0;
      if !ok { return; }
      file.l2, file.db := cb, inop;
      CounterFacts();
      ZeroEntry(q);
      ok, cb, inop := UpdateCache(file.l1, cache[file.l2.value][q]);
      if !ok { return; }
      file.l1 := cb;
      b := inop;
    }

    /** The two entries: the first-level block in the double-indirect one, the number in the first-level block. */
    method StoreDouble(file: CacheInode, k: nat, b: nat, ino: nat)
      requires Counters() && Chained() && L1 <= file.nblks && k == file.nblks - L1
      requires file.l1 == Some(b) && file.l2 == Some(file.db)
      requires file.db in cache && k / NENTRY < |cache[file.db]|
      requires b in Put(cache, file.db, k / NENTRY, b) && k % NENTRY < |Put(cache, file.db, k / NENTRY, b)[b]|
      modifies this`cache, file`leaves
      ensures Counters() && Chained() && cache.Keys == old(cache.Keys)
      ensures cache == Put(Put(old(cache), file.db, k / NENTRY, b), b, k % NENTRY, ino)
      ensures Longer(file.Snap(), ino) == DoubleFile(old(file.Snap()), file.db, b, ino)
    {
      hide Counters;
      hide Chained;
      hide Put;
      WriteEntry(file.l2.value, k / NENTRY, b);
      if (file.nblks - L0) % NENTRY == 0 { file.leaves := file.leaves + [b]; }
      WriteEntry(file.l1.value, k % NENTRY, ino);
    }

    /** The last branch: an entry of a first-level block that hangs off the double-indirect block. */
    method PutDouble(file: CacheInode, k: nat, ino: nat) returns (ok: bool)
      requires Counters() && Chained() && Sound(file.Snap(), cache)
      requires L1 <= file.nblks < LN && k == file.nblks - L1
      modifies this`nextIno, this`unused, this`cache, chains, file`l1, file`l2, file`db, file`leaves
      ensures ok <==> old(nextIno) + Needed(file.nblks) <= ninos
      ensures ok ==> Counters() && Chained() && nextIno == old(nextIno) + Needed(file.nblks)
      ensures ok ==> Sound(Longer(file.Snap(), ino), cache) && Grown(old(cache), cache, Own(old(file.Snap())))
      ensures ok ==> forall x :: x in Own(file.Snap()) ==> x in Own(old(file.Snap())) || x >= old(nextIno)
      ensures nextIno >= old(nextIno) && forall k :: k in cache ==> k in old(cache) || k >= old(nextIno)
    {
      hide FileOk;
      hide Own;
      hide Grown;
      hide ZeroBlock;
      hide Sound;
      hide Put;
      hide Counters;
      hide Needed;
      hide Chained;
      ghost var f, c := file.Snap(), cache;
      DoubleOwn(f, c);
      var b;
      ok, b := OpenBlocks(file, k / NENTRY);
      if !ok { return; }
      DoubleStep(f, c, cache, file.db, b, ino);
      StoreDouble(file, k, b, ino);
      SameOwn(Longer(file.Snap(), ino), file.Snap());
    }

    /** append_block, as the file and the cache see it. */
    method AppendTo(file: CacheInode, size: nat, ino: nat) returns (ok: bool)
      requires Counters() && Chained() && Sound(file.Snap(), cache) && size <= BLKSIZE
      modifies this`nextIno, this`unused, this`cache, chains, file, file.direct
      ensures ok <==> old(file.nblks) < LN && old(nextIno) + Needed(old(file.nblks)) <= ninos
      ensures ok ==> Counters() && Chained() && nextIno == old(nextIno) + Needed(old(file.nblks))
      ensures ok ==> Sound(file.Snap(), cache) && Grown(old(cache), cache, Own(old(file.Snap())))
      ensures ok ==> forall x :: x in Own(file.Snap()) ==> x in Own(old(file.Snap())) || x >= old(nextIno)
      ensures ok ==> file.log == old(file.log) + [ino] && file.nlinks == old(file.nlinks)
      ensures ok ==> file.size == old(file.size) + size && file.blocks == old(file.blocks) + 1
      ensures nextIno >= old(nextIno) && forall k :: k in cache ==> k in old(cache) || k >= old(nextIno)
      ensures !ok ==> file.nblks == old(file.nblks)
    {
      hide Sound;
      hide Own;
      hide Grown;
      hide ZeroBlock;
      hide Counters;
      hide Chained;
      ghost var f, c := file.Snap(), cache;
      CounterFacts();
      OwnBelow(f, c);
      var nblks := file.nblks;
      if nblks >= LN { return false; }
      if nblks < L0 {
        DirectSound(f, c, ino);
        file.direct[nblks] := ino;
      } else if nblks < L1 {
        ok := PutIndirect(file, nblks - L0, ino);
        if !ok { return; }
      } else {
        ok := PutDouble(file, nblks - L1, ino);
        if !ok { return; }
      }
      ghost var grown := file.Snap();
      file.nblks := file.nblks + 1;
      file.size := file.size + size;
      file.blocks := file.blocks + 1;
      file.log := file.log + [ino];
      ok := true;
      assert file.Snap() == Longer(grown, ino);
      SameOwn(grown, file.Snap());
    }

    /** append_block: the number goes to the next entry of the file. It fails - which ends the program -
        exactly when the file is at its largest or its index blocks do not fit the image. */
    method AppendBlock(file: CacheInode, size: nat, ino: nat) returns (ok: bool)
      requires Valid() && file in files && size <= BLKSIZE
      modifies this`nextIno, this`unused, this`cache, chains, file, file.direct
      ensures ok <==> old(file.nblks) < 32768 && old(nextIno) + Needed(old(file.nblks)) <= ninos
      ensures ok ==> Valid() && nextIno == old(nextIno) + Needed(old(file.nblks))
      ensures ok ==> file.log == old(file.log) + [ino] && file.nlinks == old(file.nlinks)
      ensures ok ==> file.size == old(file.size) + size && file.blocks == old(file.blocks) + 1
      ensures nextIno >= old(nextIno) && forall k :: k in cache ==> k in old(cache) || k >= old(nextIno)
      ensures !ok ==> file.nblks == old(file.nblks)
    {
      hide Sound;
      hide Own;
      hide Grown;
      hide Chained;
      ghost var c, own := cache, Own(file.Snap());
      ok := AppendTo(file, size, ino);
      if !ok { return; }
      forall g | g in files && g != file
        ensures Sound(g.Snap(), cache) && Own(g.Snap()) !! Own(file.Snap())
      {
        assert g.Snap() == old(g.Snap());
        OwnBelow(g.Snap(), c);
        SoundFrame(g.Snap(), c, cache, own);
      }
    }

    /** create_sfs on an image of `bytes` bytes, once it is known to be large enough: block 0 is the super
        block, block 1 the root, and the bitmap follows. */
    constructor (bytes: nat)
      requires Reserved(Blocks(bytes)) < Blocks(bytes)
      ensures fresh(chains) && Valid() && files == {}
      ensures var n := bytes / 4096 % 0x1_0000_0000; ninos == Blocks(bytes) == if n > 0x8_0000 then 0x8_0000 else n
      ensures first == Reserved(ninos) && nextIno == first == 2 + (ninos + 32767) / 32768
    {
      var n := Blocks(bytes);
      ninos := n;
      first, nextIno, unused := Reserved(n), Reserved(n), n - Reserved(n);
      cache, files := map[], {};
      chains := new seq<nat>[HASH_LIST_SIZE](_ => []);
    }

    /** The number of blocks is cut to 32 bits before it is compared with the largest number there may be. */
    static function Blocks(bytes: nat): nat {
      var n := bytes / BLKSIZE % 0x1_0000_0000;
      if n > MAX_NBLKS then MAX_NBLKS else n
    }

    /** So it is the smaller of the two exactly when the cut changes nothing, or leaves enough. */
    static lemma BlocksCapped(bytes: nat)
      ensures var n := bytes / 4096;
        Blocks(bytes) == (if n > 0x8_0000 then 0x8_0000 else n) <==>
        n < 0x1_0000_0000 || n % 0x1_0000_0000 >= 0x8_0000
    {}

    static function Reserved(n: nat): nat {
      FREEMAP + (n + BLKBITS - 1) / BLKBITS
    }

    /** The inode itself, with no blocks. */
    method AddInode(inode: nat, number: nat) returns (f: CacheInode)
      requires Valid()
      modifies this`files
      ensures Valid() && fresh(f) && fresh(f.direct) && files == old(files) + {f}
      ensures f.log == [] && f.size == f.blocks == f.nlinks == 0 && f.ino == number
    {
      hide Chained;
      hide FileOk;
      hide Sound;
      hide Own;
      hide Wrapped;
      f := new CacheInode(inode, number);
      files := files + {f};
      SoundFrame(f.Snap(), map[], cache, {});
      assert forall g :: g in old(files) ==> g.Snap() == old(g.Snap()) && g.direct != f.direct;
    }

    /** alloc_cache_inode: a new file with no blocks. A number of 0 asks for a fresh one. */
    method AllocInode(inode: nat, ino: nat) returns (f: CacheInode?)
      requires Valid()
      modifies this`nextIno, this`unused, this`files
      ensures f == null <==> ino == 0 && old(nextIno) == ninos
      ensures f == null ==> files == old(files) && nextIno == old(nextIno)
      ensures f != null ==> fresh(f) && fresh(f.direct) && files == old(files) + {f}
      ensures f != null ==> f.log == [] && f.size == f.blocks == f.nlinks == 0
      ensures f != null ==> f.ino == (if ino != 0 then ino else old(nextIno)) && Valid()
      ensures f != null ==> nextIno == old(nextIno) + if ino != 0 then 0 else 1
    {
      hide Chained;
      hide FileOk;
      hide Sound;
      hide Own;
      var number := ino;
      if ino == 0 {
        var r := AllocIno();
        if r == None { return null; }
        number := r.value;
      }
      f := AddInode(inode, number);
    }

    /** The read loop of open_file: full blocks, and a last one that may be short. It ends the program exactly when
        the file gets too big or its blocks and index blocks do not fit the image. */
    method OpenFile(file: CacheInode, length: nat) returns (ok: bool)
      requires Valid() && file in files
      modifies this`nextIno, this`unused, this`cache, chains, file, file.direct
      ensures ok <==> old(file.nblks) + Chunks(length) <= LN &&
                      old(nextIno) + Cost(old(file.nblks), Chunks(length)) <= ninos
      ensures ok ==> Valid() && nextIno == old(nextIno) + Cost(old(file.nblks), Chunks(length))
      ensures ok ==> file.size == old(file.size) + length && file.blocks == old(file.blocks) + Chunks(length)
      ensures ok ==> length <= 4096 * (file.blocks - old(file.blocks)) < length + 4096
      ensures ok ==> |file.log| == |old(file.log)| + Chunks(length) && old(file.log) <= file.log
    {
      hide Sound;
      hide Chained;
      hide Cost;
      var remaining: nat, last: nat := length, BLKSIZE;
      ghost var left: nat := Chunks(length);
      CostStep(file.nblks, left);
      FileBound(file);
      while remaining > 0
        invariant Valid() && file.size == old(file.size) + length - remaining && remaining <= length
        invariant last == BLKSIZE || remaining == 0
        invariant left == Chunks(remaining) && file.blocks + left == old(file.blocks) + Chunks(length)
        invariant |file.log| + left == |old(file.log)| + Chunks(length) && old(file.log) <= file.log
        invariant file.nblks == |file.log| <= LN && |old(file.log)| == old(file.nblks)
        invariant nextIno + Cost(file.nblks, left) == old(nextIno) + Cost(old(file.nblks), Chunks(length))
      {
        assert last == BLKSIZE;
        var chunk := if remaining < BLKSIZE then remaining else BLKSIZE;
        CostStep(file.nblks, left);
        var ino := AllocIno();
        if ino == None { return false; }
        ok := AppendBlock(file, chunk, ino.value);
        if !ok { return; }
        FileBound(file);
        last := chunk;
        remaining := remaining - chunk;
        left := left - 1;
      }
      CostStep(file.nblks, 0);
      ok := true;
    }

    lemma FileBound(file: CacheInode)
      requires Valid() && file in files
      ensures file.nblks == |file.log| <= LN && nextIno <= ninos
    {
      assert Sound(file.Snap(), cache);
    }

    method AddLink(file: CacheInode)
      requires Valid() && file in files
      modifies file`nlinks
      ensures Valid() && file.nlinks == Wrapped(old(file.nlinks) + 1)
    {
      hide Sound;
      hide Own;
      hide Chained;
      file.nlinks := Wrapped(file.nlinks + 1);
      assert forall f :: f in files ==> f.Snap() == old(f.Snap());
    }

    /** add_entry: a block for the entry, appended to the directory, and one more link to the file. */
    method AddEntry(current: CacheInode, file: CacheInode) returns (ok: bool)
      requires Valid() && current in files && file in files
      modifies this`nextIno, this`unused, this`cache, chains, current, current.direct, file`nlinks
      ensures ok ==> Valid() && current.log == old(current.log) + [old(nextIno)]
      ensures ok ==> current.size == old(current.size) + 256
      ensures ok ==> file.nlinks == Wrapped(old(file.nlinks) + 1)
      ensures ok <==> old(current.nblks) < LN && old(nextIno) + 1 + Needed(old(current.nblks)) <= ninos
    {
      hide Sound;
      hide Own;
      hide Needed;
      hide Chained;
      var ino := AllocIno();
      if ino == None { return false; }
      ok := AppendBlock(current, 256, ino.value);
      if !ok { return; }
      AddLink(file);
    }

    /** close_sfs: the bitmap says which blocks were never handed out, and counts as many as the super
        block says are unused; its blocks lie before the first number handed out. */
    method CloseFreeMap() returns (map': seq<seq<nat>>)
      requires Valid()
      ensures forall b: nat :: b < |map'| * BLKBITS ==> (MapBit(map', b) <==> nextIno <= b < ninos)
      ensures CountBits(map', |map'| * BLKBITS) == unused
      ensures first == Reserved(ninos) ==> FREEMAP + |map'| == first
    {
      map' := WriteFreeMap(ninos, nextIno);
      PopulationIsUnused(map', ninos, nextIno, unused);
    }

    /** The inodes have numbers of their own, which are no index blocks and lie behind the bitmap or are the root's. */
    ghost predicate Numbered(handles: seq<CacheInode>)
      reads this
    {
      && (forall f :: f in handles ==> f.ino !in cache && (f.ino == 1 || first <= f.ino))
      && (forall f, g :: f in handles && g in handles && f.ino == g.ino ==> f == g)
    }

    /** flush_cache_block along one chain. */
    method FlushBlocks(disk: Disk, h: nat) returns (disk': Disk)
      requires Chained() && h < HASH_LIST_SIZE
      ensures forall k :: k in chains[h] ==> k in disk' && disk'[k] == Index(cache[k])
      ensures forall k :: k !in chains[h] ==> Same(disk, disk', k)
    {
      disk' := disk;
      for i := 0 to |chains[h]|
        invariant forall k :: k in chains[h][..i] ==> k in disk' && disk'[k] == Index(cache[k])
        invariant forall k :: k !in chains[h] ==> Same(disk, disk', k)
      {
        var b := chains[h][i];
        assert b in chains[h];
        disk' := disk'[b := Index(cache[b])];
      }
    }

    /** flush_cache_inode along one chain. */
    method FlushInodes(disk: Disk, chain: seq<CacheInode>) returns (disk': Disk)
      requires forall f, g :: f in chain && g in chain && f.ino == g.ino ==> f == g
      ensures forall f :: f in chain ==> Stored(disk', f)
      ensures forall k :: k !in Inos(chain) ==> Same(disk, disk', k)
    {
      disk' := disk;
      for i := 0 to |chain|
        invariant forall f :: f in chain[..i] ==> Stored(disk', f)
        invariant forall k :: k !in Inos(chain) ==> Same(disk, disk', k)
      {
        assert chain[i] in chain;
        disk' := disk'[chain[i].ino := chain[i].OnDisk()];
        assert chain[..i + 1] == chain[..i] + [chain[i]];
        forall f | f in chain[..i + 1]
          ensures Stored(disk', f)
        {
          assert f in chain;
          if f.ino == chain[i].ino { assert f == chain[i]; }
        }
      }
    }

    ghost predicate Stored(disk: Disk, f: CacheInode)
      reads f, f.direct
    {
      && f.ino in disk
      && disk[f.ino] == Inode(size := f.size, nlinks := f.nlinks, used := f.blocks, direct := f.direct[..],
                              indirect := f.indirect, db := f.db)
    }

    ghost function Inos(handles: seq<CacheInode>): set<nat> {
      set f | f in handles :: f.ino
    }

    static predicate MapBlockAt(disk: Disk, bits: seq<seq<nat>>, b: nat)
      requires b < |bits|
    {
      FREEMAP + b in disk && disk[FREEMAP + b] == Bitmap(bits[b])
    }

    /** The bitmap blocks on the image say which blocks were never handed out. */
    ghost predicate MapStored(disk: Disk, bits: seq<seq<nat>>)
      reads this
    {
      && FREEMAP + |bits| == first
      && (forall b :: 0 <= b < |bits| ==> MapBlockAt(disk, bits, b))
      && (forall b: nat :: b < |bits| * BLKBITS ==> (MapBit(bits, b) <==> nextIno <= b < ninos))
    }

    /** The bitmap and the super block. */
    method WriteMap(disk: Disk) returns (disk': Disk, ghost bits: seq<seq<nat>>)
      requires Valid() && first == Reserved(ninos)
      ensures 0 in disk' && disk'[0] == Super(ninos, unused) && MapStored(disk', bits)
      ensures forall k :: k >= first ==> Same(disk, disk', k)
    {
      hide Chained;
      hide Sound;
      hide Own;
      hide BlockBit;
      var blocks := WriteFreeMap(ninos, nextIno);
      bits := blocks;
      disk' := disk;
      assert FREEMAP + |blocks| == first;
      for b := 0 to |blocks|
        invariant forall k :: 0 <= k < b ==> MapBlockAt(disk', blocks, k)
        invariant forall k :: k >= first ==> Same(disk, disk', k)
      {
        ghost var before := disk';
        disk' := disk'[FREEMAP + b := Bitmap(blocks[b])];
        OneWrite(disk, before, disk', first);
        assert forall k :: 0 <= k < b && MapBlockAt(before, blocks, k) ==> MapBlockAt(disk', blocks, k);
      }
      ghost var before := disk';
      disk' := disk'[0 := Super(ninos, unused)];
      OneWrite(disk, before, disk', first);
      assert forall k :: 0 <= k < |blocks| && MapBlockAt(before, blocks, k) ==> MapBlockAt(disk', blocks, k);
    }

    /** The blocks and inodes of one chain. */
    method FlushChain(disk: Disk, handles: seq<CacheInode>, h: nat) returns (disk': Disk)
      requires Counters() && Chained() && h < HASH_LIST_SIZE && Numbered(handles)
      ensures h == 0 || Flushed(disk, cache) ==> Flushed(disk', cache)
      ensures forall f :: f in handles && (HashOf(f) == h || Stored(disk, f)) ==> Stored(disk', f)
      ensures forall k :: k !in cache && k !in Inos(handles) ==> Same(disk, disk', k)
    {
      hide HashOf;
      ChainMembers(handles, h);
      ghost var chain := Chain(handles, h);
      assert forall f :: f in chain ==> f in handles;
      assert forall k :: k in Inos(chain) ==> k in Inos(handles);
      var mid := FlushBlocks(disk, h);
      disk' := FlushInodes(mid, Chain(handles, h));
      forall f | f in handles && (HashOf(f) == h || Stored(disk, f))
        ensures Stored(disk', f)
      {
        if f !in chain {
          assert f.ino !in Inos(chain);
          assert Same(disk, mid, f.ino) && Same(mid, disk', f.ino);
        }
      }
      forall k | k !in cache && k !in Inos(handles)
        ensures Same(disk, disk', k)
      {
        assert k !in Inos(chain);
        assert Same(disk, mid, k) && Same(mid, disk', k);
      }
      forall k | k in cache && (h == 0 || Flushed(disk, cache))
        ensures k in disk' && disk'[k] == Index(cache[k])
      {
        assert k !in Inos(chain);
        assert Same(mid, disk', k);
        if h > 0 { assert Same(disk, mid, k); }
      }
    }

    /** close_sfs: the bitmap, the super block, and the cached blocks and inodes chain by chain. No block overwrites
        another, and the data blocks stay. */
    method CloseSfs(disk: Disk, handles: seq<CacheInode>) returns (disk': Disk, ghost bits: seq<seq<nat>>)
      requires Valid() && first == Reserved(ninos) && Numbered(handles)
      ensures Flushed(disk', cache)
      ensures forall f :: f in handles ==>
        && f.ino in disk'
        && disk'[f.ino] == Inode(size := f.size, nlinks := f.nlinks, used := f.blocks, direct := f.direct[..],
                                 indirect := f.indirect, db := f.db)
      ensures 0 in disk' && disk'[0] == Super(ninos, unused) && MapStored(disk', bits)
      ensures forall k :: k >= first && k !in cache && k !in Inos(handles) ==> Same(disk, disk', k)
    {
      hide Chained;
      hide Sound;
      hide Own;
      hide HashOf;
      hide BlockBit;
      CounterFacts();
      disk', bits := WriteMap(disk);
      ghost var mapped := disk';
      for h := 0 to HASH_LIST_SIZE
        invariant h > 0 ==> Flushed(disk', cache)
        invariant forall f :: f in handles && HashOf(f) < h ==> Stored(disk', f)
        invariant forall k :: k !in cache && k !in Inos(handles) ==> Same(mapped, disk', k)
      {
        disk' := FlushChain(disk', handles, h);
      }
      MapKept(mapped, disk', handles, bits);
      forall k | k >= first && k !in cache && k !in Inos(handles)
        ensures Same(disk, disk', k)
      {
        assert Same(disk, mapped, k) && Same(mapped, disk', k);
      }
    }

    lemma MapKept(disk: Disk, disk': Disk, handles: seq<CacheInode>, bits: seq<seq<nat>>)
      requires Counters() && Numbered(handles) && MapStored(disk, bits) && 0 in disk && disk[0] == Super(ninos, unused)
      requires forall k :: k !in cache && k !in Inos(handles) ==> Same(disk, disk', k)
      ensures MapStored(disk', bits) && 0 in disk' && disk'[0] == Super(ninos, unused)
    {
      hide MapBit;
      assert Same(disk, disk', 0);
      forall b | 0 <= b < |bits|
        ensures MapBlockAt(disk', bits, b)
      {
        assert MapBlockAt(disk, bits, b);
        assert Same(disk, disk', FREEMAP + b);
      }
    }

    /** The numbers that have an owner lie behind the bitmap, and none of them is an index block. */
    ghost predicate Apart(owner: map<nat, (nat, int)>)
      reads this
    {
      forall x :: x in owner ==> first <= x < nextIno && x !in cache
    }

    lemma ApartMore(owner: map<nat, (nat, int)>, x: nat, o: (nat, int), next: nat, c: Cache)
      requires forall y :: y in owner ==> first <= y < next && y !in c
      requires first <= next <= x < nextIno && forall k :: k in c ==> k < next
      requires forall k :: k in cache ==> k in c || k > x
      ensures x !in owner && Apart(owner[x := o])
    {}

    /** One call of a run: a new file, or one more block for a file that there is. */
    method Serve(c: Call, handles: seq<CacheInode>, logs: seq<seq<nat>>, ghost owner: map<nat, (nat, int)>)
      returns (ok: bool, handles': seq<CacheInode>, logs': seq<seq<nat>>, ghost owner': map<nat, (nat, int)>)
      requires Valid() && Tracked(handles, logs) && Owned(Numbers(handles), logs, owner) && Apart(owner)
      modifies this`nextIno, this`unused, this`cache, this`files, chains, files, set f | f in files :: f.direct
      ensures files >= old(files) && forall f :: f in files - old(files) ==> fresh(f) && fresh(f.direct)
      ensures ok ==> Valid() && Tracked(handles', logs') && Owned(Numbers(handles'), logs', owner') && Apart(owner')
      ensures ok ==> exists x :: logs' == Logged(logs, c, x)
      ensures !ok ==> nextIno + 2 > ninos || exists f :: f in files && f.nblks >= LN
    {
      hide Sound;
      hide Chained;
      hide Counters;
      hide Own;
      hide Owned;
      CounterFacts();
      ghost var inos, next, before := Numbers(handles), nextIno, cache;
      ok, handles', logs', owner' := true, handles, logs, owner;
      match c {
        case Create(inode) =>
          var f := AllocInode(inode, 0);
          if f == null { return false, handles, logs, owner; }
          ApartMore(owner, f.ino, (|logs|, -1), next, before);
          OwnedCreate(inos, logs, owner, f.ino);
          owner' := owner[f.ino := (|logs|, -1)];
          handles', logs' := handles + [f], logs + [[]];
          assert Numbers(handles') == inos + [f.ino];
          assert logs' == Logged(logs, c, 0);
        case Append(k) =>
          if k < |handles| {
            var ino := AllocIno();
            if ino == None { return false, handles, logs, owner; }
            ok := AppendBlock(handles[k], BLKSIZE, ino.value);
            if !ok { return; }
            ApartMore(owner, ino.value, (k, |logs[k]|), next, before);
            OwnedAppend(inos, logs, owner, k, ino.value);
            owner' := owner[ino.value := (k, |logs[k]|)];
            logs' := logs[k := logs[k] + [ino.value]];
            assert Numbers(handles') == inos;
            assert logs' == Logged(logs, c, ino.value);
          } else {
            assert logs' == Logged(logs, c, 0);
          }
      }
    }

    /** Any interleaving of new files and appends to any of them. When the program does not end, walking entry j of
        file i in the cache gives the number of the j-th block appended to it, no number is used twice, and each file
        has as many entries as there were appends to it. The program ends only for want of space. */
    method Run(calls: seq<Call>) returns (ok: bool, handles: seq<CacheInode>, logs: seq<seq<nat>>)
      requires Valid() && files == {}
      modifies this`nextIno, this`unused, this`cache, this`files, chains
      ensures ok ==> Valid() && Tracked(handles, logs)
      ensures ok ==>
        forall i, j: nat :: 0 <= i < |logs| && j < |logs[i]| ==> Walk(handles[i].Snap(), cache, j) == logs[i][j]
      ensures ok ==> exists owner :: Owned(Numbers(handles), logs, owner) && Apart(owner)
      ensures ok ==> Lengths(logs, Appends(calls, |calls|))
      ensures !ok ==> nextIno + 2 > ninos || exists f :: f in files && f.nblks >= LN
    {
      hide Sound;
      hide Chained;
      hide Counters;
      hide Own;
      hide Walk;
      hide Lengths;
      hide Appends;
      hide Owned;
      hide Apart;
      ok, handles, logs := true, [], [];
      ghost var owner: map<nat, (nat, int)> := map[];
      OwnedStart(calls);
      NothingOwned();
      for n := 0 to |calls|
        invariant Valid() && Tracked(handles, logs) && forall f :: f in files ==> fresh(f) && fresh(f.direct)
        invariant Owned(Numbers(handles), logs, owner) && Apart(owner)
        invariant Lengths(logs, Appends(calls, n))
      {
        ghost var before := logs;
        ok, handles, logs, owner := Serve(calls[n], handles, logs, owner);
        if !ok { return; }
        ghost var x :| logs == Logged(before, calls[n], x);
        AppendsStep(calls, n, before, x);
      }
      ok := true;
      forall i, j: nat | 0 <= i < |logs| && j < |logs[i]|
        ensures Walk(handles[i].Snap(), cache, j) == logs[i][j]
      {
        WalkSound(handles[i].Snap(), cache, j);
      }
    }

    /** A run, and then close_sfs. Reading entry j of file i from the finished image gives the j-th number appended to
        it, and whatever was written to that block is still there. */
    method BuildImage(calls: seq<Call>, disk: Disk)
      returns (ok: bool, handles: seq<CacheInode>, logs: seq<seq<nat>>, disk': Disk, ghost bits: seq<seq<nat>>)
      requires Valid() && files == {} && first == Reserved(ninos)
      modifies this`nextIno, this`unused, this`cache, this`files, chains
      ensures ok ==> Tracked(handles, logs) && Lengths(logs, Appends(calls, |calls|))
      ensures ok ==> forall i :: 0 <= i < |logs| ==>
        && handles[i].ino in disk' && disk'[handles[i].ino].Inode? && disk'[handles[i].ino].size == 4096 * |logs[i]|
        && disk'[handles[i].ino].used == |logs[i]| && disk'[handles[i].ino].nlinks == 0
      ensures ok ==> forall i, j: nat :: 0 <= i < |logs| && j < |logs[i]| ==>
        WalkDisk(disk', handles[i].ino, j) == logs[i][j] && Same(disk, disk', logs[i][j])
      ensures ok ==> 0 in disk' && disk'[0] == Super(ninos, unused) && MapStored(disk', bits)
      ensures !ok ==> nextIno + 2 > ninos || exists f :: f in files && f.nblks >= LN
    {
      hide Sound;
      hide Owned;
      hide Apart;
      hide Numbered;
      hide Chained;
      hide Own;
      hide Same;
      hide Flushed;
      hide WalkDisk;
      hide MapStored;
      hide Lengths;
      hide Appends;
      disk', bits := disk, [];
      ok, handles, logs := Run(calls);
      if !ok { return; }
      ghost var owner :| Owned(Numbers(handles), logs, owner) && Apart(owner);
      OwnedApart(handles, logs, owner);
      disk', bits := CloseSfs(disk, handles);
      forall i, j: nat | 0 <= i < |logs| && j < |logs[i]|
        ensures WalkDisk(disk', handles[i].ino, j) == logs[i][j] && Same(disk, disk', logs[i][j])
      {
        WalkStored(disk', handles[i], j);
      }
    }

    lemma WalkStored(disk: Disk, f: CacheInode, j: nat)
      requires Flushed(disk, cache) && Stored(disk, f) && Sound(f.Snap(), cache) && j < |f.log|
      ensures WalkDisk(disk, f.ino, j) == f.log[j]
    {
      hide TreeOk;
      hide LeafOk;
      WalkDiskIsLog(disk, cache, f.ino, f.Snap(), j);
    }

    /** Numbers with one owner each never meet in the image. */
    lemma OwnedApart(handles: seq<CacheInode>, logs: seq<seq<nat>>, owner: map<nat, (nat, int)>)
      requires Owned(Numbers(handles), logs, owner) && Apart(owner)
      ensures Numbered(handles)
      ensures forall i, j: nat :: 0 <= i < |logs| && j < |logs[i]| ==>
        logs[i][j] >= first && logs[i][j] !in cache && logs[i][j] !in Inos(handles)
    {
      var inos := Numbers(handles);
      assert forall i :: 0 <= i < |handles| ==> handles[i].ino == inos[i];
      forall i, j: nat, f | 0 <= i < |logs| && j < |logs[i]| && f in handles
        ensures logs[i][j] != f.ino
      {
        var k :| 0 <= k < |handles| && handles[k] == f;
        OwnedDistinct(inos, logs, owner, i, j, k, 0);
      }
    }

    lemma NothingOwned()
      ensures Apart(map[])
    {}

    /** A file made of n full blocks, in no directory. */
    ghost predicate Counted(f: CacheInode, n: nat)
      reads f
    {
      f.size == 4096 * n && f.blocks == n && f.nlinks == 0
    }

    /** Each handle is a file of its own, with the numbers appended through it. */
    ghost predicate Tracked(handles: seq<CacheInode>, logs: seq<seq<nat>>)
      reads this`files, handles
    {
      && |handles| == |logs|
      && (forall i :: 0 <= i < |handles| ==>
            handles[i] in files && handles[i].log == logs[i] && Counted(handles[i], |logs[i]|))
      && (forall i, j :: 0 <= i < j < |handles| ==> handles[i] != handles[j])
    }
  }
}
