/** The walker of dtb.c: the memory node's first usable `reg` in a flattened device tree. */
module Dtb {
  import opened Bits
  import opened Options

  type Byte = x: nat | x < 256

  const BEGIN_NODE := 1
  const END_NODE := 2
  const PROP := 3
  const NOP := 4
  const END := 9

  /** A byte of the blob. What lies behind the blob reads as zero. */
  function At(b: seq<Byte>, i: nat): Byte {
    if i < |b| then b[i] else 0
  }

  // ---- byte order ----

  /** What a little-endian machine loads from an address. */
  function Load32(b: seq<Byte>, i: nat): (r: nat)
    ensures r < 0x1_0000_0000
  {
    At(b, i) + 0x100 * At(b, i + 1) + 0x1_0000 * At(b, i + 2) + 0x100_0000 * At(b, i + 3)
  }

  function Load64(b: seq<Byte>, i: nat): (r: nat)
    ensures r < 0x1_0000_0000_0000_0000
  {
    Load32(b, i) + 0x1_0000_0000 * Load32(b, i + 4)
  }

  /** fdt32_to_cpu: masks and shifts are remainders and quotients, and the four fields do not overlap. */
  function Fdt32ToCpu(x: nat): (r: nat)
    ensures r < 0x1_0000_0000
  {
    x % 0x100 * 0x100_0000 + x / 0x100 % 0x100 * 0x1_0000 + x / 0x1_0000 % 0x100 * 0x100 + x / 0x100_0000 % 0x100
  }

  function Fdt64ToCpu(x: nat): (r: nat)
    ensures r < 0x1_0000_0000_0000_0000
  {
    Fdt32ToCpu(x % 0x1_0000_0000) * 0x1_0000_0000 + Fdt32ToCpu(x / 0x1_0000_0000)
  }

  /** The big-endian number in the n bytes from i. */
  function BigEndian(b: seq<Byte>, i: nat, n: nat): nat {
    if n == 0 then 0 else BigEndian(b, i, n - 1) * 0x100 + At(b, i + n - 1)
  }

  /** Loading and swapping a word reads the big-endian 32-bit number. */
  lemma Word(b: seq<Byte>, i: nat)
    ensures Fdt32ToCpu(Load32(b, i)) == BigEndian(b, i, 4)
  {
    hide Fdt32ToCpu;
    Fields(At(b, i), At(b, i + 1), At(b, i + 2), At(b, i + 3));
    FourBytes(b, i);
  }

  lemma FourBytes(b: seq<Byte>, i: nat)
    ensures BigEndian(b, i, 4) ==
      At(b, i) * 0x100_0000 + At(b, i + 1) * 0x1_0000 + At(b, i + 2) * 0x100 + At(b, i + 3)
  {
    hide At;
    assert BigEndian(b, i, 1) == BigEndian(b, i, 0) * 0x100 + At(b, i);
    assert BigEndian(b, i, 2) == BigEndian(b, i, 1) * 0x100 + At(b, i + 1);
    assert BigEndian(b, i, 3) == BigEndian(b, i, 2) * 0x100 + At(b, i + 2);
  }

  lemma Fields(b0: nat, b1: nat, b2: nat, b3: nat)
    requires b0 < 0x100 && b1 < 0x100 && b2 < 0x100 && b3 < 0x100
    ensures Fdt32ToCpu(b0 + 0x100 * b1 + 0x1_0000 * b2 + 0x100_0000 * b3) ==
      b0 * 0x100_0000 + b1 * 0x1_0000 + b2 * 0x100 + b3
  {
    var x := b0 + 0x100 * b1 + 0x1_0000 * b2 + 0x100_0000 * b3;
    Remainder(0x100, b1 + 0x100 * b2 + 0x1_0000 * b3, b0, x);
    Remainder(0x1_0000, b2 + 0x100 * b3, b0 + 0x100 * b1, x);
    Remainder(0x100_0000, b3, b0 + 0x100 * b1 + 0x1_0000 * b2, x);
    Remainder(0x100, b2 + 0x100 * b3, b1, b1 + 0x100 * b2 + 0x1_0000 * b3);
    Remainder(0x100, b3, b2, b2 + 0x100 * b3);
  }

  /** Loading and swapping two words reads the big-endian 64-bit number. */
  lemma DoubleWord(b: seq<Byte>, i: nat)
    ensures Fdt64ToCpu(Load64(b, i)) == BigEndian(b, i, 8)
  {
    hide Load32;
    hide Fdt32ToCpu;
    hide BigEndian;
    Word(b, i);
    Word(b, i + 4);
    Remainder(0x1_0000_0000, Load32(b, i + 4), Load32(b, i), Load64(b, i));
    BigEndianSplit(b, i);
  }

  lemma BigEndianSplit(b: seq<Byte>, i: nat)
    ensures BigEndian(b, i, 8) == BigEndian(b, i, 4) * 0x1_0000_0000 + BigEndian(b, i + 4, 4)
  {
    hide At;
    BigEndianMore(b, i, 4, 1);
    BigEndianMore(b, i, 4, 2);
    BigEndianMore(b, i, 4, 3);
    BigEndianMore(b, i, 4, 4);
    assert BigEndian(b, i + 4, 0) == 0;
  }

  lemma BigEndianMore(b: seq<Byte>, i: nat, m: nat, n: nat)
    requires n > 0
    ensures BigEndian(b, i, m + n) == BigEndian(b, i, m + n - 1) * 0x100 + At(b, i + m + n - 1)
    ensures BigEndian(b, i + m, n) == BigEndian(b, i + m, n - 1) * 0x100 + At(b, i + m + n - 1)
  {}

  // ---- strings ----

  const MEMORY: seq<Byte> := [109, 101, 109, 111, 114, 121]
  const REG: seq<Byte> := [114, 101, 103]

  /** strlen */
  function StrLen(b: seq<Byte>, i: nat): nat
    decreases |b| - i
  {
    if At(b, i) == 0 then 0 else 1 + StrLen(b, i + 1)
  }

  /** strncmp(s, "memory", 6) == 0 */
  predicate HasPrefix(b: seq<Byte>, i: nat) {
    forall k :: 0 <= k < |MEMORY| ==> At(b, i + k) == MEMORY[k]
  }

  /** strcmp(s, "reg") == 0 */
  predicate IsReg(b: seq<Byte>, i: nat) {
    At(b, i) == REG[0] && At(b, i + 1) == REG[1] && At(b, i + 2) == REG[2] && At(b, i + 3) == 0
  }

  function Align4(n: nat): (r: nat)
    ensures n - 3 <= r <= n && r % 4 == 0
  {
    n / 4 * 4
  }

  // ---- the walk, on any blob ----

  /** The result of the walk from struct position p: base and size, or none. */
  function Walk(b: seq<Byte>, strings: nat, p: nat, inMemory: bool): Option<(nat, nat)>
    decreases |b| - p
  {
    var token := BigEndian(b, p, 4);
    TokenInside(b, p);
    if token == BEGIN_NODE then Walk(b, strings, Align4(p + 4 + StrLen(b, p + 4) + 4), inMemory || HasPrefix(b, p + 4))
    else if token == END_NODE then Walk(b, strings, p + 4, false)
    else if token == PROP then
      var len := BigEndian(b, p + 4, 4);
      if inMemory && IsReg(b, strings + BigEndian(b, p + 8, 4)) && len >= 16 then
        Some((BigEndian(b, p + 12, 8), BigEndian(b, p + 20, 8)))
      else Walk(b, strings, Align4(p + 12 + len + 3), inMemory)
    else if token == NOP then Walk(b, strings, p + 4, inMemory)
    else None
  }

  lemma TokenInside(b: seq<Byte>, p: nat)
    ensures BigEndian(b, p, 4) != 0 ==> p < |b|
  {
    FourBytes(b, p);
  }

  /** extract_memory_info, for a blob at a 4-aligned address. It stops on every blob. */
  method ExtractMemoryInfo(b: seq<Byte>) returns (found: bool, base: nat, size: nat)
    ensures Walk(b, BigEndian(b, 12, 4), BigEndian(b, 8, 4), false) == if found then Some((base, size)) else None
  {
    hide BigEndian;
    hide Load32;
    hide Load64;
    hide Fdt32ToCpu;
    hide Fdt64ToCpu;
    hide At;
    hide StrLen;
    hide HasPrefix;
    hide IsReg;
    hide Align4;
    Word(b, 8);
    Word(b, 12);
    var structPtr, strings := Fdt32ToCpu(Load32(b, 8)), Fdt32ToCpu(Load32(b, 12));
    ghost var p0 := structPtr;
    var inMemory := false;
    found, base, size := false, 0, 0;
    while true
      invariant Walk(b, strings, structPtr, inMemory) == Walk(b, strings, p0, false)
      decreases |b| - structPtr
    {
      Word(b, structPtr);
      TokenInside(b, structPtr);
      var token := Fdt32ToCpu(Load32(b, structPtr));
      structPtr := structPtr + 4;
      if token == BEGIN_NODE {
        var nameLen := StrLen(b, structPtr);
        if HasPrefix(b, structPtr) {
          inMemory := true;
        }
        structPtr := Align4(structPtr + nameLen + 4);
      } else if token == END_NODE {
        inMemory := false;
      } else if token == PROP {
        Word(b, structPtr);
        Word(b, structPtr + 4);
        var propLen, nameOff := Fdt32ToCpu(Load32(b, structPtr)), Fdt32ToCpu(Load32(b, structPtr + 4));
        structPtr := structPtr + 8;
        if inMemory && IsReg(b, strings + nameOff) && propLen >= 16 {
          DoubleWord(b, structPtr);
          DoubleWord(b, structPtr + 8);
          found, base, size := true, Fdt64ToCpu(Load64(b, structPtr)), Fdt64ToCpu(Load64(b, structPtr + 8));
          return;
        }
        structPtr := Align4(structPtr + propLen + 3);
      } else if token == NOP {
      } else {
        return;
      }
    }
  }

  // ---- device trees, and their flattening (section 5.4 of the Devicetree Specification) ----

  /** The properties of a node, in order, with the NOPs between them. */
  datatype Props = NoProps | NopProp(rest: Props) | Prop(name: seq<Byte>, value: seq<Byte>, rest: Props)
  datatype Tree = Node(name: seq<Byte>, props: Props, kids: Forest)
  /** The nodes at one level, in order, with the NOPs between them. */
  datatype Forest = NoNodes | NopNode(rest: Forest) | Nodes(head: Tree, rest: Forest)

  /** The bytes at i are the string s and its terminator. */
  ghost predicate Holds(b: seq<Byte>, i: nat, s: seq<Byte>) {
    && (forall k :: 0 <= k < |s| ==> s[k] != 0 && At(b, i + k) == s[k])
    && At(b, i + |s|) == 0
  }

  /** Where the flattening that starts at p ends. */
  function PropsEnd(ps: Props, p: nat): nat {
    match ps
    case NoProps => p
    case NopProp(rest) => PropsEnd(rest, p + 4)
    case Prop(_, value, rest) => PropsEnd(rest, Align4(p + 12 + |value| + 3))
  }

  function TreeEnd(t: Tree, p: nat): nat {
    ForestEnd(t.kids, PropsEnd(t.props, Align4(p + 4 + |t.name| + 4))) + 4
  }

  function ForestEnd(f: Forest, p: nat): nat {
    match f
    case NoNodes => p
    case NopNode(rest) => ForestEnd(rest, p + 4)
    case Nodes(head, rest) => ForestEnd(rest, TreeEnd(head, p))
  }

  /** The struct block holds this flattening at p, with the tokens 1 to 4 and, at its end, 9. Padding bytes are
      arbitrary, and equal names may share a place in the strings block. */
  ghost predicate FlatProps(b: seq<Byte>, strings: nat, ps: Props, p: nat) {
    match ps
    case NoProps => true
    case NopProp(rest) => BigEndian(b, p, 4) == 4 && FlatProps(b, strings, rest, p + 4)
    case Prop(name, value, rest) =>
      && BigEndian(b, p, 4) == 3 && BigEndian(b, p + 4, 4) == |value|
      && Holds(b, strings + BigEndian(b, p + 8, 4), name)
      && (forall k :: 0 <= k < |value| ==> At(b, p + 12 + k) == value[k])
      && FlatProps(b, strings, rest, Align4(p + 12 + |value| + 3))
  }

  ghost predicate FlatTree(b: seq<Byte>, strings: nat, t: Tree, p: nat) {
    var q := Align4(p + 4 + |t.name| + 4);
    var r := PropsEnd(t.props, q);
    && BigEndian(b, p, 4) == 1 && Holds(b, p + 4, t.name)
    && FlatProps(b, strings, t.props, q) && FlatForest(b, strings, t.kids, r)
    && BigEndian(b, ForestEnd(t.kids, r), 4) == 2
  }

  ghost predicate FlatForest(b: seq<Byte>, strings: nat, f: Forest, p: nat) {
    match f
    case NoNodes => true
    case NopNode(rest) => BigEndian(b, p, 4) == 4 && FlatForest(b, strings, rest, p + 4)
    case Nodes(head, rest) => FlatTree(b, strings, head, p) && FlatForest(b, strings, rest, TreeEnd(head, p))
  }

  // ---- what the walk finds in a tree ----

  predicate IsMemory(name: seq<Byte>) {
    |name| >= 6 && name[..6] == MEMORY
  }

  /** The first property that is a `reg` of at least 16 bytes: its two big-endian numbers. */
  function RegOf(ps: Props): Option<(nat, nat)> {
    match ps
    case NoProps => None
    case NopProp(rest) => RegOf(rest)
    case Prop(name, value, rest) =>
      if name == REG && |value| >= 16 then Some((BigEndian(value, 0, 8), BigEndian(value, 8, 8))) else RegOf(rest)
  }

  /** The first usable `reg`, in pre-order, of the nodes the flag is up for: those named memory, and, until the next
      node ends, their first children. */
  function FoundInTree(t: Tree, flag: bool): Option<(nat, nat)> {
    var up := flag || IsMemory(t.name);
    if up && RegOf(t.props).Some? then RegOf(t.props) else FoundInForest(t.kids, up)
  }

  function FoundInForest(f: Forest, flag: bool): Option<(nat, nat)> {
    match f
    case NoNodes => None
    case NopNode(rest) => FoundInForest(rest, flag)
    case Nodes(head, rest) =>
      var r := FoundInTree(head, flag);
      if r.Some? then r else FoundInForest(rest, false)
  }

  lemma {:induction false} StrLenHolds(b: seq<Byte>, i: nat, s: seq<Byte>)
    requires Holds(b, i, s)
    ensures StrLen(b, i) == |s|
    decreases |s|
  {
    if s != [] {
      assert At(b, i + 0) == s[0];
      forall k | 0 <= k < |s[1..]|
        ensures s[1..][k] != 0 && At(b, i + 1 + k) == s[1..][k]
      {
        assert At(b, i + (k + 1)) == s[k + 1];
      }
      StrLenHolds(b, i + 1, s[1..]);
    }
  }

  lemma PrefixHolds(b: seq<Byte>, i: nat, s: seq<Byte>)
    requires Holds(b, i, s)
    ensures HasPrefix(b, i) <==> IsMemory(s)
  {
    if |s| < 6 {
      assert At(b, i + |s|) == 0 != MEMORY[|s|];
    } else if HasPrefix(b, i) {
      assert forall k :: 0 <= k < 6 ==> s[k] == At(b, i + k) == MEMORY[k];
    } else {
      var k :| 0 <= k < |MEMORY| && At(b, i + k) != MEMORY[k];
      assert s[k] != MEMORY[k];
    }
  }

  lemma RegHolds(b: seq<Byte>, i: nat, s: seq<Byte>)
    requires Holds(b, i, s)
    ensures IsReg(b, i) <==> s == REG
  {
    StrLenHolds(b, i, s);
    if IsReg(b, i) { RegLength(b, i); }
    if |s| == 3 {
      assert At(b, i + 0) == s[0] && At(b, i + 1) == s[1] && At(b, i + 2) == s[2];
    }
  }

  lemma RegLength(b: seq<Byte>, i: nat)
    requires IsReg(b, i)
    ensures StrLen(b, i) == |REG|
  {
    assert StrLen(b, i + 3) == 0;
    assert StrLen(b, i + 2) == 1;
    assert StrLen(b, i + 1) == 2;
  }

  /** A number read from the blob is the number in the property's value. */
  lemma {:induction false} NumberInValue(b: seq<Byte>, i: nat, v: seq<Byte>, j: nat, n: nat)
    requires j + n <= |v| && forall k :: 0 <= k < |v| ==> At(b, i + k) == v[k]
    ensures BigEndian(b, i + j, n) == BigEndian(v, j, n)
    decreases n
  {
    if n > 0 {
      NumberInValue(b, i, v, j, n - 1);
      assert At(b, i + (j + n - 1)) == v[j + n - 1];
    }
  }

  // ---- the walk on a flattened tree ----

  /** Over a node's properties the walk stops at the first usable `reg` if the flag is up, else it passes them all. */
  lemma {:induction false} WalkProps(b: seq<Byte>, strings: nat, ps: Props, p: nat, flag: bool)
    requires FlatProps(b, strings, ps, p)
    ensures Walk(b, strings, p, flag) ==
      if flag && RegOf(ps).Some? then RegOf(ps) else Walk(b, strings, PropsEnd(ps, p), flag)
    decreases ps
  {
    hide BigEndian;
    hide IsReg;
    hide Holds;
    match ps
    case NoProps =>
    case NopProp(rest) => WalkProps(b, strings, rest, p + 4, flag);
    case Prop(name, value, rest) =>
      WalkProps(b, strings, rest, Align4(p + 12 + |value| + 3), flag);
      RegHolds(b, strings + BigEndian(b, p + 8, 4), name);
      if |value| >= 16 {
        NumberInValue(b, p + 12, value, 0, 8);
        NumberInValue(b, p + 12, value, 8, 8);
      }
  }

  /** The walk refines the search in the tree. When nothing is found it goes on behind the node, flag down. */
  lemma {:induction false} WalkTree(b: seq<Byte>, strings: nat, t: Tree, p: nat, flag: bool)
    requires FlatTree(b, strings, t, p)
    ensures Walk(b, strings, p, flag) ==
      if FoundInTree(t, flag).Some? then FoundInTree(t, flag) else Walk(b, strings, TreeEnd(t, p), false)
    decreases t
  {
    hide BigEndian;
    hide StrLen;
    hide Holds;
    hide HasPrefix;
    hide FlatProps;
    hide FlatForest;
    var q := Align4(p + 4 + |t.name| + 4);
    var up := flag || IsMemory(t.name);
    StrLenHolds(b, p + 4, t.name);
    PrefixHolds(b, p + 4, t.name);
    assert Walk(b, strings, p, flag) == Walk(b, strings, q, up);
    WalkProps(b, strings, t.props, q, up);
    WalkForest(b, strings, t.kids, PropsEnd(t.props, q), up);
  }

  lemma {:induction false} WalkForest(b: seq<Byte>, strings: nat, f: Forest, p: nat, flag: bool)
    requires FlatForest(b, strings, f, p)
    ensures Walk(b, strings, p, flag) == if FoundInForest(f, flag).Some? then FoundInForest(f, flag)
                                         else Walk(b, strings, ForestEnd(f, p), FlagAfter(f, flag))
    decreases f
  {
    hide BigEndian;
    hide FlatTree;
    match f
    case NoNodes =>
    case NopNode(rest) => WalkForest(b, strings, rest, p + 4, flag);
    case Nodes(head, rest) =>
      WalkTree(b, strings, head, p, flag);
      WalkForest(b, strings, rest, TreeEnd(head, p), false);
  }

  /** Only the end of a node takes the flag down. */
  function FlagAfter(f: Forest, flag: bool): bool {
    match f
    case NoNodes => flag
    case NopNode(rest) => FlagAfter(rest, flag)
    case Nodes(_, rest) => FlagAfter(rest, false)
  }

  /** The blob is a flattened tree: its header gives the two offsets, and the struct block ends with FDT_END. */
  ghost predicate Flattened(b: seq<Byte>, f: Forest) {
    var strings, p := BigEndian(b, 12, 4), BigEndian(b, 8, 4);
    FlatForest(b, strings, f, p) && BigEndian(b, ForestEnd(f, p), 4) == 9
  }

  // ---- the first memory node ----

  /** The nodes in pre-order. */
  function PreOrder(f: Forest): seq<Tree> {
    match f
    case NoNodes => []
    case NopNode(rest) => PreOrder(rest)
    case Nodes(head, rest) => [head] + PreOrder(head.kids) + PreOrder(rest)
  }

  /** A node as the walk meets it: the flag is up while its properties are read, or down. */
  datatype Visit = Visit(node: Tree, up: bool)

  function TreeVisits(t: Tree, flag: bool): seq<Visit> {
    var up := flag || IsMemory(t.name);
    [Visit(t, up)] + ForestVisits(t.kids, up)
  }

  /** The nodes in pre-order, with the flag as it stands at each. */
  function ForestVisits(f: Forest, flag: bool): seq<Visit> {
    match f
    case NoNodes => []
    case NopNode(rest) => ForestVisits(rest, flag)
    case Nodes(head, rest) => TreeVisits(head, flag) + ForestVisits(rest, false)
  }

  predicate Usable(t: Tree) {
    RegOf(t.props).Some?
  }

  /** The position of the node whose `reg` the walk returns; the number of nodes if it returns none. */
  function Chosen(vs: seq<Visit>): (i: nat)
    ensures i <= |vs| && (i < |vs| ==> vs[i].up && Usable(vs[i].node))
    ensures forall j :: 0 <= j < i ==> !(vs[j].up && Usable(vs[j].node))
  {
    if vs == [] || (vs[0].up && Usable(vs[0].node)) then 0 else 1 + Chosen(vs[1..])
  }

  /** The position of the first memory node with a usable `reg`; the number of nodes if there is none. */
  function FirstMemory(vs: seq<Visit>): (i: nat)
    ensures i <= |vs| && (i < |vs| ==> IsMemory(vs[i].node.name) && Usable(vs[i].node))
    ensures forall j :: 0 <= j < i ==> !(IsMemory(vs[j].node.name) && Usable(vs[j].node))
  {
    if vs == [] || (IsMemory(vs[0].node.name) && Usable(vs[0].node)) then 0 else 1 + FirstMemory(vs[1..])
  }

  function RegAt(vs: seq<Visit>, i: nat): Option<(nat, nat)> {
    if i < |vs| then RegOf(vs[i].node.props) else None
  }

  /** A node that is no memory node, met with the flag up, has a usable `reg`. */
  predicate Adopted(v: Visit) {
    v.up && !IsMemory(v.node.name) && Usable(v.node)
  }

  lemma {:induction false} ChosenSplit(s: seq<Visit>, t: seq<Visit>)
    ensures Chosen(s + t) == if Chosen(s) < |s| then Chosen(s) else |s| + Chosen(t)
    ensures RegAt(s + t, Chosen(s + t)) == if Chosen(s) < |s| then RegAt(s, Chosen(s)) else RegAt(t, Chosen(t))
  {
    hide Usable;
    if s == [] {
      assert s + t == t;
    } else {
      assert (s + t)[1..] == s[1..] + t;
      ChosenSplit(s[1..], t);
    }
  }

  /** The search returns the `reg` of the chosen node. */
  lemma {:induction false} TreeChosen(t: Tree, flag: bool)
    ensures FoundInTree(t, flag) == RegAt(TreeVisits(t, flag), Chosen(TreeVisits(t, flag)))
    ensures FoundInTree(t, flag).None? <==> Chosen(TreeVisits(t, flag)) == |TreeVisits(t, flag)|
    decreases t
  {
    var up := flag || IsMemory(t.name);
    ForestChosen(t.kids, up);
    ChosenSplit([Visit(t, up)], ForestVisits(t.kids, up));
  }

  lemma {:induction false} ForestChosen(f: Forest, flag: bool)
    ensures FoundInForest(f, flag) == RegAt(ForestVisits(f, flag), Chosen(ForestVisits(f, flag)))
    ensures FoundInForest(f, flag).None? <==> Chosen(ForestVisits(f, flag)) == |ForestVisits(f, flag)|
    decreases f
  {
    match f
    case NoNodes =>
    case NopNode(rest) => ForestChosen(rest, flag);
    case Nodes(head, rest) =>
      TreeChosen(head, flag);
      ForestChosen(rest, false);
      ChosenSplit(TreeVisits(head, flag), ForestVisits(rest, false));
  }

  lemma {:induction false} VisitsInOrder(f: Forest, flag: bool)
    ensures |ForestVisits(f, flag)| == |PreOrder(f)|
    ensures forall i :: 0 <= i < |PreOrder(f)| ==> ForestVisits(f, flag)[i].node == PreOrder(f)[i]
    ensures forall v :: v in ForestVisits(f, flag) && IsMemory(v.node.name) ==> v.up
    decreases f
  {
    hide IsMemory;
    match f
    case NoNodes =>
    case NopNode(rest) => VisitsInOrder(rest, flag);
    case Nodes(head, rest) =>
      VisitsInOrder(head.kids, flag || IsMemory(head.name));
      VisitsInOrder(rest, false);
  }

  /** The chosen node is the first memory node with a usable `reg` exactly when no node is adopted before it. */
  lemma ChosenIsMemory(vs: seq<Visit>)
    requires forall v :: v in vs && IsMemory(v.node.name) ==> v.up
    ensures Chosen(vs) == FirstMemory(vs) <==> forall i :: 0 <= i < FirstMemory(vs) ==> !Adopted(vs[i])
  {
    hide IsMemory;
    hide Usable;
    var i, j := Chosen(vs), FirstMemory(vs);
    assert j < |vs| ==> vs[j] in vs;
    if i < j { assert Adopted(vs[i]); }
  }

  /** The first memory node in pre-order, if it has a usable `reg`, decides, whatever else the tree holds. */
  lemma {:induction false} FirstMemoryNode(f: Forest, k: nat)
    requires k < |PreOrder(f)| && IsMemory(PreOrder(f)[k].name) && RegOf(PreOrder(f)[k].props).Some?
    requires forall j :: 0 <= j < k ==> !IsMemory(PreOrder(f)[j].name)
    ensures FoundInForest(f, false) == RegOf(PreOrder(f)[k].props)
    decreases f
  {
    hide RegOf;
    hide IsMemory;
    hide PreOrder;
    PreOrderEnds(f);
    match f
    case NopNode(rest) => FirstMemoryNode(rest, k);
    case Nodes(head, rest) =>
      var kids := PreOrder(head.kids);
      PreOrderAt(head, rest);
      if 0 < k {
        if k <= |kids| {
          FirstMemoryNode(head.kids, k - 1);
        } else {
          NoMemoryNode(head.kids);
          FirstMemoryNode(rest, k - 1 - |kids|);
        }
      }
  }

  lemma PreOrderEnds(f: Forest)
    ensures f.NoNodes? ==> PreOrder(f) == []
    ensures f.NopNode? ==> PreOrder(f) == PreOrder(f.rest)
  {}

  lemma {:induction false} PreOrderAt(head: Tree, rest: Forest)
    ensures var all, kids := PreOrder(Nodes(head, rest)), PreOrder(head.kids); (
      && |all| == 1 + |kids| + |PreOrder(rest)| && all[0] == head
      && (forall j :: 0 <= j < |kids| ==> kids[j] == all[j + 1])
      && (forall j :: 0 <= j < |PreOrder(rest)| ==> PreOrder(rest)[j] == all[j + 1 + |kids|]))
  {
    var kids, others := PreOrder(head.kids), PreOrder(rest);
    assert PreOrder(Nodes(head, rest)) == [head] + kids + others;
    hide *;
  }

  lemma {:induction false} NoMemoryNode(f: Forest)
    requires forall t :: t in PreOrder(f) ==> !IsMemory(t.name)
    ensures FoundInForest(f, false).None?
  {
    match f
    case NoNodes =>
    case NopNode(rest) => NoMemoryNode(rest);
    case Nodes(head, rest) =>
      assert head in PreOrder(f);
      NoMemoryNode(head.kids);
      NoMemoryNode(rest);
  }

  // ---- the walker on flattened trees ----

  /** extract_memory_info on a flattened tree is the search in the tree. */
  lemma WalkIsSearch(b: seq<Byte>, f: Forest)
    requires Flattened(b, f)
    ensures Walk(b, BigEndian(b, 12, 4), BigEndian(b, 8, 4), false) == FoundInForest(f, false)
  {
    WalkForest(b, BigEndian(b, 12, 4), f, BigEndian(b, 8, 4), false);
  }

  /** When the first memory node has a usable `reg`, that is the result. */
  lemma FirstMemoryNodeFound(b: seq<Byte>, f: Forest, k: nat)
    requires Flattened(b, f) && k < |PreOrder(f)|
    requires IsMemory(PreOrder(f)[k].name) && RegOf(PreOrder(f)[k].props).Some?
    requires forall j :: 0 <= j < k ==> !IsMemory(PreOrder(f)[j].name)
    ensures Walk(b, BigEndian(b, 12, 4), BigEndian(b, 8, 4), false) == RegOf(PreOrder(f)[k].props)
  {
    hide *;
    WalkIsSearch(b, f);
    FirstMemoryNode(f, k);
  }

  /** The bytes of a text. */
  function Text(s: string): (r: seq<Byte>)
    ensures |r| == |s|
  {
    seq(|s|, i requires 0 <= i < |s| => s[i] as int % 256)
  }

  /** A memory node is one whose name begins with "memory": with a unit address behind it or without. */
  lemma MemoryNames(name: seq<Byte>)
    ensures IsMemory(name) <==> exists s: seq<Byte> :: name == Text("memory") + s
  {
    assert Text("memory") == MEMORY;
    if IsMemory(name) { assert name == Text("memory") + name[6..]; }
  }

  /** The properties without the NOPs: names and values. */
  function PropList(ps: Props): seq<(seq<Byte>, seq<Byte>)> {
    match ps
    case NoProps => []
    case NopProp(rest) => PropList(rest)
    case Prop(name, value, rest) => [(name, value)] + PropList(rest)
  }

  ghost predicate UsableReg(p: (seq<Byte>, seq<Byte>)) {
    p.0 == Text("reg") && |p.1| >= 16
  }

  lemma {:induction false} RegIsFirst(ps: Props, i: nat)
    requires i < |PropList(ps)| && UsableReg(PropList(ps)[i])
    requires forall j :: 0 <= j < i ==> !UsableReg(PropList(ps)[j])
    ensures RegOf(ps) == Some((BigEndian(PropList(ps)[i].1, 0, 8), BigEndian(PropList(ps)[i].1, 8, 8)))
    decreases ps
  {
    hide BigEndian;
    assert Text("reg") == REG;
    match ps
    case NopProp(rest) => RegIsFirst(rest, i);
    case Prop(name, value, rest) =>
      if i > 0 {
        assert !UsableReg(PropList(ps)[0]);
        assert forall j :: 0 <= j < i - 1 ==> PropList(rest)[j] == PropList(ps)[j + 1];
        RegIsFirst(rest, i - 1);
      }
  }

  /** So: node k is the first whose name begins with "memory", and property i is its first one called "reg" with 16
      bytes or more. The walker returns the two big-endian numbers there. */
  lemma MemoryNodeRead(b: seq<Byte>, f: Forest, k: nat, s: seq<Byte>, i: nat)
    requires Flattened(b, f) && k < |PreOrder(f)| && PreOrder(f)[k].name == Text("memory") + s
    requires forall j, s' :: 0 <= j < k ==> PreOrder(f)[j].name != Text("memory") + s'
    requires i < |PropList(PreOrder(f)[k].props)| && UsableReg(PropList(PreOrder(f)[k].props)[i])
    requires forall j :: 0 <= j < i ==> !UsableReg(PropList(PreOrder(f)[k].props)[j])
    ensures var v := PropList(PreOrder(f)[k].props)[i].1;
      Walk(b, BigEndian(b, 12, 4), BigEndian(b, 8, 4), false) == Some((BigEndian(v, 0, 8), BigEndian(v, 8, 8)))
  {
    hide *;
    MemoryNames(PreOrder(f)[k].name);
    forall j | 0 <= j < k
      ensures !IsMemory(PreOrder(f)[j].name)
    {
      MemoryNames(PreOrder(f)[j].name);
    }
    RegIsFirst(PreOrder(f)[k].props, i);
    FirstMemoryNodeFound(b, f, k);
  }

  lemma NoMemoryNodeNone(b: seq<Byte>, f: Forest)
    requires Flattened(b, f) && forall t :: t in PreOrder(f) ==> !IsMemory(t.name)
    ensures Walk(b, BigEndian(b, 12, 4), BigEndian(b, 8, 4), false).None?
  {
    hide *;
    WalkIsSearch(b, f);
    NoMemoryNode(f);
  }

  /** The walker returns the first usable `reg` of a memory node exactly when no adopted node comes before it. What is
      compared are the nodes, not the values read from them. */
  lemma MemoryRegFound(b: seq<Byte>, f: Forest)
    requires Flattened(b, f)
    ensures var vs := ForestVisits(f, false);
      && Walk(b, BigEndian(b, 12, 4), BigEndian(b, 8, 4), false) == RegAt(vs, Chosen(vs))
      && (Chosen(vs) == FirstMemory(vs) <==> forall i :: 0 <= i < FirstMemory(vs) ==> !Adopted(vs[i]))
  {
    hide *;
    WalkIsSearch(b, f);
    ForestChosen(f, false);
    VisitsInOrder(f, false);
    ChosenIsMemory(ForestVisits(f, false));
  }

  // ---- every tree has a flattening ----

  function Limit(k: nat): nat {
    if k == 0 then 1 else 0x100 * Limit(k - 1)
  }

  /** The number n in k bytes, most significant first. */
  function Be(n: nat, k: nat): (s: seq<Byte>)
    ensures |s| == k
  {
    if k == 0 then [] else Be(n / 0x100, k - 1) + [n % 0x100]
  }

  ghost predicate BytesAt(b: seq<Byte>, p: nat, s: seq<Byte>) {
    p + |s| <= |b| && b[p..p + |s|] == s
  }

  lemma BytesSplit(b: seq<Byte>, p: nat, s: seq<Byte>, t: seq<Byte>)
    requires BytesAt(b, p, s + t)
    ensures BytesAt(b, p, s) && BytesAt(b, p + |s|, t)
  {
    assert (s + t)[..|s|] == s && (s + t)[|s|..] == t;
    assert b[p..p + |s|] == b[p..p + |s + t|][..|s|];
    assert b[p + |s|..p + |s| + |t|] == b[p..p + |s + t|][|s|..];
  }

  lemma FiveParts(b: seq<Byte>, p: nat, s: seq<Byte>, t: seq<Byte>, u: seq<Byte>, v: seq<Byte>, w: seq<Byte>)
    requires BytesAt(b, p, s + (t + (u + (v + w))))
    ensures BytesAt(b, p, s) && BytesAt(b, p + |s|, t) && BytesAt(b, p + |s| + |t|, u)
    ensures BytesAt(b, p + |s| + |t| + |u|, v) && BytesAt(b, p + |s| + |t| + |u| + |v|, w)
  {
    hide BytesAt;
    BytesSplit(b, p, s, t + (u + (v + w)));
    BytesSplit(b, p + |s|, t, u + (v + w));
    BytesSplit(b, p + |s| + |t|, u, v + w);
    BytesSplit(b, p + |s| + |t| + |u|, v, w);
  }

  lemma PaddedHolds(b: seq<Byte>, p: nat, s: seq<Byte>)
    requires BytesAt(b, p, Padded(s))
    ensures BytesAt(b, p, s)
  {
    hide BytesAt;
    BytesSplit(b, p, s, Zeros(Align4(|s| + 3) - |s|));
  }

  lemma BytesRead(b: seq<Byte>, p: nat, s: seq<Byte>)
    requires BytesAt(b, p, s)
    ensures forall k :: 0 <= k < |s| ==> At(b, p + k) == s[k]
  {
    forall k | 0 <= k < |s|
      ensures At(b, p + k) == s[k]
    {
      assert b[p..p + |s|][k] == b[p + k];
    }
  }

  lemma {:induction false} BeRead(b: seq<Byte>, p: nat, n: nat, k: nat)
    requires BytesAt(b, p, Be(n, k)) && n < Limit(k)
    ensures BigEndian(b, p, k) == n
    decreases k
  {
    if k > 0 {
      BytesSplit(b, p, Be(n / 0x100, k - 1), [n % 0x100]);
      BeRead(b, p, n / 0x100, k - 1);
      assert b[p + k - 1..p + k][0] == n % 0x100;
    }
  }

  lemma ReadWord(b: seq<Byte>, p: nat, n: nat)
    requires BytesAt(b, p, Be(n, 4)) && n < 0x1_0000_0000
    ensures BigEndian(b, p, 4) == n
  {
    assert Limit(2) == 0x1_0000;
    assert Limit(4) == 0x1_0000_0000;
    BeRead(b, p, n, 4);
  }

  function Zeros(n: nat): (s: seq<Byte>)
    ensures |s| == n
  {
    seq(n, i requires 0 <= i < n => 0)
  }

  /** Padding to a multiple of four bytes. */
  function Padded(s: seq<Byte>): (r: seq<Byte>)
    ensures |r| == Align4(|s| + 3)
  {
    s + Zeros(Align4(|s| + 3) - |s|)
  }

  predicate NulFree(s: seq<Byte>) {
    forall k :: 0 <= k < |s| ==> s[k] != 0
  }

  predicate PropsNulFree(ps: Props) {
    match ps
    case NoProps => true
    case NopProp(rest) => PropsNulFree(rest)
    case Prop(name, _, rest) => NulFree(name) && PropsNulFree(rest)
  }

  predicate TreeNulFree(t: Tree) {
    NulFree(t.name) && PropsNulFree(t.props) && ForestNulFree(t.kids)
  }

  predicate ForestNulFree(f: Forest) {
    match f
    case NoNodes => true
    case NopNode(rest) => ForestNulFree(rest)
    case Nodes(head, rest) => TreeNulFree(head) && ForestNulFree(rest)
  }

  function PropsStrings(ps: Props): seq<Byte> {
    match ps
    case NoProps => []
    case NopProp(rest) => PropsStrings(rest)
    case Prop(name, _, rest) => (name + [0]) + PropsStrings(rest)
  }

  function TreeStrings(t: Tree): seq<Byte> {
    PropsStrings(t.props) + ForestStrings(t.kids)
  }

  /** The strings block: the property names in pre-order. */
  function ForestStrings(f: Forest): seq<Byte> {
    match f
    case NoNodes => []
    case NopNode(rest) => ForestStrings(rest)
    case Nodes(head, rest) => TreeStrings(head) + ForestStrings(rest)
  }

  function PropsBytes(ps: Props, so: nat): seq<Byte> {
    match ps
    case NoProps => []
    case NopProp(rest) => Be(NOP, 4) + PropsBytes(rest, so)
    case Prop(name, value, rest) =>
      Be(PROP, 4) + (Be(|value|, 4) + (Be(so, 4) + (Padded(value) + PropsBytes(rest, so + |name| + 1))))
  }

  function TreeBytes(t: Tree, so: nat): seq<Byte> {
    Be(BEGIN_NODE, 4) + (Padded(t.name + [0]) +
    (PropsBytes(t.props, so) + (ForestBytes(t.kids, so + |PropsStrings(t.props)|) + Be(END_NODE, 4))))
  }

  /** The struct block, for names that lie from `so` on in the strings block. */
  function ForestBytes(f: Forest, so: nat): seq<Byte> {
    match f
    case NoNodes => []
    case NopNode(rest) => Be(NOP, 4) + ForestBytes(rest, so)
    case Nodes(head, rest) => TreeBytes(head, so) + ForestBytes(rest, so + |TreeStrings(head)|)
  }

  const MAGIC := 0xd00d_feed

  /** A blob: a header of 40 bytes, the struct block and FDT_END, the strings block. Header fields that the walker does
      not read are zero. */
  function Flatten(f: Forest): seq<Byte> {
    var struct := ForestBytes(f, 0) + Be(END, 4);
    var strings := ForestStrings(f);
    Be(MAGIC, 4) + (Be(40 + |struct| + |strings|, 4) +
    (Be(40, 4) + (Be(40 + |struct|, 4) + (Zeros(24) + (struct + strings)))))
  }

  lemma HoldsString(b: seq<Byte>, p: nat, s: seq<Byte>)
    requires BytesAt(b, p, s + [0]) && NulFree(s)
    ensures Holds(b, p, s)
  {
    forall k | 0 <= k <= |s|
      ensures At(b, p + k) == (s + [0])[k]
    {
      assert b[p..p + |s| + 1][k] == b[p + k];
    }
  }

  lemma {:induction false} PropsFlat(b: seq<Byte>, strings: nat, ps: Props, p: nat, so: nat)
    requires BytesAt(b, p, PropsBytes(ps, so)) && BytesAt(b, strings + so, PropsStrings(ps)) && PropsNulFree(ps)
    requires p % 4 == 0 && |b| < 0x1_0000_0000
    ensures FlatProps(b, strings, ps, p) && PropsEnd(ps, p) == p + |PropsBytes(ps, so)| && PropsEnd(ps, p) % 4 == 0
    decreases ps
  {
    hide BigEndian;
    hide At;
    hide Holds;
    hide BytesAt;
    hide Be;
    match ps
    case NoProps =>
    case NopProp(rest) =>
      BytesSplit(b, p, Be(NOP, 4), PropsBytes(rest, so));
      ReadWord(b, p, NOP);
      PropsFlat(b, strings, rest, p + 4, so);
    case Prop(name, value, rest) =>
      OnePropFlat(b, strings, ps, p, so);
      PropsFlat(b, strings, rest, Align4(p + 12 + |value| + 3), so + |name| + 1);
  }

  lemma OnePropFlat(b: seq<Byte>, strings: nat, ps: Props, p: nat, so: nat)
    requires ps.Prop? && BytesAt(b, p, PropsBytes(ps, so))
    requires BytesAt(b, strings + so, PropsStrings(ps)) && PropsNulFree(ps)
    requires p % 4 == 0 && |b| < 0x1_0000_0000
    ensures var q := Align4(p + 12 + |ps.value| + 3); (
      && q % 4 == 0 && q == p + 12 + |Padded(ps.value)|
      && BigEndian(b, p, 4) == 3 && BigEndian(b, p + 4, 4) == |ps.value| && BigEndian(b, p + 8, 4) == so
      && Holds(b, strings + so, ps.name) && (forall k :: 0 <= k < |ps.value| ==> At(b, p + 12 + k) == ps.value[k])
      && BytesAt(b, q, PropsBytes(ps.rest, so + |ps.name| + 1))
      && BytesAt(b, strings + so + |ps.name| + 1, PropsStrings(ps.rest)))
  {
    hide BigEndian;
    hide Holds;
    hide Be;
    hide Padded;
    AlignedTail(p + 12, |ps.value|);
    hide Align4;
    var tail := PropsBytes(ps.rest, so + |ps.name| + 1);
    FiveParts(b, p, Be(PROP, 4), Be(|ps.value|, 4), Be(so, 4), Padded(ps.value), tail);
    BytesSplit(b, strings + so, ps.name + [0], PropsStrings(ps.rest));
    PaddedHolds(b, p + 12, ps.value);
    BytesRead(b, p + 12, ps.value);
    InBlob(b, p + 12, ps.value);
    InBlob(b, strings + so, ps.name + [0]);
    hide BytesAt;
    hide At;
    hide PropsBytes;
    hide PropsStrings;
    ReadWord(b, p, PROP);
    ReadWord(b, p + 4, |ps.value|);
    ReadWord(b, p + 8, so);
    HoldsString(b, strings + so, ps.name);
  }

  lemma InBlob(b: seq<Byte>, p: nat, s: seq<Byte>)
    requires BytesAt(b, p, s)
    ensures p + |s| <= |b|
  {}

  lemma AlignedTail(p: nat, n: nat)
    requires p % 4 == 0
    ensures Align4(p + n + 3) == p + Align4(n + 3) && Align4(p + n + 3) % 4 == 0
  {}

  lemma TreeParts(b: seq<Byte>, strings: nat, t: Tree, p: nat, so: nat)
    requires BytesAt(b, p, TreeBytes(t, so)) && BytesAt(b, strings + so, TreeStrings(t)) && TreeNulFree(t)
    requires p % 4 == 0 && |b| < 0x1_0000_0000
    ensures var q, so' := Align4(p + 4 + |t.name| + 4), so + |PropsStrings(t.props)|;
      var r := q + |PropsBytes(t.props, so)|;
      var e := r + |ForestBytes(t.kids, so')|; (
      && q % 4 == 0 && e + 4 == p + |TreeBytes(t, so)|
      && BigEndian(b, p, 4) == 1 && Holds(b, p + 4, t.name)
      && BytesAt(b, q, PropsBytes(t.props, so)) && BytesAt(b, strings + so, PropsStrings(t.props))
      && BytesAt(b, r, ForestBytes(t.kids, so')) && BytesAt(b, strings + so', ForestStrings(t.kids))
      && BigEndian(b, e, 4) == 2)
    ensures PropsNulFree(t.props) && ForestNulFree(t.kids)
  {
    hide BigEndian;
    hide Holds;
    hide BytesAt;
    hide Be;
    hide PropsBytes;
    hide ForestBytes;
    hide PropsStrings;
    hide ForestStrings;
    hide Padded;
    var q := p + 4 + |Padded(t.name + [0])|;
    AlignedTail(p + 4, |t.name| + 1);
    hide Align4;
    var props, so' := PropsBytes(t.props, so), so + |PropsStrings(t.props)|;
    var kids := ForestBytes(t.kids, so');
    FiveParts(b, p, Be(BEGIN_NODE, 4), Padded(t.name + [0]), props, kids, Be(END_NODE, 4));
    BytesSplit(b, strings + so, PropsStrings(t.props), ForestStrings(t.kids));
    PaddedHolds(b, p + 4, t.name + [0]);
    ReadWord(b, p, BEGIN_NODE);
    HoldsString(b, p + 4, t.name);
    ReadWord(b, q + |props| + |kids|, END_NODE);
  }

  lemma {:induction false} TreeFlat(b: seq<Byte>, strings: nat, t: Tree, p: nat, so: nat)
    requires BytesAt(b, p, TreeBytes(t, so)) && BytesAt(b, strings + so, TreeStrings(t)) && TreeNulFree(t)
    requires p % 4 == 0 && |b| < 0x1_0000_0000
    ensures FlatTree(b, strings, t, p) && TreeEnd(t, p) == p + |TreeBytes(t, so)| && TreeEnd(t, p) % 4 == 0
    decreases t
  {
    hide *;
    var q, so' := Align4(p + 4 + |t.name| + 4), so + |PropsStrings(t.props)|;
    var r := q + |PropsBytes(t.props, so)|;
    TreeParts(b, strings, t, p, so);
    PropsFlat(b, strings, t.props, q, so);
    ForestFlat(b, strings, t.kids, r, so');
    FlatTreeIs(b, strings, t, p, q, r, r + |ForestBytes(t.kids, so')|);
  }

  lemma FlatTreeIs(b: seq<Byte>, strings: nat, t: Tree, p: nat, q: nat, r: nat, e: nat)
    requires q == Align4(p + 4 + |t.name| + 4) && r == PropsEnd(t.props, q) && e == ForestEnd(t.kids, r)
    requires BigEndian(b, p, 4) == 1 && Holds(b, p + 4, t.name) && BigEndian(b, e, 4) == 2
    requires FlatProps(b, strings, t.props, q) && FlatForest(b, strings, t.kids, r)
    ensures FlatTree(b, strings, t, p) && TreeEnd(t, p) == e + 4
  {
    hide BigEndian;
    hide Holds;
    hide FlatProps;
    hide FlatForest;
    hide Align4;
    hide PropsEnd;
    hide ForestEnd;
  }

  lemma {:induction false} ForestFlat(b: seq<Byte>, strings: nat, f: Forest, p: nat, so: nat)
    requires BytesAt(b, p, ForestBytes(f, so)) && BytesAt(b, strings + so, ForestStrings(f)) && ForestNulFree(f)
    requires p % 4 == 0 && |b| < 0x1_0000_0000
    ensures FlatForest(b, strings, f, p) && ForestEnd(f, p) == p + |ForestBytes(f, so)| && ForestEnd(f, p) % 4 == 0
    decreases f
  {
    hide BigEndian;
    hide BytesAt;
    hide Be;
    hide TreeBytes;
    hide TreeStrings;
    hide FlatTree;
    hide TreeEnd;
    match f
    case NoNodes =>
    case NopNode(rest) =>
      BytesSplit(b, p, Be(NOP, 4), ForestBytes(rest, so));
      ReadWord(b, p, NOP);
      ForestFlat(b, strings, rest, p + 4, so);
    case Nodes(head, rest) =>
      BytesSplit(b, p, TreeBytes(head, so), ForestBytes(rest, so + |TreeStrings(head)|));
      BytesSplit(b, strings + so, TreeStrings(head), ForestStrings(rest));
      TreeFlat(b, strings, head, p, so);
      ForestFlat(b, strings, rest, p + |TreeBytes(head, so)|, so + |TreeStrings(head)|);
  }

  /** Every tree with NUL-free names whose blob is below four gigabytes has a flattening. */
  lemma FlattenIsFlattened(f: Forest)
    requires ForestNulFree(f) && |Flatten(f)| < 0x1_0000_0000
    ensures Flattened(Flatten(f), f)
  {
    hide BigEndian;
    hide BytesAt;
    hide Be;
    hide ForestBytes;
    hide ForestStrings;
    hide FlatForest;
    hide ForestEnd;
    var struct, strings := ForestBytes(f, 0) + Be(END, 4), ForestStrings(f);
    var b, rest := Flatten(f), Zeros(24) + (struct + strings);
    WholeBlob(b);
    FiveParts(b, 0, Be(MAGIC, 4), Be(40 + |struct| + |strings|, 4), Be(40, 4), Be(40 + |struct|, 4), rest);
    BytesSplit(b, 16, Zeros(24), struct + strings);
    BytesSplit(b, 40, struct, strings);
    BytesSplit(b, 40, ForestBytes(f, 0), Be(END, 4));
    ReadWord(b, 8, 40);
    ReadWord(b, 12, 40 + |struct|);
    ForestFlat(b, 40 + |struct|, f, 40, 0);
    ReadWord(b, 40 + |ForestBytes(f, 0)|, END);
  }

  lemma WholeBlob(b: seq<Byte>)
    ensures BytesAt(b, 0, b)
  {}

  /** Otherwise the flag outlives the memory node's own properties: on this blob the `reg` of its first child is
      returned, though no memory node has one. */
  lemma ChildRegTaken(value: seq<Byte>) returns (f: Forest, b: seq<Byte>)
    requires 16 <= |value| < 0x1000_0000
    ensures Flattened(b, f) && FirstMemory(ForestVisits(f, false)) == |ForestVisits(f, false)|
    ensures Walk(b, BigEndian(b, 12, 4), BigEndian(b, 8, 4), false) ==
              Some((BigEndian(value, 0, 8), BigEndian(value, 8, 8)))
  {
    hide BigEndian;
    hide Walk;
    hide Flattened;
    hide Flatten;
    var child := Node([120], Prop(REG, value, NoProps), NoNodes);
    var mem := Node(MEMORY, NoProps, Nodes(child, NoNodes));
    f := Nodes(mem, NoNodes);
    b := Flatten(f);
    SmallBlob(value, child, mem, f);
    FlattenIsFlattened(f);
    WalkIsSearch(b, f);
    assert FoundInTree(child, true) == RegOf(child.props);
    assert FoundInForest(Nodes(child, NoNodes), true) == RegOf(child.props);
    assert TreeVisits(child, true) == [Visit(child, true)];
    assert ForestVisits(Nodes(child, NoNodes), true) == [Visit(child, true)];
    assert TreeVisits(mem, false) == [Visit(mem, true), Visit(child, true)];
    assert ForestVisits(f, false) == [Visit(mem, true), Visit(child, true)];
  }

  lemma SmallBlob(value: seq<Byte>, child: Tree, mem: Tree, f: Forest)
    requires |value| < 0x1000_0000 && child == Node([120], Prop(REG, value, NoProps), NoNodes)
    requires mem == Node(MEMORY, NoProps, Nodes(child, NoNodes)) && f == Nodes(mem, NoNodes)
    ensures ForestNulFree(f) && |Flatten(f)| < 0x1_0000_0000
  {
    hide Be;
    assert PropsNulFree(child.props);
    assert NulFree(child.name) && ForestNulFree(child.kids);
    assert TreeNulFree(child) && ForestNulFree(mem.kids);
    assert |PropsBytes(child.props, 0)| == 12 + |Padded(value)|;
    assert |TreeBytes(child, 0)| <= 40 + |value|;
    assert |ForestBytes(mem.kids, 0)| == |TreeBytes(child, 0)|;
    assert |TreeBytes(mem, 0)| <= 80 + |value|;
    assert |ForestBytes(f, 0)| <= 80 + |value|;
    assert |PropsStrings(child.props)| == 4;
    assert |TreeStrings(child)| == 4;
    assert |ForestStrings(mem.kids)| == 4;
    assert |TreeStrings(mem)| == 4;
    assert |ForestStrings(f)| == 4;
  }
}
