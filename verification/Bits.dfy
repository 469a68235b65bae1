/** Powers of two, bitwise operations on page numbers, and the aligned block a page lies in.
    Everything is defined by halving, so that no proof needs non-linear arithmetic. */
module Bits {

  function Pow2(k: nat): (r: nat)
    ensures r >= 1
  {
    if k == 0 then 1 else 2 * Pow2(k - 1)
  }

  /** The first page of the aligned block of 2^o pages that holds page p: (p >> o) << o. */
  function Start(p: nat, o: nat): nat {
    if o == 0 then p else 2 * Start(p / 2, o - 1)
  }

  /** The bitwise exclusive or of two naturals. */
  function Xor(a: nat, b: nat): nat
    decreases a + b
  {
    if a == 0 && b == 0 then 0 else 2 * Xor(a / 2, b / 2) + (a % 2 + b % 2) % 2
  }

  /** The bitwise conjunction of two naturals. */
  function And(a: nat, b: nat): nat {
    if a == 0 then 0 else 2 * And(a / 2, b / 2) + (a % 2) * (b % 2)
  }

  lemma {:induction false} StartBounds(p: nat, o: nat)
    ensures Start(p, o) <= p < Start(p, o) + Pow2(o)
  {
    if o > 0 { StartBounds(p / 2, o - 1); }
  }

  /** Aligned blocks are nested: the big block of a page is the big block of its small block. */
  lemma {:induction false} StartNest(p: nat, k: nat, o: nat)
    requires k <= o
    ensures Start(Start(p, k), o) == Start(p, o)
  {
    if k > 0 { StartNest(p / 2, k - 1, o - 1); }
  }

  /** Start is the only aligned block start whose block holds the page. */
  lemma {:induction false} StartUnique(p: nat, i: nat, o: nat)
    requires Start(i, o) == i <= p < i + Pow2(o)
    ensures Start(p, o) == i
  {
    if o > 0 { StartUnique(p / 2, i / 2, o - 1); }
  }

  /** A block aligned to 2^o is aligned to every smaller power of two. */
  lemma AlignedDown(i: nat, k: nat, o: nat)
    requires k <= o && Start(i, o) == i
    ensures Start(i, k) == i
  {
    StartNest(i, k, o);
    StartBounds(i, k);
    StartBounds(Start(i, k), o);
  }

  /** The block after an aligned block is aligned. */
  lemma {:induction false} StartAdd(i: nat, o: nat)
    requires Start(i, o) == i
    ensures Start(i + Pow2(o), o) == i + Pow2(o)
  {
    if o > 0 {
      assert (i + Pow2(o)) / 2 == i / 2 + Pow2(o - 1);
      StartAdd(i / 2, o - 1);
    }
  }

  lemma {:induction false} Pow2Mono(k: nat, o: nat)
    requires k <= o
    ensures Pow2(k) <= Pow2(o)
  {
    if k < o { Pow2Mono(k, o - 1); }
  }

  /** An aligned block splits into two aligned halves. */
  lemma {:induction false} Halves(i: nat, o: nat)
    requires Start(i, o + 1) == i
    ensures Start(i, o) == i && Start(i + Pow2(o), o) == i + Pow2(o)
    ensures Start(i + Pow2(o), o + 1) == i
    ensures forall p: nat :: Start(p, o + 1) == i ==> Start(p, o) == i || Start(p, o) == i + Pow2(o)
  {
    AlignedDown(i, o, o + 1);
    StartAdd(i, o);
    StartUnique(i + Pow2(o), i, o + 1);
    forall p: nat | Start(p, o + 1) == i
      ensures Start(p, o) == i || Start(p, o) == i + Pow2(o)
    {
      StartBounds(p, o + 1);
      if p < i + Pow2(o) { StartUnique(p, i, o); } else { StartUnique(p, i + Pow2(o), o); }
    }
  }

  lemma {:induction false} XorZero(a: nat)
    ensures Xor(a, 0) == a
  {
    if a > 0 { XorZero(a / 2); }
  }

  /** Flipping bit o of an aligned block start leads to the other half of the block of twice the size. */
  lemma {:induction false} XorIsBuddy(i: nat, o: nat)
    requires Start(i, o) == i
    ensures Xor(i, Pow2(o)) == if Start(i, o + 1) == i then i + Pow2(o) else i - Pow2(o)
    ensures Start(i, o + 1) != i ==> Start(i, o + 1) + Pow2(o) == i
  {
    if o == 0 {
      XorZero(i / 2);
      assert Start(i, 1) == 2 * Start(i / 2, 0);
      assert Xor(i, 1) == 2 * Xor(i / 2, 0) + (i % 2 + 1) % 2;
    } else {
      XorIsBuddy(i / 2, o - 1);
      assert i % 2 == 0 && Pow2(o) / 2 == Pow2(o - 1) && Pow2(o) % 2 == 0;
      assert Xor(i, Pow2(o)) == 2 * Xor(i / 2, Pow2(o - 1));
      assert Start(i, o + 1) == 2 * Start(i / 2, o);
    }
  }

  /** Adding a base that is itself aligned commutes with taking the block start. */
  lemma {:induction false} StartShift(i: nat, base: nat, o: nat)
    requires Start(base, o) == base
    ensures Start(i + base, o) == Start(i, o) + base
  {
    if o > 0 {
      assert (i + base) / 2 == i / 2 + base / 2;
      StartShift(i / 2, base / 2, o - 1);
    }
  }

  /** Masking with 2^o - 1 gives the offset of a page in its block. */
  lemma {:induction false} AndMask(p: nat, o: nat)
    ensures And(p, Pow2(o) - 1) == p - Start(p, o)
  {
    hide Pow2;
    PowerOfTwo(o);
    if o == 0 {
      AndZero(p);
    } else {
      hide And;
      AndMask(p / 2, o - 1);
      AndStep(p, 2 * Pow2(o - 1) - 1);
    }
  }

  lemma AndStep(a: nat, b: nat)
    ensures And(a, b) == 2 * And(a / 2, b / 2) + (a % 2) * (b % 2)
  {}

  lemma {:induction false} AndZero(p: nat)
    ensures And(p, 0) == 0
  {
    if p > 0 { AndZero(p / 2); }
  }

  lemma MulSign(d: int, k: int)
    requires d > 0
    ensures k >= 1 ==> d * k >= d
    ensures k <= -1 ==> d * k <= -d
  {}

  lemma MultipleMod(x: nat, d: nat, q: nat)
    requires d > 0 && x == d * q
    ensures x % d == 0
  {
    var Q, r := x / d, x % d;
    assert x == d * Q + r;
    assert r == d * (q - Q);
    MulSign(d, q - Q);
  }

  /** An aligned block start is a multiple of its size. */
  lemma {:induction false} AlignedMod(i: nat, o: nat)
    requires Start(i, o) == i
    ensures i % Pow2(o) == 0
  {
    if o > 0 {
      AlignedMod(i / 2, o - 1);
      var m, q := Pow2(o - 1), (i / 2) / Pow2(o - 1);
      assert i / 2 == m * q;
      assert i == (2 * m) * q;
      MultipleMod(i, 2 * m, q);
    }
  }

  /** The bitwise disjunction of two naturals, and bit k of one. */
  function Or(a: nat, b: nat): nat
    decreases a + b
  {
    if a == 0 && b == 0 then 0 else 2 * Or(a / 2, b / 2) + if a % 2 + b % 2 > 0 then 1 else 0
  }

  predicate TestBit(a: nat, k: nat) {
    if k == 0 then a % 2 == 1 else TestBit(a / 2, k - 1)
  }

  lemma {:induction false} OrZero(a: nat)
    ensures Or(a, 0) == a
  {
    if a > 0 { OrZero(a / 2); }
  }

  lemma {:induction false} NoBits(k: nat)
    ensures !TestBit(0, k)
  {
    if k > 0 { NoBits(k - 1); }
  }

  lemma OrStep(a: nat, k: nat)
    requires k > 0
    ensures Or(a, Pow2(k)) / 2 == Or(a / 2, Pow2(k - 1)) && Or(a, Pow2(k)) % 2 == a % 2
  {
    assert Pow2(k) / 2 == Pow2(k - 1) && Pow2(k) % 2 == 0;
  }

  lemma OrOne(a: nat)
    ensures Or(a, 1) / 2 == a / 2 && Or(a, 1) % 2 == 1
  {
    OrZero(a / 2);
  }

  /** Or-ing in a power of two sets that bit and no other. */
  lemma {:induction false} SetBit(a: nat, k: nat, m: nat)
    ensures TestBit(Or(a, Pow2(k)), m) <==> m == k || TestBit(a, m)
  {
    hide Or;
    if k == 0 {
      OrOne(a);
    } else {
      OrStep(a, k);
      if m > 0 { SetBit(a / 2, k - 1, m - 1); }
    }
  }

  lemma PowerOfTwo(k: nat)
    ensures Pow2(k) == if k == 0 then 1 else 2 * Pow2(k - 1)
  {}

  /** It stays within the word. */
  lemma {:induction false} SetBitFits(a: nat, k: nat, width: nat)
    requires a < Pow2(width) && k < width
    ensures Or(a, Pow2(k)) < Pow2(width)
  {
    hide Or;
    hide Pow2;
    PowerOfTwo(k);
    PowerOfTwo(width);
    if k == 0 {
      OrOne(a);
    } else {
      OrStep(a, k);
      SetBitFits(a / 2, k - 1, width - 1);
    }
  }

  // ---- division ----

  lemma AtLeast(d: nat, e: int)
    requires e >= 1
    ensures d * e >= d
  {
    assert d * e == d + d * (e - 1);
  }

  lemma NoMultipleBetween(d: nat, e: int)
    requires 0 - d < d * e < d
    ensures e == 0
  {
    assert d * (-e) == -(d * e);
    if e >= 1 {
      AtLeast(d, e);
    } else if e <= -1 {
      AtLeast(d, -e);
    }
  }

  lemma Remainder(d: nat, q: int, r: nat, a: int)
    requires r < d && a == d * q + r
    ensures a % d == r && a / d == q
  {
    var e := a / d - q;
    assert d * e == r - a % d by { assert a == d * (a / d) + a % d && d * e == d * (a / d) - d * q; }
    NoMultipleBetween(d, e);
  }
}
