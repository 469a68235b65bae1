/** The 48-bit linear congruential generator behind rand and srand. */
module Rand {
  import opened Bits

  const MULTIPLIER := 0x5DEECE66D
  const INCREMENT := 0xB
  const RAND_MAX := 2147483647

  const MODULUS := 0x1_0000_0000_0000

  function Step(x: nat): (y: nat)
    ensures y < MODULUS
  {
    (x * MULTIPLIER + INCREMENT) % MODULUS
  }

  /** The state n calls after x. */
  function State(x: nat, n: nat): nat {
    if n == 0 then x else Step(State(x, n - 1))
  }

  // ---- the same orbit on the integers, before reduction ----

  function Orbit(x: int, n: nat): int {
    if n == 0 then x else Orbit(x, n - 1) * MULTIPLIER + INCREMENT
  }

  lemma {:induction false} OrbitSum(x: int, a: nat, b: nat)
    ensures Orbit(x, a + b) == Orbit(Orbit(x, a), b)
    decreases b
  {
    if b > 0 { OrbitSum(x, a, b - 1); }
  }

  // 2^k steps are one affine map. Its factor is 1 + 4 q, its term an odd multiple of 2^k.

  function Quarter(k: nat): int {
    if k == 0 then MULTIPLIER / 4 else 2 * Quarter(k - 1) + 4 * (Quarter(k - 1) * Quarter(k - 1))
  }

  function Half(k: nat): int {
    if k == 0 then INCREMENT / 2 else Half(k - 1) + Quarter(k - 1) * (2 * Half(k - 1) + 1)
  }

  lemma Compose(q: int, p: int, h: int, x: int)
    ensures (1 + 4 * q) * ((1 + 4 * q) * x + p * (2 * h + 1)) + p * (2 * h + 1) ==
      (1 + 4 * (2 * q + 4 * (q * q))) * x + 2 * p * (2 * (h + q * (2 * h + 1)) + 1)
  {
    var c := p * (2 * h + 1);
    calc {
      (1 + 4 * q) * ((1 + 4 * q) * x + c) + c;
      (1 + 4 * q) * ((1 + 4 * q) * x) + (1 + 4 * q) * c + c;
      { assert (1 + 4 * q) * ((1 + 4 * q) * x) == ((1 + 4 * q) * (1 + 4 * q)) * x; }
      ((1 + 4 * q) * (1 + 4 * q)) * x + (1 + 4 * q) * c + c;
      { assert (1 + 4 * q) * (1 + 4 * q) == 1 + 4 * (2 * q + 4 * (q * q)); }
      (1 + 4 * (2 * q + 4 * (q * q))) * x + (2 + 4 * q) * c;
    }
  }

  lemma {:induction false} PowerStep(x: int, k: nat)
    ensures Orbit(x, Pow2(k)) == (1 + 4 * Quarter(k)) * x + Pow2(k) * (2 * Half(k) + 1)
    decreases k
  {
    hide *;
    if k == 0 {
      OneStep(x);
    } else {
      var p := Pow2(k - 1);
      PowerOfTwo(k);
      OrbitSum(x, p, p);
      PowerStep(x, k - 1);
      PowerStep(Orbit(x, p), k - 1);
      Compose(Quarter(k - 1), p, Half(k - 1), x);
      Coefficients(k);
    }
  }

  lemma OneStep(x: int)
    ensures Orbit(x, Pow2(0)) == (1 + 4 * Quarter(0)) * x + Pow2(0) * (2 * Half(0) + 1)
  {
    assert Orbit(x, 1) == Orbit(x, 0) * MULTIPLIER + INCREMENT;
  }

  lemma Coefficients(k: nat)
    requires k > 0
    ensures Quarter(k) == 2 * Quarter(k - 1) + 4 * (Quarter(k - 1) * Quarter(k - 1))
    ensures Half(k) == Half(k - 1) + Quarter(k - 1) * (2 * Half(k - 1) + 1)
  {}

  lemma {:induction false} QuarterMultiple(k: nat) returns (u: int)
    ensures Quarter(k) == Pow2(k) * u
    decreases k
  {
    hide Pow2;
    PowerOfTwo(0);
    if k == 0 {
      u := Quarter(0);
    } else {
      var q := Quarter(k - 1);
      var v := QuarterMultiple(k - 1);
      u := v * (1 + 2 * q);
      QuarterStep(k);
      PowerOfTwo(k);
      Regroup(Pow2(k - 1), v, q);
    }
  }

  lemma QuarterStep(k: nat)
    requires k > 0
    ensures Quarter(k) == 2 * (Quarter(k - 1) * (1 + 2 * Quarter(k - 1)))
  {}

  lemma Regroup(p: int, v: int, q: int)
    requires q == p * v
    ensures 2 * (q * (1 + 2 * q)) == (2 * p) * (v * (1 + 2 * q))
  {
    var c := 1 + 2 * q;
    assert (p * v) * c == p * (v * c);
  }

  /** 2^k steps move every state by an odd multiple of 2^k. */
  lemma Jump(x: int, k: nat) returns (w: int)
    ensures Orbit(x, Pow2(k)) == x + Pow2(k) * (2 * w + 1)
  {
    hide *;
    var u := QuarterMultiple(k);
    PowerStep(x, k);
    w := 2 * (u * x) + Half(k);
    Gather(Pow2(k), u, x, Half(k));
  }

  lemma Gather(p: int, u: int, x: int, h: int)
    ensures (1 + 4 * (p * u)) * x + p * (2 * h + 1) == x + p * (2 * (2 * (u * x) + h) + 1)
  {
    assert (p * u) * x == p * (u * x);
  }

  /** m times 2^k steps move it by m times 2^k, give or take a multiple of 2^(k+1). */
  lemma {:induction false} Jumps(x: int, k: nat, m: nat) returns (w: int)
    ensures Orbit(x, Pow2(k) * m) == x + Pow2(k) * (m + 2 * w)
    decreases m
  {
    hide Pow2;
    var p := Pow2(k);
    if m == 0 {
      w := 0;
      assert p * m == 0 && p * (m + 2 * w) == 0;
    } else {
      hide Orbit;
      var w0 := Jumps(x, k, m - 1);
      OrbitSum(x, p * (m - 1), p);
      var w1 := Jump(Orbit(x, p * (m - 1)), k);
      w := w0 + w1;
      AddJumps(p, m, w0, w1);
    }
  }

  lemma AddJumps(p: int, m: int, w0: int, w1: int)
    ensures p * (m - 1) + p == p * m
    ensures p * (m - 1 + 2 * w0) + p * (2 * w1 + 1) == p * (m + 2 * (w0 + w1))
  {
    assert p * (m - 1 + 2 * w0) + p * (2 * w1 + 1) == p * ((m - 1 + 2 * w0) + (2 * w1 + 1));
  }

  // ---- divisibility ----

  ghost predicate Divides(d: nat, a: int) {
    d > 0 && a % d == 0
  }

  lemma Quotient(d: nat, a: int) returns (q: int)
    requires Divides(d, a)
    ensures a == d * q && (a >= 0 ==> q >= 0)
  {
    q := a / d;
  }

  lemma MultipleDivides(d: nat, q: int)
    requires d > 0
    ensures Divides(d, d * q)
  {
    Remainder(d, q, 0, d * q);
  }

  /** Twice p divides p * q exactly when q is even. */
  lemma EvenMultiple(p: nat, q: int)
    requires p > 0
    ensures Divides(2 * p, p * q) <==> q % 2 == 0
  {
    var h, r := q / 2, q % 2;
    assert p * q == (2 * p) * h + p * r by { assert p * (2 * h + r) == (2 * p) * h + p * r; }
    Remainder(2 * p, h, p * r, p * q);
  }

  lemma HalfDivides(p: nat, a: int)
    requires Divides(2 * p, a)
    ensures Divides(p, a)
  {
    var q := Quotient(2 * p, a);
    MultipleDivides(p, 2 * q);
    assert p * (2 * q) == (2 * p) * q;
  }

  lemma Shift(p: int, q: int, w: int)
    ensures p * q + p * (2 * w + 1) == p * (q + 2 * w + 1)
  {}

  // ---- the cycle ----

  /** Divisibility by 2 p of two multiples of p that have the same parity. */
  lemma SameParity(p: nat, m: int, w: int)
    requires p > 0
    ensures Divides(2 * p, p * m) <==> Divides(2 * p, p * (m + 2 * w))
  {
    hide Divides;
    EvenMultiple(p, m);
    EvenMultiple(p, m + 2 * w);
  }

  /** Modulo every power of two, an orbit closes exactly at the multiples of that power. */
  lemma {:induction false} Period(x: int, n: nat, k: nat)
    ensures Divides(Pow2(k), Orbit(x, n) - x) <==> Divides(Pow2(k), n)
    decreases k
  {
    hide Orbit;
    if k > 0 {
      Period(x, n, k - 1);
      PeriodStep(x, n, k - 1);
    }
  }

  lemma PeriodStep(x: int, n: nat, k: nat)
    requires Divides(Pow2(k), Orbit(x, n) - x) <==> Divides(Pow2(k), n)
    ensures Divides(2 * Pow2(k), Orbit(x, n) - x) <==> Divides(2 * Pow2(k), n)
  {
    hide *;
    var p := Pow2(k);
    if Divides(p, n) {
      var m: nat := Quotient(p, n);
      var w := Jumps(x, k, m);
      SameParity(p, m, w);
    } else {
      if Divides(2 * p, n) { HalfDivides(p, n); }
      if Divides(2 * p, Orbit(x, n) - x) { HalfDivides(p, Orbit(x, n) - x); }
    }
  }

  /** Modulo every power of two, an orbit comes to every residue within that many steps. */
  lemma {:induction false} Reach(x: int, y: int, k: nat) returns (n: nat)
    ensures n < Pow2(k) && Divides(Pow2(k), Orbit(x, n) - y)
    decreases k
  {
    hide Orbit;
    if k == 0 {
      n := 0;
    } else {
      n := Reach(x, y, k - 1);
      n := ReachStep(x, y, k - 1, n);
    }
  }

  lemma ReachStep(x: int, y: int, k: nat, m: nat) returns (n: nat)
    requires m < Pow2(k) && Divides(Pow2(k), Orbit(x, m) - y)
    ensures n < 2 * Pow2(k) && Divides(2 * Pow2(k), Orbit(x, n) - y)
  {
    hide *;
    var p := Pow2(k);
    n := m;
    var q := Quotient(p, Orbit(x, m) - y);
    EvenMultiple(p, q);
    if q % 2 != 0 {
      var w := Jump(Orbit(x, m), k);
      OrbitSum(x, m, p);
      n := m + p;
      Shift(p, q, w);
      EvenMultiple(p, q + 2 * w + 1);
    }
  }

  // ---- back to the 48 bits ----

  lemma EightMore(k: nat)
    ensures Pow2(k + 8) == 256 * Pow2(k)
  {
    assert Pow2(k + 2) == 4 * Pow2(k);
    assert Pow2(k + 4) == 4 * Pow2(k + 2);
    assert Pow2(k + 6) == 4 * Pow2(k + 4);
  }

  lemma ModulusIsPow2()
    ensures Pow2(48) == MODULUS
  {
    EightMore(0);
    EightMore(8);
    EightMore(16);
    EightMore(24);
    EightMore(32);
    EightMore(40);
  }

  lemma StepCongruent(a: nat, b: int)
    requires Divides(MODULUS, a - b)
    ensures Divides(MODULUS, Step(a) - (b * MULTIPLIER + INCREMENT))
  {
    var q := Quotient(MODULUS, a - b);
    var r := (a * MULTIPLIER + INCREMENT) / MODULUS;
    assert Step(a) == a * MULTIPLIER + INCREMENT - MODULUS * r;
    hide *;
    MultipleDivides(MODULUS, q * MULTIPLIER - r);
  }

  lemma {:induction false} StateOfOrbit(x: nat, n: nat)
    ensures Divides(MODULUS, State(x, n) - Orbit(x, n))
    decreases n
  {
    hide Divides;
    hide Step;
    if n > 0 {
      StateOfOrbit(x, n - 1);
      StepCongruent(State(x, n - 1), Orbit(x, n - 1));
    } else {
      MultipleDivides(MODULUS, 0);
    }
  }

  lemma {:induction false} StateBound(x: nat, n: nat)
    requires x < MODULUS
    ensures State(x, n) < MODULUS
  {}

  lemma {:induction false} StateSum(x: nat, a: nat, b: nat)
    ensures State(x, a + b) == State(State(x, a), b)
    decreases b
  {
    if b > 0 { StateSum(x, a, b - 1); }
  }

  lemma SameResidue(a: nat, b: nat, o: int)
    requires a < MODULUS && b < MODULUS && Divides(MODULUS, a - o)
    ensures a == b <==> Divides(MODULUS, o - b)
  {}

  /** From any state, the state comes back after n calls exactly when 2^48 divides n. */
  lemma FullPeriod(x: nat, n: nat)
    requires x < MODULUS
    ensures State(x, n) == x <==> n % MODULUS == 0
  {
    hide State;
    hide Orbit;
    hide Pow2;
    ModulusIsPow2();
    Period(x, n, 48);
    StateOfOrbit(x, n);
    StateBound(x, n);
    SameResidue(State(x, n), x, Orbit(x, n));
  }

  /** So two moments of a run are in the same state only a multiple of 2^48 calls apart. */
  lemma NoEarlyRepeat(x: nat, m: nat, n: nat)
    requires x < MODULUS && m <= n
    ensures State(x, m) == State(x, n) <==> (n - m) % MODULUS == 0
  {
    StateBound(x, m);
    StateSum(x, m, n - m);
    FullPeriod(State(x, m), n - m);
  }

  /** Any state leads to any other, in fewer than 2^48 calls: there is one cycle only. */
  lemma OneCycle(x: nat, y: nat) returns (n: nat)
    requires x < MODULUS && y < MODULUS
    ensures n < MODULUS && State(x, n) == y
  {
    hide State;
    hide Orbit;
    hide Pow2;
    ModulusIsPow2();
    n := Reach(x, y, 48);
    StateOfOrbit(x, n);
    StateBound(x, n);
    SameResidue(State(x, n), y, Orbit(x, n));
  }

  // ---- rand and srand ----

  /** What rand returns in a state: the macro's base is not parenthesised, so the one is added after the
      remainder is taken. */
  function Output(x: nat): (r: nat)
    ensures 1 <= r <= RAND_MAX
  {
    x / 4096 % RAND_MAX + 1
  }

  /** From any seed, rand returns every value from 1 to RAND_MAX, and never zero: the n-th call returns v. */
  lemma EveryOutput(x: nat, v: nat) returns (n: nat)
    requires x < MODULUS && 1 <= v <= RAND_MAX
    ensures 1 <= n <= MODULUS && Output(State(x, n)) == v
  {
    hide State;
    StateBound(x, 1);
    OutputOf(v);
    var m := OneCycle(State(x, 1), (v - 1) * 4096);
    StateSum(x, 1, m);
    n := 1 + m;
  }

  lemma OutputOf(v: nat)
    requires 1 <= v <= RAND_MAX
    ensures (v - 1) * 4096 < MODULUS && Output((v - 1) * 4096) == v
  {
    assert (v - 1) * 4096 / 4096 == v - 1;
  }

  class Generator {
    /** An unsigned 64-bit word. */
    var next: nat

    ghost predicate Valid()
      reads this
    {
      next < MODULUS
    }

    constructor ()
      ensures Valid() && next == 1
    {
      next := 1;
    }

    /** srand */
    method Srand(seed: nat)
      requires seed < 0x1_0000_0000
      modifies this
      ensures Valid() && next == seed
    {
      next := seed;
    }

    /** rand: the product is taken modulo 2^64, then masked to 48 bits. */
    method Rand() returns (r: nat)
      requires Valid()
      modifies this
      ensures Valid() && next == Step(old(next)) && r == Output(next)
      ensures next == (old(next) * 0x5DEECE66D + 0xB) % 0x1_0000_0000_0000 && r == next / 4096 % 2147483647 + 1
    {
      var word := (next * MULTIPLIER + INCREMENT) % 0x1_0000_0000_0000_0000;
      Masked(word);
      Narrowed(next * MULTIPLIER + INCREMENT);
      next := And(word, 0x1_0000_0000_0000 - 1);
      var result := next / 4096;
      r := result % RAND_MAX + 1;
    }
  }

  lemma Masked(word: nat)
    ensures And(word, MODULUS - 1) == word % MODULUS
  {
    ModulusIsPow2();
    AndMask(word, 48);
    StartBounds(word, 48);
    StartNest(word, 48, 48);
    AlignedMod(Start(word, 48), 48);
    var q := Start(word, 48) / MODULUS;
    Remainder(MODULUS, q, word - Start(word, 48), word);
  }

  lemma Narrowed(a: nat)
    ensures a % 0x1_0000_0000_0000_0000 % MODULUS == a % MODULUS
  {
    var q := a / 0x1_0000_0000_0000_0000;
    assert a == a % 0x1_0000_0000_0000_0000 + MODULUS * (65536 * q);
  }
}
