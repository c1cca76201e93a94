/** game/rand.c: the linear congruential generator, on 32-bit wrapping arithmetic, and the
    proof that it runs through all 2^32 states before it repeats. The multiplier is
    0x015A4E35, which is 1 modulo 4. */
module Rand {
  import opened Words

  type State = s: nat | s < 0x1_0000_0000

  /** seed = 0x015A4E35 * seed + 1, wrapping. */
  function Next(s: State): State { (0x015A_4E35 * s + 1) % 0x1_0000_0000 }

  /** The state n calls after s. */
  function Iterate(s: State, n: nat): State {
    if n == 0 then s else Next(Iterate(s, n - 1))
  }

  /** The static seed of rand.c. */
  class Generator {
    var seed: State

    constructor ()
      ensures seed == 0
    {
      seed := 0;
    }

    method Srand(s: State)
      modifies this
      ensures seed == s
    {
      seed := s;
    }

    /** Advances the state and returns its bits 16 to 30. */
    method Rand() returns (r: nat)
      modifies this
      ensures seed == (0x015A_4E35 * old(seed) + 1) % 0x1_0000_0000 == Iterate(old(seed), 1)
      ensures r == seed % 0x8000_0000 / 0x1_0000
    {
      assert Iterate(seed, 1) == Next(Iterate(seed, 0));
      seed := (0x015A_4E35 * seed + 1) % 0x1_0000_0000;
      r := seed / 0x1_0000 % 0x8000;
      BitsAgree(seed);
    }
  }

  /** Shifting and then masking is the same as masking and then shifting. */
  lemma BitsAgree(s: State)
    ensures s / 0x1_0000 % 0x8000 == s % 0x8000_0000 / 0x1_0000
  {
    var q, r := s / 0x8000_0000, s % 0x8000_0000;
    assert s / 0x1_0000 == 0x8000 * q + r / 0x1_0000;
  }

  // ---------------------------------------------------------------- closed form

  /** a^n */
  function Power(n: nat): nat { if n == 0 then 1 else 0x015A_4E35 * Power(n - 1) }

  /** 1 + a + ... + a^(n-1) */
  function Geometric(n: nat): nat { if n == 0 then 0 else 0x015A_4E35 * Geometric(n - 1) + 1 }

  lemma ModStep(x: nat, y: nat)
    requires x % 0x1_0000_0000 == y % 0x1_0000_0000
    ensures (0x015A_4E35 * x + 1) % 0x1_0000_0000 == (0x015A_4E35 * y + 1) % 0x1_0000_0000
  {
    ModShift(0x015A_4E35 * (x / 0x1_0000_0000), 0x015A_4E35 * (x % 0x1_0000_0000) + 1);
    ModShift(0x015A_4E35 * (y / 0x1_0000_0000), 0x015A_4E35 * (y % 0x1_0000_0000) + 1);
  }

  lemma ModShift(k: nat, z: nat)
    ensures (0x1_0000_0000 * k + z) % 0x1_0000_0000 == z % 0x1_0000_0000
  {
    var q, r := z / 0x1_0000_0000, z % 0x1_0000_0000;
    assert 0x1_0000_0000 * k + z == 0x1_0000_0000 * (k + q) + r;
  }

  /** a(ps + g) + 1 = (ap)s + (ag + 1) */
  lemma Distribute(p: nat, s: nat, g: nat)
    ensures 0x015A_4E35 * (p * s + g) + 1 == (0x015A_4E35 * p) * s + (0x015A_4E35 * g + 1)
  {
    var x := p * s;
    assert (0x015A_4E35 * p) * s == 0x015A_4E35 * x;
  }

  lemma ClosedStep(i: State, p: nat, s: nat, g: nat)
    requires i == (p * s + g) % 0x1_0000_0000
    ensures Next(i) == ((0x015A_4E35 * p) * s + (0x015A_4E35 * g + 1)) % 0x1_0000_0000
  {
    Distribute(p, s, g);
    ModStep(i, p * s + g);
  }

  lemma {:induction false} ClosedForm(s: State, n: nat)
    ensures Iterate(s, n) == (Power(n) * s + Geometric(n)) % 0x1_0000_0000
  {
    hide Next;
    if n == 0 {
    } else {
      ClosedForm(s, n - 1);
      ClosedStep(Iterate(s, n - 1), Power(n - 1), s, Geometric(n - 1));
    }
  }

  /** (a - 1)(1 + ... + a^(n-1)) = a^n - 1 */
  lemma {:induction false} GeometricPower(n: nat)
    ensures 0x015A_4E34 * Geometric(n) + 1 == Power(n)
  {
    if n == 0 {
    } else {
      GeometricPower(n - 1);
    }
  }

  // ---------------------------------------------------------------- powers of two in the sum

  /** 2^k divides n. */
  predicate Pow2Divides(k: nat, n: nat) { k == 0 || (n % 2 == 0 && Pow2Divides(k - 1, n / 2)) }

  lemma {:induction false} GeometricParity(n: nat)
    ensures Geometric(n) % 2 == n % 2
    ensures Power(n) % 4 == 1
  {
    if n == 0 {
    } else {
      GeometricParity(n - 1);
      PowerStep(Power(n - 1));
      GeometricStep(Geometric(n - 1));
    }
  }

  lemma PowerStep(p: nat)
    requires p % 4 == 1
    ensures 0x015A_4E35 * p % 4 == 1
  {
    var q := 0x015A_4E35 * (p / 4) + 0x56_938D;
    assert 0x015A_4E35 * p == 4 * q + 1;
  }

  lemma GeometricStep(h: nat)
    ensures (0x015A_4E35 * h + 1) % 2 == (h + 1) % 2
  {
    var g := 0xAD_271A * h;
    assert 0x015A_4E35 * h + 1 == 2 * g + (h + 1);
  }

  /** The sum of m + n powers, split after the first n. */
  lemma {:induction false} GeometricSplit(m: nat, n: nat)
    ensures Geometric(m + n) == Power(n) * Geometric(m) + Geometric(n)
  {
    if n == 0 {
    } else {
      GeometricSplit(m, n - 1);
      Distribute(Power(n - 1), Geometric(m), Geometric(n - 1));
    }
  }

  lemma OddTimesOdd(x: nat, y: nat)
    requires x % 2 == 1 && y % 2 == 1
    ensures x * y % 2 == 1
  {
    var i, j := x / 2, y / 2;
    assert x * y == 2 * (2 * (i * j) + i + j) + 1;
  }

  /** An odd factor does not matter to divisibility by a power of two. */
  lemma {:induction false} OddFactor(k: nat, x: nat, odd: nat)
    requires odd % 2 == 1
    ensures Pow2Divides(k, x * odd) <==> Pow2Divides(k, x)
  {
    if k == 0 {
    } else {
      if x % 2 == 0 {
        var h := x / 2;
        OddFactor(k - 1, h, odd);
        assert x * odd == 2 * (h * odd);
      } else {
        OddTimesOdd(x, odd);
      }
    }
  }

  /** 1 + ... + a^(2h-1) is twice 1 + ... + a^(h-1) times an odd number. */
  lemma GeometricDouble(h: nat) returns (odd: nat)
    ensures odd % 2 == 1 && Geometric(2 * h) == 2 * (Geometric(h) * odd)
  {
    hide Power, Geometric;
    assert 2 * h == h + h;
    GeometricSplit(h, h);
    GeometricParity(h);
    odd := (Power(h) + 1) / 2;
    DoubleAlgebra(Power(h), Geometric(h), odd);
  }

  lemma DoubleAlgebra(p: nat, g: nat, odd: nat)
    requires p + 1 == 2 * odd
    ensures p * g + g == 2 * (g * odd)
  {
    assert p * g + g == (p + 1) * g;
  }

  /** 2^k divides the sum of n powers exactly when it divides n. */
  lemma {:induction false} Valuation(k: nat, n: nat)
    ensures Pow2Divides(k, Geometric(n)) <==> Pow2Divides(k, n)
  {
    GeometricParity(n);
    if k == 0 || n % 2 == 1 {
    } else {
      var h := n / 2;
      var odd := GeometricDouble(h);
      OddFactor(k - 1, Geometric(h), odd);
      Valuation(k - 1, h);
    }
  }

  lemma HalfMod(n: nat, p: nat)
    requires p > 0
    ensures n % (2 * p) == 0 <==> n % 2 == 0 && n / 2 % p == 0
  {
    if n % (2 * p) == 0 {
      var q := n / (2 * p);
      var pq := p * q;
      assert n == 2 * pq;
      Multiple(p, q);
    }
    if n % 2 == 0 && n / 2 % p == 0 {
      var q := n / 2 / p;
      assert n / 2 == p * q;
      assert n == (2 * p) * q;
      Multiple(2 * p, q);
    }
  }

  lemma Multiple(p: nat, q: nat)
    requires p > 0
    ensures (p * q) % p == 0
  {
    var t, r := (p * q) / p, (p * q) % p;
    assert p * q == p * t + r;
    assert p * (q - t) == r;
    MulAtLeast(p, q - t);
  }

  lemma MulAtLeast(p: nat, d: int)
    ensures d >= 1 ==> p * d >= p
    ensures d <= -1 ==> p * d + p <= 0
  {
    if d >= 1 {
      assert p * d == p * (d - 1) + p;
    } else if d <= -1 {
      assert p * d == p * (d + 1) - p;
    }
  }

  lemma {:induction false} Pow2DividesMod(k: nat, n: nat)
    ensures Pow2Divides(k, n) <==> n % Pow2(k) == 0
  {
    if k == 0 {
    } else {
      HalfMod(n, Pow2(k - 1));
      Pow2DividesMod(k - 1, n / 2);
    }
  }

  // ---------------------------------------------------------------- the period

  /** After n calls the state has moved by 1 + ... + a^(n-1), times an odd number. */
  lemma Drift(s: State, n: nat) returns (odd: nat)
    ensures odd % 2 == 1 && Iterate(s, n) == (s + Geometric(n) * odd) % 0x1_0000_0000
  {
    hide Iterate, Power, Geometric;
    ClosedForm(s, n);
    GeometricPower(n);
    odd := 0x015A_4E34 * s + 1;
    DriftAlgebra(Geometric(n), s);
    assert Power(n) * s + Geometric(n) == s + Geometric(n) * odd;
  }

  lemma DriftAlgebra(g: nat, s: nat)
    ensures (0x015A_4E34 * g + 1) * s + g == s + g * (0x015A_4E34 * s + 1)
  {
    var gs := g * s;
    assert (0x015A_4E34 * g + 1) * s == 0x015A_4E34 * gs + s;
    assert g * (0x015A_4E34 * s + 1) == 0x015A_4E34 * gs + g;
  }

  lemma Returns(s: State, d: nat)
    ensures (s + d) % 0x1_0000_0000 == s <==> d % 0x1_0000_0000 == 0
  {
  }

  /** From any state, n calls lead back to it exactly when 2^32 divides n. */
  lemma FullPeriod(s: State, n: nat)
    ensures Iterate(s, n) == s <==> n % 0x1_0000_0000 == 0
  {
    var odd := Drift(s, n);
    Returns(s, Geometric(n) * odd);
    Pow2of32();
    Pow2DividesMod(32, Geometric(n) * odd);
    OddFactor(32, Geometric(n), odd);
    Valuation(32, n);
    Pow2DividesMod(32, n);
  }

  // ---------------------------------------------------------------- every state is visited

  lemma {:induction false} IterateSum(s: State, m: nat, n: nat)
    ensures Iterate(Iterate(s, m), n) == Iterate(s, m + n)
  {
    if n == 0 {
    } else {
      IterateSum(s, m, n - 1);
    }
  }

  /** The states of one period are pairwise different. */
  lemma Distinct(s: State, m: nat, n: nat)
    requires m < n < 0x1_0000_0000
    ensures Iterate(s, m) != Iterate(s, n)
  {
    hide Iterate;
    IterateSum(s, m, n - m);
    FullPeriod(Iterate(s, m), n - m);
  }

  /** The first n states from s on. */
  ghost function Visited(s: State, n: nat): set<nat> {
    if n == 0 then {} else Visited(s, n - 1) + {Iterate(s, n - 1)}
  }

  lemma {:induction false} VisitedAt(s: State, n: nat, m: nat)
    requires m < n
    ensures Iterate(s, m) in Visited(s, n)
  {
    if m == n - 1 {
    } else {
      VisitedAt(s, n - 1, m);
    }
  }

  lemma {:induction false} VisitTime(s: State, n: nat, x: nat) returns (m: nat)
    requires x in Visited(s, n)
    ensures m < n && Iterate(s, m) == x
  {
    m := n - 1;
    if x == Iterate(s, m) {
    } else {
      m := VisitTime(s, n - 1, x);
    }
  }

  lemma {:induction false} VisitedCount(s: State, n: nat)
    requires n <= 0x1_0000_0000
    ensures |Visited(s, n)| == n
  {
    hide Iterate;
    if n == 0 {
    } else {
      VisitedCount(s, n - 1);
      if Iterate(s, n - 1) in Visited(s, n - 1) {
        var m := VisitTime(s, n - 1, Iterate(s, n - 1));
        Distinct(s, m, n - 1);
      }
    }
  }

  lemma {:induction false} FullSet(t: set<nat>, n: nat, x: nat)
    requires |t| == n && (forall y :: y in t ==> y < n) && x < n
    ensures x in t
  {
    if n - 1 !in t {
      TooMany(t, n - 1);
    } else if x == n - 1 {
    } else {
      FullSet(t - {n - 1}, n - 1, x);
    }
  }

  lemma {:induction false} TooMany(t: set<nat>, n: nat)
    requires forall y :: y in t ==> y < n
    ensures |t| <= n
  {
    if n > 0 {
      TooMany(t - {n - 1}, n - 1);
    } else {
      assert t == {};
    }
  }

  /** Whatever the seed, every 32-bit state comes up within 2^32 calls. */
  lemma EveryStateVisited(s: State, x: State)
    ensures exists m: nat :: m < 0x1_0000_0000 && Iterate(s, m) == x
  {
    hide Iterate;
    var n: nat :| n == 0x1_0000_0000;
    VisitedCount(s, n);
    forall y | y in Visited(s, n) ensures y < n { var m := VisitTime(s, n, y); }
    FullSet(Visited(s, n), n, x);
    var m := VisitTime(s, n, x);
  }
}
