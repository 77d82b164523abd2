/**
 The full-period theorem for the linear congruential generators x' = (a*x + c) mod 2^k with
 a mod 4 == 1 and c odd (Knuth, The Art of Computer Programming vol. 2, section 3.2.1.2, Theorem A),
 and what it says about drawing from a range by taking the state modulo the range.
 */
module FullPeriod {
  import opened Arithmetic
  import opened Members

  function Pow2(k: nat): (p: nat)
    ensures p >= 1
  {
    if k == 0 then 1 else 2 * Pow2(k - 1)
  }

  /** The multiplier and the increment both generators of the program satisfy. */
  predicate Suitable(a: nat, c: nat) { a % 4 == 1 && c % 2 == 1 }

  function Next(a: nat, c: nat, m: nat, x: nat): nat
    requires m > 0
  {
    (a * x + c) % m
  }

  function State(a: nat, c: nat, m: nat, seed: nat, n: nat): nat
    requires m > 0
  {
    if n == 0 then seed else Next(a, c, m, State(a, c, m, seed, n - 1))
  }

  /** 1 + a + ... + a^(n-1) */
  ghost function Geometric(a: nat, n: nat): nat {
    if n == 0 then 0 else a * Geometric(a, n - 1) + 1
  }

  // ----- Divisibility by powers of two

  /** 2^k divides x. */
  ghost predicate Divides(k: nat, x: int) {
    k == 0 || (x % 2 == 0 && Divides(k - 1, x / 2))
  }

  lemma {:induction false} DividesIsMod(k: nat, x: int)
    ensures Divides(k, x) <==> x % Pow2(k) == 0
  {
    if k == 0 {
    } else {
      var m, q := Pow2(k - 1), x / Pow2(k);
      DivMod(x, 2 * m);
      DivMod(x / 2, m);
      DividesIsMod(k - 1, x / 2);
      HalfTimes(m, q, (2 * m) * q);
      if x % (2 * m) == 0 {
        DivModUnique(x / 2, m, q, 0);
      } else if x % 2 == 0 && (x / 2) % m == 0 {
        HalfTimes(m, x / 2 / m, (2 * m) * (x / 2 / m));
        DivModUnique(x, 2 * m, x / 2 / m, 0);
      }
    }
  }

  lemma {:induction false} OddFactor(k: nat, x: int, odd: int)
    requires odd % 2 == 1
    ensures Divides(k, x * odd) <==> Divides(k, x)
  {
    if k == 0 {
    } else {
      ProductParity(x, odd);
      if x % 2 == 0 {
        HalfTimes(x / 2, odd, x * odd);
        OddFactor(k - 1, x / 2, odd);
      }
    }
  }

  // ----- The states in closed form

  lemma GeometricAddAlgebra(a: int, g: int, h: int)
    ensures a * (g + h + (a - 1) * g * h) + 1 == (a * g + 1) + h + (a - 1) * (a * g + 1) * h
  {
  }

  lemma {:induction false} GeometricAdd(a: nat, i: nat, j: nat)
    ensures Geometric(a, i + j) == Geometric(a, i) + Geometric(a, j) + (a - 1) * Geometric(a, i) * Geometric(a, j)
  {
    if i > 0 {
      GeometricAdd(a, i - 1, j);
      GeometricAddAlgebra(a, Geometric(a, i - 1), Geometric(a, j));
    } else {
      assert (a - 1) * Geometric(a, i) == 0;
    }
  }

  lemma {:induction false} GeometricParity(a: nat, n: nat)
    requires a % 2 == 1
    ensures Geometric(a, n) % 2 == n % 2
  {
    if n == 0 {
    } else {
      GeometricParity(a, n - 1);
      var product := a * Geometric(a, n - 1);
      ProductParity(a, Geometric(a, n - 1));
      NextParity(product, n);
    }
  }

  lemma NextParity(product: int, n: nat)
    requires n > 0 && (product % 2 == 1 <==> (n - 1) % 2 == 1)
    ensures (product + 1) % 2 == n % 2
  {
  }

  lemma DoublingAlgebra(a: int, q: int, g: int)
    requires a == 4 * q + 1
    ensures g + g + (a - 1) * g * g == 2 * (g * (1 + 2 * (q * g)))
  {
  }

  lemma GeometricDouble(a: nat, n: nat) returns (odd: nat)
    requires a % 4 == 1 && n % 2 == 0
    ensures Geometric(a, n) == 2 * (Geometric(a, n / 2) * odd) && odd % 2 == 1
  {
    var q, g := a / 4, Geometric(a, n / 2);
    GeometricAdd(a, n / 2, n / 2);
    DoublingAlgebra(a, q, g);
    MulNonNegative(q, g);
    odd := 1 + 2 * (q * g);
  }

  /** The sum is divisible by 2^k exactly when its number of terms is. */
  lemma {:induction false} GeometricDivides(a: nat, k: nat, n: nat)
    requires a % 4 == 1
    ensures Divides(k, Geometric(a, n)) <==> Divides(k, n)
  {
    if k == 0 {
    } else {
      GeometricParity(a, n);
      if n % 2 == 0 {
        var odd := GeometricDouble(a, n);
        OddFactor(k - 1, Geometric(a, n / 2), odd);
        GeometricDivides(a, k - 1, n / 2);
      }
    }
  }

  lemma NextModAlgebra(a: int, c: int, m: int, q: int, r: int)
    ensures a * (q * m + r) + c == (a * r + c) + (a * q) * m
  {
  }

  lemma NextMod(a: nat, c: nat, m: nat, y: nat)
    requires m > 0
    ensures Next(a, c, m, y % m) == Next(a, c, m, y)
  {
    DivMod(y, m);
    NextModAlgebra(a, c, m, y / m, y % m);
    ModAddMultiple(a * (y % m) + c, m, a * (y / m));
  }

  lemma ClosedFormAlgebra(a: int, c: int, x: int, g: int, d: int)
    requires d == (a - 1) * x + c
    ensures a * (x + g * d) + c == x + (a * g + 1) * d
  {
  }

  /** The increment of the first step. */
  ghost function FirstIncrement(a: nat, c: nat, x: nat): (d: nat)
    requires a >= 1
  {
    MulNonNegative(a - 1, x);
    (a - 1) * x + c
  }

  lemma {:induction false} ClosedForm(a: nat, c: nat, m: nat, x: nat, n: nat)
    requires m > 0 && x < m && a >= 1
    ensures State(a, c, m, x, n) == (x + Geometric(a, n) * FirstIncrement(a, c, x)) % m
  {
    var d := FirstIncrement(a, c, x);
    if n > 0 {
      ClosedForm(a, c, m, x, n - 1);
      var g := Geometric(a, n - 1);
      MulNonNegative(g, d);
      NextMod(a, c, m, x + g * d);
      ClosedFormAlgebra(a, c, x, g, d);
    } else {
      DivModUnique(x, m, 0, x);
    }
  }

  lemma {:induction false} StateAdd(a: nat, c: nat, m: nat, x: nat, i: nat, j: nat)
    requires m > 0
    ensures State(a, c, m, x, i + j) == State(a, c, m, State(a, c, m, x, i), j)
  {
    if j == 0 {
    } else {
      StateAdd(a, c, m, x, i, j - 1);
    }
  }

  lemma StateInRange(a: nat, c: nat, m: nat, x: nat, n: nat)
    requires m > 0 && x < m
    ensures State(a, c, m, x, n) < m
  {
  }

  lemma FirstIncrementOdd(a: nat, c: nat, x: nat)
    requires Suitable(a, c)
    ensures FirstIncrement(a, c, x) % 2 == 1
  {
    ProductParity(a - 1, x);
    EvenPlusOdd((a - 1) * x, c);
  }

  lemma EvenPlusOdd(p: int, c: int)
    requires p % 2 != 1 && c % 2 == 1
    ensures (p + c) % 2 == 1
  {
  }

  /** After n steps the state is back where it was exactly when the modulus divides n. */
  lemma ReturnsAfter(a: nat, c: nat, k: nat, x: nat, n: nat)
    requires Suitable(a, c) && x < Pow2(k)
    ensures State(a, c, Pow2(k), x, n) == x <==> n % Pow2(k) == 0
  {
    hide State, Geometric, Divides, Pow2;
    var d, g := FirstIncrement(a, c, x), Geometric(a, n);
    ClosedForm(a, c, Pow2(k), x, n);
    ModReturns(x, Pow2(k), g * d);
    DividesIsMod(k, g * d);
    FirstIncrementOdd(a, c, x);
    OddFactor(k, g, d);
    GeometricDivides(a, k, n);
    DividesIsMod(k, n);
  }

  // ----- Full period

  /** Two states of one run are equal exactly when they are a whole number of periods apart. */
  lemma StatesEqual(a: nat, c: nat, k: nat, seed: nat, i: nat, j: nat)
    requires Suitable(a, c) && seed < Pow2(k) && i <= j
    ensures State(a, c, Pow2(k), seed, i) == State(a, c, Pow2(k), seed, j) <==> (j - i) % Pow2(k) == 0
  {
    StateInRange(a, c, Pow2(k), seed, i);
    StateAdd(a, c, Pow2(k), seed, i, j - i);
    ReturnsAfter(a, c, k, State(a, c, Pow2(k), seed, i), j - i);
  }

  /** Different steps of one period lead to different states. */
  lemma StatesDiffer(a: nat, c: nat, k: nat, seed: nat, i: nat, j: nat)
    requires Suitable(a, c) && seed < Pow2(k)
    requires i != j && i - j < Pow2(k) && j - i < Pow2(k)
    ensures State(a, c, Pow2(k), seed, i) != State(a, c, Pow2(k), seed, j)
  {
    var lo, hi := if i < j then i else j, if i < j then j else i;
    StatesEqual(a, c, k, seed, lo, hi);
    DivModUnique(hi - lo, Pow2(k), 0, hi - lo);
  }

  /** The states after the steps in `steps`. */
  ghost function Image(a: nat, c: nat, m: nat, seed: nat, steps: set<nat>): set<nat>
    requires m > 0
  {
    set i | i in steps :: State(a, c, m, seed, i)
  }

  lemma {:induction false} ImageSize(a: nat, c: nat, k: nat, seed: nat, steps: set<nat>)
    requires Suitable(a, c) && seed < Pow2(k)
    requires forall i, j :: i in steps && j in steps ==> i < j + Pow2(k)
    ensures |Image(a, c, Pow2(k), seed, steps)| == |steps|
  {
    if steps == {} {
    } else {
      var i :| i in steps;
      var rest, x := steps - {i}, State(a, c, Pow2(k), seed, i);
      ImageSize(a, c, k, seed, rest);
      forall j | j in rest ensures State(a, c, Pow2(k), seed, j) != x {
        StatesDiffer(a, c, k, seed, i, j);
      }
      assert Image(a, c, Pow2(k), seed, steps) == Image(a, c, Pow2(k), seed, rest) + {x};
    }
  }

  /** The `m` steps after step `from`. */
  ghost function Period(from: nat, m: nat): (steps: set<nat>)
    ensures |steps| == m && forall i: nat :: i in steps <==> from < i <= from + m
  {
    if m == 0 then {} else Period(from, m - 1) + {from + m}
  }

  /** Any 2^k steps in a row visit every state. */
  lemma VisitsAll(a: nat, c: nat, k: nat, seed: nat, from: nat)
    requires Suitable(a, c) && seed < Pow2(k)
    ensures Image(a, c, Pow2(k), seed, Period(from, Pow2(k))) == Below(Pow2(k))
  {
    var m := Pow2(k);
    ImageSize(a, c, k, seed, Period(from, m));
    forall i: nat ensures State(a, c, m, seed, i) < m { StateInRange(a, c, m, seed, i); }
    SubsetSize(Image(a, c, m, seed, Period(from, m)), Below(m));
  }

  /** `i` is the only one of the `m` steps after `from` that leads to `target`. */
  ghost predicate OnlyStep(a: nat, c: nat, m: nat, seed: nat, from: nat, target: nat, i: nat)
    requires m > 0
  {
    from < i <= from + m && State(a, c, m, seed, i) == target &&
    forall j :: from < j <= from + m && State(a, c, m, seed, j) == target ==> j == i
  }

  /** Full period: every state comes up at one and only one of any 2^k consecutive steps. */
  lemma ExactlyOncePerPeriod(a: nat, c: nat, k: nat, seed: nat, from: nat, target: nat)
    requires Suitable(a, c) && seed < Pow2(k) && target < Pow2(k)
    ensures exists i :: OnlyStep(a, c, Pow2(k), seed, from, target, i)
  {
    VisitsAll(a, c, k, seed, from);
    assert target in Image(a, c, Pow2(k), seed, Period(from, Pow2(k)));
    var i :| i in Period(from, Pow2(k)) && State(a, c, Pow2(k), seed, i) == target;
    forall j | from < j <= from + Pow2(k) && State(a, c, Pow2(k), seed, j) == target ensures j == i {
      if i != j { StatesDiffer(a, c, k, seed, i, j); }
    }
    assert OnlyStep(a, c, Pow2(k), seed, from, target, i);
  }

  // ----- No other multiplier and increment will do

  lemma ModOfMod(x: nat, k: nat)
    requires k >= 2
    ensures x % Pow2(k) % 4 == x % 4
  {
    var h := Pow2(k - 2);
    assert Pow2(k) == 4 * h;
    DivMod(x, 4 * h);
    FourTimes(x / (4 * h), h);
    ModAddMultiple(x % (4 * h), 4, (x / (4 * h)) * h);
  }

  lemma FourTimes(q: int, h: int)
    ensures q * (4 * h) == (q * h) * 4
  {
  }

  lemma ThriceMod4(a: nat, x: nat)
    requires a % 4 == 3
    ensures (a * x) % 4 == (3 * (x % 4)) % 4
  {
    var q, y, r := a / 4, x / 4, x % 4;
    ThriceAlgebra(q, y, r);
    assert a * x == (4 * q + 3) * (4 * y + r);
    ModAddMultiple(3 * r, 4, 4 * (q * y) + q * r + 3 * y);
  }

  lemma ThriceAlgebra(q: int, y: int, r: int)
    ensures (4 * q + 3) * (4 * y + r) == 3 * r + (4 * (q * y) + q * r + 3 * y) * 4
  {
  }

  /** A state that never comes up after 0 when the constants are not suitable. */
  function Avoided(a: nat, c: nat): nat {
    if c % 2 == 0 then 1 else if a % 2 == 0 then 0 else 2
  }

  /** What the states after 0 look like modulo 2 or modulo 4; all arguments but `n` are remainders modulo 4. */
  predicate Residue(a: nat, c: nat, n: nat, r: nat) {
    if c % 2 == 0 then r % 2 == 0
    else if a % 2 == 0 then n > 0 ==> r % 2 == 1
    else r == if n % 2 == 0 then 0 else c
  }

  /** One step modulo 4. */
  lemma ResidueStep(a: nat, c: nat, n: nat, r: nat, product: nat, next: nat)
    requires a < 4 && c < 4 && r < 4 && product < 4 && !Suitable(a, c) && Residue(a, c, n, r)
    requires next == if product + c < 4 then product + c else product + c - 4
    requires product % 2 == 1 <==> a % 2 == 1 && r % 2 == 1
    requires a == 3 ==> product == if r == 0 then 0 else 4 - r
    ensures Residue(a, c, n + 1, next)
  {
  }

  lemma SumMod4(p: nat, c: nat)
    ensures (p + c) % 4 == if p % 4 + c % 4 < 4 then p % 4 + c % 4 else p % 4 + c % 4 - 4
  {
    var q, r := p / 4 + c / 4, p % 4 + c % 4;
    if r < 4 { DivModUnique(p + c, 4, q, r); } else { DivModUnique(p + c, 4, q + 1, r - 4); }
  }

  lemma Parity(x: nat)
    ensures x % 2 == x % 4 % 2
  {
    ModAddMultiple(x % 4, 2, 2 * (x / 4));
  }

  lemma SuitableMod4(a: nat, c: nat)
    ensures Suitable(a % 4, c % 4) <==> Suitable(a, c)
  {
    Parity(c);
  }

  lemma NextMod4(a: nat, c: nat, k: nat, x: nat)
    requires k >= 2
    ensures a * x >= 0 && Next(a, c, Pow2(k), x) % 4 == (a * x + c) % 4
  {
    MulNonNegative(a, x);
    ModOfMod(a * x + c, k);
  }

  lemma ProductMod4(a: nat, x: nat)
    requires a * x >= 0
    ensures (a * x) % 4 % 2 == 1 <==> a % 4 % 2 == 1 && x % 4 % 2 == 1
    ensures a % 4 == 3 ==> (a * x) % 4 == if x % 4 == 0 then 0 else 4 - x % 4
  {
    ProductParity(a, x);
    Parity(a);
    Parity(x);
    Parity(a * x);
    if a % 4 == 3 { ThriceMod4(a, x); }
  }

  lemma {:induction false} ResidueKept(a: nat, c: nat, k: nat, n: nat)
    requires k >= 2 && !Suitable(a, c)
    ensures Residue(a % 4, c % 4, n, State(a, c, Pow2(k), 0, n) % 4)
  {
    if n == 0 {
    } else {
      hide Residue, Next, Suitable, Pow2;
      var x := State(a, c, Pow2(k), 0, n - 1);
      ResidueKept(a, c, k, n - 1);
      NextMod4(a, c, k, x);
      ProductMod4(a, x);
      SumMod4(a * x, c);
      SuitableMod4(a, c);
      ResidueStep(a % 4, c % 4, n - 1, x % 4, (a * x) % 4, State(a, c, Pow2(k), 0, n) % 4);
    }
  }

  /** Exactly one of the `m` steps after the start leads from 0 to `target`. */
  ghost predicate ReachedOnce(a: nat, c: nat, m: nat, target: nat)
    requires m > 0
  {
    exists i :: OnlyStep(a, c, m, 0, 0, target, i)
  }

  lemma AvoidedResidue(a: nat, c: nat, n: nat, x: nat)
    requires !Suitable(a, c) && n > 0 && Residue(a % 4, c % 4, n, x % 4)
    ensures x != Avoided(a, c)
  {
    Parity(a);
    Parity(c);
  }

  lemma AvoidedNotReached(a: nat, c: nat, k: nat)
    requires k >= 2 && !Suitable(a, c)
    ensures Avoided(a, c) < Pow2(k) && !ReachedOnce(a, c, Pow2(k), Avoided(a, c))
  {
    assert Pow2(k) == 4 * Pow2(k - 2);
    forall i: nat | i > 0 ensures State(a, c, Pow2(k), 0, i) != Avoided(a, c) {
      hide State, Pow2;
      ResidueKept(a, c, k, i);
      AvoidedResidue(a, c, i, State(a, c, Pow2(k), 0, i));
    }
  }

  /** For k >= 2 the constants that give the full period are exactly the suitable ones. */
  lemma FullPeriodExactly(a: nat, c: nat, k: nat)
    requires k >= 2
    ensures Suitable(a, c) <==> forall target: nat :: target < Pow2(k) ==> ReachedOnce(a, c, Pow2(k), target)
  {
    if Suitable(a, c) {
      forall target: nat | target < Pow2(k) ensures ReachedOnce(a, c, Pow2(k), target) {
        ExactlyOncePerPeriod(a, c, k, 0, 0, target);
      }
    } else {
      AvoidedNotReached(a, c, k);
    }
  }

  // ----- Drawing from a range of r values by taking the state modulo r

  /** The steps of a period at which the offset `v` is drawn. */
  ghost function DrawSteps(a: nat, c: nat, m: nat, seed: nat, from: nat, r: nat, v: nat): set<nat>
    requires m > 0 && r > 0
  {
    set i | i in Period(from, m) && State(a, c, m, seed, i) % r == v
  }

  ghost function Residues(m: nat, r: nat, v: nat): set<nat>
    requires r > 0
  {
    set s | s in Below(m) && s % r == v
  }

  lemma ResiduesStep(m: nat, r: nat, v: nat)
    requires r > 0
    ensures |Residues(m + 1, r, v)| == |Residues(m, r, v)| + if m % r == v then 1 else 0
  {
    if m % r == v {
      assert Residues(m + 1, r, v) == Residues(m, r, v) + {m};
    } else {
      assert Residues(m + 1, r, v) == Residues(m, r, v);
    }
  }

  /** How many of the numbers below `m` leave remainder `v`. */
  function Share(m: nat, r: nat, v: nat): nat
    requires r > 0
  {
    m / r + if v < m % r then 1 else 0
  }

  lemma ShareStep(m: nat, r: nat, v: nat)
    requires v < r
    ensures Share(m + 1, r, v) == Share(m, r, v) + if m % r == v then 1 else 0
  {
    DivMod(m, r);
    DivModSucc(m, r);
  }

  lemma NoResidues(r: nat, v: nat)
    requires v < r
    ensures |Residues(0, r, v)| == 0 == Share(0, r, v)
  {
    assert Residues(0, r, v) == {};
    DivModUnique(0, r, 0, 0);
  }

  lemma {:induction false} ResiduesSize(m: nat, r: nat, v: nat)
    requires v < r
    ensures |Residues(m, r, v)| == Share(m, r, v)
  {
    hide *;
    if m == 0 {
      NoResidues(r, v);
    } else {
      ResiduesSize(m - 1, r, v);
      ResiduesStep(m - 1, r, v);
      ShareStep(m - 1, r, v);
    }
  }

  /**
   Even draw: over any 2^k consecutive draws, offset v comes up 2^k / r times, once more when
   v < 2^k mod r.
   */
  lemma EvenDraw(a: nat, c: nat, k: nat, seed: nat, from: nat, r: nat, v: nat)
    requires Suitable(a, c) && seed < Pow2(k) && v < r
    ensures |DrawSteps(a, c, Pow2(k), seed, from, r, v)| ==
            Pow2(k) / r + (if v < Pow2(k) % r then 1 else 0)
  {
    var m := Pow2(k);
    var steps := DrawSteps(a, c, m, seed, from, r, v);
    ImageSize(a, c, k, seed, steps);
    VisitsAll(a, c, k, seed, from);
    assert Image(a, c, m, seed, steps) == Residues(m, r, v) by {
      forall s | s in Residues(m, r, v) ensures s in Image(a, c, m, seed, steps) {
        assert s in Image(a, c, m, seed, Period(from, m));
        var i :| i in Period(from, m) && State(a, c, m, seed, i) == s;
        assert i in steps;
      }
      forall s | s in Image(a, c, m, seed, steps) ensures s in Residues(m, r, v) {
        var i :| i in steps && State(a, c, m, seed, i) == s;
        StateInRange(a, c, m, seed, i);
      }
    }
    ResiduesSize(m, r, v);
  }
}
