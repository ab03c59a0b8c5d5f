/**
  Mixed-radix node numbering of a k-ary n-cube.

  A node number is read as n digits in base k, dimension 0 the least
  significant. The coordinate of `node` along dimension `d` is
  `(node / k^d) % k`. `Pow` stands for the integer power `powi` that the
  torus code takes from its utility library.

  `Compose(k, d, lo, c, hi)` puts a node number back together from the digits
  below dimension `d` (`lo`), the digit at `d` (`c`) and the digits above it
  (`hi`); the neighbour functions of the torus all replace the digit at one
  dimension, so the lemmas below are stated about `Compose`.

  The arithmetic facts are first proved about plain integers (the `Int`
  lemmas) and then instantiated with `Pow(k, d)`, which keeps the solver's
  nonlinear reasoning small.
*/
module MixedRadix {

  /** k to the power d (powi in the source). */
  function Pow(k: nat, d: nat): (r: nat)
    ensures k >= 1 ==> r >= 1
  {
    if d == 0 then 1 else k * Pow(k, d - 1)
  }

  /** The coordinate of `node` along dimension `d`. */
  function Coord(k: nat, node: int, d: nat): (c: int)
    requires k >= 1
    ensures 0 <= c < k
  {
    (node / Pow(k, d)) % k
  }

  /** The node number whose digits below `d` are `lo`, whose digit at `d` is `c`
      and whose digits above `d` are `hi`. */
  function Compose(k: nat, d: nat, lo: nat, c: nat, hi: nat): nat
  {
    lo + Pow(k, d) * (c + k * hi)
  }

  // ---------------------------------------------------------------------------
  // Facts about plain integers

  lemma MulMonotone(b: nat, u: int, v: int)
    requires u <= v
    ensures b * u <= b * v
  {
  }

  lemma MulSwap(a: int, b: int, c: int)
    ensures a * (b * c) == b * (a * c)
  {
  }

  lemma MulAtLeast(b: int, m: int)
    requires b > 0 && m >= 1
    ensures b * m >= b
  {
  }

  lemma ModBelow(x: int, p: int)
    requires p > 0
    ensures 0 <= x % p < p
  {
  }

  lemma DivMod(x: int, p: int)
    requires p > 0
    ensures x == p * (x / p) + x % p
  {
  }

  lemma DivNonNegative(x: int, p: int)
    requires x >= 0 && p > 0
    ensures x / p >= 0
  {
  }

  /** Division is determined by quotient and remainder. */
  lemma DivModUnique(x: int, b: int, q: int, r: int)
    requires b > 0 && 0 <= r < b && x == b * q + r
    ensures x / b == q && x % b == r
  {
    var q', r' := x / b, x % b;
    assert b * (q - q') == r' - r;
    if q' < q {
      MulAtLeast(b, q - q');
    } else if q' > q {
      MulAtLeast(b, q' - q);
    }
  }

  /** Adding a multiple of the divisor shifts the quotient and keeps the remainder. */
  lemma DivAddMultiple(a: int, b: int, m: int)
    requires b > 0
    ensures (a + b * m) / b == a / b + m
    ensures (a + b * m) % b == a % b
  {
    DivModUnique(a + b * m, b, a / b + m, a % b);
  }

  /** a * (b * q + r) + s regrouped. */
  lemma Regroup(a: int, b: int, q: int, r: int, s: int)
    ensures a * (b * q + r) + s == (a * b) * q + (a * r + s)
  {
    assert a * (b * q + r) == a * (b * q) + a * r;
  }

  /** Dividing by a product is dividing twice. */
  lemma DivDiv(x: nat, a: nat, b: nat)
    requires a > 0 && b > 0
    ensures x / (a * b) == (x / a) / b
  {
    var q1, r1 := x / a, x % a;
    var q2, r2 := q1 / b, q1 % b;
    assert x == a * q1 + r1;
    assert q1 == b * q2 + r2;
    assert x == a * (b * q2 + r2) + r1 by {
      MulCongruence(r1, a, q1, b * q2 + r2);
    }
    assert a * r2 + r1 < a * b by {
      MulMonotone(a, r2, b - 1);
    }
    Regroup(a, b, q2, r2, r1);
    DivModUnique(x, a * b, q2, a * r2 + r1);
  }

  lemma MulCongruence(a: int, p: int, q: int, q': int)
    requires q == q'
    ensures a + p * q == a + p * q'
  {
  }

  /** x split at a place value p into the part below p, one digit base k, and
      the rest. */
  lemma IntSplit(x: nat, p: nat, k: nat)
    requires p > 0 && k > 0
    ensures x == x % p + p * ((x / p) % k + k * (x / (p * k)))
  {
    var q := x / p;
    assert x == x % p + p * q;
    assert q == q % k + k * (q / k);
    DivDiv(x, p, k);
    MulCongruence(x % p, p, q, q % k + k * (x / (p * k)));
  }

  /** The parts of lo + p * (c + k * hi) are recovered exactly. */
  lemma IntParts(lo: nat, p: nat, c: nat, k: nat, hi: nat)
    requires lo < p && c < k
    ensures (lo + p * (c + k * hi)) % p == lo
    ensures (lo + p * (c + k * hi)) / p == c + k * hi
    ensures ((lo + p * (c + k * hi)) / p) % k == c
    ensures (lo + p * (c + k * hi)) / (p * k) == hi
  {
    var x := lo + p * (c + k * hi);
    DivModUnique(x, p, c + k * hi, lo);
    DivModUnique(c + k * hi, k, hi, c);
    DivDiv(x, p, k);
  }

  /** lo + p * (c + k * hi) expanded. */
  lemma IntExpand(lo: int, p: int, c: int, k: int, hi: int)
    ensures lo + p * (c + k * hi) == lo + p * c + (p * k) * hi
  {
    assert p * (c + k * hi) == p * c + p * (k * hi);
  }

  /** Changing the digit from c to c' moves the number by (c' - c) * p. */
  lemma IntShift(lo: int, p: int, c: int, c': int, k: int, hi: int)
    ensures lo + p * (c' + k * hi) == lo + p * (c + k * hi) + (c' - c) * p
  {
    IntExpand(lo, p, c, k, hi);
    IntExpand(lo, p, c', k, hi);
    assert p * c' == p * c + (c' - c) * p;
  }

  /** The digit at place value pe ignores everything added at place value
      pe * k * r or above. */
  lemma IntLowDigit(lo: nat, pe: nat, k: nat, r: nat, c: nat, hi: nat)
    requires pe > 0 && k > 0
    ensures ((lo + ((pe * k) * r) * (c + k * hi)) / pe) % k == (lo / pe) % k
  {
    var t := r * (c + k * hi);
    assert ((pe * k) * r) * (c + k * hi) == pe * (k * t);
    DivAddMultiple(lo, pe, k * t);
    DivAddMultiple(lo / pe, k, t);
  }

  /** Dividing lo + p * (c + k * hi) by p * k * r leaves hi / r. */
  lemma IntHighDiv(lo: nat, p: nat, c: nat, k: nat, hi: nat, r: nat)
    requires lo < p && c < k && r > 0
    ensures (lo + p * (c + k * hi)) / ((p * k) * r) == hi / r
  {
    IntParts(lo, p, c, k, hi);
    DivDiv(lo + p * (c + k * hi), p * k, r);
  }

  /** lo + p * (c + k * hi) lies below p * k * r exactly when hi lies below r. */
  lemma IntBound(lo: nat, p: nat, c: nat, k: nat, hi: nat, r: nat)
    requires lo < p && c < k
    ensures lo + p * (c + k * hi) < (p * k) * r <==> hi < r
  {
    IntExpand(lo, p, c, k, hi);
    assert lo + p * c < p * k by {
      MulMonotone(p, c, k - 1);
    }
    if hi < r {
      MulMonotone(p * k, hi, r - 1);
    } else {
      MulMonotone(p * k, r, hi);
    }
  }

  // ---------------------------------------------------------------------------
  // Powers

  lemma {:induction false} PowAdd(k: nat, a: nat, b: nat)
    ensures Pow(k, a + b) == Pow(k, a) * Pow(k, b)
  {
    if b > 0 {
      var x, y := Pow(k, a), Pow(k, b - 1);
      assert Pow(k, a + b) == k * Pow(k, a + (b - 1));
      PowAdd(k, a, b - 1);
      assert Pow(k, b) == k * y;
      assert k * (x * y) == x * (k * y) by { MulSwap(k, x, y); }
    }
  }

  /** k^e splits as k^(d + 1) times k^(e - d - 1) when d < e. */
  lemma PowSplit(k: nat, d: nat, e: nat)
    requires d < e
    ensures Pow(k, e) == (Pow(k, d) * k) * Pow(k, e - d - 1)
  {
    PowAdd(k, d + 1, e - d - 1);
    assert Pow(k, d + 1) == Pow(k, d) * k;
  }

  // ---------------------------------------------------------------------------
  // Taking a node number apart at one dimension and putting it back together

  /** The parts of `Compose(k, d, lo, c, hi)` are recovered exactly. */
  lemma ComposeParts(k: nat, d: nat, lo: nat, c: nat, hi: nat)
    requires k >= 1 && lo < Pow(k, d) && c < k
    ensures Compose(k, d, lo, c, hi) % Pow(k, d) == lo
    ensures Coord(k, Compose(k, d, lo, c, hi), d) == c
    ensures Compose(k, d, lo, c, hi) / (Pow(k, d) * k) == hi
  {
    IntParts(lo, Pow(k, d), c, k, hi);
  }

  /** Every node number is the composition of its own parts. */
  lemma Decompose(k: nat, d: nat, x: nat)
    requires k >= 1
    ensures x == Compose(k, d, x % Pow(k, d), Coord(k, x, d), x / (Pow(k, d) * k))
  {
    IntSplit(x, Pow(k, d), k);
  }

  /** Coordinates below `d` come from `lo` alone. */
  lemma ComposeLowCoord(k: nat, d: nat, lo: nat, c: nat, hi: nat, e: nat)
    requires k >= 1 && e < d
    ensures Coord(k, Compose(k, d, lo, c, hi), e) == Coord(k, lo, e)
  {
    PowSplit(k, e, d);
    IntLowDigit(lo, Pow(k, e), k, Pow(k, d - e - 1), c, hi);
  }

  /** Everything from dimension `e > d` upwards comes from `hi` alone. */
  lemma ComposeHighDiv(k: nat, d: nat, lo: nat, c: nat, hi: nat, e: nat)
    requires k >= 1 && lo < Pow(k, d) && c < k && d < e
    ensures Compose(k, d, lo, c, hi) / Pow(k, e) == hi / Pow(k, e - d - 1)
  {
    PowSplit(k, d, e);
    IntHighDiv(lo, Pow(k, d), c, k, hi, Pow(k, e - d - 1));
  }

  /** Coordinates other than `d` do not depend on the digit at `d`. */
  lemma ComposeOtherCoord(k: nat, d: nat, lo: nat, c: nat, c': nat, hi: nat, e: nat)
    requires k >= 1 && lo < Pow(k, d) && c < k && c' < k && e != d
    ensures Coord(k, Compose(k, d, lo, c, hi), e) == Coord(k, Compose(k, d, lo, c', hi), e)
  {
    if e < d {
      ComposeLowCoord(k, d, lo, c, hi, e);
      ComposeLowCoord(k, d, lo, c', hi, e);
    } else {
      ComposeHighDiv(k, d, lo, c, hi, e);
      ComposeHighDiv(k, d, lo, c', hi, e);
    }
  }

  /** A composed number lies below k^m exactly when its high part lies below
      k^(m - d - 1). */
  lemma ComposeBound(k: nat, d: nat, lo: nat, c: nat, hi: nat, m: nat)
    requires k >= 1 && lo < Pow(k, d) && c < k && d < m
    ensures Compose(k, d, lo, c, hi) < Pow(k, m) <==> hi < Pow(k, m - d - 1)
  {
    PowSplit(k, d, m);
    IntBound(lo, Pow(k, d), c, k, hi, Pow(k, m - d - 1));
  }

  /** Below k^(d + 1) nothing lies above the digit at `d`. */
  lemma DecomposeTop(k: nat, d: nat, x: nat)
    requires k >= 1 && x < Pow(k, d + 1)
    ensures x == Compose(k, d, x % Pow(k, d), Coord(k, x, d), 0)
  {
    var p := Pow(k, d);
    assert Pow(k, d + 1) == p * k;
    assert x / (p * k) == 0 by {
      DivModUnique(x, p * k, 0, x);
    }
    Decompose(k, d, x);
  }

  /** A node below k^m is fixed by its m coordinates. */
  lemma {:induction false} CoordsDetermineNode(k: nat, m: nat, x: nat, y: nat)
    requires k >= 1 && x < Pow(k, m) && y < Pow(k, m)
    requires forall e :: 0 <= e < m ==> Coord(k, x, e) == Coord(k, y, e)
    ensures x == y
  {
    if m > 0 {
      var d := m - 1;
      var lx, ly := x % Pow(k, d), y % Pow(k, d);
      DecomposeTop(k, d, x);
      DecomposeTop(k, d, y);
      forall e | 0 <= e < d
        ensures Coord(k, lx, e) == Coord(k, ly, e)
      {
        ComposeLowCoord(k, d, lx, Coord(k, x, d), 0, e);
        ComposeLowCoord(k, d, ly, Coord(k, y, d), 0, e);
      }
      CoordsDetermineNode(k, d, lx, ly);
    }
  }
  /** Replacing the digit at `d < m` of a node below k^m by any digit below k
      gives a node below k^m. */
  lemma ReplaceInRange(k: nat, m: nat, x: nat, d: nat, c': nat)
    requires k >= 1 && x < Pow(k, m) && d < m && c' < k
    ensures Compose(k, d, x % Pow(k, d), c', x / (Pow(k, d) * k)) < Pow(k, m)
  {
    var p := Pow(k, d);
    assert p * k >= 1 by { MulAtLeast(p, k); }
    var lo, c, hi := x % p, Coord(k, x, d), x / (p * k);
    assert lo < p by { ModBelow(x, p); }
    assert hi >= 0 by { DivNonNegative(x, p * k); }
    assert hi < Pow(k, m - d - 1) by {
      Decompose(k, d, x);
      ComposeBound(k, d, lo, c, hi, m);
    }
    ComposeBound(k, d, lo, c', hi, m);
  }

  /** Replacing the digit at `d` leaves every other coordinate as it was. */
  lemma ReplaceKeepsOthers(k: nat, x: nat, d: nat, c': nat)
    requires k >= 1 && c' < k
    ensures forall e :: e != d ==>
      Coord(k, Compose(k, d, x % Pow(k, d), c', x / (Pow(k, d) * k)), e) == Coord(k, x, e)
  {
    var p := Pow(k, d);
    ModBelow(x, p);
    var lo, c, hi := x % p, Coord(k, x, d), x / (p * k);
    assert x == Compose(k, d, lo, c, hi) by {
      Decompose(k, d, x);
    }
    forall e | e != d
      ensures Coord(k, Compose(k, d, lo, c', hi), e) == Coord(k, x, e)
    {
      ComposeOtherCoord(k, d, lo, c', c, hi, e);
    }
  }
}
