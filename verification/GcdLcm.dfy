/** Greatest common divisor and least common multiple of 64-bit numbers, from x264cli.h. */
module GcdLcm {
  import opened Arithmetic

  const TWO_63 := 0x8000_0000_0000_0000
  const TWO_64 := 0x1_0000_0000_0000_0000

  function Times(a: int, b: int): (p: int) {
    a * b
  }

  /** `n` is a multiple of `d`. */
  ghost predicate Divides(d: int, n: int) {
    exists k :: Times(d, k) == n
  }

  /** A common divisor that every common divisor divides. */
  ghost predicate IsGcd(g: int, a: int, b: int) {
    && g > 0 && Divides(g, a) && Divides(g, b)
    && forall d :: Divides(d, a) && Divides(d, b) ==> Divides(d, g)
  }

  /** A positive common multiple that divides every common multiple. */
  ghost predicate IsLcm(m: int, a: int, b: int) {
    && m > 0 && Divides(a, m) && Divides(b, m)
    && forall n :: Divides(a, n) && Divides(b, n) ==> Divides(m, n)
  }

  /** Euclid's algorithm on unbounded numbers. */
  function Euclid(a: nat, b: nat): (g: nat)
    requires b > 0
    ensures 0 < g <= b
    decreases b
  {
    if a % b == 0 then b else Euclid(b, a % b)
  }

  lemma DividesCombination(d: int, x: int, y: int, k: int)
    requires Divides(d, x) && Divides(d, y)
    ensures Divides(d, x + k * y)
  {
    var i :| Times(d, i) == x;
    var j :| Times(d, j) == y;
    Distribute(d, i, j, k);
    assert Times(d, i + k * j) == x + k * y;
  }

  lemma Distribute(d: int, i: int, j: int, k: int)
    ensures d * (i + k * j) == d * i + k * (d * j)
  {
    assert d * (k * j) == k * (d * j);
  }

  lemma {:induction false} EuclidDivides(a: nat, b: nat)
    requires b > 0
    ensures Divides(Euclid(a, b), a) && Divides(Euclid(a, b), b)
    decreases b
  {
    var q, c := a / b, a % b;
    if c == 0 {
      assert Times(b, q) == a && Times(b, 1) == b;
    } else {
      EuclidDivides(b, c);
      DividesCombination(Euclid(a, b), c, b, q);
      assert a == c + q * b;
    }
  }

  /** Bezout's identity: the result is a combination of the two numbers. */
  lemma {:induction false} Bezout(a: nat, b: nat) returns (u: int, v: int)
    requires b > 0
    ensures u * a + v * b == Euclid(a, b)
    decreases b
  {
    var q, c := a / b, a % b;
    if c == 0 {
      u, v := 0, 1;
    } else {
      var s, t := Bezout(b, c);
      u, v := t, s - t * q;
      BezoutStep(a, b, q, c, s, t);
    }
  }

  lemma BezoutStep(a: int, b: int, q: int, c: int, s: int, t: int)
    requires a == q * b + c
    ensures t * a + (s - t * q) * b == s * b + t * c
  {
    assert t * a == t * (q * b) + t * c;
    assert (s - t * q) * b == s * b - t * q * b;
    assert t * (q * b) == t * q * b;
  }

  lemma EuclidIsGcd(a: nat, b: nat)
    requires b > 0
    ensures IsGcd(Euclid(a, b), a, b)
  {
    var g := Euclid(a, b);
    EuclidDivides(a, b);
    var u, v := Bezout(a, b);
    forall d | Divides(d, a) && Divides(d, b)
      ensures Divides(d, g)
    {
      var i :| Times(d, i) == a;
      assert Times(d, u * i) == u * a by {
        Distribute(d, 0, i, u);
      }
      DividesCombination(d, u * a, b, v);
    }
  }

  /** `gcd`: the remainder goes through a signed variable and back. */
  method Gcd(a0: nat, b0: nat) returns (g: nat)
    requires a0 < TWO_64 && 0 < b0 < TWO_64
    ensures IsGcd(g, a0, b0) && g == Euclid(a0, b0)
  {
    var a, b := a0, b0;
    while true
      invariant 0 <= a && 0 < b < TWO_64
      invariant Euclid(a, b) == Euclid(a0, b0)
      decreases b
    {
      var c: int := a % b;
      c := if c >= TWO_63 then c - TWO_64 else c;
      if c == 0 {
        EuclidIsGcd(a0, b0);
        return b;
      }
      a := b;
      b := if c < 0 then c + TWO_64 else c;
    }
  }

  /** The least common multiple before it is cut to 64 bits. */
  function ExactLcm(a: nat, b: nat): (m: nat)
    requires b > 0
  {
    a / Euclid(a, b) * b
  }

  lemma {:induction false} ExactDivision(g: int, n: int)
    requires g > 0 && Divides(g, n)
    ensures n / g * g == n
  {
    var k :| Times(g, k) == n;
    DivModUnique(n, k, 0, g);
  }

  /** The product of the two numbers is that of their greatest divisor and least multiple. */
  lemma {:induction false} GcdTimesLcm(a: nat, b: nat)
    requires b > 0
    ensures Euclid(a, b) * ExactLcm(a, b) == a * b
  {
    EuclidDivides(a, b);
    var g := Euclid(a, b);
    ExactDivision(g, a);
    assert g * (a / g * b) == a / g * g * b;
  }

  lemma LcmOfFirst(a: int, b: int, g: int, m: int)
    requires g > 0 && g * m == a * b && b / g * g == b
    ensures Times(a, b / g) == m
  {
    var y := b / g;
    assert a * y * g == a * (y * g);
    Cancel(a * y, m, g);
  }

  lemma ExactIsLcm(a: nat, b: nat)
    requires a > 0 && b > 0
    ensures IsLcm(ExactLcm(a, b), a, b)
  {
    var g, m := Euclid(a, b), ExactLcm(a, b);
    GcdTimesLcm(a, b);
    EuclidDivides(a, b);
    ExactDivision(g, a);
    ExactDivision(g, b);
    assert Times(b, a / g) == m;
    LcmOfFirst(a, b, g, m);
    AtLeastOnce(a, b);
    PositiveMultiple(m, g);
    var u, v := Bezout(a, b);
    forall n | Divides(a, n) && Divides(b, n)
      ensures Divides(m, n)
    {
      var s :| Times(a, s) == n;
      var t :| Times(b, t) == n;
      CommonMultiple(a, b, g, m, u, v, s, t, n);
      assert Times(m, u * t + v * s) == n;
    }
  }

  /** A common multiple, by Bezout's identity, is a multiple of the least one. */
  lemma CommonMultiple(a: int, b: int, g: int, m: int, u: int, v: int, s: int, t: int, n: int)
    requires g > 0 && u * a + v * b == g && g * m == a * b && a * s == n && b * t == n
    ensures m * (u * t + v * s) == n
  {
    assert n * g == u * a * n + v * b * n by {
      assert n * (u * a + v * b) == u * a * n + v * b * n;
    }
    assert u * a * n == a * b * (u * t) by {
      assert u * a * (b * t) == a * b * (u * t);
    }
    assert v * b * n == a * b * (v * s) by {
      assert v * b * (a * s) == a * b * (v * s);
    }
    var k := u * t + v * s;
    assert a * b * k == a * b * (u * t) + a * b * (v * s);
    assert n * g == m * k * g by {
      assert g * m * k == m * k * g;
    }
    Cancel(n, m * k, g);
  }

  /** Two 64-bit numbers whose least common multiple needs 65 bits: 2 to the power 63, and 3. */
  lemma LcmCanOverflow()
    ensures ExactLcm(TWO_63, 3) == 3 * TWO_63 >= TWO_64
  {
    assert TWO_63 % 3 == 2 && 3 % 2 == 1 && 2 % 1 == 0;
    assert Euclid(2, 1) == 1;
    assert Euclid(3, 2) == 1;
    assert Euclid(TWO_63, 3) == 1;
  }

  /** `lcm`, in 64-bit arithmetic: right exactly when the least common multiple fits. */
  method Lcm(a: nat, b: nat) returns (m: nat)
    requires a < TWO_64 && 0 < b < TWO_64
    ensures m == ExactLcm(a, b) % TWO_64
    ensures a > 0 ==> (IsLcm(m, a, b) <==> ExactLcm(a, b) < TWO_64)
    ensures ExactLcm(a, b) < TWO_64 ==> Euclid(a, b) * m == a * b
  {
    var g := Gcd(a, b);
    m := a / g * b % TWO_64;
    GcdTimesLcm(a, b);
    if a > 0 {
      ExactIsLcm(a, b);
      if ExactLcm(a, b) >= TWO_64 {
        TooSmall(m, a, b);
      }
    }
  }

  lemma {:induction false} TooSmall(m: nat, a: nat, b: nat)
    requires a > 0 && b > 0 && m < ExactLcm(a, b)
    ensures !IsLcm(m, a, b)
  {
    ExactIsLcm(a, b);
    if IsLcm(m, a, b) {
      var k :| Times(ExactLcm(a, b), k) == m;
      PositiveMultiple(k, ExactLcm(a, b));
    }
  }
}
