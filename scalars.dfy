/** Scalars of the Ristretto255 group: the integers modulo the prime group order L. */
module Scalars {

  /** The order of the Ristretto255 group, 2^252 + 27742317777372353535851937790883648493. */
  const L: int := 7237005577332262213973186563042994240857116359379907606001950938285454250989

  /** A reduced scalar, as curve25519's `Scalar` keeps it. */
  type Scalar = x: int | 0 <= x < L

  function Add(x: Scalar, y: Scalar): (r: Scalar)
    ensures r == x + y || r == x + y - L
  {
    (x + y) % L
  }

  function Sub(x: Scalar, y: Scalar): (r: Scalar)
    ensures r == x - y || r == x - y + L
  {
    (x - y) % L
  }

  function Mul(x: Scalar, y: Scalar): Scalar
  {
    (x * y) % L
  }

  /** Sum of all the scalars of `xs`, the reference definition every fold is compared with. */
  function Sum(xs: seq<Scalar>): Scalar
  {
    if xs == [] then 0 else Add(xs[0], Sum(xs[1..]))
  }

  /** Two integers that differ by a multiple of L leave the same remainder. */
  lemma ModEq(a: int, b: int, m: int)
    requires a == b + m * L
    ensures a % L == b % L
  {
  }

  /** Reducing a factor before multiplying does not change the product modulo L. */
  lemma MulModLeft(a: int, b: int)
    ensures ((a % L) * b) % L == (a * b) % L
  {
    var q := a / L;
    assert a == a % L + q * L;
    assert a * b == (a % L) * b + (q * b) * L;
    ModEq(a * b, (a % L) * b, q * b);
  }

  lemma AddAssoc(x: Scalar, y: Scalar, z: Scalar)
    ensures Add(Add(x, y), z) == Add(x, Add(y, z))
  {
  }

  /** Adding back what was subtracted gives the original scalar. */
  lemma SubAddCancel(k: Scalar, t: Scalar)
    ensures Add(Sub(k, t), t) == k
  {
  }

  lemma ModMulAssoc(x: int, y: int, z: int)
    ensures (((x * y) % L) * z) % L == (x * ((y * z) % L)) % L
  {
    MulModLeft(x * y, z);
    MulModLeft(y * z, x);
    assert (x * y) * z == (y * z) * x;
    assert x * ((y * z) % L) == ((y * z) % L) * x;
  }

  lemma ModMulDistrib(x: int, y: int, z: int)
    ensures ((x * z) % L + (y * z) % L) % L == (((x + y) % L) * z) % L
  {
    var xz, yz := x * z, y * z;
    assert xz == xz % L + (xz / L) * L;
    assert yz == yz % L + (yz / L) * L;
    ModEq(xz + yz, xz % L + yz % L, xz / L + yz / L);
    MulModLeft(x + y, z);
    assert (x + y) * z == xz + yz;
  }

  lemma MulComm(x: Scalar, y: Scalar)
    ensures Mul(x, y) == Mul(y, x)
  {
    assert x * y == y * x;
  }

  lemma MulAssoc(x: Scalar, y: Scalar, z: Scalar)
    ensures Mul(Mul(x, y), z) == Mul(x, Mul(y, z))
  {
    ModMulAssoc(x, y, z);
  }

  lemma MulDistrib(x: Scalar, y: Scalar, z: Scalar)
    ensures Add(Mul(x, z), Mul(y, z)) == Mul(Add(x, y), z)
  {
    ModMulDistrib(x, y, z);
  }

  lemma MulOne(x: Scalar)
    ensures Mul(x, 1) == x && Mul(1, x) == x
  {
  }

  lemma MulZero(x: Scalar)
    ensures Mul(x, 0) == 0 && Mul(0, x) == 0
  {
  }

  /** `d` divides `n`. */
  predicate Divides(d: int, n: int)
    requires d != 0
  {
    n % d == 0
  }

  ghost predicate IsPrime(p: int)
  {
    p > 1 && forall d :: 1 < d < p ==> !Divides(d, p)
  }

  /**
   * Euclid's lemma: a prime that divides a product and not its first factor divides the
   * second. By descent on `a`: `p % a` is a smaller non-zero factor with the same property.
   */
  lemma {:induction false} Euclid(p: int, a: int, b: int)
    requires IsPrime(p)
    requires 0 < a < p
    requires (a * b) % p == 0
    ensures b % p == 0
    decreases a
  {
    if a > 1 {
      assert !Divides(a, p);
      var r := p % a;
      RemainderKeepsDivisibility(p, a, b);
      Euclid(p, r, b);
    }
  }

  /** If p divides a·b, it divides (p mod a)·b as well. */
  lemma RemainderKeepsDivisibility(p: int, a: int, b: int)
    requires 0 < a && 0 < p
    requires (a * b) % p == 0
    ensures ((p % a) * b) % p == 0
  {
    var q, r := p / a, p % a;
    var m := (a * b) / p;
    assert a * b == m * p;
    assert p == q * a + r;
    assert r * b == p * b - q * (a * b) by {
      assert p * b == (q * a + r) * b;
      assert (q * a + r) * b == q * (a * b) + r * b;
    }
    assert r * b == (b - q * m) * p by {
      assert q * (a * b) == q * (m * p) == (q * m) * p;
    }
    MultipleMod(b - q * m, p);
  }

  lemma MultipleMod(k: int, p: int)
    requires p > 0
    ensures (k * p) % p == 0
  {
    var t := k - (k * p) / p;
    assert (k * p) % p == t * p by {
      assert k * p == p * ((k * p) / p) + (k * p) % p;
    }
  }

  /** When L is prime, the scalars have no zero divisors. */
  lemma {:induction false} NoZeroDivisors(x: Scalar, y: Scalar)
    requires IsPrime(L)
    requires x != 0 && y != 0
    ensures Mul(x, y) != 0
  {
    if Mul(x, y) == 0 {
      Euclid(L, x, y);
    }
  }
}
