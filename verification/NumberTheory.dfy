/** Congruences, Fermat's little theorem and the correctness of RSA exponents. */
module NumberTheory {
  import opened Arith

  // ---- Congruence ----

  ghost predicate Cong(a: int, b: int, n: int) {
    exists k: int :: a - b == k * n
  }

  lemma CongBy(a: int, b: int, n: int, k: int)
    requires a - b == k * n
    ensures Cong(a, b, n)
  {
  }

  lemma CongMod(a: int, b: int, n: int)
    requires n > 0
    ensures Cong(a, b, n) <==> a % n == b % n
  {
    if Cong(a, b, n) {
      var k :| a - b == k * n;
      assert a == (b / n + k) * n + b % n;
      DivModUnique(a, b / n + k, b % n, n);
    }
    if a % n == b % n {
      CongBy(a, b, n, a / n - b / n);
    }
  }

  lemma CongReduce(a: int, n: int)
    requires n > 0
    ensures Cong(a % n, a, n)
  {
    CongBy(a % n, a, n, -(a / n));
  }

  lemma CongSym(a: int, b: int, n: int)
    requires Cong(a, b, n)
    ensures Cong(b, a, n)
  {
    var k :| a - b == k * n;
    CongBy(b, a, n, -k);
  }

  lemma CongTrans(a: int, b: int, c: int, n: int)
    requires Cong(a, b, n) && Cong(b, c, n)
    ensures Cong(a, c, n)
  {
    var k :| a - b == k * n;
    var l :| b - c == l * n;
    assert (k + l) * n == k * n + l * n;
    CongBy(a, c, n, k + l);
  }

  lemma CongMul(a: int, b: int, c: int, d: int, n: int)
    requires Cong(a, b, n) && Cong(c, d, n)
    ensures Cong(a * c, b * d, n)
  {
    var k :| a - b == k * n;
    var l :| c - d == l * n;
    assert a * c - b * d == (a - b) * c + b * (c - d);
    assert (k * n) * c + b * (l * n) == (k * c + b * l) * n;
    CongBy(a * c, b * d, n, k * c + b * l);
  }

  lemma CongAdd(a: int, b: int, c: int, d: int, n: int)
    requires Cong(a, b, n) && Cong(c, d, n)
    ensures Cong(a + c, b + d, n)
  {
    var k :| a - b == k * n;
    var l :| c - d == l * n;
    assert (k + l) * n == k * n + l * n;
    CongBy(a + c, b + d, n, k + l);
  }

  lemma CongRefl(a: int, n: int)
    ensures Cong(a, a, n)
  {
    CongBy(a, a, n, 0);
  }

  // ---- Powers ----

  function Pow(b: int, e: nat): int {
    if e == 0 then 1 else b * Pow(b, e - 1)
  }

  lemma {:induction false} PowAdd(b: int, x: nat, y: nat)
    ensures Pow(b, x + y) == Pow(b, x) * Pow(b, y)
  {
    if x > 0 {
      PowAdd(b, x - 1, y);
      assert b * (Pow(b, x - 1) * Pow(b, y)) == (b * Pow(b, x - 1)) * Pow(b, y);
    }
  }

  lemma {:induction false} PowMul(b: int, x: nat, y: nat)
    ensures Pow(b, x * y) == Pow(Pow(b, x), y)
  {
    if y > 0 {
      PowMul(b, x, y - 1);
      assert x * y == x + x * (y - 1);
      PowAdd(b, x, x * (y - 1));
    } else {
      assert x * y == 0;
    }
  }

  lemma {:induction false} PowOfProduct(a: int, b: int, e: nat)
    ensures Pow(a * b, e) == Pow(a, e) * Pow(b, e)
  {
    if e > 0 {
      PowOfProduct(a, b, e - 1);
      MulSwap(a, b, Pow(a, e - 1), Pow(b, e - 1));
    }
  }

  lemma {:induction false} CongPow(a: int, b: int, e: nat, n: int)
    requires Cong(a, b, n)
    ensures Cong(Pow(a, e), Pow(b, e), n)
  {
    if e == 0 {
      CongRefl(1, n);
    } else {
      CongPow(a, b, e - 1, n);
      CongMul(a, b, Pow(a, e - 1), Pow(b, e - 1), n);
    }
  }

  lemma {:induction false} PowNonneg(b: int, e: nat)
    requires b >= 0
    ensures Pow(b, e) >= 0
  {
    if e > 0 {
      PowNonneg(b, e - 1);
    }
  }

  lemma {:induction false} PowOne(e: nat)
    ensures Pow(1, e) == 1
  {
    if e > 0 {
      PowOne(e - 1);
    }
  }

  // ---- Greatest common divisors ----

  ghost predicate Divides(d: int, x: int) {
    exists k: int :: x == k * d
  }

  /** The extended Euclidean algorithm. */
  function ExtGcd(a: nat, b: nat): (r: (nat, int, int))
    ensures r.0 == r.1 * a + r.2 * b
    ensures Divides(r.0, a) && Divides(r.0, b)
    decreases b
  {
    if b == 0 then
      assert a == 1 * a && 0 == 0 * a;
      (a, 1, 0)
    else
      var (g, u, v) := ExtGcd(b, a % b);
      EuclidStep(a, b, g, u, v);
      (g, v, u - (a / b) * v)
  }

  lemma EuclidStep(a: nat, b: nat, g: nat, u: int, v: int)
    requires b > 0 && g == u * b + v * (a % b) && Divides(g, b) && Divides(g, a % b)
    ensures g == v * a + (u - (a / b) * v) * b
    ensures Divides(g, a) && Divides(g, b)
  {
    var q, r := a / b, a % b;
    assert a == q * b + r;
    assert v * a == v * (q * b) + v * r;
    assert (u - q * v) * b == u * b - v * (q * b);
    var k :| b == k * g;
    var l :| r == l * g;
    assert a == (q * k + l) * g;
  }

  ghost predicate IsPrime(p: nat) {
    p >= 2 && forall d: nat :: Divides(d, p) ==> d == 1 || d == p
  }

  /** Euclid's lemma. */
  lemma PrimeDividesFactor(p: nat, x: nat, y: int)
    requires IsPrime(p) && Divides(p, x * y) && !Divides(p, x)
    ensures Divides(p, y)
  {
    var (g, u, v) := ExtGcd(p, x);
    assert g == 1;
    var k :| x * y == k * p;
    Bezout(p, x, y, u, v, k);
  }

  lemma Bezout(p: int, x: int, y: int, u: int, v: int, k: int)
    requires 1 == u * p + v * x && x * y == k * p
    ensures Divides(p, y)
  {
    assert y == (u * p + v * x) * y;
    assert (u * p + v * x) * y == (u * y) * p + v * (x * y);
    assert v * (k * p) == (v * k) * p;
    assert y == (u * y + v * k) * p;
  }

  lemma SmallerNotDivisible(p: nat, k: nat)
    requires 0 < k < p
    ensures !Divides(p, k)
  {
    forall q: int ensures k != q * p {
      if q >= 1 {
        assert q * p >= p;
      } else {
        assert q * p <= 0;
      }
    }
  }

  // ---- Binomial coefficients ----

  function Choose(n: nat, k: nat): nat {
    if k == 0 then 1
    else if n == 0 then 0
    else Choose(n - 1, k - 1) + Choose(n - 1, k)
  }

  lemma {:induction false} ChooseBeyond(n: nat, k: nat)
    requires k > n
    ensures Choose(n, k) == 0
  {
    if n > 0 {
      ChooseBeyond(n - 1, k - 1);
      ChooseBeyond(n - 1, k);
    }
  }

  lemma {:induction false} ChooseAll(n: nat)
    ensures Choose(n, n) == 1
  {
    if n > 0 {
      ChooseAll(n - 1);
      ChooseBeyond(n - 1, n);
    }
  }

  /** k C(n,k) = n C(n-1,k-1), from the same fact one row up. */
  lemma {:induction false} Absorption(n: nat, k: nat)
    requires n >= 1 && k >= 1
    ensures k * Choose(n, k) == n * Choose(n - 1, k - 1)
    decreases n
  {
    if n == 1 {
      if k > 1 {
        ChooseBeyond(1, k);
        ChooseBeyond(0, k - 1);
      }
    } else {
      var x, y, z := Choose(n - 1, k - 1), Choose(n - 1, k), Choose(n - 2, k - 1);
      var t := if k == 1 then 0 else Choose(n - 2, k - 2);
      Absorption(n - 1, k);
      if k > 1 {
        Absorption(n - 1, k - 1);
      }
      AbsorbAlgebra(k, n, x, y, z, t);
    }
  }

  lemma AbsorbAlgebra(k: int, n: int, x: int, y: int, z: int, t: int)
    requires x == t + z && (k - 1) * x == (n - 1) * t && k * y == (n - 1) * z
    ensures k * (x + y) == n * x
  {
    assert k * (x + y) == (k - 1) * x + x + k * y;
    assert (n - 1) * t + (n - 1) * z == (n - 1) * (t + z);
    assert (n - 1) * x + x == n * x;
  }

  lemma PrimeDividesChoose(p: nat, k: nat)
    requires IsPrime(p) && 0 < k < p
    ensures Divides(p, Choose(p, k))
  {
    Absorption(p, k);
    assert k * Choose(p, k) == Choose(p - 1, k - 1) * p;
    SmallerNotDivisible(p, k);
    PrimeDividesFactor(p, k, Choose(p, k));
  }

  /** The sum of `Choose(n, k) * a^k` for k from 0 to m. */
  function Row(n: nat, a: int, m: nat): int {
    Choose(n, m) * Pow(a, m) + if m == 0 then 0 else Row(n, a, m - 1)
  }

  lemma {:induction false} RowStep(n: nat, a: int, m: nat)
    ensures Row(n + 1, a, m) == Row(n, a, m) + if m == 0 then 0 else a * Row(n, a, m - 1)
  {
    if m > 0 {
      RowStep(n, a, m - 1);
      var x, y, w := Choose(n, m - 1), Choose(n, m), Pow(a, m - 1);
      var rest := if m == 1 then 0 else Row(n, a, m - 2);
      RowAlgebra(x, y, a, w, rest);
    }
  }

  lemma RowAlgebra(x: int, y: int, a: int, w: int, rest: int)
    ensures (x + y) * (a * w) == y * (a * w) + a * (x * w)
    ensures a * (x * w + rest) == a * (x * w) + a * rest
  {
    assert (x + y) * (a * w) == x * (a * w) + y * (a * w);
    MulSwap(1, x, a, w);
  }

  /** The binomial theorem for (a + 1)^n. */
  lemma {:induction false} Binomial(n: nat, a: int)
    ensures Row(n, a, n) == Pow(a + 1, n)
  {
    if n > 0 {
      Binomial(n - 1, a);
      RowStep(n - 1, a, n);
      ChooseBeyond(n - 1, n);
      var r := Row(n - 1, a, n - 1);
      assert 0 * Pow(a, n) == 0;
      assert r + a * r == (a + 1) * r;
    }
  }

  lemma {:induction false} MiddleVanishes(p: nat, a: int, m: nat)
    requires IsPrime(p) && m < p
    ensures Cong(Row(p, a, m), 1, p)
  {
    if m == 0 {
      assert Row(p, a, 0) == Choose(p, 0) * Pow(a, 0) + 0;
      CongRefl(1, p);
    } else {
      MiddleVanishes(p, a, m - 1);
      PrimeDividesChoose(p, m);
      var k :| Choose(p, m) == k * p;
      assert (k * p) * Pow(a, m) == (k * Pow(a, m)) * p;
      CongBy(Choose(p, m) * Pow(a, m), 0, p, k * Pow(a, m));
      CongAdd(Choose(p, m) * Pow(a, m), 0, Row(p, a, m - 1), 1, p);
    }
  }

  /** Fermat's little theorem. */
  lemma {:induction false} Fermat(p: nat, a: nat)
    requires IsPrime(p)
    ensures Cong(Pow(a, p), a, p)
  {
    if a == 0 {
      assert Pow(0, p) == 0 * Pow(0, p - 1);
      CongRefl(0, p);
    } else {
      Fermat(p, a - 1);
      Binomial(p, a - 1);
      MiddleVanishes(p, a - 1, p - 1);
      ChooseAll(p);
      var mid := Row(p, a - 1, p - 1);
      assert Pow(a, p) == 1 * Pow(a - 1, p) + mid;
      CongAdd(Pow(a - 1, p), a - 1, mid, 1, p);
    }
  }

  // ---- RSA exponents ----

  lemma {:induction false} ExponentModPrime(p: nat, x: nat, k: nat)
    requires IsPrime(p)
    ensures Cong(Pow(x, 1 + k * (p - 1)), x, p)
  {
    if k == 0 {
      assert Pow(x, 1 + k * (p - 1)) == x * Pow(x, 0);
      CongRefl(x, p);
    } else {
      ExponentModPrime(p, x, k - 1);
      var big, small := Pow(x, 1 + (k - 1) * (p - 1)), Pow(x, p - 1);
      assert 1 + k * (p - 1) == (1 + (k - 1) * (p - 1)) + (p - 1);
      PowAdd(x, 1 + (k - 1) * (p - 1), p - 1);
      CongRefl(small, p);
      CongMul(big, x, small, small, p);
      Fermat(p, x);
      assert Pow(x, p) == x * small;
      CongTrans(big * small, x * small, x, p);
    }
  }

  lemma CongBothPrimes(p: nat, q: nat, a: int, b: int)
    requires IsPrime(p) && IsPrime(q) && p != q && Cong(a, b, p) && Cong(a, b, q)
    ensures Cong(a, b, p * q)
  {
    var k :| a - b == k * q;
    assert Divides(p, q * k) by {
      var l :| a - b == l * p;
      assert q * k == l * p;
    }
    NotDivisible(p, q);
    PrimeDividesFactor(p, q, k);
    var w :| k == w * p;
    assert a - b == w * (p * q) by {
      assert (w * p) * q == w * (p * q);
    }
    CongBy(a, b, p * q, w);
  }

  lemma NotDivisible(p: nat, q: nat)
    requires IsPrime(p) && IsPrime(q) && p != q
    ensures !Divides(p, q)
  {
  }

  datatype RsaKey = RsaKey(p: nat, q: nat, e: nat, d: nat) {
    function N(): nat { p * q }
  }

  /** Two distinct primes and exponents that cancel modulo each prime's order. */
  ghost predicate ValidKey(key: RsaKey) {
    && IsPrime(key.p) && IsPrime(key.q) && key.p != key.q && key.e >= 1 && key.d >= 1
    && Cong(key.e * key.d, 1, key.p - 1) && Cong(key.e * key.d, 1, key.q - 1)
  }

  /** Raising to e and then to d, or the other way round, is the identity modulo n, for every x. */
  lemma ExponentsCancel(key: RsaKey, x: nat)
    requires ValidKey(key)
    ensures Cong(Pow(x, key.e * key.d), x, key.N())
  {
    var k :| key.e * key.d - 1 == k * (key.p - 1);
    var l :| key.e * key.d - 1 == l * (key.q - 1);
    assert key.e * key.d >= 1;
    assert (k < 0 ==> k * (key.p - 1) < 0) && (l < 0 ==> l * (key.q - 1) < 0);
    ExponentModPrime(key.p, x, k);
    ExponentModPrime(key.q, x, l);
    CongBothPrimes(key.p, key.q, Pow(x, key.e * key.d), x);
  }
}
