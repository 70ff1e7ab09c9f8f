/** Congruence, divisibility and inverses modulo a prime. */
module Congruence {
  import opened Arith

  ghost predicate Cong(x: int, y: int, m: int)
    requires m > 0
  {
    (x - y) % m == 0
  }

  lemma CongIntro(x: int, y: int, m: int, k: int)
    requires m > 0 && x - y == m * k
    ensures Cong(x, y, m)
  {
    ModOfMultiple(k, m);
  }

  lemma CongWitness(x: int, y: int, m: int) returns (k: int)
    requires m > 0 && Cong(x, y, m)
    ensures x - y == m * k
  {
    k := (x - y) / m;
    DivModDef(x - y, m);
  }

  lemma CongMod(x: int, m: int)
    requires m > 0
    ensures Cong(x % m, x, m) && 0 <= x % m < m
  {
    DivModDef(x, m);
    MulNeg(m, x / m);
    CongIntro(x % m, x, m, -(x / m));
  }

  /** Congruent numbers have the same remainder, and conversely. */
  lemma CongSameMod(x: int, y: int, m: int)
    requires m > 0
    ensures Cong(x, y, m) <==> x % m == y % m
  {
    DivModDef(x, m);
    DivModDef(y, m);
    hide Cong;
    if x % m == y % m {
      MulDist(m, x / m, -(y / m));
      MulNeg(m, y / m);
      CongIntro(x, y, m, x / m - y / m);
    }
    if Cong(x, y, m) {
      var k := CongWitness(x, y, m);
      MulDist(m, y / m, k);
      QuotientUnique(m, x / m, x % m, y / m + k, y % m);
    }
  }

  /** Reduced numbers that are congruent are equal. */
  lemma CongReduced(x: int, y: int, m: int)
    requires m > 0 && Cong(x, y, m) && 0 <= x < m && 0 <= y < m
    ensures x == y
  {
    CongSameMod(x, y, m);
    hide Cong;
    ModSmall(x, m);
    ModSmall(y, m);
  }

  lemma CongRefl(x: int, m: int)
    requires m > 0
    ensures Cong(x, x, m)
  {
    assert m * 0 == 0;
    CongIntro(x, x, m, 0);
  }

  lemma CongSym(x: int, y: int, m: int)
    requires m > 0 && Cong(x, y, m)
    ensures Cong(y, x, m)
  {
    hide Cong;
    var k := CongWitness(x, y, m);
    MulNeg(m, k);
    CongIntro(y, x, m, -k);
  }

  lemma CongTrans(x: int, y: int, z: int, m: int)
    requires m > 0 && Cong(x, y, m) && Cong(y, z, m)
    ensures Cong(x, z, m)
  {
    hide Cong;
    var k := CongWitness(x, y, m);
    var l := CongWitness(y, z, m);
    MulDist(m, k, l);
    CongIntro(x, z, m, k + l);
  }

  lemma CongAdd(x: int, y: int, z: int, w: int, m: int)
    requires m > 0 && Cong(x, y, m) && Cong(z, w, m)
    ensures Cong(x + z, y + w, m)
  {
    hide Cong;
    var k := CongWitness(x, y, m);
    var l := CongWitness(z, w, m);
    MulDist(m, k, l);
    CongIntro(x + z, y + w, m, k + l);
  }

  lemma CongSub(x: int, y: int, z: int, w: int, m: int)
    requires m > 0 && Cong(x, y, m) && Cong(z, w, m)
    ensures Cong(x - z, y - w, m)
  {
    hide Cong;
    var k := CongWitness(x, y, m);
    var l := CongWitness(z, w, m);
    MulDist(m, k, -l);
    MulNeg(m, l);
    CongIntro(x - z, y - w, m, k - l);
  }

  lemma CongMul(x: int, y: int, z: int, w: int, m: int)
    requires m > 0 && Cong(x, y, m) && Cong(z, w, m)
    ensures Cong(x * z, y * w, m)
  {
    hide Cong;
    var k := CongWitness(x, y, m);
    var l := CongWitness(z, w, m);
    MulProductDiff(x, y, z, w, m, k, l);
    CongIntro(x * z, y * w, m, k * z + y * l);
  }

  lemma MulProductDiff(x: int, y: int, z: int, w: int, m: int, k: int, l: int)
    requires x - y == m * k && z - w == m * l
    ensures x * z - y * w == m * (k * z + y * l)
  {
    assert x * z - y * w == (x - y) * z + y * (z - w) by {
      MulDist(z, x, -y);
      MulDist(y, z, -w);
      MulNeg(z, y);
      MulNeg(y, w);
    }
    assert (m * k) * z == m * (k * z) by { MulAssoc(m, k, z); }
    assert y * (m * l) == m * (y * l) by { MulSwap(y, m, l); MulAssoc(m, y, l); }
    MulDist(m, k * z, y * l);
  }

  ghost predicate Divides(d: int, a: int) {
    d > 0 && a % d == 0
  }

  lemma DividesIntro(d: int, a: int, k: int)
    requires d > 0 && a == d * k
    ensures Divides(d, a)
  {
    ModOfMultiple(k, d);
  }

  lemma DividesWitness(d: int, a: int) returns (k: int)
    requires Divides(d, a)
    ensures a == d * k
  {
    k := a / d;
    DivModDef(a, d);
  }

  lemma DividesLinear(d: int, a: int, b: int, s: int, t: int)
    requires Divides(d, a) && Divides(d, b)
    ensures Divides(d, a * s + b * t)
  {
    var k := DividesWitness(d, a);
    var l := DividesWitness(d, b);
    hide Divides;
    MulAssoc(d, k, s);
    MulAssoc(d, l, t);
    MulDist(d, k * s, l * t);
    DividesIntro(d, a * s + b * t, k * s + l * t);
  }

  /** An odd number that divides 2x divides x. */
  lemma OddDividesHalf(d: int, x: int)
    requires d % 2 == 1 && Divides(d, 2 * x)
    ensures Divides(d, x)
  {
    var k := DividesWitness(d, 2 * x);
    hide Divides;
    var h := d / 2;
    assert d * k == 2 * (h * k) + k by { MulDist(k, 2 * h, 1); MulAssoc(2, h, k); }
    var j := k / 2;
    assert k == 2 * j;
    MulSwap(d, 2, j);
    MulAssoc(2, d, j);
    DividesIntro(d, x, j);
  }

  ghost predicate IsGcd(g: int, a: int, b: int) {
    Divides(g, a) && Divides(g, b) && forall d :: Divides(d, a) && Divides(d, b) ==> Divides(d, g)
  }

  ghost predicate Coprime(a: int, b: int) {
    forall d :: Divides(d, a) && Divides(d, b) ==> d == 1
  }

  ghost predicate IsPrime(p: int) {
    p > 1 && forall d :: Divides(d, p) ==> d == 1 || d == p
  }

  lemma PrimeCoprime(x: int, p: int)
    requires IsPrime(p) && x % p != 0
    ensures Coprime(x, p)
  {
    forall d | Divides(d, x) && Divides(d, p)
      ensures d == 1
    {
      assert d == 1 || d == p;
    }
  }

  /** Bezout: the smallest combination divides both numbers. */
  lemma {:induction false} Bezout(a: nat, b: nat) returns (g: int, s: int, t: int)
    requires a > 0 || b > 0
    ensures g == a * s + b * t && g > 0 && Divides(g, a) && Divides(g, b)
    decreases b
  {
    if b == 0 {
      g, s, t := a, 1, 0;
      DividesIntro(a, a, 1);
      assert a * 0 == 0;
      DividesIntro(a, 0, 0);
    } else {
      var q, r := a / b, a % b;
      DivModDef(a, b);
      var s', t';
      g, s', t' := Bezout(b, r);
      hide Divides;
      DividesLinear(g, b, r, q, 1);
      s, t := t', s' - q * t';
      assert a * t' == b * (q * t') + r * t' by { MulDist(t', b * q, r); MulAssoc(b, q, t'); }
      MulDist(b, s', -(q * t'));
      MulNeg(b, q * t');
    }
  }

  /** A number coprime to the modulus has an inverse. */
  lemma InverseExists(x: int, m: int) returns (i: int)
    requires m > 1 && Coprime(x, m)
    ensures 0 <= i < m && Cong(x * i, 1, m)
  {
    hide Cong;
    var x' := x % m;
    CongMod(x, m);
    var g, s, t := Bezout(x', m);
    assert g == 1 by {
      DivModDef(x, m);
      DividesLinear(g, x', m, 1, x / m);
      assert Divides(g, x);
    }
    i := s % m;
    CongMod(s, m);
    CongSym(x', x, m);
    CongMul(x, x', i, s, m);
    MulNeg(m, t);
    CongIntro(x' * s, 1, m, -t);
    CongTrans(x * i, x' * s, 1, m);
  }

  /** A factor that has an inverse can be cancelled. */
  lemma CongCancel(c: int, x: int, y: int, m: int)
    requires m > 1 && Coprime(c, m) && Cong(c * x, c * y, m)
    ensures Cong(x, y, m)
  {
    hide Cong, Coprime;
    var i := InverseExists(c, m);
    CongRefl(i, m);
    CongRefl(x, m);
    CongRefl(y, m);
    CongMul(i, i, c * x, c * y, m);
    CongMul(c * i, 1, x, x, m);
    CongMul(c * i, 1, y, y, m);
    assert i * (c * x) == (c * i) * x by { MulSwap(i, c, x); }
    assert i * (c * y) == (c * i) * y by { MulSwap(i, c, y); }
    CongSym((c * i) * x, x, m);
    CongTrans(x, (c * i) * x, (c * i) * y, m);
    CongTrans(x, (c * i) * y, y, m);
  }

  /** A prime that divides a product divides a factor. */
  lemma PrimeProduct(x: int, y: int, p: int)
    requires IsPrime(p) && Cong(x * y, 0, p)
    ensures Cong(x, 0, p) || Cong(y, 0, p)
  {
    if !Cong(x, 0, p) {
      PrimeCoprime(x, p);
      assert x * 0 == 0;
      CongCancel(x, y, 0, p);
    }
  }
}
