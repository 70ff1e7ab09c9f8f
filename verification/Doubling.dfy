/** The two Jacobian doubling formulas of the curve-specific code: for a = 0 and for a = -3. */
module Doubling {
  import opened Arith
  import opened Congruence
  import opened Field
  import opened CurveGroup
  import opened CoZ

  /** Half of a reduced number modulo an odd p. */
  function FHalf(x: int, p: nat): int {
    if x % 2 == 0 then x / 2 else (x + p) / 2
  }

  /** double_jacobian_secp256k1, for a = 0. */
  function DoubleZeroForm(x: int, y: int, z: int, p: nat): (int, int, int)
    requires p > 0
  {
    if z == 0 then (x, y, z) else
    var y2 := FMul(y, y, p);
    var a := FMul(x, y2, p);
    var xx := FMul(x, x, p);
    var y4 := FMul(y2, y2, p);
    var z3 := FMul(y, z, p);
    var b := FHalf(FAdd(FAdd(xx, xx, p), xx, p), p);
    var x3 := FSub(FSub(FMul(b, b, p), a, p), a, p);
    (x3, FSub(FMul(b, FSub(a, x3, p), p), y4, p), z3)
  }

  /** double_jacobian_default, for a = -3. */
  function DoubleMinusThreeForm(x: int, y: int, z: int, p: nat): (int, int, int)
    requires p > 0
  {
    if z == 0 then (x, y, z) else
    var y2 := FMul(y, y, p);
    var a := FMul(x, y2, p);
    var y4 := FMul(y2, y2, p);
    var z3 := FMul(y, z, p);
    var zz := FMul(z, z, p);
    var xpz := FAdd(x, zz, p);
    var w := FMul(xpz, FSub(xpz, FAdd(zz, zz, p), p), p);
    var b := FHalf(FAdd(w, FAdd(w, w, p), p), p);
    var x3 := FSub(FSub(FMul(b, b, p), a, p), a, p);
    (x3, FSub(FMul(b, FSub(a, x3, p), p), y4, p), z3)
  }

  lemma HalfStands(x: int, p: nat)
    requires p % 2 == 1 && 0 <= x < p
    ensures 0 <= FHalf(x, p) < p && Cong(2 * FHalf(x, p), x, p)
  {
    var k := if x % 2 == 0 then 0 else 1;
    assert 2 * FHalf(x, p) == x + p * k;
    CongIntro(2 * FHalf(x, p), x, p, k);
  }

  /** The slope of the tangent. */
  lemma TangentSlope(num: int, y: int, p: nat)
    requires IsPrime(p) && !Cong(2 * y, 0, p)
    ensures Cong((num * Inv(2 * y, p)) * (2 * y), num, p)
  {
    Slope(num, 2 * y, p);
  }

  /** From B with 2B = num * z^4 to B = l * t. */
  lemma TangentB(b: int, num: int, l: int, y: int, z: int, t: int, p: nat)
    requires IsPrime(p) && p % 2 == 1 && Cong(l * (2 * y), num, p)
    requires Cong(2 * b, num * ((z * (z * z)) * z), p) && Cong(t, (y * (z * (z * z))) * z, p)
    ensures Cong(b, l * t, p)
  {
    var z4 := (z * (z * z)) * z;
    CongScale(l * (2 * y), num, z4, p);
    CongSym((l * (2 * y)) * z4, num * z4, p);
    CongScale(t, (y * (z * (z * z))) * z, 2 * l, p);
    CongSym(t * (2 * l), ((y * (z * (z * z))) * z) * (2 * l), p);
    CoprimeTwo(p);
    hide Cong, IsPrime, Coprime;
    TangentAlgebra(l, y, z * (z * z), z, t);
    CongTrans(2 * b, num * z4, (l * (2 * y)) * z4, p);
    CongTrans(2 * b, (l * (2 * y)) * z4, t * (2 * l), p);
    CongCancel(2, b, l * t, p) by { assert p > 1 by { PrimeBound(p); } }
  }

  lemma PrimeBound(p: int)
    requires IsPrime(p)
    ensures p > 1
  {
  }

  lemma CoprimeTwo(p: nat)
    requires IsPrime(p) && p % 2 == 1
    ensures Coprime(2, p)
  {
    ModSmall(2, p);
    PrimeCoprime(2, p);
  }

  lemma TangentAlgebra(l: int, y: int, z3: int, z: int, t: int)
    ensures ((y * z3) * z) * (2 * l) == (l * (2 * y)) * (z3 * z)
    ensures t * (2 * l) == 2 * (l * t)
  {
    MulAssoc(y, z3, z);
    var w := z3 * z;
    MulAssoc(y, w, 2 * l);
    MulSwap(y, w, 2 * l);
    MulAssoc(l, 2, y);
    MulAssoc(w, y, 2 * l);
    assert y * (2 * l) == l * (2 * y);
  }

  /** What both formulas do after B: the tangent sum over z3 = y * z. */
  lemma DoubleFromB(c: Equation, x: int, y: int, z: int, q: Point, a: int, b: int, y4: int, z3: int, x3: int)
    requires IsPrime(c.p) && c.p % 2 == 1 && Rep(x, y, z, q, c.p)
    requires !Cong(q.y, 0, c.p)
    requires Cong(a, x * (y * y), c.p) && Cong(y4, (y * y) * (y * y), c.p) && Stands(z3, y * z, c.p)
    requires Cong(2 * b, (3 * q.x * q.x + c.a) * ((z * (z * z)) * z), c.p)
    requires Stands(x3, b * b - a - a, c.p)
    ensures Rep(x3, FSub(FMul(b, FSub(a, x3, c.p), c.p), y4, c.p), z3, Add(c, q, q), c.p)
  {
    var p := c.p;
    var num, t := 3 * q.x * q.x + c.a, z3;
    var l := num * Inv(2 * q.y, p);
    DoubleNotZero(q.y, p);
    assert Add(c, q, q) == ThirdPoint(l, q.x, q.y, q.x, p) by { TwiceY(c, q); }
    TangentSlope(num, q.y, p);
    hide IsPrime, Cong, FMul, FSub, ThirdPoint, Inv, Add;
    DoubleZ(y, z, q.y, t, p);
    TangentB(b, num, l, q.y, z, t, p);
    DoubleA(x, y, z, q.x, a, t, p);
    DoubleY4(y, z, q.y, y4, t, p);
    CongMul(b, l * t, b, l * t, p);
    CongAdd(a, q.x * (t * t), a, q.x * (t * t), p);
    assert b * b - a - a == b * b - (a + a);
    SumFromSlope(l, b, t, a, y4, b * b, a + a, x3, q.x, q.y, q.x, p);
  }

  lemma DoubleNotZero(y: int, p: nat)
    requires IsPrime(p) && p % 2 == 1 && !Cong(y, 0, p)
    ensures !Cong(2 * y, 0, p)
  {
    if Cong(2 * y, 0, p) {
      PrimeProduct(2, y, p);
      ModSmall(2, p);
    }
  }

  lemma TwiceY(c: Equation, q: Point)
    requires IsPrime(c.p) && q.Affine? && !Cong(2 * q.y, 0, c.p)
    ensures Add(c, q, q) == ThirdPoint((3 * q.x * q.x + c.a) * Inv(2 * q.y, c.p), q.x, q.y, q.x, c.p)
  {
    assert (q.y + q.y) % c.p != 0;
  }

  lemma DoubleZ(y: int, z: int, qy: int, t: int, p: nat)
    requires IsPrime(p) && p > 0 && !Cong(z, 0, p) && !Cong(qy, 0, p) && Cong(y, qy * (z * (z * z)), p) &&
             Cong(t, y * z, p)
    ensures Cong(t, (qy * (z * (z * z))) * z, p) && !Cong(t, 0, p)
  {
    hide IsPrime, Cong;
    CongScale(y, qy * (z * (z * z)), z, p);
    CongTrans(t, y * z, (qy * (z * (z * z))) * z, p);
    if Cong(t, 0, p) {
      CongSym(t, (qy * (z * (z * z))) * z, p);
      CongTrans((qy * (z * (z * z))) * z, t, 0, p);
      PrimeProduct(qy * (z * (z * z)), z, p);
      PrimeProduct(qy, z * (z * z), p);
      PrimeProduct(z, z * z, p);
      PrimeProduct(z, z, p);
    }
  }

  lemma DoubleA(x: int, y: int, z: int, qx: int, a: int, t: int, p: nat)
    requires p > 0 && Cong(x, qx * (z * z), p) && Cong(a, x * (y * y), p) && Cong(t, y * z, p)
    ensures Cong(a, qx * (t * t), p)
  {
    CongScale(x, qx * (z * z), y * y, p);
    CongMul(t, y * z, t, y * z, p);
    CongRefl(qx, p);
    CongMul(qx, qx, t * t, (y * z) * (y * z), p);
    CongSym(qx * (t * t), qx * ((y * z) * (y * z)), p);
    hide Cong;
    SquareAlgebra(qx, z, y);
    assert z * y == y * z;
    CongTrans(a, x * (y * y), qx * ((y * z) * (y * z)), p);
    CongTrans(a, qx * ((y * z) * (y * z)), qx * (t * t), p);
  }

  lemma DoubleY4(y: int, z: int, qy: int, y4: int, t: int, p: nat)
    requires p > 0 && Cong(y, qy * (z * (z * z)), p) && Cong(y4, (y * y) * (y * y), p) && Cong(t, y * z, p)
    ensures Cong(y4, qy * (t * (t * t)), p)
  {
    var z3, u := z * (z * z), y * z;
    CongScale(y, qy * z3, y * (y * y), p);
    CongMul(t, u, t, u, p);
    CongMul(t, u, t * t, u * u, p);
    CongRefl(qy, p);
    CongMul(qy, qy, t * (t * t), u * (u * u), p);
    CongSym(qy * (t * (t * t)), qy * (u * (u * u)), p);
    hide Cong;
    assert y * (y * (y * y)) == (y * y) * (y * y) by { MulAssoc(y, y, y * y); }
    assert (qy * z3) * (y * (y * y)) == qy * (u * (u * u)) by { QuarticAlgebra(qy, y, z); }
    CongTrans(y4, (y * y) * (y * y), qy * (u * (u * u)), p);
    CongTrans(y4, qy * (u * (u * u)), qy * (t * (t * t)), p);
  }

  lemma QuarticAlgebra(q: int, y: int, z: int)
    ensures (q * (z * (z * z))) * (y * (y * y)) == q * ((y * z) * ((y * z) * (y * z)))
  {
    var u, y2, z2 := y * z, y * y, z * z;
    assert u * u == y2 * z2 by { MulAssoc(y, z, u); MulSwap(z, y, z); MulAssoc(y, y, z2); }
    assert u * (y2 * z2) == (z * z2) * (y * y2) by {
      MulAssoc(y, z, y2 * z2);
      MulSwap(z, y2, z2);
      MulAssoc(y2, z, z2);
      MulAssoc(y, y2, z * z2);
    }
    MulAssoc(q, z * z2, y * y2);
  }

  /** Doubling for a = 0. */
  lemma DoubleZeroCorrect(c: Equation, x: int, y: int, z: int, q: Point)
    requires IsPrime(c.p) && c.p % 2 == 1 && c.a == 0 && Rep(x, y, z, q, c.p) && !Cong(q.y, 0, c.p)
    ensures var (x3, y3, z3) := DoubleZeroForm(x, y, z, c.p); Rep(x3, y3, z3, Add(c, q, q), c.p)
  {
    var p := c.p;
    CongRefl(0, p);
    hide IsPrime, Cong, FMul, FSub, FAdd, FHalf, Add;
    var y2 := FMul(y, y, p);
    var a, xx, y4, z3 := FMul(x, y2, p), FMul(x, x, p), FMul(y2, y2, p), FMul(y, z, p);
    CongRefl(x, p);
    CongRefl(y, p);
    CongRefl(z, p);
    MulStands(y, y, y, y, p);
    MulStands(x, x, y2, y * y, p);
    MulStands(y2, y * y, y2, y * y, p);
    MulStands(y, y, z, z, p);
    MulStands(x, q.x * (z * z), x, q.x * (z * z), p);
    var e := (q.x * (z * z)) * (q.x * (z * z));
    AddStands(xx, e, xx, e, p);
    AddStands(FAdd(xx, xx, p), e + e, xx, e, p);
    var s := FAdd(FAdd(xx, xx, p), xx, p);
    HalfStands(s, p);
    var b := FHalf(s, p);
    CongTrans(2 * b, s, e + e + e, p);
    assert e + e + e == (3 * q.x * q.x + c.a) * ((z * (z * z)) * z) by { SquareNumerator(q.x, z, z * z); }
    DoubleTail(b, a, p);
    DoubleFromB(c, x, y, z, q, a, b, y4, z3, FSub(FSub(FMul(b, b, p), a, p), a, p));
  }

  lemma SquareNumerator(x: int, z: int, z2: int)
    requires z2 == z * z
    ensures 3 * ((x * z2) * (x * z2)) == (3 * x * x) * ((z * z2) * z)
  {
    assert (z * z2) * z == z2 * z2 by { MulSwap(z, z2, z); MulAssoc(z2, z, z); }
    assert (x * z2) * (x * z2) == (x * x) * (z2 * z2) by {
      MulAssoc(x, z2, x * z2);
      MulSwap(z2, x, z2);
      MulAssoc(x, x, z2 * z2);
    }
    MulAssoc(3, x * x, z2 * z2);
    assert 3 * x * x == 3 * (x * x);
  }

  lemma DoubleTail(b: int, a: int, p: nat)
    requires p > 0
    ensures Stands(FSub(FSub(FMul(b, b, p), a, p), a, p), b * b - a - a, p)
  {
    CongRefl(b, p);
    CongRefl(a, p);
    MulStands(b, b, b, b, p);
    SubStands(FMul(b, b, p), b * b, a, a, p);
    SubStands(FSub(FMul(b, b, p), a, p), b * b - a, a, a, p);
  }

  /** Doubling for a = -3. */
  lemma DoubleMinusThreeCorrect(c: Equation, x: int, y: int, z: int, q: Point)
    requires IsPrime(c.p) && c.p % 2 == 1 && c.a == -3 && Rep(x, y, z, q, c.p) && !Cong(q.y, 0, c.p)
    ensures var (x3, y3, z3) := DoubleMinusThreeForm(x, y, z, c.p); Rep(x3, y3, z3, Add(c, q, q), c.p)
  {
    var p := c.p;
    CongRefl(0, p);
    hide IsPrime, Cong, FMul, FSub, FAdd, FHalf, Add;
    var y2 := FMul(y, y, p);
    var a, y4, z3, zz := FMul(x, y2, p), FMul(y2, y2, p), FMul(y, z, p), FMul(z, z, p);
    CongRefl(x, p);
    CongRefl(y, p);
    CongRefl(z, p);
    MulStands(y, y, y, y, p);
    MulStands(x, x, y2, y * y, p);
    MulStands(y2, y * y, y2, y * y, p);
    MulStands(y, y, z, z, p);
    MulStands(z, z, z, z, p);
    var ex, ez := q.x * (z * z), z * z;
    AddStands(x, ex, zz, ez, p);
    AddStands(zz, ez, zz, ez, p);
    var xpz := FAdd(x, zz, p);
    var xmz := FSub(xpz, FAdd(zz, zz, p), p);
    SubStands(xpz, ex + ez, FAdd(zz, zz, p), ez + ez, p);
    var w := FMul(xpz, xmz, p);
    var e := (ex + ez) * (ex + ez - (ez + ez));
    MulStands(xpz, ex + ez, xmz, ex + ez - (ez + ez), p);
    AddStands(w, e, w, e, p);
    AddStands(w, e, FAdd(w, w, p), e + e, p);
    var s := FAdd(w, FAdd(w, w, p), p);
    HalfStands(s, p);
    var b := FHalf(s, p);
    CongTrans(2 * b, s, e + (e + e), p);
    assert e + (e + e) == (3 * q.x * q.x + c.a) * ((z * (z * z)) * z) by { ShiftedNumerator(q.x, z, z * z); }
    DoubleTail(b, a, p);
    DoubleFromB(c, x, y, z, q, a, b, y4, z3, FSub(FSub(FMul(b, b, p), a, p), a, p));
  }

  lemma ShiftedNumerator(x: int, z: int, z2: int)
    requires z2 == z * z
    ensures 3 * ((x * z2 + z2) * (x * z2 + z2 - (z2 + z2))) == (3 * x * x - 3) * ((z * z2) * z)
  {
    var u := x * z2;
    assert (u + z2) * (u - z2) == u * u - z2 * z2 by {
      MulDist(u + z2, u, -z2);
      MulNeg(u + z2, z2);
      MulDist(u, u, z2);
      MulDist(z2, u, z2);
    }
    SquareNumerator(x, z, z2);
    assert (z * z2) * z == z2 * z2 by { MulSwap(z, z2, z); MulAssoc(z2, z, z); }
    MulDist((z * z2) * z, 3 * x * x, -3);
  }
}
