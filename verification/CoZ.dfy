/** The co-Z point formulas on field elements, and what they mean on the curve. */
module CoZ {
  import opened Arith
  import opened Congruence
  import opened Field
  import opened CurveGroup

  /** The registers after XYcZ_add: P' and P + Q over a common Z. */
  function AddForm(x1: int, y1: int, x2: int, y2: int, p: nat): (int, int, int, int)
    requires p > 0
  {
    var t5 := FSub(x2, x1, p);
    var a := FMul(t5, t5, p);
    var b := FMul(x1, a, p);
    var c := FMul(x2, a, p);
    var dy := FSub(y2, y1, p);
    var d := FMul(dy, dy, p);
    var x3 := FSub(FSub(d, b, p), c, p);
    var e := FMul(y1, FSub(c, b, p), p);
    var y3 := FSub(FMul(dy, FSub(b, x3, p), p), e, p);
    (b, e, x3, y3)
  }

  /** The registers after XYcZ_addC: P - Q and P + Q over a common Z. */
  function AddSubForm(x1: int, y1: int, x2: int, y2: int, p: nat): (int, int, int, int)
    requires p > 0
  {
    var t5 := FSub(x2, x1, p);
    var a := FMul(t5, t5, p);
    var b := FMul(x1, a, p);
    var c := FMul(x2, a, p);
    var sy := FAdd(y2, y1, p);
    var dy := FSub(y2, y1, p);
    var e := FMul(y1, FSub(c, b, p), p);
    var bc := FAdd(b, c, p);
    var x3 := FSub(FMul(dy, dy, p), bc, p);
    var y3 := FSub(FMul(dy, FSub(b, x3, p), p), e, p);
    var x3' := FSub(FMul(sy, sy, p), bc, p);
    var y3' := FSub(FMul(FSub(x3', b, p), sy, p), e, p);
    (x3', y3', x3, y3)
  }

  /** (x, y) scaled by z^2 and z^3. */
  function ScaleForm(x: int, y: int, z: int, p: nat): (int, int)
    requires p > 0
  {
    var z2 := FMul(z, z, p);
    (FMul(x, z2, p), FMul(y, FMul(z2, z, p), p))
  }

  /** (x, y) are the Jacobian coordinates of the point pt for the given z. */
  ghost predicate Rep(x: int, y: int, z: int, pt: Point, p: nat)
    requires p > 0
  {
    pt.Affine? && !Cong(z, 0, p) && Stands(x, pt.x * (z * z), p) && Stands(y, pt.y * (z * (z * z)), p)
  }

  //
  // Congruence steps
  //

  /** The difference of the abscissas, up to the square of z. */
  lemma DeltaX(X1: int, X2: int, x1: int, x2: int, z2: int, p: nat)
    requires p > 0 && Cong(X1, x1 * z2, p) && Cong(X2, x2 * z2, p)
    ensures Cong(X2 - X1, (x2 - x1) * z2, p)
  {
    CongSub(X2, x2 * z2, X1, x1 * z2, p);
    hide Cong;
    MulDist(z2, x2, -x1);
    MulNeg(z2, x1);
  }

  /** A numerator of slope l over dx, scaled by z^3, is l times the new z. */
  lemma ScaledSlope(l: int, dx: int, num: int, d: int, z: int, p: nat)
    requires p > 0 && Cong(l * dx, num, p) && Cong(d, dx * (z * z), p)
    ensures Cong(num * (z * (z * z)), l * (z * d), p)
  {
    var z3 := z * (z * z);
    CongScale(l * dx, num, z3, p);
    CongSym((l * dx) * z3, num * z3, p);
    CongScale(d, dx * (z * z), l * z, p);
    CongSym(d * (l * z), (dx * (z * z)) * (l * z), p);
    hide Cong;
    assert (l * dx) * z3 == (dx * (z * z)) * (l * z) by { SlopeAlgebra(l, dx, z, z * z); }
    assert d * (l * z) == l * (z * d) by { MulSwap(d, l, z); MulAssoc(l, d, z); }
    CongTrans(num * z3, (l * dx) * z3, l * (z * d), p);
  }

  lemma SlopeAlgebra(l: int, dx: int, z: int, z2: int)
    ensures (l * dx) * (z * z2) == (dx * z2) * (l * z)
  {
    MulAssoc(l, dx, z * z2);
    MulSwap(dx, z, z2);
    MulAssoc(z, dx, z2);
    MulAssoc(l, z, dx * z2);
  }

  /** An abscissa times the square of the difference. */
  lemma ScaledX(X: int, x: int, z: int, d: int, t5: int, p: nat)
    requires p > 0 && Cong(X, x * (z * z), p) && Cong(t5, d, p)
    ensures Stands(FMul(X, FMul(t5, t5, p), p), x * ((z * d) * (z * d)), p)
  {
    MulStands(t5, d, t5, d, p);
    MulStands(X, x * (z * z), FMul(t5, t5, p), d * d, p);
    hide Cong, FMul;
    assert (x * (z * z)) * (d * d) == x * ((z * d) * (z * d)) by { SquareAlgebra(x, z, d); }
  }

  lemma SquareAlgebra(x: int, z: int, d: int)
    ensures (x * (z * z)) * (d * d) == x * ((z * d) * (z * d))
  {
    MulAssoc(x, z * z, d * d);
    MulAssoc(z, z, d * d);
    MulSwap(z, d, d);
    MulAssoc(d, z, d);
    MulAssoc(z, d, z * d);
  }

  /** The term E: an ordinate scaled to the new z. */
  lemma ScaledE(Y1: int, b: int, c: int, y1: int, x1: int, x2: int, z: int, d: int, t2: int, p: nat)
    requires p > 0 && Cong(Y1, y1 * (z * (z * z)), p) && Cong(b, x1 * t2, p) && Cong(c, x2 * t2, p)
    requires Cong(d, (x2 - x1) * (z * z), p)
    ensures Stands(FMul(Y1, FSub(c, b, p), p), y1 * ((z * d) * t2), p)
  {
    var z3, dx := z * (z * z), x2 - x1;
    SubStands(c, x2 * t2, b, x1 * t2, p);
    MulStands(Y1, y1 * z3, FSub(c, b, p), x2 * t2 - x1 * t2, p);
    CongScale(d, dx * (z * z), (y1 * z) * t2, p);
    CongSym(d * ((y1 * z) * t2), (dx * (z * z)) * ((y1 * z) * t2), p);
    hide Cong, FMul, FSub;
    assert (y1 * z3) * (x2 * t2 - x1 * t2) == (dx * (z * z)) * ((y1 * z) * t2) by {
      EAlgebra(y1, x1, x2, z, z * z, t2);
    }
    assert d * ((y1 * z) * t2) == y1 * ((z * d) * t2) by { EAlgebra2(d, y1, z, t2); }
    CongTrans(FMul(Y1, FSub(c, b, p), p), (y1 * z3) * (x2 * t2 - x1 * t2), y1 * ((z * d) * t2), p);
  }

  lemma EAlgebra(y1: int, x1: int, x2: int, z: int, z2: int, t2: int)
    ensures (y1 * (z * z2)) * (x2 * t2 - x1 * t2) == ((x2 - x1) * z2) * ((y1 * z) * t2)
  {
    var dx := x2 - x1;
    assert x2 * t2 - x1 * t2 == dx * t2 by { MulDist(t2, x2, -x1); MulNeg(t2, x1); }
    MulAssoc(y1, z, z2);
    var yz := y1 * z;
    assert (yz * z2) * (dx * t2) == (dx * z2) * (yz * t2) by {
      MulAssoc(yz, z2, dx * t2);
      MulSwap(z2, dx, t2);
      MulAssoc(dx * z2, yz, t2);
      MulSwap(yz, dx * z2, t2);
    }
  }

  lemma EAlgebra2(d: int, y1: int, z: int, t2: int)
    ensures d * ((y1 * z) * t2) == y1 * ((z * d) * t2)
  {
    MulAssoc(d, y1 * z, t2);
    MulSwap(d, y1, z);
    MulAssoc(y1, d, z);
    MulAssoc(y1, z * d, t2);
  }

  /** The abscissa of the sum: slope^2 minus both abscissas, scaled by t^2. */
  lemma ThirdX(dd: int, s: int, l: int, t: int, x1: int, x2: int, xr: int, p: nat)
    requires p > 0 && Cong(dd, (l * t) * (l * t), p) && Cong(s, x1 * (t * t) + x2 * (t * t), p)
    requires Cong(xr, l * l - x1 - x2, p)
    ensures Cong(dd - s, xr * (t * t), p)
  {
    var t2 := t * t;
    CongSub(dd, (l * t) * (l * t), s, x1 * t2 + x2 * t2, p);
    CongScale(xr, l * l - x1 - x2, t2, p);
    CongSym(xr * t2, (l * l - x1 - x2) * t2, p);
    hide Cong;
    assert (l * t) * (l * t) - (x1 * t2 + x2 * t2) == (l * l - x1 - x2) * t2 by {
      MulAssoc(l, t, l * t);
      MulSwap(t, l, t);
      MulAssoc(l, t, t);
      MulAssoc(l, l, t2);
      MulDist3(t2, l * l, -x1, -x2);
      MulNeg(t2, x1);
      MulNeg(t2, x2);
    }
    CongTrans(dd - s, (l * l - x1 - x2) * t2, xr * t2, p);
  }

  /** The ordinate of the sum, scaled by t^3. */
  lemma ThirdY(m: int, e: int, l: int, t: int, x1: int, xr: int, y1: int, yr: int, p: nat)
    requires p > 0 && Cong(m, (l * t) * (x1 * (t * t) - xr * (t * t)), p) && Cong(e, y1 * (t * (t * t)), p)
    requires Cong(yr, l * (x1 - xr) - y1, p)
    ensures Stands(FSub(m, e, p), yr * (t * (t * t)), p)
  {
    var t2 := t * t;
    var t3 := t * t2;
    SubStands(m, (l * t) * (x1 * t2 - xr * t2), e, y1 * t3, p);
    CongScale(yr, l * (x1 - xr) - y1, t3, p);
    CongSym(yr * t3, (l * (x1 - xr) - y1) * t3, p);
    hide Cong, FSub;
    assert (l * t) * (x1 * t2 - xr * t2) - y1 * t3 == (l * (x1 - xr) - y1) * t3 by {
      MulDist(t2, x1, -xr);
      MulNeg(t2, xr);
      MulAssoc(l, t, (x1 - xr) * t2);
      MulSwap(t, x1 - xr, t2);
      MulAssoc(x1 - xr, t, t2);
      MulAssoc(l, x1 - xr, t3);
      MulDist(t3, l * (x1 - xr), -y1);
      MulNeg(t3, y1);
    }
    CongTrans(FSub(m, e, p), (l * (x1 - xr) - y1) * t3, yr * t3, p);
  }

  /** What the third point of a line is, up to congruence. */
  lemma ThirdPointCong(l: int, x1: int, y1: int, x2: int, p: nat)
    requires p > 0
    ensures var r := ThirdPoint(l, x1, y1, x2, p);
            Cong(r.x, l * l - x1 - x2, p) && Cong(r.y, l * (x1 - r.x) - y1, p)
  {
    var r := ThirdPoint(l, x1, y1, x2, p);
    CongRefl(l, p);
    CongRefl(x1, p);
    CongRefl(x2, p);
    CongRefl(y1, p);
    CongRefl(r.x, p);
    MulStands(l, l, l, l, p);
    SubStands(FMul(l, l, p), l * l, x1, x1, p);
    SubStands(FSub(FMul(l, l, p), x1, p), l * l - x1, x2, x2, p);
    SubStands(x1, x1, r.x, r.x, p);
    MulStands(l, l, FSub(x1, r.x, p), x1 - r.x, p);
    SubStands(FMul(l, FSub(x1, r.x, p), p), l * (x1 - r.x), y1, y1, p);
  }

  /** The new z is not zero. */
  lemma NewZ(z: int, d: int, dx: int, p: nat)
    requires IsPrime(p) && !Cong(z, 0, p) && !Cong(dx, 0, p) && Cong(d, dx * (z * z), p)
    ensures !Cong(z * d, 0, p)
  {
    if Cong(z * d, 0, p) {
      PrimeProduct(z, d, p);
      CongSym(d, dx * (z * z), p);
      CongTrans(dx * (z * z), d, 0, p);
      PrimeProduct(dx, z * z, p);
      PrimeProduct(z, z, p);
    }
  }

  //
  // What the formulas compute
  //

  /** An ordinate difference (or sum) over the common z is the slope times the new z. */
  lemma MulDiff(k: int, a: int, b: int)
    ensures a * k - b * k == (a - b) * k
  {
  }

  lemma DeltaY(v: int, n1: int, n2: int, z: int, l: int, dx: int, d: int, p: nat)
    requires p > 0 && Cong(v, n2 * (z * (z * z)) - n1 * (z * (z * z)), p)
    requires Cong(l * dx, n2 - n1, p) && Cong(d, dx * (z * z), p)
    ensures Cong(v, l * (z * d), p)
  {
    var z3 := z * (z * z);
    ScaledSlope(l, dx, n2 - n1, d, z, p);
    hide Cong;
    MulDiff(z3, n2, n1);
    CongTrans(v, (n2 - n1) * z3, l * (z * d), p);
  }

  /** The second half of both formulas: from B, C, E and the slope to the sum. */
  lemma SumFromSlope(l: int, dy: int, t: int, b: int, e: int, dd: int, s: int, x3: int, x1: int, y1: int, x2: int,
                     p: nat)
    requires p > 0 && !Cong(t, 0, p)
    requires Cong(dy, l * t, p) && Cong(dd, (l * t) * (l * t), p)
    requires Cong(b, x1 * (t * t), p) && Cong(e, y1 * (t * (t * t)), p)
    requires Cong(s, x1 * (t * t) + x2 * (t * t), p)
    requires 0 <= x3 < p && Cong(x3, dd - s, p)
    ensures Rep(x3, FSub(FMul(dy, FSub(b, x3, p), p), e, p), t, ThirdPoint(l, x1, y1, x2, p), p)
  {
    var r := ThirdPoint(l, x1, y1, x2, p);
    var t2 := t * t;
    ThirdPointCong(l, x1, y1, x2, p);
    ThirdX(dd, s, l, t, x1, x2, r.x, p);
    CongTrans(x3, dd - s, r.x * t2, p);
    SubStands(b, x1 * t2, x3, r.x * t2, p);
    MulStands(dy, l * t, FSub(b, x3, p), x1 * t2 - r.x * t2, p);
    ThirdY(FMul(dy, FSub(b, x3, p), p), e, l, t, x1, r.x, y1, r.y, p);
  }

  /** Facts shared by the two addition formulas: the new z, B, C and E. */
  lemma CommonTerms(x1: int, y1: int, x2: int, z: int, q: Point, r: Point, p: nat)
    requires IsPrime(p) && q.Affine? && r.Affine? && q.x != r.x
    requires 0 <= q.x < p && 0 <= r.x < p
    requires Rep(x1, y1, z, q, p) && Stands(x2, r.x * (z * z), p)
    ensures var t5 := FSub(x2, x1, p);
            var a := FMul(t5, t5, p);
            var b, c := FMul(x1, a, p), FMul(x2, a, p);
            var d, t := x2 - x1, z * (x2 - x1);
            !Cong(r.x - q.x, 0, p) && Cong(d, (r.x - q.x) * (z * z), p) && !Cong(t, 0, p) &&
            Stands(b, q.x * (t * t), p) && Stands(c, r.x * (t * t), p) &&
            Rep(b, FMul(y1, FSub(c, b, p), p), t, q, p)
  {
    hide IsPrime, Cong, FMul;
    var d := x2 - x1;
    var t5 := FSub(x2, x1, p);
    DistinctReduced(q.x, r.x, p);
    DeltaX(x1, x2, q.x, r.x, z * z, p);
    NewZ(z, d, r.x - q.x, p);
    CongRefl(x1, p);
    CongRefl(x2, p);
    SubStands(x2, x2, x1, x1, p);
    hide FSub;
    ScaledX(x1, q.x, z, d, t5, p);
    ScaledX(x2, r.x, z, d, t5, p);
    var a := FMul(t5, t5, p);
    ScaledE(y1, FMul(x1, a, p), FMul(x2, a, p), q.y, q.x, r.x, z, d, (z * d) * (z * d), p);
  }

  /** XYcZ_add: the first point is rescaled to the new z, and the second becomes the sum. */
  lemma AddFormCorrect(c: Equation, x1: int, y1: int, x2: int, y2: int, z: int, q: Point, r: Point)
    requires IsPrime(c.p) && OnCurve(c, q) && OnCurve(c, r)
    requires Rep(x1, y1, z, q, c.p) && Rep(x2, y2, z, r, c.p) && q.x != r.x
    ensures var (u1, v1, u2, v2) := AddForm(x1, y1, x2, y2, c.p);
            Rep(u1, v1, z * (x2 - x1), q, c.p) && Rep(u2, v2, z * (x2 - x1), Add(c, q, r), c.p)
  {
    hide IsPrime, Cong, FMul, FSub, ThirdPoint, Inv;
    var p, t := c.p, z * (x2 - x1);
    var l := (r.y - q.y) * Inv(r.x - q.x, p);
    CommonTerms(x1, y1, x2, z, q, r, p);
    Slope(r.y - q.y, r.x - q.x, p);
    var (b, e, x3, y3) := AddForm(x1, y1, x2, y2, p);
    var t5 := FSub(x2, x1, p);
    var c' := FMul(x2, FMul(t5, t5, p), p);
    var dy := FSub(y2, y1, p);
    SubStands(y2, r.y * (z * (z * z)), y1, q.y * (z * (z * z)), p);
    DeltaY(dy, q.y, r.y, z, l, r.x - q.x, x2 - x1, p);
    MulStands(dy, l * t, dy, l * t, p);
    var dd := FMul(dy, dy, p);
    var t2 := t * t;
    CongAdd(b, q.x * t2, c', r.x * t2, p);
    CongRefl(dd, p);
    CongRefl(b, p);
    CongRefl(c', p);
    SubStands(dd, dd, b, b, p);
    SubStands(FSub(dd, b, p), dd - b, c', c', p);
    SumFromSlope(l, dy, t, b, e, dd, b + c', x3, q.x, q.y, r.x, p);
  }

  /** XYcZ_addC: the first point becomes the difference, and the second the sum. */
  lemma AddSubFormCorrect(c: Equation, x1: int, y1: int, x2: int, y2: int, z: int, q: Point, r: Point)
    requires IsPrime(c.p) && OnCurve(c, q) && OnCurve(c, r)
    requires Rep(x1, y1, z, q, c.p) && Rep(x2, y2, z, r, c.p) && q.x != r.x
    ensures var (u1, v1, u2, v2) := AddSubForm(x1, y1, x2, y2, c.p);
            Rep(u1, v1, z * (x2 - x1), Add(c, q, Neg(c, r)), c.p) && Rep(u2, v2, z * (x2 - x1), Add(c, q, r), c.p)
  {
    var ny := FSub(0, r.y, c.p);
    CongRefl(0, c.p);
    CongRefl(r.y, c.p);
    SubStands(0, 0, r.y, r.y, c.p);
    hide IsPrime, Cong, FMul, FSub, FAdd, ThirdPoint, Inv;
    var p, t := c.p, z * (x2 - x1);
    var dx, z3 := r.x - q.x, z * (z * z);
    var l, l' := (r.y - q.y) * Inv(dx, p), (ny - q.y) * Inv(dx, p);
    CommonTerms(x1, y1, x2, z, q, r, p);
    Slope(r.y - q.y, dx, p);
    Slope(ny - q.y, dx, p);
    var t5 := FSub(x2, x1, p);
    var a := FMul(t5, t5, p);
    var b, c' := FMul(x1, a, p), FMul(x2, a, p);
    var e, bc := FMul(y1, FSub(c', b, p), p), FAdd(b, c', p);
    var dy, sy := FSub(y2, y1, p), FAdd(y2, y1, p);
    AddStands(b, q.x * (t * t), c', r.x * (t * t), p);
    // the sum
    SubStands(y2, r.y * z3, y1, q.y * z3, p);
    DeltaY(dy, q.y, r.y, z, l, dx, x2 - x1, p);
    MulStands(dy, l * t, dy, l * t, p);
    var dd := FMul(dy, dy, p);
    CongRefl(dd, p);
    CongRefl(bc, p);
    SubStands(dd, dd, bc, bc, p);
    SumFromSlope(l, dy, t, b, e, dd, bc, FSub(dd, bc, p), q.x, q.y, r.x, p);
    // the difference
    NegatedSum(sy, y1, y2, q.y, r.y, ny, z3, p);
    DeltaY(-sy, q.y, ny, z, l', dx, x2 - x1, p);
    CongMul(-sy, l' * t, -sy, l' * t, p);
    var ss := FMul(sy, sy, p);
    SquareOfNeg(sy, p);
    CongTrans(ss, (-sy) * (-sy), (l' * t) * (l' * t), p);
    CongRefl(ss, p);
    SubStands(ss, ss, bc, bc, p);
    var x3' := FSub(ss, bc, p);
    SumFromSlope(l', FSub(0, sy, p), t, b, e, ss, bc, x3', q.x, q.y, r.x, p) by { NegStands(sy, l' * t, p); }
    NegatedProduct(sy, b, x3', p);
  }

  /** The sum of the ordinates is minus the numerator of the slope of q - r. */
  lemma NegatedSum(sy: int, Y1: int, Y2: int, y1: int, y2: int, ny: int, z3: int, p: nat)
    requires p > 0 && sy == FAdd(Y2, Y1, p) && Cong(Y1, y1 * z3, p) && Cong(Y2, y2 * z3, p) && Cong(ny, 0 - y2, p)
    ensures Cong(-sy, ny * z3 - y1 * z3, p)
  {
    AddStands(Y2, y2 * z3, Y1, y1 * z3, p);
    CongRefl(0, p);
    CongSub(0, 0, sy, y2 * z3 + y1 * z3, p);
    CongScale(ny, 0 - y2, z3, p);
    CongRefl(y1 * z3, p);
    CongSub(ny * z3, (0 - y2) * z3, y1 * z3, y1 * z3, p);
    hide Cong, FAdd;
    MulNeg(z3, y2);
    CongSym(ny * z3 - y1 * z3, (0 - y2) * z3 - y1 * z3, p);
    CongTrans(-sy, 0 - (y2 * z3 + y1 * z3), ny * z3 - y1 * z3, p);
  }

  lemma SquareOfNeg(x: int, p: nat)
    requires p > 0
    ensures Cong(FMul(x, x, p), (-x) * (-x), p)
  {
    CongMod(x * x, p);
    assert (-x) * (-x) == x * x;
  }

  lemma NegStands(x: int, e: int, p: nat)
    requires p > 0 && Cong(-x, e, p)
    ensures Stands(FSub(0, x, p), e, p)
  {
    CongRefl(0, p);
    CongRefl(x, p);
    SubStands(0, 0, x, x, p);
    CongTrans(FSub(0, x, p), 0 - x, e, p);
  }

  /** Negating a factor and swapping the difference is the same product. */
  lemma NegatedProduct(sy: int, b: int, x: int, p: nat)
    requires p > 0
    ensures FMul(FSub(0, sy, p), FSub(b, x, p), p) == FMul(FSub(x, b, p), sy, p)
  {
    CongRefl(0, p);
    CongRefl(sy, p);
    CongRefl(b, p);
    CongRefl(x, p);
    SubStands(0, 0, sy, sy, p);
    SubStands(b, b, x, x, p);
    SubStands(x, x, b, b, p);
    MulStands(FSub(0, sy, p), 0 - sy, FSub(b, x, p), b - x, p);
    MulStands(FSub(x, b, p), x - b, sy, sy, p);
    hide Cong, FSub, FMul;
    assert (0 - sy) * (b - x) == (x - b) * sy;
    CongRefl((x - b) * sy, p);
    StandsEqual(FMul(FSub(0, sy, p), FSub(b, x, p), p), FMul(FSub(x, b, p), sy, p), (0 - sy) * (b - x), (x - b) * sy,
                p);
  }

  /** apply_z turns affine coordinates into Jacobian ones. */
  lemma ScaleFormCorrect(x: int, y: int, z: int, p: nat)
    requires p > 0 && !Cong(z, 0, p)
    ensures var (u, v) := ScaleForm(x, y, z, p); Rep(u, v, z, Affine(x, y), p)
  {
    var z2 := FMul(z, z, p);
    CongRefl(x, p);
    CongRefl(y, p);
    CongRefl(z, p);
    MulStands(z, z, z, z, p);
    MulStands(x, x, z2, z * z, p);
    MulStands(z2, z * z, z, z, p);
    MulStands(y, y, FMul(z2, z, p), (z * z) * z, p);
    assert (z * z) * z == z * (z * z);
  }

  /** With the inverse of z it turns Jacobian coordinates into affine ones. */
  lemma UnscaleCorrect(x: int, y: int, z: int, i: int, q: Point, p: nat)
    requires p > 1 && Rep(x, y, z, q, p) && Cong(i * z, 1, p) && 0 <= q.x < p && 0 <= q.y < p
    ensures ScaleForm(x, y, i, p) == (q.x, q.y)
  {
    var i2 := FMul(i, i, p);
    CongRefl(i, p);
    MulStands(i, i, i, i, p);
    MulStands(i2, i * i, i, i, p);
    MulStands(x, q.x * (z * z), i2, i * i, p);
    MulStands(y, q.y * (z * (z * z)), FMul(i2, i, p), (i * i) * i, p);
    hide Cong, FMul;
    Unscaled(q.x, q.y, i, z, p);
    CongRefl(q.x, p);
    CongRefl(q.y, p);
    StandsEqual(FMul(x, i2, p), q.x, (q.x * (z * z)) * (i * i), q.x, p);
    StandsEqual(FMul(y, FMul(i2, i, p), p), q.y, (q.y * (z * (z * z))) * ((i * i) * i), q.y, p);
  }

  lemma Unscaled(x: int, y: int, i: int, z: int, p: nat)
    requires p > 0 && Cong(i * z, 1, p)
    ensures Cong((x * (z * z)) * (i * i), x, p) && Cong((y * (z * (z * z))) * ((i * i) * i), y, p)
  {
    var u := i * z;
    CongMul(u, 1, u, 1, p);
    CongMul(u, 1, u * u, 1, p);
    CongScale(u * u, 1, x, p);
    CongScale(u * (u * u), 1, y, p);
    hide Cong;
    SquareAlgebra(x, z, i);
    assert z * i == u;
    assert (u * u) * x == (x * (z * z)) * (i * i);
    CubeAlgebra(i, z, y);
  }

  lemma CubeAlgebra(i: int, z: int, y: int)
    ensures ((i * z) * ((i * z) * (i * z))) * y == (y * (z * (z * z))) * ((i * i) * i)
  {
    var i2, z2 := i * i, z * z;
    assert (i * z) * (i * z) == i2 * z2 by {
      MulAssoc(i, z, i * z);
      MulSwap(z, i, z);
      MulAssoc(i, i, z2);
      MulAssoc(i, z, z);
    }
    var i3, z3 := i2 * i, z * z2;
    assert (i * z) * (i2 * z2) == i3 * z3 by {
      MulAssoc(i, z, i2 * z2);
      MulSwap(z, i2, z2);
      MulAssoc(i2, z, z2);
      MulAssoc(i, i2, z3);
    }
    MulAssoc(i3, z3, y);
  }
}
