/** The Montgomery ladder over co-Z coordinates, on field elements: what each step keeps, what
    the final step recovers, and what happens when a step meets points with equal abscissas. */
module Ladder {
  import opened Arith
  import opened Bits
  import opened Congruence
  import opened Field
  import opened CurveGroup
  import opened CoZ

  /** The registers Rx[0], Ry[0], Rx[1], Ry[1]. */
  datatype Pair = Pair(x0: int, y0: int, x1: int, y1: int)

  /** XYcZ_addC on the register of the bit and the other one. */
  function AddSubStep(s: Pair, bit: bool, p: nat): Pair
    requires p > 0
  {
    if bit then var (dx, dy, sx, sy) := AddSubForm(s.x1, s.y1, s.x0, s.y0, p); Pair(sx, sy, dx, dy)
    else var (dx, dy, sx, sy) := AddSubForm(s.x0, s.y0, s.x1, s.y1, p); Pair(dx, dy, sx, sy)
  }

  /** XYcZ_add on the other register and the register of the bit. */
  function AddStep(s: Pair, bit: bool, p: nat): Pair
    requires p > 0
  {
    if bit then var (ux, uy, vx, vy) := AddForm(s.x0, s.y0, s.x1, s.y1, p); Pair(ux, uy, vx, vy)
    else var (ux, uy, vx, vy) := AddForm(s.x1, s.y1, s.x0, s.y0, p); Pair(vx, vy, ux, uy)
  }

  function Step(s: Pair, bit: bool, p: nat): Pair
    requires p > 0
  {
    AddStep(AddSubStep(s, bit, p), bit, p)
  }

  /** The loop: bits i, i - 1, ..., 1 of the scalar. */
  function Run(s: Pair, k: nat, i: nat, p: nat): Pair
    requires p > 0
    decreases i
  {
    if i == 0 then s else Run(Step(s, Bit(k, i), p), k, i - 1, p)
  }

  /** The value inverted at the end: x_P * Yb * (X1 - X0). */
  function ToInvert(s: Pair, bit: bool, px: int, p: nat): int
    requires p > 0
  {
    FMul(FMul(FSub(s.x1, s.x0, p), if bit then s.y1 else s.y0, p), px, p)
  }

  /** 1/Z from that inverse. */
  function FinalZ(s: Pair, bit: bool, inverse: int, py: int, p: nat): int
    requires p > 0
  {
    FMul(FMul(inverse, py, p), if bit then s.x1 else s.x0, p)
  }

  /** The last bit, with the recovery of 1/Z between its two halves. */
  ghost function Finish(s: Pair, bit: bool, px: int, py: int, p: nat): (int, int)
    requires IsPrime(p)
  {
    var t := AddSubStep(s, bit, p);
    var z := FinalZ(t, bit, Inv(ToInvert(t, bit, px, p), p), py, p);
    var u := AddStep(t, bit, p);
    ScaleForm(u.x0, u.y0, z, p)
  }

  //
  // One step on multiples of a point
  //

  /** The registers hold m * q and (m + 1) * q over the common z. */
  ghost predicate Holds(s: Pair, z: int, m: nat, q: Point, c: Equation)
    requires IsPrime(c.p)
  {
    Rep(s.x0, s.y0, z, Mul(c, m, q), c.p) && Rep(s.x1, s.y1, z, Mul(c, m + 1, q), c.p)
  }

  /** No addition of the step that starts from m meets points with equal abscissas or infinity. */
  predicate Regular(m: nat, n: nat)
    requires n > 0
  {
    m % n != 0 && (m + 1) % n != 0 && (2 * m + 1) % n != 0
  }

  /** For an odd modulus a double is a multiple only if the number is. */
  lemma DoubleMultiple(m: int, n: nat)
    requires n % 2 == 1
    ensures (2 * m) % n == 0 <==> m % n == 0
  {
    if (2 * m) % n == 0 { OddDividesHalf(n, m); }
    if m % n == 0 { DivModDef(m, n); MulSwap(2, n, m / n); MulAssoc(n, 2, m / n); DividesIntro(n, 2 * m, 2 * (m / n)); }
  }

  /** The points of a regular step are affine and meet with different abscissas. */
  lemma RegularPoints(c: Equation, m: nat, q: Point, n: nat)
    requires IsGroup(c) && HasOrder(c, q, n) && n % 2 == 1 && Regular(m, n)
    ensures Mul(c, m, q).Affine? && Mul(c, m + 1, q).Affine? && Mul(c, 2 * m + 1, q).Affine?
    ensures Mul(c, m, q).x != Mul(c, m + 1, q).x
    ensures q.Affine? && Mul(c, 2 * m + 1, q).x != q.x
  {
    hide IsGroup, OnCurve, Add, Mul, HasOrder;
    GroupPrime(c);
    OrderFacts(c, q, n);
    MulZero(c, m, q, n);
    MulZero(c, m + 1, q, n);
    MulZero(c, 2 * m + 1, q, n);
    MulOne(c, q);
    DoubleMultiple(m, n);
    DoubleMultiple(m + 1, n);
    if Mul(c, m, q).x == Mul(c, m + 1, q).x {
      MulSameX(c, m, m + 1, q, n);
      ModSmall(1, n);
    }
    if Mul(c, 2 * m + 1, q).x == q.x {
      MulSameX(c, 1, 2 * m + 1, q, n);
    }
  }

  lemma OrderFacts(c: Equation, q: Point, n: nat)
    requires IsPrime(c.p) && HasOrder(c, q, n)
    ensures q.Affine? && OnCurve(c, q) && n > 1
  {
  }

  /** A step keeps m * q and (m + 1) * q, with the bit appended to m. */
  lemma StepCorrect(c: Equation, s: Pair, z: int, m: nat, bit: bool, q: Point, n: nat) returns (z': int)
    requires IsGroup(c) && HasOrder(c, q, n) && n % 2 == 1 && Regular(m, n) && IsPrime(c.p)
    requires Holds(s, z, m, q, c)
    ensures Holds(Step(s, bit, c.p), z', 2 * m + (if bit then 1 else 0), q, c)
  {
    hide IsGroup, OnCurve, Add, Mul, HasOrder, Rep, AddSubForm, AddForm, Neg, IsPrime;
    GroupPrime(c);
    var t, w := HalfCorrect(c, s, z, m, bit, q, n);
    var r, d := Mul(c, 2 * m + 1, q), if bit then q else Neg(c, q);
    OrderFacts(c, q, n);
    MulOnCurve(c, 2 * m + 1, q);
    NegOnCurve(c, q);
    RegularPoints(c, m, q, n);
    NegX(c, q);
    if bit {
      AddFormCorrect(c, t.x0, t.y0, t.x1, t.y1, w, r, d);
      z' := w * (t.x1 - t.x0);
      MulSucc(c, 2 * m + 1, q);
    } else {
      AddFormCorrect(c, t.x1, t.y1, t.x0, t.y0, w, r, d);
      z' := w * (t.x0 - t.x1);
      MulPred(c, 2 * m, q);
    }
  }

  lemma NegX(c: Equation, q: Point)
    requires c.p > 0 && q.Affine?
    ensures Neg(c, q).Affine? && Neg(c, q).x == q.x
  {
  }

  lemma MulSucc(c: Equation, m: nat, q: Point)
    requires IsPrime(c.p)
    ensures Add(c, Mul(c, m, q), q) == Mul(c, m + 1, q)
  {
  }

  lemma MulPred(c: Equation, m: nat, q: Point)
    requires IsGroup(c) && OnCurve(c, q)
    ensures IsPrime(c.p) && Add(c, Mul(c, m + 1, q), Neg(c, q)) == Mul(c, m, q)
  {
    hide IsGroup, OnCurve, Add, Neg;
    GroupPrime(c);
    MulSucc(c, m, q);
    hide Mul;
    MulOnCurve(c, m, q);
    NegOnCurve(c, q);
    AddNeg(c, q);
    AddInfinity(c, Mul(c, m, q));
    Assoc(c, Mul(c, m, q), q, Neg(c, q));
  }

  /** After XYcZ_addC: (2m + 1) * q in one register, q or its negative in the register of the bit. */
  lemma HalfCorrect(c: Equation, s: Pair, z: int, m: nat, bit: bool, q: Point, n: nat) returns (t: Pair, w: int)
    requires IsGroup(c) && HasOrder(c, q, n) && n % 2 == 1 && Regular(m, n) && IsPrime(c.p)
    requires Holds(s, z, m, q, c)
    ensures t == AddSubStep(s, bit, c.p)
    ensures if bit then Rep(t.x0, t.y0, w, Mul(c, 2 * m + 1, q), c.p) && Rep(t.x1, t.y1, w, q, c.p)
            else Rep(t.x1, t.y1, w, Mul(c, 2 * m + 1, q), c.p) && Rep(t.x0, t.y0, w, Neg(c, q), c.p)
  {
    hide IsGroup, OnCurve, Add, Mul, HasOrder, Rep, AddSubForm, Neg, IsPrime;
    GroupPrime(c);
    t := AddSubStep(s, bit, c.p);
    var r0, r1 := Mul(c, m, q), Mul(c, m + 1, q);
    OrderFacts(c, q, n);
    MulOnCurve(c, m, q);
    MulOnCurve(c, m + 1, q);
    RegularPoints(c, m, q, n);
    MulDifference(c, m, q);
    MulAdd(c, m, m + 1, q);
    MulAdd(c, m + 1, m, q);
    if bit {
      AddSubFormCorrect(c, s.x1, s.y1, s.x0, s.y0, z, r1, r0);
      w := z * (s.x0 - s.x1);
    } else {
      AddSubFormCorrect(c, s.x0, s.y0, s.x1, s.y1, z, r0, r1);
      w := z * (s.x1 - s.x0);
    }
  }

  //
  // The whole ladder on a regular scalar
  //

  /** The scalar without its j low bits. */
  function Prefix(k: nat, j: nat): nat {
    DivNonNeg(k, Pow2(j));
    k / Pow2(j)
  }

  lemma PrefixStep(k: nat, i: nat)
    ensures Prefix(k, i) == 2 * Prefix(k, i + 1) + (if Bit(k, i) then 1 else 0)
  {
    DivDiv(k, Pow2(i), 2);
    assert Pow2(i + 1) == Pow2(i) * 2;
  }

  lemma PrefixZero(k: nat)
    ensures Prefix(k, 0) == k
  {
    ModUnique(k, 1, k, 0);
  }

  /** Every step down to bit i is regular. */
  ghost predicate RegularFrom(k: nat, i: nat, top: nat, n: nat)
    requires n > 0
  {
    forall j :: i < j <= top ==> Regular(Prefix(k, j), n)
  }

  /** The loop keeps m * q and (m + 1) * q for the growing prefix m of the scalar. */
  lemma {:induction false} RunCorrect(c: Equation, s: Pair, z: int, k: nat, i: nat, q: Point, n: nat) returns (z': int)
    requires IsGroup(c) && HasOrder(c, q, n) && n % 2 == 1 && IsPrime(c.p)
    requires RegularFrom(k, 1, i + 1, n) && Holds(s, z, Prefix(k, i + 1), q, c)
    ensures Holds(Run(s, k, i, c.p), z', Prefix(k, 1), q, c)
    decreases i
  {
    hide IsGroup, HasOrder, Holds, Step, Prefix, IsPrime, Regular;
    GroupPrime(c);
    if i == 0 {
      z' := z;
    } else {
      var w := StepCorrect(c, s, z, Prefix(k, i + 1), Bit(k, i), q, n);
      PrefixStep(k, i);
      z' := RunCorrect(c, Step(s, Bit(k, i), c.p), w, k, i - 1, q, n);
    }
  }

  /** A point of odd order has a nonzero ordinate. */
  lemma OddOrderY(c: Equation, q: Point, n: nat)
    requires IsGroup(c) && HasOrder(c, q, n) && n % 2 == 1 && IsPrime(c.p)
    ensures q.Affine? && !Cong(q.y, 0, c.p)
  {
    hide IsGroup, HasOrder, OnCurve;
    OrderFacts(c, q, n);
    if Cong(q.y, 0, c.p) {
      ZeroYDoubles(c, q);
      hide Add;
      MulOne(c, q);
      MulSucc(c, 1, q);
      hide Mul;
      MulZero(c, 2, q, n);
      if n > 2 { ModSmall(2, n); }
    }
  }

  lemma ZeroYDoubles(c: Equation, q: Point)
    requires IsPrime(c.p) && q.Affine? && Cong(q.y, 0, c.p)
    ensures Add(c, q, q) == Infinity
  {
    CongAdd(q.y, 0, q.y, 0, c.p);
  }

  /** The product that is inverted is the new z, up to the point's own coordinates. */
  lemma RecoverZ(xb: int, yb: int, d: int, qx: int, qy: int, e: int, w: int, v: int, i: int, zf: int, p: nat)
    requires IsPrime(p) && p > 0 && Cong(xb, qx * (w * w), p) && Cong(yb, (e * qy) * (w * (w * w)), p)
    requires Cong(v, (d * yb) * qx, p) && Cong(v * i, 1, p) && Cong(zf, (i * qy) * xb, p)
    ensures Cong(zf * (e * (w * d)), 1, p)
  {
    hide IsPrime, Cong;
    var w2 := w * w;
    CongRefl(d, p);
    CongRefl(i, p);
    CongRefl(i * qy, p);
    CongMul(d, d, yb, (e * qy) * (w * w2), p);
    CongScale(d * yb, d * ((e * qy) * (w * w2)), qx, p);
    CongTrans(v, (d * yb) * qx, (d * ((e * qy) * (w * w2))) * qx, p);
    CongScale(v, (d * ((e * qy) * (w * w2))) * qx, i, p);
    CongSym(v * i, ((d * ((e * qy) * (w * w2))) * qx) * i, p);
    CongTrans(((d * ((e * qy) * (w * w2))) * qx) * i, v * i, 1, p);
    CongMul(i * qy, i * qy, xb, qx * w2, p);
    CongTrans(zf, (i * qy) * xb, (i * qy) * (qx * w2), p);
    CongScale(zf, (i * qy) * (qx * w2), e * (w * d), p);
    RecoverAlgebra(i, qy, qx, w, w2, e, d);
    CongTrans(zf * (e * (w * d)), ((i * qy) * (qx * w2)) * (e * (w * d)), 1, p);
  }

  lemma RecoverAlgebra(i: int, qy: int, qx: int, w: int, w2: int, e: int, d: int)
    ensures ((i * qy) * (qx * w2)) * (e * (w * d)) == ((d * ((e * qy) * (w * w2))) * qx) * i
  {
    var a := e * qy;
    // left: bring every factor to the order i, a, qx, d, w, w2
    assert ((i * qy) * (qx * w2)) * (e * (w * d)) == i * ((qy * (qx * w2)) * (e * (w * d))) by {
      MulAssoc(i, qy, qx * w2);
      MulAssoc(i, qy * (qx * w2), e * (w * d));
    }
    assert (qy * (qx * w2)) * (e * (w * d)) == a * ((qx * w2) * (w * d)) by {
      MulAssoc(qy, qx * w2, e * (w * d));
      MulSwap(qx * w2, e, w * d);
      MulAssoc(e, qx * w2, w * d);
      MulAssoc(qy, e, (qx * w2) * (w * d));
    }
    assert (qx * w2) * (w * d) == qx * (d * (w * w2)) by {
      MulAssoc(qx, w2, w * d);
      MulSwap(w2, w, d);
      MulSwap(w * w2, d, 1);
    }
    // right
    assert (d * (a * (w * w2))) * qx == a * (qx * (d * (w * w2))) by {
      MulSwap(d, a, w * w2);
      MulAssoc(a, d, w * w2);
      MulAssoc(a, d * (w * w2), qx);
    }
  }

  /** The number to invert is not zero when the point's abscissa is not. */
  lemma InvertibleZ(xb: int, yb: int, d: int, qx: int, qy: int, e: int, w: int, v: int, p: nat)
    requires IsPrime(p) && p > 0 && (e == 1 || e == -1) && !Cong(qx, 0, p) && !Cong(qy, 0, p) && !Cong(w, 0, p) &&
             !Cong(d, 0, p)
    requires Cong(yb, (e * qy) * (w * (w * w)), p) && Cong(v, (d * yb) * qx, p)
    ensures !Cong(v, 0, p)
  {
    hide IsPrime, Cong;
    SignedNonzero(e, qy, p);
    if Cong(v, 0, p) {
      CongSym(v, (d * yb) * qx, p);
      CongTrans((d * yb) * qx, v, 0, p);
      PrimeProduct(d * yb, qx, p);
      PrimeProduct(d, yb, p);
      CongSym(yb, (e * qy) * (w * (w * w)), p);
      CongTrans((e * qy) * (w * (w * w)), yb, 0, p);
      PrimeProduct(e * qy, w * (w * w), p);
      PrimeProduct(w, w * w, p);
      PrimeProduct(w, w, p);
    }
  }

  lemma SignedNonzero(e: int, y: int, p: nat)
    requires p > 0 && (e == 1 || e == -1) && !Cong(y, 0, p)
    ensures !Cong(e * y, 0, p)
  {
    if Cong(e * y, 0, p) {
      var k := CongWitness(e * y, 0, p);
      hide Cong;
      MulNeg(p, k);
      CongIntro(y, 0, p, e * k);
    }
  }

  /** What ToInvert and FinalZ compute, up to congruence. */
  lemma InvertCong(s: Pair, bit: bool, px: int, p: nat)
    requires p > 0
    ensures Cong(ToInvert(s, bit, px, p), ((s.x1 - s.x0) * (if bit then s.y1 else s.y0)) * px, p)
    ensures 0 <= ToInvert(s, bit, px, p) < p
  {
    var yb := if bit then s.y1 else s.y0;
    CongRefl(s.x1, p);
    CongRefl(s.x0, p);
    CongRefl(yb, p);
    CongRefl(px, p);
    SubStands(s.x1, s.x1, s.x0, s.x0, p);
    MulStands(FSub(s.x1, s.x0, p), s.x1 - s.x0, yb, yb, p);
    MulStands(FMul(FSub(s.x1, s.x0, p), yb, p), (s.x1 - s.x0) * yb, px, px, p);
  }

  lemma FinalCong(s: Pair, bit: bool, inverse: int, py: int, p: nat)
    requires p > 0
    ensures Cong(FinalZ(s, bit, inverse, py, p), (inverse * py) * (if bit then s.x1 else s.x0), p)
  {
    var xb := if bit then s.x1 else s.x0;
    CongRefl(inverse, p);
    CongRefl(py, p);
    CongRefl(xb, p);
    MulStands(inverse, inverse, py, py, p);
    MulStands(FMul(inverse, py, p), inverse * py, xb, xb, p);
  }

  /** The recovered value is the inverse of the z of the final addition. */
  lemma FinalZCorrect(t: Pair, bit: bool, q: Point, w: int, p: nat)
    requires IsPrime(p) && p > 0 && q.Affine? && !Cong(q.x, 0, p) && !Cong(q.y, 0, p) && !Cong(w, 0, p)
    requires !Cong(t.x1 - t.x0, 0, p)
    requires var (xb, yb) := if bit then (t.x1, t.y1) else (t.x0, t.y0);
             var e := if bit then 1 else -1;
             Cong(xb, q.x * (w * w), p) && Cong(yb, (e * q.y) * (w * (w * w)), p)
    ensures var zf := FinalZ(t, bit, Inv(ToInvert(t, bit, q.x, p), p), q.y, p);
            Cong(zf * (w * (if bit then t.x1 - t.x0 else t.x0 - t.x1)), 1, p)
  {
    hide IsPrime, ToInvert, FinalZ;
    var (xb, yb) := if bit then (t.x1, t.y1) else (t.x0, t.y0);
    var e, d := if bit then 1 else -1, t.x1 - t.x0;
    var v := ToInvert(t, bit, q.x, p);
    InvertCong(t, bit, q.x, p);
    InvertibleZ(xb, yb, d, q.x, q.y, e, w, v, p);
    var i := Inv(v, p);
    InvWorks(v, p);
    FinalCong(t, bit, i, q.y, p);
    hide Cong, Inv;
    RecoverZ(xb, yb, d, q.x, q.y, e, w, v, i, FinalZ(t, bit, i, q.y, p), p);
    assert e * (w * d) == w * (if bit then d else -d) by { MulNeg(w, d); }
  }

  lemma InvWorks(v: int, p: nat)
    requires IsPrime(p) && p > 0 && !Cong(v, 0, p)
    ensures Cong(v * Inv(v, p), 1, p)
  {
    assert v % p != 0;
  }

  /** The last step ends with the affine coordinates of k * q. */
  lemma FinishCorrect(c: Equation, s: Pair, z: int, m: nat, bit: bool, q: Point, n: nat)
    requires IsGroup(c) && HasOrder(c, q, n) && n % 2 == 1 && Regular(m, n) && IsPrime(c.p)
    requires Holds(s, z, m, q, c) && q.Affine? && !Cong(q.x, 0, c.p)
    ensures var r := Mul(c, 2 * m + (if bit then 1 else 0), q);
            r.Affine? && Finish(s, bit, q.x, q.y, c.p) == (r.x, r.y)
  {
    hide IsGroup, OnCurve, Add, Mul, HasOrder, AddSubForm, AddForm, IsPrime, ScaleForm, ToInvert, FinalZ, Inv;
    GroupPrime(c);
    OrderFacts(c, q, n);
    OddOrderY(c, q, n);
    var p := c.p;
    var t, w := HalfCorrect(c, s, z, m, bit, q, n);
    var k := 2 * m + (if bit then 1 else 0);
    var u := AddStep(t, bit, p);
    var zz := w * (if bit then t.x1 - t.x0 else t.x0 - t.x1);
    NegOrdinate(c, q, t, w);
    SumDiffer(c, t, w, m, bit, q, n);
    FinalZCorrect(t, bit, q, w, p);
    AddStepCorrect(c, t, w, m, bit, q, n);
    MulOnCurve(c, k, q);
    CoordinatesReduced(c, Mul(c, k, q));
    UnscaleCorrect(u.x0, u.y0, zz, FinalZ(t, bit, Inv(ToInvert(t, bit, q.x, p), p), q.y, p), Mul(c, k, q), p);
  }

  lemma CoordinatesReduced(c: Equation, r: Point)
    requires c.p > 0 && OnCurve(c, r) && r.Affine?
    ensures 0 <= r.x < c.p && 0 <= r.y < c.p
  {
  }

  /** The register of the negated point, in terms of the point itself. */
  lemma NegOrdinate(c: Equation, q: Point, t: Pair, w: int)
    requires c.p > 0 && q.Affine?
    ensures Rep(t.x0, t.y0, w, Neg(c, q), c.p) ==>
              !Cong(w, 0, c.p) && Cong(t.x0, q.x * (w * w), c.p) && Cong(t.y0, (-1 * q.y) * (w * (w * w)), c.p)
    ensures Rep(t.x1, t.y1, w, q, c.p) ==>
              !Cong(w, 0, c.p) && Cong(t.x1, q.x * (w * w), c.p) && Cong(t.y1, (1 * q.y) * (w * (w * w)), c.p)
  {
    CongRefl(0, c.p);
    CongRefl(q.y, c.p);
    SubStands(0, 0, q.y, q.y, c.p);
    hide FSub, Cong;
    if Rep(t.x0, t.y0, w, Neg(c, q), c.p) {
      CongScale(Neg(c, q).y, 0 - q.y, w * (w * w), c.p);
      CongTrans(t.y0, Neg(c, q).y * (w * (w * w)), (0 - q.y) * (w * (w * w)), c.p);
    }
  }

  /** The two registers differ because their points do. */
  lemma SumDiffer(c: Equation, t: Pair, w: int, m: nat, bit: bool, q: Point, n: nat)
    requires IsGroup(c) && HasOrder(c, q, n) && n % 2 == 1 && Regular(m, n) && IsPrime(c.p) && c.p > 0
    requires if bit then Rep(t.x0, t.y0, w, Mul(c, 2 * m + 1, q), c.p) && Rep(t.x1, t.y1, w, q, c.p)
             else Rep(t.x1, t.y1, w, Mul(c, 2 * m + 1, q), c.p) && Rep(t.x0, t.y0, w, Neg(c, q), c.p)
    ensures !Cong(t.x1 - t.x0, 0, c.p)
  {
    hide IsGroup, OnCurve, Add, Mul, HasOrder, IsPrime;
    var p, r := c.p, Mul(c, 2 * m + 1, q);
    RegularPoints(c, m, q, n);
    OrderFacts(c, q, n);
    MulOnCurve(c, 2 * m + 1, q);
    CoordinatesReduced(c, r);
    CoordinatesReduced(c, q);
    NegX(c, q);
    hide Neg, Cong;
    var a, b := if bit then r.x else q.x, if bit then q.x else r.x;
    DistinctReduced(a, b, p);
    DeltaX(t.x0, t.x1, a, b, w * w, p);
    if Cong(t.x1 - t.x0, 0, p) {
      CongSym(t.x1 - t.x0, (b - a) * (w * w), p);
      CongTrans((b - a) * (w * w), t.x1 - t.x0, 0, p);
      PrimeProduct(b - a, w * w, p);
      PrimeProduct(w, w, p);
    }
  }

  /** XYcZ_add of the last step: register 0 becomes k * q. */
  lemma AddStepCorrect(c: Equation, t: Pair, w: int, m: nat, bit: bool, q: Point, n: nat)
    requires IsGroup(c) && HasOrder(c, q, n) && n % 2 == 1 && Regular(m, n) && IsPrime(c.p) && c.p > 0
    requires if bit then Rep(t.x0, t.y0, w, Mul(c, 2 * m + 1, q), c.p) && Rep(t.x1, t.y1, w, q, c.p)
             else Rep(t.x1, t.y1, w, Mul(c, 2 * m + 1, q), c.p) && Rep(t.x0, t.y0, w, Neg(c, q), c.p)
    ensures var u := AddStep(t, bit, c.p);
            Rep(u.x0, u.y0, w * (if bit then t.x1 - t.x0 else t.x0 - t.x1),
                Mul(c, 2 * m + (if bit then 1 else 0), q), c.p)
  {
    hide IsGroup, OnCurve, Add, Mul, HasOrder, Rep, AddForm, Neg, IsPrime;
    var r := Mul(c, 2 * m + 1, q);
    OrderFacts(c, q, n);
    MulOnCurve(c, 2 * m + 1, q);
    NegOnCurve(c, q);
    RegularPoints(c, m, q, n);
    NegX(c, q);
    if bit {
      AddFormCorrect(c, t.x0, t.y0, t.x1, t.y1, w, r, q);
    } else {
      AddFormCorrect(c, t.x1, t.y1, t.x0, t.y0, w, r, Neg(c, q));
      MulPred(c, 2 * m, q);
    }
  }

  //
  // The result of the scalar multiplication
  //

  /** XYcZ_initial_double on field elements, with the doubling result passed in: the doubled
      point in register 1 and the point itself, rescaled, in register 0. */
  function Start(px: int, py: int, dx: int, dy: int, dz: int, p: nat): Pair
    requires p > 0
  {
    var (x0, y0) := ScaleForm(px, py, dz, p);
    Pair(x0, y0, dx, dy)
  }

  /** EccPoint_mult after the first doubling. */
  ghost function Climb(s: Pair, px: int, py: int, k: nat, numBits: nat, p: nat): (int, int)
    requires IsPrime(p) && numBits >= 2
  {
    Finish(Run(s, k, numBits - 2, p), Bit(k, 0), px, py, p)
  }

  lemma StartCorrect(c: Equation, q: Point, dx: int, dy: int, dz: int, n: nat)
    requires IsGroup(c) && HasOrder(c, q, n) && IsPrime(c.p) && c.p > 0
    requires Rep(dx, dy, dz, Add(c, q, q), c.p)
    ensures q.Affine? && Holds(Start(q.x, q.y, dx, dy, dz, c.p), dz, 1, q, c)
  {
    OrderFacts(c, q, n);
    ScaleFormCorrect(q.x, q.y, dz, c.p);
    hide IsGroup, HasOrder, Add, OnCurve;
    MulOne(c, q);
    MulSucc(c, 1, q);
  }

  /** On a regular scalar with its top bit at position numBits - 1 the ladder yields k * q. */
  lemma ClimbCorrect(c: Equation, s: Pair, z: int, q: Point, k: nat, numBits: nat, n: nat)
    requires IsGroup(c) && HasOrder(c, q, n) && n % 2 == 1 && IsPrime(c.p) && numBits >= 2
    requires q.Affine? && !Cong(q.x, 0, c.p)
    requires Holds(s, z, 1, q, c) && Prefix(k, numBits - 1) == 1 && RegularFrom(k, 0, numBits - 1, n)
    ensures var r := Mul(c, k, q);
            r.Affine? && Climb(s, q.x, q.y, k, numBits, c.p) == (r.x, r.y)
  {
    hide IsGroup, HasOrder, IsPrime, Mul, Regular, Holds, Finish, Prefix;
    GroupPrime(c);
    var z' := RunCorrect(c, s, z, k, numBits - 2, q, n);
    PrefixStep(k, 0);
    PrefixZero(k);
    FinishCorrect(c, Run(s, k, numBits - 2, c.p), z', Prefix(k, 1), Bit(k, 0), q, n);
  }

  /** A point with abscissa zero is mapped to (0, 0), whatever the scalar. */
  lemma ZeroAbscissa(s: Pair, py: int, k: nat, numBits: nat, p: nat)
    requires IsPrime(p) && numBits >= 2
    ensures Climb(s, 0, py, k, numBits, p) == (0, 0)
  {
    var r := Run(s, k, numBits - 2, p);
    var bit := Bit(k, 0);
    var t := AddSubStep(r, bit, p);
    assert ToInvert(t, bit, 0, p) == 0 by { ZeroFactor(FMul(FSub(t.x1, t.x0, p), if bit then t.y1 else t.y0, p), p); }
    hide AddSubStep, AddStep, Run, ToInvert;
    InvertedZero(t, bit, py, p);
    ScaledByZero(AddStep(t, bit, p).x0, AddStep(t, bit, p).y0, p);
  }

  lemma ZeroFactor(x: int, p: nat)
    requires p > 0
    ensures FMul(x, 0, p) == 0 && FMul(0, x, p) == 0
  {
    assert x * 0 == 0;
    ModSmall(0, p);
  }

  lemma InvertedZero(t: Pair, bit: bool, py: int, p: nat)
    requires IsPrime(p)
    ensures FinalZ(t, bit, Inv(0, p), py, p) == 0
  {
    ModSmall(0, p);
    ZeroFactor(py, p);
    ZeroFactor(if bit then t.x1 else t.x0, p);
  }

  lemma ScaledByZero(x: int, y: int, p: nat)
    requires p > 0
    ensures ScaleForm(x, y, 0, p) == (0, 0)
  {
    ZeroFactor(0, p);
    ZeroFactor(x, p);
    ZeroFactor(y, p);
  }

  //
  // Opposite points
  //

  /** Coordinates that lie on the cusp y^2 = x^3. */
  ghost predicate Cusp(x: int, y: int, p: nat)
    requires p > 0
  {
    0 <= x < p && 0 <= y < p && Cong(y * y, x * (x * x), p)
  }

  /** One register zero and the other on the cusp. */
  ghost predicate Collapsed(s: Pair, p: nat)
    requires p > 0
  {
    (s.x0 == 0 && s.y0 == 0 && Cusp(s.x1, s.y1, p)) || (s.x1 == 0 && s.y1 == 0 && Cusp(s.x0, s.y0, p))
  }

  lemma Neutral(x: int, p: nat)
    requires p > 0 && 0 <= x < p
    ensures FSub(x, 0, p) == x && FAdd(x, 0, p) == x && FAdd(0, x, p) == x && FSub(x, x, p) == 0
  {
    ModSmall(x, p);
    ModSmall(0, p);
  }

  lemma MulCommutes(x: int, y: int, p: nat)
    requires p > 0
    ensures FMul(x, y, p) == FMul(y, x, p)
  {
    assert x * y == y * x;
  }

  /** Negating one factor or the other is the same. */
  lemma NegFactor(x: int, y: int, p: nat)
    requires p > 0
    ensures FMul(FSub(0, x, p), y, p) == FMul(x, FSub(0, y, p), p)
    ensures Cong(FMul(x, FSub(0, y, p), p), -(x * y), p)
  {
    CongRefl(0, p);
    CongRefl(x, p);
    CongRefl(y, p);
    SubStands(0, 0, x, x, p);
    SubStands(0, 0, y, y, p);
    MulStands(FSub(0, x, p), 0 - x, y, y, p);
    MulStands(x, x, FSub(0, y, p), 0 - y, p);
    CongRefl(-(x * y), p);
    hide Cong, FMul, FSub;
    assert (0 - x) * y == -(x * y) && x * (0 - y) == -(x * y);
    StandsEqual(FMul(FSub(0, x, p), y, p), FMul(x, FSub(0, y, p), p), -(x * y), -(x * y), p);
  }

  lemma NegSquare(x: int, p: nat)
    requires p > 0
    ensures FMul(FSub(0, x, p), FSub(0, x, p), p) == FMul(x, x, p)
  {
    CongRefl(0, p);
    CongRefl(x, p);
    SubStands(0, 0, x, x, p);
    MulStands(FSub(0, x, p), 0 - x, FSub(0, x, p), 0 - x, p);
    MulStands(x, x, x, x, p);
    CongRefl(x * x, p);
    hide Cong, FMul, FSub;
    assert (0 - x) * (0 - x) == x * x;
    StandsEqual(FMul(FSub(0, x, p), FSub(0, x, p), p), FMul(x, x, p), (0 - x) * (0 - x), x * x, p);
  }

  /** On the cusp the square of the ordinate is the cube of the abscissa, also as registers. */
  lemma CuspRegisters(x: int, y: int, p: nat)
    requires p > 0 && Cusp(x, y, p)
    ensures FMul(y, y, p) == FMul(x, FMul(x, x, p), p)
    ensures 0 <= x < p && 0 <= y < p
  {
    CongRefl(x, p);
    CongRefl(y, p);
    MulStands(x, x, x, x, p);
    MulStands(x, x, FMul(x, x, p), x * x, p);
    MulStands(y, y, y, y, p);
    StandsEqual(FMul(y, y, p), FMul(x, FMul(x, x, p), p), y * y, x * (x * x), p);
  }

  /** Adding and subtracting (0, 0) and a cusp point gives zeros everywhere. */
  lemma CuspVanishes(x: int, y: int, p: nat)
    requires p > 0 && Cusp(x, y, p)
    ensures AddSubForm(0, 0, x, y, p) == (0, 0, 0, 0)
    ensures AddSubForm(x, y, 0, 0, p) == (0, 0, 0, 0)
  {
    CuspRegisters(x, y, p);
    hide Cusp, FMul, FSub, FAdd;
    var e := FMul(x, FMul(x, x, p), p);
    Neutral(x, p);
    Neutral(y, p);
    Neutral(0, p);
    Neutral(e, p);
    ZeroFactor(FMul(x, x, p), p);
    ZeroFactor(FSub(e, 0, p), p);
    ZeroFactor(FSub(0, e, p), p);
    ZeroFactor(y, p);
    NegSquare(x, p);
    NegSquare(y, p);
    NegFactor(y, e, p);
    MulCommutes(FSub(0, e, p), y, p);
    Neutral(FMul(y, FSub(0, e, p), p), p);
  }

  /** Cusp coordinates built from any w. */
  lemma CuspFrom(w: int, p: nat)
    requires p > 0
    ensures var d := FMul(w, w, p); Cusp(d, FMul(w, FSub(0, d, p), p), p)
  {
    var d := FMul(w, w, p);
    var v := FMul(w, FSub(0, d, p), p);
    CongRefl(w, p);
    MulStands(w, w, w, w, p);
    CongSym(d, w * w, p);
    NegFactor(w, d, p);
    CongMul(v, -(w * d), v, -(w * d), p);
    CongScale(w * w, d, d * d, p);
    hide Cong, FMul, FSub;
    assert (-(w * d)) * (-(w * d)) == (w * w) * (d * d) by { MulNegNeg(w * d); SquareOfProduct(w, d); }
    CongTrans(v * v, (w * w) * (d * d), d * (d * d), p);
  }

  lemma MulNegNeg(x: int)
    ensures (-x) * (-x) == x * x
  {
  }

  lemma SquareOfProduct(w: int, d: int)
    ensures (w * d) * (w * d) == (w * w) * (d * d)
  {
    MulAssoc(w, d, w * d);
    MulSwap(d, w, d);
    MulAssoc(w, w, d * d);
  }

  /** XYcZ_add of a cusp point and (0, 0): the cusp point moves to another one. */
  lemma CuspMoves(x: int, y: int, p: nat)
    requires p > 0 && Cusp(x, y, p)
    ensures var (u, v, a, b) := AddForm(x, y, 0, 0, p); Cusp(u, v, p) && a == 0 && b == 0
  {
    CuspRegisters(x, y, p);
    CuspFrom(y, p);
    hide Cusp, FMul, FSub;
    var e := FMul(x, FMul(x, x, p), p);
    Neutral(0, p);
    Neutral(e, p);
    ZeroFactor(FMul(x, x, p), p);
    NegSquare(x, p);
    NegSquare(y, p);
    NegFactor(y, e, p);
    Neutral(FMul(y, FSub(0, e, p), p), p);
  }

  /** XYcZ_addC of opposite points: one register (0, 0), the other on the cusp. */
  lemma OppositeVanish(x: int, y1: int, y2: int, p: nat)
    requires p > 0 && 0 <= x < p && FAdd(y2, y1, p) == 0
    ensures var (a, b, u, v) := AddSubForm(x, y1, x, y2, p); a == 0 && b == 0 && Cusp(u, v, p)
  {
    var w := FSub(y2, y1, p);
    CuspFrom(w, p);
    hide Cusp, FMul, FSub, FAdd;
    Neutral(x, p);
    Neutral(0, p);
    ZeroFactor(0, p);
    ZeroFactor(x, p);
    ZeroFactor(y1, p);
    var d := FMul(w, w, p);
    Neutral(d, p);
    Neutral(FMul(w, FSub(0, d, p), p), p);
  }

  /** A step on opposite points leaves one register zero and the other on the cusp. */
  lemma OppositeStep(s: Pair, bit: bool, p: nat)
    requires p > 0 && s.x0 == s.x1 && 0 <= s.x0 < p && FAdd(s.y0, s.y1, p) == 0
    ensures Collapsed(Step(s, bit, p), p)
    ensures bit ==> Step(s, bit, p).x1 == 0 == Step(s, bit, p).y1
    ensures !bit ==> Step(s, bit, p).x0 == 0 == Step(s, bit, p).y0
  {
    assert FAdd(s.y1, s.y0, p) == 0 by { assert s.y1 + s.y0 == s.y0 + s.y1; }
    hide Cusp, AddSubForm, AddForm, FAdd;
    var t := AddSubStep(s, bit, p);
    if bit {
      OppositeVanish(s.x0, s.y1, s.y0, p);
      CuspMoves(t.x0, t.y0, p);
    } else {
      OppositeVanish(s.x0, s.y0, s.y1, p);
      CuspMoves(t.x1, t.y1, p);
    }
  }

  /** From a collapsed pair the last step returns (0, 0). */
  lemma CollapsedFinish(s: Pair, bit: bool, px: int, py: int, p: nat)
    requires IsPrime(p) && p > 0 && Collapsed(s, p)
    ensures Finish(s, bit, px, py, p) == (0, 0)
  {
    hide Cusp, AddSubForm, AddForm, IsPrime, FinalZ;
    if s.x0 == 0 && s.y0 == 0 && Cusp(s.x1, s.y1, p) {
      CuspVanishes(s.x1, s.y1, p);
    } else {
      CuspVanishes(s.x0, s.y0, p);
    }
    var t := AddSubStep(s, bit, p);
    assert t == Pair(0, 0, 0, 0);
    ZeroInverted(bit, px, p);
    InvertedZero(t, bit, py, p);
    hide AddSubStep, AddStep, ToInvert;
    ScaledByZero(AddStep(t, bit, p).x0, AddStep(t, bit, p).y0, p);
  }

  lemma ZeroInverted(bit: bool, px: int, p: nat)
    requires p > 0
    ensures ToInvert(Pair(0, 0, 0, 0), bit, px, p) == 0
  {
    Neutral(0, p);
    ZeroFactor(0, p);
    ZeroFactor(px, p);
  }

  /** Registers of opposite multiples m * q and (m + 1) * q. */
  lemma OppositeRegisters(c: Equation, s: Pair, z: int, m: nat, q: Point, n: nat)
    requires IsGroup(c) && HasOrder(c, q, n) && n % 2 == 1 && IsPrime(c.p)
    requires Holds(s, z, m, q, c) && (2 * m + 1) % n == 0
    ensures c.p > 0 && s.x0 == s.x1 && 0 <= s.x0 < c.p && FAdd(s.y0, s.y1, c.p) == 0
  {
    hide IsGroup, OnCurve, Add, Mul, HasOrder, IsPrime;
    GroupPrime(c);
    var p, r := c.p, Mul(c, m, q);
    OrderFacts(c, q, n);
    MulZero(c, 2 * m + 1, q, n);
    MulAdd(c, m, m + 1, q);
    MulOnCurve(c, m, q);
    MulOnCurve(c, m + 1, q);
    InverseUnique(c, r, Mul(c, m + 1, q));
    SameScaled(s.x0, s.x1, r.x, Mul(c, m + 1, q).x, z * z, p);
    CongRefl(0, p);
    CongRefl(r.y, p);
    SubStands(0, 0, r.y, r.y, p);
    hide FSub, Cong;
    OppositeSum(s.y0, s.y1, r.y, Neg(c, r).y, z * (z * z), p);
  }

  lemma SameScaled(x0: int, x1: int, a: int, b: int, k: int, p: nat)
    requires p > 0 && a == b && Stands(x0, a * k, p) && Stands(x1, b * k, p)
    ensures x0 == x1
  {
    CongRefl(a * k, p);
    StandsEqual(x0, x1, a * k, b * k, p);
  }

  lemma OppositeSum(y0: int, y1: int, a: int, b: int, k: int, p: nat)
    requires p > 0 && Cong(y0, a * k, p) && Cong(y1, b * k, p) && Cong(b, 0 - a, p)
    ensures FAdd(y0, y1, p) == 0
  {
    AddStands(y0, a * k, y1, b * k, p);
    CongScale(b, 0 - a, k, p);
    CongRefl(a * k, p);
    CongAdd(a * k, a * k, b * k, (0 - a) * k, p);
    ModSmall(0, p);
    CongRefl(0, p);
    hide Cong, FAdd;
    assert a * k + (0 - a) * k == 0 by { MulNeg(k, a); }
    StandsEqual(FAdd(y0, y1, p), 0, a * k + b * k, 0, p);
  }

  /** A point whose sum with r is infinity is the negative of r. */
  lemma InverseUnique(c: Equation, r: Point, s: Point)
    requires IsGroup(c) && OnCurve(c, r) && OnCurve(c, s) && IsPrime(c.p) && c.p > 0 && Add(c, r, s) == Infinity
    ensures s == Neg(c, r)
  {
    hide IsGroup, OnCurve, Add, Neg;
    NegOnCurve(c, r);
    AddNeg(c, r);
    AddInfinity(c, s);
    AddInfinity(c, Neg(c, r));
    Assoc(c, Neg(c, r), r, s);
  }

  /** When the step before the last meets opposite points, the ladder returns (0, 0). */
  lemma ClimbCollapses(c: Equation, s: Pair, z: int, q: Point, k: nat, numBits: nat, n: nat)
    requires IsGroup(c) && HasOrder(c, q, n) && n % 2 == 1 && IsPrime(c.p) && numBits >= 3
    requires Holds(s, z, 1, q, c) && Prefix(k, numBits - 1) == 1
    requires RegularFrom(k, 2, numBits - 1, n) && (2 * Prefix(k, 2) + 1) % n == 0
    ensures q.Affine? && Climb(s, q.x, q.y, k, numBits, c.p) == (0, 0)
  {
    hide IsGroup, HasOrder, IsPrime, Mul, Regular, Holds, Finish, Prefix, Step;
    GroupPrime(c);
    OrderFacts(c, q, n);
    var t, w := RunToTwo(c, s, z, k, numBits - 2, q, n);
    OppositeRegisters(c, t, w, Prefix(k, 2), q, n);
    OppositeStep(t, Bit(k, 1), c.p);
    assert Run(t, k, 1, c.p) == Step(t, Bit(k, 1), c.p) by { RunOne(t, k, c.p); }
    CollapsedFinish(Step(t, Bit(k, 1), c.p), Bit(k, 0), q.x, q.y, c.p);
  }

  lemma RunOne(s: Pair, k: nat, p: nat)
    requires p > 0
    ensures Run(s, k, 1, p) == Step(s, Bit(k, 1), p)
  {
    assert Run(Step(s, Bit(k, 1), p), k, 0, p) == Step(s, Bit(k, 1), p);
  }

  /** The loop up to the point where bit 1 is next. */
  lemma {:induction false} RunToTwo(c: Equation, s: Pair, z: int, k: nat, i: nat, q: Point, n: nat)
    returns (t: Pair, w: int)
    requires IsGroup(c) && HasOrder(c, q, n) && n % 2 == 1 && IsPrime(c.p) && c.p > 0 && i >= 1
    requires RegularFrom(k, 2, i + 1, n) && Holds(s, z, Prefix(k, i + 1), q, c)
    ensures Holds(t, w, Prefix(k, 2), q, c) && Run(s, k, i, c.p) == Run(t, k, 1, c.p)
    decreases i
  {
    hide IsGroup, HasOrder, Holds, Step, Prefix, IsPrime, Regular;
    if i == 1 {
      t, w := s, z;
    } else {
      var w' := StepCorrect(c, s, z, Prefix(k, i + 1), Bit(k, i), q, n);
      PrefixStep(k, i);
      t, w := RunToTwo(c, Step(s, Bit(k, i), c.p), w', k, i - 1, q, n);
    }
  }
}
