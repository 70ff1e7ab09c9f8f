/** The points of a short Weierstrass curve over the integers modulo a prime, and their
    chord-and-tangent addition. That this addition is associative on the curve is a classical
    theorem; it is a hypothesis here (IsGroup), and the rest is proved from it. */
module CurveGroup {
  import opened Arith
  import opened Congruence
  import opened Field

  datatype Point = Infinity | Affine(x: int, y: int)

  /** y^2 = x^3 + a x + b modulo p. */
  datatype Equation = Equation(p: nat, a: int, b: int)

  ghost predicate OnCurve(c: Equation, pt: Point)
    requires c.p > 0
  {
    pt.Affine? ==> 0 <= pt.x < c.p && 0 <= pt.y < c.p && Cong(pt.y * pt.y, RightSide(c, pt.x), c.p)
  }

  function RightSide(c: Equation, x: int): int {
    x * x * x + c.a * x + c.b
  }

  /** The inverse modulo a prime, and zero for zero. */
  ghost function Inv(x: int, p: nat): (i: int)
    requires IsPrime(p)
    ensures 0 <= i < p && (x % p != 0 ==> Cong(x * i, 1, p))
  {
    if x % p == 0 then 0 else
      assert exists i :: 0 <= i < p && Cong(x * i, 1, p) by {
        PrimeCoprime(x, p);
        var i := InverseExists(x, p);
      }
      var i :| 0 <= i < p && Cong(x * i, 1, p);
      i
  }

  /** The third point on the line of slope l through (x1, y1) and a point with abscissa x2, reflected. */
  function ThirdPoint(l: int, x1: int, y1: int, x2: int, p: nat): Point
    requires p > 0
  {
    var x3 := FSub(FSub(FMul(l, l, p), x1, p), x2, p);
    Affine(x3, FSub(FMul(l, FSub(x1, x3, p), p), y1, p))
  }

  function Neg(c: Equation, q: Point): Point
    requires c.p > 0
  {
    match q
    case Infinity => Infinity
    case Affine(x, y) => Affine(x, FSub(0, y, c.p))
  }

  ghost function Add(c: Equation, q: Point, r: Point): Point
    requires IsPrime(c.p)
  {
    match (q, r)
    case (Infinity, _) => r
    case (_, Infinity) => q
    case (Affine(x1, y1), Affine(x2, y2)) =>
      if x1 != x2 then ThirdPoint((y2 - y1) * Inv(x2 - x1, c.p), x1, y1, x2, c.p)
      else if (y1 + y2) % c.p == 0 then Infinity
      else ThirdPoint((3 * x1 * x1 + c.a) * Inv(2 * y1, c.p), x1, y1, x1, c.p)
  }

  /** The addition keeps to the curve and is associative on it. */
  ghost predicate IsGroup(c: Equation) {
    IsPrime(c.p) && c.p > 3 &&
    (forall q, r :: OnCurve(c, q) && OnCurve(c, r) ==> OnCurve(c, Add(c, q, r))) &&
    (forall q, r, s :: OnCurve(c, q) && OnCurve(c, r) && OnCurve(c, s) ==>
                         Add(c, Add(c, q, r), s) == Add(c, q, Add(c, r, s)))
  }

  //
  // The addition without inverses
  //

  lemma CongScale(x: int, y: int, k: int, m: nat)
    requires m > 0 && Cong(x, y, m)
    ensures Cong(x * k, y * k, m)
  {
    CongRefl(k, m);
    CongMul(x, y, k, k, m);
  }

  /** The slope of the chord. */
  lemma Slope(num: int, dx: int, p: nat)
    requires IsPrime(p) && !Cong(dx, 0, p)
    ensures Cong((num * Inv(dx, p)) * dx, num, p)
  {
    var i := Inv(dx, p);
    assert Cong(dx * i, 1, p);
    CongScale(dx * i, 1, num, p);
    hide Cong, Inv;
    MulSwap(num, i, dx);
    MulAssoc(i, num, dx);
    assert (num * i) * dx == (dx * i) * num by { MulAssoc(num, i, dx); }
  }

  /** Different reduced numbers are not congruent. */
  lemma DistinctReduced(x1: int, x2: int, p: nat)
    requires p > 0 && 0 <= x1 < p && 0 <= x2 < p && x1 != x2
    ensures !Cong(x2 - x1, 0, p)
  {
    if Cong(x2 - x1, 0, p) {
      var k := CongWitness(x2 - x1, 0, p);
      CongIntro(x2, x1, p, k);
      CongReduced(x2, x1, p);
    }
  }

  /** The third point of a line of slope num / den: the reflected point lies on the line, and the three
      abscissas add up to the square of the slope. */
  lemma ThirdPointLaw(num: int, den: int, x1: int, y1: int, x2: int, p: nat)
    requires IsPrime(p) && p > 0 && !Cong(den, 0, p)
    ensures var s := ThirdPoint(num * Inv(den, p), x1, y1, x2, p);
            0 <= s.x < p && 0 <= s.y < p &&
            Cong((s.y + y1) * den, num * (x1 - s.x), p) && Cong((s.x + x1 + x2) * (den * den), num * num, p)
  {
    var l := num * Inv(den, p);
    Slope(num, den, p);
    var x3 := FSub(FSub(FMul(l, l, p), x1, p), x2, p);
    CongMod(l * l, p);
    CongRefl(x1, p);
    CongRefl(x2, p);
    CongRefl(y1, p);
    CongRefl(l, p);
    SubStands(FMul(l, l, p), l * l, x1, x1, p);
    SubStands(FSub(FMul(l, l, p), x1, p), l * l - x1, x2, x2, p);
    CongRefl(x3, p);
    SubStands(x1, x1, x3, x3, p);
    MulStands(l, l, FSub(x1, x3, p), x1 - x3, p);
    SubStands(FMul(l, FSub(x1, x3, p), p), l * (x1 - x3), y1, y1, p);
    var y3 := FSub(FMul(l, FSub(x1, x3, p), p), y1, p);
    hide IsPrime, Cong, FSub, FMul, Inv;
    CongAdd(y3, l * (x1 - x3) - y1, y1, y1, p);
    LineTimes(y3 + y1, l, den, num, x1 - x3, p);
    CongAdd(x3, l * l - x1 - x2, x1, x1, p);
    CongAdd(x3 + x1, l * l - x2, x2, x2, p);
    SquareTimes(x3 + x1 + x2, l, den, num, p);
  }

  lemma LineTimes(v: int, l: int, den: int, num: int, w: int, p: nat)
    requires p > 0 && Cong(v, l * w, p) && Cong(l * den, num, p)
    ensures Cong(v * den, num * w, p)
  {
    CongRefl(den, p);
    CongRefl(w, p);
    CongMul(v, l * w, den, den, p);
    CongMul(l * den, num, w, w, p);
    assert (l * w) * den == (l * den) * w by { MulAssoc(l, w, den); MulAssoc(l, den, w); }
    CongTrans(v * den, (l * w) * den, num * w, p);
  }

  lemma SquareTimes(v: int, l: int, den: int, num: int, p: nat)
    requires p > 0 && Cong(v, l * l, p) && Cong(l * den, num, p)
    ensures Cong(v * (den * den), num * num, p)
  {
    CongRefl(den * den, p);
    CongMul(v, l * l, den * den, den * den, p);
    CongMul(l * den, num, l * den, num, p);
    assert (l * l) * (den * den) == (l * den) * (l * den) by {
      MulAssoc(l, l, den * den);
      MulSwap(l, den, den);
      MulAssoc(l, den, l * den);
    }
    CongTrans(v * (den * den), (l * l) * (den * den), num * num, p);
  }

  /** The chord rule: the reflected sum lies on the line through the two points, and the square of the slope
      is the sum of the three abscissas. */
  lemma ChordLaw(c: Equation, x1: int, y1: int, x2: int, y2: int)
    requires IsPrime(c.p) && c.p > 0 && 0 <= x1 < c.p && 0 <= x2 < c.p && x1 != x2
    ensures var s := Add(c, Affine(x1, y1), Affine(x2, y2));
            s.Affine? && 0 <= s.x < c.p && 0 <= s.y < c.p &&
            Cong((s.y + y1) * (x2 - x1), (y2 - y1) * (x1 - s.x), c.p) &&
            Cong((s.x + x1 + x2) * ((x2 - x1) * (x2 - x1)), (y2 - y1) * (y2 - y1), c.p)
  {
    DistinctReduced(x1, x2, c.p);
    hide IsPrime, Cong, FSub, FMul, Inv;
    ThirdPointLaw(y2 - y1, x2 - x1, x1, y1, x2, c.p);
  }

  /** The tangent rule, for the line whose slope is that of the curve. */
  lemma TangentLaw(c: Equation, x: int, y: int)
    requires IsPrime(c.p) && c.p > 0 && !Cong(2 * y, 0, c.p)
    ensures var s, num := Add(c, Affine(x, y), Affine(x, y)), 3 * x * x + c.a;
            s.Affine? && 0 <= s.x < c.p && 0 <= s.y < c.p &&
            Cong((s.y + y) * (2 * y), num * (x - s.x), c.p) &&
            Cong((s.x + x + x) * ((2 * y) * (2 * y)), num * num, c.p)
  {
    assert (y + y) % c.p != 0;
    hide IsPrime, Cong, FSub, FMul, Inv;
    ThirdPointLaw(3 * x * x + c.a, 2 * y, x, y, x, c.p);
  }

  /** Opposite points add up to infinity, which is neutral. */
  lemma NeutralLaw(c: Equation, x: int, y: int, y': int, q: Point)
    requires IsPrime(c.p) && c.p > 0
    ensures Cong(y + y', 0, c.p) ==> Add(c, Affine(x, y), Affine(x, y')) == Infinity
    ensures Add(c, q, Infinity) == q && Add(c, Infinity, q) == q
  {
  }

  lemma Closed(c: Equation, q: Point, r: Point)
    requires IsGroup(c) && OnCurve(c, q) && OnCurve(c, r)
    ensures OnCurve(c, Add(c, q, r))
  {
  }

  lemma Assoc(c: Equation, q: Point, r: Point, s: Point)
    requires IsGroup(c) && OnCurve(c, q) && OnCurve(c, r) && OnCurve(c, s)
    ensures Add(c, Add(c, q, r), s) == Add(c, q, Add(c, r, s))
  {
  }

  lemma GroupPrime(c: Equation)
    requires IsGroup(c)
    ensures IsPrime(c.p) && c.p > 3
  {
  }

  lemma NegOnCurve(c: Equation, q: Point)
    requires c.p > 0 && OnCurve(c, q)
    ensures OnCurve(c, Neg(c, q))
  {
    if q.Affine? {
      var y' := FSub(0, q.y, c.p);
      CongRefl(0, c.p);
      CongRefl(q.y, c.p);
      SubStands(0, 0, q.y, q.y, c.p);
      hide FSub, Cong, RightSide;
      CongMul(y', -q.y, y', -q.y, c.p);
      assert (-q.y) * (-q.y) == q.y * q.y;
      CongTrans(y' * y', q.y * q.y, RightSide(c, q.x), c.p);
    }
  }

  /** A point and its negative add up to infinity, in either order. */
  lemma AddNeg(c: Equation, q: Point)
    requires IsPrime(c.p)
    ensures Add(c, q, Neg(c, q)) == Infinity && Add(c, Neg(c, q), q) == Infinity
  {
    if q.Affine? {
      var y' := FSub(0, q.y, c.p);
      CongRefl(0, c.p);
      CongRefl(q.y, c.p);
      SubStands(0, 0, q.y, q.y, c.p);
      CongAdd(y', -q.y, q.y, q.y, c.p);
    }
  }

  /** Points of the curve with equal abscissas are equal or opposite. */
  lemma SameX(c: Equation, q: Point, r: Point)
    requires IsPrime(c.p) && OnCurve(c, q) && OnCurve(c, r) && q.Affine? && r.Affine? && q.x == r.x
    ensures q == r || r == Neg(c, q)
  {
    var p := c.p;
    CongSym(r.y * r.y, RightSide(c, r.x), p);
    CongTrans(q.y * q.y, RightSide(c, q.x), r.y * r.y, p);
    CongRefl(0, p);
    CongRefl(q.y, p);
    SubStands(0, 0, q.y, q.y, p);
    hide Cong, FSub, RightSide;
    var k := CongWitness(q.y * q.y, r.y * r.y, p);
    assert (q.y - r.y) * (q.y + r.y) == q.y * q.y - r.y * r.y;
    CongIntro((q.y - r.y) * (q.y + r.y), 0, p, k);
    PrimeProduct(q.y - r.y, q.y + r.y, p);
    if Cong(q.y - r.y, 0, p) {
      var j := CongWitness(q.y - r.y, 0, p);
      CongIntro(q.y, r.y, p, j);
      CongReduced(q.y, r.y, p);
    } else {
      var j := CongWitness(q.y + r.y, 0, p);
      CongIntro(r.y, -q.y, p, j);
      StandsEqual(r.y, FSub(0, q.y, p), -q.y, 0 - q.y, p) by { CongRefl(-q.y, p); }
    }
  }

  //
  // Multiples of a point
  //

  ghost function Mul(c: Equation, k: nat, q: Point): Point
    requires IsPrime(c.p)
  {
    if k == 0 then Infinity else Add(c, Mul(c, k - 1, q), q)
  }

  lemma {:induction false} MulOnCurve(c: Equation, k: nat, q: Point)
    requires IsGroup(c) && OnCurve(c, q)
    ensures OnCurve(c, Mul(c, k, q))
  {
    hide IsGroup, Add;
    GroupPrime(c);
    if k > 0 {
      MulOnCurve(c, k - 1, q);
      Closed(c, Mul(c, k - 1, q), q);
    }
  }

  lemma MulOne(c: Equation, q: Point)
    requires IsPrime(c.p)
    ensures Mul(c, 1, q) == q
  {
    assert Mul(c, 1, q) == Add(c, Mul(c, 0, q), q);
  }

  lemma AddInfinity(c: Equation, q: Point)
    requires IsPrime(c.p)
    ensures Add(c, q, Infinity) == q && Add(c, Infinity, q) == q
  {
  }

  lemma {:induction false} MulAdd(c: Equation, m: nat, n: nat, q: Point)
    requires IsGroup(c) && OnCurve(c, q)
    ensures Add(c, Mul(c, m, q), Mul(c, n, q)) == Mul(c, m + n, q)
  {
    hide IsGroup, OnCurve, Add, Neg;
    GroupPrime(c);
    if n == 0 {
      AddInfinity(c, Mul(c, m, q));
    } else {
      MulAdd(c, m, n - 1, q);
      MulOnCurve(c, m, q);
      MulOnCurve(c, n - 1, q);
      Assoc(c, Mul(c, m, q), Mul(c, n - 1, q), q);
    }
  }

  lemma {:induction false} MulMul(c: Equation, m: nat, n: nat, q: Point)
    requires IsGroup(c) && OnCurve(c, q)
    ensures Mul(c, m, Mul(c, n, q)) == Mul(c, m * n, q)
  {
    hide IsGroup, OnCurve, Add, Neg;
    GroupPrime(c);
    if m > 0 {
      MulMul(c, m - 1, n, q);
      MulDist(n, m - 1, 1);
      MulAdd(c, (m - 1) * n, n, q);
    }
  }

  lemma {:induction false} MulInfinity(c: Equation, m: nat)
    requires IsPrime(c.p)
    ensures Mul(c, m, Infinity) == Infinity
  {
    if m > 0 { MulInfinity(c, m - 1); }
  }

  /** q has prime order n. */
  ghost predicate HasOrder(c: Equation, q: Point, n: nat)
    requires IsPrime(c.p)
  {
    IsPrime(n) && OnCurve(c, q) && q != Infinity && Mul(c, n, q) == Infinity
  }

  /** A point that a combination of two annihilators fixes is infinity. */
  lemma Annihilated(c: Equation, i: nat, k: nat, j: nat, n: nat, q: Point)
    requires IsGroup(c) && OnCurve(c, q) && i * k == 1 + j * n
    requires Mul(c, k, q) == Infinity && Mul(c, n, q) == Infinity
    ensures q == Infinity
  {
    hide IsGroup, OnCurve, Add, Neg, Mul, IsPrime;
    GroupPrime(c);
    var jn := j * n;
    MulMul(c, i, k, q);
    MulInfinity(c, i);
    MulMul(c, j, n, q);
    MulInfinity(c, j);
    MulAdd(c, 1, jn, q);
    MulOne(c, q);
    AddInfinity(c, q);
  }

  /** An inverse modulo n, as an identity of natural numbers. */
  lemma InverseIdentity(k: nat, n: nat) returns (i: nat, j: nat)
    requires IsPrime(n) && k % n != 0
    ensures i * k == 1 + j * n
  {
    PrimeCoprime(k, n);
    var i' := InverseExists(k, n);
    var j' := CongWitness(k * i', 1, n);
    hide IsPrime, Coprime, Cong;
    MulMono(k, 0, i');
    if j' < 0 { MulMono(n, j', -1); MulNeg(n, 1); }
    if k * i' == 0 { QuotientUnique(n, 0, 1, -j', 0); }
    i, j := i', j';
  }

  /** Exactly the multiples of the order give infinity. */
  lemma MulZero(c: Equation, k: nat, q: Point, n: nat)
    requires IsGroup(c) && HasOrder(c, q, n)
    ensures Mul(c, k, q) == Infinity <==> k % n == 0
  {
    hide IsGroup, OnCurve, Add, Neg;
    GroupPrime(c);
    hide Mul;
    if k % n == 0 {
      DivModDef(k, n);
      DivNonNeg(k, n);
      MulMul(c, k / n, n, q);
      MulInfinity(c, k / n);
      MulSwap(1, n, k / n);
    } else {
      var i, j := InverseIdentity(k, n);
      hide IsPrime;
      if Mul(c, k, q) == Infinity {
        Annihilated(c, i, k, j, n, q);
      }
    }
  }

  /** Equal multiples differ by a multiple of the order. */
  lemma MulEqual(c: Equation, k: nat, m: nat, q: Point, n: nat)
    requires IsGroup(c) && HasOrder(c, q, n) && k <= m && Mul(c, k, q) == Mul(c, m, q)
    ensures (m - k) % n == 0
  {
    hide IsGroup, OnCurve, Add, Neg;
    GroupPrime(c);
    MulOnCurve(c, k, q);
    MulOnCurve(c, m - k, q);
    NegOnCurve(c, Mul(c, k, q));
    MulZero(c, m - k, q, n);
    hide Mul, HasOrder;
    MulAdd(c, k, m - k, q);
    Assoc(c, Neg(c, Mul(c, k, q)), Mul(c, k, q), Mul(c, m - k, q));
    AddNeg(c, Mul(c, k, q));
    AddInfinity(c, Mul(c, m - k, q));
  }

  /** Only the remainder of the factor matters. */
  lemma MulMod(c: Equation, k: nat, q: Point, n: nat)
    requires IsGroup(c) && HasOrder(c, q, n)
    ensures k % n >= 0 && Mul(c, k, q) == Mul(c, k % n, q)
  {
    hide IsGroup, OnCurve, Add, Neg;
    GroupPrime(c);
    DivModDef(k, n);
    DivNonNeg(k, n);
    var m := n * (k / n);
    ModOfMultiple(k / n, n);
    MulMono(n, 0, k / n);
    MulZero(c, m, q, n);
    hide Mul, HasOrder;
    MulAdd(c, m, k % n, q);
    AddInfinity(c, Mul(c, k % n, q));
  }

  /** Neighbouring multiples: their differences. */
  lemma MulDifference(c: Equation, m: nat, q: Point)
    requires IsGroup(c) && OnCurve(c, q)
    ensures Add(c, Mul(c, m + 1, q), Neg(c, Mul(c, m, q))) == q
    ensures Add(c, Mul(c, m, q), Neg(c, Mul(c, m + 1, q))) == Neg(c, q)
  {
    hide IsGroup, OnCurve, Add, Neg;
    GroupPrime(c);
    var r, s := Mul(c, m, q), Mul(c, m + 1, q);
    MulOnCurve(c, m, q);
    MulOnCurve(c, m + 1, q);
    NegOnCurve(c, r);
    NegOnCurve(c, s);
    NegOnCurve(c, q);
    MulOne(c, q);
    MulAdd(c, 1, m, q);
    AddNeg(c, r);
    AddNeg(c, s);
    AddNeg(c, q);
    AddInfinity(c, q);
    AddInfinity(c, r);
    AddInfinity(c, Neg(c, q));
    hide Mul;
    Assoc(c, q, r, Neg(c, r));
    Assoc(c, Neg(c, q), q, r);
    Assoc(c, Neg(c, q), s, Neg(c, s));
  }

  /** Multiples with the same abscissa: their sum or difference is a multiple of the order. */
  lemma MulSameX(c: Equation, k: nat, m: nat, q: Point, n: nat)
    requires IsGroup(c) && HasOrder(c, q, n) && k <= m
    requires Mul(c, k, q).Affine? && Mul(c, m, q).Affine? && Mul(c, k, q).x == Mul(c, m, q).x
    ensures (m - k) % n == 0 || (m + k) % n == 0
  {
    hide IsGroup, OnCurve, Add, Neg;
    GroupPrime(c);
    MulOnCurve(c, k, q);
    MulOnCurve(c, m, q);
    SameX(c, Mul(c, k, q), Mul(c, m, q));
    hide Mul;
    if Mul(c, k, q) == Mul(c, m, q) {
      MulEqual(c, k, m, q, n);
    } else {
      MulAdd(c, k, m, q);
      AddNeg(c, Mul(c, k, q));
      MulZero(c, k + m, q, n);
    }
  }
}
