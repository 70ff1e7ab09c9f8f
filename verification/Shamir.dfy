/** The joint double-and-add loop of signature verification, on field elements: it computes
    u1 * G + u2 * Q, and (0, 0) when an addition meets points with equal abscissas. */
module Shamir {
  import opened Arith
  import opened Bits
  import opened Congruence
  import opened Field
  import opened CurveGroup
  import opened CoZ
  import opened Doubling
  import opened Ladder
  import opened PointOps
  import opened BaseMult

  /** The accumulator rx, ry, z. */
  datatype Jacobian = Jacobian(x: int, y: int, z: int)

  /** The points the loop can add: G, Q and their sum. */
  datatype Table = Table(g: (int, int), q: (int, int), sum: (int, int))

  function Choose(t: Table, b1: bool, b2: bool): (int, int) {
    if b1 && b2 then t.sum else if b1 then t.g else t.q
  }

  /** What the difference of the abscissas of the key and the base point is inverted to, for a key that need
      not be reduced: the inverse of p comes out as 1. */
  ghost function KeyInverse(gx: int, qx: int, p: nat): (i: int)
    requires IsPrime(p)
  {
    if qx - gx == p then 1 else Inv(FSub(qx, gx, p), p)
  }

  /** G + Q in affine coordinates. */
  ghost function SumForm(gx: int, gy: int, qx: int, qy: int, p: nat): (int, int)
    requires IsPrime(p)
  {
    var (_, _, x, y) := AddForm(gx, gy, qx, qy, p);
    ScaleForm(x, y, KeyInverse(gx, qx, p), p)
  }

  /** Adds an affine point to the accumulator. */
  function AddPoint(s: Jacobian, pt: (int, int), p: nat): Jacobian
    requires p > 0
  {
    var (tx, ty) := ScaleForm(pt.0, pt.1, s.z, p);
    var (_, _, x, y) := AddForm(tx, ty, s.x, s.y, p);
    Jacobian(x, y, FMul(s.z, FSub(s.x, tx, p), p))
  }

  function Doubled(kind: CurveKind, s: Jacobian, p: nat): Jacobian
    requires p > 0
  {
    var (x, y, z) := DoubleForm(kind, s.x, s.y, s.z, p);
    Jacobian(x, y, z)
  }

  function JointStep(kind: CurveKind, s: Jacobian, b1: bool, b2: bool, t: Table, p: nat): Jacobian
    requires p > 0
  {
    var s2 := Doubled(kind, s, p);
    if b1 || b2 then AddPoint(s2, Choose(t, b1, b2), p) else s2
  }

  /** The loop: bits i - 1, ..., 0 of both scalars. */
  function JointRun(kind: CurveKind, s: Jacobian, u1: nat, u2: nat, i: nat, t: Table, p: nat): Jacobian
    requires p > 0
    decreases i
  {
    if i == 0 then s
    else JointRun(kind, JointStep(kind, s, Bit(u1, i - 1), Bit(u2, i - 1), t, p), u1, u2, i - 1, t, p)
  }

  lemma RunStep(kind: CurveKind, s: Jacobian, u1: nat, u2: nat, i: nat, t: Table, p: nat)
    requires p > 0 && i > 0
    ensures JointRun(kind, s, u1, u2, i, t, p) ==
            JointRun(kind, JointStep(kind, s, Bit(u1, i - 1), Bit(u2, i - 1), t, p), u1, u2, i - 1, t, p)
  {
  }

  lemma RunNone(kind: CurveKind, s: Jacobian, u1: nat, u2: nat, t: Table, p: nat)
    requires p > 0
    ensures JointRun(kind, s, u1, u2, 0, t, p) == s
  {
  }

  /** The accumulator before the loop: the point of the top bits. */
  function JointStart(u1: nat, u2: nat, top: nat, t: Table): Jacobian {
    var (x, y) := Choose(t, Bit(u1, top), Bit(u2, top));
    Jacobian(x, y, 1)
  }

  //
  // What the accumulator stands for
  //

  /** The multiple of the base point that the bits from i on add up to, for Q = d * G. */
  function Joint(u1: nat, u2: nat, d: nat, i: nat): (r: nat) {
    MulNonNeg(Prefix(u2, i), d);
    Prefix(u1, i) + Prefix(u2, i) * d
  }

  lemma MulNonNeg(x: nat, y: nat)
    ensures x * y >= 0
  {
    MulMono(x, 0, y);
  }

  /** The multiple that a pair of bits adds. */
  function Part(b1: bool, b2: bool, d: nat): nat {
    (if b1 then 1 else 0) + (if b2 then d else 0)
  }

  lemma JointStepValue(u1: nat, u2: nat, d: nat, i: nat)
    ensures Joint(u1, u2, d, i) == 2 * Joint(u1, u2, d, i + 1) + Part(Bit(u1, i), Bit(u2, i), d)
  {
    PrefixStep(u1, i);
    PrefixStep(u2, i);
    hide Prefix, Bit;
    var h, b := Prefix(u2, i + 1), if Bit(u2, i) then 1 else 0;
    MulDist(d, 2 * h, b);
    MulAssoc(2, h, d);
  }

  lemma JointZero(u1: nat, u2: nat, d: nat)
    ensures u2 * d >= 0 && Joint(u1, u2, d, 0) == u1 + u2 * d
  {
    MulNonNeg(u2, d);
    PrefixZero(u1);
    PrefixZero(u2);
  }

  /** The addition at bit i meets points with different abscissas. */
  predicate CleanStep(u1: nat, u2: nat, d: nat, n: nat, i: nat)
    requires n > 0
  {
    Bit(u1, i) || Bit(u2, i) ==>
      var a, t := 2 * Joint(u1, u2, d, i + 1), Part(Bit(u1, i), Bit(u2, i), d);
      (a - t) % n != 0 && (a + t) % n != 0
  }

  /** No addition at the bits below i meets points with equal abscissas. */
  predicate Clean(u1: nat, u2: nat, d: nat, n: nat, i: nat)
    requires n > 0
  {
    forall j | 0 <= j < i :: CleanStep(u1, u2, d, n, j)
  }

  /** The accumulator stands for the multiple a of g. */
  ghost predicate Stood(c: Equation, s: Jacobian, a: nat, g: Point)
    requires IsPrime(c.p)
  {
    Rep(s.x, s.y, s.z, Mul(c, a, g), c.p)
  }

  /** The coordinates of a point. */
  ghost predicate IsAt(pt: Point, xy: (int, int)) {
    pt.Affine? && xy == (pt.x, pt.y)
  }

  /** The key d * G differs from G, -G and infinity, and so all the table's points are points of the curve. */
  predicate GoodKey(d: nat, n: nat)
    requires n > 0
  {
    d % n != 0 && (d - 1) % n != 0 && (d + 1) % n != 0
  }

  /** The table's entry for a pair of bits is a point: for the keys G and -G there is none for two ones. */
  predicate IsEntry(b1: bool, b2: bool, d: nat, n: nat)
    requires n > 0
  {
    d % n != 0 && (GoodKey(d, n) || !(b1 && b2))
  }

  /** The bits below i only need points of the table. */
  predicate Usable(u1: nat, u2: nat, d: nat, n: nat, i: nat)
    requires n > 0
  {
    d % n != 0 && forall j | 0 <= j < i :: IsEntry(Bit(u1, j), Bit(u2, j), d, n)
  }

  lemma GoodKeyUsable(u1: nat, u2: nat, d: nat, n: nat, i: nat)
    requires n > 0 && GoodKey(d, n)
    ensures Usable(u1, u2, d, n, i)
  {
  }

  lemma UsableLast(u1: nat, u2: nat, d: nat, n: nat, i: nat)
    requires n > 0 && i > 0 && Usable(u1, u2, d, n, i)
    ensures Usable(u1, u2, d, n, i - 1) && IsEntry(Bit(u1, i - 1), Bit(u2, i - 1), d, n) && d % n != 0
  {
    hide IsEntry, Bit;
  }

  /** The loop's points are G, d * G and, for a key that differs from G and -G, (1 + d) * G. */
  ghost predicate TableOk(c: Equation, t: Table, g: Point, d: nat, n: nat)
    requires IsPrime(c.p) && n > 0
  {
    IsAt(g, t.g) && IsAt(Mul(c, d, g), t.q) && (GoodKey(d, n) ==> IsAt(Mul(c, 1 + d, g), t.sum))
  }

  lemma ChosenPoint(c: Equation, t: Table, g: Point, d: nat, n: nat, b1: bool, b2: bool)
    requires IsPrime(c.p) && n > 0 && TableOk(c, t, g, d, n) && IsEntry(b1, b2, d, n) && (b1 || b2)
    ensures IsAt(Mul(c, Part(b1, b2, d), g), Choose(t, b1, b2))
  {
    MulOne(c, g);
  }

  /** Nonzero multiples of the base point. */
  lemma AffineMultiple(c: Equation, a: nat, g: Point, n: nat)
    requires IsGroup(c) && IsPrime(c.p) && HasOrder(c, g, n) && a % n != 0
    ensures Mul(c, a, g).Affine? && OnCurve(c, Mul(c, a, g)) && 0 <= Mul(c, a, g).x < c.p && 0 <= Mul(c, a, g).y < c.p
  {
    OrderFacts(c, g, n);
    hide IsGroup, HasOrder, IsPrime, Mul;
    MulZero(c, a, g, n);
    MulOnCurve(c, a, g);
  }

  lemma OrderOfMultiple(c: Equation, a: nat, g: Point, n: nat)
    requires IsGroup(c) && IsPrime(c.p) && HasOrder(c, g, n) && a % n != 0
    ensures HasOrder(c, Mul(c, a, g), n)
  {
    AffineMultiple(c, a, g, n);
    OrderFacts(c, g, n);
    hide IsGroup, IsPrime, Mul, OnCurve;
    MulMul(c, n, a, g);
    ModOfMultiple(a, n);
    MulNonNeg(n, a);
    MulZero(c, n * a, g, n);
  }

  /** Doubling takes a * G to 2a * G. */
  lemma DoubledCorrect(c: Equation, kind: CurveKind, s: Jacobian, a: nat, g: Point, n: nat)
    requires IsDomain(c, g, n, kind) && a % n != 0 && Stood(c, s, a, g)
    ensures c.p > 0 && Stood(c, Doubled(kind, s, c.p), 2 * a, g)
  {
    hide IsGroup, HasOrder, IsPrime, Mul, Rep, DoubleForm, OnCurve, Cong, Add;
    GroupPrime(c);
    PrimeIsOdd(c.p);
    OrderOfMultiple(c, a, g, n);
    var q := Mul(c, a, g);
    OddOrderY(c, q, n);
    DoubleFormCorrect(c, kind, s.x, s.y, s.z, q);
    OrderFacts(c, g, n);
    MulAdd(c, a, a, g);
  }

  /** Points of different multiples have different abscissas. */
  lemma DistinctMultiples(c: Equation, a: nat, t: nat, g: Point, n: nat)
    requires IsGroup(c) && IsPrime(c.p) && HasOrder(c, g, n) && a % n != 0 && t % n != 0
    requires (a - t) % n != 0 && (a + t) % n != 0
    ensures Mul(c, a, g).Affine? && Mul(c, t, g).Affine? && Mul(c, a, g).x != Mul(c, t, g).x
  {
    hide IsGroup, HasOrder, IsPrime, Mul, OnCurve;
    OrderFacts(c, g, n);
    AffineMultiple(c, a, g, n);
    AffineMultiple(c, t, g, n);
    if Mul(c, a, g).x == Mul(c, t, g).x {
      if a <= t { MulSameX(c, a, t, g, n); NegMultiple(a - t, n); } else { MulSameX(c, t, a, g, n); }
    }
  }

  lemma NegMultiple(x: int, n: nat)
    requires n > 0
    ensures x % n == 0 <==> (-x) % n == 0
  {
    DivModDef(x, n);
    DivModDef(-x, n);
    if x % n == 0 { MulNeg(n, x / n); ModOfMultiple(-(x / n), n); }
    if (-x) % n == 0 { MulNeg(n, (-x) / n); ModOfMultiple(-((-x) / n), n); }
  }

  /** A coordinate with a congruent z stands for the same point. */
  lemma RepZ(x: int, y: int, z: int, z': int, pt: Point, p: nat)
    requires p > 0 && Rep(x, y, z, pt, p) && Cong(z', z, p)
    ensures Rep(x, y, z', pt, p)
  {
    CongSym(z', z, p);
    var z2, z2' := z * z, z' * z';
    CongMul(z, z', z, z', p);
    CongMul(z, z', z2, z2', p);
    CongRefl(pt.x, p);
    CongRefl(pt.y, p);
    CongMul(pt.x, pt.x, z2, z2', p);
    CongMul(pt.y, pt.y, z * z2, z' * z2', p);
    CongTrans(x, pt.x * z2, pt.x * z2', p);
    CongTrans(y, pt.y * (z * z2), pt.y * (z' * z2'), p);
    hide Cong;
    if Cong(z', 0, p) { CongTrans(z, z', 0, p); }
  }

  /** Adding t * G to a * G. */
  lemma AddPointCorrect(c: Equation, s: Jacobian, a: nat, t: nat, pt: (int, int), g: Point, n: nat)
    requires IsGroup(c) && IsPrime(c.p) && HasOrder(c, g, n) && a % n != 0 && t % n != 0
    requires (a - t) % n != 0 && (a + t) % n != 0
    requires Stood(c, s, a, g) && IsAt(Mul(c, t, g), pt)
    ensures c.p > 0 && Stood(c, AddPoint(s, pt, c.p), a + t, g)
  {
    hide IsGroup, HasOrder, IsPrime, Mul, OnCurve, Add, ScaleForm, AddForm, Cong;
    GroupPrime(c);
    OrderFacts(c, g, n);
    AffineMultiple(c, a, g, n);
    AffineMultiple(c, t, g, n);
    DistinctMultiples(c, a, t, g, n);
    var (tx, ty) := ScaleForm(pt.0, pt.1, s.z, c.p);
    ScaleFormCorrect(pt.0, pt.1, s.z, c.p);
    hide Rep;
    AddFormCorrect(c, tx, ty, s.x, s.y, s.z, Mul(c, t, g), Mul(c, a, g));
    MulAdd(c, t, a, g);
    NewZCong(s.z, s.x, tx, c.p);
    var r := AddPoint(s, pt, c.p);
    RepZ(r.x, r.y, s.z * (s.x - tx), r.z, Mul(c, t + a, g), c.p);
  }

  lemma NewZCong(z: int, x: int, tx: int, p: nat)
    requires p > 0
    ensures Cong(FMul(z, FSub(x, tx, p), p), z * (x - tx), p)
  {
    CongRefl(x, p);
    CongRefl(tx, p);
    CongRefl(z, p);
    SubStands(x, x, tx, tx, p);
    MulStands(z, z, FSub(x, tx, p), x - tx, p);
  }

  /** Points with equal abscissas take z to zero. */
  lemma AddPointVanishes(c: Equation, s: Jacobian, a: nat, t: nat, pt: (int, int), g: Point, n: nat)
    requires IsGroup(c) && IsPrime(c.p) && HasOrder(c, g, n) && a % n != 0 && t % n != 0
    requires (a - t) % n == 0 || (a + t) % n == 0
    requires Stood(c, s, a, g) && IsAt(Mul(c, t, g), pt)
    ensures c.p > 0 && AddPoint(s, pt, c.p).z == 0
  {
    hide IsGroup, HasOrder, IsPrime, Mul, OnCurve, AddForm, Cong;
    GroupPrime(c);
    EqualAbscissas(c, a, t, g, n);
    ScaleFormCorrect(pt.0, pt.1, s.z, c.p);
    var tx := ScaleForm(pt.0, pt.1, s.z, c.p).0;
    SameScaled(s.x, tx, Mul(c, a, g).x, pt.0, s.z * s.z, c.p);
    Neutral(tx, c.p);
    ZeroFactor(s.z, c.p);
  }

  lemma EqualAbscissas(c: Equation, a: nat, t: nat, g: Point, n: nat)
    requires IsGroup(c) && IsPrime(c.p) && HasOrder(c, g, n) && a % n != 0 && t % n != 0
    requires (a - t) % n == 0 || (a + t) % n == 0
    ensures Mul(c, a, g).Affine? && Mul(c, t, g).Affine? && Mul(c, a, g).x == Mul(c, t, g).x
  {
    hide IsGroup, HasOrder, IsPrime, Mul, OnCurve, Neg, Add;
    GroupPrime(c);
    OrderFacts(c, g, n);
    AffineMultiple(c, a, g, n);
    AffineMultiple(c, t, g, n);
    if (a - t) % n == 0 {
      CongFromMod(a, t, n);
      MulCong(c, t, a, g, n);
    } else {
      MulZero(c, a + t, g, n);
      MulAdd(c, a, t, g);
      InverseUnique(c, Mul(c, a, g), Mul(c, t, g));
      NegX(c, Mul(c, a, g));
    }
  }

  lemma CongFromMod(a: int, t: int, n: nat)
    requires n > 0 && (a - t) % n == 0
    ensures Cong(a, t, n)
  {
  }

  /** Once z is zero it stays zero. */
  lemma ZeroStays(kind: CurveKind, s: Jacobian, b1: bool, b2: bool, t: Table, p: nat)
    requires p > 0 && s.z == 0
    ensures JointStep(kind, s, b1, b2, t, p).z == 0
  {
    hide AddForm, ScaleForm;
    DoubleNothing(s.x, s.y, p);
    var (tx, _) := ScaleForm(Choose(t, b1, b2).0, Choose(t, b1, b2).1, 0, p);
    ZeroFactor(FSub(s.x, tx, p), p);
  }

  lemma {:induction false} ZeroRun(kind: CurveKind, s: Jacobian, u1: nat, u2: nat, i: nat, t: Table, p: nat)
    requires p > 0 && s.z == 0
    ensures JointRun(kind, s, u1, u2, i, t, p).z == 0
    decreases i
  {
    hide JointStep;
    if i > 0 {
      var b1, b2 := Bit(u1, i - 1), Bit(u2, i - 1);
      ZeroStays(kind, s, b1, b2, t, p);
      ZeroRun(kind, JointStep(kind, s, b1, b2, t, p), u1, u2, i - 1, t, p);
    }
  }

  lemma GoodKeyFacts(d: nat, n: nat)
    requires n > 1 && GoodKey(d, n)
    ensures d % n != 0 && (d - 1) % n != 0 && (d + 1) % n != 0 && (1 + d) % n != 0 && 1 % n != 0
  {
    ModSmall(1, n);
  }

  lemma PartNonzero(b1: bool, b2: bool, d: nat, n: nat)
    requires n > 1 && IsEntry(b1, b2, d, n) && (b1 || b2)
    ensures Part(b1, b2, d) % n != 0
  {
    ModSmall(1, n);
  }

  /** One step: with different abscissas the sum, with equal ones z = 0. */
  lemma JointStepCorrect(c: Equation, kind: CurveKind, s: Jacobian, u1: nat, u2: nat, d: nat, i: nat, t: Table,
                         g: Point, n: nat)
    requires IsDomain(c, g, n, kind) && TableOk(c, t, g, d, n) && IsEntry(Bit(u1, i), Bit(u2, i), d, n)
    requires Joint(u1, u2, d, i + 1) % n != 0 && Stood(c, s, Joint(u1, u2, d, i + 1), g)
    ensures c.p > 0
    ensures var s' := JointStep(kind, s, Bit(u1, i), Bit(u2, i), t, c.p);
            if CleanStep(u1, u2, d, n, i) then Joint(u1, u2, d, i) % n != 0 && Stood(c, s', Joint(u1, u2, d, i), g)
            else s'.z == 0
  {
    hide IsGroup, HasOrder, IsPrime, Mul, OnCurve, AddPoint, Doubled, TableOk, Joint, Stood, Choose, IsEntry, Part;
    GroupPrime(c);
    var a, b1, b2 := Joint(u1, u2, d, i + 1), Bit(u1, i), Bit(u2, i);
    DoubleMultiple(a, n);
    DoubledCorrect(c, kind, s, a, g, n);
    JointStepValue(u1, u2, d, i);
    var s2 := Doubled(kind, s, c.p);
    if b1 || b2 {
      PartNonzero(b1, b2, d, n);
      ChosenPoint(c, t, g, d, n, b1, b2);
      if CleanStep(u1, u2, d, n, i) {
        AddPointCorrect(c, s2, 2 * a, Part(b1, b2, d), Choose(t, b1, b2), g, n);
      } else {
        AddPointVanishes(c, s2, 2 * a, Part(b1, b2, d), Choose(t, b1, b2), g, n);
      }
    } else {
      PartNone(d);
    }
  }

  lemma PartNone(d: nat)
    ensures Part(false, false, d) == 0
  {
  }

  lemma CleanSplit(u1: nat, u2: nat, d: nat, n: nat, i: nat)
    requires n > 0 && i > 0
    ensures Clean(u1, u2, d, n, i) <==> CleanStep(u1, u2, d, n, i - 1) && Clean(u1, u2, d, n, i - 1)
  {
    hide CleanStep;
  }

  lemma CleanNone(u1: nat, u2: nat, d: nat, n: nat)
    requires n > 0
    ensures Clean(u1, u2, d, n, 0)
  {
  }

  /** The whole loop. */
  lemma {:induction false} JointRunCorrect(c: Equation, kind: CurveKind, s: Jacobian, u1: nat, u2: nat, d: nat,
                                           i: nat, t: Table, g: Point, n: nat)
    requires IsDomain(c, g, n, kind) && TableOk(c, t, g, d, n) && Usable(u1, u2, d, n, i)
    requires Joint(u1, u2, d, i) % n != 0 && Stood(c, s, Joint(u1, u2, d, i), g)
    ensures c.p > 0
    ensures var r := JointRun(kind, s, u1, u2, i, t, c.p);
            if Clean(u1, u2, d, n, i) then Joint(u1, u2, d, 0) % n != 0 && Stood(c, r, Joint(u1, u2, d, 0), g)
            else r.z == 0
    decreases i
  {
    hide IsDomain, IsGroup, HasOrder, OnCurve, IsPrime, TableOk, Joint, Stood, Usable, IsEntry, CleanStep, Clean,
         JointStep,
         Bit;
    DomainFacts(c, g, n, kind);
    if i == 0 {
      CleanNone(u1, u2, d, n);
    } else {
      CleanSplit(u1, u2, d, n, i);
      UsableLast(u1, u2, d, n, i);
      var s' := JointStep(kind, s, Bit(u1, i - 1), Bit(u2, i - 1), t, c.p);
      JointStepCorrect(c, kind, s, u1, u2, d, i - 1, t, g, n);
      if CleanStep(u1, u2, d, n, i - 1) {
        JointRunCorrect(c, kind, s', u1, u2, d, i - 1, t, g, n);
      } else {
        ZeroRun(kind, s', u1, u2, i - 1, t, c.p);
      }
    }
  }

  lemma DomainFacts(c: Equation, g: Point, n: nat, kind: CurveKind)
    requires IsDomain(c, g, n, kind)
    ensures IsGroup(c) && IsPrime(c.p) && c.p > 3 && HasOrder(c, g, n) && n % 2 == 1 && n >= 5 && IsPrime(n)
    ensures g.Affine? && OnCurve(c, g) && 0 <= g.x < c.p && 0 <= g.y < c.p
  {
  }

  //
  // The sum of the two points, and the affine result
  //

  /** SumForm gives G + Q for points with different abscissas. */
  lemma SumFormCorrect(c: Equation, g: Point, q: Point)
    requires IsPrime(c.p) && c.p > 0 && OnCurve(c, g) && OnCurve(c, q) && g.Affine? && q.Affine? && g.x != q.x
    requires OnCurve(c, Add(c, g, q)) && Add(c, g, q).Affine?
    ensures IsAt(Add(c, g, q), SumForm(g.x, g.y, q.x, q.y, c.p))
  {
    var p := c.p;
    CoordinatesReduced(c, g);
    CoordinatesReduced(c, q);
    CoordinatesReduced(c, Add(c, g, q));
    RepOne(g.x, g.y, p);
    RepOne(q.x, q.y, p);
    hide OnCurve, Add, AddForm, ScaleForm, Rep, Cong, FSub;
    AddFormCorrect(c, g.x, g.y, q.x, q.y, 1, g, q);
    var (_, _, x, y) := AddForm(g.x, g.y, q.x, q.y, p);
    var dx := q.x - g.x;
    var z := FSub(q.x, g.x, p);
    DifferenceZ(g.x, q.x, p);
    RepZ(x, y, 1 * dx, z, Add(c, g, q), p);
    InverseTimes(z, p);
    UnscaleCorrect(x, y, z, Inv(z, p), Add(c, g, q), p);
  }

  lemma DifferenceZ(a: int, b: int, p: nat)
    requires p > 0 && 0 <= a < p && 0 <= b < p && a != b
    ensures Cong(FSub(b, a, p), 1 * (b - a), p) && !Cong(FSub(b, a, p), 0, p)
  {
    CongRefl(a, p);
    CongRefl(b, p);
    SubStands(b, b, a, a, p);
    DistinctReduced(a, b, p);
    CongSym(FSub(b, a, p), b - a, p);
    hide Cong, FSub;
    if Cong(FSub(b, a, p), 0, p) { CongTrans(b - a, FSub(b, a, p), 0, p); }
  }

  lemma InverseTimes(z: int, p: nat)
    requires IsPrime(p) && p > 0 && !Cong(z, 0, p)
    ensures Cong(Inv(z, p) * z, 1, p)
  {
    InvWorks(z, p);
    assert z * Inv(z, p) == Inv(z, p) * z;
  }

  /** Affine coordinates stand for their point with z = 1. */
  lemma RepOne(x: int, y: int, p: nat)
    requires p > 1 && 0 <= x < p && 0 <= y < p
    ensures Rep(x, y, 1, Affine(x, y), p)
  {
    NonzeroReduced(1, p);
    CongRefl(x, p);
    CongRefl(y, p);
    assert x * (1 * 1) == x && y * (1 * (1 * 1)) == y;
  }

  /** G and Q differ in their abscissas, and so their sum is affine. */
  lemma KeyDiffers(c: Equation, g: Point, d: nat, n: nat)
    requires IsGroup(c) && IsPrime(c.p) && HasOrder(c, g, n) && n > 1 && GoodKey(d, n)
    ensures g.Affine? && Mul(c, d, g).Affine? && g.x != Mul(c, d, g).x
    ensures Mul(c, 1 + d, g).Affine? && OnCurve(c, Mul(c, 1 + d, g)) && OnCurve(c, Mul(c, d, g)) && OnCurve(c, g)
  {
    OrderFacts(c, g, n);
    MulOne(c, g);
    hide IsPrime, HasOrder, IsGroup, Mul, OnCurve, GoodKey;
    GoodKeyFacts(d, n);
    AffineMultiple(c, d, g, n);
    AffineMultiple(c, 1 + d, g, n);
    DistinctMultiples(c, d, 1, g, n);
  }

  lemma SumIsMultiple(c: Equation, g: Point, d: nat)
    requires IsGroup(c) && IsPrime(c.p) && OnCurve(c, g)
    ensures Add(c, g, Mul(c, d, g)) == Mul(c, 1 + d, g)
  {
    MulOne(c, g);
    MulAdd(c, 1, d, g);
  }

  lemma TableIntro(c: Equation, g: Point, d: nat, n: nat, sum: (int, int))
    requires IsPrime(c.p) && n > 0 && g.Affine? && Mul(c, d, g).Affine?
    requires GoodKey(d, n) ==> IsAt(Mul(c, 1 + d, g), sum)
    ensures TableOk(c, Table((g.x, g.y), (Mul(c, d, g).x, Mul(c, d, g).y), sum), g, d, n)
  {
  }

  /** The table that verification builds. */
  lemma TableCorrect(c: Equation, kind: CurveKind, g: Point, d: nat, n: nat)
    requires IsDomain(c, g, n, kind) && d % n != 0
    ensures c.p > 0 && n > 0 && g.Affine? && Mul(c, d, g).Affine?
    ensures var q := Mul(c, d, g);
            TableOk(c, Table((g.x, g.y), (q.x, q.y), SumForm(g.x, g.y, q.x, q.y, c.p)), g, d, n)
  {
    DomainFacts(c, g, n, kind);
    hide IsDomain, IsPrime, HasOrder, IsGroup, OnCurve, Add, SumForm, GoodKey, Mul;
    AffineMultiple(c, d, g, n);
    var q := Mul(c, d, g);
    if GoodKey(d, n) { SumCorrect(c, g, d, n); }
    TableIntro(c, g, d, n, SumForm(g.x, g.y, q.x, q.y, c.p));
  }

  lemma SumCorrect(c: Equation, g: Point, d: nat, n: nat)
    requires IsGroup(c) && IsPrime(c.p) && HasOrder(c, g, n) && n > 1 && GoodKey(d, n)
    ensures c.p > 0 && g.Affine? && Mul(c, d, g).Affine?
    ensures IsAt(Mul(c, 1 + d, g), SumForm(g.x, g.y, Mul(c, d, g).x, Mul(c, d, g).y, c.p))
  {
    GroupPrime(c);
    hide IsPrime, HasOrder, IsGroup, OnCurve, Add, SumForm, GoodKey, Mul;
    KeyDiffers(c, g, d, n);
    SumIsMultiple(c, g, d);
    hide *;
    SumFormCorrect(c, g, Mul(c, d, g));
  }

  /** For the keys G and -G the third entry is (0, 0). */
  lemma SumOfBaseAndKey(gx: int, gy: int, qy: int, p: nat)
    requires IsPrime(p) && 0 <= gx < p
    ensures SumForm(gx, gy, gx, qy, p) == (0, 0)
  {
    Neutral(gx, p);
    InverseOfZero(p);
    var (_, _, x, y) := AddForm(gx, gy, gx, qy, p);
    ScaledByZero(x, y, p);
    hide AddForm, Inv, IsPrime;
  }

  /** The accumulator before the loop stands for the part of the top bits. */
  lemma JointStartCorrect(c: Equation, t: Table, g: Point, d: nat, u1: nat, u2: nat, bits: nat, n: nat)
    requires IsGroup(c) && IsPrime(c.p) && HasOrder(c, g, n) && n > 1 && TableOk(c, t, g, d, n)
    requires bits > 0 && IsEntry(Bit(u1, bits - 1), Bit(u2, bits - 1), d, n)
    requires bits > 0 && u1 < Pow2(bits) && u2 < Pow2(bits) && (Bit(u1, bits - 1) || Bit(u2, bits - 1))
    ensures Joint(u1, u2, d, bits - 1) % n != 0
    ensures Stood(c, JointStart(u1, u2, bits - 1, t), Joint(u1, u2, d, bits - 1), g)
  {
    hide IsPrime, HasOrder, IsGroup, Mul, OnCurve, TableOk, Joint, Part, Choose, Pow2, Bit, IsEntry, Rep;
    var b1, b2 := Bit(u1, bits - 1), Bit(u2, bits - 1);
    GroupPrime(c);
    JointTop(u1, u2, d, bits);
    PartNonzero(b1, b2, d, n);
    ChosenPoint(c, t, g, d, n, b1, b2);
    AffineMultiple(c, Part(b1, b2, d), g, n);
    RepOne(Choose(t, b1, b2).0, Choose(t, b1, b2).1, c.p);
  }

  /** Scaling by the inverse of z gives the affine abscissa, and zero for z = 0. */
  lemma JointEnd(c: Equation, s: Jacobian, a: nat, g: Point, n: nat)
    requires IsGroup(c) && IsPrime(c.p) && c.p > 0 && HasOrder(c, g, n) && n > 0
    requires s.z == 0 || (a % n != 0 && Stood(c, s, a, g))
    ensures s.z == 0 ==> ScaleForm(s.x, s.y, Inv(s.z, c.p), c.p).0 == 0
    ensures s.z != 0 ==> Mul(c, a, g).Affine? && ScaleForm(s.x, s.y, Inv(s.z, c.p), c.p).0 == Mul(c, a, g).x
    ensures s.z != 0 ==> 0 <= Mul(c, a, g).x < c.p
    ensures a % n != 0 && Stood(c, s, a, g) ==> s.z != 0
  {
    hide IsPrime, HasOrder, IsGroup, Mul, OnCurve, Inv, ScaleForm, Rep;
    if a % n != 0 && Stood(c, s, a, g) {
      StoodNonzero(c, s, a, g);
      ZeroCong(c.p);
      AffineMultiple(c, a, g, n);
      InverseTimes(s.z, c.p);
      UnscaleCorrect(s.x, s.y, s.z, Inv(s.z, c.p), Mul(c, a, g), c.p);
    } else {
      InverseOfZero(c.p);
      ScaledByZero(s.x, s.y, c.p);
    }
  }

  lemma ZeroCong(p: nat)
    requires p > 0
    ensures Cong(0, 0, p)
  {
    CongRefl(0, p);
  }

  /** The table of verification and the accumulator after its loop. */
  ghost function KeyTable(g: (int, int), q: (int, int), p: nat): Table
    requires IsPrime(p)
  {
    Table(g, q, SumForm(g.0, g.1, q.0, q.1, p))
  }

  function JointResult(kind: CurveKind, u1: nat, u2: nat, bits: nat, t: Table, p: nat): Jacobian
    requires p > 0 && bits > 0
  {
    JointRun(kind, JointStart(u1, u2, bits - 1, t), u1, u2, bits - 1, t, p)
  }

  /** Its affine abscissa. */
  ghost function JointOver(kind: CurveKind, u1: nat, u2: nat, bits: nat, t: Table, p: nat): int
    requires IsPrime(p) && bits > 0
  {
    var s := JointResult(kind, u1, u2, bits, t, p);
    ScaleForm(s.x, s.y, Inv(s.z, p), p).0
  }

  lemma JointResultCorrect(c: Equation, kind: CurveKind, g: Point, d: nat, u1: nat, u2: nat, bits: nat, n: nat)
    requires IsDomain(c, g, n, kind) && Usable(u1, u2, d, n, bits)
    requires bits > 0 && u1 < Pow2(bits) && u2 < Pow2(bits) && (Bit(u1, bits - 1) || Bit(u2, bits - 1))
    ensures c.p > 0 && g.Affine? && Mul(c, d, g).Affine?
    ensures var q := Mul(c, d, g);
            var s := JointResult(kind, u1, u2, bits, KeyTable((g.x, g.y), (q.x, q.y), c.p), c.p);
            if Clean(u1, u2, d, n, bits - 1) then Joint(u1, u2, d, 0) % n != 0 && Stood(c, s, Joint(u1, u2, d, 0), g)
            else s.z == 0
  {
    DomainFacts(c, g, n, kind);
    UsableLast(u1, u2, d, n, bits);
    TableCorrect(c, kind, g, d, n);
    hide IsDomain, IsPrime, HasOrder, IsGroup, Mul, OnCurve, SumForm, TableOk, JointRun, JointStart, Clean, Joint,
         Pow2, Bit, Usable, IsEntry, Stood;
    var q := Mul(c, d, g);
    var t := KeyTable((g.x, g.y), (q.x, q.y), c.p);
    hide KeyTable;
    JointStartCorrect(c, t, g, d, u1, u2, bits, n);
    JointRunCorrect(c, kind, JointStart(u1, u2, bits - 1, t), u1, u2, d, bits - 1, t, g, n);
  }

  /** The abscissa that verification compares with r, for scalars whose longer one has bits bits. */
  ghost function JointX(kind: CurveKind, u1: nat, u2: nat, bits: nat, g: (int, int), q: (int, int), p: nat): int
    requires IsPrime(p) && bits > 0
  {
    JointOver(kind, u1, u2, bits, KeyTable(g, q, p), p)
  }

  lemma JointXAt(c: Equation, kind: CurveKind, g: Point, d: nat, u1: nat, u2: nat, bits: nat, n: nat, a: nat)
    requires IsDomain(c, g, n, kind) && Usable(u1, u2, d, n, bits) && a == Joint(u1, u2, d, 0)
    requires bits > 0 && u1 < Pow2(bits) && u2 < Pow2(bits) && (Bit(u1, bits - 1) || Bit(u2, bits - 1))
    ensures c.p > 0 && g.Affine? && Mul(c, d, g).Affine?
    ensures var q, r := Mul(c, d, g), Mul(c, a, g);
            var x := JointX(kind, u1, u2, bits, (g.x, g.y), (q.x, q.y), c.p);
            if Clean(u1, u2, d, n, bits - 1) then r.Affine? && x == r.x && 0 <= x < c.p else x == 0
  {
    DomainFacts(c, g, n, kind);
    JointResultCorrect(c, kind, g, d, u1, u2, bits, n);
    hide IsDomain, IsPrime, HasOrder, IsGroup, Mul, OnCurve, JointResult, KeyTable, Clean, Joint, Pow2, Bit, Usable,
         Inv, ScaleForm, Stood;
    var q := Mul(c, d, g);
    var s := JointResult(kind, u1, u2, bits, KeyTable((g.x, g.y), (q.x, q.y), c.p), c.p);
    JointEnd(c, s, a, g, n);
  }

  /** Verification's abscissa, exactly: that of u1 * G + u2 * (d * G) when no addition meets points
      with equal abscissas, and zero otherwise. */
  lemma JointXExact(c: Equation, kind: CurveKind, g: Point, d: nat, u1: nat, u2: nat, bits: nat, n: nat)
    requires IsDomain(c, g, n, kind) && Usable(u1, u2, d, n, bits)
    requires bits > 0 && u1 < Pow2(bits) && u2 < Pow2(bits) && (Bit(u1, bits - 1) || Bit(u2, bits - 1))
    ensures c.p > 0 && g.Affine? && Mul(c, d, g).Affine? && u2 * d >= 0
    ensures var q, r := Mul(c, d, g), Mul(c, u1 + u2 * d, g);
            var x := JointX(kind, u1, u2, bits, (g.x, g.y), (q.x, q.y), c.p);
            if Clean(u1, u2, d, n, bits - 1) then r.Affine? && x == r.x && 0 <= x < c.p else x == 0
  {
    hide IsDomain, IsPrime, HasOrder, IsGroup, Mul, OnCurve, JointX, Clean, Joint, Pow2, Bit, Usable;
    JointZero(u1, u2, d);
    JointXAt(c, kind, g, d, u1, u2, bits, n, u1 + u2 * d);
  }

  /** For the keys G and -G, scalars that share their top bit start the loop at the entry (0, 0), and the
      abscissa is zero. */
  lemma CommonTopVanishes(kind: CurveKind, u1: nat, u2: nat, bits: nat, g: (int, int), q: (int, int), p: nat)
    requires IsPrime(p) && 0 <= g.0 < p && q.0 == g.0
    requires bits > 0 && Bit(u1, bits - 1) && Bit(u2, bits - 1)
    ensures JointX(kind, u1, u2, bits, g, q, p) == 0
  {
    SumOfBaseAndKey(g.0, g.1, q.1, p);
    hide SumForm, IsPrime, Bit, Inv, JointRun, JointStep;
    var t := KeyTable(g, q, p);
    var s := JointStart(u1, u2, bits - 1, t);
    assert s == Jacobian(0, 0, 1);
    var r := JointResult(kind, u1, u2, bits, t, p);
    if bits == 1 {
      RunNone(kind, s, u1, u2, t, p);
      NothingScaled(Inv(1, p), p);
    } else {
      RunStep(kind, s, u1, u2, bits - 1, t, p);
      StepFromNothing(kind, Bit(u1, bits - 2), Bit(u2, bits - 2), t, p);
      ZeroRun(kind, JointStep(kind, s, Bit(u1, bits - 2), Bit(u2, bits - 2), t, p), u1, u2, bits - 2, t, p);
      InverseOfZero(p);
      ScaledByZero(r.x, r.y, p);
    }
  }

  lemma NothingScaled(i: int, p: nat)
    requires p > 0
    ensures ScaleForm(0, 0, i, p) == (0, 0)
  {
    hide FSub, FAdd;
    ZeroFactor(FMul(i, i, p), p);
    ZeroFactor(FMul(FMul(i, i, p), i, p), p);
  }

  /** Doubling (0, 0) makes z zero. */
  lemma StepFromNothing(kind: CurveKind, b1: bool, b2: bool, t: Table, p: nat)
    requires p > 0
    ensures JointStep(kind, Jacobian(0, 0, 1), b1, b2, t, p).z == 0
  {
    ZeroFactor(1, p);
    var d := Doubled(kind, Jacobian(0, 0, 1), p);
    hide FMul, FSub, FAdd, FHalf, AddForm;
    assert d.z == 0;
    var (tx, _) := ScaleForm(Choose(t, b1, b2).0, Choose(t, b1, b2).1, 0, p);
    ZeroFactor(FSub(d.x, tx, p), p);
  }

  lemma StoodNonzero(c: Equation, s: Jacobian, a: nat, g: Point)
    requires IsPrime(c.p) && Stood(c, s, a, g)
    ensures !Cong(s.z, 0, c.p)
  {
  }

  lemma InverseOfZero(p: nat)
    requires IsPrime(p)
    ensures Inv(0, p) == 0
  {
    ModSmall(0, p);
  }

  /** At the top the joint multiple is the part of the top bits. */
  lemma JointTop(u1: nat, u2: nat, d: nat, bits: nat)
    requires bits > 0 && u1 < Pow2(bits) && u2 < Pow2(bits)
    ensures Joint(u1, u2, d, bits - 1) == Part(Bit(u1, bits - 1), Bit(u2, bits - 1), d)
  {
    JointStepValue(u1, u2, d, bits - 1);
    ModSmall(u1, Pow2(bits));
    ModSmall(u2, Pow2(bits));
    assert 0 * d == 0;
  }

  //
  // Keys whose coordinates are not reduced
  //

  /** Coordinates of the same field elements. */
  ghost predicate SameXY(a: (int, int), b: (int, int), p: nat)
    requires p > 0
  {
    Cong(a.0, b.0, p) && Cong(a.1, b.1, p)
  }

  lemma SameDifference(x: int, x': int, y: int, p: nat)
    requires p > 0 && Cong(x, x', p)
    ensures FSub(x, y, p) == FSub(x', y, p)
  {
    CongRefl(y, p);
    CongSub(x, x', y, y, p);
    CongSameMod(x - y, x' - y, p);
  }

  lemma SameSum(x: int, x': int, y: int, p: nat)
    requires p > 0 && Cong(x, x', p)
    ensures FAdd(x, y, p) == FAdd(x', y, p)
  {
    CongRefl(y, p);
    CongAdd(x, x', y, y, p);
    CongSameMod(x + y, x' + y, p);
  }

  lemma SameProduct(x: int, x': int, y: int, p: nat)
    requires p > 0 && Cong(x, x', p)
    ensures FMul(x, y, p) == FMul(x', y, p) && FMul(x, x, p) == FMul(x', x', p)
  {
    CongRefl(y, p);
    RawFactors(x, x', y, y, p);
    RawFactors(x, x', x, x', p);
  }

  lemma SameWhenScaled(a: (int, int), b: (int, int), z: int, p: nat)
    requires p > 0 && SameXY(a, b, p)
    ensures ScaleForm(a.0, a.1, z, p) == ScaleForm(b.0, b.1, z, p)
  {
    hide Cong, FMul;
    var z2 := FMul(z, z, p);
    SameProduct(a.0, b.0, z2, p);
    SameProduct(a.1, b.1, FMul(z2, z, p), p);
  }

  lemma SameAdded(gx: int, gy: int, a: (int, int), b: (int, int), p: nat)
    requires p > 0 && SameXY(a, b, p)
    ensures AddForm(gx, gy, a.0, a.1, p) == AddForm(gx, gy, b.0, b.1, p)
  {
    hide Cong, FMul, FSub;
    SameDifference(a.0, b.0, gx, p);
    SameDifference(a.1, b.1, gy, p);
    var t5 := FSub(a.0, gx, p);
    SameProduct(a.0, b.0, FMul(t5, t5, p), p);
  }

  lemma SameTable(g: (int, int), a: (int, int), b: (int, int), p: nat)
    requires IsPrime(p) && p > 0 && SameXY(a, b, p) && (a.0 - g.0 == p <==> b.0 - g.0 == p)
    ensures KeyTable(g, a, p).sum == KeyTable(g, b, p).sum
  {
    SameAdded(g.0, g.1, a, b, p);
    SameDifference(a.0, b.0, g.0, p);
    hide IsPrime, AddForm, ScaleForm, FSub, Inv, Cong;
  }

  lemma SameDoubled(kind: CurveKind, s: Jacobian, s': Jacobian, p: nat)
    requires p > 0 && SameXY((s.x, s.y), (s'.x, s'.y), p) && s.z == s'.z != 0
    ensures Doubled(kind, s, p) == Doubled(kind, s', p)
  {
    hide Cong, FMul, FSub, FAdd, FHalf;
    SameProduct(s.y, s'.y, s.z, p);
    SameProduct(s.x, s'.x, FMul(s.y, s.y, p), p);
    SameSum(s.x, s'.x, FMul(s.z, s.z, p), p);
  }

  /** No bit below i is one in both numbers. */
  predicate Disjoint(u1: nat, u2: nat, i: nat) {
    forall j | 0 <= j < i :: !(Bit(u1, j) && Bit(u2, j))
  }

  /** The tables hold the same base point and key. */
  ghost predicate SamePoints(t: Table, t': Table, p: nat)
    requires p > 0
  {
    t.g == t'.g && SameXY(t.q, t'.q, p)
  }

  lemma SameChoice(t: Table, t': Table, b1: bool, b2: bool, p: nat)
    requires p > 0 && SamePoints(t, t', p) && (t.sum == t'.sum || !(b1 && b2))
    ensures SameXY(Choose(t, b1, b2), Choose(t', b1, b2), p)
  {
    var c := Choose(t, b1, b2);
    CongRefl(c.0, p);
    CongRefl(c.1, p);
    hide Cong;
  }

  lemma SameStep(kind: CurveKind, s: Jacobian, s': Jacobian, b1: bool, b2: bool, t: Table, t': Table, p: nat)
    requires p > 0 && SamePoints(t, t', p) && Doubled(kind, s, p) == Doubled(kind, s', p)
    requires t.sum == t'.sum || !(b1 && b2)
    ensures JointStep(kind, s, b1, b2, t, p) == JointStep(kind, s', b1, b2, t', p)
  {
    SameChoice(t, t', b1, b2, p);
    hide SameXY, ScaleForm, AddForm, Doubled, Choose;
    SameWhenScaled(Choose(t, b1, b2), Choose(t', b1, b2), Doubled(kind, s, p).z, p);
  }

  lemma {:induction false} SameRun(kind: CurveKind, s: Jacobian, u1: nat, u2: nat, i: nat, t: Table, t': Table, p: nat)
    requires p > 0 && SamePoints(t, t', p) && (t.sum == t'.sum || Disjoint(u1, u2, i))
    ensures JointRun(kind, s, u1, u2, i, t, p) == JointRun(kind, s, u1, u2, i, t', p)
    decreases i
  {
    hide SamePoints, JointStep, Bit;
    if i > 0 {
      var b1, b2 := Bit(u1, i - 1), Bit(u2, i - 1);
      SameStep(kind, s, s, b1, b2, t, t', p);
      SameRun(kind, JointStep(kind, s, b1, b2, t, p), u1, u2, i - 1, t, t', p);
    }
  }

  lemma SameStart(u1: nat, u2: nat, top: nat, t: Table, t': Table, p: nat)
    requires p > 0 && SamePoints(t, t', p) && (t.sum == t'.sum || !(Bit(u1, top) && Bit(u2, top)))
    ensures var s, s' := JointStart(u1, u2, top, t), JointStart(u1, u2, top, t');
            s.z == s'.z == 1 && SameXY((s.x, s.y), (s'.x, s'.y), p)
  {
    hide Choose, Bit, SamePoints, Cong;
    SameChoice(t, t', Bit(u1, top), Bit(u2, top), p);
  }

  /** Verification depends on the key only modulo p, unless its abscissa is p above that of the base point and
      the sum of the two is needed. */
  lemma JointXSame(kind: CurveKind, u1: nat, u2: nat, bits: nat, g: (int, int), a: (int, int), b: (int, int), p: nat)
    requires IsPrime(p) && p > 0 && bits > 0 && SameXY(a, b, p)
    requires (a.0 - g.0 == p <==> b.0 - g.0 == p) || Disjoint(u1, u2, bits)
    ensures JointX(kind, u1, u2, bits, g, a, p) == JointX(kind, u1, u2, bits, g, b, p)
  {
    hide IsPrime, JointRun, JointStep, ScaleForm, SumForm, Bit, Inv, SameXY, Choose, Doubled;
    if a.0 - g.0 == p <==> b.0 - g.0 == p { SameTable(g, a, b, p); }
    var t, t' := KeyTable(g, a, p), KeyTable(g, b, p);
    assert SamePoints(t, t', p);
    var s, s' := JointStart(u1, u2, bits - 1, t), JointStart(u1, u2, bits - 1, t');
    SameStart(u1, u2, bits - 1, t, t', p);
    hide SamePoints, JointStart, KeyTable;
    if bits > 1 {
      SameDoubled(kind, s, s', p);
      SameStep(kind, s, s', Bit(u1, bits - 2), Bit(u2, bits - 2), t, t', p);
      RunStep(kind, s, u1, u2, bits - 1, t, p);
      RunStep(kind, s', u1, u2, bits - 1, t', p);
      SameRun(kind, JointStep(kind, s, Bit(u1, bits - 2), Bit(u2, bits - 2), t, p), u1, u2, bits - 2, t, t', p);
    } else {
      RunNone(kind, s, u1, u2, t, p);
      RunNone(kind, s', u1, u2, t', p);
      SameWhenScaled((s.x, s.y), (s'.x, s'.y), Inv(1, p), p);
    }
  }
}
