/** Signature verification: the scalars, the table of points, the joint loop and the comparison. */
module EcdsaVerify {
  import opened Arith
  import opened Bits
  import opened Words
  import opened Vli
  import opened VliMod
  import opened VliInv
  import opened Bytes
  import opened Congruence
  import opened Field
  import opened CurveGroup
  import opened CoZ
  import opened PointOps
  import opened PointMult
  import opened BaseMult
  import opened KeyPair
  import opened Shamir
  import opened EcdsaSign

  /** Registers that overlap neither each other nor the curve. */
  ghost predicate SixRegs(rx: array<Word>, ry: array<Word>, z: array<Word>, tx: array<Word>, ty: array<Word>,
                          tz: array<Word>, curve: Curve)
  {
    Reg(rx, curve) && Reg(ry, curve) && Reg(z, curve) && Reg(tx, curve) && Reg(ty, curve) && Reg(tz, curve) &&
    rx !in {ry, z, tx, ty, tz} && ry !in {z, tx, ty, tz} && z !in {tx, ty, tz} && tx !in {ty, tz} && ty != tz
  }

  ghost function Acc(rx: array<Word>, ry: array<Word>, z: array<Word>, curve: Curve): Jacobian
    requires Reg(rx, curve) && Reg(ry, curve) && Reg(z, curve)
    reads rx, ry, z
  {
    Jacobian(R(rx, curve), R(ry, curve), R(z, curve))
  }

  ghost predicate Below(s: Jacobian, p: nat) {
    s.x < p && s.y < p && s.z < p
  }

  /** What the doubling accepts: a point loaded from a key may have coordinates that are not reduced. */
  ghost predicate Loadable(s: Jacobian, p: nat) {
    s.z < p && (s.z == 0 ==> s.x < p && s.y < p)
  }

  /** rx, ry, z += (px, py) */
  method AddTo(rx: array<Word>, ry: array<Word>, z: array<Word>, tx: array<Word>, ty: array<Word>, tz: array<Word>,
               px: array<Word>, py: array<Word>, curve: Curve, ghost p: nat)
    requires FieldOk(curve, p) && SixRegs(rx, ry, z, tx, ty, tz, curve) && Below(Acc(rx, ry, z, curve), p)
    requires Reg(px, curve) && Reg(py, curve) && {px, py} !! {rx, ry, z, tx, ty, tz}
    modifies rx, ry, z, tx, ty, tz
    ensures Below(Acc(rx, ry, z, curve), p) && Loadable(Acc(rx, ry, z, curve), p)
    ensures Acc(rx, ry, z, curve) == AddPoint(old(Acc(rx, ry, z, curve)), (R(px, curve), R(py, curve)), p)
  {
    RegistersFit(curve, p);
    hide R, FMul, FSub, ScaleForm, AddForm, FieldOk, RawSub;
    SetField(tx, px, curve);
    SetField(ty, py, curve);
    ApplyZ(tx, ty, z, curve, p);
    ModSubP(tz, rx, tx, curve, p);
    XYcZAdd(tx, ty, rx, ry, curve, p);
    ModMultFast(z, z, tz, curve, p);
    ProductBelow(old(R(z, curve)), R(tz, curve), p);
  }

  lemma ProductBelow(x: int, y: int, p: nat)
    requires p > 0
    ensures 0 <= FMul(x, y, p) < p
  {
  }

  /** The points[] of the loop: G, Q and G + Q as pairs of registers. */
  ghost predicate TableRegs(px: seq<array<Word>>, py: seq<array<Word>>, curve: Curve) {
    |px| == 3 && |py| == 3 && forall i :: 0 <= i < 3 ==> Reg(px[i], curve) && Reg(py[i], curve)
  }

  ghost predicate Apart(px: seq<array<Word>>, py: seq<array<Word>>, rx: array<Word>, ry: array<Word>, z: array<Word>,
                        tx: array<Word>, ty: array<Word>, tz: array<Word>)
  {
    forall i :: 0 <= i < |px| && i < |py| ==> {px[i], py[i]} !! {rx, ry, z, tx, ty, tz}
  }

  ghost function TableOf(px: seq<array<Word>>, py: seq<array<Word>>, curve: Curve): Table
    requires TableRegs(px, py, curve)
    reads px[0], py[0], px[1], py[1], px[2], py[2]
  {
    Table((R(px[0], curve), R(py[0], curve)), (R(px[1], curve), R(py[1], curve)), (R(px[2], curve), R(py[2], curve)))
  }

  /** Doubles the accumulator. */
  method DoubleAcc(rx: array<Word>, ry: array<Word>, z: array<Word>, curve: Curve, ghost p: nat)
    requires FieldOk(curve, p) && Reg(rx, curve) && Reg(ry, curve) && Reg(z, curve) && rx != ry && rx != z && ry != z
    requires Loadable(Acc(rx, ry, z, curve), p)
    modifies rx, ry, z
    ensures Below(Acc(rx, ry, z, curve), p) && Loadable(Acc(rx, ry, z, curve), p)
    ensures Acc(rx, ry, z, curve) == Doubled(curve.kind, old(Acc(rx, ry, z, curve)), p)
  {
    RegistersFit(curve, p);
    hide R, DoubleForm, FieldOk;
    DoubleJacobian(rx, ry, z, curve, p);
  }

  /** Adds the entry of the table that the two bits choose. */
  method AddEntry(rx: array<Word>, ry: array<Word>, z: array<Word>, tx: array<Word>, ty: array<Word>, tz: array<Word>,
                  px: seq<array<Word>>, py: seq<array<Word>>, b1: bool, b2: bool, curve: Curve, ghost p: nat)
    requires FieldOk(curve, p) && SixRegs(rx, ry, z, tx, ty, tz, curve) && Below(Acc(rx, ry, z, curve), p)
    requires TableRegs(px, py, curve) && Apart(px, py, rx, ry, z, tx, ty, tz) && (b1 || b2)
    modifies rx, ry, z, tx, ty, tz
    ensures Loadable(Acc(rx, ry, z, curve), p)
    ensures TableOf(px, py, curve) == old(TableOf(px, py, curve))
    ensures Acc(rx, ry, z, curve) == AddPoint(old(Acc(rx, ry, z, curve)), Choose(TableOf(px, py, curve), b1, b2), p)
  {
    RegistersFit(curve, p);
    hide R, AddPoint, FieldOk, Acc, Below, Loadable;
    var index := (if b1 then 1 else 0) + (if b2 then 2 else 0);
    AddTo(rx, ry, z, tx, ty, tz, px[index - 1], py[index - 1], curve, p);
  }

  /** One round of the loop. */
  method JointRound(rx: array<Word>, ry: array<Word>, z: array<Word>, tx: array<Word>, ty: array<Word>, tz: array<Word>,
                    px: seq<array<Word>>, py: seq<array<Word>>, b1: bool, b2: bool, curve: Curve, ghost p: nat)
    requires FieldOk(curve, p) && SixRegs(rx, ry, z, tx, ty, tz, curve) && Loadable(Acc(rx, ry, z, curve), p)
    requires TableRegs(px, py, curve) && Apart(px, py, rx, ry, z, tx, ty, tz)
    modifies rx, ry, z, tx, ty, tz
    ensures Loadable(Acc(rx, ry, z, curve), p)
    ensures TableOf(px, py, curve) == old(TableOf(px, py, curve))
    ensures Acc(rx, ry, z, curve) ==
            JointStep(curve.kind, old(Acc(rx, ry, z, curve)), b1, b2, TableOf(px, py, curve), p)
  {
    RegistersFit(curve, p);
    hide R, AddPoint, Doubled, FieldOk, Acc, Below, Loadable, Choose;
    DoubleAcc(rx, ry, z, curve, p);
    assert TableOf(px, py, curve) == old(TableOf(px, py, curve));
    hide TableOf, Reg;
    if b1 || b2 {
      AddEntry(rx, ry, z, tx, ty, tz, px, py, b1, b2, curve, p);
    }
  }

  /** Everything the loop needs of its arrays. */
  ghost predicate LoopReady(rx: array<Word>, ry: array<Word>, z: array<Word>, tx: array<Word>, ty: array<Word>,
                            tz: array<Word>,
                            px: seq<array<Word>>, py: seq<array<Word>>, u1: array<Word>, u2: array<Word>,
                            curve: Curve, p: nat)
    reads curve.p
  {
    FieldOk(curve, p) && SixRegs(rx, ry, z, tx, ty, tz, curve) &&
    TableRegs(px, py, curve) && Apart(px, py, rx, ry, z, tx, ty, tz) &&
    u1 !in {rx, ry, z, tx, ty, tz} && u2 !in {rx, ry, z, tx, ty, tz} &&
    curve.numWords <= u1.Length && curve.numWords <= u2.Length
  }

  /** One round for the bits at position i of the two scalars. */
  method JointBits(rx: array<Word>, ry: array<Word>, z: array<Word>, tx: array<Word>, ty: array<Word>, tz: array<Word>,
                   px: seq<array<Word>>, py: seq<array<Word>>, u1: array<Word>, u2: array<Word>, i: nat,
                   curve: Curve, ghost p: nat)
    requires LoopReady(rx, ry, z, tx, ty, tz, px, py, u1, u2, curve, p) && Loadable(Acc(rx, ry, z, curve), p)
    requires i < curve.numWords * WORD_BITS
    modifies rx, ry, z, tx, ty, tz
    ensures LoopReady(rx, ry, z, tx, ty, tz, px, py, u1, u2, curve, p)
    ensures Loadable(Acc(rx, ry, z, curve), p) && TableOf(px, py, curve) == old(TableOf(px, py, curve))
    ensures V(u1, curve.numWords) == old(V(u1, curve.numWords)) && V(u2, curve.numWords) == old(V(u2, curve.numWords))
    ensures p > 0 && Acc(rx, ry, z, curve) ==
            JointStep(curve.kind, old(Acc(rx, ry, z, curve)), Bit(V(u1, curve.numWords), i),
                      Bit(V(u2, curve.numWords), i), TableOf(px, py, curve), p)
  {
    RegistersFit(curve, p);
    hide FieldOk, R, V, Acc, Loadable, JointStep, Apart, SixRegs, TableRegs, TableOf, Bit;
    var b1 := TestLow(u1, i, curve.numWords);
    var b2 := TestLow(u2, i, curve.numWords);
    JointRound(rx, ry, z, tx, ty, tz, px, py, b1, b2, curve, p);
  }

  lemma ReadyFacts(rx: array<Word>, ry: array<Word>, z: array<Word>, tx: array<Word>, ty: array<Word>, tz: array<Word>,
                   px: seq<array<Word>>, py: seq<array<Word>>, u1: array<Word>, u2: array<Word>, curve: Curve, p: nat)
    requires LoopReady(rx, ry, z, tx, ty, tz, px, py, u1, u2, curve, p)
    ensures p > 3 && curve.numWords <= u1.Length && curve.numWords <= u2.Length
    ensures Reg(rx, curve) && Reg(ry, curve) && Reg(z, curve) && TableRegs(px, py, curve)
  {
  }

  /** The loop over the bits numBits - 2 .. 0 of the two scalars. */
  method JointLoop(rx: array<Word>, ry: array<Word>, z: array<Word>, tx: array<Word>, ty: array<Word>, tz: array<Word>,
                   px: seq<array<Word>>, py: seq<array<Word>>, u1: array<Word>, u2: array<Word>, numBits: nat,
                   curve: Curve, ghost p: nat)
    requires LoopReady(rx, ry, z, tx, ty, tz, px, py, u1, u2, curve, p) && Loadable(Acc(rx, ry, z, curve), p)
    requires 0 < numBits <= curve.numWords * WORD_BITS
    modifies rx, ry, z, tx, ty, tz
    ensures Loadable(Acc(rx, ry, z, curve), p)
    ensures p > 0 && Acc(rx, ry, z, curve) ==
            JointRun(curve.kind, old(Acc(rx, ry, z, curve)), V(u1, curve.numWords), V(u2, curve.numWords), numBits - 1,
                     TableOf(px, py, curve), p)
  {
    ReadyFacts(rx, ry, z, tx, ty, tz, px, py, u1, u2, curve, p);
    hide LoopReady, TableRegs, Reg, R, V, Acc, Loadable, JointStep, TableOf, Bit, WORD_BITS, JointRun;
    ghost var x1, x2, start, t :=
      V(u1, curve.numWords), V(u2, curve.numWords), Acc(rx, ry, z, curve), TableOf(px, py, curve);
    var i := numBits - 1;
    while i > 0
      invariant 0 <= i < numBits
      invariant LoopReady(rx, ry, z, tx, ty, tz, px, py, u1, u2, curve, p)
      invariant Loadable(Acc(rx, ry, z, curve), p)
      invariant JointRun(curve.kind, Acc(rx, ry, z, curve), x1, x2, i, t, p) ==
                JointRun(curve.kind, start, x1, x2, numBits - 1, t, p)
      invariant TableOf(px, py, curve) == t && V(u1, curve.numWords) == x1 && V(u2, curve.numWords) == x2
    {
      ghost var s := Acc(rx, ry, z, curve);
      JointBits(rx, ry, z, tx, ty, tz, px, py, u1, u2, i - 1, curve, p);
      RunStep(curve.kind, s, x1, x2, i, t, p);
      i := i - 1;
    }
    RunNone(curve.kind, Acc(rx, ry, z, curve), x1, x2, t, p);
  }

  /** The difference of the abscissas of the key and the base point is 0, p, or no multiple of p. Every
      abscissa below 2p satisfies this. */
  predicate Separate(gx: nat, qx: nat, p: nat)
    requires p > 0
  {
    qx == gx || qx == gx + p || (qx - gx) % p != 0
  }

  lemma SeparateBelow(gx: nat, qx: nat, p: nat)
    requires gx < p && qx < 2 * p
    ensures Separate(gx, qx, p)
  {
    var k := (qx - gx) / p;
    DivModDef(qx - gx, p);
    if (qx - gx) % p == 0 {
      if k >= 2 { MulMono(p, 2, k); }
      if k < 0 { MulMono(p, k, -1); }
    }
  }

  /** sum = G + Q, with the base point in tx, ty and the public key in the sum's registers. */
  method SumPoints(sumX: array<Word>, sumY: array<Word>, tx: array<Word>, ty: array<Word>, z: array<Word>,
                   curve: Curve, ghost p: nat)
    requires FieldOk(curve, p) && IsPrime(p)
    requires Reg(sumX, curve) && Reg(sumY, curve) && Reg(tx, curve) && Reg(ty, curve) && Reg(z, curve)
    requires sumX !in {sumY, tx, ty, z} && sumY !in {tx, ty, z} && tx !in {ty, z} && ty != z
    requires R(tx, curve) < p && R(ty, curve) < p
    modifies sumX, sumY, tx, ty, z
    ensures R(sumX, curve) < p && R(sumY, curve) < p
    ensures old(Separate(R(tx, curve), R(sumX, curve), p)) ==>
            (R(sumX, curve), R(sumY, curve)) ==
            SumForm(old(R(tx, curve)), old(R(ty, curve)), old(R(sumX, curve)), old(R(sumY, curve)), p)
  {
    RegistersFit(curve, p);
    hide R, AddForm, ScaleForm, IsPrime, FieldOk, KeyInverse, Inv, RawSub, Invertible, Separate;
    ModSubP(z, sumX, tx, curve, p);
    DifferenceInvertible(R(tx, curve), R(sumX, curve), p);
    XYcZAdd(tx, ty, sumX, sumY, curve, p);
    InvertP(z, curve, p);
    ApplyZ(sumX, sumY, z, curve, p);
  }

  /** The difference of the abscissas is p, or can be inverted like a reduced one. */
  lemma DifferenceInvertible(gx: nat, qx: nat, p: nat)
    requires IsPrime(p) && p > 0 && gx < p
    ensures RawSub(qx, gx, p) >= 0
    ensures Separate(gx, qx, p) ==>
              if RawSub(qx, gx, p) == p then KeyInverse(gx, qx, p) == 1
              else Invertible(RawSub(qx, gx, p), p) && Inv(RawSub(qx, gx, p), p) == KeyInverse(gx, qx, p)
  {
    RawSubCong(qx, gx, p);
    var d, f := RawSub(qx, gx, p), FSub(qx, gx, p);
    CongSameMod(d, qx - gx, p);
    if Separate(gx, qx, p) && d != p {
      if qx == gx {
        ModSmall(0, p);
      } else {
        SameInverse(d, f, p);
      }
    }
  }

  /** Congruent numbers have the same inverse. */
  lemma SameInverse(x: int, y: int, p: nat)
    requires IsPrime(p) && p > 1 && Cong(x, y, p) && x % p != 0
    ensures Inv(x, p) == Inv(y, p)
  {
    CongSameMod(x, y, p);
    var i, j := Inv(x, p), Inv(y, p);
    assert Cong(x * i, 1, p) && Cong(y * j, 1, p);
    hide Inv;
    CongRefl(j, p);
    CongMul(x, y, j, j, p);
    CongTrans(x * j, y * j, 1, p);
    CongSym(x * j, 1, p);
    CongTrans(x * i, 1, x * j, p);
    PrimeCoprime(x, p);
    CongCancel(x, i, j, p);
    CongReduced(i, j, p);
  }

  /** u1 = e / s and u2 = r / s modulo n, with z for 1 / s. */
  method Scalars(u1: array<Word>, u2: array<Word>, z: array<Word>, r: array<Word>, s: array<Word>, hash: seq<Byte>,
                 curve: Curve, ghost p: nat, ghost n: nat, ghost gx: nat, ghost gy: nat)
    requires CurveOk(curve, p, n, gx, gy) && IsPrime(n)
    requires Buf(u1, curve) && Buf(u2, curve) && Buf(z, curve) && Buf(r, curve) && Buf(s, curve)
    requires u1 !in {u2, z, r, s} && u2 !in {z, r, s} && z !in {r, s}
    requires 0 < V(s, curve.numWords) < n
    modifies u1, u2, z
    ensures n > 1 && V(u1, curve.numWords) == FMul(HashNumber(hash, n, curve.numNBits), Inv(V(s, curve.numWords), n), n)
    ensures V(u2, curve.numWords) == FMul(V(r, curve.numWords), Inv(V(s, curve.numWords), n), n)
  {
    OrderFits(curve, p, n, gx, gy);
    hide CurveOk, IsPrime, IsInverse, Val, FMul, HashNumber, Inv;
    ModInv(z, s, curve.n, curve.numWords);
    ReducedInvertible(V(s, curve.numWords), n);
    InverseIsInv(V(z, curve.numWords), V(s, curve.numWords), n);
    HashInto(u1, hash, curve, p, n, gx, gy);
    MultN(u1, u1, z, curve, p, n, gx, gy);
    MultN(u2, r, z, curve, p, n, gx, gy);
  }

  /** The number of significant bits of the longer of two numbers. */
  function BitLength(x: nat): nat {
    if x == 0 then 0 else 1 + BitLength(x / 2)
  }

  lemma {:induction false} BitLengthIs(x: nat, r: nat)
    requires IsBitLength(x, r)
    ensures r == BitLength(x)
  {
    if x > 0 {
      if x == 1 {
        assert BitLength(0) == 0;
      } else {
        BitLengthIs(x / 2, r - 1);
      }
    }
  }

  lemma {:induction false} BitLengthBound(x: nat, bits: nat)
    requires BitLength(x) <= bits
    ensures x < Pow2(bits)
    ensures bits > 0 && BitLength(x) == bits ==> Bit(x, bits - 1)
    decreases bits
  {
    if x > 0 {
      BitLengthBound(x / 2, bits - 1);
      if BitLength(x) == bits {
        if bits == 1 {
          assert x / 2 == 0 && Pow2(0) == 1;
          ModUnique(1, 1, 1, 0);
        } else {
          DivDiv(x, 2, Pow2(bits - 2));
          assert Pow2(bits - 1) == 2 * Pow2(bits - 2);
        }
      }
    }
  }

  function Longer(x: nat, y: nat): nat {
    if BitLength(x) > BitLength(y) then BitLength(x) else BitLength(y)
  }

  /** smax of the two bit lengths. */
  method LongerBits(u1: array<Word>, u2: array<Word>, n: nat) returns (bits: nat)
    requires n <= u1.Length && n <= u2.Length
    ensures bits == Longer(V(u1, n), V(u2, n)) <= n * WORD_BITS
  {
    hide Val, IsBitLength, BitLength;
    var a := NumBits(u1, n);
    var b := NumBits(u2, n);
    BitLengthIs(V(u1, n), a);
    BitLengthIs(V(u2, n), b);
    bits := if a > b then a else b;
  }

  /** Acceptance of (r, s), as the code decides it, for the public key q. */
  ghost predicate Accepts(curve: Curve, q: (int, int), e: nat, r: nat, s: nat, p: nat, n: nat, gx: nat, gy: nat)
    requires IsPrime(p) && IsPrime(n)
  {
    0 < r < n && 0 < s < n &&
    var u1, u2 := FMul(e, Inv(s, n), n), FMul(r, Inv(s, n), n);
    Longer(u1, u2) > 0 &&
    var x := JointX(curve.kind, u1, u2, Longer(u1, u2), (gx, gy), q, p);
    (if x >= n then x - n else x) == r
  }

  /** r / s is not zero, so that there is a top bit. */
  lemma SecondScalar(u1: nat, r: nat, s: nat, n: nat)
    requires IsPrime(n) && n > 1 && 0 < r < n && 0 < s < n
    ensures FMul(r, Inv(s, n), n) > 0 && Longer(u1, FMul(r, Inv(s, n), n)) > 0
  {
    var i := Inv(s, n);
    InverseHolds(s, n);
    hide IsPrime, Inv, Cong;
    if i == 0 {
      assert s * 0 == 0;
      NotInvertibleZero(n);
    }
    ProductNonzero(r, i, n);
  }

  lemma NotInvertibleZero(n: nat)
    requires n > 1
    ensures !Cong(0, 1, n)
  {
    CongSameMod(0, 1, n);
    ModSmall(0, n);
    ModSmall(1, n);
  }

  //
  // The abscissa
  //

  /** rx, ry, z = the point of the top bits. */
  method JointFirst(rx: array<Word>, ry: array<Word>, z: array<Word>, px: seq<array<Word>>, py: seq<array<Word>>,
                    b1: bool, b2: bool, curve: Curve, ghost p: nat)
    requires FieldOk(curve, p) && Reg(rx, curve) && Reg(ry, curve) && Reg(z, curve) && rx != ry && rx != z && ry != z
    requires TableRegs(px, py, curve) && (b1 || b2)
    requires forall i :: 0 <= i < |px| && i < |py| ==> {px[i], py[i]} !! {rx, ry, z}
    modifies rx, ry, z
    ensures Loadable(Acc(rx, ry, z, curve), p) && TableOf(px, py, curve) == old(TableOf(px, py, curve))
    ensures Acc(rx, ry, z, curve) ==
            Jacobian(Choose(TableOf(px, py, curve), b1, b2).0, Choose(TableOf(px, py, curve), b1, b2).1, 1)
  {
    RegistersFit(curve, p);
    hide FieldOk, Val;
    var index := (if b1 then 1 else 0) + (if b2 then 2 else 0);
    SetField(rx, px[index - 1], curve);
    SetField(ry, py[index - 1], curve);
    SetOne(z, curve.numWords);
  }

  /** The joint loop from its start to the affine abscissa. */
  method JointAbscissa(rx: array<Word>, ry: array<Word>, z: array<Word>, tx: array<Word>, ty: array<Word>,
                       tz: array<Word>,
                       px: seq<array<Word>>, py: seq<array<Word>>, u1: array<Word>, u2: array<Word>, numBits: nat,
                       curve: Curve, ghost p: nat)
    requires LoopReady(rx, ry, z, tx, ty, tz, px, py, u1, u2, curve, p) && IsPrime(p)
    requires TableRegs(px, py, curve)
    requires curve.numWords <= u1.Length && curve.numWords <= u2.Length && 0 < numBits <= curve.numWords * WORD_BITS
    requires Bit(V(u1, curve.numWords), numBits - 1) || Bit(V(u2, curve.numWords), numBits - 1)
    modifies rx, ry, z, tx, ty, tz
    ensures Reg(rx, curve) && R(rx, curve) < p
    ensures R(rx, curve) ==
            JointOver(curve.kind, V(u1, curve.numWords), V(u2, curve.numWords), numBits, TableOf(px, py, curve), p)
  {
    hide IsPrime, R, V, Bit, JointRun, Choose, Invertible, ScaleForm, Inv, FieldOk;
    ghost var t := TableOf(px, py, curve);
    var b1 := TestLow(u1, numBits - 1, curve.numWords);
    var b2 := TestLow(u2, numBits - 1, curve.numWords);
    JointFirst(rx, ry, z, px, py, b1, b2, curve, p);
    JointLoop(rx, ry, z, tx, ty, tz, px, py, u1, u2, numBits, curve, p);
    ReducedInvertible(R(z, curve), p);
    InvertP(z, curve, p);
    ApplyZ(rx, ry, z, curve, p);
  }

  /** sum = G + Q, from the curve and the public key. */
  method KeySum(sumX: array<Word>, sumY: array<Word>, tx: array<Word>, ty: array<Word>, z: array<Word>,
                pubX: array<Word>, pubY: array<Word>, curve: Curve, ghost p: nat, ghost n: nat, ghost gx: nat,
                ghost gy: nat)
    requires CurveOk(curve, p, n, gx, gy) && IsPrime(p)
    requires Buf(sumX, curve) && Buf(sumY, curve) && Buf(tx, curve) && Buf(ty, curve) && Buf(z, curve)
    requires sumX !in {sumY, tx, ty, z} && sumY !in {tx, ty, z} && tx !in {ty, z} && ty != z
    requires Buf(pubX, curve) && Buf(pubY, curve) && {pubX, pubY} !! {sumX, sumY, tx, ty, z}
    modifies sumX, sumY, tx, ty, z
    ensures Separate(gx, R(pubX, curve), p) ==>
            (R(sumX, curve), R(sumY, curve)) == SumForm(gx, gy, R(pubX, curve), R(pubY, curve), p)
  {
    hide R, V, IsPrime, SumForm, OrderOk, Place;
    SetField(sumX, pubX, curve);
    SetField(sumY, pubY, curve);
    SetField(tx, curve.gx, curve);
    SetField(ty, curve.gy, curve);
    SumPoints(sumX, sumY, tx, ty, z, curve, p);
  }

  /** The arrays of the table are ready for the loop. */
  lemma ReadyTable(rx: array<Word>, ry: array<Word>, z: array<Word>, tx: array<Word>, ty: array<Word>, tz: array<Word>,
                   pubX: array<Word>, pubY: array<Word>, sumX: array<Word>, sumY: array<Word>,
                   u1: array<Word>, u2: array<Word>, curve: Curve, p: nat, n: nat, gx: nat, gy: nat)
    requires CurveOk(curve, p, n, gx, gy)
    requires Buf(rx, curve) && Buf(ry, curve) && Buf(z, curve) && Buf(tx, curve) && Buf(ty, curve) && Buf(tz, curve)
    requires Buf(pubX, curve) && Buf(pubY, curve) && Buf(sumX, curve) && Buf(sumY, curve)
    requires rx !in {ry, z, tx, ty, tz} && ry !in {z, tx, ty, tz} && z !in {tx, ty, tz} && tx !in {ty, tz} && ty != tz
    requires {pubX, pubY, sumX, sumY, u1, u2} !! {rx, ry, z, tx, ty, tz}
    requires curve.numWords <= u1.Length && curve.numWords <= u2.Length
    ensures LoopReady(rx, ry, z, tx, ty, tz, [curve.gx, pubX, sumX], [curve.gy, pubY, sumY], u1, u2, curve, p)
    ensures TableRegs([curve.gx, pubX, sumX], [curve.gy, pubY, sumY], curve)
  {
    hide FieldOk, OrderOk, R, Place;
  }

  /** rx = the abscissa of u1 * G + u2 * Q, on the caller's temporaries. */
  method CombineRegs(rx: array<Word>, ry: array<Word>, z: array<Word>, tx: array<Word>, ty: array<Word>,
                     tz: array<Word>, sumX: array<Word>, sumY: array<Word>, pubX: array<Word>, pubY: array<Word>,
                     u1: array<Word>, u2: array<Word>, numBits: nat,
                     curve: Curve, ghost p: nat, ghost n: nat, ghost gx: nat, ghost gy: nat)
    requires CurveOk(curve, p, n, gx, gy) && IsPrime(p)
    requires Buf(rx, curve) && Buf(ry, curve) && Buf(z, curve) && Buf(tx, curve) && Buf(ty, curve) && Buf(tz, curve)
    requires Buf(pubX, curve) && Buf(pubY, curve) && Buf(sumX, curve) && Buf(sumY, curve)
    requires rx !in {ry, z, tx, ty, tz} && ry !in {z, tx, ty, tz} && z !in {tx, ty, tz} && tx !in {ty, tz} && ty != tz
    requires {pubX, pubY, sumX, sumY, u1, u2} !! {rx, ry, z, tx, ty, tz} && sumX != sumY &&
             {pubX, pubY, u1, u2} !! {sumX, sumY}
    requires curve.numWords <= u1.Length && curve.numWords <= u2.Length && 0 < numBits <= curve.numWords * WORD_BITS
    requires Bit(V(u1, curve.numWords), numBits - 1) || Bit(V(u2, curve.numWords), numBits - 1)
    modifies rx, ry, z, tx, ty, tz, sumX, sumY
    ensures R(rx, curve) < p
    ensures Separate(gx, R(pubX, curve), p) ==>
            R(rx, curve) == JointX(curve.kind, V(u1, curve.numWords), V(u2, curve.numWords), numBits, (gx, gy),
                                   (R(pubX, curve), R(pubY, curve)), p)
  {
    BaseBelow(curve, p, n, gx, gy);
    hide CurveOk, IsPrime, R, V, SumForm, JointOver, Bit, LoopReady, WORD_BITS;
    KeySum(sumX, sumY, tx, ty, z, pubX, pubY, curve, p, n, gx, gy);
    ReadyTable(rx, ry, z, tx, ty, tz, pubX, pubY, sumX, sumY, u1, u2, curve, p, n, gx, gy);
    JointAbscissa(rx, ry, z, tx, ty, tz, [curve.gx, pubX, sumX], [curve.gy, pubY, sumY], u1, u2, numBits, curve, p);
  }

  lemma BaseBelow(curve: Curve, p: nat, n: nat, gx: nat, gy: nat)
    requires CurveOk(curve, p, n, gx, gy)
    ensures Reg(curve.gx, curve) && Reg(curve.gy, curve) && R(curve.gx, curve) == gx < p && R(curve.gy, curve) == gy < p
    ensures 0 < curve.numWords <= MAX_WORDS
  {
  }

  /** rx = the abscissa of u1 * G + u2 * Q. */
  method Combine(rx: array<Word>, pubX: array<Word>, pubY: array<Word>, u1: array<Word>, u2: array<Word>, numBits: nat,
                 curve: Curve, ghost p: nat, ghost n: nat, ghost gx: nat, ghost gy: nat)
    requires CurveOk(curve, p, n, gx, gy) && IsPrime(p)
    requires Buf(rx, curve) && Buf(pubX, curve) && Buf(pubY, curve) && rx !in {pubX, pubY, u1, u2}
    requires curve.numWords <= u1.Length && curve.numWords <= u2.Length && 0 < numBits <= curve.numWords * WORD_BITS
    requires Bit(V(u1, curve.numWords), numBits - 1) || Bit(V(u2, curve.numWords), numBits - 1)
    modifies rx
    ensures R(rx, curve) < p
    ensures Separate(gx, R(pubX, curve), p) ==>
            R(rx, curve) == JointX(curve.kind, V(u1, curve.numWords), V(u2, curve.numWords), numBits, (gx, gy),
                                   (R(pubX, curve), R(pubY, curve)), p)
  {
    hide IsPrime, R, V, JointX, Bit, WORD_BITS, CurveOk, Buf;
    var ry := new Word[MAX_WORDS];
    FreshBuf(ry, curve, p, n, gx, gy);
    var z := new Word[MAX_WORDS];
    FreshBuf(z, curve, p, n, gx, gy);
    var tx := new Word[MAX_WORDS];
    FreshBuf(tx, curve, p, n, gx, gy);
    var ty := new Word[MAX_WORDS];
    FreshBuf(ty, curve, p, n, gx, gy);
    var tz := new Word[MAX_WORDS];
    FreshBuf(tz, curve, p, n, gx, gy);
    var sumX := new Word[MAX_WORDS];
    FreshBuf(sumX, curve, p, n, gx, gy);
    var sumY := new Word[MAX_WORDS];
    FreshBuf(sumY, curve, p, n, gx, gy);
    CombineRegs(rx, ry, z, tx, ty, tz, sumX, sumY, pubX, pubY, u1, u2, numBits, curve, p, n, gx, gy);
  }

  /** The comparison at the end: one subtraction of n at most. */
  method CompareX(rx: array<Word>, r: array<Word>, curve: Curve, ghost p: nat, ghost n: nat, ghost gx: nat,
                ghost gy: nat)
    returns (ok: bool)
    requires CurveOk(curve, p, n, gx, gy) && Buf(rx, curve) && Buf(r, curve) && rx != r
    modifies rx
    ensures var x := old(V(rx, curve.numWords)); ok <==> (if x >= n then x - n else x) == V(r, curve.numWords)
  {
    OrderFits(curve, p, n, gx, gy);
    hide CurveOk, Val, Pow;
    ghost var x := V(rx, curve.numWords);
    var c := CmpUnsafe(curve.n, rx, curve.numWords);
    if c != 1 {
      ValBound(rx[..curve.numWords]);
      ValBound(curve.n[..curve.numWords]);
      var borrow := Sub(rx, rx, curve.n, curve.numWords);
      ValBound(rx[..curve.numWords]);
      BorrowDecides(curve.numWords, x, n, V(rx, curve.numWords), borrow);
    }
    ok := Equal(rx, r, curve.numWords);
  }

  /** Verification of a pair in range, on the caller's temporaries. */
  method VerifyPair(pubX: array<Word>, pubY: array<Word>, r: array<Word>, s: array<Word>, hash: seq<Byte>,
                    u1: array<Word>, u2: array<Word>, z: array<Word>, rx: array<Word>,
                    curve: Curve, ghost p: nat, ghost n: nat, ghost gx: nat, ghost gy: nat) returns (ok: bool)
    requires CurveOk(curve, p, n, gx, gy) && IsPrime(p) && IsPrime(n)
    requires Buf(pubX, curve) && Buf(pubY, curve) && Buf(r, curve) && Buf(s, curve)
    requires Buf(u1, curve) && Buf(u2, curve) && Buf(z, curve) && Buf(rx, curve)
    requires {pubX, pubY, r, s} !! {u1, u2, z, rx} && u1 !in {u2, z, rx} && u2 !in {z, rx} && z != rx
    requires 0 < V(r, curve.numWords) < n && 0 < V(s, curve.numWords) < n
    modifies u1, u2, z, rx
    ensures Separate(gx, R(pubX, curve), p) ==>
            (ok <==> Accepts(curve, (R(pubX, curve), R(pubY, curve)), HashNumber(hash, n, curve.numNBits),
                            V(r, curve.numWords), V(s, curve.numWords), p, n, gx, gy))
  {
    OrderFits(curve, p, n, gx, gy);
    ghost var e := HashNumber(hash, n, curve.numNBits);
    hide CurveOk, IsPrime, Val, JointX, Bit, WORD_BITS, BitLength, FMul, Inv, HashNumber, Buf, Pow2, Place, WordsFor,
         Longer;
    Scalars(u1, u2, z, r, s, hash, curve, p, n, gx, gy);
    SecondScalar(V(u1, curve.numWords), V(r, curve.numWords), V(s, curve.numWords), n);
    var numBits := LongerBits(u1, u2, curve.numWords);
    TopBitSet(V(u1, curve.numWords), V(u2, curve.numWords));
    Combine(rx, pubX, pubY, u1, u2, numBits, curve, p, n, gx, gy);
    ok := CompareX(rx, r, curve, p, n, gx, gy);
  }

  /** One of the numbers has its top bit at the common length. */
  lemma TopBitSet(x: nat, y: nat)
    ensures x < Pow2(Longer(x, y)) && y < Pow2(Longer(x, y))
    ensures Longer(x, y) > 0 ==> Bit(x, Longer(x, y) - 1) || Bit(y, Longer(x, y) - 1)
  {
    hide Pow2, Bit, BitLength;
    BitLengthBound(x, Longer(x, y));
    BitLengthBound(y, Longer(x, y));
  }

  /** The same with temporaries of its own. */
  method VerifyFresh(pubX: array<Word>, pubY: array<Word>, r: array<Word>, s: array<Word>, hash: seq<Byte>,
                     curve: Curve, ghost p: nat, ghost n: nat, ghost gx: nat, ghost gy: nat) returns (ok: bool)
    requires CurveOk(curve, p, n, gx, gy) && IsPrime(p) && IsPrime(n)
    requires Buf(pubX, curve) && Buf(pubY, curve) && Buf(r, curve) && Buf(s, curve)
    requires 0 < V(r, curve.numWords) < n && 0 < V(s, curve.numWords) < n
    ensures Separate(gx, R(pubX, curve), p) ==>
            (ok <==> Accepts(curve, (R(pubX, curve), R(pubY, curve)), HashNumber(hash, n, curve.numNBits),
                            V(r, curve.numWords), V(s, curve.numWords), p, n, gx, gy))
  {
    hide CurveOk, IsPrime, V, R, Accepts, HashNumber, Buf;
    var u1 := new Word[MAX_WORDS];
    FreshBuf(u1, curve, p, n, gx, gy);
    var u2 := new Word[MAX_WORDS];
    FreshBuf(u2, curve, p, n, gx, gy);
    var z := new Word[MAX_WORDS];
    FreshBuf(z, curve, p, n, gx, gy);
    var rx := new Word[MAX_WORDS];
    FreshBuf(rx, curve, p, n, gx, gy);
    ok := VerifyPair(pubX, pubY, r, s, hash, u1, u2, z, rx, curve, p, n, gx, gy);
  }

  /** Reads a number of the curve's size. */
  method Load(bytes: seq<Byte>, curve: Curve, ghost p: nat, ghost n: nat, ghost gx: nat, ghost gy: nat)
    returns (native: array<Word>)
    requires CurveOk(curve, p, n, gx, gy) && |bytes| == curve.numBytes
    ensures fresh(native) && Buf(native, curve) && V(native, curve.numWords) == BE(bytes)
  {
    OrderFits(curve, p, n, gx, gy);
    hide WordsFor, Val, BE, CurveOk;
    native := new Word[MAX_WORDS];
    FreshBuf(native, curve, p, n, gx, gy);
    BytesToNative(native, bytes);
  }

  /** uECC_verify. The coordinates of the public key need not be reduced. */
  method Verify(publicKey: seq<Byte>, hash: seq<Byte>, signature: seq<Byte>, curve: Curve,
                ghost p: nat, ghost n: nat, ghost gx: nat, ghost gy: nat) returns (ok: bool)
    requires CurveOk(curve, p, n, gx, gy) && IsPrime(p) && IsPrime(n)
    requires |publicKey| == 2 * curve.numBytes && |signature| == 2 * curve.numBytes
    ensures p > 0 && (ok ==> 0 < BE(signature[..curve.numBytes]) < n && 0 < BE(signature[curve.numBytes..]) < n)
    ensures Separate(gx, BE(publicKey[..curve.numBytes]), p) ==>
            (ok <==> Accepts(curve, (BE(publicKey[..curve.numBytes]), BE(publicKey[curve.numBytes..])),
                            HashNumber(hash, n, curve.numNBits),
                            BE(signature[..curve.numBytes]), BE(signature[curve.numBytes..]), p, n, gx, gy))
  {
    OrderFits(curve, p, n, gx, gy);
    hide CurveOk, IsPrime, BE, HashNumber, Val, Buf, WordsFor, Place, Pow2, JointX, FMul, Inv, Longer;
    var pubX := Load(publicKey[..curve.numBytes], curve, p, n, gx, gy);
    var pubY := Load(publicKey[curve.numBytes..], curve, p, n, gx, gy);
    var r := Load(signature[..curve.numBytes], curve, p, n, gx, gy);
    var s := Load(signature[curve.numBytes..], curve, p, n, gx, gy);
    BufLong(r, curve);
    BufLong(s, curve);
    var zeroR := IsZero(r, curve.numWords);
    var zeroS := IsZero(s, curve.numWords);
    if zeroR || zeroS { return false; }
    var cr := CmpUnsafe(curve.n, r, curve.numWords);
    var cs := CmpUnsafe(curve.n, s, curve.numWords);
    if cr != 1 || cs != 1 { return false; }
    ok := VerifyFresh(pubX, pubY, r, s, hash, curve, p, n, gx, gy);
  }

  lemma BufLong(a: array<Word>, curve: Curve)
    requires Buf(a, curve)
    ensures curve.numWords <= a.Length
  {
  }
}
