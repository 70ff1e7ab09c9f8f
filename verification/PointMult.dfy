/** Scalar multiplication as it runs: two pairs of registers, indexed by the scalar's bits. */
module PointMult {
  import opened Arith
  import opened Bits
  import opened Words
  import opened Vli
  import opened VliInv
  import opened Congruence
  import opened Field
  import opened CurveGroup
  import opened CoZ
  import opened Ladder
  import opened PointOps

  /** The coordinates that EccPoint_mult computes from the point, the initial z and the scalar. */
  ghost function MultValue(kind: CurveKind, px: int, py: int, z: int, k: nat, numBits: nat, p: nat): (int, int)
    requires IsPrime(p) && numBits >= 2
  {
    var (sx, sy) := ScaleForm(px, py, z, p);
    var (dx, dy, dz) := DoubleForm(kind, sx, sy, z, p);
    Climb(Start(px, py, dx, dy, dz, p), px, py, k, numBits, p)
  }

  /** Zero, and the numbers that have an inverse: all but the nonzero multiples of m. */
  predicate Invertible(x: nat, m: nat)
    requires m > 0
  {
    x == 0 || x % m != 0
  }

  lemma ReducedInvertible(x: nat, m: nat)
    requires x < m
    ensures Invertible(x, m)
  {
    ModSmall(x, m);
  }

  /** What uECC_vli_modInv returns for a prime modulus. */
  lemma InverseIsInv(r: nat, x: nat, m: nat)
    requires IsPrime(m) && r < m && IsInverse(r, x, m) && Invertible(x, m)
    ensures r == Inv(x, m)
  {
    if x == 0 {
      ModSmall(0, m);
    } else {
      var i := Inv(x, m);
      PrimeCoprime(x, m);
      CoprimeInverse(r, x, m);
      hide IsPrime, Coprime, IsInverse, Inv;
      CongSym(x * i, 1, m);
      assert r * x == x * r;
      CongTrans(x * r, 1, x * i, m);
      CongCancel(x, r, i, m) by { MulAtLeast(1, 1); PrimeAboveOne(m); }
      CongReduced(r, i, m);
    }
  }

  lemma PrimeAboveOne(m: int)
    requires IsPrime(m)
    ensures m > 1
  {
  }

  /** z = 1 / z, also for a z that is not reduced. */
  method InvertP(Z: array<Word>, curve: Curve, ghost m: nat)
    requires FieldOk(curve, m) && Reg(Z, curve) && IsPrime(m)
    modifies Z
    ensures R(Z, curve) < m
    ensures old(Invertible(R(Z, curve), m)) ==> R(Z, curve) == Inv(old(R(Z, curve)), m)
    ensures old(R(Z, curve)) == m ==> R(Z, curve) == 1
    ensures Z[curve.numWords..] == old(Z[curve.numWords..])
  {
    hide IsPrime, IsInverse;
    ModInv(Z, Z, curve.p, curve.numWords);
    if old(Invertible(R(Z, curve), m)) { InverseIsInv(R(Z, curve), old(R(Z, curve)), m); }
  }

  /** P => 2P, and P rescaled to the same z in the second pair. */
  method InitialDouble(X1: array<Word>, Y1: array<Word>, X2: array<Word>, Y2: array<Word>, initialZ: array?<Word>,
                       curve: Curve, ghost m: nat)
    requires FieldOk(curve, m) && Reg(X1, curve) && Reg(Y1, curve) && Reg(X2, curve) && Reg(Y2, curve)
    requires X1 != Y1 && X1 != X2 && X1 != Y2 && Y1 != X2 && Y1 != Y2 && X2 != Y2
    requires initialZ != null ==> Reg(initialZ, curve) && R(initialZ, curve) < m
    requires initialZ != null ==> initialZ != X1 && initialZ != Y1 && initialZ != X2 && initialZ != Y2
    modifies X1, Y1, X2, Y2
    ensures R(X1, curve) < m && R(Y1, curve) < m && R(X2, curve) < m && R(Y2, curve) < m
    ensures var z := if initialZ != null then R(initialZ, curve) else 1;
            var px, py := old(R(X1, curve)), old(R(Y1, curve));
            var (sx, sy) := ScaleForm(px, py, z, m);
            var (dx, dy, dz) := DoubleForm(curve.kind, sx, sy, z, m);
            Pair(R(X2, curve), R(Y2, curve), R(X1, curve), R(Y1, curve)) == Start(px, py, dx, dy, dz, m)
  {
    hide Val, ScaleForm, DoubleForm;
    var z := new Word[MAX_WORDS];
    if initialZ != null {
      SetField(z, initialZ, curve);
    } else {
      SetOne(z, curve.numWords);
    }
    hide R;
    SetField(X2, X1, curve);
    SetField(Y2, Y1, curve);
    ApplyZ(X1, Y1, z, curve, m);
    DoubleJacobian(X1, Y1, z, curve, m);
    ApplyZ(X2, Y2, z, curve, m);
  }

  /** The four registers as a pair. */
  ghost function PairOf(X0: array<Word>, Y0: array<Word>, X1: array<Word>, Y1: array<Word>, curve: Curve): Pair
    requires Reg(X0, curve) && Reg(Y0, curve) && Reg(X1, curve) && Reg(Y1, curve)
    reads X0, Y0, X1, Y1
  {
    Pair(R(X0, curve), R(Y0, curve), R(X1, curve), R(Y1, curve))
  }

  ghost predicate FourRegs(X0: array<Word>, Y0: array<Word>, X1: array<Word>, Y1: array<Word>, curve: Curve)
  {
    Reg(X0, curve) && Reg(Y0, curve) && Reg(X1, curve) && Reg(Y1, curve) &&
    X0 != Y0 && X0 != X1 && X0 != Y1 && Y0 != X1 && Y0 != Y1 && X1 != Y1
  }

  ghost predicate Small(s: Pair, m: nat) {
    0 <= s.x0 < m && 0 <= s.y0 < m && 0 <= s.x1 < m && 0 <= s.y1 < m
  }

  /** XYcZ_addC with the registers chosen by the bit. */
  method AddSubBit(X0: array<Word>, Y0: array<Word>, X1: array<Word>, Y1: array<Word>, bit: bool, curve: Curve,
                   ghost m: nat)
    requires FieldOk(curve, m) && FourRegs(X0, Y0, X1, Y1, curve) && Small(PairOf(X0, Y0, X1, Y1, curve), m)
    modifies X0, Y0, X1, Y1
    ensures Small(PairOf(X0, Y0, X1, Y1, curve), m)
    ensures PairOf(X0, Y0, X1, Y1, curve) == AddSubStep(old(PairOf(X0, Y0, X1, Y1, curve)), bit, m)
  {
    hide R, AddSubForm;
    var Rx, Ry := [X0, X1], [Y0, Y1];
    var nb := if bit then 0 else 1;
    XYcZAddC(Rx[1 - nb], Ry[1 - nb], Rx[nb], Ry[nb], curve, m);
  }

  /** XYcZ_add with the registers chosen by the bit. */
  method AddBit(X0: array<Word>, Y0: array<Word>, X1: array<Word>, Y1: array<Word>, bit: bool, curve: Curve,
                ghost m: nat)
    requires FieldOk(curve, m) && FourRegs(X0, Y0, X1, Y1, curve) && Small(PairOf(X0, Y0, X1, Y1, curve), m)
    modifies X0, Y0, X1, Y1
    ensures Small(PairOf(X0, Y0, X1, Y1, curve), m)
    ensures PairOf(X0, Y0, X1, Y1, curve) == AddStep(old(PairOf(X0, Y0, X1, Y1, curve)), bit, m)
  {
    hide R, AddForm;
    var Rx, Ry := [X0, X1], [Y0, Y1];
    var nb := if bit then 0 else 1;
    XYcZAdd(Rx[nb], Ry[nb], Rx[1 - nb], Ry[1 - nb], curve, m);
  }

  /** The value whose inverse is needed, and 1/Z from it. */
  method RecoverFinalZ(z: array<Word>, X0: array<Word>, Y0: array<Word>, X1: array<Word>, Y1: array<Word>, bit: bool,
                       pointX: array<Word>, pointY: array<Word>, curve: Curve, ghost m: nat)
    requires FieldOk(curve, m) && FourRegs(X0, Y0, X1, Y1, curve) && Small(PairOf(X0, Y0, X1, Y1, curve), m) &&
             IsPrime(m)
    requires Reg(z, curve) && Reg(pointX, curve) && Reg(pointY, curve) && z != pointX && z != pointY
    requires z != X0 && z != Y0 && z != X1 && z != Y1
    modifies z
    ensures R(z, curve) == FinalZ(PairOf(X0, Y0, X1, Y1, curve), bit,
                                  Inv(ToInvert(PairOf(X0, Y0, X1, Y1, curve), bit, R(pointX, curve), m), m),
                                  R(pointY, curve), m)
  {
    hide R, FMul, FSub, IsPrime, Invertible;
    var Rx, Ry := [X0, X1], [Y0, Y1];
    var nb := if bit then 0 else 1;
    ModSubP(z, Rx[1], Rx[0], curve, m);
    ModMultFast(z, z, Ry[1 - nb], curve, m);
    ModMultFast(z, z, pointX, curve, m);
    ReducedInvertible(R(z, curve), m);
    InvertP(z, curve, m);
    ModMultFast(z, z, pointY, curve, m);
    ModMultFast(z, z, Rx[1 - nb], curve, m);
  }

  /** The loop of the ladder: bits numBits - 2 down to 1. */
  method LadderLoop(X0: array<Word>, Y0: array<Word>, X1: array<Word>, Y1: array<Word>, scalar: array<Word>,
                    numBits: nat, curve: Curve, ghost m: nat)
    requires FieldOk(curve, m) && FourRegs(X0, Y0, X1, Y1, curve) && Small(PairOf(X0, Y0, X1, Y1, curve), m)
    requires scalar != X0 && scalar != Y0 && scalar != X1 && scalar != Y1
    requires 2 <= numBits < WORD_BITS * scalar.Length + 2
    modifies X0, Y0, X1, Y1
    ensures Small(PairOf(X0, Y0, X1, Y1, curve), m)
    ensures PairOf(X0, Y0, X1, Y1, curve) ==
            Run(old(PairOf(X0, Y0, X1, Y1, curve)), Val(scalar[..]), numBits - 2, m)
  {
    hide R, Val, AddStep, AddSubStep, FieldOk, Small, PairOf;
    FieldPositive(curve, m);
    ghost var s, k := PairOf(X0, Y0, X1, Y1, curve), Val(scalar[..]);
    var i := numBits - 2;
    while i > 0
      invariant 0 <= i <= numBits - 2
      invariant Small(PairOf(X0, Y0, X1, Y1, curve), m)
      invariant Run(PairOf(X0, Y0, X1, Y1, curve), k, i, m) == Run(s, k, numBits - 2, m)
    {
      var bit := TestBitBelow(scalar, i);
      AddSubBit(X0, Y0, X1, Y1, bit, curve, m);
      AddBit(X0, Y0, X1, Y1, bit, curve, m);
      i := i - 1;
    }
  }

  lemma FieldPositive(curve: Curve, m: nat)
    requires FieldOk(curve, m)
    ensures m > 3
  {
  }

  /** uECC_vli_testBit on a bit that the array holds. */
  method TestBitBelow(vli: array<Word>, bit: nat) returns (r: bool)
    requires bit < WORD_BITS * vli.Length
    ensures r == Bit(Val(vli[..]), bit)
  {
    DivBelow(bit, WORD_BITS, vli.Length);
    r := TestBit(vli, bit);
  }

  /** The last bit of the scalar, with the inversion, on registers that are set aside. */
  method LastBit(X0: array<Word>, Y0: array<Word>, X1: array<Word>, Y1: array<Word>, z: array<Word>, bit: bool,
                 pointX: array<Word>, pointY: array<Word>, curve: Curve, ghost m: nat)
    requires FieldOk(curve, m) && FourRegs(X0, Y0, X1, Y1, curve) && Small(PairOf(X0, Y0, X1, Y1, curve), m) &&
             IsPrime(m)
    requires Reg(z, curve) && Reg(pointX, curve) && Reg(pointY, curve)
    requires {z, pointX, pointY} !! {X0, Y0, X1, Y1} && z != pointX && z != pointY
    modifies X0, Y0, X1, Y1, z
    ensures R(X0, curve) < m && R(Y0, curve) < m
    ensures (R(X0, curve), R(Y0, curve)) ==
            Finish(old(PairOf(X0, Y0, X1, Y1, curve)), bit, R(pointX, curve), R(pointY, curve), m)
  {
    hide R, FMul, FSub, IsPrime, AddSubStep, AddStep, ToInvert, FinalZ, Small, FieldOk, ScaleForm, Inv;
    FieldPositive(curve, m);
    AddSubBit(X0, Y0, X1, Y1, bit, curve, m);
    RecoverFinalZ(z, X0, Y0, X1, Y1, bit, pointX, pointY, curve, m);
    AddBit(X0, Y0, X1, Y1, bit, curve, m);
    ApplyZ(X0, Y0, z, curve, m);
  }

  /** EccPoint_mult on given registers: the coordinates end in the first pair. */
  method PointMultRegs(X0: array<Word>, Y0: array<Word>, X1: array<Word>, Y1: array<Word>, z: array<Word>,
                       pointX: array<Word>, pointY: array<Word>, scalar: array<Word>, initialZ: array?<Word>,
                       numBits: nat, curve: Curve, ghost m: nat)
    requires FieldOk(curve, m) && IsPrime(m) && FourRegs(X0, Y0, X1, Y1, curve) && Reg(z, curve)
    requires Reg(pointX, curve) && Reg(pointY, curve) && R(pointX, curve) < m && R(pointY, curve) < m
    requires {z, pointX, pointY, scalar} !! {X0, Y0, X1, Y1} && z != pointX && z != pointY && z != scalar
    requires initialZ != null ==> Reg(initialZ, curve) && R(initialZ, curve) < m && initialZ !in {X0, Y0, X1, Y1, z}
    requires 2 <= numBits < WORD_BITS * scalar.Length + 2
    modifies X0, Y0, X1, Y1, z
    ensures R(X0, curve) < m && R(Y0, curve) < m
    ensures (R(X0, curve), R(Y0, curve)) ==
            MultValue(curve.kind, R(pointX, curve), R(pointY, curve),
                      if initialZ != null then R(initialZ, curve) else 1, Val(scalar[..]), numBits, m)
  {
    hide R, IsPrime, Val, ScaleForm, DoubleForm, Finish, Run;
    SetField(X1, pointX, curve);
    SetField(Y1, pointY, curve);
    InitialDouble(X1, Y1, X0, Y0, initialZ, curve, m);
    hide FieldOk;
    LadderLoop(X0, Y0, X1, Y1, scalar, numBits, curve, m);
    var bit := TestBitBelow(scalar, 0);
    LastBit(X0, Y0, X1, Y1, z, bit, pointX, pointY, curve, m);
  }

  /** EccPoint_mult. The result may be the point. */
  method EccPointMult(resultX: array<Word>, resultY: array<Word>, pointX: array<Word>, pointY: array<Word>,
                      scalar: array<Word>, initialZ: array?<Word>, numBits: nat, curve: Curve, ghost m: nat)
    requires FieldOk(curve, m) && IsPrime(m) && Reg(resultX, curve) && Reg(resultY, curve)
    requires Reg(pointX, curve) && Reg(pointY, curve) && R(pointX, curve) < m && R(pointY, curve) < m
    requires resultX != resultY && resultX != pointY && resultY != pointX
    requires initialZ != null ==> Reg(initialZ, curve) && R(initialZ, curve) < m
    requires 2 <= numBits < WORD_BITS * scalar.Length + 2
    modifies resultX, resultY
    ensures R(resultX, curve) < m && R(resultY, curve) < m
    ensures (R(resultX, curve), R(resultY, curve)) ==
            MultValue(curve.kind, old(R(pointX, curve)), old(R(pointY, curve)),
                      if initialZ != null then old(R(initialZ, curve)) else 1, old(Val(scalar[..])), numBits, m)
    ensures resultX[curve.numWords..] == old(resultX[curve.numWords..])
  {
    hide R, IsPrime, Val, MultValue, FieldOk;
    RegistersFit(curve, m);
    var X0 := new Word[MAX_WORDS];
    var Y0 := new Word[MAX_WORDS];
    var X1 := new Word[MAX_WORDS];
    var Y1 := new Word[MAX_WORDS];
    var z := new Word[MAX_WORDS];
    PointMultRegs(X0, Y0, X1, Y1, z, pointX, pointY, scalar, initialZ, numBits, curve, m);
    SetField(resultX, X0, curve);
    SetField(resultY, Y0, curve);
  }

  lemma RegistersFit(curve: Curve, m: nat)
    requires FieldOk(curve, m)
    ensures 0 < curve.numWords <= MAX_WORDS && curve.numWords <= curve.p.Length && m > 3
  {
  }
}
