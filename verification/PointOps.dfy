/** The point operations as they run on word arrays, register by register. */
module PointOps {
  import opened Bits
  import opened Words
  import opened Vli
  import opened VliMod
  import opened Congruence
  import opened Field
  import opened CoZ
  import opened Doubling
  import opened VliInv

  /** uECC_SQUARE_FUNC: whether squaring has a function of its own. */
  const SQUARE_FUNC: bool

  datatype CurveKind = AZero | AMinusThree

  /** struct uECC_Curve_t. The base point is kept as its two halves, and the kind stands for
      the pointer to the doubling function. */
  datatype Curve = Curve(numWords: nat, numBytes: nat, numNBits: nat, p: array<Word>, n: array<Word>,
                         gx: array<Word>, gy: array<Word>, kind: CurveKind)

  /** The curve's prime field has the odd modulus m. */
  ghost predicate FieldOk(curve: Curve, m: nat)
    reads curve.p
  {
    0 < curve.numWords <= MAX_WORDS && curve.numWords <= curve.p.Length &&
    curve.p[curve.numWords - 1] != 0 && V(curve.p, curve.numWords) == m && m > 3 && m % 2 == 1
  }

  /** A register: an array for field elements, apart from the modulus. */
  ghost predicate Reg(a: array<Word>, curve: Curve) {
    curve.numWords <= a.Length && a != curve.p
  }

  /** The value of a register. */
  ghost function R(a: array<Word>, curve: Curve): nat
    requires curve.numWords <= a.Length
    reads a
  {
    V(a, curve.numWords)
  }

  //
  // Field operations
  //

  method ModMultFast(result: array<Word>, left: array<Word>, right: array<Word>, curve: Curve, ghost m: nat)
    requires FieldOk(curve, m) && Reg(result, curve) && Reg(left, curve) && Reg(right, curve)
    modifies result
    ensures R(result, curve) == FMul(old(R(left, curve)), old(R(right, curve)), m)
    ensures result[curve.numWords..] == old(result[curve.numWords..])
  {
    ModMult(result, left, right, curve.p, curve.numWords);
  }

  method ModSquareFast(result: array<Word>, left: array<Word>, curve: Curve, ghost m: nat)
    requires FieldOk(curve, m) && Reg(result, curve) && Reg(left, curve)
    modifies result
    ensures R(result, curve) == FMul(old(R(left, curve)), old(R(left, curve)), m)
    ensures result[curve.numWords..] == old(result[curve.numWords..])
  {
    if SQUARE_FUNC {
      ModSquare(result, left, curve.p, curve.numWords);
    } else {
      ModMultFast(result, left, left, curve, m);
    }
  }

  method ModSubP(result: array<Word>, left: array<Word>, right: array<Word>, curve: Curve, ghost m: nat)
    requires FieldOk(curve, m) && Reg(result, curve) && Reg(left, curve) && Reg(right, curve)
    requires R(right, curve) < m
    modifies result
    ensures R(result, curve) == RawSub(old(R(left, curve)), old(R(right, curve)), m)
    ensures old(R(left, curve)) < m ==> R(result, curve) == FSub(old(R(left, curve)), old(R(right, curve)), m)
    ensures result[curve.numWords..] == old(result[curve.numWords..])
  {
    ModSub(result, left, right, curve.p, curve.numWords);
  }

  /** The sum as the source computes it: m is subtracted once. */
  function RawAdd(l: nat, r: nat, m: nat): int {
    if l + r >= m then l + r - m else l + r
  }

  /** Operands of a product need not be reduced. */
  lemma RawFactors(x: int, x': int, y: int, y': int, p: nat)
    requires p > 0 && Cong(x, x', p) && Cong(y, y', p)
    ensures FMul(x, y, p) == FMul(x', y', p)
  {
    CongMul(x, x', y, y', p);
    CongSameMod(x * y, x' * y', p);
  }

  lemma RawSubCong(l: nat, r: nat, p: nat)
    requires p > 0 && r < p
    ensures RawSub(l, r, p) >= 0 && Cong(RawSub(l, r, p), l - r, p) && Cong(RawSub(l, r, p), FSub(l, r, p), p)
  {
    var d := RawSub(l, r, p);
    CongRefl(l - r, p);
    CongIntro(d, l - r, p, if l < r then 1 else 0);
    CongMod(l - r, p);
    CongSym(FSub(l, r, p), l - r, p);
    CongTrans(d, l - r, FSub(l, r, p), p);
  }

  lemma RawAddCong(l: nat, r: nat, p: nat)
    requires p > 0 && r < p
    ensures RawAdd(l, r, p) >= 0 && Cong(RawAdd(l, r, p), l + r, p) && Cong(RawAdd(l, r, p), FAdd(l, r, p), p)
  {
    var d := RawAdd(l, r, p);
    CongIntro(d, l + r, p, if l + r >= p then -1 else 0);
    CongMod(l + r, p);
    CongSym(FAdd(l, r, p), l + r, p);
    CongTrans(d, l + r, FAdd(l, r, p), p);
  }

  method ModAddP(result: array<Word>, left: array<Word>, right: array<Word>, curve: Curve, ghost m: nat)
    requires FieldOk(curve, m) && Reg(result, curve) && Reg(left, curve) && Reg(right, curve)
    requires R(right, curve) < m
    modifies result
    ensures R(result, curve) == RawAdd(old(R(left, curve)), old(R(right, curve)), m)
    ensures old(R(left, curve)) < m ==> R(result, curve) == FAdd(old(R(left, curve)), old(R(right, curve)), m)
    ensures result[curve.numWords..] == old(result[curve.numWords..])
  {
    ValBound(left[..curve.numWords]);
    ModAdd(result, left, right, curve.p, curve.numWords);
  }

  method SetField(dest: array<Word>, src: array<Word>, curve: Curve)
    requires Reg(dest, curve) && Reg(src, curve)
    modifies dest
    ensures R(dest, curve) == old(R(src, curve))
    ensures dest[curve.numWords..] == old(dest[curve.numWords..])
  {
    Set(dest, src, curve.numWords);
  }

  //
  // Co-Z point operations
  //

  /** (x, y) => (x * z^2, y * z^3). */
  method ApplyZ(X1: array<Word>, Y1: array<Word>, Z: array<Word>, curve: Curve, ghost m: nat)
    requires FieldOk(curve, m) && Reg(X1, curve) && Reg(Y1, curve) && Reg(Z, curve)
    requires X1 != Y1 && X1 != Z && Y1 != Z
    modifies X1, Y1
    ensures R(X1, curve) < m && R(Y1, curve) < m
    ensures (R(X1, curve), R(Y1, curve)) == ScaleForm(old(R(X1, curve)), old(R(Y1, curve)), R(Z, curve), m)
    ensures X1[curve.numWords..] == old(X1[curve.numWords..])
  {
    hide R, FMul, Val;
    var t1 := new Word[MAX_WORDS];
    ModSquareFast(t1, Z, curve, m);
    ModMultFast(X1, X1, t1, curve, m);
    ModMultFast(t1, t1, Z, curve, m);
    ModMultFast(Y1, Y1, t1, curve, m);
  }

  /** The two differences of the addition are only used as factors. */
  lemma RawDifferences(l: nat, r: nat, y: int, p: nat)
    requires p > 0 && r < p
    ensures RawSub(l, r, p) >= 0
    ensures var (d, f) := (RawSub(l, r, p), FSub(l, r, p));
            FMul(d, d, p) == FMul(f, f, p) && FMul(d, y, p) == FMul(f, y, p)
  {
    RawSubCong(l, r, p);
    CongRefl(y, p);
    RawFactors(RawSub(l, r, p), FSub(l, r, p), RawSub(l, r, p), FSub(l, r, p), p);
    RawFactors(RawSub(l, r, p), FSub(l, r, p), y, y, p);
  }

  /** P => P', Q => P + Q, in place. Q need not be reduced. */
  method XYcZAdd(X1: array<Word>, Y1: array<Word>, X2: array<Word>, Y2: array<Word>, curve: Curve, ghost m: nat)
    requires FieldOk(curve, m) && Reg(X1, curve) && Reg(Y1, curve) && Reg(X2, curve) && Reg(Y2, curve)
    requires X1 != Y1 && X1 != X2 && X1 != Y2 && Y1 != X2 && Y1 != Y2 && X2 != Y2
    requires R(X1, curve) < m && R(Y1, curve) < m
    modifies X1, Y1, X2, Y2
    ensures R(X1, curve) < m && R(Y1, curve) < m && R(X2, curve) < m && R(Y2, curve) < m
    ensures (R(X1, curve), R(Y1, curve), R(X2, curve), R(Y2, curve)) ==
            AddForm(old(R(X1, curve)), old(R(Y1, curve)), old(R(X2, curve)), old(R(Y2, curve)), m)
    ensures X2[curve.numWords..] == old(X2[curve.numWords..])
  {
    hide R, FMul, FSub, Val, RawSub;
    RawDifferences(R(X2, curve), R(X1, curve), 0, m);
    var t5 := new Word[MAX_WORDS];
    ModSubP(t5, X2, X1, curve, m);
    ModSquareFast(t5, t5, curve, m);
    ModMultFast(X1, X1, t5, curve, m);
    ModMultFast(X2, X2, t5, curve, m);
    ghost var y1, y2 := R(Y1, curve), R(Y2, curve);
    ModSubP(Y2, Y2, Y1, curve, m);
    ModSquareFast(t5, Y2, curve, m);
    ModSubP(t5, t5, X1, curve, m);
    ModSubP(t5, t5, X2, curve, m);
    ModSubP(X2, X2, X1, curve, m);
    ModMultFast(Y1, Y1, X2, curve, m);
    ModSubP(X2, X1, t5, curve, m);
    RawDifferences(y2, y1, R(X2, curve), m);
    ModMultFast(Y2, Y2, X2, curve, m);
    ModSubP(Y2, Y2, Y1, curve, m);
    SetField(X2, t5, curve);
  }

  /** The registers of XYcZ_addC once P + Q is in the second point: B, E, the sum, and the two
      sums y2 + y1 and B + C kept for the difference. */
  function SumHalf(x1: int, y1: int, x2: int, y2: int, p: nat): (int, int, int, int, int, int)
    requires p > 0
  {
    var t5 := FSub(x2, x1, p);
    var a := FMul(t5, t5, p);
    var b := FMul(x1, a, p);
    var c := FMul(x2, a, p);
    var dy := FSub(y2, y1, p);
    var e := FMul(y1, FSub(c, b, p), p);
    var bc := FAdd(b, c, p);
    var x3 := FSub(FMul(dy, dy, p), bc, p);
    (b, e, x3, FSub(FMul(dy, FSub(b, x3, p), p), e, p), FAdd(y2, y1, p), bc)
  }

  /** The difference from B, E and the two kept sums. */
  function DiffHalf(b: int, e: int, sy: int, bc: int, p: nat): (int, int)
    requires p > 0
  {
    var x3 := FSub(FMul(sy, sy, p), bc, p);
    (x3, FSub(FMul(FSub(x3, b, p), sy, p), e, p))
  }

  lemma HalvesOfForm(x1: int, y1: int, x2: int, y2: int, p: nat)
    requires p > 0
    ensures var (b, e, x3, y3, sy, bc) := SumHalf(x1, y1, x2, y2, p);
            var (x3', y3') := DiffHalf(b, e, sy, bc, p);
            AddSubForm(x1, y1, x2, y2, p) == (x3', y3', x3, y3)
  {
  }

  method XYcZAddCSum(X1: array<Word>, Y1: array<Word>, X2: array<Word>, Y2: array<Word>,
                     t5: array<Word>, t6: array<Word>, t7: array<Word>, curve: Curve, ghost m: nat)
    requires FieldOk(curve, m) && Reg(X1, curve) && Reg(Y1, curve) && Reg(X2, curve) && Reg(Y2, curve)
    requires Reg(t7, curve) && t7 != t5 && t7 != t6 && t7 != X1 && t7 != X2 && t7 != Y1 && t7 != Y2
    requires Reg(t5, curve) && Reg(t6, curve) && t5 != t6 && t5 != X1 && t5 != X2 && t5 != Y1 && t5 != Y2
    requires t6 != X1 && t6 != X2 && t6 != Y1 && t6 != Y2
    requires X1 != Y1 && X1 != X2 && X1 != Y2 && Y1 != X2 && Y1 != Y2 && X2 != Y2
    requires R(X1, curve) < m && R(Y1, curve) < m && R(X2, curve) < m && R(Y2, curve) < m
    modifies X1, Y1, X2, Y2, t5, t6, t7
    ensures (R(X1, curve), R(Y1, curve), R(X2, curve), R(Y2, curve), R(t5, curve), R(t6, curve)) ==
            SumHalf(old(R(X1, curve)), old(R(Y1, curve)), old(R(X2, curve)), old(R(Y2, curve)), m)
  {
    hide R, FMul, FSub, FAdd, Val, RawSub, RawAdd;
    ModSubP(t5, X2, X1, curve, m);
    ModSquareFast(t5, t5, curve, m);
    ModMultFast(X1, X1, t5, curve, m);
    ModMultFast(X2, X2, t5, curve, m);
    ModAddP(t5, Y2, Y1, curve, m);
    ModSubP(Y2, Y2, Y1, curve, m);
    ModSubP(t6, X2, X1, curve, m);
    ModMultFast(Y1, Y1, t6, curve, m);
    ModAddP(t6, X1, X2, curve, m);
    ModSquareFast(X2, Y2, curve, m);
    ModSubP(X2, X2, t6, curve, m);
    ModSubP(t7, X1, X2, curve, m);
    ModMultFast(Y2, Y2, t7, curve, m);
    ModSubP(Y2, Y2, Y1, curve, m);
  }

  method XYcZAddCDiff(X1: array<Word>, Y1: array<Word>, t5: array<Word>, t6: array<Word>, t7: array<Word>,
                      curve: Curve, ghost m: nat)
    requires FieldOk(curve, m) && Reg(X1, curve) && Reg(Y1, curve)
    requires Reg(t5, curve) && Reg(t6, curve) && Reg(t7, curve) && t5 != t6 && t5 != t7 && t6 != t7
    requires X1 != Y1 && X1 != t5 && X1 != t6 && X1 != t7 && Y1 != t5 && Y1 != t6 && Y1 != t7
    requires R(X1, curve) < m && R(Y1, curve) < m && R(t5, curve) < m && R(t6, curve) < m
    modifies X1, Y1, t6, t7
    ensures (R(X1, curve), R(Y1, curve)) ==
            DiffHalf(old(R(X1, curve)), old(R(Y1, curve)), R(t5, curve), old(R(t6, curve)), m)
  {
    hide R, FMul, FSub, FAdd, Val, RawSub, RawAdd;
    ModSquareFast(t7, t5, curve, m);
    ModSubP(t7, t7, t6, curve, m);
    ModSubP(t6, t7, X1, curve, m);
    ModMultFast(t6, t6, t5, curve, m);
    ModSubP(Y1, t6, Y1, curve, m);
    SetField(X1, t7, curve);
  }

  /** P => P - Q, Q => P + Q, in place. */
  method XYcZAddC(X1: array<Word>, Y1: array<Word>, X2: array<Word>, Y2: array<Word>, curve: Curve, ghost m: nat)
    requires FieldOk(curve, m) && Reg(X1, curve) && Reg(Y1, curve) && Reg(X2, curve) && Reg(Y2, curve)
    requires X1 != Y1 && X1 != X2 && X1 != Y2 && Y1 != X2 && Y1 != Y2 && X2 != Y2
    requires R(X1, curve) < m && R(Y1, curve) < m && R(X2, curve) < m && R(Y2, curve) < m
    modifies X1, Y1, X2, Y2
    ensures R(X1, curve) < m && R(Y1, curve) < m && R(X2, curve) < m && R(Y2, curve) < m
    ensures (R(X1, curve), R(Y1, curve), R(X2, curve), R(Y2, curve)) ==
            AddSubForm(old(R(X1, curve)), old(R(Y1, curve)), old(R(X2, curve)), old(R(Y2, curve)), m)
  {
    hide R, FMul, FSub, FAdd, Val, RawSub, RawAdd;
    var t5 := new Word[MAX_WORDS];
    var t6 := new Word[MAX_WORDS];
    var t7 := new Word[MAX_WORDS];
    XYcZAddCSum(X1, Y1, X2, Y2, t5, t6, t7, curve, m);
    XYcZAddCDiff(X1, Y1, t5, t6, t7, curve, m);
    HalvesOfForm(old(R(X1, curve)), old(R(Y1, curve)), old(R(X2, curve)), old(R(Y2, curve)), m);
  }

  //
  // Jacobian doubling
  //

  method IsZeroR(X: array<Word>, curve: Curve) returns (r: bool)
    requires Reg(X, curve)
    ensures r <==> R(X, curve) == 0
  {
    r := IsZero(X, curve.numWords);
  }

  /** The shifted carry on top of the halved words. */
  lemma CarryOnTop(s: seq<Word>, t: seq<Word>, n: nat, carry: Word)
    requires 0 < n == |s| == |t| && Val(t) == Val(s) / 2 && carry <= 1
    ensures Or(t[n - 1], Shl(carry, WORD_BITS - 1)) < B
    ensures Val(t[n - 1 := Or(t[n - 1], Shl(carry, WORD_BITS - 1))]) ==
            Val(s) / 2 + (if carry == 1 then Pow(n) / 2 else 0)
  {
    LowBitToTop(carry);
    if carry == 1 {
      assert (1 % 2) * HIGH_BIT == HIGH_BIT;
      hide Or, Shl, Val, Pow;
      SetTopBit(s, t, n);
    } else {
      assert (0 % 2) * HIGH_BIT == 0;
      hide Or, Shl, Val, Pow;
      OrZero(t[n - 1]);
      assert t[n - 1 := t[n - 1]] == t;
    }
  }

  /** X = X / 2 modulo the odd modulus. */
  method HalveP(X: array<Word>, curve: Curve, ghost m: nat)
    requires FieldOk(curve, m) && Reg(X, curve) && R(X, curve) < m
    modifies X
    ensures R(X, curve) == FHalf(old(R(X, curve)), m)
    ensures X[curve.numWords..] == old(X[curve.numWords..])
  {
    hide Pow, Val, Or, Shl, Bit;
    ghost var x, n := R(X, curve), curve.numWords;
    LowBit(V(X, n));
    var odd := TestLow(X, 0, curve.numWords);
    if odd {
      var carry := Add(X, X, curve.p, curve.numWords);
      ghost var s := X[..n];
      ghost var after := X[n..];
      Rshift1(X, curve.numWords);
      ghost var t := X[..n];
      CarryOnTop(s, t, n, carry);
      assert X[n - 1] == t[n - 1];
      X[curve.numWords - 1] := Or(X[curve.numWords - 1], Shl(carry, WORD_BITS - 1));
      assert X[..n] == t[n - 1 := X[n - 1]];
      assert X[n..] == after;
      PowEven(n);
      HalfOfSum(Val(s), Pow(n), carry, x + m);
    } else {
      Rshift1(X, curve.numWords);
    }
  }

  /** double_jacobian_secp256k1 after the test for zero, with its two temporaries. */
  method DoubleZeroRegs(X1: array<Word>, Y1: array<Word>, Z1: array<Word>, t4: array<Word>, t5: array<Word>,
                        curve: Curve, ghost m: nat)
    requires FieldOk(curve, m) && Reg(X1, curve) && Reg(Y1, curve) && Reg(Z1, curve) && Reg(t4, curve) && Reg(t5, curve)
    requires X1 != Y1 && X1 != Z1 && Y1 != Z1 && t4 != t5
    requires t4 != X1 && t4 != Y1 && t4 != Z1 && t5 != X1 && t5 != Y1 && t5 != Z1
    requires R(Z1, curve) != 0
    modifies X1, Y1, Z1, t4, t5
    ensures R(X1, curve) < m && R(Y1, curve) < m && R(Z1, curve) < m
    ensures (R(X1, curve), R(Y1, curve), R(Z1, curve)) ==
            DoubleZeroForm(old(R(X1, curve)), old(R(Y1, curve)), old(R(Z1, curve)), m)
    ensures X1[curve.numWords..] == old(X1[curve.numWords..])
  {
    hide R, FMul, FSub, FAdd, FHalf, Val, RawSub, RawAdd;
    ModSquareFast(t5, Y1, curve, m);
    ModMultFast(t4, X1, t5, curve, m);
    ModSquareFast(X1, X1, curve, m);
    ModSquareFast(t5, t5, curve, m);
    ModMultFast(Z1, Y1, Z1, curve, m);
    ModAddP(Y1, X1, X1, curve, m);
    ModAddP(Y1, Y1, X1, curve, m);
    HalveP(Y1, curve, m);
    ModSquareFast(X1, Y1, curve, m);
    ModSubP(X1, X1, t4, curve, m);
    ModSubP(X1, X1, t4, curve, m);
    ModSubP(t4, t4, X1, curve, m);
    ModMultFast(Y1, Y1, t4, curve, m);
    ModSubP(Y1, Y1, t5, curve, m);
  }

  /** (x + zz) * (x - zz) for an x that need not be reduced. */
  lemma RawTangent(x: nat, zz: nat, p: nat)
    requires p > 0 && zz < p
    ensures var s, s', d := RawAdd(x, zz, p), FAdd(x, zz, p), FAdd(zz, zz, p);
            s >= 0 && FMul(s, RawSub(s, d, p), p) == FMul(s', FSub(s', d, p), p)
  {
    RawAddCong(x, zz, p);
    var s, s', d := RawAdd(x, zz, p), FAdd(x, zz, p), FAdd(zz, zz, p);
    RawSubCong(s, d, p);
    CongRefl(d, p);
    SubStands(s, s', d, d, p);
    CongRefl(s', p);
    SubStands(s', s', d, d, p);
    hide Cong, FSub, FAdd, FMul, RawSub, RawAdd;
    StandsEqual(FSub(s, d, p), FSub(s', d, p), s' - d, s' - d, p) by { CongRefl(s' - d, p); }
    RawFactors(s, s', RawSub(s, d, p), FSub(s', d, p), p);
  }

  /** double_jacobian_default after the test for zero. */
  method DoubleMinusThreeRegs(X1: array<Word>, Y1: array<Word>, Z1: array<Word>, t4: array<Word>, t5: array<Word>,
                              curve: Curve, ghost m: nat)
    requires FieldOk(curve, m) && Reg(X1, curve) && Reg(Y1, curve) && Reg(Z1, curve) && Reg(t4, curve) && Reg(t5, curve)
    requires X1 != Y1 && X1 != Z1 && Y1 != Z1 && t4 != t5
    requires t4 != X1 && t4 != Y1 && t4 != Z1 && t5 != X1 && t5 != Y1 && t5 != Z1
    requires R(Z1, curve) != 0
    modifies X1, Y1, Z1, t4, t5
    ensures R(X1, curve) < m && R(Y1, curve) < m && R(Z1, curve) < m
    ensures (R(X1, curve), R(Y1, curve), R(Z1, curve)) ==
            DoubleMinusThreeForm(old(R(X1, curve)), old(R(Y1, curve)), old(R(Z1, curve)), m)
    ensures X1[curve.numWords..] == old(X1[curve.numWords..])
  {
    hide R, FMul, FSub, FAdd, FHalf, Val, RawSub, RawAdd;
    ModSquareFast(t4, Y1, curve, m);
    ModMultFast(t5, X1, t4, curve, m);
    ModSquareFast(t4, t4, curve, m);
    ModMultFast(Y1, Y1, Z1, curve, m);
    ModSquareFast(Z1, Z1, curve, m);
    RawTangent(R(X1, curve), R(Z1, curve), m);
    ModAddP(X1, X1, Z1, curve, m);
    ModAddP(Z1, Z1, Z1, curve, m);
    ModSubP(Z1, X1, Z1, curve, m);
    ModMultFast(X1, X1, Z1, curve, m);
    ModAddP(Z1, X1, X1, curve, m);
    ModAddP(X1, X1, Z1, curve, m);
    HalveP(X1, curve, m);
    ModSquareFast(Z1, X1, curve, m);
    ModSubP(Z1, Z1, t5, curve, m);
    ModSubP(Z1, Z1, t5, curve, m);
    ModSubP(t5, t5, Z1, curve, m);
    ModMultFast(X1, X1, t5, curve, m);
    ModSubP(t4, X1, t4, curve, m);
    SetField(X1, Z1, curve);
    SetField(Z1, Y1, curve);
    SetField(Y1, t4, curve);
  }

  /** The doubling form a curve uses. */
  function DoubleForm(kind: CurveKind, x: int, y: int, z: int, p: nat): (int, int, int)
    requires p > 0
  {
    match kind
    case AZero => DoubleZeroForm(x, y, z, p)
    case AMinusThree => DoubleMinusThreeForm(x, y, z, p)
  }

  /** curve->double_jacobian: nothing happens for z = 0. Otherwise x and y need not be reduced. */
  method DoubleJacobian(X1: array<Word>, Y1: array<Word>, Z1: array<Word>, curve: Curve, ghost m: nat)
    requires FieldOk(curve, m) && Reg(X1, curve) && Reg(Y1, curve) && Reg(Z1, curve)
    requires X1 != Y1 && X1 != Z1 && Y1 != Z1
    requires R(Z1, curve) < m && (R(Z1, curve) == 0 ==> R(X1, curve) < m && R(Y1, curve) < m)
    modifies X1, Y1, Z1
    ensures R(X1, curve) < m && R(Y1, curve) < m && R(Z1, curve) < m
    ensures (R(X1, curve), R(Y1, curve), R(Z1, curve)) ==
            DoubleForm(curve.kind, old(R(X1, curve)), old(R(Y1, curve)), old(R(Z1, curve)), m)
    ensures X1[curve.numWords..] == old(X1[curve.numWords..])
  {
    hide R, Val;
    DoubleNothing(R(X1, curve), R(Y1, curve), m);
    hide DoubleZeroForm, DoubleMinusThreeForm;
    var t4 := new Word[MAX_WORDS];
    var t5 := new Word[MAX_WORDS];
    var isZero := IsZeroR(Z1, curve);
    if isZero {
      return;
    }
    match curve.kind
    case AZero => DoubleZeroRegs(X1, Y1, Z1, t4, t5, curve, m);
    case AMinusThree => DoubleMinusThreeRegs(X1, Y1, Z1, t4, t5, curve, m);
  }

  lemma DoubleNothing(x: int, y: int, p: nat)
    requires p > 0
    ensures DoubleZeroForm(x, y, 0, p) == (x, y, 0) && DoubleMinusThreeForm(x, y, 0, p) == (x, y, 0)
  {
  }
}
