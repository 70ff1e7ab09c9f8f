/** What scalar multiplication returns: for regularised scalars, multiples of the point, with the
    exact scalars on which it returns (0, 0) instead. */
module BaseMult {
  import opened Arith
  import opened Bits
  import opened Words
  import opened Vli
  import opened Bytes
  import opened Congruence
  import opened CurveGroup
  import opened CoZ
  import opened Doubling
  import opened Ladder
  import opened Regularize
  import opened PointOps
  import opened PointMult

  /** A curve whose addition is a group, with a point of odd prime order n, and the doubling
      function that fits its equation. */
  ghost predicate IsDomain(c: Equation, q: Point, n: nat, kind: CurveKind) {
    IsGroup(c) && IsPrime(c.p) && HasOrder(c, q, n) && n % 2 == 1 && n >= 5 &&
    match kind { case AZero => c.a == 0 case AMinusThree => c.a == -3 }
  }

  lemma PrimeIsOdd(p: int)
    requires IsPrime(p) && p > 3
    ensures p % 2 == 1
  {
    assert Divides(2, p) <==> p % 2 == 0;
  }

  lemma NonzeroReduced(x: int, p: nat)
    requires 0 < x < p
    ensures !Cong(x, 0, p)
  {
    ModSmall(x, p);
  }

  /** The doubling form of the curve doubles. */
  lemma DoubleFormCorrect(c: Equation, kind: CurveKind, x: int, y: int, z: int, q: Point)
    requires IsPrime(c.p) && c.p % 2 == 1 && Rep(x, y, z, q, c.p) && !Cong(q.y, 0, c.p)
    requires match kind { case AZero => c.a == 0 case AMinusThree => c.a == -3 }
    ensures var (x3, y3, z3) := DoubleForm(kind, x, y, z, c.p); Rep(x3, y3, z3, CurveGroup.Add(c, q, q), c.p)
  {
    hide IsPrime, Rep, Cong, CurveGroup.Add, DoubleZeroForm, DoubleMinusThreeForm;
    match kind
    case AZero => DoubleZeroCorrect(c, x, y, z, q);
    case AMinusThree => DoubleMinusThreeCorrect(c, x, y, z, q);
  }

  /** The first step: the ladder starts with q and 2q. */
  lemma LadderStarts(c: Equation, kind: CurveKind, q: Point, z: int, n: nat) returns (z': int)
    requires IsDomain(c, q, n, kind) && !Cong(z, 0, c.p)
    ensures q.Affine? && c.p > 0
    ensures var (sx, sy) := ScaleForm(q.x, q.y, z, c.p);
            var (dx, dy, dz) := DoubleForm(kind, sx, sy, z, c.p);
            Holds(Start(q.x, q.y, dx, dy, dz, c.p), z', 1, q, c)
  {
    hide IsGroup, HasOrder, IsPrime, ScaleForm, DoubleForm, Start, Holds, Cong, Rep, CurveGroup.Add;
    GroupPrime(c);
    PrimeIsOdd(c.p);
    OddOrderY(c, q, n);
    var (sx, sy) := ScaleForm(q.x, q.y, z, c.p);
    ScaleFormCorrect(q.x, q.y, z, c.p);
    DoubleFormCorrect(c, kind, sx, sy, z, q);
    var (dx, dy, dz) := DoubleForm(kind, sx, sy, z, c.p);
    StartCorrect(c, q, dx, dy, dz, n);
    z' := dz;
  }

  /** EccPoint_mult on a regularised scalar: k * q, except that the scalars 1, n - 2 and n - 1
      (1 only when n + 1 is shorter than 2^b) and a point with abscissa zero give (0, 0). */
  lemma MultValueExact(c: Equation, kind: CurveKind, q: Point, z: int, k: nat, b: nat, n: nat)
    requires IsDomain(c, q, n, kind) && !Cong(z, 0, c.p) && q.Affine?
    requires 0 < k < n && b > 1 && Pow2(b - 1) <= n < Pow2(b)
    ensures Mul(c, k, q).Affine?
    ensures MultValue(kind, q.x, q.y, z, Regular2(k, n, b), b + 1, c.p) ==
            if Exceptional(k, n, b) || q.x == 0 then (0, 0) else (Mul(c, k, q).x, Mul(c, k, q).y)
  {
    hide IsGroup, HasOrder, IsPrime, ScaleForm, DoubleForm, Start, Holds, Cong, Mul, Climb, Regular2, Exceptional,
         Pow2, RegularFrom, Prefix, OnCurve;
    GroupPrime(c);
    var s := Regular2(k, n, b);
    var z' := LadderStarts(c, kind, q, z, n);
    var (sx, sy) := ScaleForm(q.x, q.y, z, c.p);
    var (dx, dy, dz) := DoubleForm(kind, sx, sy, z, c.p);
    var start := Start(q.x, q.y, dx, dy, dz, c.p);
    FixedLength(k, n, b);
    TopPrefix(s, b);
    StepsOfRegular2(k, n, b);
    MulCong(c, k, s, q, n);
    ModSmall(k, n);
    MulZero(c, k, q, n);
    OrderReduced(c, q, n);
    if q.x == 0 {
      ZeroAbscissa(start, q.y, s, b + 1, c.p);
    } else if Exceptional(k, n, b) {
      ClimbCollapses(c, start, z', q, s, b + 1, n);
    } else {
      NonzeroReduced(q.x, c.p);
      ClimbCorrect(c, start, z', q, s, b + 1, n);
    }
  }

  lemma OrderReduced(c: Equation, q: Point, n: nat)
    requires IsPrime(c.p) && HasOrder(c, q, n)
    ensures q.Affine? && 0 <= q.x < c.p && 0 <= q.y < c.p
  {
  }

  /** Congruent factors give the same multiple. */
  lemma MulCong(c: Equation, k: nat, s: nat, q: Point, n: nat)
    requires IsGroup(c) && IsPrime(c.p) && HasOrder(c, q, n) && n > 0 && Cong(s, k, n)
    ensures Mul(c, s, q) == Mul(c, k, q)
  {
    hide IsGroup, HasOrder, IsPrime, Mul;
    CongSameMod(s, k, n);
    MulMod(c, s, q, n);
    MulMod(c, k, q, n);
  }

  //
  // The scalar as it is stored
  //

  lemma BitsOfRemainder(s: nat, w: nat, j: nat)
    requires j < w
    ensures 0 <= s % Pow2(w) && Bit(s % Pow2(w), j) == Bit(s, j)
  {
    DivModDef(s, Pow2(w));
    DivNonNeg(s, Pow2(w));
    BitLow(s % Pow2(w), s / Pow2(w), j, w);
  }

  /** The ladder reads only the bits below numBits - 1. */
  lemma {:induction false} RunLowBits(s: Pair, k: nat, w: nat, i: nat, p: nat)
    requires p > 0 && i < w
    ensures 0 <= k % Pow2(w) && Run(s, k % Pow2(w), i, p) == Run(s, k, i, p)
    decreases i
  {
    hide Step, Bit, Pow2;
    BitsOfRemainder(k, w, i);
    if i > 0 {
      RunLowBits(Step(s, Bit(k, i), p), k, w, i - 1, p);
    }
  }

  /** So a top bit that the stored scalar has lost makes no difference. */
  lemma LostCarry(kind: CurveKind, px: int, py: int, z: int, k: nat, numBits: nat, w: nat, p: nat)
    requires IsPrime(p) && 2 <= numBits <= w + 1
    ensures 0 <= k % Pow2(w)
    ensures MultValue(kind, px, py, z, k % Pow2(w), numBits, p) == MultValue(kind, px, py, z, k, numBits, p)
  {
    hide Run, Bit, Pow2, ScaleForm, DoubleForm, Start, Finish;
    var (sx, sy) := ScaleForm(px, py, z, p);
    var (dx, dy, dz) := DoubleForm(kind, sx, sy, z, p);
    RunLowBits(Start(px, py, dx, dy, dz, p), k, w, numBits - 2, p);
    BitsOfRemainder(k, w, 0);
  }

  //
  // regularize_k
  //

  /** The order's array, of bit length numNBits, in n words. */
  ghost predicate OrderOk(curve: Curve, n: nat)
    reads curve.n
  {
    curve.numNBits > 1 && 0 < OrderWords(curve) <= MAX_WORDS && OrderWords(curve) <= curve.n.Length &&
    V(curve.n, OrderWords(curve)) == n && IsBitLength(n, curve.numNBits) &&
    curve.numNBits <= WORD_BITS * OrderWords(curve)
  }

  /** BITS_TO_WORDS(curve->num_n_bits) */
  function OrderWords(curve: Curve): nat {
    WordsFor((curve.numNBits + 7) / 8)
  }

  /** k0 = k + n and k1 = k + 2n on the order's words. The returned flag selects the scalar for the
      ladder: k0 when it is set and k1 otherwise. */
  method RegularizeK(k: array<Word>, k0: array<Word>, k1: array<Word>, curve: Curve, ghost n: nat) returns (carry: bool)
    requires OrderOk(curve, n) && k0 != curve.n && k1 != curve.n && k0 != k1
    requires OrderWords(curve) <= k.Length && OrderWords(curve) <= k0.Length && OrderWords(curve) <= k1.Length
    requires V(k, OrderWords(curve)) < n
    modifies k0, k1
    ensures V(if carry then k0 else k1, OrderWords(curve)) ==
            Regular2(old(V(k, OrderWords(curve))), n, curve.numNBits) % Pow(OrderWords(curve))
  {
    hide Val, Pow, Pow2, WordsFor, Bit, Regular2;
    var words, bits := OrderWords(curve), curve.numNBits;
    ghost var x, m, w := V(k, words), n, Pow(words);
    var c := Vli.Add(k0, k, curve.n, words);
    ghost var x0 := V(k0, words);
    ValBound(k0[..words]);
    carry := c != 0;
    if !carry && bits < words * WORD_BITS {
      carry := TestLow(k0, bits, words);
    }
    var c1 := Vli.Add(k1, k0, curve.n, words);
    ValBound(k1[..words]);
    CarryIsTopBit(x, n, bits, words, x0, c, carry);
    SelectedScalar(x, n, bits, words, x0, c, V(k1, words), c1, carry);
  }

  /** The flag says whether k + n has reached 2^bits. */
  lemma CarryIsTopBit(x: nat, n: nat, bits: nat, words: nat, x0: nat, c: nat, carry: bool)
    requires x < n && IsBitLength(n, bits) && 0 < bits <= WORD_BITS * words && x0 < Pow(words) && c <= 1
    requires x0 + Pow(words) * c == x + n
    requires carry == (c != 0 || (bits < WORD_BITS * words && Bit(x0, bits)))
    ensures carry <==> x + n >= Pow2(bits)
  {
    PowIsPow2(words);
    Pow2Mono(bits, WORD_BITS * words);
    if bits < WORD_BITS * words { Pow2Mono(bits + 1, WORD_BITS * words); }
    hide Pow, WORD_BITS;
    TopBit(x0, bits);
    if c == 1 {
      assert Pow(words) * c == Pow(words);
    } else {
      assert Pow(words) * c == 0;
    }
  }

  lemma TopBit(x: nat, bits: nat)
    requires x < Pow2(bits + 1)
    ensures Bit(x, bits) <==> x >= Pow2(bits)
  {
    if x >= Pow2(bits) { ModUnique(x, Pow2(bits), 1, x - Pow2(bits)); } else { ModSmall(x, Pow2(bits)); }
  }

  lemma SelectedScalar(x: nat, n: nat, bits: nat, words: nat, x0: nat, c: nat, x1: nat, c1: nat, carry: bool)
    requires x0 < Pow(words) && x1 < Pow(words) && c <= 1 && c1 <= 1
    requires x0 + Pow(words) * c == x + n && x1 + Pow(words) * c1 == x0 + n
    requires carry <==> x + n >= Pow2(bits)
    requires c == 1 ==> carry
    ensures (if carry then x0 else x1) == Regular2(x, n, bits) % Pow(words)
  {
    hide Pow, Pow2;
    if carry {
      ModUnique(x + n, Pow(words), c, x0);
    } else {
      assert Pow(words) * c == 0;
      ModUnique(x + 2 * n, Pow(words), c1, x1);
    }
  }
}
