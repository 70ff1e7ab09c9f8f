/** Signatures and their verification over a group: what verification decides, and that it accepts
    what signing produces. */
module EcdsaTheorem {
  import opened Arith
  import opened Bits
  import opened Bytes
  import opened Congruence
  import opened Field
  import opened CurveGroup
  import opened Ladder
  import opened Regularize
  import opened PointOps
  import opened PointMult
  import opened BaseMult
  import opened KeyPair
  import opened Shamir
  import opened EcdsaSign
  import opened EcdsaVerify

  /** The curve's kind and length fit the group. */
  ghost predicate Fits(curve: Curve, c: Equation, g: Point, n: nat) {
    IsDomain(c, g, n, curve.kind) && curve.numNBits > 1 && Pow2(curve.numNBits - 1) <= n < Pow2(curve.numNBits)
  }

  lemma FitsFacts(curve: Curve, c: Equation, g: Point, n: nat)
    requires Fits(curve, c, g, n)
    ensures IsDomain(c, g, n, curve.kind) && IsGroup(c) && IsPrime(c.p) && c.p > 3 && HasOrder(c, g, n) &&
            IsPrime(n) && n >= 5
    ensures g.Affine? && 0 <= g.x < c.p && 0 <= g.y < c.p && curve.numNBits > 1
    ensures Pow2(curve.numNBits - 1) <= n < Pow2(curve.numNBits)
  {
    DomainFacts(c, g, n, curve.kind);
  }

  /** Multiples of the base point as the code computes them: exactly the scalars 1 (for n + 1 below
      2^b), n - 2 and n - 1, and a base point with abscissa zero, give (0, 0). */
  lemma TimesGExact(curve: Curve, c: Equation, g: Point, k: nat, n: nat)
    requires Fits(curve, c, g, n) && 0 < k < n
    ensures IsPrime(c.p) && g.Affine? && g.x >= 0 && g.y >= 0 && Mul(c, k, g).Affine?
    ensures TimesG(curve, k, c.p, n, g.x, g.y) ==
            if Exceptional(k, n, curve.numNBits) || g.x == 0 then (0, 0) else (Mul(c, k, g).x, Mul(c, k, g).y)
    ensures 0 <= Mul(c, k, g).x < c.p && 0 <= Mul(c, k, g).y < c.p
  {
    hide Fits, IsDomain, IsPrime, IsGroup, HasOrder, OnCurve, MultValue, Mul, Exceptional, Regular2, Cong, Pow2;
    FitsFacts(curve, c, g, n);
    ModSmall(k, n);
    AffineMultiple(c, k, g, n);
    NonzeroReduced(1, c.p);
    MultValueExact(c, curve.kind, g, 1, k, curve.numNBits, n);
  }

  /** A key pair is produced exactly for the other private keys in 1 .. n - 1. */
  lemma KeyPairExact(curve: Curve, c: Equation, g: Point, d: nat, n: nat)
    requires Fits(curve, c, g, n) && 0 < d < n
    ensures IsPrime(c.p) && g.Affine? && g.x >= 0 && g.y >= 0
    ensures TimesG(curve, d, c.p, n, g.x, g.y) != (0, 0) <==> !Exceptional(d, n, curve.numNBits) && g.x != 0
  {
    FitsFacts(curve, c, g, n);
    TimesGExact(curve, c, g, d, n);
    hide IsPrime, TimesG, Mul, Exceptional, IsGroup, HasOrder;
    ModSmall(d, n);
    OrderOfMultiple(c, d, g, n);
    OddOrderY(c, Mul(c, d, g), n) by { DomainOdd(c, g, n, curve.kind); }
    ZeroCong(c.p);
  }

  lemma DomainOdd(c: Equation, g: Point, n: nat, kind: CurveKind)
    requires IsDomain(c, g, n, kind)
    ensures n % 2 == 1
  {
  }

  //
  // The scalars
  //

  /** s * k = e + x * d modulo n, with s reduced. */
  lemma SignatureEquation(e: nat, x: nat, d: nat, k: nat, n: nat)
    requires IsPrime(n) && n > 1 && 0 < k < n
    ensures SignatureS(e, x, d, k, n) < n
    ensures Cong(SignatureS(e, x, d, k, n) * k, e + x * d, n)
  {
    var i, t := Inv(k, n), e + x * d;
    InverseHolds(k, n);
    CongMod(t * i, n);
    var s := SignatureS(e, x, d, k, n);
    hide IsPrime, Inv, Cong, SignatureS;
    CongRefl(k, n);
    CongRefl(t, n);
    CongMul(s, t * i, k, k, n);
    CongMul(t, t, k * i, 1, n);
    assert (t * i) * k == t * (k * i) by { MulAssoc(t, i, k); }
    CongTrans(s * k, (t * i) * k, t * 1, n);
  }

  /** The hash number stands for the leftmost bits of the hash. */
  lemma HashNumberCong(hash: seq<Byte>, n: nat, nBits: nat)
    requires n > 0
    ensures Cong(HashNumber(hash, n, nBits), BitsToInt.LeftBits(hash, nBits), n)
    ensures nBits > 0 && 8 * |hash| > nBits && nBits % 8 != 0 && n >= Pow2(nBits - 1) ==> HashNumber(hash, n, nBits) < n
  {
    var e := BitsToInt.LeftBits(hash, nBits);
    BitsToInt.LeftBitsBound(hash, nBits);
    if nBits > 0 { assert Pow2(nBits) == 2 * Pow2(nBits - 1); }
    hide BitsToInt.LeftBits, Cong, Pow2;
    CongRefl(e, n);
    CongIntro(e - n, e, n, -1);
  }

  /** u1 + u2 * d recovers the nonce. */
  lemma NonceRecovered(e: nat, x: nat, d: nat, k: nat, s: nat, n: nat)
    requires IsPrime(n) && n > 1 && 0 < s < n && Cong(s * k, e + x * d, n)
    ensures var u1, u2 := FMul(e, Inv(s, n), n), FMul(x, Inv(s, n), n); Cong(u1 + u2 * d, k, n)
  {
    var i := Inv(s, n);
    InverseHolds(s, n);
    var u1, u2 := FMul(e, i, n), FMul(x, i, n);
    CongRefl(e, n);
    CongRefl(x, n);
    CongRefl(i, n);
    MulStands(e, e, i, i, n);
    MulStands(x, x, i, i, n);
    hide IsPrime, Inv, Cong, FMul;
    CongRefl(d, n);
    CongRefl(k, n);
    CongMul(u2, x * i, d, d, n);
    CongAdd(u1, e * i, u2 * d, (x * i) * d, n);
    assert e * i + (x * i) * d == (e + x * d) * i by { SpreadInverse(e, x, d, i); }
    CongSym(s * k, e + x * d, n);
    CongMul(e + x * d, s * k, i, i, n);
    CongTrans(u1 + u2 * d, (e + x * d) * i, (s * k) * i, n);
    CongMul(k, k, s * i, 1, n);
    assert (s * k) * i == k * (s * i) by { MulSwap(k, s, i); }
    CongTrans(u1 + u2 * d, (s * k) * i, k * 1, n);
  }

  lemma SpreadInverse(e: int, x: int, d: int, i: int)
    ensures e * i + (x * i) * d == (e + x * d) * i
  {
    MulDist(i, e, x * d);
    MulSwap(d, x, i);
    MulSwap(x * i, d, 1);
  }

  /** Signing with a nonce succeeds exactly for the nonces in 1 .. n - 1 that are not exceptional, with a base
      point and a nonce's point whose abscissas are not zero, if the generator did not fail and s fits the
      bytes of a coordinate. */
  lemma SignsExact(curve: Curve, c: Equation, g: Point, n: nat, privateKey: seq<Byte>, hash: seq<Byte>, k: nat,
                   rng: Random)
    requires Fits(curve, c, g, n) && IsPrime(c.p) && IsPrime(n) && g.Affine? && g.x >= 0 && g.y >= 0
    ensures 0 < k < n ==> Mul(c, k, g).Affine? && Mul(c, k, g).x >= 0
    ensures Signs(privateKey, hash, k, rng, curve, c.p, n, g.x, g.y) <==>
            0 < k < n && !Exceptional(k, n, curve.numNBits) && g.x != 0 && Mul(c, k, g).x != 0 && !rng.Failed? &&
            SignatureS(HashNumber(hash, n, curve.numNBits), Mul(c, k, g).x, BE(privateKey), k, n) <
            Pow2(8 * curve.numBytes)
  {
    FitsFacts(curve, c, g, n);
    if 0 < k < n {
      TimesGExact(curve, c, g, k, n);
    }
    hide Fits, IsPrime, TimesG, Mul, Exceptional, BE, HashNumber, SignatureS, Pow2;
  }

  /** When the order is not longer than the bytes of a coordinate, s always fits. */
  lemma SignatureFits(e: nat, x: nat, d: nat, k: nat, n: nat, numBytes: nat)
    requires IsPrime(n) && n > 1 && 0 < k < n && n <= Pow2(8 * numBytes)
    ensures SignatureS(e, x, d, k, n) < Pow2(8 * numBytes)
  {
    SignatureEquation(e, x, d, k, n);
    hide IsPrime, SignatureS, Pow2;
  }

  /** The stored pair: r is the abscissa of k * G, and s * k = e + r * d modulo n, with s below n. */
  lemma SignatureIs(curve: Curve, c: Equation, g: Point, n: nat, privateKey: seq<Byte>, hash: seq<Byte>, k: nat,
                    rng: Random, signature: seq<Byte>)
    requires Fits(curve, c, g, n) && IsPrime(c.p) && IsPrime(n) && g.Affine? && g.x >= 0 && g.y >= 0
    requires Signs(privateKey, hash, k, rng, curve, c.p, n, g.x, g.y)
    requires |signature| == 2 * curve.numBytes && n > 0
    ensures 0 < k < n && Mul(c, k, g).Affine?
    ensures IsSignature(signature, privateKey, hash, k, curve, c.p, n, g.x, g.y) ==>
              var r, s := BE(signature[..curve.numBytes]), BE(signature[curve.numBytes..]);
              r == Mul(c, k, g).x && s < n && Cong(s * k, HashNumber(hash, n, curve.numNBits) + r * BE(privateKey), n)
  {
    hide Fits, IsPrime, TimesG, Mul, Exceptional, BE, HashNumber, SignatureS, Pow2, Signs, Cong, Place;
    SignsExact(curve, c, g, n, privateKey, hash, k, rng);
    FitsFacts(curve, c, g, n);
    hide IsDomain, IsGroup, HasOrder;
    TimesGExact(curve, c, g, k, n);
    SignatureEquation(HashNumber(hash, n, curve.numNBits), Mul(c, k, g).x, BE(privateKey), k, n);
  }

  /** The hash number exactly: the leftmost bits, less n once if bits were shifted out and it is not below n. */
  lemma HashNumberExact(hash: seq<Byte>, n: nat, nBits: nat)
    ensures var e := BitsToInt.LeftBits(hash, nBits);
            (8 * |hash| <= nBits || nBits % 8 == 0 ==> HashNumber(hash, n, nBits) == e) &&
            (8 * |hash| > nBits && nBits % 8 != 0 ==> HashNumber(hash, n, nBits) == if e < n then e else e - n)
    ensures 8 * |hash| <= nBits ==> BitsToInt.LeftBits(hash, nBits) == BE(hash)
    ensures 8 * |hash| > nBits ==>
              var k := Pow2(8 * |hash| - nBits);
              k * BitsToInt.LeftBits(hash, nBits) <= BE(hash) < k * BitsToInt.LeftBits(hash, nBits) + k
  {
    if 8 * |hash| > nBits { DivModDef(BE(hash), Pow2(8 * |hash| - nBits)); }
    hide BE, Pow2;
  }

  //
  // Verification
  //

  /** The scalars of verification. */
  ghost function U1(e: nat, s: nat, n: nat): nat
    requires IsPrime(n)
  {
    FMul(e, Inv(s, n), n)
  }

  ghost function U2(r: nat, s: nat, n: nat): nat
    requires IsPrime(n)
  {
    FMul(r, Inv(s, n), n)
  }

  /** No addition of the verification loop meets points with equal abscissas. */
  ghost predicate CleanRun(e: nat, r: nat, s: nat, d: nat, n: nat)
    requires IsPrime(n)
  {
    var u1, u2 := U1(e, s, n), U2(r, s, n);
    Longer(u1, u2) > 0 && Clean(u1, u2, d, n, Longer(u1, u2) - 1)
  }

  /** The scalars are e / s and r / s modulo n. */
  lemma ScalarsAre(e: nat, r: nat, s: nat, n: nat)
    requires IsPrime(n) && n > 1 && 0 < s < n
    ensures U1(e, s, n) < n && Cong(U1(e, s, n) * s, e, n)
    ensures U2(r, s, n) < n && Cong(U2(r, s, n) * s, r, n)
  {
    DividedBack(e, s, n);
    DividedBack(r, s, n);
  }

  lemma DividedBack(e: nat, s: nat, n: nat)
    requires IsPrime(n) && n > 1 && 0 < s < n
    ensures FMul(e, Inv(s, n), n) < n && Cong(FMul(e, Inv(s, n), n) * s, e, n)
  {
    var i := Inv(s, n);
    InverseHolds(s, n);
    CongRefl(e, n);
    CongRefl(i, n);
    MulStands(e, e, i, i, n);
    var u := FMul(e, i, n);
    hide IsPrime, Inv, FMul, Cong;
    CongRefl(s, n);
    CongMul(u, e * i, s, s, n);
    CongMul(e, e, s * i, 1, n);
    assert (e * i) * s == e * (s * i) by { MulAssoc(e, i, s); }
    CongTrans(u * s, (e * i) * s, e * 1, n);
  }

  /** The bit length of the longer of two numbers. */
  lemma LongerIs(x: nat, y: nat, length: nat)
    requires length > 0 && x < Pow2(length) && y < Pow2(length) && (Pow2(length - 1) <= x || Pow2(length - 1) <= y)
    ensures Longer(x, y) == length
  {
    LengthBelow(x, length);
    LengthBelow(y, length);
  }

  lemma LengthBelow(x: nat, length: nat)
    requires length > 0 && x < Pow2(length)
    ensures BitLength(x) <= length && (Pow2(length - 1) <= x ==> BitLength(x) == length)
  {
    var r := BitLength(x);
    if r > 0 {
      BitLengthBound(x, r);
      var q := x / Pow2(r - 1);
      DivModDef(x, Pow2(r - 1));
      if r > length {
        Pow2Mono(length, r - 1);
        ModSmall(x, Pow2(r - 1));
      }
    }
    if Pow2(length - 1) <= x { BitLengthIs(x, length); }
  }

  /** The addition at a bit is not degenerate exactly if it does not happen, or the multiple reached by doubling
      and the one that is added are neither equal nor opposite modulo n. */
  lemma CleanStepIs(u1: nat, u2: nat, d: nat, n: nat, i: nat)
    requires n > 0
    ensures CleanStep(u1, u2, d, n, i) <==>
            (Bit(u1, i) || Bit(u2, i) ==>
               var reached := 2 * (u1 / Pow2(i + 1) + (u2 / Pow2(i + 1)) * d);
               var added := (if Bit(u1, i) then 1 else 0) + (if Bit(u2, i) then d else 0);
               (reached - added) % n != 0 && (reached + added) % n != 0)
  {
    hide Bit, Pow2;
  }

  /** The run is clean exactly if no addition below the top bit of the longer scalar is degenerate. */
  lemma CleanRunIs(e: nat, r: nat, s: nat, d: nat, n: nat, length: nat)
    requires IsPrime(n) && n > 1
    requires var u1, u2 := U1(e, s, n), U2(r, s, n);
             length > 0 && u1 < Pow2(length) && u2 < Pow2(length) && (Pow2(length - 1) <= u1 || Pow2(length - 1) <= u2)
    ensures CleanRun(e, r, s, d, n) <==>
            forall i :: 0 <= i < length - 1 ==> CleanStep(U1(e, s, n), U2(r, s, n), d, n, i)
  {
    hide IsPrime, FMul, Inv, Pow2, Longer, CleanStep;
    LongerIs(U1(e, s, n), U2(r, s, n), length);
  }

  /** One conditional subtraction reduces the abscissa when p < 2n. */
  lemma ReducedOnce(x: int, p: nat, n: nat)
    requires 0 <= x < p < 2 * n
    ensures (if x >= n then x - n else x) == x % n
  {
    if x >= n { ModUnique(x, n, 1, x - n); } else { ModSmall(x, n); }
  }

  /** The multiple of the base point that verification computes. */
  ghost function Recovered(e: nat, r: nat, s: nat, d: nat, n: nat): nat
    requires IsPrime(n)
  {
    MulNonNeg(U2(r, s, n), d);
    U1(e, s, n) + U2(r, s, n) * d
  }

  /** The equation of the standard for (r, s): the abscissa of u1 * G + u2 * Q is r modulo n. */
  ghost predicate StandardAccepts(c: Equation, g: Point, d: nat, e: nat, r: nat, s: nat, n: nat)
    requires IsPrime(c.p) && IsPrime(n) && n > 0
  {
    0 < r < n && 0 < s < n &&
    var q := Mul(c, Recovered(e, r, s, d, n), g);
    q.Affine? && q.x % n == r
  }

  /** The key is not infinity, and if it is G or -G then the scalars have no common one bit, so that the
      table's entry for two ones, which is no point for these keys, is not needed. */
  ghost predicate Served(e: nat, r: nat, s: nat, d: nat, n: nat)
    requires IsPrime(n)
  {
    var u1, u2 := U1(e, s, n), U2(r, s, n);
    d % n != 0 && Usable(u1, u2, d, n, Longer(u1, u2))
  }

  lemma GoodKeyServed(e: nat, r: nat, s: nat, d: nat, n: nat)
    requires IsPrime(n) && n > 0 && GoodKey(d, n)
    ensures Served(e, r, s, d, n)
  {
    GoodKeyUsable(U1(e, s, n), U2(r, s, n), d, n, Longer(U1(e, s, n), U2(r, s, n)));
    hide IsPrime, FMul, Inv, Longer, Usable;
  }

  /** Verification decides exactly the equation of the standard, together with the absence of
      degenerate additions. */
  lemma AcceptsExact(curve: Curve, c: Equation, g: Point, d: nat, e: nat, r: nat, s: nat, n: nat)
    requires Fits(curve, c, g, n) && c.p < 2 * n && IsPrime(n) && Served(e, r, s, d, n)
    ensures IsPrime(c.p) && IsPrime(n) && g.Affine? && g.x >= 0 && g.y >= 0 && Mul(c, d, g).Affine?
    ensures var q := Mul(c, d, g);
            Accepts(curve, (q.x, q.y), e, r, s, c.p, n, g.x, g.y) <==>
            StandardAccepts(c, g, d, e, r, s, n) && CleanRun(e, r, s, d, n)
  {
    FitsFacts(curve, c, g, n);
    AffineMultiple(c, d, g, n);
    if 0 < r < n && 0 < s < n {
      hide IsPrime, Mul, IsGroup, HasOrder, IsDomain, Served, Accepts, StandardAccepts, CleanRun, Recovered;
      VerdictInRange(curve, c, g, d, e, r, s, n);
    } else {
      hide *;
      OutOfRange(curve, c, g, d, e, r, s, n);
    }
  }

  /** Acceptance depends on the key only modulo p. */
  lemma AcceptsModulo(curve: Curve, qx: nat, qy: nat, e: nat, r: nat, s: nat, p: nat, n: nat, gx: nat, gy: nat)
    requires IsPrime(p) && IsPrime(n) && p > 0 && n > 0
    requires qx != gx + p || Disjoint(U1(e, s, n), U2(r, s, n), Longer(U1(e, s, n), U2(r, s, n)))
    ensures Accepts(curve, (qx, qy), e, r, s, p, n, gx, gy) <==> Accepts(curve, (qx % p, qy % p), e, r, s, p, n, gx, gy)
  {
    CongMod(qx, p);
    CongMod(qy, p);
    CongSym(qx % p, qx, p);
    CongSym(qy % p, qy, p);
    var u1, u2 := U1(e, s, n), U2(r, s, n);
    hide IsPrime, JointX, FMul, Inv, Longer, Cong, Disjoint;
    if Longer(u1, u2) > 0 {
      JointXSame(curve.kind, u1, u2, Longer(u1, u2), (gx, gy), (qx, qy), (qx % p, qy % p), p);
    }
  }

  /** Public keys as they arrive: whatever pair of numbers stands for the point d * G modulo p, the
      contract of verification covers it, and verification decides the equation of the standard. */
  lemma AcceptsKey(curve: Curve, c: Equation, g: Point, d: nat, qx: nat, qy: nat, e: nat, r: nat, s: nat, n: nat)
    requires Fits(curve, c, g, n) && c.p < 2 * n && IsPrime(n) && Served(e, r, s, d, n) && c.p > 0
    requires Mul(c, d, g) == Affine(qx % c.p, qy % c.p)
    ensures IsPrime(c.p) && IsPrime(n) && g.Affine? && g.x >= 0 && g.y >= 0
    ensures GoodKey(d, n) || qx < 2 * c.p ==> Separate(g.x, qx, c.p)
    ensures Accepts(curve, (qx, qy), e, r, s, c.p, n, g.x, g.y) <==>
            StandardAccepts(c, g, d, e, r, s, n) && CleanRun(e, r, s, d, n)
  {
    hide IsPrime, Mul, IsGroup, HasOrder, IsDomain, GoodKey, Served, Accepts, StandardAccepts, CleanRun, Disjoint,
         Longer, U1, U2, Fits, Separate;
    FitsFacts(curve, c, g, n);
    AcceptsExact(curve, c, g, d, e, r, s, n);
    KeyWraps(c, g, d, qx, qy, e, r, s, n);
    AcceptsModulo(curve, qx, qy, e, r, s, c.p, n, g.x, g.y);
  }

  /** A key for which the sum with the base point is needed differs from the base point modulo p. */
  lemma KeyWraps(c: Equation, g: Point, d: nat, qx: nat, qy: nat, e: nat, r: nat, s: nat, n: nat)
    requires IsGroup(c) && IsPrime(c.p) && c.p > 0 && HasOrder(c, g, n) && n > 1 && IsPrime(n) && Served(e, r, s, d, n)
    requires Mul(c, d, g) == Affine(qx % c.p, qy % c.p) && g.Affine? && 0 <= g.x < c.p
    ensures qx != g.x + c.p || Disjoint(U1(e, s, n), U2(r, s, n), Longer(U1(e, s, n), U2(r, s, n)))
    ensures GoodKey(d, n) || qx < 2 * c.p ==> Separate(g.x, qx, c.p)
  {
    hide IsPrime, Mul, IsGroup, HasOrder, Longer, U1, U2, Separate, OnCurve;
    if GoodKey(d, n) {
      KeyDiffers(c, g, d, n);
      KeySeparate(g.x, qx, c.p);
    } else {
      NoSumNeeded(U1(e, s, n), U2(r, s, n), d, n, Longer(U1(e, s, n), U2(r, s, n)));
      if qx < 2 * c.p { SeparateBelow(g.x, qx, c.p); }
    }
  }

  lemma NoSumNeeded(u1: nat, u2: nat, d: nat, n: nat, i: nat)
    requires n > 0 && Usable(u1, u2, d, n, i) && !GoodKey(d, n)
    ensures Disjoint(u1, u2, i)
  {
    hide Bit, GoodKey;
    forall j | 0 <= j < i
      ensures !(Bit(u1, j) && Bit(u2, j))
    {
      assert IsEntry(Bit(u1, j), Bit(u2, j), d, n);
    }
  }

  lemma KeySeparate(gx: nat, qx: nat, p: nat)
    requires gx < p && qx % p != gx
    ensures Separate(gx, qx, p) && qx != gx + p
  {
    CongSameMod(qx, gx, p);
    ModSmall(gx, p);
    if qx == gx + p { ModUnique(qx, p, 1, gx); }
  }

  /** For the keys G and -G, which verification also takes: when the scalars share their top bit, the
      signature is rejected. */
  lemma CommonTopRejected(curve: Curve, gx: nat, gy: nat, qy: int, e: nat, r: nat, s: nat, p: nat, n: nat)
    requires IsPrime(p) && IsPrime(n) && gx < p && n > 0
    requires var u1, u2 := U1(e, s, n), U2(r, s, n);
             Longer(u1, u2) > 0 && Bit(u1, Longer(u1, u2) - 1) && Bit(u2, Longer(u1, u2) - 1)
    ensures !Accepts(curve, (gx, qy), e, r, s, p, n, gx, gy)
  {
    var u1, u2 := U1(e, s, n), U2(r, s, n);
    CommonTopVanishes(curve.kind, u1, u2, Longer(u1, u2), (gx, gy), (gx, qy), p);
    hide IsPrime, JointX, FMul, Inv, Longer, Bit;
  }

  lemma OutOfRange(curve: Curve, c: Equation, g: Point, d: nat, e: nat, r: nat, s: nat, n: nat)
    requires IsPrime(c.p) && IsPrime(n) && n > 0 && !(0 < r < n && 0 < s < n) && g.Affine? && g.x >= 0 && g.y >= 0
    requires Mul(c, d, g).Affine?
    ensures !StandardAccepts(c, g, d, e, r, s, n)
    ensures !Accepts(curve, (Mul(c, d, g).x, Mul(c, d, g).y), e, r, s, c.p, n, g.x, g.y)
  {
  }

  /** For a pair in range the code compares the reduced abscissa of the recovered multiple. */
  lemma VerdictInRange(curve: Curve, c: Equation, g: Point, d: nat, e: nat, r: nat, s: nat, n: nat)
    requires Fits(curve, c, g, n) && c.p < 2 * n && IsPrime(n) && Served(e, r, s, d, n) && 0 < r < n && 0 < s < n
    ensures IsPrime(c.p) && IsPrime(n) && g.Affine? && g.x >= 0 && g.y >= 0 && Mul(c, d, g).Affine?
    ensures var q := Mul(c, d, g);
            Accepts(curve, (q.x, q.y), e, r, s, c.p, n, g.x, g.y) <==>
            StandardAccepts(c, g, d, e, r, s, n) && CleanRun(e, r, s, d, n)
  {
    hide Fits, IsPrime, Mul, IsGroup, HasOrder, IsDomain, Usable, Clean, FMul, Inv, Longer, OnCurve, Pow2, Bit,
         JointX, Recovered;
    FitsFacts(curve, c, g, n);
    AffineMultiple(c, d, g, n);
    var u1, u2, a := U1(e, s, n), U2(r, s, n), Recovered(e, r, s, d, n);
    SecondScalar(u1, r, s, n);
    RecoveredAbscissa(curve, c, g, d, e, r, s, n);
    AbscissaMatches(Mul(c, a, g), c.p, n);
    ReducedZero(n);
  }

  lemma ReducedZero(n: nat)
    requires n > 0
    ensures (if 0 >= n then 0 - n else 0) == 0
  {
  }

  /** The compared abscissa is that of the recovered multiple, or zero. */
  lemma RecoveredAbscissa(curve: Curve, c: Equation, g: Point, d: nat, e: nat, r: nat, s: nat, n: nat)
    requires Fits(curve, c, g, n) && IsPrime(n) && Served(e, r, s, d, n) && 0 < r < n && 0 < s < n
    ensures IsPrime(c.p) && IsPrime(n) && g.Affine? && g.x >= 0 && g.y >= 0 && Mul(c, d, g).Affine?
    ensures var u1, u2 := U1(e, s, n), U2(r, s, n);
            var q, t := Mul(c, d, g), Mul(c, Recovered(e, r, s, d, n), g);
            Longer(u1, u2) > 0 &&
            var x := JointX(curve.kind, u1, u2, Longer(u1, u2), (g.x, g.y), (q.x, q.y), c.p);
            if CleanRun(e, r, s, d, n) then t.Affine? && x == t.x && 0 <= x < c.p else x == 0
  {
    hide Fits, IsPrime, Mul, IsGroup, HasOrder, IsDomain, Usable, Clean, FMul, Inv, Longer, OnCurve, Pow2, Bit, JointX;
    FitsFacts(curve, c, g, n);
    var u1, u2 := U1(e, s, n), U2(r, s, n);
    SecondScalar(u1, r, s, n);
    TopBitSet(u1, u2);
    JointXExact(c, curve.kind, g, d, u1, u2, Longer(u1, u2), n);
    RecoveredDef(e, r, s, d, n);
  }

  lemma RecoveredDef(e: nat, r: nat, s: nat, d: nat, n: nat)
    requires IsPrime(n)
    ensures U2(r, s, n) * d >= 0 && Recovered(e, r, s, d, n) == U1(e, s, n) + U2(r, s, n) * d
  {
  }

  lemma AbscissaMatches(q: Point, p: nat, n: nat)
    requires p < 2 * n && n > 0
    ensures q.Affine? && 0 <= q.x < p ==> (if q.x >= n then q.x - n else q.x) == q.x % n
  {
    if q.Affine? && 0 <= q.x < p { ReducedOnce(q.x, p, n); }
  }

  //
  // A valid signature that is rejected
  //

  /** Small scalars from s = r: u1 = 2 and u2 = 1. */
  lemma SmallScalars(r: nat, n: nat)
    requires IsPrime(n) && n >= 5 && 0 < r < n
    ensures U1((2 * r) % n, r, n) == 2 && U2(r, r, n) == 1
  {
    var i, e := Inv(r, n), (2 * r) % n;
    InverseHolds(r, n);
    CongMod(2 * r, n);
    CongMod(e * i, n);
    CongMod(r * i, n);
    hide IsPrime, Inv, Cong;
    CongRefl(i, n);
    CongRefl(2, n);
    CongMul(e, 2 * r, i, i, n);
    CongMul(2, 2, r * i, 1, n);
    assert (2 * r) * i == 2 * (r * i) by { MulAssoc(2, r, i); }
    CongTrans(e * i, (2 * r) * i, 2 * 1, n);
    CongTrans((e * i) % n, e * i, 2, n);
    CongReduced((e * i) % n, 2, n);
    CongTrans((r * i) % n, r * i, 1, n);
    CongReduced((r * i) % n, 1, n);
  }

  /** For u1 = 2, u2 = 1 and the key 2 * G, the second step adds 2 * G to 2 * G. */
  lemma StepMeetsItself(n: nat)
    requires n >= 5
    ensures Longer(2, 1) == 2 && !Clean(2, 1, 2, n, 1)
  {
    assert BitLength(1) == 1 && BitLength(2) == 2 by { assert BitLength(0) == 0; }
    assert Pow2(0) == 1 && Pow2(1) == 2;
    assert Bit(1, 0) && !Bit(2, 0);
    assert Prefix(2, 1) == 1 && Prefix(1, 1) == 0;
    ModSmall(0, n);
    assert !CleanStep(2, 1, 2, n, 0);
  }

  /** A signature that satisfies the equation of the standard and is rejected, on every curve on which the
      abscissa of 4 * G is not a multiple of n: the key is 2 * G, r = s is that abscissa modulo n, and the
      hash number is 2 * r modulo n. */
  lemma ValidButRejected(curve: Curve, c: Equation, g: Point, n: nat)
    requires Fits(curve, c, g, n) && c.p < 2 * n
    ensures IsPrime(c.p) && IsPrime(n) && g.Affine? && g.x >= 0 && g.y >= 0 && Mul(c, 2, g).Affine? &&
            Mul(c, 4, g).Affine?
    ensures var r, q := Mul(c, 4, g).x % n, Mul(c, 2, g);
            r > 0 ==> StandardAccepts(c, g, 2, (2 * r) % n, r, r, n) &&
                      !Accepts(curve, (q.x, q.y), (2 * r) % n, r, r, c.p, n, g.x, g.y)
  {
    FitsFacts(curve, c, g, n);
    ModSmall(4, n);
    ModSmall(2, n);
    AffineMultiple(c, 4, g, n);
    AffineMultiple(c, 2, g, n);
    SmallGoodKey(n);
    DivModDef(Mul(c, 4, g).x, n);
    var r := Mul(c, 4, g).x % n;
    if r > 0 {
      SmallScalars(r, n);
      StepMeetsItself(n);
      DivModDef(2 * r, n);
      hide Fits, IsDomain, IsGroup, HasOrder, IsPrime, Mul, OnCurve, Accepts, U1, U2, GoodKey, Served, Longer, Clean;
      GoodKeyServed((2 * r) % n, r, r, 2, n);
      AcceptsExact(curve, c, g, 2, (2 * r) % n, r, r, n);
    }
  }

  lemma SmallGoodKey(n: nat)
    requires n >= 5
    ensures GoodKey(2, n)
  {
    ModSmall(1, n);
    ModSmall(2, n);
    ModSmall(3, n);
  }

  //
  // Sign, then verify
  //

  /** The pair that a nonce gives satisfies the equation of the standard exactly when the abscissa
      is below n and s is not zero. */
  lemma SignatureSatisfies(c: Equation, g: Point, kind: CurveKind, d: nat, e: nat, k: nat, n: nat)
    requires IsDomain(c, g, n, kind) && 0 < k < n
    ensures IsPrime(c.p) && IsPrime(n) && Mul(c, k, g).Affine? && Mul(c, k, g).x >= 0
    ensures var x := Mul(c, k, g).x; var s := SignatureS(e, x, d, k, n);
            StandardAccepts(c, g, d, e, x, s, n) <==> 0 < x < n && s > 0
  {
    hide IsDomain, IsPrime, IsGroup, HasOrder, Mul, OnCurve, SignatureS, Recovered, Cong;
    DomainFacts(c, g, n, kind);
    ModSmall(k, n);
    AffineMultiple(c, k, g, n);
    var x := Mul(c, k, g).x;
    var s := SignatureS(e, x, d, k, n);
    SignatureEquation(e, x, d, k, n);
    if 0 < x < n && s > 0 {
      NonceRecovered(e, x, d, k, s, n);
      RecoveredCong(e, x, s, d, k, n);
      MulCong(c, k, Recovered(e, x, s, d, n), g, n);
      ModSmall(x, n);
    }
  }

  lemma RecoveredCong(e: nat, r: nat, s: nat, d: nat, k: nat, n: nat)
    requires IsPrime(n) && n > 0 && Cong(FMul(e, Inv(s, n), n) + FMul(r, Inv(s, n), n) * d, k, n)
    ensures Cong(Recovered(e, r, s, d, n), k, n)
  {
  }

  /** Every signature that signing produces is accepted, for the key pair of the private key, if
      and only if the abscissa of the nonce's point is below n, s is not zero, and the joint loop
      meets no degenerate addition. */
  lemma SignThenVerify(curve: Curve, c: Equation, g: Point, n: nat, privateKey: seq<Byte>, hash: seq<Byte>, k: nat,
                       rng: Random, signature: seq<Byte>)
    requires Fits(curve, c, g, n) && IsPrime(c.p) && IsPrime(n) && c.p < 2 * n && g.Affine? && g.x >= 0 && g.y >= 0
    requires 1 < BE(privateKey) < n && TimesG(curve, BE(privateKey), c.p, n, g.x, g.y) != (0, 0)
    requires Signs(privateKey, hash, k, rng, curve, c.p, n, g.x, g.y)
    requires |signature| == 2 * curve.numBytes && IsSignature(signature, privateKey, hash, k, curve, c.p, n, g.x, g.y)
    ensures var e, q := HashNumber(hash, n, curve.numNBits), TimesG(curve, BE(privateKey), c.p, n, g.x, g.y);
            var r, s := BE(signature[..curve.numBytes]), BE(signature[curve.numBytes..]);
            q.0 >= 0 && Separate(g.x, q.0, c.p) &&
            (Accepts(curve, q, e, r, s, c.p, n, g.x, g.y) <==> r < n && s > 0 && CleanRun(e, r, s, BE(privateKey), n))
  {
    hide Fits, IsDomain, IsPrime, IsGroup, HasOrder, Mul, OnCurve, SignatureS, Exceptional, TimesG, BE, HashNumber,
         Place, Accepts, StandardAccepts, CleanRun, GoodKey, Served, Separate;
    FitsFacts(curve, c, g, n);
    var d := BE(privateKey);
    TimesGExact(curve, c, g, d, n);
    TimesGExact(curve, c, g, k, n);
    KeyIsGood(d, n, curve.numNBits);
    KeyDiffers(c, g, d, n);
    var e, x := HashNumber(hash, n, curve.numNBits), Mul(c, k, g).x;
    SignatureSatisfies(c, g, curve.kind, d, e, k, n);
    AlreadyReduced(Mul(c, d, g), c.p);
    GoodKeyServed(e, x, SignatureS(e, x, d, k, n), d, n);
    AcceptsKey(curve, c, g, d, Mul(c, d, g).x, Mul(c, d, g).y, e, x, SignatureS(e, x, d, k, n), n);
  }

  lemma AlreadyReduced(q: Point, p: nat)
    requires q.Affine? && 0 <= q.x < p && 0 <= q.y < p
    ensures q == Affine(q.x % p, q.y % p)
  {
    ModSmall(q.x, p);
    ModSmall(q.y, p);
  }

  lemma KeyIsGood(d: nat, n: nat, b: nat)
    requires 1 < d < n && !Exceptional(d, n, b)
    ensures GoodKey(d, n)
  {
    ModSmall(d, n);
    ModSmall(d - 1, n);
    ModSmall(d + 1, n);
  }
}
