/** Signing with a given nonce: the blinded inverse, the sum and the stored pair (r, s). */
module EcdsaSign {
  import opened Arith
  import opened Bits
  import opened Words
  import opened Vli
  import opened VliMod
  import opened VliInv
  import opened Bytes
  import opened BitsToInt
  import opened Congruence
  import opened Field
  import opened CurveGroup
  import opened PointOps
  import opened PointMult
  import opened BaseMult
  import opened KeyPair

  /** What uECC_generate_random_int does when it is asked for the blinding factor. */
  datatype Random = NoGenerator | Failed | Chosen(words: array<Word>)

  /** A drawn factor is in 1 .. n - 1 and has an array of its own. */
  ghost predicate RandomOk(rng: Random, curve: Curve, n: nat)
    reads if rng.Chosen? then {rng.words} else {}
  {
    rng.Chosen? ==> curve.numWords <= rng.words.Length && 0 < V(rng.words, curve.numWords) < n
  }

  /** bits2int: the number that the code makes of a hash. */
  function HashNumber(hash: seq<Byte>, n: nat, nBits: nat): nat {
    var e := LeftBits(hash, nBits);
    if 8 * |hash| > nBits && nBits % 8 != 0 && e >= n then e - n else e
  }

  /** The s of a signature: (e + x * d) / k modulo n. */
  ghost function SignatureS(e: nat, x: nat, d: nat, k: nat, n: nat): nat
    requires IsPrime(n)
  {
    DivModDef((e + x * d) * Inv(k, n), n);
    ((e + x * d) * Inv(k, n)) % n
  }

  /** An inverse below the modulus is the inverse. */
  lemma InvUnique(k: int, i: int, n: nat)
    requires IsPrime(n) && 0 <= i < n && n > 1 && Cong(k * i, 1, n)
    ensures i == Inv(k, n)
  {
    hide IsPrime, Cong;
    if k % n == 0 {
      NotInvertible(k, i, n);
    } else {
      var j := Inv(k, n);
      PrimeCoprime(k, n);
      hide Coprime, Inv;
      CongSym(k * j, 1, n);
      CongTrans(k * i, 1, k * j, n);
      CongCancel(k, i, j, n);
      CongReduced(i, j, n);
    }
  }

  lemma NotInvertible(k: int, i: int, n: nat)
    requires n > 1 && k % n == 0
    ensures !Cong(k * i, 1, n)
  {
    DivModDef(k, n);
    MulAssoc(n, k / n, i);
    ModOfMultiple((k / n) * i, n);
    CongSameMod(k * i, 1, n);
    ModSmall(1, n);
  }

  /** Multiplying by a random factor before and after the inversion leaves 1/k. */
  lemma BlindedInverse(k: nat, t: nat, k1: nat, k2: nat, k3: nat, n: nat)
    requires IsPrime(n) && n > 1 && 0 < k < n && 0 < t < n
    requires k1 == FMul(k, t, n) && k2 < n && IsInverse(k2, k1, n) && k3 == FMul(k2, t, n)
    ensures k3 == Inv(k, n)
  {
    ProductNonzero(k, t, n);
    CongRefl(k, n);
    CongRefl(t, n);
    CongRefl(k2, n);
    MulStands(k, k, t, t, n);
    MulStands(k2, k2, t, t, n);
    hide IsPrime, Cong, IsInverse, FMul;
    ReducedInvertible(k1, n);
    InverseIsInv(k2, k1, n);
    InverseHolds(k1, n);
    hide Inv;
    UnblindedProduct(k, t, k1, k2, k3, n);
    InvUnique(k, k3, n);
  }

  lemma InverseHolds(k: int, n: nat)
    requires IsPrime(n) && n > 1 && 0 < k < n
    ensures Cong(k * Inv(k, n), 1, n)
  {
    ModSmall(k, n);
  }

  lemma UnblindedProduct(k: nat, t: nat, k1: nat, k2: nat, k3: nat, n: nat)
    requires n > 1 && Cong(k1, k * t, n) && Cong(k3, k2 * t, n) && Cong(k1 * k2, 1, n)
    ensures Cong(k * k3, 1, n)
  {
    hide Cong;
    CongRefl(k, n);
    CongRefl(k2, n);
    CongMul(k, k, k3, k2 * t, n);
    CongMul(k1, k * t, k2, k2, n);
    CongSym(k1 * k2, (k * t) * k2, n);
    assert k * (k2 * t) == (k * t) * k2 by { MulAssoc(k, t, k2); }
    CongTrans(k * k3, (k * t) * k2, k1 * k2, n);
    CongTrans(k * k3, k1 * k2, 1, n);
  }

  lemma ProductNonzero(k: nat, t: nat, n: nat)
    requires IsPrime(n) && 0 < k < n && 0 < t < n
    ensures FMul(k, t, n) != 0
  {
    NonzeroReduced(k, n);
    NonzeroReduced(t, n);
    if (k * t) % n == 0 { PrimeProduct(k, t, n); }
  }

  /** The scalar array modulus of a curve. */
  lemma OrderFits(curve: Curve, p: nat, n: nat, gx: nat, gy: nat)
    requires CurveOk(curve, p, n, gx, gy)
    ensures 0 < curve.numWords <= MAX_WORDS && curve.numWords <= curve.n.Length && curve.numWords <= curve.p.Length
    ensures V(curve.n, curve.numWords) == n && curve.n[curve.numWords - 1] != 0 && n > 1 && n % 2 == 1
    ensures curve.numNBits > 1 && curve.numWords == WordsFor((curve.numNBits + 7) / 8) && IsBitLength(n, curve.numNBits)
    ensures WordsFor(curve.numBytes) == curve.numWords && curve.numBytes <= WORD_SIZE * curve.numWords
    ensures p <= Place(curve.numBytes)
  {
    WordsForBound(curve.numBytes);
  }

  /** result = left * right modulo the order. */
  method MultN(result: array<Word>, left: array<Word>, right: array<Word>, curve: Curve,
               ghost p: nat, ghost n: nat, ghost gx: nat, ghost gy: nat)
    requires CurveOk(curve, p, n, gx, gy) && Buf(result, curve) && Buf(left, curve) && Buf(right, curve)
    modifies result
    ensures n > 1 && V(result, curve.numWords) == FMul(old(V(left, curve.numWords)), old(V(right, curve.numWords)), n)
  {
    OrderFits(curve, p, n, gx, gy);
    hide CurveOk, Val;
    ModMult(result, left, right, curve.n, curve.numWords);
  }

  /** k = 1/k, with the factor in tmp. */
  method InvertBlinded(k: array<Word>, tmp: array<Word>, curve: Curve, ghost p: nat, ghost n: nat, ghost gx: nat,
                       ghost gy: nat)
    requires CurveOk(curve, p, n, gx, gy) && IsPrime(n) && Buf(k, curve) && Buf(tmp, curve) && k != tmp
    requires 0 < V(k, curve.numWords) < n && 0 < V(tmp, curve.numWords) < n
    modifies k
    ensures V(k, curve.numWords) == Inv(old(V(k, curve.numWords)), n) < n
  {
    OrderFits(curve, p, n, gx, gy);
    hide CurveOk, IsPrime, Val, IsInverse, FMul;
    ghost var k0, t := V(k, curve.numWords), V(tmp, curve.numWords);
    MultN(k, k, tmp, curve, p, n, gx, gy);
    ghost var k1 := V(k, curve.numWords);
    ModInv(k, k, curve.n, curve.numWords);
    ghost var k2 := V(k, curve.numWords);
    MultN(k, k, tmp, curve, p, n, gx, gy);
    BlindedInverse(k0, t, k1, k2, V(k, curve.numWords), n);
  }

  /** The sum may be reduced or not; the product with 1/k is the same modulo n. */
  lemma SumOverK(e: nat, x: nat, d: nat, rd: nat, sum: nat, k: nat, s: nat, n: nat)
    requires IsPrime(n) && n > 1 && rd == FMul(d, x, n) && (sum == e + rd || sum + n == e + rd)
    requires s == FMul(sum, Inv(k, n), n)
    ensures s == SignatureS(e, x, d, k, n)
  {
    var i := Inv(k, n);
    hide IsPrime, Inv, Cong;
    CongMod(d * x, n);
    CongRefl(e, n);
    CongAdd(e, e, rd, d * x, n);
    CongIntro(sum, e + rd, n, if sum == e + rd then 0 else -1);
    CongTrans(sum, e + rd, e + d * x, n);
    CongRefl(i, n);
    CongMul(sum, e + d * x, i, i, n);
    assert d * x == x * d;
    CongSameMod(sum * i, (e + d * x) * i, n);
  }

  /** bits2int into tmp. */
  method HashInto(tmp: array<Word>, hash: seq<Byte>, curve: Curve, ghost p: nat, ghost n: nat, ghost gx: nat,
                  ghost gy: nat)
    requires CurveOk(curve, p, n, gx, gy) && Buf(tmp, curve)
    modifies tmp
    ensures V(tmp, curve.numWords) == HashNumber(hash, n, curve.numNBits) < Pow(curve.numWords)
  {
    OrderFits(curve, p, n, gx, gy);
    hide CurveOk, Val, LeftBits, WordsFor, Place, Pow, Pow2;
    BitsToNative(tmp, hash, curve.n, curve.numNBits);
    ValBound(tmp[..curve.numWords]);
  }

  /** s = tmp + s modulo the order, for a reduced s. */
  method SumN(s: array<Word>, tmp: array<Word>, curve: Curve, ghost p: nat, ghost n: nat, ghost gx: nat, ghost gy: nat)
    requires CurveOk(curve, p, n, gx, gy) && Buf(s, curve) && Buf(tmp, curve)
    requires V(s, curve.numWords) < n && V(tmp, curve.numWords) < Pow(curve.numWords)
    modifies s
    ensures var sum, e, rd := V(s, curve.numWords), old(V(tmp, curve.numWords)), old(V(s, curve.numWords));
            sum == e + rd || sum + n == e + rd
  {
    OrderFits(curve, p, n, gx, gy);
    hide CurveOk, Val, Pow;
    ModAdd(s, tmp, s, curve.n, curve.numWords);
  }

  /** s = (e + x * d) / k, with d in tmp, x in s and 1/k in k. */
  method SolveS(s: array<Word>, tmp: array<Word>, k: array<Word>, hash: seq<Byte>, curve: Curve,
                ghost k0: nat, ghost p: nat, ghost n: nat, ghost gx: nat, ghost gy: nat)
    requires CurveOk(curve, p, n, gx, gy) && IsPrime(n) && Buf(s, curve) && Buf(tmp, curve) && Buf(k, curve)
    requires s != tmp && s != k && tmp != k && V(k, curve.numWords) == Inv(k0, n)
    modifies s, tmp
    ensures V(s, curve.numWords) == SignatureS(HashNumber(hash, n, curve.numNBits), old(V(s, curve.numWords)),
                                               old(V(tmp, curve.numWords)), k0, n)
  {
    hide CurveOk, IsPrime, Val, Inv, HashNumber, SignatureS, FMul, Pow;
    ghost var x, d := V(s, curve.numWords), V(tmp, curve.numWords);
    MultN(s, tmp, s, curve, p, n, gx, gy);
    ghost var rd := V(s, curve.numWords);
    HashInto(tmp, hash, curve, p, n, gx, gy);
    ghost var e := V(tmp, curve.numWords);
    SumN(s, tmp, curve, p, n, gx, gy);
    ghost var sum := V(s, curve.numWords);
    MultN(s, s, k, curve, p, n, gx, gy);
    SumOverK(e, x, d, rd, sum, k0, V(s, curve.numWords), n);
  }

  /** The blinding factor: one without a generator, and otherwise what was drawn. */
  method Blinding(tmp: array<Word>, rng: Random, curve: Curve, ghost p: nat, ghost n: nat, ghost gx: nat, ghost gy: nat)
    returns (ok: bool)
    requires CurveOk(curve, p, n, gx, gy) && Buf(tmp, curve) && RandomOk(rng, curve, n)
    modifies tmp
    ensures ok == !rng.Failed?
    ensures ok ==> 0 < V(tmp, curve.numWords) < n
  {
    OrderFits(curve, p, n, gx, gy);
    hide CurveOk, Val;
    match rng
    case NoGenerator => SetOne(tmp, curve.numWords); ok := true;
    case Failed => ok := false;
    case Chosen(words) => Set(tmp, words, curve.numWords); ok := true;
  }

  /** The pair for a nonce in the range, once the point is known: r from x, and s if it fits. */
  method StoreSignature(x: array<Word>, tmp: array<Word>, s: array<Word>, k: array<Word>, privateKey: seq<Byte>,
                        hash: seq<Byte>,
                        signature: array<Byte>, curve: Curve, ghost k0: nat, ghost p: nat, ghost n: nat,
                        ghost gx: nat, ghost gy: nat)
    returns (ok: bool)
    requires CurveOk(curve, p, n, gx, gy) && IsPrime(n)
    requires Buf(x, curve) && Buf(tmp, curve) && Buf(s, curve) && Buf(k, curve)
    requires x != tmp && x != s && x != k && tmp != s && tmp != k && s != k
    requires V(k, curve.numWords) == Inv(k0, n) && V(x, curve.numWords) < p
    requires |privateKey| == (curve.numNBits + 7) / 8 && signature.Length == 2 * curve.numBytes
    modifies tmp, s, signature
    ensures var sv := SignatureS(HashNumber(hash, n, curve.numNBits), V(x, curve.numWords), BE(privateKey), k0, n);
            (ok <==> sv < Place(curve.numBytes)) &&
            (ok ==> BE(signature[..curve.numBytes]) == V(x, curve.numWords) && BE(signature[curve.numBytes..]) == sv)
  {
    OrderFits(curve, p, n, gx, gy);
    hide CurveOk, IsPrime, Val, Inv, HashNumber, SignatureS, BE, Place, WordsFor, Pow2;
    Store(signature, 0, x, curve);
    BytesToNative(tmp, privateKey);
    Set(s, x, curve.numWords);
    SolveS(s, tmp, k, hash, curve, k0, p, n, gx, gy);
    var bits := NumBits(s, curve.numWords);
    LengthFits(V(s, curve.numWords), bits, curve.numBytes);
    if bits > curve.numBytes * 8 { return false; }
    Store(signature, curve.numBytes, s, curve);
    assert signature[..curve.numBytes] == signature[0..curve.numBytes];
    assert signature[curve.numBytes..] == signature[curve.numBytes..curve.numBytes + curve.numBytes];
    ok := true;
  }

  lemma LengthFits(x: nat, bits: nat, numBytes: nat)
    requires IsBitLength(x, bits)
    ensures bits <= 8 * numBytes <==> x < Place(numBytes)
  {
    if bits <= 8 * numBytes { Pow2Mono(bits, 8 * numBytes); } else { Pow2Mono(8 * numBytes, bits - 1); }
  }

  /** When signing with the nonce k succeeds. */
  ghost predicate Signs(privateKey: seq<Byte>, hash: seq<Byte>, k: nat, rng: Random, curve: Curve,
                        p: nat, n: nat, gx: nat, gy: nat)
    requires IsPrime(p) && IsPrime(n) && curve.numNBits > 0
  {
    var x := TimesG(curve, k, p, n, gx, gy).0;
    0 < k < n && x > 0 && !rng.Failed? &&
    SignatureS(HashNumber(hash, n, curve.numNBits), x, BE(privateKey), k, n) < Place(curve.numBytes)
  }

  /** The bytes hold the pair that the nonce k gives. */
  ghost predicate IsSignature(signature: seq<Byte>, privateKey: seq<Byte>, hash: seq<Byte>, k: nat, curve: Curve,
                              p: nat, n: nat, gx: nat, gy: nat)
    requires IsPrime(p) && IsPrime(n) && curve.numNBits > 0 && |signature| == 2 * curve.numBytes
  {
    var x := TimesG(curve, k, p, n, gx, gy).0;
    x >= 0 && BE(signature[..curve.numBytes]) == x &&
    BE(signature[curve.numBytes..]) == SignatureS(HashNumber(hash, n, curve.numNBits), x, BE(privateKey), k, n)
  }

  lemma NewBuffers(a: array<Word>, b: array<Word>, c: array<Word>, d: array<Word>, curve: Curve, p: nat, n: nat,
                   gx: nat, gy: nat)
    requires CurveOk(curve, p, n, gx, gy) && forall x | x in {a, b, c, d} :: x.Length == MAX_WORDS
    requires {a, b, c, d} !! {curve.p, curve.n, curve.gx, curve.gy}
    ensures Buf(a, curve) && Buf(b, curve) && Buf(c, curve) && Buf(d, curve)
  {
  }

  /** Signing with a nonce in 1 .. n - 1, on the caller's temporaries. */
  method SignInRange(privateKey: seq<Byte>, hash: seq<Byte>, k: array<Word>, rng: Random, signature: array<Byte>,
                     tmp: array<Word>, s: array<Word>, x: array<Word>, y: array<Word>, curve: Curve,
                     ghost p: nat, ghost n: nat, ghost gx: nat, ghost gy: nat) returns (ok: bool)
    requires CurveOk(curve, p, n, gx, gy) && IsPrime(p) && IsPrime(n) && Buf(k, curve) && RandomOk(rng, curve, n)
    requires Buf(tmp, curve) && Buf(s, curve) && Buf(x, curve) && Buf(y, curve)
    requires k !in {tmp, s, x, y} && tmp !in {s, x, y} && s !in {x, y} && x != y
    requires rng.Chosen? ==> rng.words !in {k, tmp, s, x, y}
    requires |privateKey| == (curve.numNBits + 7) / 8 && signature.Length == 2 * curve.numBytes
    requires 0 < V(k, curve.numWords) < n
    modifies k, signature, tmp, s, x, y
    ensures ok <==> Signs(privateKey, hash, old(V(k, curve.numWords)), rng, curve, p, n, gx, gy)
    ensures ok ==> IsSignature(signature[..], privateKey, hash, old(V(k, curve.numWords)), curve, p, n, gx, gy)
  {
    OrderFits(curve, p, n, gx, gy);
    hide CurveOk, IsPrime, Val, Inv, HashNumber, SignatureS, BE, Place, WordsFor, Pow2, TimesG, Pow;
    ghost var kv := V(k, curve.numWords);
    MultG(x, y, k, tmp, s, curve, p, n, gx, gy);
    var zeroX := IsZero(x, curve.numWords);
    if zeroX { return false; }
    var drawn := Blinding(tmp, rng, curve, p, n, gx, gy);
    if !drawn { return false; }
    InvertBlinded(k, tmp, curve, p, n, gx, gy);
    ok := StoreSignature(x, tmp, s, k, privateKey, hash, signature, curve, kv, p, n, gx, gy);
    assert signature[..curve.numBytes] == signature[..][..curve.numBytes];
    assert signature[curve.numBytes..] == signature[..][curve.numBytes..];
  }

  /** The same with temporaries of its own. */
  method SignFresh(privateKey: seq<Byte>, hash: seq<Byte>, k: array<Word>, rng: Random, signature: array<Byte>,
                   curve: Curve, ghost p: nat, ghost n: nat, ghost gx: nat, ghost gy: nat) returns (ok: bool)
    requires CurveOk(curve, p, n, gx, gy) && IsPrime(p) && IsPrime(n) && Buf(k, curve) && RandomOk(rng, curve, n)
    requires |privateKey| == (curve.numNBits + 7) / 8 && signature.Length == 2 * curve.numBytes
    requires rng.Chosen? ==> rng.words != k
    requires 0 < V(k, curve.numWords) < n
    modifies k, signature
    ensures ok <==> Signs(privateKey, hash, old(V(k, curve.numWords)), rng, curve, p, n, gx, gy)
    ensures ok ==> IsSignature(signature[..], privateKey, hash, old(V(k, curve.numWords)), curve, p, n, gx, gy)
  {
    OrderFits(curve, p, n, gx, gy);
    hide CurveOk, IsPrime, Val, WordsFor, Pow2, Signs, IsSignature, Pow;
    var tmp := new Word[MAX_WORDS];
    var s := new Word[MAX_WORDS];
    var x := new Word[MAX_WORDS];
    var y := new Word[MAX_WORDS];
    NewBuffers(tmp, s, x, y, curve, p, n, gx, gy);
    ok := SignInRange(privateKey, hash, k, rng, signature, tmp, s, x, y, curve, p, n, gx, gy);
  }

  /** uECC_sign_with_k. The stored r is the abscissa of k * G itself, not its remainder modulo n,
      and s may be zero. */
  method SignWithK(privateKey: seq<Byte>, hash: seq<Byte>, k: array<Word>, rng: Random, signature: array<Byte>,
                   curve: Curve, ghost p: nat, ghost n: nat, ghost gx: nat, ghost gy: nat) returns (ok: bool)
    requires CurveOk(curve, p, n, gx, gy) && IsPrime(p) && IsPrime(n) && Buf(k, curve) && RandomOk(rng, curve, n)
    requires |privateKey| == (curve.numNBits + 7) / 8 && signature.Length == 2 * curve.numBytes
    requires rng.Chosen? ==> rng.words != k
    modifies k, signature
    ensures ok <==> Signs(privateKey, hash, old(V(k, curve.numWords)), rng, curve, p, n, gx, gy)
    ensures ok ==> IsSignature(signature[..], privateKey, hash, old(V(k, curve.numWords)), curve, p, n, gx, gy)
  {
    OrderFits(curve, p, n, gx, gy);
    ghost var kv := V(k, curve.numWords);
    if !(0 < kv < n) { assert !Signs(privateKey, hash, kv, rng, curve, p, n, gx, gy); }
    hide CurveOk, IsPrime, Val, WordsFor, Pow2, Signs, IsSignature, Pow;
    var isZero := IsZero(k, curve.numWords);
    var c := Cmp(curve.n, k, curve.numWords);
    if isZero || c != 1 { return false; }
    ok := SignFresh(privateKey, hash, k, rng, signature, curve, p, n, gx, gy);
  }
}
