/** Curves as the signature code sees them, multiples of the base point, and public keys. */
module KeyPair {
  import opened Arith
  import opened Bits
  import opened Words
  import opened Vli
  import opened Bytes
  import opened Congruence
  import opened Regularize
  import opened PointOps
  import opened PointMult
  import opened BaseMult

  /** The arrays of a curve hold the field prime p, the order n and the base point (gx, gy). Field
      elements and scalars have the same number of words. */
  ghost predicate CurveOk(curve: Curve, p: nat, n: nat, gx: nat, gy: nat)
    reads curve.p, curve.n, curve.gx, curve.gy
  {
    FieldOk(curve, p) && OrderOk(curve, n) && OrderWords(curve) == curve.numWords &&
    Reg(curve.gx, curve) && Reg(curve.gy, curve) && R(curve.gx, curve) == gx < p && R(curve.gy, curve) == gy < p &&
    curve.n[curve.numWords - 1] != 0 && n % 2 == 1 && n > 1 &&
    WordsFor(curve.numBytes) == curve.numWords && p <= Place(curve.numBytes)
  }

  /** A buffer of words that is not part of the curve. */
  ghost predicate Buf(a: array<Word>, curve: Curve) {
    Reg(a, curve) && a != curve.n && a != curve.gx && a != curve.gy
  }

  lemma FreshBuf(a: array<Word>, curve: Curve, p: nat, n: nat, gx: nat, gy: nat)
    requires CurveOk(curve, p, n, gx, gy) && a.Length == MAX_WORDS
    requires a !in {curve.p, curve.n, curve.gx, curve.gy}
    ensures Buf(a, curve)
  {
  }

  /** What EccPoint_mult returns for the base point and a regularised scalar. */
  ghost function TimesG(curve: Curve, k: nat, p: nat, n: nat, gx: nat, gy: nat): (int, int)
    requires IsPrime(p) && curve.numNBits > 0
  {
    MultValue(curve.kind, gx, gy, 1, Regular2(k, n, curve.numNBits), curve.numNBits + 1, p)
  }

  lemma LowValue(s: seq<Word>, words: nat)
    requires words <= |s|
    ensures Val(s) % Pow(words) == Val(s[..words])
  {
    ValSplit(s, words);
    ValBound(s[..words]);
    hide Val, Pow;
    ModUnique(Val(s), Pow(words), Val(s[words..]), Val(s[..words]));
  }

  /** The stored scalar works like the number it was cut from. */
  lemma StoredScalar(curve: Curve, s: seq<Word>, k: nat, p: nat, n: nat, gx: nat, gy: nat)
    requires IsPrime(p) && 0 < curve.numNBits <= WORD_BITS * OrderWords(curve) && OrderWords(curve) <= |s|
    requires Val(s[..OrderWords(curve)]) == Regular2(k, n, curve.numNBits) % Pow(OrderWords(curve))
    ensures MultValue(curve.kind, gx, gy, 1, Val(s), curve.numNBits + 1, p) == TimesG(curve, k, p, n, gx, gy)
  {
    hide MultValue, Val, Pow, IsPrime, Regular2, Pow2, WordsFor;
    var words, w := OrderWords(curve), WORD_BITS * OrderWords(curve);
    LowValue(s, words);
    PowIsPow2(words);
    LostCarry(curve.kind, gx, gy, 1, Val(s), curve.numNBits + 1, w, p);
    LostCarry(curve.kind, gx, gy, 1, Regular2(k, n, curve.numNBits), curve.numNBits + 1, w, p);
  }

  /** regularize_k and EccPoint_mult on the base point. */
  method MultG(resultX: array<Word>, resultY: array<Word>, k: array<Word>, k0: array<Word>, k1: array<Word>,
               curve: Curve, ghost p: nat, ghost n: nat, ghost gx: nat, ghost gy: nat)
    requires CurveOk(curve, p, n, gx, gy) && IsPrime(p)
    requires Buf(resultX, curve) && Buf(resultY, curve) && Buf(k0, curve) && Buf(k1, curve)
    requires curve.numWords <= k.Length && V(k, curve.numWords) < n
    requires resultX != resultY && k0 != k1 && {resultX, resultY} !! {k, k0, k1} && k != k0 && k != k1
    modifies resultX, resultY, k0, k1
    ensures R(resultX, curve) < p && R(resultY, curve) < p
    ensures (R(resultX, curve), R(resultY, curve)) == TimesG(curve, V(k, curve.numWords), p, n, gx, gy)
  {
    hide MultValue, Val, Pow, IsPrime, Regular2, Pow2, WordsFor;
    var carry := RegularizeK(k, k0, k1, curve, n);
    hide Regular2, R;
    var scalar := if carry then k0 else k1;
    StoredScalar(curve, scalar[..], V(k, curve.numWords), p, n, gx, gy);
    assert scalar.Length >= OrderWords(curve);
    MulMono(WORD_BITS, OrderWords(curve), scalar.Length);
    EccPointMult(resultX, resultY, curve.gx, curve.gy, scalar, null, curve.numNBits + 1, curve, p);
  }

  //
  // Numbers in byte strings
  //

  /** The low bytes of a number are in its low words. */
  lemma LowBytes(s: seq<Word>, words: nat, numBytes: nat)
    requires words <= |s| && numBytes <= WORD_SIZE * words
    ensures Val(s) % Place(numBytes) == Val(s[..words]) % Place(numBytes)
  {
    ValSplit(s, words);
    PowIsPlace(words);
    PlaceAdd(numBytes, WORD_SIZE * words - numBytes);
    hide Val, Pow, Place;
    var rest := Place(WORD_SIZE * words - numBytes);
    MulAssoc(Place(numBytes), rest, Val(s[words..]));
    ShiftedDiv(Val(s[..words]), Place(numBytes), rest * Val(s[words..]));
  }

  /** uECC_vli_nativeToBytes on a number that fits. */
  method Store(bytes: array<Byte>, off: nat, native: array<Word>, curve: Curve)
    requires off + curve.numBytes <= bytes.Length && curve.numWords <= native.Length
    requires curve.numBytes <= WORD_SIZE * curve.numWords && V(native, curve.numWords) < Place(curve.numBytes)
    modifies bytes
    ensures BE(bytes[off..off + curve.numBytes]) == V(native, curve.numWords)
    ensures bytes[..off] == old(bytes[..off]) && bytes[off + curve.numBytes..] == old(bytes[off + curve.numBytes..])
  {
    hide Val, BE, Place;
    LowBytes(native[..], curve.numWords, curve.numBytes);
    ModSmall(V(native, curve.numWords), Place(curve.numBytes));
    MulMono(WORD_SIZE, curve.numWords, native.Length);
    NativeToBytes(bytes, off, curve.numBytes, native);
  }

  /** uECC_compute_public_key: fails for keys outside 1 .. n - 1, and for those on which the
      multiplication gives (0, 0). */
  method ComputePublicKey(privateKey: seq<Byte>, publicKey: array<Byte>, curve: Curve,
                          ghost p: nat, ghost n: nat, ghost gx: nat, ghost gy: nat) returns (ok: bool)
    requires CurveOk(curve, p, n, gx, gy) && IsPrime(p)
    requires |privateKey| == (curve.numNBits + 7) / 8 && publicKey.Length == 2 * curve.numBytes
    modifies publicKey
    ensures var d := BE(privateKey); ok <==> 0 < d < n && TimesG(curve, d, p, n, gx, gy) != (0, 0)
    ensures ok ==> (BE(publicKey[..curve.numBytes]), BE(publicKey[curve.numBytes..])) ==
                   TimesG(curve, BE(privateKey), p, n, gx, gy)
  {
    hide Val, BE, Place, TimesG, IsPrime, Pow2;
    var secret := new Word[MAX_WORDS];
    BytesToNative(secret, privateKey);
    var isZero := IsZero(secret, curve.numWords);
    if isZero { return false; }
    var c := Cmp(curve.n, secret, curve.numWords);
    if c != 1 { return false; }
    ok := StorePublicKey(secret, publicKey, curve, p, n, gx, gy);
  }

  /** The rest, for a key in the range. */
  method StorePublicKey(secret: array<Word>, publicKey: array<Byte>, curve: Curve,
                        ghost p: nat, ghost n: nat, ghost gx: nat, ghost gy: nat) returns (ok: bool)
    requires CurveOk(curve, p, n, gx, gy) && IsPrime(p)
    requires curve.numWords <= secret.Length && V(secret, curve.numWords) < n && publicKey.Length == 2 * curve.numBytes
    modifies publicKey
    ensures var d := V(secret, curve.numWords);
            (ok <==> TimesG(curve, d, p, n, gx, gy) != (0, 0)) &&
            (ok ==>
               (BE(publicKey[..curve.numBytes]), BE(publicKey[curve.numBytes..])) == TimesG(curve, d, p, n, gx, gy))
  {
    WordsForBound(curve.numBytes);
    hide Val, BE, Place, TimesG, IsPrime, Pow2;
    var x := new Word[MAX_WORDS];
    var y := new Word[MAX_WORDS];
    var tmp1 := new Word[MAX_WORDS];
    var tmp2 := new Word[MAX_WORDS];
    MultG(x, y, secret, tmp1, tmp2, curve, p, n, gx, gy);
    var zeroX := IsZero(x, curve.numWords);
    var zeroY := IsZero(y, curve.numWords);
    if zeroX && zeroY { return false; }
    Store(publicKey, 0, x, curve);
    Store(publicKey, curve.numBytes, y, curve);
    assert publicKey[..curve.numBytes] == publicKey[0..curve.numBytes];
    assert publicKey[curve.numBytes..] == publicKey[curve.numBytes..curve.numBytes + curve.numBytes];
    ok := true;
  }
}
