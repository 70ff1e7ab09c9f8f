/** Deterministic signatures: the nonces of RFC 6979, tried in order. */
module DeterministicSign {
  import opened Arith
  import opened Bits
  import opened Words
  import opened Bytes
  import opened Congruence
  import opened PointOps
  import opened KeyPair
  import opened EcdsaSign
  import opened Hmac

  /** uECC_RNG_MAX_TRIES */
  const MAX_TRIES: nat := 64

  function Reversed(s: seq<Byte>): (r: seq<Byte>)
    ensures |r| == |s|
  {
    seq(|s|, i requires 0 <= i < |s| => s[|s| - 1 - i])
  }

  /** The number that a little-endian machine reads from bytes in memory. */
  function LE(s: seq<Byte>): nat {
    BE(Reversed(s))
  }

  /** The state after the first tries. */
  ghost function StateAt(hash: HashFunction, blockSize: nat, size: nat, x: seq<Byte>, h: seq<Byte>, numBytes: nat,
                         tries: nat): (s: KV)
    requires IsHash(hash, size) && 0 < size <= blockSize
    ensures Sized(s, size)
  {
    if tries == 0 then Seeded(hash, blockSize, size, x, h) else
      var s := StateAt(hash, blockSize, size, x, h, numBytes, tries - 1);
      Retried(hash, blockSize, size, s, numBytes)
  }

  /** Step h.3 after a nonce that was rejected. */
  ghost function Retried(hash: HashFunction, blockSize: nat, size: nat, s: KV, numBytes: nat): (r: KV)
    requires IsHash(hash, size) && 0 < size <= blockSize && Sized(s, size)
    ensures Sized(r, size)
  {
    var s' := Drawn(hash, blockSize, size, s, numBytes).1;
    ReseedSized(hash, blockSize, size, s', 0x00, []);
    Reseed(hash, blockSize, s', 0x00, [])
  }

  /** The state of the first try, and of a try after one that was rejected, value by value: a new K from V
      and a zero byte, and the next V. */
  lemma StateIs(hash: HashFunction, blockSize: nat, size: nat, x: seq<Byte>, h: seq<Byte>, numBytes: nat,
                tries: nat, k: seq<Byte>, v: seq<Byte>, k': seq<Byte>)
    requires IsHash(hash, size) && 0 < size <= blockSize
    requires KV(k, v) == Drawn(hash, blockSize, size, StateAt(hash, blockSize, size, x, h, numBytes, tries), numBytes).1
    requires |k| <= blockSize && k' == Mac(hash, blockSize, k, v + [0x00]) && |k'| <= blockSize
    ensures StateAt(hash, blockSize, size, x, h, numBytes, 0) == Seeded(hash, blockSize, size, x, h)
    ensures StateAt(hash, blockSize, size, x, h, numBytes, tries + 1) == KV(k', Mac(hash, blockSize, k', v))
  {
    hide IsHash, Mac, Drawn, Seeded;
    assert v + [0x00] + [] == v + [0x00];
    ReseedSized(hash, blockSize, size, KV(k, v), 0x00, []);
  }

  /** The byte with i bytes before it in memory is byte i of the number, counted from the least significant. */
  lemma LEByte(s: seq<Byte>, i: nat)
    requires i < |s|
    ensures ByteOf(LE(s), i) == s[i]
  {
    BEByte(Reversed(s), |s| - 1 - i);
  }

  /** The nonce of a state is the number that its bytes are in memory, cut to nBits bits. */
  lemma NonceIs(hash: HashFunction, blockSize: nat, size: nat, s: KV, numBytes: nat, nBits: nat, q: int)
    requires IsHash(hash, size) && 0 < size <= blockSize && Sized(s, size)
    requires var x := LE(Drawn(hash, blockSize, size, s, numBytes).0); 0 <= x - q * Pow2(nBits) < Pow2(nBits)
    ensures NonceOf(hash, blockSize, size, s, numBytes, nBits) ==
            LE(Drawn(hash, blockSize, size, s, numBytes).0) - q * Pow2(nBits)
  {
    hide IsHash, Drawn, LE, Pow2;
    var x := LE(Drawn(hash, blockSize, size, s, numBytes).0);
    assert q * Pow2(nBits) == Pow2(nBits) * q;
    ModUnique(x, Pow2(nBits), q, x - q * Pow2(nBits));
  }

  /** The nonce that a state gives: the bytes as the machine reads them, cut to nBits bits. */
  ghost function NonceOf(hash: HashFunction, blockSize: nat, size: nat, s: KV, numBytes: nat, nBits: nat): nat
    requires IsHash(hash, size) && 0 < size <= blockSize && Sized(s, size)
  {
    DivModDef(LE(Drawn(hash, blockSize, size, s, numBytes).0), Pow2(nBits));
    LE(Drawn(hash, blockSize, size, s, numBytes).0) % Pow2(nBits)
  }

  /** The nonce of a try. */
  ghost function Nonce(hash: HashFunction, blockSize: nat, size: nat, x: seq<Byte>, h: seq<Byte>, numBytes: nat,
                       nBits: nat, tries: nat): nat
    requires IsHash(hash, size) && 0 < size <= blockSize
  {
    NonceOf(hash, blockSize, size, StateAt(hash, blockSize, size, x, h, numBytes, tries), numBytes, nBits)
  }

  //
  // The nonce in words
  //

  method ReverseBytes(bytes: array<Byte>) returns (r: seq<Byte>)
    ensures r == Reversed(bytes[..])
  {
    r := [];
    var i := bytes.Length;
    while i > 0
      invariant 0 <= i <= bytes.Length && |r| == bytes.Length - i
      invariant forall j :: 0 <= j < |r| ==> r[j] == bytes[bytes.Length - 1 - j]
    {
      i := i - 1;
      r := r + [bytes[i]];
    }
  }

  /** Keeping the k low bits of the top word cuts the number to its low bits. */
  lemma MaskTop(s: seq<Word>, n: nat, k: nat, top: Word)
    requires |s| == n + 1 && 0 <= top == s[n] % Pow2(k)
    ensures 0 <= Val(s) % (Pow(n) * Pow2(k)) == Val(s[n := top])
  {
    hide Val, Pow, Pow2;
    var q := Pow2(k);
    var t := s[n := top];
    assert s[..n + 1] == s && t[..n + 1] == t && t[..n] == s[..n];
    ValSnoc(s, n);
    ValSnoc(t, n);
    ValBound(s[..n]);
    DivModDef(s[n], q);
    MulAtLeast(Pow(n), q);
    MaskAlgebra(Pow(n), q, Val(s[..n]), s[n], s[n] / q, top);
    ModUnique(Val(s), Pow(n) * q, s[n] / q, Val(t));
  }

  lemma SplitPower(n: nat, k: nat)
    ensures Pow2(WORD_BITS * n + k) == Pow(n) * Pow2(k)
  {
    PowIsPow2(n);
    Pow2Add(WORD_BITS * n, k);
  }

  lemma MaskAlgebra(p: nat, q: nat, low: nat, x: nat, hi: int, lo: nat)
    requires p > 0 && q > 0 && low < p && x == q * hi + lo && lo < q
    ensures low + p * x == (p * q) * hi + (low + p * lo) && 0 <= low + p * lo < p * q
  {
    MulDist(p, q * hi, lo);
    MulAssoc(p, q, hi);
    MulMono(p, lo, q - 1);
    MulMono(p, 0, lo);
    MulDist(p, q, -1);
  }

  lemma WholeWords(n: nat)
    ensures WordsFor(WORD_SIZE * n) == n
  {
    ModUnique(WORD_SIZE * n + (WORD_SIZE - 1), WORD_SIZE, n, WORD_SIZE - 1);
  }

  /** The mask on the top word, when the order does not fill its words. */
  method MaskNonce(t: array<Word>, words: nat, nBits: nat)
    requires 0 < words <= t.Length && WORD_BITS * (words - 1) < nBits <= WORD_BITS * words
    modifies t
    ensures 0 <= old(V(t, words)) % Pow2(nBits) == V(t, words)
  {
    hide Val, Pow2, And, WORD_BITS;
    ghost var s := t[..words];
    MulDist(WORD_BITS, words, -1);
    if words * WORD_BITS > nBits {
      var excess := words * WORD_BITS - nBits;
      MaskFits(t[words - 1], excess);
      AndLowMask(t[words - 1], WORD_BITS - excess);
      t[words - 1] := And(t[words - 1], Pow2(WORD_BITS - excess) - 1);
      assert t[..words] == s[words - 1 := t[words - 1]];
      SplitPower(words - 1, WORD_BITS - excess);
      MaskTop(s, words - 1, WORD_BITS - excess, t[words - 1]);
    } else {
      ValBound(s);
      PowIsPow2(words);
      ModSmall(Val(s), Pow2(nBits));
    }
  }

  lemma MaskFits(x: Word, excess: nat)
    requires 0 < excess < WORD_BITS
    ensures And(x, Pow2(WORD_BITS - excess) - 1) < B
  {
    AndLowMask(x, WORD_BITS - excess);
    DivModDef(x, Pow2(WORD_BITS - excess));
    Pow2Mono(WORD_BITS - excess, WORD_BITS);
  }

  /** T, filled from values of V and masked. */
  method DrawNonce(context: HashContext, t: array<Word>, words: nat, nBits: nat)
    requires context.Valid() && 0 < words <= t.Length && WORD_BITS * (words - 1) < nBits <= WORD_BITS * words
    requires (t as object) != context && (t as object) != context.tmp
    modifies context, context.tmp, t
    ensures context.State() ==
            Drawn(context.hash, context.blockSize, context.resultSize, old(context.State()), WORD_SIZE * words).1
    ensures V(t, words) == NonceOf(context.hash, context.blockSize, context.resultSize, old(context.State()),
                                   WORD_SIZE * words, nBits)
  {
    hide Val, Pow2, BE, WORD_BITS, WordsFor, IsHash, Drawn, Reversed;
    var bytes := new Byte[WORD_SIZE * words];
    context.Draw(bytes);
    var r := ReverseBytes(bytes);
    WholeWords(words);
    BytesToNative(t, r);
    MaskNonce(t, words, nBits);
  }

  //
  // The tries
  //

  /** The nonce of a try for a curve. */
  ghost function TryNonce(context: HashContext, privateKey: seq<Byte>, messageHash: seq<Byte>, curve: Curve,
                          tries: nat): nat
    requires context.Valid() && curve.numBytes <= |privateKey|
  {
    Nonce(context.hash, context.blockSize, context.resultSize, privateKey[..curve.numBytes], messageHash,
          WORD_SIZE * curve.numWords, curve.numNBits, tries)
  }

  /** The nonce of a try, from the values of V that follow the state of the try: as many bytes of them as the
      words hold, read as the machine reads them, without a multiple of 2^num_n_bits. */
  lemma TryNonceIs(context: HashContext, privateKey: seq<Byte>, messageHash: seq<Byte>, curve: Curve, tries: nat,
                   k: seq<Byte>, vs: seq<seq<Byte>>, bytes: seq<Byte>, q: int)
    requires context.Valid() && curve.numBytes <= |privateKey| && |vs| > 0
    requires KV(k, vs[0]) ==
             StateAt(context.hash, context.blockSize, context.resultSize, privateKey[..curve.numBytes], messageHash,
                     WORD_SIZE * curve.numWords, tries)
    requires |k| <= context.blockSize && Chain(context.hash, context.blockSize, k, vs)
    requires |bytes| == WORD_SIZE * curve.numWords
    requires forall i :: 0 <= i < |bytes| ==> FromValues(bytes[i], i, context.resultSize, vs)
    requires 0 <= LE(bytes) - q * Pow2(curve.numNBits) < Pow2(curve.numNBits)
    ensures TryNonce(context, privateKey, messageHash, curve, tries) == LE(bytes) - q * Pow2(curve.numNBits)
  {
    hide IsHash, Drawn, LE, Pow2, Chain, StateAt, NonceOf;
    var x := privateKey[..curve.numBytes];
    var s := StateAt(context.hash, context.blockSize, context.resultSize, x, messageHash, |bytes|, tries);
    var d := Drawn(context.hash, context.blockSize, context.resultSize, s, |bytes|).0;
    forall i | 0 <= i < |bytes|
      ensures d[i] == bytes[i]
    {
      assert FromValues(bytes[i], i, context.resultSize, vs);
      DrawnIs(context.hash, context.blockSize, context.resultSize, s, |bytes|, i, vs);
    }
    assert d == bytes;
    NonceIs(context.hash, context.blockSize, context.resultSize, s, |bytes|, curve.numNBits, q);
  }

  /** The byte is number i of the bytes of vs[1], vs[2] and so on, size bytes each. */
  predicate FromValues(b: Byte, i: nat, size: nat, vs: seq<seq<Byte>>)
    requires size > 0
  {
    0 <= i / size < |vs| - 1 && 0 <= i % size < |vs[i / size + 1]| && b == vs[i / size + 1][i % size]
  }

  /** The nonce of the try gives a signature. */
  ghost predicate TrySigns(context: HashContext, privateKey: seq<Byte>, messageHash: seq<Byte>, rngs: seq<Random>,
                           curve: Curve, p: nat, n: nat, gx: nat, gy: nat, tries: nat)
    requires context.Valid() && curve.numBytes <= |privateKey| && IsPrime(p) && IsPrime(n) && curve.numNBits > 0
    requires |rngs| == MAX_TRIES && tries < MAX_TRIES
  {
    Signs(privateKey, messageHash, TryNonce(context, privateKey, messageHash, curve, tries), rngs[tries], curve, p, n,
          gx, gy)
  }

  /** The state of the context before a try. */
  ghost function TryState(context: HashContext, privateKey: seq<Byte>, messageHash: seq<Byte>, curve: Curve,
                          tries: nat): KV
    requires context.Valid() && curve.numBytes <= |privateKey|
  {
    StateAt(context.hash, context.blockSize, context.resultSize, privateKey[..curve.numBytes], messageHash,
            WORD_SIZE * curve.numWords, tries)
  }

  /** One try: a nonce, an attempt to sign with it, and the refresh after a failure. */
  method Try(context: HashContext, t: array<Word>, privateKey: seq<Byte>, messageHash: seq<Byte>, rng: Random,
             signature: array<Byte>,
             curve: Curve, ghost rngs: seq<Random>, ghost tries: nat, ghost p: nat, ghost n: nat, ghost gx: nat,
             ghost gy: nat)
    returns (ok: bool)
    requires context.Valid() && CurveOk(curve, p, n, gx, gy) && IsPrime(p) && IsPrime(n)
    requires |rngs| == MAX_TRIES && tries < MAX_TRIES && rng == rngs[tries] && RandomOk(rng, curve, n)
    requires Apart({context, context.tmp, signature, t}, curve) && Buf(t, curve)
    requires (t as object) !in {context as object, context.tmp, signature} &&
             (signature as object) !in {context as object, context.tmp}
    requires rng.Chosen? ==> (rng.words as object) !in {context as object, context.tmp, signature, t}
    requires |privateKey| == (curve.numNBits + 7) / 8 && curve.numBytes <= |privateKey| &&
             signature.Length == 2 * curve.numBytes
    requires context.State() == TryState(context, privateKey, messageHash, curve, tries)
    modifies context, context.tmp, t, signature
    ensures CurveOk(curve, p, n, gx, gy)
    ensures ok <==> TrySigns(context, privateKey, messageHash, rngs, curve, p, n, gx, gy, tries)
    ensures ok ==> IsSignature(signature[..], privateKey, messageHash,
                               TryNonce(context, privateKey, messageHash, curve, tries),
                               curve, p, n, gx, gy)
    ensures !ok ==> context.State() == TryState(context, privateKey, messageHash, curve, tries + 1)
  {
    OrderFits(curve, p, n, gx, gy);
    LengthOfOrder(curve, p, n, gx, gy);
    hide Val, Pow2, IsPrime, WORD_BITS, WordsFor, IsHash, Drawn, Signs, IsSignature, Place, NonceOf, Retried;
    ghost var x := privateKey[..curve.numBytes];
    DrawNonce(context, t, curve.numWords, curve.numNBits);
    ok := SignWithK(privateKey, messageHash, t, rng, signature, curve, p, n, gx, gy);
    if !ok {
      context.Refresh(0x00, [], []);
      StateStep(context, x, messageHash, WORD_SIZE * curve.numWords, tries);
    }
  }

  lemma StateStep(context: HashContext, x: seq<Byte>, h: seq<Byte>, numBytes: nat, tries: nat)
    requires context.Valid()
    ensures var s := StateAt(context.hash, context.blockSize, context.resultSize, x, h, numBytes, tries);
            var d := Drawn(context.hash, context.blockSize, context.resultSize, s, numBytes).1;
            ReseedOk(context, d) &&
            StateAt(context.hash, context.blockSize, context.resultSize, x, h, numBytes, tries + 1) ==
            Reseed(context.hash, context.blockSize, d, 0x00, [] + [])
  {
    hide Drawn, IsHash, Mac;
    var none: seq<Byte> := [];
    assert none + none == none;
    var s := StateAt(context.hash, context.blockSize, context.resultSize, x, h, numBytes, tries);
    var d := Drawn(context.hash, context.blockSize, context.resultSize, s, numBytes).1;
    ReseedSized(context.hash, context.blockSize, context.resultSize, d, 0x00, []);
  }

  ghost predicate ReseedOk(context: HashContext, d: KV) {
    |d.k| <= context.blockSize &&
    |Mac(context.hash, context.blockSize, d.k, d.v + [0x00] + ([] + []))| <= context.blockSize
  }

  /** Objects that are no arrays of the curve. */
  ghost predicate Apart(objects: set<object>, curve: Curve) {
    objects !! {curve.p, curve.n, curve.gx, curve.gy}
  }

  lemma LengthOfOrder(curve: Curve, p: nat, n: nat, gx: nat, gy: nat)
    requires CurveOk(curve, p, n, gx, gy)
    ensures WORD_BITS * (curve.numWords - 1) < curve.numNBits <= WORD_BITS * curve.numWords
  {
    LengthInWords(curve.numNBits);
    hide WordsFor, Val, Pow2, Place, B, WORD_BITS;
  }

  lemma LengthInWords(nBits: nat)
    requires nBits > 0
    ensures var words := WordsFor((nBits + 7) / 8); WORD_BITS * (words - 1) < nBits <= WORD_BITS * words
  {
    WordsForBound((nBits + 7) / 8);
    hide WordsFor;
    var words := WordsFor((nBits + 7) / 8);
    assert WORD_BITS * words == 8 * (WORD_SIZE * words);
    assert WORD_BITS * (words - 1) == 8 * (WORD_SIZE * (words - 1));
    MulDist(WORD_SIZE, words, -1);
  }

  /** Every blinding factor is in range and has an array of its own. */
  ghost predicate RandomsOk(rngs: seq<Random>, curve: Curve, n: nat, objects: set<object>)
    reads set r | r in rngs && r.Chosen? :: r.words
  {
    |rngs| == MAX_TRIES &&
    forall r :: r in rngs ==> RandomOk(r, curve, n) && (r.Chosen? ==> (r.words as object) !in objects)
  }

  /** The loop over the tries, on given words for the nonce. */
  method Tries(context: HashContext, t: array<Word>, privateKey: seq<Byte>, messageHash: seq<Byte>, rngs: seq<Random>,
               signature: array<Byte>, curve: Curve, ghost p: nat, ghost n: nat, ghost gx: nat, ghost gy: nat)
    returns (ok: bool, ghost tries: nat)
    requires context.Valid() && CurveOk(curve, p, n, gx, gy) && IsPrime(p) && IsPrime(n)
    requires RandomsOk(rngs, curve, n, {context, context.tmp, signature, t})
    requires Apart({context, context.tmp, signature, t}, curve) && Buf(t, curve)
    requires (t as object) !in {context as object, context.tmp, signature} &&
             (signature as object) !in {context as object, context.tmp}
    requires |privateKey| == (curve.numNBits + 7) / 8 && curve.numBytes <= |privateKey| &&
             signature.Length == 2 * curve.numBytes
    requires context.State() == TryState(context, privateKey, messageHash, curve, 0)
    modifies context, context.tmp, t, signature
    ensures tries <= MAX_TRIES && (ok <==> tries < MAX_TRIES)
    ensures forall i :: 0 <= i < tries ==> !TrySigns(context, privateKey, messageHash, rngs, curve, p, n, gx, gy, i)
    ensures ok ==> TrySigns(context, privateKey, messageHash, rngs, curve, p, n, gx, gy, tries) &&
                   IsSignature(signature[..], privateKey, messageHash,
                               TryNonce(context, privateKey, messageHash, curve, tries),
                               curve, p, n, gx, gy)
  {
    hide CurveOk, IsPrime, TrySigns, IsSignature, TryNonce, TryState, IsHash;
    CurveLength(curve, p, n, gx, gy);
    tries := 0;
    var i := 0;
    while i < MAX_TRIES
      invariant 0 <= i == tries <= MAX_TRIES && CurveOk(curve, p, n, gx, gy)
      invariant RandomsOk(rngs, curve, n, {context, context.tmp, signature, t})
      invariant context.State() == TryState(context, privateKey, messageHash, curve, tries)
      invariant forall i :: 0 <= i < tries ==> !TrySigns(context, privateKey, messageHash, rngs, curve, p, n, gx, gy, i)
    {
      var rng := rngs[i];
      assert rng in rngs;
      ok := Try(context, t, privateKey, messageHash, rng, signature, curve, rngs, tries, p, n, gx, gy);
      if ok { return; }
      i := i + 1;
      tries := tries + 1;
    }
    ok := false;
  }

  lemma CurveLength(curve: Curve, p: nat, n: nat, gx: nat, gy: nat)
    requires CurveOk(curve, p, n, gx, gy)
    ensures curve.numNBits > 0 && 0 < curve.numWords <= MAX_WORDS
  {
  }

  /** uECC_sign_deterministic: the signature of the first of the nonces that gives one. */
  method SignDeterministic(privateKey: seq<Byte>, messageHash: seq<Byte>, context: HashContext, rngs: seq<Random>,
                           signature: array<Byte>, curve: Curve, ghost p: nat, ghost n: nat, ghost gx: nat,
                           ghost gy: nat)
    returns (ok: bool, ghost tries: nat)
    requires context.Valid() && CurveOk(curve, p, n, gx, gy) && IsPrime(p) && IsPrime(n)
    requires RandomsOk(rngs, curve, n, {context, context.tmp, signature})
    requires Apart({context, context.tmp, signature}, curve) &&
             (signature as object) !in {context as object, context.tmp}
    requires |privateKey| == (curve.numNBits + 7) / 8 && curve.numBytes <= |privateKey| &&
             signature.Length == 2 * curve.numBytes
    modifies context, context.tmp, signature
    ensures tries <= MAX_TRIES && (ok <==> tries < MAX_TRIES)
    ensures forall i :: 0 <= i < tries ==> !TrySigns(context, privateKey, messageHash, rngs, curve, p, n, gx, gy, i)
    ensures ok ==> TrySigns(context, privateKey, messageHash, rngs, curve, p, n, gx, gy, tries) &&
                   IsSignature(signature[..], privateKey, messageHash,
                               TryNonce(context, privateKey, messageHash, curve, tries),
                               curve, p, n, gx, gy)
  {
    CurveLength(curve, p, n, gx, gy);
    hide CurveOk, IsPrime, TrySigns, IsSignature, TryNonce, Seeded, IsHash;
    context.Seed(privateKey[..curve.numBytes], messageHash);
    var t := new Word[MAX_WORDS];
    FreshBuf(t, curve, p, n, gx, gy);
    ok, tries := Tries(context, t, privateKey, messageHash, rngs, signature, curve, p, n, gx, gy);
  }
}
