/** The hash-to-integer conversion of the signature code. */
module BitsToInt {
  import opened Arith
  import opened Bits
  import opened Words
  import opened Vli
  import opened VliMod
  import opened Bytes

  /** The number made of the leftmost count bits of a byte string (section 2.3.2 of RFC 6979). */
  function LeftBits(s: seq<Byte>, count: nat): nat {
    if 8 * |s| <= count then BE(s) else
      DivNonNeg(BE(s), Pow2(8 * |s| - count));
      BE(s) / Pow2(8 * |s| - count)
  }

  /** The leftmost bits are found in the leading bytes. */
  lemma LeftBitsPrefix(s: seq<Byte>, k: nat, count: nat)
    requires k <= |s| && count <= 8 * k
    ensures LeftBits(s, count) == LeftBits(s[..k], count)
  {
    assert s == s[..k] + s[k..];
    var t, u := |s| - k, 8 * k - count;
    BEConcat(s[..k], s[k..]);
    BEBound(s[k..]);
    assert Place(t) == Pow2(8 * t);
    assert Pow2(8 * |s| - count) == Place(t) * Pow2(u) by { Pow2Add(8 * t, u); }
    LeftBitsDiv(s, count);
    LeftBitsDiv(s[..k], count);
    hide LeftBits, BE, Place, Pow2;
    PrefixDiv(BE(s[..k]), BE(s[k..]), Place(t), Pow2(u));
  }

  /** The definition, without the case distinction. */
  lemma LeftBitsDiv(s: seq<Byte>, count: nat)
    requires count <= 8 * |s|
    ensures LeftBits(s, count) == BE(s) / Pow2(8 * |s| - count)
  {
    assert Pow2(0) == 1;
    hide BE;
    ModUnique(BE(s), 1, BE(s), 0);
  }

  lemma PrefixDiv(x: nat, y: nat, p: nat, q: nat)
    requires q > 0 && y < p
    ensures p * q > 0 && (x * p + y) / (p * q) == x / q
  {
    ModUnique(x * p + y, p, x, y);
    DivDiv(x * p + y, p, q);
  }

  lemma LeftBitsBound(s: seq<Byte>, count: nat)
    ensures LeftBits(s, count) < Pow2(count)
  {
    BEBound(s);
    assert Place(|s|) == Pow2(8 * |s|);
    if 8 * |s| <= count {
      Pow2Mono(8 * |s|, count);
    } else {
      var k := 8 * |s| - count;
      Pow2Add(k, count);
      hide Pow2, BE, Place;
      DivModDef(BE(s), Pow2(k));
      if BE(s) / Pow2(k) >= Pow2(count) { MulMono(Pow2(k), Pow2(count), BE(s) / Pow2(k)); }
    }
  }

  //
  // Shifting a word array right by several bits
  //

  /** The words above i are shifted, and the bits that fell out of them wait in the carry. */
  ghost predicate DownInv(s: seq<Word>, k: nat, shifted: seq<Word>, i: nat, carry: Word)
  {
    i <= |s| && |shifted| == |s| - i && 0 < k < WORD_BITS &&
    exists rest: nat :: FallenOut(s, k, shifted, i, carry, rest)
  }

  ghost predicate FallenOut(s: seq<Word>, k: nat, shifted: seq<Word>, i: nat, carry: Word, rest: nat)
    requires i <= |s| && k <= WORD_BITS
  {
    rest < Pow2(k) && carry == Pow2(WORD_BITS - k) * rest && Pow2(k) * Val(shifted) + rest == Val(s[i..])
  }

  lemma DownStart(s: seq<Word>, k: nat)
    requires 0 < k < WORD_BITS
    ensures DownInv(s, k, [], |s|, 0)
  {
    assert FallenOut(s, k, [], |s|, 0, 0);
  }

  lemma DownStep(s: seq<Word>, k: nat, shifted: seq<Word>, i: nat, carry: Word)
    requires i < |s| && DownInv(s, k, shifted, i + 1, carry)
    ensures Or(Shr(s[i], k), carry) < B
    ensures DownInv(s, k, [Or(Shr(s[i], k), carry)] + shifted, i, Shl(s[i], WORD_BITS - k))
  {
    hide Pow2, B, Or, Shl, Shr, Val, WORD_BITS;
    var rest: nat :| FallenOut(s, k, shifted, i + 1, carry, rest);
    var x := s[i];
    ShlSplit(x, WORD_BITS - k);
    SplitBase(k);
    var low := LowPart(x, k);
    var p, q, h := Pow2(k), Pow2(WORD_BITS - k), Shr(x, k);
    LowToTop(p, q, h, low, Shl(x, WORD_BITS - k));
    ShiftedRoom(p, q, h, low, rest);
    assert Or(h, carry) == h + carry by {
      ModOfMultiple(rest, q);
      OrSymmetric(h, carry);
      OrDisjoint(carry, h, WORD_BITS - k);
    }
    var shifted' := [Or(h, carry)] + shifted;
    assert shifted'[1..] == shifted;
    ValHead(shifted');
    ValCons(s, i);
    DownAlgebra(p, q, h, low, rest, Val(shifted));
    assert FallenOut(s, k, shifted', i, Shl(x, WORD_BITS - k), low);
  }

  lemma SplitBase(k: nat)
    requires k <= WORD_BITS
    ensures B == Pow2(k) * Pow2(WORD_BITS - k)
  {
    BaseDef();
    Pow2Add(k, WORD_BITS - k);
  }

  lemma LowPart(x: Word, k: nat) returns (low: nat)
    requires k <= WORD_BITS
    ensures x == Pow2(k) * Shr(x, k) + low && low < Pow2(k)
  {
    low := x % Pow2(k);
    DivModDef(x, Pow2(k));
  }

  lemma LowToTop(p: nat, q: nat, h: nat, low: nat, top: nat)
    requires q * (p * h + low) == top + (p * q) * h
    ensures top == q * low
  {
    MulDist(q, p * h, low);
    MulAssoc(q, p, h);
  }

  lemma ShiftedRoom(p: nat, q: nat, h: nat, low: nat, rest: nat)
    requires p * h + low < p * q && rest < p
    ensures h < q && h + q * rest < p * q
  {
    if h >= q { MulMono(p, q, h); }
    MulMono(q, rest, p - 1);
    MulDist(q, p, -1);
  }

  lemma ValHead(s: seq<Word>)
    requires |s| > 0
    ensures Val(s) == s[0] + B * Val(s[1..])
  {
  }

  lemma DownAlgebra(p: nat, q: nat, h: nat, low: nat, rest: nat, above: nat)
    ensures p * ((h + q * rest) + (p * q) * above) + low == (p * h + low) + (p * q) * (p * above + rest)
  {
    MulDist3(p, h, q * rest, (p * q) * above);
    MulAssoc(p, q, rest);
    MulDist(p * q, p * above, rest);
    MulSwap(p, p * q, above);
    MulAssoc(p * q, p, above);
  }

  lemma DownEnd(s: seq<Word>, k: nat, shifted: seq<Word>, carry: Word)
    requires DownInv(s, k, shifted, 0, carry)
    ensures 0 <= Val(s) / Pow2(k) == Val(shifted)
  {
    assert s[0..] == s;
    var rest: nat :| FallenOut(s, k, shifted, 0, carry, rest);
    hide Pow2, Val;
    ModUnique(Val(s), Pow2(k), Val(shifted), rest);
  }

  /** native = native >> shift. */
  method ShiftDown(native: array<Word>, n: nat, shift: nat)
    requires n <= native.Length && 0 < shift < WORD_BITS
    modifies native
    ensures 0 <= old(V(native, n)) / Pow2(shift) == V(native, n)
    ensures native[n..] == old(native[n..])
  {
    hide Val, Pow2, B, Or, Shl, Shr, DownInv;
    ghost var s := native[..n];
    ghost var shifted: seq<Word> := [];
    var carry: Word := 0;
    DownStart(s, shift);
    var i := n;
    while i > 0
      invariant 0 <= i <= n
      invariant native[..i] == s[..i] && native[i..n] == shifted
      invariant native[n..] == old(native[n..])
      invariant DownInv(s, shift, shifted, i, carry)
    {
      i := i - 1;
      DownStep(s, shift, shifted, i, carry);
      var temp := native[i];
      assert temp == s[i];
      native[i] := Or(Shr(temp, shift), carry);
      carry := Shl(temp, WORD_BITS - shift);
      shifted := [native[i]] + shifted;
    }
    assert native[..n] == native[0..n];
    DownEnd(s, shift, shifted, carry);
  }

  /** native = the leftmost nBits bits of the hash, less the modulus when the hash was long enough
      to be shifted and the shifted number is not below it. */
  method BitsToNative(native: array<Word>, bits: seq<Byte>, mod: array<Word>, nBits: nat)
    requires nBits > 0 && WordsFor((nBits + 7) / 8) <= native.Length && WordsFor((nBits + 7) / 8) <= mod.Length
    requires native != mod && IsBitLength(V(mod, WordsFor((nBits + 7) / 8)), nBits)
    modifies native
    ensures var words := WordsFor((nBits + 7) / 8);
            var e, m := LeftBits(bits, nBits), V(mod, words);
            V(native, words) == (if 8 * |bits| > nBits && nBits % 8 != 0 && e >= m then e - m else e)
    ensures native[WordsFor((nBits + 7) / 8)..] == old(native[WordsFor((nBits + 7) / 8)..])
  {
    hide Val, Pow2, BE, WordsFor, LeftBits;
    var numBytes := (nBits + 7) / 8;
    var words := WordsFor(numBytes);
    var bitsSize := if |bits| > numBytes then numBytes else |bits|;
    var head := bits[..bitsSize];
    assert LeftBits(bits, nBits) == LeftBits(head, nBits) by {
      if |bits| > numBytes { LeftBitsPrefix(bits, numBytes, nBits); } else { assert head == bits; }
    }
    assert bitsSize <= WORD_SIZE * words by { WordsForBound(numBytes); }
    Clear(native, words);
    BytesToWide(native, head, words);
    if bitsSize * 8 <= nBits {
      LeftBitsShort(head, nBits);
      return;
    }
    var shift := bitsSize * 8 - nBits;
    ShiftDown(native, words, shift);
    LeftBitsLong(head, nBits);
    var c := CmpUnsafe(mod, native, words);
    if c != 1 {
      var borrow := Sub(native, native, mod, words);
      ValBound(native[..words]);
      ValBound(mod[..words]);
      NoBorrow(Pow(words), LeftBits(head, nBits), V(mod, words), V(native, words), borrow);
    }
  }

  lemma LeftBitsShort(s: seq<Byte>, count: nat)
    requires 8 * |s| <= count
    ensures LeftBits(s, count) == BE(s)
  {
  }

  lemma LeftBitsLong(s: seq<Byte>, count: nat)
    requires 8 * |s| > count
    ensures LeftBits(s, count) == BE(s) / Pow2(8 * |s| - count)
  {
  }

  lemma NoBorrow(p: nat, x: nat, m: nat, r: nat, borrow: nat)
    requires x >= m && r < p && borrow <= 1 && r - p * borrow == x - m
    ensures r == x - m
  {
  }

  /** Reads bytes into the low words of a cleared array. */
  method BytesToWide(native: array<Word>, bytes: seq<Byte>, words: nat)
    requires words <= native.Length && |bytes| <= WORD_SIZE * words && V(native, words) == 0
    modifies native
    ensures V(native, words) == BE(bytes) && native[words..] == old(native[words..])
  {
    hide Val, BE, WordsFor;
    ghost var k := WordsFor(|bytes|);
    WordsForLeast(|bytes|, words);
    ghost var high := native[k..words];
    assert forall i :: 0 <= i < words - k ==> high[i] == 0 by {
      ValIsZero(native[..words]);
      assert forall i :: 0 <= i < words - k ==> high[i] == native[..words][k + i];
    }
    assert native[k..][..words - k] == high && native[k..][words - k..] == native[words..];
    BytesToNative(native, bytes);
    assert native[k..][..words - k] == native[k..words] && native[k..][words - k..] == native[words..];
    assert native[..words][..k] == native[..k] && native[..words][k..] == native[k..words];
    ValSplit(native[..words], k);
    ValZeros(high);
    assert Pow(k) * 0 == 0;
  }

  lemma WordsForLeast(numBytes: nat, words: nat)
    requires numBytes <= WORD_SIZE * words
    ensures WordsFor(numBytes) <= words
  {
    WordsForBound(numBytes);
    hide WordsFor;
    if WordsFor(numBytes) > words { MulMono(WORD_SIZE, words + 1, WordsFor(numBytes)); MulDist(WORD_SIZE, words, 1); }
  }
}
