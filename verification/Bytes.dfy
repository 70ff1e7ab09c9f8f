/** Conversions between big-endian byte strings and word arrays. */
module Bytes {
  import opened Arith
  import opened Bits
  import opened Words
  import opened Vli

  type Byte = x: nat | x < 256

  /** The number a big-endian byte string stands for (section 2.3.8 of SEC 1). */
  function BE(s: seq<Byte>): nat {
    if |s| == 0 then 0 else BE(s[..|s| - 1]) * 256 + s[|s| - 1]
  }

  /** 256 to the power n. */
  function Place(n: nat): (r: nat)
    ensures r > 0
  {
    Pow2(8 * n)
  }

  lemma PlaceAdd(m: nat, n: nat)
    ensures Place(m + n) == Place(m) * Place(n)
  {
    Pow2Add(8 * m, 8 * n);
    assert 8 * (m + n) == 8 * m + 8 * n;
  }

  lemma PlaceOne()
    ensures Place(0) == 1 && Place(1) == 256
  {
    assert Pow2(8) == 256;
  }

  lemma {:induction false} BEBound(s: seq<Byte>)
    ensures BE(s) < Place(|s|)
  {
    if |s| > 0 {
      BEBound(s[..|s| - 1]);
      PlaceAdd(|s| - 1, 1);
      PlaceOne();
    } else {
      PlaceOne();
    }
  }

  lemma {:induction false} BEConcat(s: seq<Byte>, t: seq<Byte>)
    ensures BE(s + t) == BE(s) * Place(|t|) + BE(t)
    decreases |t|
  {
    if |t| == 0 {
      assert s + t == s;
      PlaceOne();
    } else {
      var t' := t[..|t| - 1];
      assert (s + t)[..|s + t| - 1] == s + t';
      BEConcat(s, t');
      PlaceAdd(|t| - 1, 1);
      PlaceOne();
      hide Place, BE;
      MulAssoc(BE(s), Place(|t| - 1), 256);
    }
  }

  lemma {:induction false} BEInjective(s: seq<Byte>, t: seq<Byte>)
    requires |s| == |t| && BE(s) == BE(t)
    ensures s == t
  {
    if |s| > 0 {
      BEInjective(s[..|s| - 1], t[..|t| - 1]);
      assert s == s[..|s| - 1] + [s[|s| - 1]] && t == t[..|t| - 1] + [t[|t| - 1]];
    }
  }

  /** Byte b of a number, least significant first. */
  function ByteOf(x: nat, b: nat): Byte {
    DivNonNeg(x, Place(b));
    x / Place(b) % 256
  }

  /** Byte i of a string is the byte of its number that has |s| - 1 - i bytes below it: the most significant
      byte comes first. */
  lemma {:induction false} BEByte(s: seq<Byte>, i: nat)
    requires i < |s|
    ensures ByteOf(BE(s), |s| - 1 - i) == s[i]
    decreases |s|
  {
    var n := |s| - 1;
    var t := s[..n];
    ModUnique(BE(s), 256, BE(t), s[n]);
    if i == n {
      PlaceOne();
      ModUnique(BE(s), 1, BE(s), 0);
    } else {
      hide BE, ByteOf, Place;
      BEByte(t, i);
      ByteOfDiv(BE(s), n - 1 - i);
    }
  }

  /** The low n bytes of a number, read off one by one. */
  lemma {:induction false} BEOfBytes(s: seq<Byte>, x: nat)
    requires forall i :: 0 <= i < |s| ==> s[i] == ByteOf(x, |s| - 1 - i)
    ensures BE(s) == x % Place(|s|)
    decreases |s|
  {
    var n := |s|;
    if n == 0 {
      PlaceOne();
      ModUnique(x, 1, x, 0);
    } else {
      var y := x / 256;
      var t := s[..n - 1];
      assert forall i :: 0 <= i < n - 1 ==> t[i] == ByteOf(y, n - 2 - i) by {
        forall i | 0 <= i < n - 1
          ensures t[i] == ByteOf(y, n - 2 - i)
        {
          ByteOfDiv(x, n - 2 - i);
        }
      }
      BEOfBytes(t, y);
      assert s[n - 1] == x % 256 by { PlaceOne(); ModUnique(x, 1, x, 0); }
      PlaceAdd(1, n - 1);
      PlaceOne();
      hide Place, ByteOf;
      ModOfQuotient(x, Place(n - 1));
    }
  }

  lemma ByteOfDiv(x: nat, b: nat)
    ensures ByteOf(x / 256, b) == ByteOf(x, b + 1)
  {
    PlaceAdd(1, b);
    PlaceOne();
    DivDiv(x, 256, Place(b));
  }

  lemma ModOfQuotient(x: nat, p: nat)
    requires p > 0
    ensures x % (256 * p) == 256 * ((x / 256) % p) + x % 256
  {
    var y := x / 256;
    DivModDef(y, p);
    MulAssoc(256, p, y / p);
    ModUnique(x, 256 * p, y / p, 256 * (y % p) + x % 256);
  }

  //
  // Words to bytes
  //

  lemma BaseIsPlace(r: nat)
    requires r <= WORD_SIZE
    ensures B == Place(r) * Place(WORD_SIZE - r)
  {
    BaseDef();
    PlaceAdd(r, WORD_SIZE - r);
  }

  /** The word that holds byte b of a number, and the position of the byte in that word. */
  function WordOf(b: nat): nat {
    DivNonNeg(b, WORD_SIZE);
    b / WORD_SIZE
  }

  function PosOf(b: nat): nat {
    b % WORD_SIZE
  }

  lemma BytePosition(b: nat)
    ensures PosOf(b) < WORD_SIZE && Place(b) == Pow(WordOf(b)) * Place(PosOf(b))
    ensures Place(b + 1) == Pow(WordOf(b)) * Place(PosOf(b) + 1)
  {
    var w, r := WordOf(b), PosOf(b);
    DivModDef(b, WORD_SIZE);
    PowIsPlace(w);
    hide Place, Pow, WordOf, PosOf;
    PlaceAdd(WORD_SIZE * w, r);
    PlaceAdd(WORD_SIZE * w, r + 1);
  }

  lemma PowIsPlace(n: nat)
    ensures Pow(n) == Place(WORD_SIZE * n)
  {
    PowIsPow2(n);
    MulAssoc(8, WORD_SIZE, n);
  }

  lemma WordOfBound(b: nat, n: nat)
    requires b < WORD_SIZE * n
    ensures WordOf(b) < n
  {
    DivModDef(b, WORD_SIZE);
    if b / WORD_SIZE >= n { MulMono(WORD_SIZE, n, b / WORD_SIZE); }
  }

  /** Byte b of a word array is a byte of its word. */
  lemma WordByte(s: seq<Word>, b: nat)
    requires WordOf(b) < |s|
    ensures ByteOf(Val(s), b) == ByteOf(s[WordOf(b)], PosOf(b))
  {
    hide Val, Pow, B, Place, WordOf, PosOf, WORD_SIZE;
    var w, r := WordOf(b), PosOf(b);
    BytePosition(b);
    BaseIsPlace(r);
    PlaceAdd(1, WORD_SIZE - r - 1);
    PlaceOne();
    ValSplit(s, w);
    ValCons(s, w);
    ValBound(s[..w]);
    var hi := Val(s[w + 1..]);
    ModUnique(Val(s), Pow(w), s[w] + B * hi, Val(s[..w]));
    DivDiv(Val(s), Pow(w), Place(r));
    LowByte(s[w], hi, Place(r), Place(WORD_SIZE - r - 1));
  }

  lemma LowByte(x: nat, hi: nat, p: nat, q: nat)
    requires p > 0
    ensures ((x + (p * (256 * q)) * hi) / p) % 256 == (x / p) % 256
  {
    var h := q * hi;
    assert (p * (256 * q)) * hi == p * (256 * h) by { MulAssoc(p, 256 * q, hi); MulAssoc(256, q, hi); }
    ShiftedDiv(x, p, 256 * h);
    DivModDef(x / p, 256);
    ModUnique(x / p + 256 * h, 256, (x / p) / 256 + h, (x / p) % 256);
  }

  /** bytes[off..off+numBytes] = the low bytes of native, most significant first. */
  method NativeToBytes(bytes: array<Byte>, off: nat, numBytes: nat, native: array<Word>)
    requires off + numBytes <= bytes.Length && numBytes <= WORD_SIZE * native.Length
    modifies bytes
    ensures BE(bytes[off..off + numBytes]) == Val(native[..]) % Place(numBytes)
    ensures bytes[..off] == old(bytes[..off]) && bytes[off + numBytes..] == old(bytes[off + numBytes..])
  {
    hide Val, BE, Place, ByteOf, WordOf, PosOf;
    ghost var x := Val(native[..]);
    ghost var written: seq<Byte> := [];
    var i := 0;
    while i < numBytes
      invariant 0 <= i <= numBytes
      invariant |written| == i && forall j :: 0 <= j < i ==> written[j] == ByteOf(x, numBytes - 1 - j)
      invariant bytes[off..off + i] == written
      invariant bytes[..off] == old(bytes[..off]) && bytes[off + numBytes..] == old(bytes[off + numBytes..])
    {
      var b := numBytes - 1 - i;
      WordOfBound(b, native.Length);
      WordByte(native[..], b);
      bytes[off + i] := ByteOf(native[WordOf(b)], PosOf(b));
      written := written + [bytes[off + i]];
      i := i + 1;
    }
    BEOfBytes(written, x);
  }

  //
  // Bytes to words
  //

  /** The number of words that hold numBytes bytes. */
  function WordsFor(numBytes: nat): nat {
    DivNonNeg(numBytes + (WORD_SIZE - 1), WORD_SIZE);
    (numBytes + (WORD_SIZE - 1)) / WORD_SIZE
  }

  lemma WordsForBound(numBytes: nat)
    ensures numBytes <= WORD_SIZE * WordsFor(numBytes) < numBytes + WORD_SIZE
  {
    DivModDef(numBytes + (WORD_SIZE - 1), WORD_SIZE);
  }

  /** A byte shifted to position r of a word. */
  lemma ByteShift(byte: Byte, r: nat)
    requires r < WORD_SIZE
    ensures byte < B && Shl(byte, 8 * r) == byte * Place(r) && byte * Place(r) < Place(r + 1) <= B
  {
    BaseFacts();
    BaseIsPlace(r + 1);
    PlaceAdd(r, 1);
    PlaceOne();
    assert Place(r) == Pow2(8 * r);
    hide B, Pow2, Place, Shl;
    ShiftRoom(byte, Place(r), Place(r + 1), B, Place(WORD_SIZE - (r + 1)));
    ShlSmall(byte, 8 * r);
  }

  lemma ShiftRoom(byte: Byte, p: nat, q: nat, b: nat, t: nat)
    requires t > 0 && q > 0 && p > 0 && q == p * 256 && b == q * t
    ensures byte * p < q <= b
  {
    MulAtLeast(q, t);
    MulMono(p, byte, 255);
  }

  /** When the low bytes of a number up to byte b are zero, so are those of the word of b. */
  lemma LowBytesZero(s: seq<Word>, x: nat, b: nat)
    requires WordOf(b) < |s| && Val(s) == x * Place(b + 1)
    ensures s[WordOf(b)] % Place(PosOf(b) + 1) == 0
  {
    hide Val, Pow, B, Place, WordOf, PosOf, WORD_SIZE;
    var w, r := WordOf(b), PosOf(b);
    BytePosition(b);
    BaseIsPlace(r + 1);
    ValSplit(s, w);
    ValCons(s, w);
    ValBound(s[..w]);
    LowZeroAlgebra(s[w], Val(s[w + 1..]), Val(s[..w]), x, Pow(w), Place(r + 1), Place(WORD_SIZE - (r + 1)));
  }

  lemma LowZeroAlgebra(y: nat, hi: nat, lo: nat, x: nat, p: nat, q: nat, t: nat)
    requires lo < p && q > 0 && lo + p * (y + (q * t) * hi) == x * (p * q)
    ensures y % q == 0
  {
    MulSwap(x, p, q);
    MulAssoc(p, x, q);
    QuotientUnique(p, y + (q * t) * hi, lo, x * q, 0);
    MulAssoc(q, t, hi);
    MulDist(q, x, -(t * hi));
    MulNeg(q, t * hi);
    ModOfMultiple(x - t * hi, q);
  }

  /** The word of byte b with one more byte filled in. */
  function Filled(y: Word, byte: Byte, b: nat): nat {
    BaseFacts();
    Or(y, Shl(byte, 8 * PosOf(b)))
  }

  /** Placing one more byte below the bytes already there. */
  lemma PlaceByte(s: seq<Word>, x: nat, byte: Byte, b: nat)
    requires WordOf(b) < |s| && Val(s) == x * Place(b + 1)
    ensures var w := WordOf(b);
            Filled(s[w], byte, b) < B && Val(s[w := Filled(s[w], byte, b)]) == (x * 256 + byte) * Place(b)
  {
    var w, r := WordOf(b), PosOf(b);
    BytePosition(b);
    LowBytesZero(s, x, b);
    ByteShift(byte, r);
    assert B == Pow2(WORD_BITS) by { BaseDef(); }
    assert Place(r + 1) == Pow2(8 * (r + 1));
    hide WordOf, PosOf, Val, Pow, B, Or, Shl, Place, Pow2;
    var add := byte * Place(r);
    OrDisjoint(s[w], add, 8 * (r + 1));
    OrBound(s[w], add, WORD_BITS);
    assert Filled(s[w], byte, b) == s[w] + add;
    ValReplace(s, w, s[w] + add);
    PlaceAdd(1, b);
    PlaceOne();
    PlaceAlgebra(x, byte, Pow(w), Place(r), Place(b), s[w]);
  }

  lemma PlaceAlgebra(x: nat, byte: nat, p: nat, q: nat, b: nat, y: nat)
    requires b == p * q
    ensures x * (256 * b) + p * (y + byte * q) - p * y == (x * 256 + byte) * b
  {
    MulDist(p, y, byte * q);
    MulSwap(p, byte, q);
    MulAssoc(byte, p, q);
    MulAssoc(x, 256, b);
    MulDist(b, x * 256, byte);
  }

  /** native = the big-endian number in bytes. */
  method BytesToNative(native: array<Word>, bytes: seq<Byte>)
    requires WordsFor(|bytes|) <= native.Length
    modifies native
    ensures V(native, WordsFor(|bytes|)) == BE(bytes)
    ensures native[WordsFor(|bytes|)..] == old(native[WordsFor(|bytes|)..])
  {
    hide Val, BE, Place, WordsFor, WordOf, PosOf, Filled, B;
    var numBytes := |bytes|;
    var words := WordsFor(numBytes);
    WordsForBound(numBytes);
    Clear(native, words);
    PlaceZero(numBytes);
    assert bytes[..0] == [];
    var i := 0;
    while i < numBytes
      invariant 0 <= i <= numBytes
      invariant V(native, words) == BE(bytes[..i]) * Place(numBytes - i)
      invariant native[words..] == old(native[words..])
    {
      var b := numBytes - 1 - i;
      WordOfBound(b, words);
      var w := WordOf(b);
      ghost var s := native[..words];
      PlaceByte(s, BE(bytes[..i]), bytes[i], b);
      native[w] := Filled(native[w], bytes[i], b);
      assert native[..words] == s[w := native[w]];
      BEPush(bytes, i);
      i := i + 1;
    }
    assert bytes[..numBytes] == bytes;
    PlaceOne();
  }

  lemma PlaceZero(n: nat)
    ensures BE([]) * Place(n) == 0
  {
    assert BE([]) == 0;
    assert 0 * Place(n) == 0;
  }

  lemma BEPush(s: seq<Byte>, i: nat)
    requires i < |s|
    ensures BE(s[..i + 1]) == BE(s[..i]) * 256 + s[i]
  {
    assert s[..i + 1][..i] == s[..i];
  }

  /** Writing a number that was read from bytes gives the bytes back. */
  method RoundTrip(bytes: seq<Byte>) returns (copy: seq<Byte>)
    ensures copy == bytes
  {
    hide Val, BE, Place, WordsFor;
    var words := WordsFor(|bytes|);
    WordsForBound(|bytes|);
    var native := new Word[words];
    BytesToNative(native, bytes);
    assert native[..words] == native[..];
    var buffer := new Byte[|bytes|];
    NativeToBytes(buffer, 0, |bytes|, native);
    BEBound(bytes);
    ModSmall(BE(bytes), Place(|bytes|));
    assert buffer[..] == buffer[0..|bytes|];
    BEInjective(buffer[..], bytes);
    copy := buffer[..];
  }
}
