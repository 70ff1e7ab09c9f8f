/** HMAC on the overlapping scratch buffer, and the deterministic nonces drawn from it. */
module Hmac {
  import opened Arith
  import opened Bits
  import opened Bytes

  type HashFunction = seq<Byte> -> seq<Byte>

  /** A hash function with results of size bytes. */
  ghost predicate IsHash(hash: HashFunction, size: nat) {
    forall m :: |hash(m)| == size
  }

  function XorByte(x: Byte, y: Byte): Byte {
    assert x < Pow2(8) && y < Pow2(8) by { assert Pow2(4) == 16; Pow2Add(4, 4); }
    XorBound(x, y, 8);
    assert Pow2(8) == 256 by { assert Pow2(4) == 16; Pow2Add(4, 4); }
    Xor(x, y)
  }

  /** Bit by bit, one bit flips the other. */
  lemma XorByteBit(x: Byte, y: Byte, i: nat)
    ensures Bit(XorByte(x, y), i) <==> Bit(x, i) != Bit(y, i)
  {
    hide Bit, Xor;
    XorBit(x, y, i);
  }

  lemma {:induction false} XorZero(y: nat)
    ensures Xor(0, y) == y
  {
    if y > 0 { XorZero(y / 2); }
  }

  //
  // RFC 2104 and RFC 6979
  //

  /** The key, extended with zeros to the block size. */
  function BlockKey(key: seq<Byte>, blockSize: nat): seq<Byte>
    requires |key| <= blockSize
  {
    key + seq(blockSize - |key|, _ => 0)
  }

  function XorAll(s: seq<Byte>, x: Byte): (r: seq<Byte>)
    ensures |r| == |s|
  {
    seq(|s|, i requires 0 <= i < |s| => XorByte(s[i], x))
  }

  /** H((K ^ opad) || H((K ^ ipad) || text)), section 2 of RFC 2104. */
  function Mac(hash: HashFunction, blockSize: nat, key: seq<Byte>, text: seq<Byte>): seq<Byte>
    requires |key| <= blockSize
  {
    var k := BlockKey(key, blockSize);
    hash(XorAll(k, 0x5c) + hash(XorAll(k, 0x36) + text))
  }

  /** The key, continued with zeros, with the bits of x flipped in every byte of a block. */
  ghost predicate Flipped(pad: seq<Byte>, key: seq<Byte>, x: Byte, blockSize: nat) {
    |pad| == blockSize &&
    forall i, j :: 0 <= i < blockSize && 0 <= j < 8 ==>
      (Bit(pad[i], j) <==> Bit(if i < |key| then key[i] else 0, j) != Bit(x, j))
  }

  lemma SameByte(a: Byte, b: Byte)
    requires forall j :: 0 <= j < 8 ==> (Bit(a, j) <==> Bit(b, j))
    ensures a == b
  {
    assert Pow2(8) == 256 by { assert Pow2(4) == 16; Pow2Add(4, 4); }
    hide Bit, Pow2;
    BitsEqual(a, b, 8);
  }

  lemma FlippedIs(pad: seq<Byte>, key: seq<Byte>, x: Byte, blockSize: nat)
    requires |key| <= blockSize && Flipped(pad, key, x, blockSize)
    ensures pad == XorAll(BlockKey(key, blockSize), x)
  {
    hide XorByte, Bit;
    var k, all := BlockKey(key, blockSize), XorAll(BlockKey(key, blockSize), x);
    forall i | 0 <= i < blockSize
      ensures pad[i] == all[i]
    {
      forall j | 0 <= j < 8
        ensures Bit(pad[i], j) <==> Bit(all[i], j)
      {
        XorByteBit(k[i], x, j);
      }
      SameByte(pad[i], all[i]);
    }
  }

  /** What the code is, from what the hash function is fed: the key with the bits of 0x36 flipped and the text,
      and then the key with the bits of 0x5c flipped and the first result. */
  lemma MacIs(hash: HashFunction, blockSize: nat, key: seq<Byte>, text: seq<Byte>, inner: seq<Byte>, outer: seq<Byte>)
    requires |key| <= blockSize && Flipped(inner, key, 0x36, blockSize) && Flipped(outer, key, 0x5c, blockSize)
    ensures Mac(hash, blockSize, key, text) == hash(outer + hash(inner + text))
  {
    FlippedIs(inner, key, 0x36, blockSize);
    FlippedIs(outer, key, 0x5c, blockSize);
    hide XorByte, Bit, XorAll, BlockKey, Flipped;
  }

  /** K and V of section 3.2 of RFC 6979. */
  datatype KV = KV(k: seq<Byte>, v: seq<Byte>)

  ghost predicate Sized(s: KV, size: nat) {
    |s.k| == size && |s.v| == size
  }

  /** Steps d and e, f and g, and the retry of step h: a new K from V, a separator and data, and
      the next V. */
  function Reseed(hash: HashFunction, blockSize: nat, s: KV, separator: Byte, extra: seq<Byte>): KV
    requires |s.k| <= blockSize && |Mac(hash, blockSize, s.k, s.v + [separator] + extra)| <= blockSize
  {
    var k := Mac(hash, blockSize, s.k, s.v + [separator] + extra);
    KV(k, Mac(hash, blockSize, k, s.v))
  }

  lemma ReseedSized(hash: HashFunction, blockSize: nat, size: nat, s: KV, separator: Byte, extra: seq<Byte>)
    requires IsHash(hash, size) && size <= blockSize && Sized(s, size)
    ensures |Mac(hash, blockSize, s.k, s.v + [separator] + extra)| == size
    ensures Sized(Reseed(hash, blockSize, s, separator, extra), size)
  {
  }

  /** K all zeros and V all ones. */
  function Blank(size: nat): KV {
    KV(seq(size, _ => 0), seq(size, _ => 1))
  }

  /** Steps b to g: x is the private key as given, h the hash of the message as given. */
  ghost function Seeded(hash: HashFunction, blockSize: nat, size: nat, x: seq<Byte>, h: seq<Byte>): (s: KV)
    requires IsHash(hash, size) && size <= blockSize
    ensures Sized(s, size)
  {
    ReseedSized(hash, blockSize, size, Blank(size), 0x00, x + h);
    var first := Reseed(hash, blockSize, Blank(size), 0x00, x + h);
    ReseedSized(hash, blockSize, size, first, 0x01, x + h);
    Reseed(hash, blockSize, first, 0x01, x + h)
  }

  /** The schedule before the first nonce, value by value. */
  lemma SeededIs(hash: HashFunction, blockSize: nat, size: nat, x: seq<Byte>, h: seq<Byte>,
                 zeros: seq<Byte>, ones: seq<Byte>, k1: seq<Byte>, v1: seq<Byte>, k2: seq<Byte>, v2: seq<Byte>)
    requires IsHash(hash, size) && size <= blockSize && |zeros| == |ones| == size
    requires forall i :: 0 <= i < size ==> zeros[i] == 0x00 && ones[i] == 0x01
    requires k1 == Mac(hash, blockSize, zeros, ones + [0x00] + x + h) && |k1| <= blockSize
    requires v1 == Mac(hash, blockSize, k1, ones)
    requires k2 == Mac(hash, blockSize, k1, v1 + [0x01] + x + h) && |k2| <= blockSize
    requires v2 == Mac(hash, blockSize, k2, v1)
    ensures Seeded(hash, blockSize, size, x, h) == KV(k2, v2)
  {
    hide Mac;
    assert zeros == Blank(size).k && ones == Blank(size).v;
    assert ones + [0x00] + x + h == ones + [0x00] + (x + h);
    assert v1 + [0x01] + x + h == v1 + [0x01] + (x + h);
    ReseedSized(hash, blockSize, size, Blank(size), 0x00, x + h);
  }

  function NextV(hash: HashFunction, blockSize: nat, s: KV): KV
    requires |s.k| <= blockSize
  {
    KV(s.k, Mac(hash, blockSize, s.k, s.v))
  }

  /** Step h.2: n bytes from successive values of V, and the state after them. */
  ghost function Drawn(hash: HashFunction, blockSize: nat, size: nat, s: KV, n: nat): (r: (seq<Byte>, KV))
    requires IsHash(hash, size) && 0 < size <= blockSize && Sized(s, size)
    ensures |r.0| == n && Sized(r.1, size)
    decreases n
  {
    if n == 0 then ([], s) else
      var s' := NextV(hash, blockSize, s);
      if n <= size then (s'.v[..n], s') else Joined(s'.v, Drawn(hash, blockSize, size, s', n - size))
  }

  function Joined(done: seq<Byte>, rest: (seq<Byte>, KV)): (seq<Byte>, KV) {
    (done + rest.0, rest.1)
  }

  /** The state after n further values of V. */
  ghost function VAfter(hash: HashFunction, blockSize: nat, size: nat, s: KV, n: nat): (r: KV)
    requires IsHash(hash, size) && 0 < size <= blockSize && Sized(s, size)
    ensures Sized(r, size)
    decreases n
  {
    if n == 0 then s else VAfter(hash, blockSize, size, NextV(hash, blockSize, s), n - 1)
  }

  /** Byte i of a nonce is byte i mod size of the value of V number i / size + 1, and the state
      afterwards is that of the last value used. */
  lemma {:induction false} DrawnBytes(hash: HashFunction, blockSize: nat, size: nat, s: KV, n: nat, i: nat)
    requires IsHash(hash, size) && 0 < size <= blockSize && Sized(s, size) && i < n
    ensures 0 <= i / size && 0 <= i % size < size
    ensures Drawn(hash, blockSize, size, s, n).0[i] == VAfter(hash, blockSize, size, s, i / size + 1).v[i % size]
    ensures i == n - 1 ==> Drawn(hash, blockSize, size, s, n).1 == VAfter(hash, blockSize, size, s, i / size + 1)
    decreases n
  {
    hide IsHash, Mac;
    DivModDef(i, size);
    DivNonNeg(i, size);
    var s' := NextV(hash, blockSize, s);
    DrawnStep(hash, blockSize, size, s, n);
    VAfterStep(hash, blockSize, size, s, i / size);
    if n <= size {
      ModSmall(i, size);
      DrawnNone(hash, blockSize, size, s');
    } else if i < size {
      ModSmall(i, size);
    } else {
      DrawnBytes(hash, blockSize, size, s', n - size, i - size);
      BackOne(i, size);
      VAfterStep(hash, blockSize, size, s, i / size);
    }
  }

  /** The values of V under a fixed key: each is the code of the one before. */
  ghost predicate Chain(hash: HashFunction, blockSize: nat, key: seq<Byte>, vs: seq<seq<Byte>>)
    requires |key| <= blockSize
  {
    forall j :: 0 <= j < |vs| - 1 ==> vs[j + 1] == Mac(hash, blockSize, key, vs[j])
  }

  lemma {:induction false} VAfterIs(hash: HashFunction, blockSize: nat, size: nat, s: KV, n: nat, vs: seq<seq<Byte>>)
    requires IsHash(hash, size) && 0 < size <= blockSize && Sized(s, size)
    requires n < |vs| && vs[0] == s.v && Chain(hash, blockSize, s.k, vs)
    ensures VAfter(hash, blockSize, size, s, n) == KV(s.k, vs[n])
    decreases n
  {
    hide IsHash, Mac;
    if n > 0 {
      VAfterStep(hash, blockSize, size, s, n - 1);
      assert vs[0 + 1] == Mac(hash, blockSize, s.k, vs[0]);
      assert Chain(hash, blockSize, s.k, vs[1..]);
      VAfterIs(hash, blockSize, size, NextV(hash, blockSize, s), n - 1, vs[1..]);
    } else {
      VAfterNone(hash, blockSize, size, s);
    }
  }

  lemma VAfterNone(hash: HashFunction, blockSize: nat, size: nat, s: KV)
    requires IsHash(hash, size) && 0 < size <= blockSize && Sized(s, size)
    ensures VAfter(hash, blockSize, size, s, 0) == s
  {
  }

  /** The bytes of a nonce, and the state after them, from the values of V. */
  lemma DrawnIs(hash: HashFunction, blockSize: nat, size: nat, s: KV, n: nat, i: nat, vs: seq<seq<Byte>>)
    requires IsHash(hash, size) && 0 < size <= blockSize && Sized(s, size) && i < n
    requires 0 <= i / size < |vs| - 1 && vs[0] == s.v && Chain(hash, blockSize, s.k, vs)
    ensures 0 <= i % size < |vs[i / size + 1]|
    ensures Drawn(hash, blockSize, size, s, n).0[i] == vs[i / size + 1][i % size]
    ensures i == n - 1 ==> Drawn(hash, blockSize, size, s, n).1 == KV(s.k, vs[i / size + 1])
  {
    DrawnBytes(hash, blockSize, size, s, n, i);
    VAfterIs(hash, blockSize, size, s, i / size + 1, vs);
    hide IsHash, Mac, Drawn, VAfter, Chain;
  }

  lemma VAfterStep(hash: HashFunction, blockSize: nat, size: nat, s: KV, n: nat)
    requires IsHash(hash, size) && 0 < size <= blockSize && Sized(s, size)
    ensures Sized(NextV(hash, blockSize, s), size)
    ensures VAfter(hash, blockSize, size, s, n + 1) == VAfter(hash, blockSize, size, NextV(hash, blockSize, s), n)
    ensures VAfter(hash, blockSize, size, NextV(hash, blockSize, s), 0) == NextV(hash, blockSize, s)
  {
  }

  lemma BackOne(i: nat, m: nat)
    requires 0 < m <= i
    ensures (i - m) / m == i / m - 1 && (i - m) % m == i % m
  {
    DivModDef(i, m);
    MulDist(m, i / m, -1);
    ModUnique(i - m, m, i / m - 1, i % m);
  }

  lemma DrawnStep(hash: HashFunction, blockSize: nat, size: nat, s: KV, n: nat)
    requires IsHash(hash, size) && 0 < size <= blockSize && Sized(s, size) && n > 0
    ensures Sized(NextV(hash, blockSize, s), size)
    ensures var s' := NextV(hash, blockSize, s);
            Drawn(hash, blockSize, size, s, n) ==
            if n <= size then Joined(s'.v[..n], Drawn(hash, blockSize, size, s', 0))
            else Joined(s'.v, Drawn(hash, blockSize, size, s', n - size))
  {
    var v := NextV(hash, blockSize, s).v;
    hide Mac;
    if n <= size { assert v[..n] + [] == v[..n]; }
  }

  lemma DrawnNone(hash: HashFunction, blockSize: nat, size: nat, s: KV)
    requires IsHash(hash, size) && 0 < size <= blockSize && Sized(s, size)
    ensures Drawn(hash, blockSize, size, s, 0) == ([], s)
  {
  }

  lemma JoinedNone(a: seq<Byte>, s: KV)
    ensures Joined(a, ([], s)) == (a, s)
  {
    assert a + [] == a;
  }

  lemma JoinedTwice(a: seq<Byte>, b: seq<Byte>, rest: (seq<Byte>, KV))
    ensures Joined(a, Joined(b, rest)) == Joined(a + b, rest) && Joined([], rest) == rest
  {
    assert a + (b + rest.0) == (a + b) + rest.0 && [] + rest.0 == rest.0;
  }

  //
  // The scratch buffer
  //

  /** uECC_HashContext. The hash function is a parameter; absorbed holds what it has been fed since
      its last initialisation. The buffer is K | V | pad, and the byte after V is the first of pad. */
  class HashContext {
    const hash: HashFunction
    const blockSize: nat
    const resultSize: nat
    const tmp: array<Byte>
    var absorbed: seq<Byte>

    ghost predicate Valid()
    {
      IsHash(hash, resultSize) && 0 < resultSize <= blockSize && tmp.Length == 2 * resultSize + blockSize
    }

    /** K and V as they are in the buffer. */
    ghost function State(): KV
      requires Valid()
      reads tmp
    {
      KV(tmp[..resultSize], tmp[resultSize..2 * resultSize])
    }

    method InitHash()
      modifies this
      ensures absorbed == []
    {
      absorbed := [];
    }

    method UpdateHash(message: seq<Byte>)
      modifies this
      ensures absorbed == old(absorbed) + message
    {
      absorbed := absorbed + message;
    }

    /** The result is written at an offset of the buffer. */
    method FinishHash(result: nat)
      requires Valid() && result + resultSize <= tmp.Length
      modifies tmp
      ensures tmp[result..result + resultSize] == hash(absorbed)
      ensures tmp[..result] == old(tmp[..result]) && tmp[result + resultSize..] == old(tmp[result + resultSize..])
    {
      var digest := hash(absorbed);
      var i := 0;
      while i < resultSize
        invariant 0 <= i <= resultSize
        invariant forall j :: 0 <= j < i ==> tmp[result + j] == digest[j]
        invariant tmp[..result] == old(tmp[..result]) && tmp[result + resultSize..] == old(tmp[result + resultSize..])
      {
        tmp[result + i] := digest[i];
        i := i + 1;
      }
    }

    /** The pad of the key in front of the buffer. */
    method FillPad(x: Byte)
      requires Valid()
      modifies tmp
      ensures tmp[2 * resultSize..] == XorAll(BlockKey(old(tmp[..resultSize]), blockSize), x)
      ensures tmp[..2 * resultSize] == old(tmp[..2 * resultSize])
    {
      hide XorByte, IsHash;
      var pad := 2 * resultSize;
      ghost var key := tmp[..resultSize];
      ghost var want := XorAll(BlockKey(key, blockSize), x);
      var i := 0;
      while i < resultSize
        invariant 0 <= i <= resultSize
        invariant tmp[..pad] == old(tmp[..pad])
        invariant forall j :: 0 <= j < i ==> tmp[pad + j] == want[j]
      {
        assert tmp[i] == key[i] by { assert tmp[..pad][i] == old(tmp[..pad])[i]; }
        tmp[pad + i] := XorByte(tmp[i], x);
        i := i + 1;
      }
      ZeroByte(x);
      while i < blockSize
        invariant resultSize <= i <= blockSize
        invariant tmp[..pad] == old(tmp[..pad])
        invariant forall j :: 0 <= j < i ==> tmp[pad + j] == want[j]
      {
        tmp[pad + i] := x;
        i := i + 1;
      }
    }

    /** HMAC_init: the key is K. */
    method HmacInit()
      requires Valid()
      modifies this, tmp
      ensures State() == old(State())
      ensures absorbed == XorAll(BlockKey(State().k, blockSize), 0x36)
    {
      hide IsHash, XorAll, BlockKey;
      FillPad(0x36);
      StateOf(tmp[..], old(tmp[..]));
      InitHash();
      UpdateHash(tmp[2 * resultSize..]);
    }

    /** The buffer in its parts. */
    lemma StateOf(s: seq<Byte>, t: seq<Byte>)
      requires 2 * resultSize <= |s| && 2 * resultSize <= |t| && s[..2 * resultSize] == t[..2 * resultSize]
      ensures s[..resultSize] == t[..resultSize]
      ensures s[resultSize..2 * resultSize] == t[resultSize..2 * resultSize]
    {
      assert s[..resultSize] == s[..2 * resultSize][..resultSize];
      assert t[..resultSize] == t[..2 * resultSize][..resultSize];
      assert s[resultSize..2 * resultSize] == s[..2 * resultSize][resultSize..];
      assert t[resultSize..2 * resultSize] == t[..2 * resultSize][resultSize..];
    }

    /** HMAC_finish with K as the key: the code of what was absorbed after HMAC_init, written over V
        or over K itself. */
    method HmacFinish(overV: bool, ghost text: seq<Byte>)
      requires Valid() && absorbed == XorAll(BlockKey(State().k, blockSize), 0x36) + text
      modifies this, tmp
      ensures var code := Mac(hash, blockSize, old(State().k), text);
              State() == if overV then KV(old(State().k), code) else KV(code, old(State().v))
    {
      hide IsHash, XorAll, BlockKey;
      ghost var k, v := State().k, State().v;
      var result := if overV then resultSize else 0;
      FillPad(0x5c);
      StateOf(tmp[..], old(tmp[..]));
      ghost var pad := tmp[2 * resultSize..];
      assert tmp[..] == k + v + pad;
      FinishHash(result);
      PartsAfter(tmp[..], result, k, v, pad);
      ghost var inner := tmp[result..result + resultSize];
      InitHash();
      UpdateHash(tmp[2 * resultSize..]);
      UpdateHash(tmp[result..result + resultSize]);
      assert absorbed == pad + inner;
      FinishHash(result);
      PartsAfter(tmp[..], result, k, v, pad);
      assert tmp[..resultSize] == tmp[0..resultSize];
    }

    /** V = HMAC_K(V) */
    method UpdateV()
      requires Valid()
      modifies this, tmp
      ensures State() == NextV(hash, blockSize, old(State()))
    {
      hide IsHash, XorAll, BlockKey, Mac;
      HmacInit();
      ghost var v := State().v;
      UpdateHash(tmp[resultSize..2 * resultSize]);
      HmacFinish(true, v);
    }

    /** K = HMAC_K(V || separator || first || second), with the separator written behind V, over the
        first byte of the pad that HMAC_init has already fed to the hash. */
    method NewK(separator: Byte, first: seq<Byte>, second: seq<Byte>)
      requires Valid()
      modifies this, tmp
      ensures State() == KV(Mac(hash, blockSize, old(State().k), old(State().v) + [separator] + (first + second)),
                            old(State().v))
    {
      hide IsHash, XorAll, BlockKey, Mac;
      HmacInit();
      ghost var before := tmp[..];
      ghost var k, v := State().k, State().v;
      tmp[2 * resultSize] := separator;
      assert tmp[..2 * resultSize] == before[..2 * resultSize];
      StateOf(tmp[..], before);
      UpdateHash(tmp[resultSize..2 * resultSize + 1]);
      assert tmp[resultSize..2 * resultSize + 1] == v + [separator];
      UpdateHash(first);
      UpdateHash(second);
      ghost var text := v + [separator] + (first + second);
      assert absorbed == XorAll(BlockKey(k, blockSize), 0x36) + text;
      HmacFinish(false, text);
    }

    /** A new K and the V that follows it. */
    method Refresh(separator: Byte, first: seq<Byte>, second: seq<Byte>)
      requires Valid()
      modifies this, tmp
      ensures State() == Reseed(hash, blockSize, old(State()), separator, first + second)
    {
      hide IsHash, Mac;
      NewK(separator, first, second);
      UpdateV();
    }

    /** The state before the first nonce: V all ones, K all zeros, and two refreshes with the
        private key and the hash of the message. */
    method Seed(privateKey: seq<Byte>, messageHash: seq<Byte>)
      requires Valid()
      modifies this, tmp
      ensures State() == Seeded(hash, blockSize, resultSize, privateKey, messageHash)
      ensures var zeros := seq(resultSize, _ => 0x00); var ones := seq(resultSize, _ => 0x01);
              var k1 := Mac(hash, blockSize, zeros, ones + [0x00] + privateKey + messageHash);
              |k1| == resultSize &&
              var v1 := Mac(hash, blockSize, k1, ones);
              var k2 := Mac(hash, blockSize, k1, v1 + [0x01] + privateKey + messageHash);
              |k2| == resultSize && State() == KV(k2, Mac(hash, blockSize, k2, v1))
    {
      SeededValues(hash, blockSize, resultSize, privateKey, messageHash);
      hide IsHash, Reseed;
      var i := 0;
      while i < resultSize
        invariant 0 <= i <= resultSize
        invariant forall j :: 0 <= j < i ==> tmp[j] == 0
        invariant forall j :: resultSize <= j < resultSize + i ==> tmp[j] == 1
      {
        tmp[resultSize + i] := 0x01;
        tmp[i] := 0;
        i := i + 1;
      }
      assert State() == Blank(resultSize);
      Refresh(0x00, privateKey, messageHash);
      Refresh(0x01, privateKey, messageHash);
    }

    /** Fills t with successive values of V. */
    method Draw(t: array<Byte>)
      requires Valid() && t != tmp
      modifies this, tmp, t
      ensures (t[..], State()) == Drawn(hash, blockSize, resultSize, old(State()), t.Length)
    {
      hide IsHash, Mac, NextV, Drawn, Joined;
      ghost var start := State();
      var filled := 0;
      JoinedTwice([], [], Drawn(hash, blockSize, resultSize, start, t.Length));
      assert t[..0] == [];
      while filled < t.Length
        invariant 0 <= filled <= t.Length
        invariant Drawn(hash, blockSize, resultSize, start, t.Length) ==
                  Joined(t[..filled], Drawn(hash, blockSize, resultSize, State(), t.Length - filled))
      {
        ghost var s, done := State(), t[..filled];
        DrawnStep(hash, blockSize, resultSize, s, t.Length - filled);
        UpdateV();
        ghost var n := t.Length - filled;
        ghost var v := State().v;
        JoinedTwice(done, if n <= resultSize then v[..n] else v,
                    Drawn(hash, blockSize, resultSize, State(), if n <= resultSize then 0 else n - resultSize));
        filled := CopyV(t, filled);
      }
      DrawnNone(hash, blockSize, resultSize, State());
      JoinedNone(t[..filled], State());
      assert t[..filled] == t[..];
    }

    /** Copies V behind the bytes that are filled, until either is used up. */
    method CopyV(t: array<Byte>, from: nat) returns (filled: nat)
      requires Valid() && t != tmp && from < t.Length
      modifies t
      ensures State() == old(State())
      ensures var n := t.Length - from;
              if n <= resultSize then filled == t.Length && t[..filled] == old(t[..from]) + State().v[..n]
              else filled == from + resultSize && t[..filled] == old(t[..from]) + State().v
    {
      hide IsHash;
      ghost var v, done := State().v, t[..from];
      filled := from;
      var i := 0;
      while i < resultSize && filled < t.Length
        invariant 0 <= i <= resultSize && filled == from + i <= t.Length
        invariant t[..filled] == done + v[..i] && tmp[..] == old(tmp[..])
      {
        assert v[i] == tmp[resultSize + i];
        t[filled] := tmp[resultSize + i];
        assert t[..filled + 1] == t[..filled] + [v[i]] && v[..i + 1] == v[..i] + [v[i]];
        filled := filled + 1;
        i := i + 1;
      }
      assert v[..resultSize] == v;
      assert State() == KV(old(tmp[..])[..resultSize], old(tmp[..])[resultSize..2 * resultSize]);
    }

    /** K, V and pad after a result has been written over K or V. */
    lemma PartsAfter(s: seq<Byte>, result: nat, k: seq<Byte>, v: seq<Byte>, pad: seq<Byte>)
      requires |s| == 2 * resultSize + |pad| && (result == 0 || result == resultSize) && |k| == resultSize &&
               |v| == resultSize
      requires s[..result] == (k + v + pad)[..result] &&
               s[result + resultSize..] == (k + v + pad)[result + resultSize..]
      ensures result == 0 ==> s[resultSize..2 * resultSize] == v
      ensures result == resultSize ==> s[..resultSize] == k
      ensures s[2 * resultSize..] == pad
    {
      var whole := k + v + pad;
      assert whole[2 * resultSize..] == pad && whole[resultSize..2 * resultSize] == v;
      if result == 0 {
        assert s[resultSize..][..resultSize] == whole[resultSize..][..resultSize];
        assert s[resultSize..][resultSize..] == whole[resultSize..][resultSize..];
        assert whole[resultSize..][..resultSize] == v && whole[resultSize..][resultSize..] == pad;
      }
    }
  }

  lemma SeededValues(hash: HashFunction, blockSize: nat, size: nat, x: seq<Byte>, h: seq<Byte>)
    requires IsHash(hash, size) && size <= blockSize
    ensures var zeros := seq(size, _ => 0x00); var ones := seq(size, _ => 0x01);
            var k1 := Mac(hash, blockSize, zeros, ones + [0x00] + x + h);
            |k1| == size &&
            var v1 := Mac(hash, blockSize, k1, ones);
            var k2 := Mac(hash, blockSize, k1, v1 + [0x01] + x + h);
            |k2| == size && Seeded(hash, blockSize, size, x, h) == KV(k2, Mac(hash, blockSize, k2, v1))
  {
    var zeros: seq<Byte> := seq(size, _ => 0x00);
    var ones: seq<Byte> := seq(size, _ => 0x01);
    MacSized(hash, blockSize, size, zeros, ones + [0x00] + x + h);
    var k1 := Mac(hash, blockSize, zeros, ones + [0x00] + x + h);
    var v1 := Mac(hash, blockSize, k1, ones);
    MacSized(hash, blockSize, size, k1, v1 + [0x01] + x + h);
    var k2 := Mac(hash, blockSize, k1, v1 + [0x01] + x + h);
    hide Mac, Seeded, IsHash;
    SeededIs(hash, blockSize, size, x, h, zeros, ones, k1, v1, k2, Mac(hash, blockSize, k2, v1));
  }

  lemma MacSized(hash: HashFunction, blockSize: nat, size: nat, key: seq<Byte>, text: seq<Byte>)
    requires IsHash(hash, size) && |key| <= blockSize
    ensures |Mac(hash, blockSize, key, text)| == size
  {
  }

  lemma ZeroByte(x: Byte)
    ensures XorByte(0, x) == x
  {
    XorZero(x);
  }
}
