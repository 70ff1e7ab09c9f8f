/** The streaming SHA-256 and the one-shot function of FIPS 180-4. */
module Sha256 {
  import opened Arith
  import opened Bits
  import opened Bytes

  //
  // FIPS 180-4
  //

  function RotR(x: bv32, n: bv32): bv32
    requires 0 < n < 32
  {
    (x >> n) | (x << (32 - n))
  }

  /** Section 4.1.2. */
  function Ch(x: bv32, y: bv32, z: bv32): bv32 { (x & y) ^ (!x & z) }
  function Maj(x: bv32, y: bv32, z: bv32): bv32 { (x & y) ^ (x & z) ^ (y & z) }
  function BigSigma0(x: bv32): bv32 { RotR(x, 2) ^ RotR(x, 13) ^ RotR(x, 22) }
  function BigSigma1(x: bv32): bv32 { RotR(x, 6) ^ RotR(x, 11) ^ RotR(x, 25) }
  function SmallSigma0(x: bv32): bv32 { RotR(x, 7) ^ RotR(x, 18) ^ (x >> 3) }
  function SmallSigma1(x: bv32): bv32 { RotR(x, 17) ^ RotR(x, 19) ^ (x >> 10) }

  /** Section 4.2.2, eight constants a row. */
  function RoundRow(i: nat): (r: seq<bv32>)
    requires i < 8
    ensures |r| == 8
  {
    match i
    case 0 => [0x428a2f98, 0x71374491, 0xb5c0fbcf, 0xe9b5dba5, 0x3956c25b, 0x59f111f1, 0x923f82a4, 0xab1c5ed5]
    case 1 => [0xd807aa98, 0x12835b01, 0x243185be, 0x550c7dc3, 0x72be5d74, 0x80deb1fe, 0x9bdc06a7, 0xc19bf174]
    case 2 => [0xe49b69c1, 0xefbe4786, 0x0fc19dc6, 0x240ca1cc, 0x2de92c6f, 0x4a7484aa, 0x5cb0a9dc, 0x76f988da]
    case 3 => [0x983e5152, 0xa831c66d, 0xb00327c8, 0xbf597fc7, 0xc6e00bf3, 0xd5a79147, 0x06ca6351, 0x14292967]
    case 4 => [0x27b70a85, 0x2e1b2138, 0x4d2c6dfc, 0x53380d13, 0x650a7354, 0x766a0abb, 0x81c2c92e, 0x92722c85]
    case 5 => [0xa2bfe8a1, 0xa81a664b, 0xc24b8b70, 0xc76c51a3, 0xd192e819, 0xd6990624, 0xf40e3585, 0x106aa070]
    case 6 => [0x19a4c116, 0x1e376c08, 0x2748774c, 0x34b0bcb5, 0x391c0cb3, 0x4ed8aa4a, 0x5b9cca4f, 0x682e6ff3]
    case _ => [0x748f82ee, 0x78a5636f, 0x84c87814, 0x8cc70208, 0x90befffa, 0xa4506ceb, 0xbef9a3f7, 0xc67178f2]
  }

  function RoundConstant(t: nat): bv32
    requires t < 64
  {
    RoundRow(t / 8)[t % 8]
  }

  /** The eight working variables, or a hash value. */
  datatype Regs = Regs(a: bv32, b: bv32, c: bv32, d: bv32, e: bv32, f: bv32, g: bv32, h: bv32)

  /** Section 5.3.3. */
  const INITIAL: Regs := Regs(0x6a09e667, 0xbb67ae85, 0x3c6ef372, 0xa54ff53a, 0x510e527f, 0x9b05688c, 0x1f83d9ab,
                              0x5be0cd19)

  function Wide(b: Byte): bv32 { b as bv32 }

  /** The word of four bytes, most significant first. */
  function BigEndian(b0: Byte, b1: Byte, b2: Byte, b3: Byte): bv32 {
    (Wide(b0) << 24) | (Wide(b1) << 16) | (Wide(b2) << 8) | Wide(b3)
  }

  function NextWord(w2: bv32, w7: bv32, w15: bv32, w16: bv32): bv32 {
    SmallSigma1(w2) + w7 + SmallSigma0(w15) + w16
  }

  /** The message schedule of a block (section 6.2.2, step 1). */
  function Schedule(block: seq<Byte>, t: nat): bv32
    requires |block| == 64 && t < 64
  {
    if t < 16 then BigEndian(block[4 * t], block[4 * t + 1], block[4 * t + 2], block[4 * t + 3])
    else NextWord(Schedule(block, t - 2), Schedule(block, t - 7), Schedule(block, t - 15), Schedule(block, t - 16))
  }

  /** Addition modulo 2^32. */
  function Plus(x: bv32, y: bv32): bv32 { x + y }

  function T1(e: bv32, f: bv32, g: bv32, h: bv32, k: bv32, w: bv32): bv32 {
    h + BigSigma1(e) + Ch(e, f, g) + k + w
  }

  function T2(a: bv32, b: bv32, c: bv32): bv32 {
    BigSigma0(a) + Maj(a, b, c)
  }

  /** One round (step 3). */
  function Round(r: Regs, k: bv32, w: bv32): Regs {
    var t1 := T1(r.e, r.f, r.g, r.h, k, w);
    Regs(Plus(t1, T2(r.a, r.b, r.c)), r.a, r.b, r.c, Plus(r.d, t1), r.e, r.f, r.g)
  }

  function Rounds(r: Regs, block: seq<Byte>, t: nat): Regs
    requires |block| == 64 && t <= 64
  {
    if t == 0 then r else Round(Rounds(r, block, t - 1), RoundConstant(t - 1), Schedule(block, t - 1))
  }

  function AddRegs(r: Regs, s: Regs): Regs {
    Regs(Plus(r.a, s.a), Plus(r.b, s.b), Plus(r.c, s.c), Plus(r.d, s.d),
         Plus(r.e, s.e), Plus(r.f, s.f), Plus(r.g, s.g), Plus(r.h, s.h))
  }

  /** The next hash value (step 4). */
  function Compress(r: Regs, block: seq<Byte>): Regs
    requires |block| == 64
  {
    AddRegs(r, Rounds(r, block, 64))
  }

  /** The hash value after the blocks of s; an incomplete last block is left out. */
  function HashBlocks(s: seq<Byte>): Regs
    decreases |s|
  {
    var n := FullLength(|s|);
    if n == 0 then INITIAL else Compress(HashBlocks(s[..n - 64]), s[n - 64..n])
  }

  /** The length without an incomplete block. */
  function FullLength(n: nat): (r: nat)
    ensures r <= n && (r == 0 || 64 <= r) && (n % 64 == 0 ==> r == n)
  {
    n - n % 64
  }

  /** The number of zero bytes of the padding: the least that fills up the last block. */
  function ZeroBytes(len: nat): nat {
    if len % 64 < 56 then 55 - len % 64 else 119 - len % 64
  }

  /** The 64-bit length field, most significant byte first. */
  function LengthField(bits: nat): (r: seq<Byte>)
    ensures |r| == 8
  {
    seq(8, i requires 0 <= i < 8 => ByteOf(bits, 7 - i))
  }

  /** The length of n bytes in bits, in the 64 bits of the code's counter. */
  function MessageBits(n: nat): nat {
    DivModDef(8 * n, Pow2(64));
    8 * n % Pow2(64)
  }

  /** Section 5.1.1. The length counts modulo 2^64, as the code's counter does. */
  function Padded(m: seq<Byte>): seq<Byte> {
    m + [0x80] + Zeros(ZeroBytes(|m|)) + LengthField(MessageBits(|m|))
  }

  /** The byte that begins at bit n. */
  function ByteAt(w: bv32, n: bv32): Byte
    requires n < 32
  {
    ((w >> n) & 0xff) as nat
  }

  /** Byte i of a word, most significant first. */
  function StateByte(w: bv32, i: nat): Byte
    requires i < 4
  {
    ByteAt(w, (24 - i * 8) as bv32)
  }

  function Column(r: Regs, i: nat): bv32
    requires i < 8
  {
    match i {
      case 0 => r.a case 1 => r.b case 2 => r.c case 3 => r.d
      case 4 => r.e case 5 => r.f case 6 => r.g case _ => r.h
    }
  }

  /** The bytes of a hash value. */
  function Output(r: Regs): seq<Byte> {
    seq(32, i requires 0 <= i < 32 => StateByte(Column(r, i / 4), i % 4))
  }

  /** SHA-256 (section 6.2). */
  function Digest(m: seq<Byte>): seq<Byte> {
    Output(HashBlocks(Padded(m)))
  }

  /** buffer[..k] is the end of the message, v the hash value of the full blocks before it, and
      bits their length. */
  ghost predicate Streamed(message: seq<Byte>, k: nat, buffer: seq<Byte>, v: Regs, bits: nat) {
    k <= |message| && k <= |buffer| == 64 && (|message| - k) % 64 == 0 && buffer[..k] == message[|message| - k..] &&
    v == HashBlocks(message[..|message| - k]) && bits == MessageBits(|message| - k)
  }

  lemma StreamStart(buffer: seq<Byte>)
    requires |buffer| == 64
    ensures Streamed([], 0, buffer, INITIAL, 0)
  {
    HashNone();
    NoBits();
  }

  lemma StreamByte(message: seq<Byte>, k: nat, buffer: seq<Byte>, v: Regs, bits: nat, b: Byte)
    requires Streamed(message, k, buffer, v, bits) && k < 64
    ensures Streamed(message + [b], k + 1, buffer[k := b], v, bits)
  {
    hide HashBlocks, MessageBits;
    assert (message + [b])[..|message| - k] == message[..|message| - k];
    assert buffer[k := b][..k + 1] == buffer[..k] + [b];
  }

  lemma StreamBlock(message: seq<Byte>, buffer: seq<Byte>, v: Regs, bits: nat)
    requires Streamed(message, 64, buffer, v, bits)
    ensures Streamed(message, 0, buffer, Compress(v, buffer), AddBits(bits, 512))
  {
    hide HashBlocks, MessageBits, Compress, AddBits;
    var hashed := message[..|message| - 64];
    assert message == hashed + buffer && message[..|message|] == message;
    HashBlocksStep(hashed, buffer);
    CountStep(|hashed|);
  }

  lemma StreamParts(message: seq<Byte>, k: nat, buffer: seq<Byte>, v: Regs, bits: nat)
    requires Streamed(message, k, buffer, v, bits)
    ensures k <= |message| && k <= |buffer| && (|message| - k) % 64 == 0
    ensures message == message[..|message| - k] + buffer[..k]
    ensures v == HashBlocks(message[..|message| - k]) && AddBits(bits, k * 8) == MessageBits(|message|)
  {
    hide HashBlocks, MessageBits, AddBits;
    CountTail(|message| - k, k);
  }

  /** One more block. */
  lemma HashBlocksStep(s: seq<Byte>, block: seq<Byte>)
    requires |s| % 64 == 0 && |block| == 64
    ensures HashBlocks(s + block) == Compress(HashBlocks(s), block)
  {
    hide Compress, FullLength;
    var t := s + block;
    FullLengths(|s|);
    assert t[..|t| - 64] == s && t[|t| - 64..|t|] == block;
  }

  lemma FullLengths(n: nat)
    requires n % 64 == 0
    ensures FullLength(n) == n && FullLength(n + 64) == n + 64
  {
  }

  lemma HashNone()
    ensures HashBlocks([]) == INITIAL
  {
  }

  lemma ScheduleLow(block: seq<Byte>, t: nat)
    requires |block| == 64 && t < 16
    ensures Schedule(block, t) == BigEndian(block[4 * t], block[4 * t + 1], block[4 * t + 2], block[4 * t + 3])
  {
  }

  lemma ScheduleHigh(block: seq<Byte>, t: nat)
    requires |block| == 64 && 16 <= t < 64
    ensures Schedule(block, t) ==
            NextWord(Schedule(block, t - 2), Schedule(block, t - 7), Schedule(block, t - 15), Schedule(block, t - 16))
  {
    hide NextWord, BigEndian;
  }

  lemma RoundsStep(r: Regs, block: seq<Byte>, t: nat)
    requires |block| == 64 && t < 64
    ensures Rounds(r, block, t + 1) == Round(Rounds(r, block, t), RoundConstant(t), Schedule(block, t))
  {
    hide Round, RoundConstant, Schedule;
  }

  lemma RoundsNone(r: Regs, block: seq<Byte>)
    requires |block| == 64
    ensures Rounds(r, block, 0) == r
  {
  }

  /** What the padding looks like: the message, a single one bit, zeros, and the length of the
      message in bits, in as few blocks as hold it. */
  lemma PaddedShape(m: seq<Byte>)
    ensures |Padded(m)| % 64 == 0 && |m| + 9 <= |Padded(m)| < |m| + 9 + 64
    ensures Padded(m)[..|m|] == m && Padded(m)[|m|] == 0x80
    ensures forall i :: |m| < i < |Padded(m)| - 8 ==> Padded(m)[i] == 0
    ensures 8 * |m| < Pow2(64) ==> BE(Padded(m)[|Padded(m)| - 8..]) == 8 * |m|
  {
    hide ByteOf, BE, Pow2;
    var bits := MessageBits(|m|);
    assert Padded(m)[|Padded(m)| - 8..] == LengthField(bits);
    if 8 * |m| < Pow2(64) {
      ModSmall(8 * |m|, Pow2(64));
      FieldValue(bits);
    }
  }

  lemma FieldValue(bits: nat)
    requires bits < Pow2(64)
    ensures BE(LengthField(bits)) == bits
  {
    hide ByteOf, BE, Pow2;
    BEOfBytes(LengthField(bits), bits);
    assert Place(8) == Pow2(64);
    ModSmall(bits, Pow2(64));
  }

  //
  // The streaming context
  //

  /** SHA256_CTX. The ghost field holds the bytes passed in since the last initialisation. */
  class Context {
    const data: array<Byte>
    var datalen: nat
    var bitlen: nat
    const state: array<bv32>
    ghost var message: seq<Byte>

    ghost function Value(): Regs
      requires state.Length == 8
      reads state
    {
      Regs(state[0], state[1], state[2], state[3], state[4], state[5], state[6], state[7])
    }

    /** The buffer holds the end of the message, and the state is the hash value of the rest. */
    ghost predicate Valid()
      reads this, data, state
    {
      data.Length == 64 && state.Length == 8 && (data as object) != state && datalen < 64 &&
      Streamed(message, datalen, data[..], Value(), bitlen)
    }

    /** A fresh context, initialised. */
    constructor ()
      ensures Valid() && message == [] && fresh(data) && fresh(state)
    {
      data := new Byte[64];
      state := new bv32[8];
      new;
      Init();
    }

    /** sha256_init */
    method Init()
      requires data.Length == 64 && state.Length == 8 && (data as object) != state
      modifies this, state
      ensures Valid() && message == []
    {
      hide Streamed;
      datalen := 0;
      bitlen := 0;
      state[0], state[1], state[2], state[3] := 0x6a09e667, 0xbb67ae85, 0x3c6ef372, 0xa54ff53a;
      state[4], state[5], state[6], state[7] := 0x510e527f, 0x9b05688c, 0x1f83d9ab, 0x5be0cd19;
      message := [];
      StreamStart(data[..]);
    }

    /** sha256_transform on the buffer. */
    method Transform()
      requires data.Length == 64 && state.Length == 8 && (data as object) != state
      modifies state
      ensures Value() == Compress(old(Value()), data[..])
    {
      hide BigEndian, SmallSigma0, SmallSigma1, BigSigma0, BigSigma1, Ch, Maj, RoundConstant, Schedule;
      ghost var block, start := data[..], Value();
      var m := new bv32[64];
      BuildSchedule(m);
      RunRounds(m);
    }

    /** The message schedule. */
    method BuildSchedule(m: array<bv32>)
      requires data.Length == 64 && m.Length == 64 && m != state && (data as object) != m
      modifies m
      ensures forall t :: 0 <= t < 64 ==> m[t] == Schedule(data[..], t)
    {
      hide BigEndian, NextWord, Schedule;
      ghost var block := data[..];
      var i, j := 0, 0;
      while i < 16
        invariant 0 <= i <= 16 && j == 4 * i
        invariant forall t :: 0 <= t < i ==> m[t] == Schedule(block, t)
        invariant data[..] == block
      {
        ScheduleLow(block, i);
        assert data[j] == block[4 * i] && data[j + 1] == block[4 * i + 1];
        assert data[j + 2] == block[4 * i + 2] && data[j + 3] == block[4 * i + 3];
        m[i] := BigEndian(data[j], data[j + 1], data[j + 2], data[j + 3]);
        i, j := i + 1, j + 4;
      }
      while i < 64
        invariant 16 <= i <= 64
        invariant forall t :: 0 <= t < i ==> m[t] == Schedule(block, t)
        invariant data[..] == block
      {
        ScheduleHigh(block, i);
        m[i] := NextWord(m[i - 2], m[i - 7], m[i - 15], m[i - 16]);
        i := i + 1;
      }
    }

    /** The rounds, and the addition to the state. */
    method RunRounds(m: array<bv32>)
      requires data.Length == 64 && state.Length == 8 && m.Length == 64 && (data as object) != state
      requires forall t :: 0 <= t < 64 ==> m[t] == Schedule(data[..], t)
      modifies state
      ensures Value() == Compress(old(Value()), data[..])
    {
      hide T1, T2, Plus, RoundConstant, Schedule, Rounds;
      ghost var block, start := data[..], Value();
      RoundsNone(start, block);
      var a, b, c, d := state[0], state[1], state[2], state[3];
      var e, f, g, h := state[4], state[5], state[6], state[7];
      var i := 0;
      while i < 64
        invariant 0 <= i <= 64
        invariant Regs(a, b, c, d, e, f, g, h) == Rounds(start, block, i)
        modifies {}
      {
        RoundsStep(start, block, i);
        var t1 := T1(e, f, g, h, RoundConstant(i), m[i]);
        var t2 := T2(a, b, c);
        h := g;
        g := f;
        f := e;
        e := Plus(d, t1);
        d := c;
        c := b;
        b := a;
        a := Plus(t1, t2);
        i := i + 1;
      }
      state[0], state[1], state[2], state[3] :=
        Plus(state[0], a), Plus(state[1], b), Plus(state[2], c), Plus(state[3], d);
      state[4], state[5], state[6], state[7] :=
        Plus(state[4], e), Plus(state[5], f), Plus(state[6], g), Plus(state[7], h);
    }

    /** sha256_update */
    method Update(bytes: seq<Byte>)
      requires Valid()
      modifies this, data, state
      ensures Valid() && message == old(message) + bytes
    {
      hide Streamed;
      ghost var before := message;
      var i := 0;
      while i < |bytes|
        invariant 0 <= i <= |bytes| && Valid() && message == before + bytes[..i]
      {
        Append(bytes[i]);
        i := i + 1;
      }
      assert bytes[..i] == bytes;
    }

    /** One byte of an update. */
    method Append(b: Byte)
      requires Valid()
      modifies this, data, state
      ensures Valid() && message == old(message) + [b]
    {
      hide Streamed, Compress, AddBits;
      ghost var buffer := data[..];
      StreamByte(message, datalen, buffer, Value(), bitlen, b);
      data[datalen] := b;
      datalen := datalen + 1;
      message := message + [b];
      assert data[..] == buffer[datalen - 1 := b];
      if datalen == 64 {
        StreamBlock(message, data[..], Value(), bitlen);
        Transform();
        bitlen := AddBits(bitlen, 512);
        datalen := 0;
      }
    }

    /** The padding up to the length field; a second block is started when there is no room for it. */
    method PadBuffer()
      requires Valid()
      modifies data, state
      ensures data[..56] == (if datalen < 56 then old(data[..datalen]) + [0x80] + Zeros(55 - datalen) else Zeros(56))
      ensures Value() ==
              if datalen < 56 then old(Value())
              else Compress(old(Value()), old(data[..datalen]) + [0x80] + Zeros(63 - datalen))
    {
      hide Compress, Streamed;
      ghost var tail := data[..datalen];
      var i := datalen;
      if datalen < 56 {
        data[i] := 0x80;
        FillZeros(i + 1, 56);
        assert data[..56] == data[..datalen + 1] + data[datalen + 1..56];
        assert data[..datalen + 1] == tail + [0x80];
      } else {
        data[i] := 0x80;
        FillZeros(i + 1, 64);
        assert data[..] == data[..datalen + 1] + data[datalen + 1..64];
        assert data[..datalen + 1] == tail + [0x80];
        Transform();
        FillZeros(0, 56);
        assert data[..56] == data[0..56];
      }
    }

    method FillZeros(from: nat, to: nat)
      requires data.Length == 64 && state.Length == 8 && (data as object) != state && from <= to <= 64
      modifies data
      ensures data[from..to] == Zeros(to - from)
      ensures data[..from] == old(data[..from]) && data[to..] == old(data[to..])
      ensures Value() == old(Value())
    {
      var i := from;
      while i < to
        invariant from <= i <= to
        invariant forall j :: from <= j < i ==> data[j] == 0
        invariant data[..from] == old(data[..from]) && data[to..] == old(data[to..])
      {
        data[i] := 0;
        i := i + 1;
      }
    }

    /** The length field, byte by byte from the end. */
    method StoreLength()
      requires data.Length == 64 && state.Length == 8 && (data as object) != state
      modifies data
      ensures data[..56] == old(data[..56]) && data[56..] == LengthField(bitlen)
      ensures Value() == old(Value())
    {
      hide ByteOf;
      data[63], data[62], data[61], data[60] :=
        ByteOf(bitlen, 0), ByteOf(bitlen, 1), ByteOf(bitlen, 2), ByteOf(bitlen, 3);
      data[59], data[58], data[57], data[56] :=
        ByteOf(bitlen, 4), ByteOf(bitlen, 5), ByteOf(bitlen, 6), ByteOf(bitlen, 7);
    }

    /** The state as bytes. */
    method StoreHash(hash: array<Byte>)
      requires state.Length == 8 && hash.Length >= 32 && (hash as object) != state
      modifies hash
      ensures hash[..32] == Output(Value())
      ensures hash[32..] == old(hash[32..])
    {
      hide RowOk, Output;
      ghost var r := Value();
      ghost var rest := hash[32..];
      var i := 0;
      while i < 4
        invariant 0 <= i <= 4 && Value() == r
        invariant forall t :: 0 <= t < i ==> RowOk(hash[..], t, r)
        invariant hash[..][32..] == rest
      {
        StoreRow(hash, i);
        i := i + 1;
      }
      OutputRows(hash[..], r);
      assert hash[..32] == hash[..][..32];
    }

    /** The bytes of one loop iteration, one of each word. */
    method StoreRow(hash: array<Byte>, i: nat)
      requires state.Length == 8 && hash.Length >= 32 && (hash as object) != state && i < 4
      modifies hash
      ensures Value() == old(Value()) && RowOk(hash[..], i, Value())
      ensures forall t :: 0 <= t < i ==> old(RowOk(hash[..], t, Value())) ==> RowOk(hash[..], t, Value())
      ensures hash[..][32..] == old(hash[..][32..])
    {
      hide StateByte;
      hash[i] := StateByte(state[0], i);
      hash[i + 4] := StateByte(state[1], i);
      hash[i + 8] := StateByte(state[2], i);
      hash[i + 12] := StateByte(state[3], i);
      hash[i + 16] := StateByte(state[4], i);
      hash[i + 20] := StateByte(state[5], i);
      hash[i + 24] := StateByte(state[6], i);
      hash[i + 28] := StateByte(state[7], i);
    }

    /** sha256_final: the digest of everything passed in since the last initialisation. */
    method Final(hash: array<Byte>)
      requires Valid() && hash.Length >= 32 && (hash as object) != state && hash != data
      modifies this, data, state, hash
      ensures hash[..32] == Digest(message) && hash[32..] == old(hash[32..])
      ensures message == old(message)
    {
      hide Compress, HashBlocks, MessageBits, Output, StateByte, AddBits, LengthField;
      ghost var tail := data[..datalen];
      ghost var hashed := message[..|message| - datalen];
      StreamParts(message, datalen, data[..], Value(), bitlen);
      PadBuffer();
      bitlen := AddBits(bitlen, datalen * 8);
      StoreLength();
      ghost var before, block := Value(), data[..];
      assert block == data[..56] + data[56..];
      Transform();
      LastBlocks(message, hashed, tail, before, block, Value());
      StoreHash(hash);
    }
  }

  /** Byte t of every word of the hash value is in its place. */
  predicate RowOk(s: seq<Byte>, t: nat, r: Regs)
    requires |s| >= 32 && t < 4
  {
    s[t] == StateByte(r.a, t) && s[t + 4] == StateByte(r.b, t) &&
    s[t + 8] == StateByte(r.c, t) && s[t + 12] == StateByte(r.d, t) &&
    s[t + 16] == StateByte(r.e, t) && s[t + 20] == StateByte(r.f, t) &&
    s[t + 24] == StateByte(r.g, t) && s[t + 28] == StateByte(r.h, t)
  }

  lemma OutputRows(s: seq<Byte>, r: Regs)
    requires |s| >= 32 && forall t :: 0 <= t < 4 ==> RowOk(s, t, r)
    ensures s[..32] == Output(r)
  {
    hide StateByte;
    forall k | 0 <= k < 32
      ensures s[k] == Output(r)[k]
    {
      var j, t := k / 4, k % 4;
      assert k == 4 * j + t;
      assert RowOk(s, t, r);
    }
  }

  function Zeros(n: nat): (r: seq<Byte>)
    ensures |r| == n
  {
    seq(n, _ => 0)
  }

  /** The last one or two blocks of the padded message. */
  lemma LastBlocks(message: seq<Byte>, hashed: seq<Byte>, tail: seq<Byte>, before: Regs, block: seq<Byte>, after: Regs)
    requires message == hashed + tail && |hashed| % 64 == 0 && |tail| < 64
    requires block == (if |tail| < 56 then tail + [0x80] + Zeros(55 - |tail|) else Zeros(56)) +
             LengthField(MessageBits(|message|))
    requires before ==
             if |tail| < 56 then HashBlocks(hashed)
             else Compress(HashBlocks(hashed), tail + [0x80] + Zeros(63 - |tail|))
    requires after == Compress(before, block)
    ensures after == HashBlocks(Padded(message))
  {
    hide Compress, HashBlocks, MessageBits, LengthField, Padded, Zeros;
    PaddedSplit(message, hashed, tail);
    if |tail| < 56 {
      HashBlocksStep(hashed, block);
    } else {
      TwoBlocks(hashed, tail + [0x80] + Zeros(63 - |tail|), block);
    }
  }

  lemma TwoBlocks(hashed: seq<Byte>, first: seq<Byte>, second: seq<Byte>)
    requires |hashed| % 64 == 0 && |first| == 64 && |second| == 64
    ensures HashBlocks(hashed + first + second) == Compress(Compress(HashBlocks(hashed), first), second)
  {
    hide Compress, HashBlocks;
    HashBlocksStep(hashed, first);
    HashBlocksStep(hashed + first, second);
  }

  /** The padded message, cut after the last full block of the message. */
  lemma PaddedSplit(message: seq<Byte>, hashed: seq<Byte>, tail: seq<Byte>)
    requires message == hashed + tail && |hashed| % 64 == 0 && |tail| < 64
    ensures var field := LengthField(MessageBits(|message|));
            Padded(message) == if |tail| < 56 then hashed + (tail + [0x80] + Zeros(55 - |tail|) + field)
                               else hashed + (tail + [0x80] + Zeros(63 - |tail|)) + (Zeros(56) + field)
  {
    var bits := MessageBits(|message|);
    ZeroBytesOf(|hashed|, |tail|);
    hide MessageBits, LengthField, ZeroBytes;
    assert Padded(message) == hashed + tail + [0x80] + Zeros(ZeroBytes(|message|)) + LengthField(bits);
    if |tail| >= 56 { assert Zeros(119 - |tail|) == Zeros(63 - |tail|) + Zeros(56); }
  }

  lemma ZeroBytesOf(full: nat, rest: nat)
    requires full % 64 == 0 && rest < 64
    ensures ZeroBytes(full + rest) == if rest < 56 then 55 - rest else 119 - rest
  {
    assert (full + rest) % 64 == rest;
  }

  /** The 64-bit counter wraps. */
  function AddBits(count: nat, bits: nat): nat {
    DivModDef(count + bits, Pow2(64));
    (count + bits) % Pow2(64)
  }

  lemma CountStep(n: nat)
    ensures AddBits(MessageBits(n), 512) == MessageBits(n + 64)
  {
    CountAdd(8 * n, 512);
  }

  lemma CountTail(n: nat, rest: nat)
    ensures AddBits(MessageBits(n), rest * 8) == MessageBits(n + rest)
  {
    CountAdd(8 * n, 8 * rest);
  }

  lemma TwoTo64()
    ensures Pow2(64) == 0x1_0000_0000_0000_0000
  {
    assert Pow2(8) == 256 by { assert Pow2(4) == 16; Pow2Add(4, 4); }
    hide Pow2;
    Pow2Add(8, 8);
    Pow2Add(16, 16);
    Pow2Add(32, 32);
  }

  lemma NoBits()
    ensures MessageBits(0) == 0
  {
    ModSmall(0, Pow2(64));
  }

  lemma CountAdd(x: nat, y: nat)
    ensures 0 <= x % Pow2(64) && AddBits(x % Pow2(64), y) == (x + y) % Pow2(64)
  {
    hide Pow2;
    var m := Pow2(64);
    DivModDef(x, m);
    DivModDef(x % m + y, m);
    MulDist(m, x / m, (x % m + y) / m);
    ModUnique(x + y, m, x / m + (x % m + y) / m, (x % m + y) % m);
  }
}
