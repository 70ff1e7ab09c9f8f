/** The functions of sections 4.1.2 and 6.2 of FIPS 180-4, bit by bit and byte by byte. */
module Sha256Laws {
  import opened Bytes
  import opened Sha256

  /** Bit i, counted from the lowest. */
  predicate BitAt(x: bv32, i: bv32)
    requires i < 32
  {
    (x >> i) & 1 == 1
  }

  function Both(x: bv32, y: bv32): bv32 { x & y }
  function Odd(x: bv32, y: bv32): bv32 { x ^ y }
  function Not(x: bv32): bv32 { !x }

  lemma AndAt(x: bv32, y: bv32, i: bv32)
    requires i < 32
    ensures BitAt(x & y, i) <==> BitAt(x, i) && BitAt(y, i)
  {
  }

  lemma XorAt(x: bv32, y: bv32, i: bv32)
    requires i < 32
    ensures BitAt(x ^ y, i) <==> BitAt(x, i) != BitAt(y, i)
  {
  }

  lemma FlipAt(x: bv32, i: bv32)
    requires i < 32
    ensures BitAt(!x, i) <==> !BitAt(x, i)
  {
  }

  /** The three operations, each with its bits. */
  lemma BothAt(x: bv32, y: bv32, i: bv32)
    requires i < 32
    ensures BitAt(Both(x, y), i) <==> BitAt(x, i) && BitAt(y, i)
  {
    hide BitAt;
    AndAt(x, y, i);
  }

  lemma OddAt(x: bv32, y: bv32, i: bv32)
    requires i < 32
    ensures BitAt(Odd(x, y), i) <==> BitAt(x, i) != BitAt(y, i)
  {
    hide BitAt;
    XorAt(x, y, i);
  }

  lemma NotAt(x: bv32, i: bv32)
    requires i < 32
    ensures BitAt(Not(x), i) <==> !BitAt(x, i)
  {
    hide BitAt;
    FlipAt(x, i);
  }

  lemma ChForm(x: bv32, y: bv32, z: bv32)
    ensures Ch(x, y, z) == Odd(Both(x, y), Both(Not(x), z))
  {
  }

  /** The bit of y where x has a one, the bit of z elsewhere. */
  lemma ChPicks(x: bv32, y: bv32, z: bv32, i: bv32)
    requires i < 32
    ensures BitAt(Ch(x, y, z), i) <==> if BitAt(x, i) then BitAt(y, i) else BitAt(z, i)
  {
    hide Ch, BitAt, Both, Odd, Not;
    ChForm(x, y, z);
    OddAt(Both(x, y), Both(Not(x), z), i);
    BothAt(x, y, i);
    BothAt(Not(x), z, i);
    NotAt(x, i);
  }

  lemma MajForm(x: bv32, y: bv32, z: bv32)
    ensures Maj(x, y, z) == Ch(Odd(x, y), z, x)
  {
  }

  /** The bit that at least two of the three have. */
  lemma MajVotes(x: bv32, y: bv32, z: bv32, i: bv32)
    requires i < 32
    ensures BitAt(x, i) == BitAt(y, i) ==> BitAt(Maj(x, y, z), i) == BitAt(x, i)
    ensures BitAt(x, i) == BitAt(z, i) ==> BitAt(Maj(x, y, z), i) == BitAt(x, i)
    ensures BitAt(y, i) == BitAt(z, i) ==> BitAt(Maj(x, y, z), i) == BitAt(y, i)
  {
    hide Maj, Ch, BitAt, Odd;
    MajForm(x, y, z);
    ChPicks(Odd(x, y), z, x, i);
    OddAt(x, y, i);
  }

  /** A rotation takes the bit n places up, round the word. */
  lemma Rot2(x: bv32, i: bv32)
    requires i < 32
    ensures BitAt(RotR(x, 2), i) == BitAt(x, (i + 2) & 31)
  {
  }

  lemma Rot6(x: bv32, i: bv32)
    requires i < 32
    ensures BitAt(RotR(x, 6), i) == BitAt(x, (i + 6) & 31)
  {
  }

  lemma Rot7(x: bv32, i: bv32)
    requires i < 32
    ensures BitAt(RotR(x, 7), i) == BitAt(x, (i + 7) & 31)
  {
  }

  lemma Rot11(x: bv32, i: bv32)
    requires i < 32
    ensures BitAt(RotR(x, 11), i) == BitAt(x, (i + 11) & 31)
  {
  }

  lemma Rot13(x: bv32, i: bv32)
    requires i < 32
    ensures BitAt(RotR(x, 13), i) == BitAt(x, (i + 13) & 31)
  {
  }

  lemma Rot17(x: bv32, i: bv32)
    requires i < 32
    ensures BitAt(RotR(x, 17), i) == BitAt(x, (i + 17) & 31)
  {
  }

  lemma Rot18(x: bv32, i: bv32)
    requires i < 32
    ensures BitAt(RotR(x, 18), i) == BitAt(x, (i + 18) & 31)
  {
  }

  lemma Rot19(x: bv32, i: bv32)
    requires i < 32
    ensures BitAt(RotR(x, 19), i) == BitAt(x, (i + 19) & 31)
  {
  }

  lemma Rot22(x: bv32, i: bv32)
    requires i < 32
    ensures BitAt(RotR(x, 22), i) == BitAt(x, (i + 22) & 31)
  {
  }

  lemma Rot25(x: bv32, i: bv32)
    requires i < 32
    ensures BitAt(RotR(x, 25), i) == BitAt(x, (i + 25) & 31)
  {
  }

  /** A shift takes zeros in. */
  lemma Shift3(x: bv32, i: bv32)
    requires i < 32
    ensures BitAt(x >> 3, i) == (i < 29 && BitAt(x, i + 3))
  {
  }

  lemma Shift10(x: bv32, i: bv32)
    requires i < 32
    ensures BitAt(x >> 10, i) == (i < 22 && BitAt(x, i + 10))
  {
  }

  /** Bit i is one where an odd number of the three bits are. */
  lemma BigSigma0At(x: bv32, i: bv32)
    requires i < 32
    ensures BitAt(BigSigma0(x), i) == ((BitAt(x, (i + 2) & 31) != BitAt(x, (i + 13) & 31)) != BitAt(x, (i + 22) & 31))
  {
    Rot2(x, i);
    Rot13(x, i);
    Rot22(x, i);
    hide BitAt, RotR;
    XorAt(RotR(x, 2) ^ RotR(x, 13), RotR(x, 22), i);
    XorAt(RotR(x, 2), RotR(x, 13), i);
  }

  lemma BigSigma1At(x: bv32, i: bv32)
    requires i < 32
    ensures BitAt(BigSigma1(x), i) == ((BitAt(x, (i + 6) & 31) != BitAt(x, (i + 11) & 31)) != BitAt(x, (i + 25) & 31))
  {
    Rot6(x, i);
    Rot11(x, i);
    Rot25(x, i);
    hide BitAt, RotR;
    XorAt(RotR(x, 6) ^ RotR(x, 11), RotR(x, 25), i);
    XorAt(RotR(x, 6), RotR(x, 11), i);
  }

  lemma SmallSigma0At(x: bv32, i: bv32)
    requires i < 32
    ensures BitAt(SmallSigma0(x), i) ==
            ((BitAt(x, (i + 7) & 31) != BitAt(x, (i + 18) & 31)) != (i < 29 && BitAt(x, i + 3)))
  {
    Rot7(x, i);
    Rot18(x, i);
    Shift3(x, i);
    hide BitAt, RotR;
    XorAt(RotR(x, 7) ^ RotR(x, 18), x >> 3, i);
    XorAt(RotR(x, 7), RotR(x, 18), i);
  }

  lemma SmallSigma1At(x: bv32, i: bv32)
    requires i < 32
    ensures BitAt(SmallSigma1(x), i) ==
            ((BitAt(x, (i + 17) & 31) != BitAt(x, (i + 19) & 31)) != (i < 22 && BitAt(x, i + 10)))
  {
    Rot17(x, i);
    Rot19(x, i);
    Shift10(x, i);
    hide BitAt, RotR;
    XorAt(RotR(x, 17) ^ RotR(x, 19), x >> 10, i);
    XorAt(RotR(x, 17), RotR(x, 19), i);
  }

  /** The eight bits from bit n on. */
  function Part(w: bv32, n: bv32): bv32
    requires n < 32
  {
    (w >> n) & 0xff
  }

  lemma WideByte(b: Byte)
    ensures Wide(b) <= 0xff
  {
  }

  /** The first byte of a word is its highest. */
  lemma BytePlaces(b0: Byte, b1: Byte, b2: Byte, b3: Byte)
    ensures var w := BigEndian(b0, b1, b2, b3);
            Part(w, 24) == Wide(b0) && Part(w, 16) == Wide(b1) && Part(w, 8) == Wide(b2) && Part(w, 0) == Wide(b3)
  {
    WideByte(b0);
    WideByte(b1);
    WideByte(b2);
    WideByte(b3);
    hide Wide;
  }

  lemma Restored(v: bv32)
    requires v <= 0xff
    ensures 0 <= v as nat < 256 && Wide(v as nat) == v
  {
  }

  lemma PartSmall(w: bv32, n: bv32)
    requires n < 32
    ensures Part(w, n) <= 0xff && ByteAt(w, n) == Part(w, n) as nat
  {
  }

  lemma WideByteAt(w: bv32, n: bv32)
    requires n < 32
    ensures Wide(ByteAt(w, n)) == Part(w, n)
  {
    hide Wide, ByteAt, Part;
    PartSmall(w, n);
    Restored(Part(w, n));
  }

  /** The same order when a word is stored. */
  lemma StateByteLaw(w: bv32)
    ensures Wide(StateByte(w, 0)) == Part(w, 24) && Wide(StateByte(w, 1)) == Part(w, 16)
    ensures Wide(StateByte(w, 2)) == Part(w, 8) && Wide(StateByte(w, 3)) == Part(w, 0)
  {
    hide Wide, StateByte, ByteAt, Part;
    Places(w);
    WideByteAt(w, 24);
    WideByteAt(w, 16);
    WideByteAt(w, 8);
    WideByteAt(w, 0);
  }

  lemma Places(w: bv32)
    ensures StateByte(w, 0) == ByteAt(w, 24) && StateByte(w, 1) == ByteAt(w, 16)
    ensures StateByte(w, 2) == ByteAt(w, 8) && StateByte(w, 3) == ByteAt(w, 0)
  {
    hide ByteAt;
  }

  lemma Joined(w: bv32)
    ensures (Part(w, 24) << 24) | (Part(w, 16) << 16) | (Part(w, 8) << 8) | Part(w, 0) == w
  {
  }

  /** Reading the bytes that are stored for a word gives the word. */
  lemma WordBack(w: bv32)
    ensures BigEndian(StateByte(w, 0), StateByte(w, 1), StateByte(w, 2), StateByte(w, 3)) == w
  {
    hide Wide, StateByte, Part;
    StateByteLaw(w);
    Joined(w);
  }
}
