/** The digest of "abc", the first example of FIPS 180-4: one block, followed word by word and round by round. */
module Sha256Abc {
  import opened Bytes
  import opened Sha256
  import opened Sha256Laws

  const ABC: seq<Byte> := [0x61, 0x62, 0x63]

  /** The only block of the padded message. */
  ghost predicate IsBlock(b: seq<Byte>) {
    |b| == 64 && b[0] == 0x61 && b[1] == 0x62 && b[2] == 0x63 && b[3] == 0x80 && b[63] == 24 &&
    forall i :: 4 <= i < 63 ==> b[i] == 0
  }

  lemma PaddedAbc()
    ensures IsBlock(Padded(ABC)) && HashBlocks(Padded(ABC)) == Compress(INITIAL, Padded(ABC))
  {
    var b := Padded(ABC);
    PaddedShape(ABC);
    assert b[..3] == ABC && b[0] == b[..3][0] && b[1] == b[..3][1] && b[2] == b[..3][2];
    LengthBytes();
    var field := b[|b| - 8..];
    assert field == LengthField(MessageBits(3));
    forall i | 4 <= i < 63
      ensures b[i] == 0
    {
      if i >= 56 { assert b[i] == field[i - 56]; }
    }
    assert b[63] == field[7];
    OneBlock(b);
  }

  lemma OneBlock(b: seq<Byte>)
    requires |b| == 64
    ensures HashBlocks(b) == Compress(INITIAL, b)
  {
    hide Compress;
    HashNone();
    HashBlocksStep([], b);
    assert [] + b == b;
  }

  /** 24 bits: seven zero bytes and 24. */
  lemma LengthBytes()
    ensures var f := LengthField(MessageBits(3)); |f| == 8 && f[7] == 24 && forall i :: 0 <= i < 7 ==> f[i] == 0
  {
    var f := LengthField(MessageBits(3));
    var want: seq<Byte> := [0, 0, 0, 0, 0, 0, 0, 24];
    SmallLength();
    assert BE(want) == 24 by {
      assert want[..7] == [0, 0, 0, 0, 0, 0, 0];
      ZeroBytesValue(want[..7]);
    }
    BEInjective(f, want);
  }

  lemma {:induction false} ZeroBytesValue(s: seq<Byte>)
    requires forall i :: 0 <= i < |s| ==> s[i] == 0
    ensures BE(s) == 0
  {
    if |s| > 0 { ZeroBytesValue(s[..|s| - 1]); }
  }

  lemma SmallLength()
    ensures BE(LengthField(MessageBits(3))) == 24
  {
    TwoTo64();
    FieldValue(24);
    hide LengthField, BE;
    assert MessageBits(3) == 24;
  }

  lemma WideBytes()
    ensures Wide(0) == 0 && Wide(24) == 24
    ensures Wide(0x61) == 0x61 && Wide(0x62) == 0x62 && Wide(0x63) == 0x63 && Wide(0x80) == 0x80
  {
  }

  /** The first sixteen words. */
  lemma FirstWords(b: seq<Byte>)
    requires IsBlock(b)
    ensures Schedule(b, 0) == 0x61626380 && Schedule(b, 15) == 0x18
    ensures forall t :: 1 <= t < 15 ==> Schedule(b, t) == 0
  {
    WideBytes();
    hide Wide, Schedule;
    assert BigEndian(0x61, 0x62, 0x63, 0x80) == 0x61626380;
    assert BigEndian(0, 0, 0, 24) == 0x18;
    assert BigEndian(0, 0, 0, 0) == 0;
    hide BigEndian;
    ScheduleLow(b, 0);
    ScheduleLow(b, 15);
    forall t | 1 <= t < 15
      ensures Schedule(b, t) == 0
    {
      ScheduleLow(b, t);
    }
  }

  /** One more word. */
  lemma Word(b: seq<Byte>, t: nat, w2: bv32, w7: bv32, w15: bv32, w16: bv32, w: bv32)
    requires |b| == 64 && 16 <= t < 64 && NextWord(w2, w7, w15, w16) == w
    requires Schedule(b, t - 2) == w2 && Schedule(b, t - 7) == w7
    requires Schedule(b, t - 15) == w15 && Schedule(b, t - 16) == w16
    ensures Schedule(b, t) == w
  {
    hide NextWord, Schedule;
    ScheduleHigh(b, t);
  }

  lemma Words16(b: seq<Byte>)
    requires IsBlock(b)
    ensures Schedule(b, 16) == 0x61626380 && Schedule(b, 17) == 0xf0000
    ensures Schedule(b, 18) == 0x7da86405 && Schedule(b, 19) == 0x600003c6
    ensures Schedule(b, 20) == 0x3e9d7b78 && Schedule(b, 21) == 0x183fc00
    ensures Schedule(b, 22) == 0x12dcbfdb && Schedule(b, 23) == 0xe2e2c38e
  {
    hide Schedule;
    FirstWords(b);
    Word(b, 16, 0x0, 0x0, 0x0, 0x61626380, 0x61626380);
    Word(b, 17, 0x18, 0x0, 0x0, 0x0, 0xf0000);
    Word(b, 18, 0x61626380, 0x0, 0x0, 0x0, 0x7da86405);
    Word(b, 19, 0xf0000, 0x0, 0x0, 0x0, 0x600003c6);
    Word(b, 20, 0x7da86405, 0x0, 0x0, 0x0, 0x3e9d7b78);
    Word(b, 21, 0x600003c6, 0x0, 0x0, 0x0, 0x183fc00);
    Word(b, 22, 0x3e9d7b78, 0x18, 0x0, 0x0, 0x12dcbfdb);
    Word(b, 23, 0x183fc00, 0x61626380, 0x0, 0x0, 0xe2e2c38e);
  }

  lemma Words24(b: seq<Byte>)
    requires IsBlock(b)
    ensures Schedule(b, 24) == 0xc8215c1a && Schedule(b, 25) == 0xb73679a2
    ensures Schedule(b, 26) == 0xe5bc3909 && Schedule(b, 27) == 0x32663c5b
    ensures Schedule(b, 28) == 0x9d209d67 && Schedule(b, 29) == 0xec8726cb
    ensures Schedule(b, 30) == 0x702138a4 && Schedule(b, 31) == 0xd3b7973b
  {
    hide Schedule;
    FirstWords(b);
    Words16(b);
    Word(b, 24, 0x12dcbfdb, 0xf0000, 0x0, 0x0, 0xc8215c1a);
    Word(b, 25, 0xe2e2c38e, 0x7da86405, 0x0, 0x0, 0xb73679a2);
    Word(b, 26, 0xc8215c1a, 0x600003c6, 0x0, 0x0, 0xe5bc3909);
    Word(b, 27, 0xb73679a2, 0x3e9d7b78, 0x0, 0x0, 0x32663c5b);
    Word(b, 28, 0xe5bc3909, 0x183fc00, 0x0, 0x0, 0x9d209d67);
    Word(b, 29, 0x32663c5b, 0x12dcbfdb, 0x0, 0x0, 0xec8726cb);
    Word(b, 30, 0x9d209d67, 0xe2e2c38e, 0x18, 0x0, 0x702138a4);
    Word(b, 31, 0xec8726cb, 0xc8215c1a, 0x61626380, 0x18, 0xd3b7973b);
  }

  lemma Words32(b: seq<Byte>)
    requires IsBlock(b)
    ensures Schedule(b, 32) == 0x93f5997f && Schedule(b, 33) == 0x3b68ba73
    ensures Schedule(b, 34) == 0xaff4ffc1 && Schedule(b, 35) == 0xf10a5c62
    ensures Schedule(b, 36) == 0xa8b3996 && Schedule(b, 37) == 0x72af830a
    ensures Schedule(b, 38) == 0x9409e33e && Schedule(b, 39) == 0x24641522
  {
    hide Schedule;
    Words16(b);
    Words24(b);
    Word(b, 32, 0x702138a4, 0xb73679a2, 0xf0000, 0x61626380, 0x93f5997f);
    Word(b, 33, 0xd3b7973b, 0xe5bc3909, 0x7da86405, 0xf0000, 0x3b68ba73);
    Word(b, 34, 0x93f5997f, 0x32663c5b, 0x600003c6, 0x7da86405, 0xaff4ffc1);
    Word(b, 35, 0x3b68ba73, 0x9d209d67, 0x3e9d7b78, 0x600003c6, 0xf10a5c62);
    Word(b, 36, 0xaff4ffc1, 0xec8726cb, 0x183fc00, 0x3e9d7b78, 0xa8b3996);
    Word(b, 37, 0xf10a5c62, 0x702138a4, 0x12dcbfdb, 0x183fc00, 0x72af830a);
    Word(b, 38, 0xa8b3996, 0xd3b7973b, 0xe2e2c38e, 0x12dcbfdb, 0x9409e33e);
    Word(b, 39, 0x72af830a, 0x93f5997f, 0xc8215c1a, 0xe2e2c38e, 0x24641522);
  }

  lemma Words40(b: seq<Byte>)
    requires IsBlock(b)
    ensures Schedule(b, 40) == 0x9f47bf94 && Schedule(b, 41) == 0xf0a64f5a
    ensures Schedule(b, 42) == 0x3e246a79 && Schedule(b, 43) == 0x27333ba3
    ensures Schedule(b, 44) == 0xc4763f2 && Schedule(b, 45) == 0x840abf27
    ensures Schedule(b, 46) == 0x7a290d5d && Schedule(b, 47) == 0x65c43da
  {
    hide Schedule;
    Words24(b);
    Words32(b);
    Word(b, 40, 0x9409e33e, 0x3b68ba73, 0xb73679a2, 0xc8215c1a, 0x9f47bf94);
    Word(b, 41, 0x24641522, 0xaff4ffc1, 0xe5bc3909, 0xb73679a2, 0xf0a64f5a);
    Word(b, 42, 0x9f47bf94, 0xf10a5c62, 0x32663c5b, 0xe5bc3909, 0x3e246a79);
    Word(b, 43, 0xf0a64f5a, 0xa8b3996, 0x9d209d67, 0x32663c5b, 0x27333ba3);
    Word(b, 44, 0x3e246a79, 0x72af830a, 0xec8726cb, 0x9d209d67, 0xc4763f2);
    Word(b, 45, 0x27333ba3, 0x9409e33e, 0x702138a4, 0xec8726cb, 0x840abf27);
    Word(b, 46, 0xc4763f2, 0x24641522, 0xd3b7973b, 0x702138a4, 0x7a290d5d);
    Word(b, 47, 0x840abf27, 0x9f47bf94, 0x93f5997f, 0xd3b7973b, 0x65c43da);
  }

  lemma Words48(b: seq<Byte>)
    requires IsBlock(b)
    ensures Schedule(b, 48) == 0xfb3e89cb && Schedule(b, 49) == 0xcc7617db
    ensures Schedule(b, 50) == 0xb9e66c34 && Schedule(b, 51) == 0xa9993667
    ensures Schedule(b, 52) == 0x84badedd && Schedule(b, 53) == 0xc21462bc
    ensures Schedule(b, 54) == 0x1487472c && Schedule(b, 55) == 0xb20f7a99
  {
    hide Schedule;
    Words32(b);
    Words40(b);
    Word(b, 48, 0x7a290d5d, 0xf0a64f5a, 0x3b68ba73, 0x93f5997f, 0xfb3e89cb);
    Word(b, 49, 0x65c43da, 0x3e246a79, 0xaff4ffc1, 0x3b68ba73, 0xcc7617db);
    Word(b, 50, 0xfb3e89cb, 0x27333ba3, 0xf10a5c62, 0xaff4ffc1, 0xb9e66c34);
    Word(b, 51, 0xcc7617db, 0xc4763f2, 0xa8b3996, 0xf10a5c62, 0xa9993667);
    Word(b, 52, 0xb9e66c34, 0x840abf27, 0x72af830a, 0xa8b3996, 0x84badedd);
    Word(b, 53, 0xa9993667, 0x7a290d5d, 0x9409e33e, 0x72af830a, 0xc21462bc);
    Word(b, 54, 0x84badedd, 0x65c43da, 0x24641522, 0x9409e33e, 0x1487472c);
    Word(b, 55, 0xc21462bc, 0xfb3e89cb, 0x9f47bf94, 0x24641522, 0xb20f7a99);
  }

  lemma Words56(b: seq<Byte>)
    requires IsBlock(b)
    ensures Schedule(b, 56) == 0xef57b9cd && Schedule(b, 57) == 0xebe6b238
    ensures Schedule(b, 58) == 0x9fe3095e && Schedule(b, 59) == 0x78bc8d4b
    ensures Schedule(b, 60) == 0xa43fcf15 && Schedule(b, 61) == 0x668b2ff8
    ensures Schedule(b, 62) == 0xeeaba2cc && Schedule(b, 63) == 0x12b1edeb
  {
    hide Schedule;
    Words40(b);
    Words48(b);
    Word(b, 56, 0x1487472c, 0xcc7617db, 0xf0a64f5a, 0x9f47bf94, 0xef57b9cd);
    Word(b, 57, 0xb20f7a99, 0xb9e66c34, 0x3e246a79, 0xf0a64f5a, 0xebe6b238);
    Word(b, 58, 0xef57b9cd, 0xa9993667, 0x27333ba3, 0x3e246a79, 0x9fe3095e);
    Word(b, 59, 0xebe6b238, 0x84badedd, 0xc4763f2, 0x27333ba3, 0x78bc8d4b);
    Word(b, 60, 0x9fe3095e, 0xc21462bc, 0x840abf27, 0xc4763f2, 0xa43fcf15);
    Word(b, 61, 0x78bc8d4b, 0x1487472c, 0x7a290d5d, 0x840abf27, 0x668b2ff8);
    Word(b, 62, 0xa43fcf15, 0xb20f7a99, 0x65c43da, 0x7a290d5d, 0xeeaba2cc);
    Word(b, 63, 0x668b2ff8, 0xef57b9cd, 0xfb3e89cb, 0x65c43da, 0x12b1edeb);
  }

  /** One more round, with the two variables that are new. */
  lemma OneRound(b: seq<Byte>, t: nat, r: Regs, k: bv32, w: bv32, a: bv32, e: bv32) returns (s: Regs)
    requires |b| == 64 && t < 64 && Rounds(INITIAL, b, t) == r && RoundConstant(t) == k && Schedule(b, t) == w
    requires Round(r, k, w) == Regs(a, r.a, r.b, r.c, e, r.e, r.f, r.g)
    ensures s == Regs(a, r.a, r.b, r.c, e, r.e, r.f, r.g) && Rounds(INITIAL, b, t + 1) == s
  {
    hide Round, RoundConstant, Schedule, Rounds;
    RoundsStep(INITIAL, b, t);
    s := Regs(a, r.a, r.b, r.c, e, r.e, r.f, r.g);
  }

  lemma Rounds8(b: seq<Byte>)
    requires IsBlock(b)
    ensures Rounds(INITIAL, b, 8) ==
            Regs(0x85a07b5f, 0xe5030380, 0x2b4209f5, 0x4409a6a, 0xc657a79, 0x9b27a401, 0x714260ad, 0x43ada245)
  {
    hide Schedule, Rounds;
    RoundsNone(INITIAL, b);
    FirstWords(b);
    var r := INITIAL;
    r := OneRound(b, 0, r, 0x428a2f98, 0x61626380, 0x5d6aebcd, 0xfa2a4622);
    r := OneRound(b, 1, r, 0x71374491, 0x0, 0x5a6ad9ad, 0x78ce7989);
    r := OneRound(b, 2, r, 0xb5c0fbcf, 0x0, 0xc8c347a7, 0xf92939eb);
    r := OneRound(b, 3, r, 0xe9b5dba5, 0x0, 0xd550f666, 0x24e00850);
    r := OneRound(b, 4, r, 0x3956c25b, 0x0, 0x4409a6a, 0x43ada245);
    r := OneRound(b, 5, r, 0x59f111f1, 0x0, 0x2b4209f5, 0x714260ad);
    r := OneRound(b, 6, r, 0x923f82a4, 0x0, 0xe5030380, 0x9b27a401);
    r := OneRound(b, 7, r, 0xab1c5ed5, 0x0, 0x85a07b5f, 0xc657a79);
  }

  lemma Rounds16(b: seq<Byte>)
    requires IsBlock(b)
    ensures Rounds(INITIAL, b, 16) ==
            Regs(0xb0fa238e, 0xc0645fde, 0xd932eb16, 0x87912990, 0x7590dcd, 0xb92f20c, 0x745a48de, 0x1e578218)
  {
    hide Schedule, Rounds;
    Rounds8(b);
    FirstWords(b);
    var r := Regs(0x85a07b5f, 0xe5030380, 0x2b4209f5, 0x4409a6a, 0xc657a79, 0x9b27a401, 0x714260ad, 0x43ada245);
    r := OneRound(b, 8, r, 0xd807aa98, 0x0, 0x8e04ecb9, 0x32ca2d8c);
    r := OneRound(b, 9, r, 0x12835b01, 0x0, 0x8c87346b, 0x1cc92596);
    r := OneRound(b, 10, r, 0x243185be, 0x0, 0x4798a3f4, 0x436b23e8);
    r := OneRound(b, 11, r, 0x550c7dc3, 0x0, 0xf71fc5a9, 0x816fd6e9);
    r := OneRound(b, 12, r, 0x72be5d74, 0x0, 0x87912990, 0x1e578218);
    r := OneRound(b, 13, r, 0x80deb1fe, 0x0, 0xd932eb16, 0x745a48de);
    r := OneRound(b, 14, r, 0x9bdc06a7, 0x0, 0xc0645fde, 0xb92f20c);
    r := OneRound(b, 15, r, 0xc19bf174, 0x18, 0xb0fa238e, 0x7590dcd);
  }

  lemma Rounds24(b: seq<Byte>)
    requires IsBlock(b)
    ensures Rounds(INITIAL, b, 24) ==
            Regs(0xc5d53d8d, 0xa7a3623f, 0xc2606d6d, 0x9dc68b63, 0xaa47c347, 0x49f5114a, 0xe1257970, 0x8ada8930)
  {
    hide Schedule, Rounds;
    Rounds16(b);
    Words16(b);
    var r := Regs(0xb0fa238e, 0xc0645fde, 0xd932eb16, 0x87912990, 0x7590dcd, 0xb92f20c, 0x745a48de, 0x1e578218);
    r := OneRound(b, 16, r, 0xe49b69c1, 0x61626380, 0x21da9a9b, 0x8034229c);
    r := OneRound(b, 17, r, 0xefbe4786, 0xf0000, 0xc2fbd9d1, 0x846ee454);
    r := OneRound(b, 18, r, 0xfc19dc6, 0x7da86405, 0xfe777bbf, 0xcc899961);
    r := OneRound(b, 19, r, 0x240ca1cc, 0x600003c6, 0xe1f20c33, 0xb0638179);
    r := OneRound(b, 20, r, 0x2de92c6f, 0x3e9d7b78, 0x9dc68b63, 0x8ada8930);
    r := OneRound(b, 21, r, 0x4a7484aa, 0x183fc00, 0xc2606d6d, 0xe1257970);
    r := OneRound(b, 22, r, 0x5cb0a9dc, 0x12dcbfdb, 0xa7a3623f, 0x49f5114a);
    r := OneRound(b, 23, r, 0x76f988da, 0xe2e2c38e, 0xc5d53d8d, 0xaa47c347);
  }

  lemma Rounds32(b: seq<Byte>)
    requires IsBlock(b)
    ensures Rounds(INITIAL, b, 32) ==
            Regs(0x73b33bf5, 0xea992a22, 0xa0060b30, 0x363482c9, 0xba591112, 0x109ab3a, 0xade79437, 0x6112a3b7)
  {
    hide Schedule, Rounds;
    Rounds24(b);
    Words24(b);
    var r := Regs(0xc5d53d8d, 0xa7a3623f, 0xc2606d6d, 0x9dc68b63, 0xaa47c347, 0x49f5114a, 0xe1257970, 0x8ada8930);
    r := OneRound(b, 24, r, 0x983e5152, 0xc8215c1a, 0x1c2c2838, 0x2823ef91);
    r := OneRound(b, 25, r, 0xa831c66d, 0xb73679a2, 0xcde8037d, 0x14383d8e);
    r := OneRound(b, 26, r, 0xb00327c8, 0xe5bc3909, 0xb62ec4bc, 0xc74c6516);
    r := OneRound(b, 27, r, 0xbf597fc7, 0x32663c5b, 0x77d37528, 0xedffbff8);
    r := OneRound(b, 28, r, 0xc6e00bf3, 0x9d209d67, 0x363482c9, 0x6112a3b7);
    r := OneRound(b, 29, r, 0xd5a79147, 0xec8726cb, 0xa0060b30, 0xade79437);
    r := OneRound(b, 30, r, 0x6ca6351, 0x702138a4, 0xea992a22, 0x109ab3a);
    r := OneRound(b, 31, r, 0x14292967, 0xd3b7973b, 0x73b33bf5, 0xba591112);
  }

  lemma Rounds40(b: seq<Byte>)
    requires IsBlock(b)
    ensures Rounds(INITIAL, b, 40) ==
            Regs(0x79ea687a, 0x6dc57a8a, 0x34df1604, 0x41a65cb1, 0x1efbc0a0, 0xf0781bc8, 0xa507a53d, 0x772a26b)
  {
    hide Schedule, Rounds;
    Rounds32(b);
    Words32(b);
    var r := Regs(0x73b33bf5, 0xea992a22, 0xa0060b30, 0x363482c9, 0xba591112, 0x109ab3a, 0xade79437, 0x6112a3b7);
    r := OneRound(b, 32, r, 0x27b70a85, 0x93f5997f, 0x98e12507, 0x9cd9f5f6);
    r := OneRound(b, 33, r, 0x2e1b2138, 0x3b68ba73, 0xfe604df5, 0x59249dd3);
    r := OneRound(b, 34, r, 0x4d2c6dfc, 0xaff4ffc1, 0xa9a7738c, 0x85f3833);
    r := OneRound(b, 35, r, 0x53380d13, 0xf10a5c62, 0x65a0cfe4, 0xf4b002d6);
    r := OneRound(b, 36, r, 0x650a7354, 0xa8b3996, 0x41a65cb1, 0x772a26b);
    r := OneRound(b, 37, r, 0x766a0abb, 0x72af830a, 0x34df1604, 0xa507a53d);
    r := OneRound(b, 38, r, 0x81c2c92e, 0x9409e33e, 0x6dc57a8a, 0xf0781bc8);
    r := OneRound(b, 39, r, 0x92722c85, 0x24641522, 0x79ea687a, 0x1efbc0a0);
  }

  lemma Rounds48(b: seq<Byte>)
    requires IsBlock(b)
    ensures Rounds(INITIAL, b, 48) ==
            Regs(0x4172328d, 0xa14c14b0, 0x72ab4b91, 0x26628815, 0xfecf0bc6, 0xd57b94a9, 0xb7755da1, 0xa80f11f0)
  {
    hide Schedule, Rounds;
    Rounds40(b);
    Words40(b);
    var r := Regs(0x79ea687a, 0x6dc57a8a, 0x34df1604, 0x41a65cb1, 0x1efbc0a0, 0xf0781bc8, 0xa507a53d, 0x772a26b);
    r := OneRound(b, 40, r, 0xa2bfe8a1, 0x9f47bf94, 0xd6670766, 0x26352d63);
    r := OneRound(b, 41, r, 0xa81a664b, 0xf0a64f5a, 0xdf46652f, 0x838b2711);
    r := OneRound(b, 42, r, 0xc24b8b70, 0x3e246a79, 0x17aa0dfe, 0xdecd4715);
    r := OneRound(b, 43, r, 0xc76c51a3, 0x27333ba3, 0x9d4baf93, 0xfda24c2e);
    r := OneRound(b, 44, r, 0xd192e819, 0xc4763f2, 0x26628815, 0xa80f11f0);
    r := OneRound(b, 45, r, 0xd6990624, 0x840abf27, 0x72ab4b91, 0xb7755da1);
    r := OneRound(b, 46, r, 0xf40e3585, 0x7a290d5d, 0xa14c14b0, 0xd57b94a9);
    r := OneRound(b, 47, r, 0x106aa070, 0x65c43da, 0x4172328d, 0xfecf0bc6);
  }

  lemma Rounds56(b: seq<Byte>)
    requires IsBlock(b)
    ensures Rounds(INITIAL, b, 56) ==
            Regs(0x38cc9913, 0x3ec45cdb, 0xf5702fdb, 0x101fd28f, 0x54cb266b, 0xe50e1b4f, 0x9f4787c3, 0x529e7d00)
  {
    hide Schedule, Rounds;
    Rounds48(b);
    Words48(b);
    var r := Regs(0x4172328d, 0xa14c14b0, 0x72ab4b91, 0x26628815, 0xfecf0bc6, 0xd57b94a9, 0xb7755da1, 0xa80f11f0);
    r := OneRound(b, 48, r, 0x19a4c116, 0xfb3e89cb, 0x5757ceb, 0xbd714038);
    r := OneRound(b, 49, r, 0x1e376c08, 0xcc7617db, 0xf11bfaa8, 0x6e5c390c);
    r := OneRound(b, 50, r, 0x2748774c, 0xb9e66c34, 0x7a0508a1, 0x52f1ccf7);
    r := OneRound(b, 51, r, 0x34b0bcb5, 0xa9993667, 0x886e7a22, 0x49231c1e);
    r := OneRound(b, 52, r, 0x391c0cb3, 0x84badedd, 0x101fd28f, 0x529e7d00);
    r := OneRound(b, 53, r, 0x4ed8aa4a, 0xc21462bc, 0xf5702fdb, 0x9f4787c3);
    r := OneRound(b, 54, r, 0x5b9cca4f, 0x1487472c, 0x3ec45cdb, 0xe50e1b4f);
    r := OneRound(b, 55, r, 0x682e6ff3, 0xb20f7a99, 0x38cc9913, 0x54cb266b);
  }

  lemma Rounds64(b: seq<Byte>)
    requires IsBlock(b)
    ensures Rounds(INITIAL, b, 64) ==
            Regs(0x506e3058, 0xd39a2165, 0x4d24d6c, 0xb85e2ce9, 0x5ef50f24, 0xfb121210, 0x948d25b6, 0x961f4894)
  {
    hide Schedule, Rounds;
    Rounds56(b);
    Words56(b);
    var r := Regs(0x38cc9913, 0x3ec45cdb, 0xf5702fdb, 0x101fd28f, 0x54cb266b, 0xe50e1b4f, 0x9f4787c3, 0x529e7d00);
    r := OneRound(b, 56, r, 0x748f82ee, 0xef57b9cd, 0xfcd1887b, 0x9b5e906c);
    r := OneRound(b, 57, r, 0x78a5636f, 0xebe6b238, 0xc062d46f, 0x7e44008e);
    r := OneRound(b, 58, r, 0x84c87814, 0x9fe3095e, 0xffb70472, 0x6d83bfc6);
    r := OneRound(b, 59, r, 0x8cc70208, 0x78bc8d4b, 0xb6ae8fff, 0xb21bad3d);
    r := OneRound(b, 60, r, 0x90befffa, 0xa43fcf15, 0xb85e2ce9, 0x961f4894);
    r := OneRound(b, 61, r, 0xa4506ceb, 0x668b2ff8, 0x4d24d6c, 0x948d25b6);
    r := OneRound(b, 62, r, 0xbef9a3f7, 0xeeaba2cc, 0xd39a2165, 0xfb121210);
    r := OneRound(b, 63, r, 0xc67178f2, 0x12b1edeb, 0x506e3058, 0x5ef50f24);
  }

  /** The four bytes of a word. */
  predicate HasBytes(w: bv32, b0: Byte, b1: Byte, b2: Byte, b3: Byte) {
    StateByte(w, 0) == b0 && StateByte(w, 1) == b1 && StateByte(w, 2) == b2 && StateByte(w, 3) == b3
  }

  lemma Bytes0()
    ensures HasBytes(0xba7816bf, 0xba, 0x78, 0x16, 0xbf)
    ensures HasBytes(0x8f01cfea, 0x8f, 0x01, 0xcf, 0xea)
  {
    hide StateByte;
    Places(0xba7816bf);
    Places(0x8f01cfea);
  }

  lemma Bytes8()
    ensures HasBytes(0x414140de, 0x41, 0x41, 0x40, 0xde)
    ensures HasBytes(0x5dae2223, 0x5d, 0xae, 0x22, 0x23)
  {
    hide StateByte;
    Places(0x414140de);
    Places(0x5dae2223);
  }

  lemma Bytes16()
    ensures HasBytes(0xb00361a3, 0xb0, 0x03, 0x61, 0xa3)
    ensures HasBytes(0x96177a9c, 0x96, 0x17, 0x7a, 0x9c)
  {
    hide StateByte;
    Places(0xb00361a3);
    Places(0x96177a9c);
  }

  lemma Bytes24()
    ensures HasBytes(0xb410ff61, 0xb4, 0x10, 0xff, 0x61)
    ensures HasBytes(0xf20015ad, 0xf2, 0x00, 0x15, 0xad)
  {
    hide StateByte;
    Places(0xb410ff61);
    Places(0xf20015ad);
  }

  lemma OutputWords(r: Regs)
    ensures |Output(r)| == 32
    ensures forall i :: 0 <= i < 32 ==> Output(r)[i] == StateByte(Column(r, i / 4), i % 4)
  {
    hide StateByte, Column;
  }

  /** The hash value after the block. */
  lemma HashAbc()
    ensures HashBlocks(Padded(ABC)) ==
            Regs(0xba7816bf, 0x8f01cfea, 0x414140de, 0x5dae2223, 0xb00361a3, 0x96177a9c, 0xb410ff61, 0xf20015ad)
  {
    hide Padded, HashBlocks, Rounds, Schedule;
    PaddedAbc();
    Rounds64(Padded(ABC));
  }

  /** The digest of "abc". */
  lemma DigestAbc()
    ensures Digest(ABC) == [
              0xba, 0x78, 0x16, 0xbf, 0x8f, 0x01, 0xcf, 0xea, 0x41, 0x41, 0x40, 0xde, 0x5d, 0xae, 0x22, 0x23,
              0xb0, 0x03, 0x61, 0xa3, 0x96, 0x17, 0x7a, 0x9c, 0xb4, 0x10, 0xff, 0x61, 0xf2, 0x00, 0x15, 0xad
            ]
  {
    hide Padded, HashBlocks, StateByte;
    HashAbc();
    Bytes0();
    Bytes8();
    Bytes16();
    Bytes24();
    OutputWords(HashBlocks(Padded(ABC)));
  }
}
