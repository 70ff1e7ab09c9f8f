/** The fast reduction modulo p = 2^256 - c for c = 2^32 + 977, in its 32-bit form, and exactly
    which products it reduces. */
module Secp256k1 {
  import opened Arith
  import opened Bits
  import opened Words
  import opened Vli
  import opened VliMod
  import opened Congruence

  const OMEGA: nat := 0x1000003D1

  /** The words of a field element for 32-bit words. */
  const WORDS: nat := 8

  /** 2^256 */
  const TOP: nat := Pow2(256)

  /** The modulus. */
  const MODULUS: int := TOP - OMEGA

  //
  // Multiplication by c
  //

  /** The first words of the product with 977 and the carry. */
  ghost predicate SmallInv(right: seq<Word>, done: seq<Word>, i: nat, carry: nat) {
    i <= |right| && |done| == i && carry < 0x3D1 && Val(done) + Pow(i) * carry == 0x3D1 * Val(right[..i])
  }

  lemma SmallStart(right: seq<Word>)
    ensures SmallInv(right, [], 0, 0)
  {
  }

  lemma SmallStep(right: seq<Word>, done: seq<Word>, i: nat, carry: nat)
    requires i < |right| && SmallInv(right, done, i, carry)
    ensures var p := 0x3D1 * right[i] + carry; 0 <= p / B && SmallInv(right, done + [Trunc(p)], i + 1, p / B)
  {
    hide Val, Pow, B;
    var p := 0x3D1 * right[i] + carry;
    BaseFacts();
    DivModDef(p, B);
    DivNonNeg(p, B);
    CarryBound(right[i], carry, p / B, p % B);
    ValSnoc(right, i);
    ValPush(done, Trunc(p));
    SmallColumn(Pow(i), Val(done), carry, Val(right[..i]), right[i], p % B, p / B);
    PowSucc(i);
  }

  lemma CarryBound(x: Word, carry: nat, q: nat, r: nat)
    requires carry < 0x3D1 && 0x3D1 * x + carry == B * q + r
    ensures q < 0x3D1
  {
    hide B;
    if q >= 0x3D1 { MulMono(B, 0x3D1, q); }
  }

  lemma SmallColumn(p: nat, d: nat, carry: nat, r: nat, x: nat, lo: nat, hi: nat)
    requires d + p * carry == 0x3D1 * r && 0x3D1 * x + carry == B * hi + lo
    ensures (d + p * lo) + (B * p) * hi == 0x3D1 * (r + p * x)
  {
    hide B;
    MulDist(p, 0x3D1 * x, carry);
    MulDist(p, B * hi, lo);
    MulSwap(p, B, hi);
    MulSwap(p, 0x3D1, x);
    MulAssoc(0x3D1, p, x);
  }

  /** result = c * right, on WORDS + 2 words. */
  method OmegaMult(result: array<Word>, right: array<Word>, off: nat)
    requires WORD_SIZE == 4 && result != right && WORDS + 2 <= result.Length && off + WORDS <= right.Length
    modifies result
    ensures V(result, WORDS + 2) == OMEGA * Val(right[off..off + WORDS])
    ensures result[WORDS + 2..] == old(result[WORDS + 2..])
  {
    hide Val, Pow, B, Trunc;
    ghost var r := right[off..off + WORDS];
    ghost var done: seq<Word> := [];
    var carry: nat := 0;
    SmallStart(r);
    for k := 0 to WORDS
      invariant result[..k] == done
      invariant result[WORDS + 2..] == old(result[WORDS + 2..])
      invariant SmallInv(r, done, k, carry)
    {
      SmallStep(r, done, k, carry);
      assert right[off + k] == r[k];
      var p := 0x3D1 * right[off + k] + carry;
      result[k] := Trunc(p);
      carry := p / B;
      done := done + [Trunc(p)];
    }
    CarryFits(carry);
    result[WORDS] := carry;
    ghost var low := result[0];
    ghost var mid := result[1..1 + WORDS];
    assert r[..WORDS] == r;
    assert result[..WORDS] == done && result[..WORDS + 1] == done + [result[WORDS]] == [low] + mid;
    var c := AddAt(result, 1, result, 1, right, off, WORDS);
    result[1 + WORDS] := c;
    assert result[..WORDS + 2] == [low] + (result[1..1 + WORDS] + [c]);
    OmegaSum(low, mid, done, carry, r, result[1..1 + WORDS], c);
  }

  lemma CarryFits(carry: nat)
    requires carry < 0x3D1 && WORD_SIZE == 4
    ensures carry < B
  {
    Pow2Mono(10, WORD_BITS);
    assert Pow2(10) == 1024 by { assert Pow2(5) == 32; Pow2Add(5, 5); }
  }

  /** Adding right one word up multiplies by 2^32 more. */
  lemma OmegaSum(low: Word, mid: seq<Word>, done: seq<Word>, carry: Word, r: seq<Word>, sum: seq<Word>, c: Word)
    requires WORD_SIZE == 4 && |r| == WORDS && |mid| == WORDS && |sum| == WORDS && |done| == WORDS
    requires done + [carry] == [low] + mid && r[..WORDS] == r && SmallInv(r, done, WORDS, carry)
    requires Val(sum) + Pow(WORDS) * c == Val(mid) + Val(r)
    ensures Val([low] + (sum + [c])) == OMEGA * Val(r)
  {
    hide Val, Pow, B;
    ValPush(done, carry);
    ValPush(sum, c);
    ValOfCons(low, mid);
    ValOfCons(low, sum + [c]);
    BaseIs();
    assert B * Val(sum + [c]) == B * Val(mid) + B * Val(r) by { MulDist(B, Val(mid), Val(r)); }
  }

  lemma ValOfCons(x: Word, s: seq<Word>)
    ensures Val([x] + s) == x + B * Val(s)
  {
    assert ([x] + s)[1..] == s;
  }

  lemma BaseIs()
    requires WORD_SIZE == 4
    ensures B == 0x1_0000_0000
  {
    assert Pow2(8) == 256;
    Pow2Add(8, 8);
    Pow2Add(16, 16);
  }

  //
  // The value of the reduction
  //

  /** The low halves of the product and of c times its high half, added up. */
  function FoldLow(x: nat): nat {
    DivNonNeg(x, TOP);
    DivModDef(x, TOP);
    DivModDef(OMEGA * (x / TOP), TOP);
    x % TOP + (OMEGA * (x / TOP)) % TOP
  }

  /** What c times the high half has above 2^256. */
  function FoldHigh(x: nat): nat {
    DivNonNeg(x, TOP);
    DivNonNeg(OMEGA * (x / TOP), TOP);
    (OMEGA * (x / TOP)) / TOP
  }

  /** The product with its upper half folded in twice: lo + q + rq * c for c * hi = q + 2^256 rq. */
  function Folded(x: nat): nat {
    FoldLow(x) + OMEGA * FoldHigh(x)
  }

  /** A number of 256 bits and its carry. */
  function Carried(r: nat, carry: nat): nat {
    r + TOP * carry
  }

  /** v - k * p modulo 2^256. */
  function Dropped(v: nat, k: nat): nat {
    DivModDef(v - k * MODULUS, TOP);
    (v - k * MODULUS) % TOP
  }

  /** What the code returns: the carries are turned into subtractions of p modulo 2^256, and one
      more subtraction follows when the result is above p. */
  function FastValue(x: nat): nat {
    var t := Folded(x);
    DivNonNeg(t, TOP);
    var r := Dropped(t, t / TOP);
    if r > MODULUS then r - MODULUS else r
  }

  /** The folded values that lose a carry. */
  predicate LosesCarry(t: nat) {
    2 * TOP - OMEGA <= t < 2 * TOP
  }

  lemma SmallPowers()
    ensures Pow2(8) == 256
  {
    assert Pow2(4) == 16;
    Pow2Add(4, 4);
  }

  lemma TopLarge()
    ensures TOP >= 0x1_0000_0000_0000_0000_00 && MODULUS > 2 * OMEGA && MODULUS < TOP < 2 * MODULUS
  {
    hide Pow2;
    SmallPowers();
    Pow2Add(8, 8);
    Pow2Add(16, 16);
    Pow2Add(32, 32);
    Pow2Add(64, 8);
    Pow2Mono(72, 256);
  }

  lemma TopIsPow()
    requires WORD_SIZE == 4
    ensures Pow(8) == TOP
  {
    PowIsPow2(8);
  }

  /** The parts of a product. */
  lemma Parts(x: nat) returns (lo: nat, hi: nat, q: nat, rq: nat)
    ensures x == lo + TOP * hi && lo < TOP && OMEGA * hi == q + TOP * rq && q < TOP && Folded(x) == lo + q + OMEGA * rq
  {
    hide Pow2;
    TopLarge();
    DivNonNeg(x, TOP);
    lo, hi := x % TOP, x / TOP;
    DivNonNeg(OMEGA * hi, TOP);
    DivModDef(OMEGA * hi, TOP);
    DivModDef(x, TOP);
    q, rq := (OMEGA * hi) % TOP, (OMEGA * hi) / TOP;
  }

  /** Folding keeps the remainder modulo p, and keeps zero and nonzero apart. */
  lemma FoldedCong(x: nat)
    ensures MODULUS > 0 && Cong(Folded(x), x, MODULUS) && (Folded(x) == 0 <==> x == 0)
  {
    hide Pow2, TOP, OMEGA, Folded, Cong;
    TopLarge();
    var lo, hi, q, rq := Parts(x);
    FoldAlgebra(TOP, OMEGA, lo, hi, q, rq);
    CongIntro(Folded(x), x, MODULUS, -(hi as int + rq));
    OmegaPositive();
    if Folded(x) == 0 { FoldedZero(OMEGA, TOP, hi, q, rq); }
    if x == 0 { FoldedZero2(OMEGA, TOP, lo, hi, q, rq); }
  }

  lemma OmegaPositive()
    ensures OMEGA == 0x1000003D1
  {
  }

  lemma FoldAlgebra(top: int, c: int, lo: int, hi: int, q: int, rq: int)
    requires c * hi == q + top * rq
    ensures (lo + q + c * rq) - (lo + top * hi) == (top - c) * -(hi + rq)
  {
    MulNeg(top - c, hi + rq);
    MulDist(top - c, hi, rq);
    MulSpread(top, c, hi);
    MulSpread(top, c, rq);
  }

  lemma MulSpread(a: int, b: int, x: int)
    ensures (a - b) * x == a * x - b * x
  {
  }

  lemma FoldedZero(c: nat, top: nat, hi: nat, q: nat, rq: nat)
    requires c > 0 && top > 0 && c * hi == q + top * rq && q == 0 && c * rq == 0
    ensures hi == 0
  {
    if rq > 0 { MulAtLeast(c, rq); }
    assert top * 0 == 0;
    if hi > 0 { MulAtLeast(c, hi); }
  }

  lemma FoldedZero2(c: nat, top: nat, lo: nat, hi: nat, q: nat, rq: nat)
    requires c > 0 && top > 0 && c * hi == q + top * rq && lo + top * hi == 0
    ensures lo + q + c * rq == 0
  {
    if hi > 0 { MulAtLeast(top, hi); }
    assert c * 0 == 0;
    if rq > 0 { MulAtLeast(top, rq); }
  }

  /** The folded value of a product of two field-sized numbers. */
  lemma FoldedBound(x: nat)
    requires x < TOP * TOP
    ensures Folded(x) < 2 * TOP + OMEGA * OMEGA
  {
    hide Pow2, TOP, OMEGA, Folded;
    TopLarge();
    OmegaPositive();
    var lo, hi, q, rq := Parts(x);
    if hi >= TOP { MulMono(TOP, TOP, hi); }
    if rq >= OMEGA {
      MulMono(TOP, OMEGA, rq);
      MulMono(OMEGA, hi, TOP - 1);
      MulDist(OMEGA, TOP, -1);
    }
    MulMono(OMEGA, rq, OMEGA);
  }

  /** The code's subtractions, case by case. */
  lemma FastCases(x: nat)
    requires x < TOP * TOP
    ensures MODULUS > 0 && FastValue(x) <= MODULUS
    ensures LosesCarry(Folded(x)) ==> FastValue(x) == Folded(x) - 2 * TOP + OMEGA
    ensures !LosesCarry(Folded(x)) ==> Cong(FastValue(x), Folded(x), MODULUS) && (FastValue(x) == 0 <==> Folded(x) == 0)
  {
    hide Pow2, TOP, Folded, Cong;
    TopLarge();
    FoldedBound(x);
    var t := Folded(x);
    var k := if t < TOP then 0 else if t < 2 * TOP then 1 else 2;
    ModUnique(t, TOP, k, t - k * TOP);
    var raw := t - k * MODULUS;
    var w := if raw >= TOP then 1 else 0;
    ModUnique(raw, TOP, w, raw - w * TOP);
    var r := raw - w * TOP;
    if !LosesCarry(t) {
      CongIntro(r, t, MODULUS, -k);
      CongIntro(r - MODULUS, t, MODULUS, -k - 1);
    }
  }

  /** The fast reduction exactly: x modulo p, except that nonzero multiples of p give p itself, and
      products whose folded value loses a carry give a number that is too small by c. */
  lemma FastExact(x: nat)
    requires x < TOP * TOP
    ensures MODULUS > 0
    ensures FastValue(x) ==
            if LosesCarry(Folded(x)) then x % MODULUS - OMEGA
            else if x > 0 && x % MODULUS == 0 then MODULUS
            else x % MODULUS
  {
    hide Pow2, TOP, OMEGA, MODULUS, Folded, FastValue, Cong;
    TopLarge();
    FastCases(x);
    FoldedCong(x);
    var t, v := Folded(x), FastValue(x);
    CongSameMod(t, x, MODULUS);
    if LosesCarry(t) {
      LostRemainder(t, x % MODULUS);
    } else {
      CongSameMod(v, t, MODULUS);
      if v < MODULUS { ModSmall(v, MODULUS); } else { ModUnique(MODULUS, MODULUS, 1, 0); }
    }
  }

  /** When the fast reduction is the reduction. */
  lemma FastReduces(x: nat)
    requires x < TOP * TOP
    ensures MODULUS > 0
    ensures FastValue(x) == x % MODULUS <==> !LosesCarry(Folded(x)) && !(x > 0 && x % MODULUS == 0)
  {
    hide Pow2, TOP, MODULUS, Folded, FastValue;
    TopLarge();
    FastExact(x);
  }

  lemma LostRemainder(t: nat, r: int)
    requires MODULUS > 0 && LosesCarry(t) && t % MODULUS == r
    ensures r == t - 2 * TOP + 2 * OMEGA
  {
    hide Pow2, TOP;
    TopLarge();
    ModUnique(t, MODULUS, 2, t - 2 * MODULUS);
  }

  lemma FoldedOf(lo: nat, hi: nat)
    requires lo < TOP && 0 <= OMEGA * hi < TOP
    ensures TOP * hi >= 0 && Folded(lo + TOP * hi) == lo + OMEGA * hi
  {
    hide Pow2, OMEGA;
    MulMono(TOP, 0, hi);
    ModUnique(lo + TOP * hi, TOP, hi, lo);
    ModSmall(OMEGA * hi, TOP);
    assert OMEGA * 0 == 0;
  }

  /** Two field elements whose product loses the carry. */
  const LOST_LEFT: nat := 0x2AE1E872AE6C8B0C90C32DC70EFE1C26DAED2124990F5A8A0F9CA7157E4
  const LOST_RIGHT: nat := 0x5F8453AECC5C86A5CAE0FD51B1543E17FA73FB2287CB3CF3E88404DEFBE9D5

  lemma TopValue()
    ensures TOP == 0x10000000000000000000000000000000000000000000000000000000000000000
  {
    hide Pow2;
    SmallPowers();
    Pow2Add(8, 8);
    Pow2Add(16, 16);
    Pow2Add(32, 32);
    Pow2Add(64, 64);
    Pow2Add(128, 128);
  }

  /** The fast reduction does not reduce every product of two numbers below p: the one of these two loses the
      carry, and the result is too small by c. */
  lemma LosingProduct()
    ensures LOST_LEFT < MODULUS && LOST_RIGHT < MODULUS && LOST_LEFT * LOST_RIGHT < TOP * TOP
    ensures LosesCarry(Folded(LOST_LEFT * LOST_RIGHT))
    ensures FastValue(LOST_LEFT * LOST_RIGHT) == (LOST_LEFT * LOST_RIGHT) % MODULUS - OMEGA
  {
    hide Pow2, Folded, FastValue;
    TopValue();
    var lo := 0xFFFFFFFFFFFFFFFFFFFFFFFFFFFFFFFFFFFFFFFFFFFFFFFFFFFFFFFF7DD8A4B4;
    var hi := 0xFFFFFC2F000E90A0C86A0A63234E5BA641F43A7E4AECC4040E67EC85;
    assert LOST_LEFT * LOST_RIGHT == lo + TOP * hi;
    FoldedOf(lo, hi);
    FastExact(LOST_LEFT * LOST_RIGHT);
  }

  //
  // The reduction on arrays
  //

  /** The high words of the first product hold its quotient by 2^256. */
  lemma HighWords(t: seq<Word>, x: nat)
    requires WORD_SIZE == 4 && |t| == 16 && Val(t[..10]) == x && t[10..] == seq(6, _ => 0)
    ensures 0 <= x / TOP == Val(t[8..16]) && Val(t[..8]) == x % TOP
  {
    hide Val, Pow, Pow2, TOP;
    TopIsPow();
    ValSplit(t, 10);
    ValZeros(t[10..]);
    assert Pow(10) * 0 == 0;
    ValSplit(t, 8);
    ValBound(t[..8]);
    assert t[8..] == t[8..16];
    ModUnique(x, TOP, Val(t[8..16]), Val(t[..8]));
  }

  /** Subtracting p modulo 2^256. */
  lemma SubStep(x: int, v: nat, d: nat, borrow: nat, n: nat)
    requires WORD_SIZE == 4 && v == x % TOP && d < TOP && borrow <= 1 && d - Pow(8) * borrow == v - MODULUS
    ensures d == (x - MODULUS) % TOP
  {
    hide Pow, Pow2, TOP, MODULUS;
    TopIsPow();
    DivModDef(x, TOP);
    MulDist(TOP, x / TOP, -(borrow as int));
    MulNeg(TOP, borrow);
    ModUnique(x - MODULUS, TOP, x / TOP - borrow, d);
  }

  /** result = result - carry * p, word by word, without looking at the borrows. */
  method DropCarries(result: array<Word>, p: array<Word>, carry: nat)
    requires WORD_SIZE == 4 && WORDS <= result.Length && WORDS <= p.Length && result != p && V(p, WORDS) == MODULUS
    modifies result
    ensures V(result, WORDS) == Dropped(old(V(result, WORDS)), carry)
    ensures result[WORDS..] == old(result[WORDS..])
  {
    hide Val, Pow, Pow2, TOP, MODULUS;
    ghost var r := V(result, WORDS);
    var left := carry;
    TopIsPow();
    ValBound(result[..WORDS]);
    ModSmall(r, TOP);
    assert 0 * MODULUS == 0;
    while left > 0
      invariant 0 <= left <= carry
      invariant V(result, WORDS) == (r - (carry - left) * MODULUS) % TOP
      invariant result[WORDS..] == old(result[WORDS..])
    {
      left := left - 1;
      ghost var v := V(result, WORDS);
      var borrow := Sub(result, result, p, WORDS);
      ValBound(result[..WORDS]);
      SubStep(r - (carry - left - 1) * MODULUS, v, V(result, WORDS), borrow, WORDS);
      OneMore(r, carry - left - 1, MODULUS);
    }
  }

  lemma OneMore(r: int, j: int, m: int)
    ensures r - j * m - m == r - (j + 1) * m
  {
  }

  /** The first fold: tmp = c * hi, and the sum of the low halves. */
  method FoldOnce(result: array<Word>, product: array<Word>, tmp: array<Word>) returns (carry: Word)
    requires WORD_SIZE == 4 && WORDS <= result.Length && product.Length == 2 * WORDS && tmp.Length == 2 * WORDS
    requires result != product && result != tmp && tmp != product
    modifies result, tmp
    ensures var x := V(product, 2 * WORDS);
            FoldHigh(x) == Val(tmp[WORDS..2 * WORDS]) && carry <= 1 && Carried(V(result, WORDS), carry) == FoldLow(x)
    ensures result[WORDS..] == old(result[WORDS..])
  {
    hide Val, Pow, Pow2, TOP, OMEGA;
    Clear(tmp, WORDS);
    ClearAt(tmp, WORDS, WORDS);
    assert tmp[10..] == seq(6, _ => 0) by { assert tmp[10..] == tmp[8..16][2..]; }
    OmegaMult(tmp, product, WORDS);
    ProductHalves(product[..]);
    assert product[..] == product[..2 * WORDS];
    assert product[..][8..16] == product[WORDS..WORDS + WORDS];
    assert tmp[..][..10] == tmp[..WORDS + 2] && tmp[..][10..] == tmp[10..] && tmp[..][8..16] == tmp[8..16];
    HighWords(tmp[..], V(tmp, WORDS + 2));
    TopIsPow();
    assert tmp[..][..8] == tmp[..WORDS] && product[..][..8] == product[..WORDS];
    carry := Add(result, product, tmp, WORDS);
  }

  lemma ProductHalves(s: seq<Word>)
    requires WORD_SIZE == 4 && |s| == 16
    ensures 0 <= Val(s) / TOP == Val(s[8..16]) && Val(s) % TOP == Val(s[..8])
  {
    hide Val, Pow, Pow2, TOP;
    TopIsPow();
    ValSplit(s, 8);
    ValBound(s[..8]);
    assert s[8..] == s[8..16];
    ModUnique(Val(s), TOP, Val(s[8..16]), Val(s[..8]));
  }

  /** The second fold: c times the words above 2^256 of the first. */
  method FoldTwice(result: array<Word>, product: array<Word>, tmp: array<Word>) returns (carry: Word)
    requires WORD_SIZE == 4 && WORDS <= result.Length && product.Length == 2 * WORDS && tmp.Length == 2 * WORDS
    requires result != product && result != tmp && tmp != product && Val(tmp[WORDS..2 * WORDS]) < OMEGA
    modifies result, product
    ensures carry <= 1
    ensures Carried(V(result, WORDS), carry) == old(V(result, WORDS)) + OMEGA * old(Val(tmp[WORDS..2 * WORDS]))
    ensures result[WORDS..] == old(result[WORDS..])
  {
    hide Val, Pow, Pow2, TOP, OMEGA;
    ghost var rq := Val(tmp[WORDS..2 * WORDS]);
    Clear(product, WORDS);
    assert tmp[WORDS..2 * WORDS] == tmp[WORDS..WORDS + WORDS];
    OmegaMult(product, tmp, WORDS);
    SquareSmall(rq);
    TopIsPow();
    LowWords(product[..WORDS + 2], WORDS);
    assert product[..WORDS + 2][..WORDS] == product[..WORDS];
    carry := Add(result, result, product, WORDS);
  }

  lemma SquareSmall(rq: nat)
    requires rq < OMEGA
    ensures 0 <= OMEGA * rq < TOP
  {
    hide Pow2, TOP;
    TopLarge();
  }

  /** The quotient that overflows the first fold is below c. */
  lemma SecondSmall(x: nat)
    requires x < TOP * TOP
    ensures FoldHigh(x) < OMEGA
  {
    hide Pow2, TOP, OMEGA;
    TopLarge();
    OmegaPositive();
    DivNonNeg(x, TOP);
    DivModDef(x, TOP);
    var hi := x / TOP;
    if hi >= TOP { MulMono(TOP, TOP, hi); }
    DivModDef(OMEGA * hi, TOP);
    MulMono(OMEGA, 0, hi);
    DivNonNeg(OMEGA * hi, TOP);
    var rq := (OMEGA * hi) / TOP;
    if rq >= OMEGA {
      MulMono(TOP, OMEGA, rq);
      MulMono(OMEGA, hi, TOP - 1);
      MulDist(OMEGA, TOP, -1);
    }
  }

  /** The carries count how often 2^256 goes into the folded value. */
  lemma CarriesCount(x: nat, r1: nat, c1: nat, r2: nat, c2: nat)
    requires Carried(r1, c1) == FoldLow(x) && Carried(r2, c2) == r1 + OMEGA * FoldHigh(x) && r2 < TOP
    ensures 0 <= Folded(x) / TOP && Dropped(r2, c1 + c2) == Dropped(Folded(x), Folded(x) / TOP)
  {
    assert Folded(x) == FoldLow(x) + OMEGA * FoldHigh(x);
    hide Pow2, TOP, OMEGA, MODULUS, Folded, FoldLow, FoldHigh;
    TopLarge();
    var t, k := Folded(x), c1 + c2;
    MulDist(TOP, c1, c2);
    ModUnique(t, TOP, k, r2);
    var raw := r2 - k * MODULUS;
    DivModDef(raw, TOP);
    MulDist(TOP, raw / TOP, k);
    ModUnique(t - k * MODULUS, TOP, raw / TOP + k, raw % TOP);
  }

  /** The last subtraction: only above p, not at p itself. */
  method LastSubtraction(result: array<Word>, p: array<Word>)
    requires WORD_SIZE == 4 && WORDS <= result.Length && WORDS <= p.Length && result != p && V(p, WORDS) == MODULUS
    modifies result
    ensures var r := old(V(result, WORDS)); V(result, WORDS) == if r > MODULUS then r - MODULUS else r
    ensures result[WORDS..] == old(result[WORDS..])
  {
    hide Val, Pow, Pow2, TOP, OMEGA, MODULUS;
    var c := CmpUnsafe(result, p, WORDS);
    if c > 0 {
      ghost var r := V(result, WORDS);
      ValBound(result[..WORDS]);
      ValBound(p[..WORDS]);
      var borrow := Sub(result, result, p, WORDS);
      ValBound(result[..WORDS]);
      BorrowDecides(WORDS, r, V(p, WORDS), V(result, WORDS), borrow);
    }
  }

  /** vli_mmod_fast_secp256k1. */
  method MmodFast(result: array<Word>, product: array<Word>, p: array<Word>)
    requires WORD_SIZE == 4 && WORDS <= result.Length && product.Length == 2 * WORDS && WORDS <= p.Length
    requires result != product && result != p && product != p && V(p, WORDS) == MODULUS
    modifies result, product
    ensures V(result, WORDS) == FastValue(old(V(product, 2 * WORDS)))
    ensures result[WORDS..] == old(result[WORDS..])
  {
    hide Val, Pow, Pow2, TOP, OMEGA, MODULUS, Folded, Dropped, FoldLow, FoldHigh, Carried;
    ghost var x := V(product, 2 * WORDS);
    ProductRange(product[..2 * WORDS]);
    SecondSmall(x);
    var tmp := new Word[2 * WORDS];
    var c1 := FoldOnce(result, product, tmp);
    ghost var r1 := V(result, WORDS);
    var c2 := FoldTwice(result, product, tmp);
    ghost var r2 := V(result, WORDS);
    TopIsPow();
    ValBound(result[..WORDS]);
    CarriesCount(x, r1, c1, r2, c2);
    DropCarries(result, p, c1 as nat + c2 as nat);
    LastSubtraction(result, p);
  }

  lemma ProductRange(s: seq<Word>)
    requires WORD_SIZE == 4 && |s| == 16
    ensures Val(s) < TOP * TOP
  {
    ValBound(s);
    TopIsPow();
    hide Val, Pow, Pow2, TOP;
    PowAdd(8, 8);
  }
}
