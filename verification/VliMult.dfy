/** Schoolbook multiplication and squaring, one result column at a time, with a running sum
    held in three words. */
module VliMult {
  import opened Arith
  import opened Bits
  import opened Words
  import opened Vli

  /** Whether the compiler has a 128-bit type; without one, 64-bit words are multiplied by halves. */
  const SUPPORTS_INT128: bool

  /** The number held in the three accumulator words. */
  function Acc(r0: Word, r1: Word, r2: Word): nat {
    r0 + B * (r1 + B * r2)
  }

  function Product(x: nat, y: nat): nat {
    x * y
  }

  /** The number held in two words. */
  function Two(lo: Word, hi: Word): nat {
    lo + B * hi
  }

  /** A carry out of two words, at its place value. */
  function Carries(c: nat): nat {
    BB * c
  }

  lemma AccBound(r0: Word, r1: Word, r2: Word)
    ensures Acc(r0, r1, r2) < Pow(3)
  {
    var s := [r0, r1, r2];
    assert s[1..] == [r1, r2] && s[1..][1..] == [r2];
    ValOne(r2);
    ValBound(s);
  }

  //
  // One product
  //

  const HALF: nat := Pow2(32)

  lemma HalfFacts()
    requires WORD_SIZE == 8
    ensures B == HALF * HALF && HALF > 2
  {
    Pow2Add(32, 32);
  }

  lemma HalfProduct(h: nat, x: nat, y: nat)
    requires x < h && y < h
    ensures x * y + 2 * h <= h * h + 1
  {
    MulMono(x, y, h - 1);
    MulMono(h - 1, x, h - 1);
  }

  /** The low and high half of a word, and a word shifted up by a half. */
  function Low(x: Word): nat
    requires WORD_SIZE == 8
  {
    And(x, HALF - 1)
  }

  function High(x: Word): nat
    requires WORD_SIZE == 8
  {
    DivNonNeg(x, HALF);
    x / HALF
  }

  function Up(x: Word): Word
    requires WORD_SIZE == 8
  {
    Trunc(x * HALF)
  }

  lemma Halves(x: Word)
    requires WORD_SIZE == 8
    ensures x == HALF * High(x) + Low(x) && 0 <= Low(x) < HALF && 0 <= High(x) < HALF
  {
    hide And, B;
    HalfFacts();
    assert HALF == Pow2(32) by { HalfDef(); }
    hide Pow2, HALF;
    AndLowMask(x, 32);
    DivModDef(x, HALF);
    if High(x) >= HALF { MulMono(HALF, HALF, High(x)); }
  }

  lemma UpIsLow(x: Word)
    requires WORD_SIZE == 8
    ensures Up(x) == HALF * Low(x)
  {
    hide Low, High, HALF, B;
    HalfFacts();
    Halves(x);
    var h, l := High(x), Low(x);
    assert x * HALF == B * h + HALF * l by { MulDist(HALF, HALF * h, l); MulAssoc(HALF, HALF, h); }
    MulMono(HALF, l, HALF - 1);
    MulDist(HALF, HALF, -1);
    MulMono(HALF, 0, l);
    ModUnique(x * HALF, B, h, HALF * l);
  }

  lemma JoinHalves(lo: Word, hi: Word)
    requires WORD_SIZE == 8
    ensures Or(Low(lo), Up(hi)) == Low(lo) + HALF * Low(hi) < B
  {
    hide Or, Low, High, Up, B;
    assert HALF == Pow2(32) by { HalfDef(); }
    hide HALF, Pow2;
    HalfFacts();
    Halves(lo);
    Halves(hi);
    UpIsLow(hi);
    ModOfMultiple(Low(hi), HALF);
    OrSymmetric(Low(lo), Up(hi));
    OrDisjoint(Up(hi), Low(lo), 32);
    MulMono(HALF, Low(hi), HALF - 1);
    MulDist(HALF, HALF, -1);
  }

  /** The four half-word products with the middle carry make up the whole product. */
  lemma HalfAlgebra(h: nat, a0: nat, a1: nat, b0: nat, b1: nat, q0: nat, m0: nat, s: nat, c: nat, sh: nat, sl: nat)
    requires a0 * b0 == h * q0 + m0
    requires a1 * b0 + q0 + a0 * b1 == s + c * (h * h)
    requires s == h * sh + sl
    ensures (h * a1 + a0) * (h * b1 + b0) == (m0 + h * sl) + (h * h) * (a1 * b1 + c * h + sh)
  {
    var i1, i2, i3 := a0 * b1, a1 * b0, a1 * b1;
    assert (h * a1 + a0) * (h * b1 + b0) == (h * h) * i3 + h * (i1 + i2) + a0 * b0 by {
      MulDist(h * a1 + a0, h * b1, b0);
      assert (h * a1 + a0) * (h * b1) == (h * h) * i3 + h * i1 by { Regroup(h, a1, a0, b1); }
      assert (h * a1 + a0) * b0 == h * i2 + a0 * b0 by { MulDist(b0, h * a1, a0); MulAssoc(h, a1, b0); }
      MulDist(h, i1, i2);
    }
    assert h * (i1 + i2) == h * (s + c * (h * h)) - h * q0 by { MulDist(h, i1 + i2, q0); }
    assert h * (s + c * (h * h)) == (h * h) * sh + h * sl + (h * h) * (c * h) by { Regroup2(h, s, c, sh, sl); }
    MulDist3(h * h, i3, c * h, sh);
  }

  lemma Regroup(h: nat, a1: nat, a0: nat, b1: nat)
    ensures (h * a1 + a0) * (h * b1) == (h * h) * (a1 * b1) + h * (a0 * b1)
  {
    MulDist(h * b1, h * a1, a0);
    MulAssoc(h * a1, h, b1);
    assert (h * a1) * h == (h * h) * a1;
    MulAssoc(h * h, a1, b1);
    MulSwap(a0, h, b1);
    MulAssoc(h, a0, b1);
  }

  lemma Regroup2(h: nat, s: nat, c: nat, sh: nat, sl: nat)
    requires s == h * sh + sl
    ensures h * (s + c * (h * h)) == (h * h) * sh + h * sl + (h * h) * (c * h)
  {
    MulDist3(h, h * sh, sl, c * (h * h));
    MulAssoc(h, h, sh);
    assert h * (c * (h * h)) == (h * h) * (c * h) by { MulAssoc(h, c, h * h); }
  }

  lemma HalfDef()
    ensures HALF == Pow2(32)
  {
  }

  lemma SmallProduct(x: nat, y: nat)
    requires WORD_SIZE == 8 && x < HALF && y < HALF
    ensures Product(x, y) + 2 * HALF <= B + 1
  {
    hide B;
    HalfFacts();
    hide HALF;
    HalfProduct(HALF, x, y);
  }

  /** The half-word products recombined into two words. */
  lemma HalfCombine(a: Word, b: Word, i2: Word, c: nat, p0: Word, p1: nat)
    requires WORD_SIZE == 8
    requires var i0 := Product(Low(a), Low(b));
             i0 < B &&
             Product(High(a), Low(b)) + High(i0) + Product(Low(a), High(b)) == i2 + (if c == 0 then 0 else B) &&
             p0 == Low(i0) + HALF * Low(i2)
    requires c <= 1 && p1 == Product(High(a), High(b)) + (if c == 0 then 0 else HALF) + High(i2)
    ensures p1 < B && Product(a, b) == Two(p0, p1)
  {
    hide Low, High, B, HALF;
    HalfFacts();
    var i0 := Product(Low(a), Low(b));
    Halves(a);
    Halves(b);
    Halves(i0);
    Halves(i2);
    HalfAlgebra(HALF, Low(a), High(a), Low(b), High(b), High(i0), Low(i0), i2, c, High(i2), Low(i2));
    TopWordFits(a, b, p0, p1);
  }

  /** The high word of a product of two words. */
  lemma TopWordFits(a: Word, b: Word, p0: int, p1: int)
    requires Product(a, b) == p0 + B * p1 && 0 <= p0
    ensures p1 < B
  {
    hide B;
    if p1 >= B {
      MulMono(B, B, p1);
      MulMono(a, b, B - 1);
      MulMono(B - 1, a, B - 1);
    }
  }

  /** A product of two 64-bit words as two words, computed from four half-word products. */
  method WideMulHalves(a: Word, b: Word) returns (p0: Word, p1: Word)
    requires WORD_SIZE == 8
    ensures Product(a, b) == Two(p0, p1)
  {
    hide Low, High, Up, Or, Trunc, B, HALF, Product, Two;
    HalfLess();
    Halves(a);
    Halves(b);
    var a0, a1 := Low(a), High(a);
    var b0, b1 := Low(b), High(b);
    SmallProduct(a0, b0);
    SmallProduct(a0, b1);
    SmallProduct(a1, b0);
    SmallProduct(a1, b1);
    var i0: Word := Product(a0, b0);
    var i1: Word := Product(a0, b1);
    var i2: Word := Product(a1, b0);
    var i3: Word := Product(a1, b1);
    Halves(i0);
    i2 := i2 + High(i0);
    AddWord(i1, i2, 0);
    i2 := Trunc(i2 + i1);
    ghost var c: nat := if i2 < i1 then 1 else 0;
    if i2 < i1 {
      i3 := i3 + HALF;
    }
    JoinHalves(i0, i2);
    Halves(i2);
    p0 := Or(Low(i0), Up(i2));
    HalfCombine(a, b, i2, c, p0, i3 + High(i2));
    p1 := i3 + High(i2);
  }

  lemma HalfLess()
    requires WORD_SIZE == 8
    ensures 2 < HALF < B
  {
    HalfFacts();
    hide HALF, B;
    MulAtLeast(HALF, HALF - 1);
  }

  //
  // Adding a product to the accumulator
  //

  /** A double word. */
  const BB: nat := B * B

  function TruncD(x: nat): (r: nat) {
    DivModDef(x, BB);
    x % BB
  }

  lemma BBFacts()
    ensures BB == B * B && BB > 0 && Pow(3) == B * BB
  {
    assert Pow(1) == B && Pow(2) == B * B && Pow(3) == B * (B * B);
  }

  /** A wrapped sum is smaller than an operand exactly when it wrapped. */
  lemma AddDouble(x: nat, p: nat)
    requires x < BB && p < BB
    ensures x + p == TruncD(x + p) + Carries(if TruncD(x + p) < p then 1 else 0)
    ensures TruncD(x + p) < BB
  {
    hide BB;
    BBFacts();
    if x + p < BB { ModSmall(x + p, BB); } else { ModUnique(x + p, BB, 1, x + p - BB); }
  }

  lemma CarriesAdd(c: nat, d: nat)
    ensures Carries(c + d) == Carries(c) + Carries(d)
  {
    MulDist(BB, c, d);
  }

  lemma TruncTwice(x: int, y: int)
    ensures Trunc(Trunc(x) + y) == Trunc(x + y)
  {
    hide B;
    BaseFacts();
    var q, r := x / B, x % B;
    DivModDef(x, B);
    DivModDef(r + y, B);
    MulDist(B, q, (r + y) / B);
    ModUnique(x + y, B, q + (r + y) / B, (r + y) % B);
  }

  /** Two low words updated with carry c, and the third word taking the carry. */
  lemma AccUpdate(r0: Word, r1: Word, r2: Word, add: nat, s0: Word, s1: Word, c: nat)
    requires Two(r0, r1) + add == Two(s0, s1) + Carries(c)
    ensures Acc(s0, s1, Trunc(r2 + c)) == (Acc(r0, r1, r2) + add) % Pow(3)
  {
    hide B, BB, Pow;
    BBFacts();
    AccExpand(r0, r1, r2);
    var s2 := Trunc(r2 + c);
    AccExpand(s0, s1, s2);
    AccBound(s0, s1, s2);
    DivModDef(r2 + c, B);
    var q := (r2 + c) / B;
    MulDist(BB, r2, c);
    MulDist(BB, s2, B * q);
    MulAssoc(BB, B, q);
    ModUnique(Acc(r0, r1, r2) + add, Pow(3), q, Acc(s0, s1, s2));
  }

  lemma AccExpand(r0: Word, r1: Word, r2: Word)
    ensures Acc(r0, r1, r2) == (r0 + B * r1) + BB * r2
  {
    hide B;
    MulDist(B, r1, B * r2);
    MulAssoc(B, B, r2);
  }

  lemma ProductFits(a: Word, b: Word)
    ensures Product(a, b) < BB && Product(a, b) <= (B - 1) * (B - 1)
  {
    hide B;
    MulMono(a, 0, b);
    MulMono(a, b, B - 1);
    MulMono(B - 1, a, B - 1);
    MulDist(B - 1, B, -1);
    MulDist(B, B, -1);
  }

  /** A double word shifted down by a word. */
  function Upper(x: nat): nat {
    BaseFacts();
    DivNonNeg(x, B);
    x / B
  }

  /** A double word split into its two words. */
  lemma SplitDouble(x: nat)
    requires x < BB
    ensures Upper(x) < B && x == Two(Trunc(x), Upper(x))
  {
    hide B;
    DivModDef(x, B);
    if x / B >= B { MulMono(B, B, x / B); }
  }

  /** Two words joined by a shift and an or. */
  function Join(hi: Word, lo: Word): nat {
    Or(hi * B, lo)
  }

  lemma JoinWords(lo: Word, hi: Word)
    ensures Join(hi, lo) == Two(lo, hi) < BB
  {
    hide Or;
    assert B == Pow2(WORD_BITS) by { BaseDef(); }
    hide B, Pow2;
    ModOfMultiple(hi, B);
    OrDisjoint(hi * B, lo, WORD_BITS);
    MulMono(B, hi, B - 1);
    MulDist(B, B, -1);
  }

  /** The two ripple steps of the half-word variant: the second carry test of the source. */
  lemma RippleCarry(r0: Word, r1: Word, p0: Word, p1: Word)
    ensures var s0 := Trunc(r0 + p0);
            var c0 := if s0 < p0 then 1 else 0;
            var s1 := Trunc(r1 + Trunc(p1 + c0));
            var c := if s1 < p1 || (s1 == p1 && s0 < p0) then 1 else 0;
            Two(r0, r1) + Two(p0, p1) == Two(s0, s1) + Carries(c)
  {
    hide B, Trunc;
    var s0 := Trunc(r0 + p0);
    var c0: Word := if s0 < p0 then 1 else 0;
    AddWord(p0, r0, 0);
    assert r0 + p0 == s0 + B * c0;
    TruncTwice(p1 + c0, r1);
    var s1 := Trunc(r1 + Trunc(p1 + c0));
    var c := if s1 < p1 || (s1 == p1 && s0 < p0) then 1 else 0;
    AddWord(p1, r1, c0);
    assert r1 + p1 + c0 == s1 + B * c;
    MulDist3(B, r1, p1, c0);
    MulDist(B, s1, B * c);
    MulAssoc(B, B, c);
  }

  method MulAdd(a: Word, b: Word, r0: Word, r1: Word, r2: Word) returns (s0: Word, s1: Word, s2: Word)
    ensures Acc(s0, s1, s2) == (Acc(r0, r1, r2) + Product(a, b)) % Pow(3)
  {
    hide Pow, Acc, Two, Carries, Product, Trunc, TruncD, Upper, Join, BB, B;
    if WORD_SIZE == 8 && !SUPPORTS_INT128 {
      var p0, p1 := WideMulHalves(a, b);
      RippleCarry(r0, r1, p0, p1);
      s0 := Trunc(r0 + p0);
      var c0: nat := if s0 < p0 then 1 else 0;
      s1 := Trunc(r1 + Trunc(p1 + c0));
      var c := if s1 < p1 || (s1 == p1 && s0 < p0) then 1 else 0;
      s2 := Trunc(r2 + c);
      AccUpdate(r0, r1, r2, Product(a, b), s0, s1, c);
    } else {
      ProductFits(a, b);
      JoinWords(r0, r1);
      var p := Product(a, b);
      var r01 := Join(r1, r0);
      AddDouble(r01, p);
      r01 := TruncD(r01 + p);
      var c := if r01 < p then 1 else 0;
      s2 := Trunc(r2 + c);
      SplitDouble(r01);
      s1 := Upper(r01);
      s0 := Trunc(r01);
      AccUpdate(r0, r1, r2, p, s0, s1, c);
    }
  }

  //
  // Column sums
  //

  /** The contribution of word i of left to column k. */
  function Term(l: seq<Word>, r: seq<Word>, i: nat, k: nat): nat
    requires i < |l|
  {
    if 0 <= k - i < |r| then Product(l[i], r[k - i]) else 0
  }

  /** Column k, restricted to the first m words of left. */
  function Conv(l: seq<Word>, r: seq<Word>, m: nat, k: nat): nat
    requires m <= |l|
  {
    if m == 0 then 0 else Conv(l, r, m - 1, k) + Term(l, r, m - 1, k)
  }

  /** The columns below k, each at its place value. */
  function Columns(l: seq<Word>, r: seq<Word>, m: nat, k: nat): nat
    requires m <= |l|
  {
    if k == 0 then 0 else Columns(l, r, m, k - 1) + Pow(k - 1) * Conv(l, r, m, k - 1)
  }

  lemma {:induction false} ColumnsEmpty(l: seq<Word>, r: seq<Word>, k: nat)
    ensures Columns(l, r, 0, k) == 0
  {
    if k > 0 {
      ColumnsEmpty(l, r, k - 1);
      assert Pow(k - 1) * 0 == 0;
    }
  }

  /** Word m of left adds its multiple of right, shifted by m places. */
  lemma {:induction false} ColumnsStep(l: seq<Word>, r: seq<Word>, m: nat, k: nat)
    requires m < |l|
    ensures Columns(l, r, m + 1, k) == Columns(l, r, m, k) +
            (if k <= m then 0 else Pow(m) * (l[m] * Val(r[..if k - m <= |r| then k - m else |r|])))
  {
    if k == 0 {
    } else {
      ColumnsStep(l, r, m, k - 1);
      hide Pow, Val, Columns;
      assert Columns(l, r, m + 1, k) == Columns(l, r, m + 1, k - 1) + Pow(k - 1) * Conv(l, r, m + 1, k - 1)
          && Columns(l, r, m, k) == Columns(l, r, m, k - 1) + Pow(k - 1) * Conv(l, r, m, k - 1) by {
        ColumnsDef(l, r, m, k);
        ColumnsDef(l, r, m + 1, k);
      }
      MulDist(Pow(k - 1), Conv(l, r, m, k - 1), Term(l, r, m, k - 1));
      if k <= m {
        assert Pow(k - 1) * 0 == 0;
      } else if k - m <= |r| {
        PlaceValue(m, k - 1 - m, l[m], r);
        if k - 1 == m { assert r[..0] == []; ValNil(); assert Pow(m) * (l[m] * 0) == 0; }
      } else {
        assert Pow(k - 1) * 0 == 0;
      }
    }
  }

  /** The product of two digits lands at the sum of their places. */
  lemma PlaceValue(m: nat, j: nat, x: Word, r: seq<Word>)
    requires j < |r|
    ensures Pow(m) * (x * Val(r[..j + 1])) == Pow(m) * (x * Val(r[..j])) + Pow(m + j) * Product(x, r[j])
  {
    hide Pow, Val;
    var p, q, y := Pow(m), Pow(j), r[j];
    ValSnoc(r, j);
    PowAdd(m, j);
    MulDist(x, Val(r[..j]), q * y);
    MulDist(p, x * Val(r[..j]), x * (q * y));
    MulSwap(x, q, y);
    MulAssoc(q, x, y);
    MulAssoc(p, q, x * y);
  }

  lemma ColumnsDef(l: seq<Word>, r: seq<Word>, m: nat, k: nat)
    requires m <= |l| && k > 0
    ensures Columns(l, r, m, k) == Columns(l, r, m, k - 1) + Pow(k - 1) * Conv(l, r, m, k - 1)
  {
  }

  lemma ValNil()
    ensures Val([]) == 0
  {
  }

  /** The columns add up to the product. */
  lemma {:induction false} ColumnsAreProduct(l: seq<Word>, r: seq<Word>, m: nat, k: nat)
    requires m <= |l| && |r| > 0 && k >= m + |r| - 1
    ensures Columns(l, r, m, k) == Val(l[..m]) * Val(r)
  {
    hide Pow, Val, Columns;
    if m == 0 {
      ColumnsEmpty(l, r, k);
      assert l[..0] == [];
      ValNil();
    } else {
      ColumnsAreProduct(l, r, m - 1, k);
      ColumnsStep(l, r, m - 1, k);
      assert r[..|r|] == r;
      ValSnoc(l, m - 1);
      MulDist(Val(r), Val(l[..m - 1]), Pow(m - 1) * l[m - 1]);
      MulAssoc(Pow(m - 1), l[m - 1], Val(r));
    }
  }

  //
  // The multiplication loop
  //

  /** The largest product of two words. */
  const MAX_PRODUCT: nat := Product(B - 1, B - 1)

  lemma ProductBound(x: Word, y: Word)
    ensures Product(x, y) <= MAX_PRODUCT
  {
    ProductFits(x, y);
  }

  lemma {:induction false} ConvBound(l: seq<Word>, r: seq<Word>, m: nat, k: nat)
    requires m <= |l|
    ensures Conv(l, r, m, k) <= m * MAX_PRODUCT
  {
    hide MAX_PRODUCT, Product, B;
    if m > 0 {
      ConvBound(l, r, m - 1, k);
      var i := m - 1;
      if 0 <= k - i < |r| { ProductBound(l[i], r[k - i]); }
      MulDist(MAX_PRODUCT, i, 1);
    }
  }

  /** A column sum on top of the carry of the column before never leaves three words. */
  lemma NoOverflow(n: nat, base: nat, column: nat)
    requires n <= B && base <= n * B && column <= n * MAX_PRODUCT
    ensures base + column < Pow(3)
    ensures base + column <= B * (n * B)
  {
    BBFacts();
    BaseFacts();
    hide B, Pow;
    assert MAX_PRODUCT + B + (B - 1) == BB by { MulDist(B - 1, B, -1); MulDist(B, B, -1); }
    hide MAX_PRODUCT;
    MulDist3(n, MAX_PRODUCT, B, B - 1);
    MulMono(n, 0, B - 1);
    assert n * BB == B * (n * B) by { MulSwap(n, B, B); MulAssoc(B, n, B); }
    if n > 0 { MulMono(n, 1, B - 1); }
    MulMono(BB, n, B);
    assert base + column < Pow(3) by {
      if n == 0 { MulAtLeast(BB, B); }
    }
  }

  /** State between two columns: the digits written and the carry make up the columns so far. */
  ghost predicate ColumnInv(l: seq<Word>, r: seq<Word>, digits: seq<Word>, k: nat, carry: nat)
  {
    |digits| == k && carry <= |l| * B &&
    Val(digits) + Pow(k) * carry == Columns(l, r, |l|, k)
  }

  lemma ColumnStart(l: seq<Word>, r: seq<Word>)
    ensures ColumnInv(l, r, [], 0, Acc(0, 0, 0))
  {
    assert B * 0 == 0;
    assert Acc(0, 0, 0) == 0;
    assert |l| * B >= 0 by { MulMono(B, 0, |l|); }
  }

  lemma ColumnDone(l: seq<Word>, r: seq<Word>, digits: seq<Word>, k: nat, carry: nat, r0: Word, r1: Word, r2: Word)
    requires ColumnInv(l, r, digits, k, carry) && |l| <= B
    requires Acc(r0, r1, r2) == carry + Conv(l, r, |l|, k)
    ensures ColumnInv(l, r, digits + [r0], k + 1, Acc(r1, r2, 0))
  {
    BaseFacts();
    hide B, Val, Pow, Conv;
    var n, next := |l|, Acc(r1, r2, 0);
    assert Acc(r0, r1, r2) == r0 + B * next && next >= 0 by { assert B * 0 == 0; }
    hide Acc;
    ConvBound(l, r, n, k);
    NoOverflow(n, carry, Conv(l, r, n, k));
    if next > n * B { MulMono(B, n * B + 1, next); MulDist(B, n * B, 1); }
    ColumnsDef(l, r, n, k + 1);
    hide Columns;
    MulDist(Pow(k), carry, Conv(l, r, n, k));
    MulDist(Pow(k), r0, B * next);
    MulSwap(Pow(k), B, next);
    PowSucc(k);
    ValPush(digits, r0);
  }

  /** One more product in the running column. */
  lemma ColumnAdd(l: seq<Word>, r: seq<Word>, digits: seq<Word>, carry: nat, i: nat, k: nat, acc: nat)
    requires i < |l| <= B && i <= k < i + |r| && ColumnInv(l, r, digits, k, carry)
    requires acc == (carry + Conv(l, r, i, k) + Product(l[i], r[k - i])) % Pow(3)
    ensures acc == carry + Conv(l, r, i + 1, k)
  {
    hide Pow, B;
    ConvBound(l, r, i + 1, k);
    hide Product, MAX_PRODUCT;
    MulMono(MAX_PRODUCT, i + 1, |l|);
    NoOverflow(|l|, carry, Conv(l, r, i + 1, k));
    ModSmall(carry + Conv(l, r, i + 1, k), Pow(3));
  }

  /** Words above the diagonal of column k contribute nothing. */
  lemma {:induction false} ConvOutside(l: seq<Word>, r: seq<Word>, m: nat, m': nat, k: nat)
    requires m <= m' <= |l|
    requires m == m' || k < m || k >= m' - 1 + |r|
    ensures Conv(l, r, m', k) == Conv(l, r, m, k)
    decreases m'
  {
    if m < m' { ConvOutside(l, r, m, m' - 1, k); }
  }

  /** The finished columns are the product, so the last accumulator is a single word. */
  lemma ProductDone(l: seq<Word>, r: seq<Word>, digits: seq<Word>, r0: Word, r1: Word, r2: Word)
    requires |l| == |r| > 0 && ColumnInv(l, r, digits, 2 * |l| - 1, Acc(r0, r1, r2))
    ensures Val(digits + [r0]) == Val(l) * Val(r)
  {
    BaseFacts();
    hide B, Val, Pow, Columns;
    var n, k := |l|, 2 * |l| - 1;
    ColumnsAreProduct(l, r, n, k);
    assert l[..n] == l;
    var acc := Acc(r0, r1, r2);
    assert Val(l) * Val(r) < Pow(k) * B by { PowerProduct(l, r); }
    if acc >= B { MulMono(Pow(k), B, acc); }
    assert acc == r0 by {
      hide Acc;
      LastDigit(r0, r1, r2);
    }
    ValPush(digits, r0);
  }

  lemma LastDigit(r0: Word, r1: Word, r2: Word)
    requires Acc(r0, r1, r2) < B
    ensures Acc(r0, r1, r2) == r0
  {
    BaseFacts();
    hide B;
    MulMono(B, 0, r2);
    if r1 + B * r2 > 0 { MulAtLeast(B, r1 + B * r2); }
  }

  lemma PowerProduct(l: seq<Word>, r: seq<Word>)
    requires |l| == |r| > 0
    ensures Val(l) * Val(r) < Pow(2 * |l| - 1) * B
  {
    hide Val, Pow, B;
    var p := Pow(|l|);
    ValBound(l);
    ValBound(r);
    PowAdd(|l|, |l|);
    PowSucc(2 * |l| - 1);
    MulMono(Val(l), Val(r), p - 1);
    MulMono(p - 1, Val(l), p - 1);
    MulDist(p - 1, p, -1);
    MulDist(p, p, -1);
  }

  method Mult(result: array<Word>, left: array<Word>, right: array<Word>, n: nat)
    requires 0 < n <= MAX_WORDS && n <= left.Length && n <= right.Length && 2 * n <= result.Length
    requires result != left && result != right
    modifies result
    ensures V(result, 2 * n) == V(left, n) * V(right, n)
    ensures result[2 * n..] == old(result[2 * n..])
  {
    BaseFacts();
    hide B, Val, Pow, Columns, Conv, Acc, Product, ColumnInv;
    ghost var l, r := left[..n], right[..n];
    ghost var digits: seq<Word> := [];
    var r0: Word, r1: Word, r2: Word := 0, 0, 0;
    ColumnStart(l, r);
    var k := 0;
    while k < n
      invariant 0 <= k <= n
      invariant result[..k] == digits && result[2 * n..] == old(result[2 * n..])
      invariant ColumnInv(l, r, digits, k, Acc(r0, r1, r2))
    {
      ghost var carry := Acc(r0, r1, r2);
      var i := 0;
      ConvDef(l, r, k);
      while i <= k
        invariant 0 <= i <= k + 1
        invariant Acc(r0, r1, r2) == carry + Conv(l, r, i, k)
        modifies {}
      {
        assert left[i] == l[i] && right[k - i] == r[k - i];
        r0, r1, r2 := MulAdd(left[i], right[k - i], r0, r1, r2);
        ColumnAdd(l, r, digits, carry, i, k, Acc(r0, r1, r2));
        i := i + 1;
      }
      ConvOutside(l, r, k + 1, n, k);
      ColumnDone(l, r, digits, k, carry, r0, r1, r2);
      result[k] := r0;
      digits := digits + [r0];
      r0 := r1;
      r1 := r2;
      r2 := 0;
      k := k + 1;
    }
    k := n;
    while k < n * 2 - 1
      invariant n <= k <= 2 * n - 1
      invariant result[..k] == digits && result[2 * n..] == old(result[2 * n..])
      invariant ColumnInv(l, r, digits, k, Acc(r0, r1, r2))
    {
      ghost var carry := Acc(r0, r1, r2);
      var i := (k + 1) - n;
      ConvOutside(l, r, 0, i, k);
      ConvDef(l, r, k);
      while i < n
        invariant (k + 1) - n <= i <= n
        invariant Acc(r0, r1, r2) == carry + Conv(l, r, i, k)
        modifies {}
      {
        assert left[i] == l[i] && right[k - i] == r[k - i];
        r0, r1, r2 := MulAdd(left[i], right[k - i], r0, r1, r2);
        ColumnAdd(l, r, digits, carry, i, k, Acc(r0, r1, r2));
        i := i + 1;
      }
      ColumnDone(l, r, digits, k, carry, r0, r1, r2);
      result[k] := r0;
      digits := digits + [r0];
      r0 := r1;
      r1 := r2;
      r2 := 0;
      k := k + 1;
    }
    ProductDone(l, r, digits, r0, r1, r2);
    result[n * 2 - 1] := r0;
    assert result[..2 * n] == digits + [r0];
  }

  lemma ConvDef(l: seq<Word>, r: seq<Word>, k: nat)
    ensures Conv(l, r, 0, k) == 0
  {
  }

  //
  // Squaring with doubled cross products
  //

  /** The bit shifted out when a double word is doubled. */
  function TopBit(p: nat): nat {
    BaseFacts();
    MulAtLeast(B, HIGH_BIT);
    DivNonNeg(p, B * HIGH_BIT);
    p / (B * HIGH_BIT)
  }

  lemma DoubleDouble(p: nat)
    requires p < BB
    ensures TopBit(p) <= 1 && 2 * p == TruncD(2 * p) + Carries(TopBit(p))
  {
    BaseFacts();
    BBFacts();
    hide BB, B, HIGH_BIT;
    var h := B * HIGH_BIT;
    assert BB == 2 * h by { MulSwap(B, 2, HIGH_BIT); MulAssoc(2, B, HIGH_BIT); }
    if p < h {
      ModSmall(p, h);
      ModSmall(2 * p, BB);
    } else {
      ModUnique(p, h, 1, p - h);
      ModUnique(2 * p, BB, 1, 2 * p - BB);
    }
  }

  /** The highest bit of a word, moved to the lowest place. */
  function TopBitWord(x: Word): nat {
    BaseFacts();
    DivNonNeg(x, HIGH_BIT);
    x / HIGH_BIT
  }

  /** A word shifted up by one bit. */
  function Doubled(x: nat): Word {
    Trunc(2 * x)
  }

  lemma DoubleWord(x: Word)
    ensures 2 * x == Doubled(x) + B * TopBitWord(x) && TopBitWord(x) <= 1
    ensures Doubled(x) % 2 == 0
  {
    BaseFacts();
    hide B, HIGH_BIT;
    if x < HIGH_BIT {
      ModSmall(x, HIGH_BIT);
      ModSmall(2 * x, B);
    } else {
      ModUnique(x, HIGH_BIT, 1, x - HIGH_BIT);
      ModUnique(2 * x, B, 1, 2 * x - B);
    }
  }

  /** Doubling a two-word product word by word. */
  lemma DoublePair(p0: Word, p1: Word)
    ensures Or(Doubled(p1), TopBitWord(p0)) == Doubled(p1) + TopBitWord(p0) < B
    ensures TopBitWord(p1) <= 1
    ensures 2 * Two(p0, p1) == Two(Doubled(p0), Doubled(p1) + TopBitWord(p0)) + Carries(TopBitWord(p1))
  {
    DoubleWord(p0);
    DoubleWord(p1);
    assert Pow2(1) == 2;
    assert BB == B * B by { BBFacts(); }
    hide B, BB, Doubled, TopBitWord, Or, Pow2;
    OrDisjoint(Doubled(p1), TopBitWord(p0), 1);
    DoubleAlgebra(B, p0, p1, Doubled(p0), Doubled(p1), TopBitWord(p0), TopBitWord(p1));
  }

  lemma DoubleAlgebra(b: nat, p0: nat, p1: nat, x0: nat, x1: nat, t: nat, u: nat)
    requires 2 * p0 == x0 + b * t && 2 * p1 == x1 + b * u
    ensures 2 * (p0 + b * p1) == (x0 + b * (x1 + t)) + (b * b) * u
  {
    MulDist(b, x1, t);
    MulSwap(2, b, p1);
    MulAssoc(b, 2, p1);
    MulDist(b, x1, b * u);
    MulAssoc(b, b, u);
  }

  method Mul2Add(a: Word, b: Word, r0: Word, r1: Word, r2: Word) returns (s0: Word, s1: Word, s2: Word)
    ensures Acc(s0, s1, s2) == (Acc(r0, r1, r2) + 2 * Product(a, b)) % Pow(3)
  {
    hide Pow, Acc, Two, Carries, Product, Trunc, TruncD, Upper, Join, TopBit, TopBitWord, Doubled, Or, BB, B;
    if WORD_SIZE == 8 && !SUPPORTS_INT128 {
      var p0, p1 := WideMulHalves(a, b);
      DoublePair(p0, p1);
      DoubleWord(p0);
      var top := TopBitWord(p1);
      DoubleWord(p1);
      s2 := Trunc(r2 + top);
      p1 := Or(Doubled(p1), TopBitWord(p0));
      p0 := Doubled(p0);
      RippleCarry(r0, r1, p0, p1);
      s0 := Trunc(r0 + p0);
      var c0: nat := if s0 < p0 then 1 else 0;
      s1 := Trunc(r1 + Trunc(p1 + c0));
      var c: nat := if s1 < p1 || (s1 == p1 && s0 < p0) then 1 else 0;
      TruncTwice(r2 + top, c);
      s2 := Trunc(s2 + c);
      CarriesAdd(top, c);
      AccUpdate(r0, r1, r2, 2 * Product(a, b), s0, s1, top + c);
    } else {
      ProductFits(a, b);
      JoinWords(r0, r1);
      var p: nat := Product(a, b);
      var r01 := Join(r1, r0);
      DoubleDouble(p);
      var top := TopBit(p);
      s2 := Trunc(r2 + top);
      AddDouble(p, p);
      p := TruncD(2 * p);
      AddDouble(r01, p);
      r01 := TruncD(r01 + p);
      var c: nat := if r01 < p then 1 else 0;
      TruncTwice(r2 + top, c);
      s2 := Trunc(s2 + c);
      SplitDouble(r01);
      s1 := Upper(r01);
      s0 := Trunc(r01);
      CarriesAdd(top, c);
      AccUpdate(r0, r1, r2, 2 * Product(a, b), s0, s1, top + c);
    }
  }

  lemma {:induction false} ConvMono(l: seq<Word>, m: nat, m': nat, k: nat)
    requires m <= m' <= |l|
    ensures Conv(l, l, m, k) <= Conv(l, l, m', k)
    decreases m'
  {
    if m < m' { ConvMono(l, m, m' - 1, k); }
  }

  /** The first word that meets a partner in column k of a square. */
  function First(n: nat, k: nat): nat {
    if k < n then 0 else k + 1 - n
  }

  /** Column k of a square reads the same from both ends. */
  lemma {:induction false} Mirror(l: seq<Word>, k: nat, i: nat)
    requires 0 < |l| && k < 2 * |l| - 1 && First(|l|, k) <= i <= k + 1 - First(|l|, k)
    ensures Conv(l, l, i, k) == Conv(l, l, |l|, k) - Conv(l, l, k + 1 - i, k)
    decreases i
  {
    var min := First(|l|, k);
    if i == min {
      ConvOutside(l, l, 0, min, k);
      ConvOutside(l, l, k + 1 - min, |l|, k);
    } else {
      Mirror(l, k, i - 1);
      assert Term(l, l, i - 1, k) == Term(l, l, k + 1 - i, k);
    }
  }

  /** The products summed when the loop of the square stands at i. */
  function Paired(l: seq<Word>, i: nat, k: nat): nat
    requires i <= |l|
  {
    if 2 * i <= k + 1 then 2 * Conv(l, l, i, k) else Conv(l, l, i - 1, k) + Conv(l, l, i, k)
  }

  lemma PairedBound(l: seq<Word>, i: nat, k: nat)
    requires 0 < |l| && k < 2 * |l| - 1 && First(|l|, k) <= i && 2 * i <= k + 2 && i <= |l|
    ensures Paired(l, i, k) <= Conv(l, l, |l|, k)
    ensures 2 * i > k ==> Paired(l, i, k) == Conv(l, l, |l|, k)
  {
    Mirror(l, k, i);
    if 2 * i <= k + 1 { ConvMono(l, i, k + 1 - i, k); }
  }

  /** One more product in a square column, doubled off the diagonal. */
  lemma PairedAdd(l: seq<Word>, digits: seq<Word>, carry: nat, i: nat, k: nat, acc: nat)
    requires 0 < |l| <= B && k < 2 * |l| - 1 && First(|l|, k) <= i <= k - i
    requires ColumnInv(l, l, digits, k, carry)
    requires acc == (carry + Paired(l, i, k) + (if i < k - i then 2 else 1) * Product(l[i], l[k - i])) % Pow(3)
    ensures acc == carry + Paired(l, i + 1, k)
  {
    assert Paired(l, i + 1, k) == Paired(l, i, k) + (if i < k - i then 2 else 1) * Product(l[i], l[k - i]);
    PairedBound(l, i + 1, k);
    ConvBound(l, l, |l|, k);
    hide Pow, B, Conv, Paired, Product, MAX_PRODUCT;
    NoOverflow(|l|, carry, Conv(l, l, |l|, k));
    ModSmall(carry + Paired(l, i + 1, k), Pow(3));
  }

  method Square(result: array<Word>, left: array<Word>, n: nat)
    requires 0 < n <= MAX_WORDS && n <= left.Length && 2 * n <= result.Length && result != left
    modifies result
    ensures V(result, 2 * n) == V(left, n) * V(left, n)
    ensures result[2 * n..] == old(result[2 * n..])
  {
    BaseFacts();
    hide B, Val, Pow, Columns, Conv, Acc, Product, ColumnInv, Paired;
    ghost var l := left[..n];
    ghost var digits: seq<Word> := [];
    var r0: Word, r1: Word, r2: Word := 0, 0, 0;
    ColumnStart(l, l);
    var k := 0;
    while k < n * 2 - 1
      invariant 0 <= k <= 2 * n - 1
      invariant result[..k] == digits && result[2 * n..] == old(result[2 * n..])
      invariant ColumnInv(l, l, digits, k, Acc(r0, r1, r2))
    {
      ghost var carry := Acc(r0, r1, r2);
      var min := if k < n then 0 else (k + 1) - n;
      var i := min;
      PairedStart(l, k);
      while i <= k && i <= k - i
        invariant min <= i && 2 * i <= k + 2
        invariant Acc(r0, r1, r2) == carry + Paired(l, i, k)
        modifies {}
      {
        assert left[i] == l[i] && left[k - i] == l[k - i];
        if i < k - i {
          r0, r1, r2 := Mul2Add(left[i], left[k - i], r0, r1, r2);
        } else {
          r0, r1, r2 := MulAdd(left[i], left[k - i], r0, r1, r2);
        }
        PairedAdd(l, digits, carry, i, k, Acc(r0, r1, r2));
        i := i + 1;
      }
      PairedBound(l, i, k);
      ColumnDone(l, l, digits, k, carry, r0, r1, r2);
      result[k] := r0;
      digits := digits + [r0];
      r0 := r1;
      r1 := r2;
      r2 := 0;
      k := k + 1;
    }
    ProductDone(l, l, digits, r0, r1, r2);
    result[n * 2 - 1] := r0;
    assert result[..2 * n] == digits + [r0];
  }

  lemma PairedStart(l: seq<Word>, k: nat)
    requires 0 < |l| && k < 2 * |l| - 1
    ensures Paired(l, First(|l|, k), k) == 0
  {
    ConvOutside(l, l, 0, First(|l|, k), k);
  }
}
