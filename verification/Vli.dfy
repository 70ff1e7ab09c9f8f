/** The basic operations on little-endian word arrays. An operand may be the result array
    wherever the source allows it. */
module Vli {
  import opened Arith
  import opened Bits
  import opened Words

  method ClearAt(vli: array<Word>, off: nat, n: nat)
    requires off + n <= vli.Length
    modifies vli
    ensures vli[off..off + n] == seq(n, _ => 0)
    ensures vli[..off] == old(vli[..off]) && vli[off + n..] == old(vli[off + n..])
  {
    var i := 0;
    while i < n
      invariant 0 <= i <= n
      invariant forall j :: off <= j < off + i ==> vli[j] == 0
      invariant vli[..off] == old(vli[..off]) && vli[off + n..] == old(vli[off + n..])
    {
      vli[off + i] := 0;
      i := i + 1;
    }
  }

  method IsZero(vli: array<Word>, n: nat) returns (r: bool)
    requires n <= vli.Length
    ensures r <==> V(vli, n) == 0
  {
    var bits: Word := 0;
    var i := 0;
    while i < n
      invariant 0 <= i <= n
      invariant bits == 0 <==> forall j :: 0 <= j < i ==> vli[j] == 0
    {
      OrIsZero(bits, vli[i]);
      OrBound(bits, vli[i], WORD_BITS);
      bits := Or(bits, vli[i]);
      i := i + 1;
    }
    assert forall j :: 0 <= j < n ==> vli[j] == vli[..n][j];
    if bits == 0 {
      ValZeros(vli[..n]);
    } else if V(vli, n) == 0 {
      ValIsZero(vli[..n]);
    }
    return bits == 0;
  }

  /** Bit k of a number is bit k % WORD_BITS of its word k / WORD_BITS. */
  lemma ValBit(s: seq<Word>, k: nat)
    requires k / WORD_BITS < |s|
    ensures Bit(Val(s), k) == Bit(s[k / WORD_BITS], k % WORD_BITS)
  {
    hide Val, Pow, Pow2, B;
    var w, b := k / WORD_BITS, k % WORD_BITS;
    var lo, hi := Val(s[..w]), Val(s[w + 1..]);
    DivModDef(k, WORD_BITS);
    assert Val(s) == Pow(w) * (s[w] + B * hi) + lo && lo < Pow(w) by {
      ValSplit(s, w);
      ValCons(s, w);
      ValBound(s[..w]);
    }
    ModUnique(Val(s), Pow(w), s[w] + B * hi, lo);
    assert Pow2(k) == Pow(w) * Pow2(b) by {
      PowIsPow2(w);
      Pow2Add(WORD_BITS * w, b);
    }
    DivDiv(Val(s), Pow(w), Pow2(b));
    assert Bit(Val(s), k) == Bit(s[w] + B * hi, b);
    BitLow(s[w], hi, b, WORD_BITS);
    assert B == Pow2(WORD_BITS) by { BaseDef(); }
  }

  /** A multiple of a higher power of two does not change a bit. */
  lemma BitLow(a: nat, hi: nat, b: nat, w: nat)
    requires b < w
    ensures Bit(a + Pow2(w) * hi, b) == Bit(a, b)
  {
    var m, h := Pow2(b), Pow2(w - b - 1) * hi;
    assert Pow2(w) * hi == m * (2 * h) by {
      Pow2Add(b, w - b);
      MulAssoc(m, Pow2(w - b), hi);
      MulAssoc(2, Pow2(w - b - 1), hi);
    }
    ShiftedDiv(a, m, 2 * h);
    ParityShift(a / m, h);
  }

  lemma ParityShift(q: int, h: int)
    ensures (q + 2 * h) % 2 == q % 2
  {
  }

  lemma ShiftedDiv(a: int, m: int, h: int)
    requires m > 0
    ensures (a + m * h) / m == a / m + h && (a + m * h) % m == a % m
  {
    DivModDef(a, m);
    MulDist(m, a / m, h);
    ModUnique(a + m * h, m, a / m + h, a % m);
  }

  method TestBit(vli: array<Word>, bit: nat) returns (r: bool)
    requires bit / WORD_BITS < vli.Length
    ensures r == Bit(Val(vli[..]), bit)
  {
    var word := vli[bit / WORD_BITS];
    ghost var k := bit % WORD_BITS;
    ValBit(vli[..], bit);
    AndPow2(word, k);
    r := And(word, Pow2(bit % WORD_BITS)) != 0;
  }

  /** uECC_vli_testBit on the low words. */
  method TestLow(vli: array<Word>, bit: nat, n: nat) returns (r: bool)
    requires n <= vli.Length && bit < n * WORD_BITS
    ensures r == Bit(V(vli, n), bit)
  {
    DivBelow(bit, WORD_BITS, n);
    ValBit(vli[..n], bit);
    ValBit(vli[..], bit);
    r := TestBit(vli, bit);
  }

  method NumDigits(vli: array<Word>, maxWords: nat) returns (d: nat)
    requires maxWords <= vli.Length
    ensures d <= maxWords
    ensures d > 0 ==> vli[d - 1] != 0
    ensures V(vli, maxWords) == V(vli, d)
  {
    var i: int := maxWords - 1;
    while i >= 0 && vli[i] == 0
      invariant -1 <= i < maxWords
      invariant forall j :: i < j < maxWords ==> vli[j] == 0
    {
      i := i - 1;
    }
    d := i + 1;
    ValSplit(vli[..maxWords], d);
    ValZeros(vli[..maxWords][d..]);
    assert vli[..maxWords][..d] == vli[..d];
    assert Pow(d) * 0 == 0;
  }

  /** The position of the highest bit, counted from one. */
  ghost predicate IsBitLength(x: nat, r: nat) {
    if x == 0 then r == 0 else r > 0 && Pow2(r - 1) <= x < Pow2(r)
  }

  /** The length of a word that is shifted out bit by bit. */
  method DigitBits(top: Word) returns (i: nat)
    ensures IsBitLength(top, i) && i <= WORD_BITS
  {
    var digit := top;
    i := 0;
    while digit > 0
      invariant digit == top / Pow2(i)
      invariant i > 0 ==> Pow2(i - 1) <= top
      invariant i <= WORD_BITS
      decreases digit
    {
      ShiftStep(top, i);
      digit := digit / 2;
      i := i + 1;
    }
    DivModDef(top, Pow2(i));
  }

  lemma ShiftStep(top: Word, i: nat)
    requires top / Pow2(i) > 0 && i <= WORD_BITS
    ensures Pow2(i) <= top && i < WORD_BITS
    ensures (top / Pow2(i)) / 2 == top / Pow2(i + 1)
  {
    DivModDef(top, Pow2(i));
    MulAtLeast(Pow2(i), top / Pow2(i));
    DivDiv(top, Pow2(i), 2);
  }

  method NumBits(vli: array<Word>, maxWords: nat) returns (r: nat)
    requires maxWords <= vli.Length
    ensures IsBitLength(V(vli, maxWords), r)
    ensures r <= WORD_BITS * maxWords
    ensures maxWords > 0 && vli[maxWords - 1] != 0 ==> r > WORD_BITS * (maxWords - 1)
  {
    var numDigits := NumDigits(vli, maxWords);
    assert maxWords > 0 && vli[maxWords - 1] != 0 ==> numDigits == maxWords by {
      assert vli[..maxWords][..numDigits] == vli[..numDigits];
      if maxWords > 0 && vli[maxWords - 1] != 0 { TopWord(vli[..maxWords], numDigits); }
    }
    if numDigits == 0 {
      return 0;
    }
    hide Val;
    var i := DigitBits(vli[numDigits - 1]);
    BitLengthOfVal(vli[..numDigits], i);
    MulMono(WORD_BITS, numDigits, maxWords);
    MulDist(WORD_BITS, numDigits - 1, 1);
    r := WORD_BITS * (numDigits - 1) + i;
  }

  /** With a nonzero top word no shorter prefix has the same value. */
  lemma TopWord(s: seq<Word>, d: nat)
    requires |s| > 0 && s[|s| - 1] != 0 && d <= |s| && Val(s[..d]) == Val(s)
    ensures d == |s|
  {
    hide Val, Pow;
    if d < |s| {
      assert s[d..][|s| - 1 - d] != 0;
      ValSplit(s, d);
      if Val(s[d..]) > 0 { MulAtLeast(Pow(d), Val(s[d..])); }
      ValIsZero(s[d..]);
    }
  }

  lemma BitLengthOfVal(s: seq<Word>, i: nat)
    requires |s| > 0 && s[|s| - 1] > 0 && IsBitLength(s[|s| - 1], i)
    ensures i > 0 && IsBitLength(Val(s), WORD_BITS * (|s| - 1) + i)
  {
    var d := |s| - 1;
    var top, p := s[d], Pow(d);
    assert s[..d + 1] == s;
    ValSnoc(s, d);
    ValBound(s[..d]);
    PowIsPow2(d);
    Pow2Add(WORD_BITS * d, i);
    Pow2Add(WORD_BITS * d, i - 1);
    Between(p, Pow2(i - 1), Pow2(i), top, Val(s[..d]));
    assert p * top > 0 by { MulAtLeast(p, top); }
  }

  lemma Between(p: nat, lo: nat, hi: nat, x: nat, r: nat)
    requires lo <= x < hi && r < p
    ensures p * lo <= r + p * x < p * hi
  {
    MulMono(p, lo, x);
    MulMono(p, x, hi - 1);
    MulDist(p, hi, -1);
  }

  method SetAt(dest: array<Word>, dOff: nat, src: array<Word>, n: nat)
    requires dOff + n <= dest.Length && n <= src.Length
    requires dest == src ==> dOff == 0
    modifies dest
    ensures dest[dOff..dOff + n] == old(src[..n])
    ensures dest[..dOff] == old(dest[..dOff]) && dest[dOff + n..] == old(dest[dOff + n..])
  {
    var i := 0;
    while i < n
      invariant 0 <= i <= n
      invariant dest[dOff..dOff + i] == old(src[..i])
      invariant src[i..n] == old(src[i..n])
      invariant dest[..dOff] == old(dest[..dOff]) && dest[dOff + n..] == old(dest[dOff + n..])
    {
      dest[dOff + i] := src[i];
      i := i + 1;
    }
  }

  /** vli = 0. */
  method Clear(vli: array<Word>, n: nat)
    requires n <= vli.Length
    modifies vli
    ensures V(vli, n) == 0 && vli[n..] == old(vli[n..])
    ensures vli[..n] == seq(n, _ => 0)
  {
    hide Val;
    ClearAt(vli, 0, n);
    assert vli[..n] == vli[0..n];
    ValZeros(vli[..n]);
  }

  /** dest = src. */
  method Set(dest: array<Word>, src: array<Word>, n: nat)
    requires n <= dest.Length && n <= src.Length
    modifies dest
    ensures dest[..n] == old(src[..n]) && V(dest, n) == old(V(src, n)) && dest[n..] == old(dest[n..])
  {
    SetAt(dest, 0, src, n);
    assert dest[..n] == dest[0..n];
  }

  /** vli = 1. */
  method SetOne(vli: array<Word>, n: nat)
    requires 0 < n <= vli.Length
    modifies vli
    ensures V(vli, n) == 1 && vli[n..] == old(vli[n..])
  {
    BaseFacts();
    Clear(vli, n);
    vli[0] := 1;
    ValUnit(vli[..n]);
  }

  lemma ValUnit(s: seq<Word>)
    requires |s| > 0 && s[0] == 1 && forall i :: 0 < i < |s| ==> s[i] == 0
    ensures Val(s) == 1
  {
    ValZeros(s[1..]);
    assert B * 0 == 0;
  }

  /** The sign of left - right. */
  function Sign(x: int): int {
    if x > 0 then 1 else if x < 0 then -1 else 0
  }

  /** The most significant differing word decides a comparison. */
  lemma ValCompare(s: seq<Word>, t: seq<Word>, i: nat)
    requires |s| == |t| && i < |s|
    requires (forall j :: i < j < |s| ==> s[j] == t[j]) && s[i] > t[i]
    ensures Val(s) > Val(t)
  {
    assert s[i + 1..] == t[i + 1..];
    hide Val, Pow, B;
    var x, y := Val(s[..i]), Val(t[..i]);
    var h := B * Val(s[i + 1..]);
    assert Val(s) == x + Pow(i) * (s[i] + h) by { ValSplit(s, i); ValCons(s, i); }
    assert Val(t) == y + Pow(i) * (t[i] + h) by { ValSplit(t, i); ValCons(t, i); }
    assert 0 <= x && y < Pow(i) by { ValBound(t[..i]); }
    MulMono(Pow(i), t[i] + h + 1, s[i] + h);
    MulDist(Pow(i), t[i] + h, 1);
  }

  method CmpUnsafe(left: array<Word>, right: array<Word>, n: nat) returns (r: int)
    requires n <= left.Length && n <= right.Length
    ensures r == Sign(V(left, n) - V(right, n))
  {
    hide Val;
    ghost var l, r' := left[..n], right[..n];
    var i: int := n - 1;
    while i >= 0
      invariant -1 <= i < n
      invariant forall j :: i < j < n ==> l[j] == r'[j]
    {
      if left[i] > right[i] {
        ValCompare(l, r', i);
        return 1;
      } else if left[i] < right[i] {
        ValCompare(r', l, i);
        return -1;
      }
      assert l[i] == r'[i];
      i := i - 1;
    }
    assert l == r';
    return 0;
  }

  method Equal(left: array<Word>, right: array<Word>, n: nat) returns (r: bool)
    requires n <= left.Length && n <= right.Length
    ensures r <==> V(left, n) == V(right, n)
  {
    var diff: Word := 0;
    var i: int := n - 1;
    while i >= 0
      invariant -1 <= i < n
      invariant diff == 0 <==> forall j :: i < j < n ==> left[j] == right[j]
    {
      var x := Xor(left[i], right[i]);
      XorIsZero(left[i], right[i]);
      XorBound(left[i], right[i], WORD_BITS);
      OrIsZero(diff, x);
      OrBound(diff, x, WORD_BITS);
      diff := Or(diff, x);
      i := i - 1;
    }
    if V(left, n) == V(right, n) {
      ValInjective(left[..n], right[..n]);
      assert forall j :: 0 <= j < n ==> left[j] == left[..n][j] == right[..n][j] == right[j];
    }
    assert (forall j :: 0 <= j < n ==> left[j] == right[j]) ==> left[..n] == right[..n];
    return diff == 0;
  }

  /** One column of a carry chain: the words below position i sum with carry c, and word i
      contributes x + y + c == s + B * c'. */
  lemma CarryStep(i: nat, a: int, b: int, r: int, c: int, x: int, y: int, s: int, c': int)
    requires r + Pow(i) * c == a + b
    requires x + y + c == s + B * c'
    ensures (r + Pow(i) * s) + Pow(i + 1) * c' == (a + Pow(i) * x) + (b + Pow(i) * y)
  {
    hide *;
    var p, q := Pow(i), B * c';
    assert Pow(i + 1) * c' == p * q by { PowSucc(i); MulSwap(p, B, c'); }
    MulDist3(p, x, y, c);
    MulDist(p, s, q);
  }

  /** result[ro..ro+n] = left[lo..lo+n] + right[re..re+n]. */
  method AddAt(result: array<Word>, ro: nat, left: array<Word>, lo: nat, right: array<Word>, re: nat, n: nat)
    returns (carry: Word)
    requires ro + n <= result.Length && lo + n <= left.Length && re + n <= right.Length
    requires result == left ==> ro == lo
    requires result == right ==> ro == re
    modifies result
    ensures carry <= 1
    ensures Val(result[ro..ro + n]) + Pow(n) * carry == old(Val(left[lo..lo + n])) + old(Val(right[re..re + n]))
    ensures result[..ro] == old(result[..ro]) && result[ro + n..] == old(result[ro + n..])
  {
    hide Val, Pow, B, Trunc;
    ghost var l, r := left[lo..lo + n], right[re..re + n];
    ghost var sums: seq<Word> := [];
    carry := 0;
    var i := 0;
    assert SumInv(l, r, sums, 0, carry) by { SumStart(l, r); }
    while i < n
      invariant 0 <= i <= n
      invariant forall j :: i <= j < n ==> left[lo + j] == l[j] && right[re + j] == r[j]
      invariant forall j :: 0 <= j < ro || ro + n <= j < result.Length ==> result[j] == old(result[j])
      invariant |sums| == i && forall j :: 0 <= j < i ==> result[ro + j] == sums[j]
      invariant SumInv(l, r, sums, i, carry)
    {
      var sum := Trunc(left[lo + i] + right[re + i] + carry);
      SumStep(l, r, sums, i, carry);
      if sum != left[lo + i] {
        carry := if sum < left[lo + i] then 1 else 0;
      }
      result[ro + i] := sum;
      sums := sums + [sum];
      i := i + 1;
    }
    assert l[..n] == l && r[..n] == r && result[ro..ro + n] == sums;
  }

  /** The words summed so far and the carry make up the sum of the prefixes. */
  ghost predicate SumInv(l: seq<Word>, r: seq<Word>, sums: seq<Word>, i: nat, carry: Word)
  {
    i <= |l| && i <= |r| && |sums| == i && carry <= 1 &&
    Val(sums) + Pow(i) * carry == Val(l[..i]) + Val(r[..i])
  }

  lemma SumStart(l: seq<Word>, r: seq<Word>)
    ensures SumInv(l, r, [], 0, 0)
  {
  }

  lemma SumStep(l: seq<Word>, r: seq<Word>, sums: seq<Word>, i: nat, carry: Word)
    requires i < |l| && i < |r| && SumInv(l, r, sums, i, carry)
    ensures var sum := Trunc(l[i] + r[i] + carry);
            SumInv(l, r, sums + [sum], i + 1, if sum != l[i] then if sum < l[i] then 1 else 0 else carry)
  {
    hide Val, Pow, B, Trunc;
    var sum := Trunc(l[i] + r[i] + carry);
    var carry' := if sum != l[i] then if sum < l[i] then 1 else 0 else carry;
    AddWord(l[i], r[i], carry);
    CarryStep(i, Val(l[..i]), Val(r[..i]), Val(sums), carry, l[i], r[i], sum, carry');
    ValSnoc(l, i);
    ValSnoc(r, i);
    ValPush(sums, sum);
  }

  /** Truncation to a word. */
  function Trunc(x: int): Word {
    x % B
  }

  /** A word shifted left, and a word shifted right. */
  function Shl(x: Word, b: nat): Word {
    Trunc(x * Pow2(b))
  }

  function Shr(x: Word, b: nat): Word {
    ShrFits(x, Pow2(b));
    x / Pow2(b)
  }

  lemma ShlSmall(x: Word, b: nat)
    requires x * Pow2(b) < B
    ensures Shl(x, b) == x * Pow2(b)
  {
    hide B, Pow2;
    MulMono(Pow2(b), 0, x);
    ModSmall(x * Pow2(b), B);
  }

  lemma ShrFits(x: nat, q: nat)
    requires q > 0
    ensures 0 <= x / q <= x
  {
    DivNonNeg(x, q);
    DivModDef(x, q);
    MulMono(x / q, 1, q);
  }

  /** The carry rule of the source: the carry is only recomputed when the sum differs. */
  lemma AddWord(x: Word, y: Word, c: Word)
    requires c <= 1
    ensures var s := Trunc(x + y + c);
            x + y + c == s + B * (if s != x then if s < x then 1 else 0 else c)
  {
    DivModDef(x + y + c, B);
    var q := (x + y + c) / B;
    if q >= 2 { MulMono(B, 2, q); }
    if q <= -1 { MulMono(B, q, -1); }
  }

  lemma SubWord(x: Word, y: Word, c: Word)
    requires c <= 1
    ensures var d := Trunc(x - y - c);
            x - y - c == d - B * (if d != x then if d > x then 1 else 0 else c)
  {
    DivModDef(x - y - c, B);
    var q := (x - y - c) / B;
    if q >= 1 { MulMono(B, 1, q); }
    if q <= -2 { MulMono(B, q, -2); }
  }

  /** result = left + right, returning the carry. */
  method Add(result: array<Word>, left: array<Word>, right: array<Word>, n: nat) returns (carry: Word)
    requires n <= result.Length && n <= left.Length && n <= right.Length
    modifies result
    ensures carry <= 1
    ensures V(result, n) + Pow(n) * carry == old(V(left, n)) + old(V(right, n))
    ensures result[n..] == old(result[n..])
  {
    assert left[..n] == left[0..n] && right[..n] == right[0..n];
    carry := AddAt(result, 0, left, 0, right, 0, n);
    assert result[..n] == result[0..n];
  }

  /** result = left - right, returning the borrow. */
  method Sub(result: array<Word>, left: array<Word>, right: array<Word>, n: nat) returns (borrow: Word)
    requires n <= result.Length && n <= left.Length && n <= right.Length
    modifies result
    ensures borrow <= 1
    ensures V(result, n) - Pow(n) * borrow == old(V(left, n)) - old(V(right, n))
    ensures result[n..] == old(result[n..])
  {
    hide Val, Pow, B, Trunc;
    ghost var l, r := left[..n], right[..n];
    ghost var diffs: seq<Word> := [];
    borrow := 0;
    var i := 0;
    assert DiffInv(l, r, diffs, 0, borrow) by { DiffStart(l, r); }
    while i < n
      invariant 0 <= i <= n
      invariant forall j :: i <= j < n ==> left[j] == l[j] && right[j] == r[j]
      invariant result[n..] == old(result[n..]) && result[..i] == diffs
      invariant DiffInv(l, r, diffs, i, borrow)
    {
      var diff := Trunc(left[i] - right[i] - borrow);
      DiffStep(l, r, diffs, i, borrow);
      if diff != left[i] {
        borrow := if diff > left[i] then 1 else 0;
      }
      result[i] := diff;
      diffs := diffs + [diff];
      i := i + 1;
    }
    assert l[..n] == l && r[..n] == r && result[..n] == diffs;
  }

  ghost predicate DiffInv(l: seq<Word>, r: seq<Word>, diffs: seq<Word>, i: nat, borrow: Word)
  {
    i <= |l| && i <= |r| && |diffs| == i && borrow <= 1 &&
    Val(diffs) - Pow(i) * borrow == Val(l[..i]) - Val(r[..i])
  }

  lemma DiffStart(l: seq<Word>, r: seq<Word>)
    ensures DiffInv(l, r, [], 0, 0)
  {
  }

  lemma DiffStep(l: seq<Word>, r: seq<Word>, diffs: seq<Word>, i: nat, borrow: Word)
    requires i < |l| && i < |r| && DiffInv(l, r, diffs, i, borrow)
    ensures var d := Trunc(l[i] - r[i] - borrow);
            DiffInv(l, r, diffs + [d], i + 1, if d != l[i] then if d > l[i] then 1 else 0 else borrow)
  {
    hide Val, Pow, B, Trunc;
    var d := Trunc(l[i] - r[i] - borrow);
    var borrow' := if d != l[i] then if d > l[i] then 1 else 0 else borrow;
    SubWord(l[i], r[i], borrow);
    BorrowStep(i, Val(l[..i]), Val(r[..i]), Val(diffs), borrow, l[i], r[i], d, borrow');
    ValSnoc(l, i);
    ValSnoc(r, i);
    ValPush(diffs, d);
  }

  lemma BorrowStep(i: nat, a: int, b: int, r: int, c: int, x: int, y: int, d: int, c': int)
    requires r - Pow(i) * c == a - b
    requires x - y - c == d - B * c'
    ensures (r + Pow(i) * d) - Pow(i + 1) * c' == (a + Pow(i) * x) - (b + Pow(i) * y)
  {
    hide *;
    var p, q := Pow(i), B * c';
    assert Pow(i + 1) * c' == p * q by { PowSucc(i); MulSwap(p, B, c'); }
    MulDist3(p, x, -y, -c);
    MulNeg(p, y);
    MulNeg(p, c);
    MulNeg(p, q);
    MulDist(p, d, -q);
  }

  /** A borrow out of a subtraction says which operand was larger. */
  lemma BorrowDecides(n: nat, a: nat, b: nat, d: nat, borrow: nat)
    requires a < Pow(n) && b < Pow(n) && d < Pow(n) && borrow <= 1
    requires d - Pow(n) * borrow == a - b
    ensures borrow == 1 <==> a < b
    ensures borrow == 0 ==> d == a - b
  {
  }

  /** A carry out of an addition says whether the sum fits. */
  lemma CarryDecides(n: nat, a: nat, b: nat, s: nat, carry: nat)
    requires a < Pow(n) && b < Pow(n) && s < Pow(n) && carry <= 1
    requires s + Pow(n) * carry == a + b
    ensures carry == 1 <==> a + b >= Pow(n)
    ensures s == (a + b) % Pow(n)
  {
    ModUnique(a + b, Pow(n), carry, s);
  }

  /** The constant-time comparison. */
  method Cmp(left: array<Word>, right: array<Word>, n: nat) returns (r: int)
    requires n <= left.Length && n <= right.Length && n <= MAX_WORDS
    ensures r == Sign(V(left, n) - V(right, n))
  {
    var tmp := new Word[MAX_WORDS];
    var borrow := Sub(tmp, left, right, n);
    var neg := if borrow != 0 then 1 else 0;
    var equal := IsZero(tmp, n);
    ValBound(left[..n]);
    ValBound(right[..n]);
    ValBound(tmp[..n]);
    BorrowDecides(n, V(left, n), V(right, n), V(tmp, n), borrow);
    return (if equal then 0 else 1) - 2 * neg;
  }

  /** Shifting a word up by WORD_BITS - 1 leaves its low bit at the top. */
  lemma LowBitToTop(x: Word)
    ensures Shl(x, WORD_BITS - 1) == (x % 2) * HIGH_BIT
  {
    BaseDef();
    hide B, HIGH_BIT, Pow2;
    BaseFacts();
    var h, b := x / 2, x % 2;
    assert x * HIGH_BIT == B * h + b * HIGH_BIT by {
      MulDist(HIGH_BIT, 2 * h, b);
      MulAssoc(2, HIGH_BIT, h);
    }
    ModUnique(x * HIGH_BIT, B, h, b * HIGH_BIT);
  }

  /** Putting a bit on top of a halved word. */
  lemma OrTop(x: Word, bit: nat)
    requires bit <= 1
    ensures Or(x / 2, bit * HIGH_BIT) == x / 2 + bit * HIGH_BIT < B
  {
    hide Or, Pow2, B, HIGH_BIT;
    BaseFacts();
    var top := bit * HIGH_BIT;
    assert top % HIGH_BIT == 0 by { ModOfMultiple(bit, HIGH_BIT); }
    assert x / 2 < HIGH_BIT;
    assert HIGH_BIT == Pow2(WORD_BITS - 1) by { BaseDef(); }
    OrSymmetric(x / 2, top);
    OrDisjoint(top, x / 2, WORD_BITS - 1);
  }

  /** vli >>= 1. */
  method Rshift1(vli: array<Word>, n: nat)
    requires n <= vli.Length
    modifies vli
    ensures V(vli, n) == old(V(vli, n)) / 2 && vli[n..] == old(vli[n..])
  {
    hide Val;
    assert vli[..n] == vli[0..n];
    Rshift1At(vli, 0, n);
    assert vli[..n] == vli[0..n];
  }

  /** vli[off..off+n] >>= 1. */
  method Rshift1At(vli: array<Word>, off: nat, n: nat)
    requires off + n <= vli.Length
    modifies vli
    ensures Val(vli[off..off + n]) == old(Val(vli[off..off + n])) / 2
    ensures vli[..off] == old(vli[..off]) && vli[off + n..] == old(vli[off + n..])
  {
    hide Val, B, HIGH_BIT, Shl, Or;
    ghost var s := vli[off..off + n];
    ghost var halves: seq<Word> := [];
    var carry: Word := 0;
    var i := n;
    assert HalfInv(s, halves, n, carry) by { HalfStart(s); }
    while i > 0
      invariant 0 <= i <= n
      invariant forall j :: 0 <= j < i ==> vli[off + j] == s[j]
      invariant forall j :: 0 <= j < off || off + n <= j < vli.Length ==> vli[j] == old(vli[j])
      invariant |halves| == n - i && forall j :: 0 <= j < n - i ==> vli[off + i + j] == halves[j]
      invariant HalfInv(s, halves, i, carry)
    {
      i := i - 1;
      var temp := vli[off + i];
      HalfStep(s, halves, i, carry);
      vli[off + i] := Or(temp / 2, carry);
      halves := [vli[off + i]] + halves;
      carry := Shl(temp, WORD_BITS - 1);
    }
    assert vli[off..off + n] == halves;
    HalfEnd(s, halves, carry);
  }

  /** The words above i are halved and the bit shifted out of them waits in the carry. */
  ghost predicate HalfInv(s: seq<Word>, halves: seq<Word>, i: nat, carry: Word)
  {
    i <= |s| && |halves| == |s| - i &&
    exists bit: nat :: bit <= 1 && carry == bit * HIGH_BIT && 2 * Val(halves) + bit == Val(s[i..])
  }

  lemma HalfStart(s: seq<Word>)
    ensures HalfInv(s, [], |s|, 0)
  {
    assert 0 == 0 * HIGH_BIT && 2 * Val([]) + 0 == Val(s[|s|..]);
  }

  lemma HalfStep(s: seq<Word>, halves: seq<Word>, i: nat, carry: Word)
    requires i < |s| && HalfInv(s, halves, i + 1, carry)
    ensures Or(s[i] / 2, carry) < B
    ensures HalfInv(s, [Or(s[i] / 2, carry)] + halves, i, Shl(s[i], WORD_BITS - 1))
  {
    hide B, HIGH_BIT, Or, Shl;
    var bit: nat :| bit <= 1 && carry == bit * HIGH_BIT && 2 * Val(halves) + bit == Val(s[i + 1..]);
    LowBitToTop(s[i]);
    OrTop(s[i], bit);
    ValCons(s, i);
    HalveStep(s[i], bit, Val(halves), Val(s[i + 1..]));
    var halves' := [Or(s[i] / 2, carry)] + halves;
    assert halves'[1..] == halves;
    assert 2 * Val(halves') + s[i] % 2 == Val(s[i..]);
  }

  lemma HalfEnd(s: seq<Word>, halves: seq<Word>, carry: Word)
    requires HalfInv(s, halves, 0, carry)
    ensures Val(halves) == Val(s) / 2
  {
    assert s[0..] == s;
  }

  lemma HalveStep(x: Word, bit: nat, above: nat, whole: nat)
    requires bit <= 1 && 2 * above + bit == whole
    ensures 2 * ((x / 2 + bit * HIGH_BIT) + B * above) + x % 2 == x + B * whole
  {
    hide B, HIGH_BIT;
    BaseFacts();
    MulDist(B, 2 * above, bit);
    MulSwap(B, 2, above);
    MulAssoc(2, B, above);
  }

  /** After a shift the top word has room for one more bit. */
  lemma TopHalved(t: seq<Word>, low: seq<Word>)
    requires |t| == |low| > 0 && Val(low) == Val(t) / 2
    ensures low[|low| - 1] < HIGH_BIT
  {
    hide Pow, Val, B, HIGH_BIT;
    BaseFacts();
    var n := |t|;
    ValBound(t);
    assert low[..n] == low;
    ValSnoc(low, n - 1);
    PowSucc(n - 1);
    MulSwap(Pow(n - 1), 2, HIGH_BIT);
    MulAssoc(2, Pow(n - 1), HIGH_BIT);
    if low[n - 1] >= HIGH_BIT { MulMono(Pow(n - 1), HIGH_BIT, low[n - 1]); }
  }

  lemma PowEven(n: nat)
    requires n > 0
    ensures Pow(n) == 2 * (Pow(n - 1) * HIGH_BIT)
  {
    hide Pow, B, HIGH_BIT;
    BaseFacts();
    PowSucc(n - 1);
    MulSwap(Pow(n - 1), 2, HIGH_BIT);
    MulAssoc(2, Pow(n - 1), HIGH_BIT);
  }

  lemma ParityOfVal(x: Word, rest: nat)
    ensures (x + B * rest) % 2 == x % 2
  {
    BaseFacts();
    hide B, HIGH_BIT;
    MulAssoc(2, HIGH_BIT, rest);
  }
}
