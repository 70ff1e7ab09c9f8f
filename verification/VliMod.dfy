/** Arithmetic modulo a word array: addition, subtraction, reduction and multiplication. */
module VliMod {
  import opened Arith
  import opened Bits
  import opened Words
  import opened Vli
  import opened VliMult

  /** result = (left + right) % mod. Operands below mod give a reduced sum; the signature code
      also passes a left operand that is not reduced. */
  method ModAdd(result: array<Word>, left: array<Word>, right: array<Word>, mod: array<Word>, n: nat)
    requires n <= result.Length && n <= left.Length && n <= right.Length && n <= mod.Length
    requires result != mod
    requires V(left, n) + V(right, n) < V(mod, n) + Pow(n)
    modifies result
    ensures V(result, n) ==
            old(V(left, n) + V(right, n)) - (if old(V(left, n) + V(right, n)) >= V(mod, n) then V(mod, n) else 0)
    ensures old(V(left, n)) < V(mod, n) && old(V(right, n)) < V(mod, n) ==>
              V(result, n) == old(V(left, n) + V(right, n)) % V(mod, n)
    ensures result[n..] == old(result[n..])
  {
    hide Pow, Val;
    ghost var l, r, m := V(left, n), V(right, n), V(mod, n);
    ValBound(left[..n]);
    ValBound(right[..n]);
    ValBound(mod[..n]);
    var carry := Add(result, left, right, n);
    ghost var s := V(result, n);
    ValBound(result[..n]);
    CarryDecides(n, l, r, s, carry);
    assert s == l + r - (if carry == 1 then Pow(n) else 0);
    var c := CmpUnsafe(mod, result, n);
    if carry != 0 || c != 1 {
      var borrow := Sub(result, result, mod, n);
      ValBound(result[..n]);
      BorrowDecides(n, s, m, V(result, n), borrow);
      assert Pow(n) * borrow == (if borrow == 1 then Pow(n) else 0);
    }
    if l < m && r < m { ReduceOnce(l + r, m); }
  }

  lemma ReduceOnce(x: nat, m: nat)
    requires x < 2 * m
    ensures x % m == if x >= m then x - m else x
  {
    if x >= m { ModUnique(x, m, 1, x - m); } else { ModSmall(x, m); }
  }

  /** The difference modulo m as the source computes it: m is added after a borrow. A left operand
      that is not reduced leaves a result that may not be reduced. */
  function RawSub(l: nat, r: nat, m: nat): int {
    if l < r then l - r + m else l - r
  }

  /** result = (left - right) % mod. Operands below mod give a reduced difference; verification
      also passes a left operand that is not reduced. */
  method ModSub(result: array<Word>, left: array<Word>, right: array<Word>, mod: array<Word>, n: nat)
    requires n <= result.Length && n <= left.Length && n <= right.Length && n <= mod.Length
    requires result != mod
    requires V(right, n) < V(mod, n)
    modifies result
    ensures V(result, n) == RawSub(old(V(left, n)), old(V(right, n)), V(mod, n))
    ensures old(V(left, n)) < V(mod, n) ==> V(result, n) == old(V(left, n) - V(right, n)) % V(mod, n)
    ensures result[n..] == old(result[n..])
  {
    hide Pow, Val;
    ghost var l: int, r: int, m: int := V(left, n), V(right, n), V(mod, n);
    ValBound(left[..n]);
    ValBound(mod[..n]);
    var borrow := Sub(result, left, right, n);
    ghost var d: int := V(result, n);
    ValBound(result[..n]);
    BorrowDecides(n, l, r, d, borrow);
    if borrow != 0 {
      var carry := Add(result, result, mod, n);
      ValBound(result[..n]);
      CarryDecides(n, d, m, V(result, n), carry);
      assert V(result, n) == l - r + m;
      ModUnique(l - r, m, -1, l - r + m);
    } else if l < m {
      ModSmall(l - r, m);
    }
  }

  //
  // Reduction of a double-length product
  //

  /** Shifting a word up by fewer bits than it has splits it at the top. */
  lemma ShlSplit(x: Word, b: nat)
    requires 0 < b < WORD_BITS
    ensures Pow2(b) * x == Shl(x, b) + B * Shr(x, WORD_BITS - b)
    ensures Shl(x, b) % Pow2(b) == 0 && Shr(x, WORD_BITS - b) < Pow2(b)
  {
    assert B == Pow2(b) * Pow2(WORD_BITS - b) by { BaseDef(); Pow2Add(b, WORD_BITS - b); }
    hide B, Pow2;
    SplitAlgebra(x, Pow2(b), Pow2(WORD_BITS - b));
  }

  lemma SplitAlgebra(x: nat, p: nat, q: nat)
    requires p > 0 && q > 0 && p * q > x
    ensures x / q < p
    ensures p * x == (x * p) % (p * q) + (p * q) * (x / q)
    ensures ((x * p) % (p * q)) % p == 0
  {
    var h, l := x / q, x % q;
    DivModDef(x, q);
    assert x * p == (p * q) * h + p * l by { MulDist(p, q * h, l); MulAssoc(p, q, h); }
    MulMono(p, l, q - 1);
    MulDist(p, q, -1);
    MulMono(p, 0, l);
    ModUnique(x * p, p * q, h, p * l);
    ModOfMultiple(l, p);
    if h >= p { MulMono(q, p, h); }
  }

  /** The words shifted so far and the bits waiting in the carry make up the shifted prefix. */
  ghost predicate ShiftInv(s: seq<Word>, b: nat, shifted: seq<Word>, i: nat, carry: Word)
  {
    i <= |s| && |shifted| == i && carry < Pow2(b) &&
    Val(shifted) + Pow(i) * carry == Val(s[..i]) * Pow2(b)
  }

  lemma ShiftStart(s: seq<Word>, b: nat)
    ensures ShiftInv(s, b, [], 0, 0)
  {
  }

  lemma ShiftStep(s: seq<Word>, b: nat, shifted: seq<Word>, i: nat, carry: Word)
    requires 0 < b < WORD_BITS && i < |s| && ShiftInv(s, b, shifted, i, carry)
    ensures Or(Shl(s[i], b), carry) < B
    ensures ShiftInv(s, b, shifted + [Or(Shl(s[i], b), carry)], i + 1, Shr(s[i], WORD_BITS - b))
  {
    hide Pow2, B, Or, Shl, Shr, Val, Pow, WORD_BITS;
    ShlSplit(s[i], b);
    var lo, hi := Shl(s[i], b), Shr(s[i], WORD_BITS - b);
    OrDisjoint(lo, carry, b);
    LowRoom(lo, carry, b);
    ValSnoc(s, i);
    ValPush(shifted, lo + carry);
    ShiftAlgebra(Pow(i), Pow2(b), Val(s[..i]), s[i], Val(shifted), carry, lo, hi);
    PowSucc(i);
  }

  /** Filling the low bits of a word keeps it a word. */
  lemma LowRoom(lo: Word, carry: nat, b: nat)
    requires b < WORD_BITS && lo % Pow2(b) == 0 && carry < Pow2(b)
    ensures lo + carry < B
  {
    assert B == Pow2(b) * Pow2(WORD_BITS - b) by { BaseDef(); Pow2Add(b, WORD_BITS - b); }
    hide B, Pow2;
    RoomAlgebra(lo, carry, Pow2(b), Pow2(WORD_BITS - b));
  }

  lemma RoomAlgebra(lo: nat, carry: nat, p: nat, q: nat)
    requires p > 0 && lo < p * q && lo % p == 0 && carry < p
    ensures lo + carry < p * q
  {
    var h := lo / p;
    DivModDef(lo, p);
    if h >= q { MulMono(p, q, h); }
    MulMono(p, h + 1, q);
    MulDist(p, h, 1);
  }

  lemma ShiftAlgebra(p: nat, t: nat, v: nat, x: nat, w: nat, c: nat, lo: nat, hi: nat)
    requires w + p * c == v * t && t * x == lo + B * hi
    ensures (w + p * (lo + c)) + (B * p) * hi == (v + p * x) * t
  {
    hide B;
    MulDist(t, v, p * x);
    MulSwap(t, p, x);
    MulAssoc(p, t, x);
    MulDist(p, lo, B * hi);
    MulSwap(p, B, hi);
    MulDist(p, lo, c);
  }

  /** How far mod is shifted so that its highest bit becomes the highest bit of 2n words. */
  lemma ShiftAmount(m: nat, n: nat, bits: nat)
    requires n > 0 && IsBitLength(m, bits) && WORD_BITS * (n - 1) < bits <= WORD_BITS * n
    ensures var shift := n * 2 * WORD_BITS - bits;
            shift / WORD_BITS == n && shift % WORD_BITS == shift - WORD_BITS * n
    ensures var b := n * WORD_BITS - bits;
            b >= 0 && m * Pow2(b) < Pow(n) <= 2 * (m * Pow2(b))
  {
    hide Pow2, Pow, WORD_BITS;
    WordBitsPositive();
    var k := WORD_BITS * n;
    AmountAlgebra(WORD_BITS, n);
    ModUnique(2 * k - bits, WORD_BITS, n, k - bits);
    PowIsPow2(n);
    TopAlign(m, bits, k);
  }

  lemma WordBitsPositive()
    ensures WORD_BITS >= 8
  {
  }

  lemma AmountAlgebra(w: nat, n: nat)
    ensures n * 2 * w == 2 * (w * n) && n * w == w * n && w * (n - 1) == w * n - w
  {
    MulDist(w, n, -1);
    MulAssoc(2, w, n);
  }

  lemma TopAlign(m: nat, bits: nat, k: nat)
    requires 0 < bits <= k && Pow2(bits - 1) <= m < Pow2(bits)
    ensures m * Pow2(k - bits) < Pow2(k) <= 2 * (m * Pow2(k - bits))
  {
    var b := k - bits;
    Pow2Add(bits, b);
    Pow2Double(bits - 1);
    hide Pow2;
    MulMono(Pow2(b), m, Pow2(bits) - 1);
    MulDist(Pow2(b), Pow2(bits), -1);
    MulMono(Pow2(b), Pow2(bits - 1), m);
    MulAssoc(2, Pow2(bits - 1), Pow2(b));
  }

  lemma PowZero()
    ensures Pow2(0) == 1
  {
  }

  lemma Pow2Double(n: nat)
    ensures Pow2(n + 1) == 2 * Pow2(n)
  {
  }

  /** Shift-left of mod into the upper half of a double-length array. */
  method ShiftMod(multiple: array<Word>, mod: array<Word>, n: nat, wordShift: nat, bitShift: nat)
    requires multiple != mod && wordShift + n <= multiple.Length && n <= mod.Length
    requires bitShift < WORD_BITS && V(mod, n) * Pow2(bitShift) < Pow(n)
    modifies multiple
    ensures Val(multiple[wordShift..wordShift + n]) == V(mod, n) * Pow2(bitShift)
    ensures multiple[..wordShift] == old(multiple[..wordShift])
  {
    hide Pow, Val, Shl, Shr, Or, B;
    if bitShift > 0 {
      ghost var s := mod[..n];
      ghost var shifted: seq<Word> := [];
      var carry: Word := 0;
      ShiftStart(s, bitShift);
      var index := 0;
      while index < n
        invariant 0 <= index <= n
        invariant multiple[wordShift..wordShift + index] == shifted
        invariant multiple[..wordShift] == old(multiple[..wordShift])
        invariant ShiftInv(s, bitShift, shifted, index, carry)
      {
        ShiftStep(s, bitShift, shifted, index, carry);
        multiple[wordShift + index] := Or(Shl(mod[index], bitShift), carry);
        shifted := shifted + [multiple[wordShift + index]];
        carry := Shr(mod[index], WORD_BITS - bitShift);
        index := index + 1;
      }
      assert s[..n] == s;
      if carry > 0 { MulAtLeast(Pow(n), carry); }
    } else {
      SetAt(multiple, wordShift, mod, n);
    }
  }

  /** One round: v is reduced by the multiple when it is at least that large. */
  lemma ReduceRound(v: nat, mm: nat, m: nat, s: nat, p: nat)
    requires m > 0 && mm == m * Pow2(s) && v < m * Pow2(s + 1) && v % m == p % m
    ensures v >= mm ==> v - mm < mm && (v - mm) % m == p % m
    ensures mm / 2 == if s > 0 then m * Pow2(s - 1) else mm / 2
  {
    if v >= mm {
      DivModDef(v, m);
      var t: int := Pow2(s);
      MulDist(m, v / m, -t);
      MulNeg(m, t);
      ModUnique(v - mm, m, v / m - t, v % m);
    }
    if s > 0 {
      Pow2Double(s - 1);
      MulSwap(m, 2, Pow2(s - 1));
      MulAssoc(2, m, Pow2(s - 1));
    }
  }

  /** The subtraction inside the reduction loop: diff = v - multiple over 2n words. */
  method SubInto(diff: array<Word>, v: array<Word>, multiple: array<Word>, n: nat) returns (borrow: Word)
    requires n <= diff.Length && n <= v.Length && n <= multiple.Length
    requires diff != v && diff != multiple
    modifies diff
    ensures borrow <= 1 && (borrow == 1 <==> V(v, n) < V(multiple, n))
    ensures borrow == 0 ==> V(diff, n) == V(v, n) - V(multiple, n)
  {
    hide Pow, Val;
    borrow := Sub(diff, v, multiple, n);
    ValBound(v[..n]);
    ValBound(multiple[..n]);
    ValBound(diff[..n]);
    BorrowDecides(n, V(v, n), V(multiple, n), V(diff, n), borrow);
  }

  /** vli >>= 1 over 2n words, done in two halves. */
  method Rshift1Halves(vli: array<Word>, n: nat)
    requires 0 < n && 2 * n <= vli.Length
    modifies vli
    ensures V(vli, 2 * n) == old(V(vli, 2 * n)) / 2
  {
    hide Pow, Val, Or, Shl;
    ghost var s := vli[..2 * n];
    assert s[..n] == vli[..n] == vli[0..n] && s[n..] == vli[n..2 * n];
    Rshift1At(vli, 0, n);
    ghost var low := vli[0..n];
    assert vli[n..2 * n] == s[n..] by {
      assert vli[n..] == old(vli[n..]);
      assert vli[n..2 * n] == vli[n..][..n] == old(vli[n..])[..n];
    }
    assert vli[n] == vli[n..2 * n][0] == s[n];
    HalvesJoin(s, low, n);
    vli[n - 1] := Or(vli[n - 1], Shl(vli[n], WORD_BITS - 1));
    ghost var joined := vli[0..n];
    assert joined == low[n - 1 := joined[n - 1]];
    assert vli[n..2 * n] == s[n..];
    Rshift1At(vli, n, n);
    assert vli[0..n] == joined by { assert vli[..n] == vli[0..n]; }
    assert vli[..2 * n] == vli[0..n] + vli[n..2 * n];
    ValConcat(joined, vli[n..2 * n]);
  }

  /** Halving both halves and moving the bit between them halves the whole. */
  lemma HalvesJoin(s: seq<Word>, low: seq<Word>, n: nat)
    requires 0 < n && |s| == 2 * n && |low| == n && Val(low) == Val(s[..n]) / 2
    ensures Or(low[n - 1], Shl(s[n], WORD_BITS - 1)) < B
    ensures Val(low[n - 1 := Or(low[n - 1], Shl(s[n], WORD_BITS - 1))]) + Pow(n) * (Val(s[n..]) / 2) == Val(s) / 2
  {
    hide Pow, Val, Or, Shl, B, HIGH_BIT;
    BaseFacts();
    var x, bit := low[n - 1], s[n] % 2;
    LowBitToTop(s[n]);
    assert x < HIGH_BIT by { TopHalved(s[..n], low); }
    OrTop(2 * x, bit);
    var y: Word := x + bit * HIGH_BIT;
    var low' := low[n - 1 := y];
    assert Val(low') == Val(low) + Pow(n - 1) * (bit * HIGH_BIT) by {
      assert low[..n] == low && low'[..n] == low' && low'[..n - 1] == low[..n - 1];
      ValSnoc(low, n - 1);
      ValSnoc(low', n - 1);
      MulDist(Pow(n - 1), x, bit * HIGH_BIT);
    }
    ValSplit(s, n);
    assert Val(s[n..]) % 2 == bit by { ValCons(s, n); ParityOfVal(s[n], Val(s[n + 1..])); }
    PowSucc(n - 1);
    HalfSplit(Pow(n - 1), HIGH_BIT, Pow(n), Val(s[..n]), Val(s[n..]), bit);
  }

  lemma HalfSplit(p: nat, h: nat, q: nat, lo: nat, hi: nat, bit: nat)
    requires q == (2 * h) * p && bit == hi % 2
    ensures (lo / 2 + p * (bit * h)) + q * (hi / 2) == (lo + q * hi) / 2
  {
    var k := hi / 2;
    assert q * hi == 2 * (q * k) + q * bit by { MulDist(q, 2 * k, bit); MulSwap(q, 2, k); MulAssoc(2, q, k); }
    assert q * bit == 2 * (p * (bit * h)) by {
      if bit == 0 { assert bit * h == 0; } else { assert bit * h == h; MulAssoc(2, h, p); }
    }
  }

  /** The shifted modulus and the bound it puts on every double-length number. */
  lemma MultipleStart(s: seq<Word>, m: nat, n: nat, b: nat, shift: nat)
    requires |s| == 2 * n && shift == WORD_BITS * n + b
    requires s[..n] == seq(n, _ => 0) && Val(s[n..]) == m * Pow2(b) && Pow(n) <= 2 * (m * Pow2(b))
    ensures Val(s) == m * Pow2(shift)
    ensures Pow(2 * n) <= m * Pow2(shift + 1)
  {
    hide Pow, Val, Pow2;
    ValSplit(s, n);
    ValZeros(s[..n]);
    PowIsPow2(n);
    Pow2Add(WORD_BITS * n, b);
    MulSwap(Pow(n), m, Pow2(b));
    MulAssoc(m, Pow(n), Pow2(b));
    Pow2Double(shift);
    PowAdd(n, n);
    MulMono(Pow(n), Pow(n), 2 * (m * Pow2(b)));
    MulSwap(Pow(n), 2, m * Pow2(b));
    MulAssoc(2, Pow(n), m * Pow2(b));
    MulSwap(m, 2, Pow2(shift));
    MulAssoc(2, m, Pow2(shift));
  }

  /** A number that fits in n words is in the n low words. */
  lemma LowWords(s: seq<Word>, n: nat)
    requires n <= |s| && Val(s) < Pow(n)
    ensures Val(s[..n]) == Val(s)
  {
    hide Pow, Val;
    ValSplit(s, n);
    if Val(s[n..]) > 0 { MulAtLeast(Pow(n), Val(s[n..])); }
  }

  /** Shift mod so its highest set bit is the highest bit of 2n words. */
  method AlignMod(modMultiple: array<Word>, mod: array<Word>, n: nat) returns (shift: int)
    requires 0 < n && 2 * n <= modMultiple.Length && n <= mod.Length && modMultiple != mod
    requires mod[n - 1] != 0
    modifies modMultiple
    ensures shift >= 0 && V(modMultiple, 2 * n) == V(mod, n) * Pow2(shift)
    ensures Pow(2 * n) <= V(mod, n) * Pow2(shift + 1)
  {
    hide Pow, Val, Pow2;
    var bits := NumBits(mod, n);
    shift := n * 2 * WORD_BITS - bits;
    ShiftAmount(V(mod, n), n, bits);
    var wordShift, bitShift := shift / WORD_BITS, shift % WORD_BITS;
    Clear(modMultiple, wordShift);
    ShiftMod(modMultiple, mod, n, wordShift, bitShift);
    assert modMultiple[..2 * n][..n] == modMultiple[..n] && modMultiple[..2 * n][n..] == modMultiple[n..2 * n];
    MultipleStart(modMultiple[..2 * n], V(mod, n), n, bitShift, shift);
  }

  /** The number still to be reduced is congruent to the product and within reach of the multiple. */
  ghost predicate ReduceInv(v: nat, mm: nat, m: nat, shift: int, p: nat)
  {
    m > 0 && shift >= -1 && v < m * Pow2(shift + 1) && v % m == p % m &&
    (shift >= 0 ==> mm == m * Pow2(shift))
  }

  lemma ReduceStart(v: nat, mm: nat, m: nat, shift: nat, bound: nat)
    requires m > 0 && v < bound <= m * Pow2(shift + 1) && mm == m * Pow2(shift)
    ensures ReduceInv(v, mm, m, shift, v)
  {
  }

  lemma ReduceStep(v: nat, mm: nat, m: nat, shift: int, p: nat)
    requires shift >= 0 && ReduceInv(v, mm, m, shift, p)
    ensures ReduceInv(if v < mm then v else v - mm, mm / 2, m, shift - 1, p)
  {
    hide Pow2;
    ReduceRound(v, mm, m, shift, p);
  }

  lemma ReduceEnd(s: seq<Word>, mm: nat, m: nat, p: nat, n: nat)
    requires n <= |s| && m < Pow(n) && ReduceInv(Val(s), mm, m, -1, p)
    ensures Val(s[..n]) == p % m
  {
    PowZero();
    hide Pow, Val, Pow2;
    LowWords(s, n);
    ModSmall(Val(s), m);
  }

  /** result = product % mod for a product of 2n words and a mod whose top word is not zero.
      The difference is written to the other of two arrays, and the arrays change roles
      when there was no borrow. */
  method Mmod(result: array<Word>, product: array<Word>, mod: array<Word>, n: nat)
    requires 0 < n <= MAX_WORDS && n <= result.Length && 2 * n <= product.Length && n <= mod.Length
    requires result != product && result != mod && product != mod
    requires mod[n - 1] != 0
    modifies result, product
    ensures V(mod, n) > 0 && V(result, n) == old(V(product, 2 * n)) % V(mod, n)
    ensures result[n..] == old(result[n..])
  {
    hide Pow, Val, Pow2, ReduceInv;
    var modMultiple := new Word[2 * MAX_WORDS];
    var tmp := new Word[2 * MAX_WORDS];
    var v := [tmp, product];
    ghost var m, p := V(mod, n), V(product, 2 * n);
    var shift := AlignMod(modMultiple, mod, n);
    PositiveTop(mod[..n]);
    ValBound(product[..2 * n]);
    ReduceStart(p, V(modMultiple, 2 * n), m, shift, Pow(2 * n));
    var index := 1;
    while shift >= 0
      invariant shift >= -1 && 0 <= index <= 1
      invariant ReduceInv(V(v[index], 2 * n), V(modMultiple, 2 * n), m, shift, p)
      invariant result[n..] == old(result[n..])
      decreases shift
    {
      ReduceStep(V(v[index], 2 * n), V(modMultiple, 2 * n), m, shift, p);
      var borrow := SubInto(v[1 - index], v[index], modMultiple, 2 * n);
      index := if index == borrow then 1 else 0;
      Rshift1Halves(modMultiple, n);
      shift := shift - 1;
    }
    ValBound(mod[..n]);
    ReduceEnd(v[index][..2 * n], V(modMultiple, 2 * n), m, p, n);
    assert v[index][..2 * n][..n] == v[index][..n];
    Set(result, v[index], n);
  }

  lemma PositiveTop(s: seq<Word>)
    requires |s| > 0 && s[|s| - 1] != 0
    ensures Val(s) > 0
  {
    hide Val;
    if Val(s) == 0 { ValIsZero(s); }
  }

  /** result = (left * right) % mod; the operands need not be reduced. */
  method ModMult(result: array<Word>, left: array<Word>, right: array<Word>, mod: array<Word>, n: nat)
    requires 0 < n <= MAX_WORDS && n <= result.Length && n <= left.Length && n <= right.Length && n <= mod.Length
    requires result != mod && mod[n - 1] != 0
    modifies result
    ensures V(mod, n) > 0 && V(result, n) == old(V(left, n) * V(right, n)) % V(mod, n)
    ensures result[n..] == old(result[n..])
  {
    hide Pow, Val;
    var product := new Word[2 * MAX_WORDS];
    Mult(product, left, right, n);
    Mmod(result, product, mod, n);
  }

  /** result = left^2 % mod through the squaring function. */
  method ModSquare(result: array<Word>, left: array<Word>, mod: array<Word>, n: nat)
    requires 0 < n <= MAX_WORDS && n <= result.Length && n <= left.Length && n <= mod.Length
    requires result != mod && mod[n - 1] != 0
    modifies result
    ensures V(mod, n) > 0 && V(result, n) == old(V(left, n) * V(left, n)) % V(mod, n)
    ensures result[n..] == old(result[n..])
  {
    hide Pow, Val;
    var product := new Word[2 * MAX_WORDS];
    Square(product, left, n);
    Mmod(result, product, mod, n);
  }
}
