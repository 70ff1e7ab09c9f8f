/** Machine words and the number a little-endian word sequence stands for. */
module Words {
  import opened Arith
  import opened Bits

  type WordSize = w: nat | w == 1 || w == 4 || w == 8 witness 4

  /** uECC_WORD_SIZE, in bytes. It has no value here: every proof holds for the three sizes
      the configuration header allows. */
  const WORD_SIZE: WordSize

  const WORD_BITS: nat := 8 * WORD_SIZE

  /** The number of values of a word. */
  const B: nat := Pow2(WORD_BITS)

  /** The value of HIGH_BIT_SET. */
  const HIGH_BIT: nat := Pow2(WORD_BITS - 1)

  /** uECC_MAX_WORDS of a 256-bit curve. */
  const MAX_WORDS: nat := 32 / WORD_SIZE

  type Word = x: nat | x < B witness (assert B > 0; 0)

  lemma BitsFacts()
    ensures Pow2(7) == 128 && WORD_BITS >= 8 && B == 2 * HIGH_BIT
  {
  }

  lemma BaseFacts()
    ensures B == 2 * HIGH_BIT && HIGH_BIT >= 128 && B >= 256
    ensures 4 <= MAX_WORDS <= 32 <= B
  {
    BitsFacts();
    hide Pow2;
    Pow2Mono(7, WORD_BITS - 1);
  }

  lemma BaseDef()
    ensures B == Pow2(WORD_BITS) && HIGH_BIT == Pow2(WORD_BITS - 1)
  {
  }

  lemma PowSucc(n: nat)
    ensures Pow(n + 1) == B * Pow(n)
  {
  }

  /** B to the power n. */
  function Pow(n: nat): (r: nat)
    ensures r > 0
  {
    if n == 0 then 1 else
      assert B * Pow(n - 1) > 0 by { MulAtLeast(B, Pow(n - 1)); }
      B * Pow(n - 1)
  }

  /** The number whose base-B digits are s, least significant digit first. */
  function Val(s: seq<Word>): nat
  {
    if |s| == 0 then 0 else s[0] + B * Val(s[1..])
  }

  /** The number in the first n words of an array. */
  function V(a: array<Word>, n: nat): nat
    requires n <= a.Length
    reads a
  {
    Val(a[..n])
  }

  lemma {:induction false} PowAdd(m: nat, n: nat)
    ensures Pow(m + n) == Pow(m) * Pow(n)
  {
    if m > 0 {
      PowAdd(m - 1, n);
      MulAssoc(B, Pow(m - 1), Pow(n));
      assert Pow(m + n) == B * Pow(m - 1 + n);
    }
  }

  lemma {:induction false} PowIsPow2(n: nat)
    ensures Pow(n) == Pow2(WORD_BITS * n)
  {
    if n > 0 {
      PowIsPow2(n - 1);
      Pow2Add(WORD_BITS, WORD_BITS * (n - 1));
      assert WORD_BITS * n == WORD_BITS + WORD_BITS * (n - 1);
    }
  }

  lemma {:induction false} ValBound(s: seq<Word>)
    ensures Val(s) < Pow(|s|)
  {
    if |s| > 0 {
      ValBound(s[1..]);
      MulMono(B, Val(s[1..]), Pow(|s| - 1) - 1);
      MulDist(B, Pow(|s| - 1), -1);
    }
  }

  lemma {:induction false} ValConcat(s: seq<Word>, t: seq<Word>)
    ensures Val(s + t) == Val(s) + Pow(|s|) * Val(t)
  {
    if |s| == 0 {
      assert s + t == t;
    } else {
      ValConcat(s[1..], t);
      assert (s + t)[1..] == s[1..] + t;
      MulDist(B, Val(s[1..]), Pow(|s| - 1) * Val(t));
      MulAssoc(B, Pow(|s| - 1), Val(t));
    }
  }

  /** The value of a prefix that grows by one word. */
  lemma ValSnoc(s: seq<Word>, i: nat)
    requires i < |s|
    ensures Val(s[..i + 1]) == Val(s[..i]) + Pow(i) * s[i]
  {
    assert s[..i + 1] == s[..i] + [s[i]];
    ValOne(s[i]);
    ValConcat(s[..i], [s[i]]);
  }

  lemma ValPush(s: seq<Word>, x: Word)
    ensures Val(s + [x]) == Val(s) + Pow(|s|) * x
  {
    ValOne(x);
    ValConcat(s, [x]);
  }

  lemma ValOne(x: Word)
    ensures Val([x]) == x
  {
    assert [x][1..] == [];
    assert B * Val([]) == 0;
  }

  /** The value of a suffix that grows downwards by one word. */
  lemma ValCons(s: seq<Word>, i: nat)
    requires i < |s|
    ensures Val(s[i..]) == s[i] + B * Val(s[i + 1..])
  {
    assert s[i..][1..] == s[i + 1..];
  }

  /** Replacing one word changes the value at the place of that word. */
  lemma ValReplace(s: seq<Word>, i: nat, x: Word)
    requires i < |s|
    ensures Val(s[i := x]) == Val(s) + Pow(i) * x - Pow(i) * s[i]
  {
    var t := s[i := x];
    ValSplit(s, i);
    ValSplit(t, i);
    ValCons(s, i);
    ValCons(t, i);
    assert t[..i] == s[..i] && t[i + 1..] == s[i + 1..];
    hide Val, Pow;
    MulDist(Pow(i), s[i], B * Val(s[i + 1..]));
    MulDist(Pow(i), x, B * Val(s[i + 1..]));
  }

  lemma ValSplit(s: seq<Word>, i: nat)
    requires i <= |s|
    ensures Val(s) == Val(s[..i]) + Pow(i) * Val(s[i..])
  {
    assert s == s[..i] + s[i..];
    ValConcat(s[..i], s[i..]);
  }

  lemma {:induction false} ValZeros(s: seq<Word>)
    requires forall i :: 0 <= i < |s| ==> s[i] == 0
    ensures Val(s) == 0
  {
    if |s| > 0 {
      ValZeros(s[1..]);
      assert B * 0 == 0;
    }
  }

  lemma {:induction false} ValIsZero(s: seq<Word>)
    requires Val(s) == 0
    ensures forall i :: 0 <= i < |s| ==> s[i] == 0
  {
    if |s| > 0 {
      if Val(s[1..]) > 0 { MulAtLeast(B, Val(s[1..])); }
      ValIsZero(s[1..]);
      assert forall i :: 0 < i < |s| ==> s[i] == s[1..][i - 1];
    }
  }

  /** Digits are determined by the number and the length. */
  lemma {:induction false} ValInjective(s: seq<Word>, t: seq<Word>)
    requires |s| == |t| && Val(s) == Val(t)
    ensures s == t
  {
    if |s| > 0 {
      QuotientUnique(B, Val(s[1..]), s[0], Val(t[1..]), t[0]);
      ValInjective(s[1..], t[1..]);
      assert s == [s[0]] + s[1..] && t == [t[0]] + t[1..];
    }
  }

  /** Digit i of the number is word i: the least significant word comes first. */
  lemma {:induction false} ValDigit(s: seq<Word>, i: nat)
    requires i < |s|
    ensures (Val(s) / Pow(i)) % B == s[i]
    decreases i
  {
    var rest := Val(s[1..]);
    assert Val(s) == s[0] + B * rest;
    if i == 0 {
      hide B, Val;
      ModUnique(Val(s), 1, Val(s), 0);
      ModUnique(Val(s), B, rest, s[0]);
    } else {
      assert Pow(i) == B * Pow(i - 1);
      hide Pow, Val, B;
      ModUnique(Val(s), B, rest, s[0]);
      DivDiv(Val(s), B, Pow(i - 1));
      ValDigit(s[1..], i - 1);
    }
  }
}
