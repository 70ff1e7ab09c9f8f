/** Scalars of fixed length: k + n or k + 2n, and where the ladder on them is regular. */
module Regularize {
  import opened Arith
  import opened Bits
  import opened Congruence
  import opened Ladder

  /** The scalar the callers of regularize_k hand to the ladder: the first sum with bit b set. */
  function Regular2(k: nat, n: nat, b: nat): nat {
    if k + n >= Pow2(b) then k + n else k + 2 * n
  }

  /** It is congruent to k and has exactly b + 1 bits. */
  lemma FixedLength(k: nat, n: nat, b: nat)
    requires 0 < k < n && b > 0 && Pow2(b - 1) <= n < Pow2(b)
    ensures Pow2(b) <= Regular2(k, n, b) < Pow2(b + 1)
    ensures Cong(Regular2(k, n, b), k, n)
  {
    var j := if k + n >= Pow2(b) then 1 else 2;
    assert Regular2(k, n, b) - k == n * j;
    CongIntro(Regular2(k, n, b), k, n, j);
  }

  /** The prefix of a scalar of b + 1 bits is one at the top. */
  lemma TopPrefix(s: nat, b: nat)
    requires Pow2(b) <= s < Pow2(b + 1)
    ensures Prefix(s, b) == 1
  {
    ModUnique(s, Pow2(b), 1, s - Pow2(b));
  }

  /** How prefixes bound the scalar. */
  lemma PrefixBounds(s: nat, j: nat)
    ensures Pow2(j) * Prefix(s, j) <= s < Pow2(j) * (Prefix(s, j) + 1)
  {
    DivModDef(s, Pow2(j));
    MulDist(Pow2(j), s / Pow2(j), 1);
  }

  lemma PrefixPositive(s: nat, j: nat, b: nat)
    requires j <= b && s >= Pow2(b)
    ensures Prefix(s, j) >= 1
  {
    PrefixBounds(s, j);
    Pow2Mono(j, b);
    assert Pow2(j) * (0 + 1) == Pow2(j);
  }

  /** A step of the ladder is irregular only for the prefixes n - 1, n, (n - 1) / 2 and (3n - 1) / 2. */
  lemma IrregularPrefix(m: nat, n: nat)
    requires n >= 5 && n % 2 == 1 && 0 < m && 2 * m < 3 * n
    ensures Regular(m, n) <==> m != n - 1 && m != n && 2 * m + 1 != n && 2 * m + 1 != 3 * n
  {
    MultipleBelow(m, n);
    MultipleBelow(m + 1, n);
    MultipleBelow(2 * m + 1, n);
  }

  lemma MultipleBelow(x: nat, n: nat)
    requires n > 0 && 0 < x <= 3 * n
    ensures x % n == 0 <==> x == n || x == 2 * n || x == 3 * n
  {
    if x < n { ModSmall(x, n); }
    else if x < 2 * n { ModUnique(x, n, 1, x - n); }
    else if x < 3 * n { ModUnique(x, n, 2, x - 2 * n); }
    else { ModUnique(x, n, 3, 0); }
  }

  /** All steps above bit 2 are regular for every scalar between n and 3n. */
  lemma HighStepsRegular(s: nat, j: nat, b: nat, n: nat)
    requires n >= 5 && n % 2 == 1 && n < s < 3 * n && Pow2(b) <= s && 3 <= j <= b
    ensures Regular(Prefix(s, j), n)
  {
    var m := Prefix(s, j);
    PrefixPositive(s, j, b);
    PrefixBounds(s, j);
    Pow2Mono(3, j);
    assert Pow2(3) == 8;
    hide Prefix, Regular, Pow2;
    MulMono(m, 8, Pow2(j));
    IrregularPrefix(m, n);
  }

  lemma SecondStep(s: nat, b: nat, n: nat)
    requires n >= 5 && n % 2 == 1 && n < s < 3 * n && Pow2(b) <= s && 2 <= b
    ensures Regular(Prefix(s, 2), n) <==> !(2 * n - 2 <= s <= 2 * n + 1)
    ensures 2 * n - 2 <= s <= 2 * n + 1 ==> 2 * Prefix(s, 2) + 1 == n
  {
    PrefixPositive(s, 2, b);
    PrefixBounds(s, 2);
    assert Pow2(2) == 4;
    hide Regular, Prefix;
    IrregularPrefix(Prefix(s, 2), n);
  }

  lemma FirstStep(s: nat, b: nat, n: nat)
    requires n >= 5 && n % 2 == 1 && n < s < 3 * n && Pow2(b) <= s && 1 <= b
    requires !(2 * n - 2 <= s <= 2 * n + 1) && s != 3 * n - 1
    ensures Regular(Prefix(s, 1), n)
  {
    PrefixPositive(s, 1, b);
    PrefixBounds(s, 1);
    assert Pow2(1) == 2;
    hide Regular, Prefix;
    IrregularPrefix(Prefix(s, 1), n);
  }

  /** The private scalars on which some step of the ladder is irregular. */
  predicate Exceptional(k: nat, n: nat, b: nat) {
    (k == 1 && n + 1 < Pow2(b)) || k == n - 2 || k == n - 1
  }

  /** A modulus of b bits that is odd leaves n - 2 and n - 1 to the first sum. */
  lemma ExceptionalScalars(k: nat, n: nat, b: nat)
    requires n >= 5 && n % 2 == 1 && 0 < k < n && b > 1 && Pow2(b - 1) <= n < Pow2(b)
    ensures var s := Regular2(k, n, b);
            (Exceptional(k, n, b) <==> 2 * n - 2 <= s <= 2 * n + 1) && s != 3 * n - 1 && n < s < 3 * n
  {
    assert Pow2(b) == 2 * Pow2(b - 1);
    assert Pow2(b - 1) == 2 * Pow2(b - 2);
    assert n != Pow2(b - 1);
  }

  /** Outside the exceptional scalars every step is regular; on them all steps but the last two
      are, and the step at bit 1 meets opposite points. */
  lemma StepsOfRegular2(k: nat, n: nat, b: nat)
    requires n >= 5 && n % 2 == 1 && 0 < k < n && b > 1 && Pow2(b - 1) <= n < Pow2(b)
    ensures !Exceptional(k, n, b) ==> RegularFrom(Regular2(k, n, b), 0, b, n)
    ensures Exceptional(k, n, b) ==>
              RegularFrom(Regular2(k, n, b), 2, b, n) && (2 * Prefix(Regular2(k, n, b), 2) + 1) % n == 0
  {
    var s := Regular2(k, n, b);
    FixedLength(k, n, b);
    ExceptionalScalars(k, n, b);
    hide Regular, Prefix, Regular2, Cong, Pow2;
    SecondStep(s, b, n);
    forall j | 3 <= j <= b
      ensures Regular(Prefix(s, j), n)
    {
      HighStepsRegular(s, j, b, n);
    }
    if Exceptional(k, n, b) {
      ModUnique(n, n, 1, 0);
    } else {
      FirstStep(s, b, n);
    }
  }
}
