/** Bitwise operators of C on natural numbers, and the facts that turn the masks and
    shifts of the source into arithmetic. */
module Bits {
  import opened Arith

  function Pow2(n: nat): (r: nat)
    ensures r > 0
  {
    if n == 0 then 1 else 2 * Pow2(n - 1)
  }

  function Or(a: nat, b: nat): nat
    decreases a + b
  {
    if a == 0 && b == 0 then 0
    else 2 * Or(a / 2, b / 2) + (if a % 2 == 1 || b % 2 == 1 then 1 else 0)
  }

  function And(a: nat, b: nat): nat
    decreases a
  {
    if a == 0 then 0
    else 2 * And(a / 2, b / 2) + (if a % 2 == 1 && b % 2 == 1 then 1 else 0)
  }

  function Xor(a: nat, b: nat): nat
    decreases a + b
  {
    if a == 0 && b == 0 then 0
    else 2 * Xor(a / 2, b / 2) + (if a % 2 != b % 2 then 1 else 0)
  }

  lemma {:induction false} Pow2Add(m: nat, n: nat)
    ensures Pow2(m + n) == Pow2(m) * Pow2(n)
  {
    if m > 0 {
      Pow2Add(m - 1, n);
      assert Pow2(m + n) == 2 * (Pow2(m - 1) * Pow2(n)) == (2 * Pow2(m - 1)) * Pow2(n);
    }
  }

  lemma {:induction false} Pow2Mono(m: nat, n: nat)
    requires m <= n
    ensures Pow2(m) <= Pow2(n)
    decreases n
  {
    if m < n { Pow2Mono(m, n - 1); }
  }

  lemma {:induction false} OrZero(a: nat)
    ensures Or(a, 0) == a
  {
    if a > 0 { OrZero(a / 2); }
  }

  /** `|` on words whose bits do not overlap is addition. */
  lemma {:induction false} OrDisjoint(a: nat, b: nat, k: nat)
    requires a % Pow2(k) == 0 && b < Pow2(k)
    ensures Or(a, b) == a + b
    decreases k
  {
    if k == 0 {
      OrZero(a);
    } else {
      var q := a / Pow2(k);
      assert a == Pow2(k) * q == 2 * (Pow2(k - 1) * q);
      assert a / 2 == Pow2(k - 1) * q && a % 2 == 0;
      ModOfMultiple(q, Pow2(k - 1));
      OrDisjoint(a / 2, b / 2, k - 1);
    }
  }

  lemma {:induction false} OrSymmetric(a: nat, b: nat)
    ensures Or(a, b) == Or(b, a)
    decreases a + b
  {
    if a > 0 || b > 0 { OrSymmetric(a / 2, b / 2); }
  }

  lemma {:induction false} OrIsZero(a: nat, b: nat)
    ensures Or(a, b) == 0 <==> a == 0 && b == 0
    decreases a + b
  {
    if a > 0 || b > 0 { OrIsZero(a / 2, b / 2); }
  }

  lemma {:induction false} OrBound(a: nat, b: nat, k: nat)
    requires a < Pow2(k) && b < Pow2(k)
    ensures Or(a, b) < Pow2(k)
  {
    if k > 0 { OrBound(a / 2, b / 2, k - 1); }
  }

  lemma {:induction false} XorIsZero(a: nat, b: nat)
    ensures Xor(a, b) == 0 <==> a == b
    decreases a + b
  {
    if a > 0 || b > 0 { XorIsZero(a / 2, b / 2); }
  }

  lemma {:induction false} XorBound(a: nat, b: nat, k: nat)
    requires a < Pow2(k) && b < Pow2(k)
    ensures Xor(a, b) < Pow2(k)
  {
    if k > 0 { XorBound(a / 2, b / 2, k - 1); }
  }

  lemma {:induction false} AndZero(a: nat)
    ensures And(a, 0) == 0
  {
    if a > 0 { AndZero(a / 2); }
  }

  /** Masking with one shifted bit reads that bit. */
  lemma {:induction false} AndPow2(a: nat, k: nat)
    ensures And(a, Pow2(k)) == (if Bit(a, k) then Pow2(k) else 0)
  {
    if k == 0 {
      if a > 0 { AndZero(a / 2); }
    } else {
      BitHalf(a, k);
      hide Bit;
      if a > 0 { AndPow2(a / 2, k - 1); } else { BitZero(k); }
    }
  }

  lemma BitZero(k: nat)
    ensures !Bit(0, k)
  {
    ModSmall(0, Pow2(k));
  }

  /** Masking with 2^k - 1 keeps the k low bits. */
  lemma {:induction false} AndLowMask(a: nat, k: nat)
    ensures And(a, Pow2(k) - 1) == a % Pow2(k)
    decreases k
  {
    if k == 0 {
      AndZero(a);
      ModUnique(a, 1, a, 0);
    } else if a > 0 {
      var m := Pow2(k - 1);
      AndLowMask(a / 2, k - 1);
      ModOfDouble(a, m);
    } else {
      ModSmall(0, Pow2(k));
    }
  }

  lemma ModOfDouble(a: nat, m: nat)
    requires m > 0
    ensures a % (2 * m) == 2 * ((a / 2) % m) + a % 2
  {
    DivModDef(a / 2, m);
    var q, r := (a / 2) / m, (a / 2) % m;
    assert a == 2 * (m * q + r) + a % 2;
    MulAssoc(2, m, q);
    ModUnique(a, 2 * m, q, 2 * r + a % 2);
  }

  predicate Bit(a: nat, k: nat) {
    (a / Pow2(k)) % 2 == 1
  }

  lemma BitHalf(a: nat, k: nat)
    requires k > 0
    ensures Bit(a, k) == Bit(a / 2, k - 1)
  {
    DivDiv(a, 2, Pow2(k - 1));
  }

  lemma LowBit(a: nat)
    ensures Bit(a, 0) <==> a % 2 == 1
  {
    assert Pow2(0) == 1;
    ModUnique(a, 1, a, 0);
  }

  /** `|`, `&` and `^` bit by bit. */
  lemma {:induction false} OrBit(a: nat, b: nat, k: nat)
    ensures Bit(Or(a, b), k) <==> Bit(a, k) || Bit(b, k)
    decreases k
  {
    var r := Or(a, b);
    assert r / 2 == Or(a / 2, b / 2) && (r % 2 == 1 <==> a % 2 == 1 || b % 2 == 1);
    hide Or, Bit;
    if k == 0 {
      LowBit(a);
      LowBit(b);
      LowBit(r);
    } else {
      BitHalf(a, k);
      BitHalf(b, k);
      BitHalf(r, k);
      OrBit(a / 2, b / 2, k - 1);
    }
  }

  lemma {:induction false} AndBit(a: nat, b: nat, k: nat)
    ensures Bit(And(a, b), k) <==> Bit(a, k) && Bit(b, k)
    decreases k
  {
    var r := And(a, b);
    assert r / 2 == And(a / 2, b / 2) && (r % 2 == 1 <==> a % 2 == 1 && b % 2 == 1);
    hide And, Bit;
    if k == 0 {
      LowBit(a);
      LowBit(b);
      LowBit(r);
    } else {
      BitHalf(a, k);
      BitHalf(b, k);
      BitHalf(r, k);
      AndBit(a / 2, b / 2, k - 1);
    }
  }

  lemma {:induction false} XorBit(a: nat, b: nat, k: nat)
    ensures Bit(Xor(a, b), k) <==> Bit(a, k) != Bit(b, k)
    decreases k
  {
    var r := Xor(a, b);
    assert r / 2 == Xor(a / 2, b / 2) && (r % 2 == 1 <==> a % 2 != b % 2);
    hide Xor, Bit;
    if k == 0 {
      LowBit(a);
      LowBit(b);
      LowBit(r);
    } else {
      BitHalf(a, k);
      BitHalf(b, k);
      BitHalf(r, k);
      XorBit(a / 2, b / 2, k - 1);
    }
  }

  /** Numbers below 2^n with the same n low bits are equal. */
  lemma {:induction false} BitsEqual(a: nat, b: nat, n: nat)
    requires a < Pow2(n) && b < Pow2(n) && forall k :: 0 <= k < n ==> (Bit(a, k) <==> Bit(b, k))
    ensures a == b
    decreases n
  {
    hide Bit;
    if n > 0 {
      forall k | 0 <= k < n - 1
        ensures Bit(a / 2, k) <==> Bit(b / 2, k)
      {
        BitHalf(a, k + 1);
        BitHalf(b, k + 1);
        assert Bit(a, k + 1) <==> Bit(b, k + 1);
      }
      BitsEqual(a / 2, b / 2, n - 1);
      LowBit(a);
      LowBit(b);
      assert Bit(a, 0) <==> Bit(b, 0);
    }
  }
}
