/** Modular inversion by the binary Euclidean algorithm. */
module VliInv {
  import opened Arith
  import opened Bits
  import opened Words
  import opened Vli
  import opened Congruence

  /** The macro EVEN. */
  predicate Even(x: Word) {
    And(x, 1) == 0
  }

  lemma EvenVal(s: seq<Word>)
    requires |s| > 0
    ensures Even(s[0]) <==> Val(s) % 2 == 0
  {
    assert Pow2(1) == 2;
    AndLowMask(s[0], 1);
    assert Val(s) == s[0] + B * Val(s[1..]);
    hide B, Val, And, Pow2;
    ParityOfVal(s[0], Val(s[1..]));
  }

  /** Half of u modulo an odd m. */
  function Halve(u: nat, m: nat): nat {
    if u % 2 == 0 then u / 2 else (u + m) / 2
  }

  /** uv = uv / 2 mod mod: an odd value is first made even by adding the odd modulus, and the
      carry of that addition becomes the top bit after the shift. */
  method Update(uv: array<Word>, mod: array<Word>, n: nat)
    requires 0 < n <= uv.Length && n <= mod.Length && uv != mod
    requires V(uv, n) < V(mod, n) && V(mod, n) % 2 == 1
    modifies uv
    ensures V(uv, n) == Halve(old(V(uv, n)), V(mod, n)) < V(mod, n)
    ensures uv[n..] == old(uv[n..])
  {
    hide Pow, Val, Or;
    ghost var u, m := V(uv, n), V(mod, n);
    var carry := 0;
    EvenVal(uv[..n]);
    assert uv[..n][0] == uv[0];
    if !Even(uv[0]) {
      carry := Add(uv, uv, mod, n);
    }
    ghost var s := uv[..n];
    ghost var odd := if u % 2 == 0 then u else u + m;
    assert Val(s) + Pow(n) * carry == odd by { assert Pow(n) * 0 == 0; }
    Rshift1(uv, n);
    ghost var t := uv[..n];
    ghost var after := uv[n..];
    if carry != 0 {
      assert uv[n - 1] == t[n - 1];
      SetTopBit(s, t, n);
      uv[n - 1] := Or(uv[n - 1], HIGH_BIT);
      assert uv[..n] == t[n - 1 := uv[n - 1]];
      assert uv[n..] == after;
    }
    PowEven(n);
    HalfOfSum(Val(s), Pow(n), carry, odd);
  }

  lemma HalfOfSum(v: nat, p: nat, carry: nat, x: nat)
    requires carry <= 1 && v + p * carry == x && p % 2 == 0
    ensures carry == 0 ==> v / 2 == x / 2
    ensures carry == 1 ==> v / 2 + p / 2 == x / 2
  {
  }

  /** The carry put on top of the halved words stands for half of B^n. */
  lemma SetTopBit(s: seq<Word>, t: seq<Word>, n: nat)
    requires 0 < n == |s| == |t| && Val(t) == Val(s) / 2
    ensures Or(t[n - 1], HIGH_BIT) < B
    ensures Val(t[n - 1 := Or(t[n - 1], HIGH_BIT)]) == Val(s) / 2 + Pow(n) / 2
  {
    hide Pow, Val, Or, B, HIGH_BIT;
    TopHalved(s, t);
    var x := t[n - 1];
    assert x < B && 1 * HIGH_BIT == HIGH_BIT;
    OrHigh(x);
    var t' := t[n - 1 := Or(x, HIGH_BIT)];
    assert t[..n] == t && t'[..n] == t' && t'[..n - 1] == t[..n - 1];
    ValSnoc(t, n - 1);
    ValSnoc(t', n - 1);
    MulDist(Pow(n - 1), x, HIGH_BIT);
    PowEven(n);
  }

  lemma OrHigh(x: Word)
    requires x < HIGH_BIT
    ensures Or(x, HIGH_BIT) == x + HIGH_BIT < B
  {
    BaseFacts();
    hide Or, B, HIGH_BIT;
    OrTop(2 * x, 1);
  }

  //
  // The loop on values
  //

  ghost predicate SameDivisors(a: int, b: int, x: int, m: int) {
    forall d :: Divides(d, a) && Divides(d, b) <==> Divides(d, x) && Divides(d, m)
  }

  /** What every iteration keeps: u and v are the multiples of 1/x that a and b are, and a and
      b keep the common divisors of x and m. */
  ghost predicate InvState(a: nat, b: nat, u: nat, v: nat, x: nat, m: nat) {
    m > 1 && m % 2 == 1 && a > 0 && b > 0 && u < m && v < m &&
    Cong(u * x, a, m) && Cong(v * x, b, m) && SameDivisors(a, b, x, m)
  }

  lemma InvStart(x: nat, m: nat)
    requires m > 1 && m % 2 == 1 && x > 0
    ensures InvState(x, m, 1, 0, x, m)
  {
    CongRefl(x, m);
    MulNeg(m, 1);
    assert 0 * x == 0;
    CongIntro(0, m, m, -1);
  }

  lemma HalveCong(u: nat, a: nat, x: nat, m: nat)
    requires m > 1 && m % 2 == 1 && u < m && a % 2 == 0 && Cong(u * x, a, m)
    ensures Halve(u, m) < m && Cong(Halve(u, m) * x, a / 2, m)
  {
    var h := Halve(u, m);
    var add := if u % 2 == 0 then 0 else m;
    assert 2 * h == u + add;
    hide Halve;
    var k := CongWitness(u * x, a, m);
    hide Cong;
    var d := h * x - a / 2;
    var j := if u % 2 == 0 then k else k + x;
    assert 2 * d == m * j by {
      MulAssoc(2, h, x);
      MulDist(x, u, add);
      MulDist(m, k, x);
      assert x * 0 == 0;
    }
    DividesIntro(m, 2 * d, j);
    OddDividesHalf(m, d);
    var i := DividesWitness(m, d);
    CongIntro(h * x, a / 2, m, i);
  }

  /** Common divisors of numbers with an odd common divisor set are odd. */
  lemma DivisorsOdd(d: int, a: int, b: int, x: int, m: int)
    requires m % 2 == 1 && SameDivisors(a, b, x, m) && Divides(d, a) && Divides(d, b)
    ensures d % 2 == 1
  {
    var k := DividesWitness(d, m);
    hide Divides;
    if d % 2 == 0 {
      var h := d / 2;
      MulAssoc(2, h, k);
    }
  }

  lemma HalveDivisors(a: nat, b: nat, c: nat, x: int, m: int)
    requires m % 2 == 1 && SameDivisors(a, b, x, m) && a == 2 * c
    ensures SameDivisors(c, b, x, m)
  {
    hide Divides;
    forall d
      ensures Divides(d, c) && Divides(d, b) <==> Divides(d, a) && Divides(d, b)
    {
      if Divides(d, c) && Divides(d, b) { DividesLinear(d, c, b, 2, 0); }
      if Divides(d, a) && Divides(d, b) {
        DivisorsOdd(d, a, b, x, m);
        OddDividesHalf(d, c);
      }
    }
  }

  lemma SubDivisors(a: nat, b: nat, x: int, m: int)
    requires a > b && SameDivisors(a, b, x, m)
    ensures SameDivisors(a - b, b, x, m)
  {
    hide Divides;
    forall d
      ensures Divides(d, a - b) && Divides(d, b) <==> Divides(d, a) && Divides(d, b)
    {
      if Divides(d, a - b) && Divides(d, b) { DividesLinear(d, a - b, b, 1, 1); }
      if Divides(d, a) && Divides(d, b) { DividesLinear(d, a, b, 1, -1); }
    }
  }

  lemma SwapState(a: nat, b: nat, u: nat, v: nat, x: nat, m: nat)
    requires InvState(a, b, u, v, x, m)
    ensures InvState(b, a, v, u, x, m)
  {
    hide Divides, Cong;
  }

  lemma HalfStepState(a: nat, b: nat, u: nat, v: nat, x: nat, m: nat)
    requires InvState(a, b, u, v, x, m) && a % 2 == 0
    ensures InvState(a / 2, b, Halve(u, m), v, x, m)
  {
    hide Divides, Cong, Halve;
    HalveCong(u, a, x, m);
    HalveDivisors(a, b, a / 2, x, m);
  }

  /** u - v modulo m, as the source computes it. */
  function Diff(u: nat, v: nat, m: nat): int {
    if u < v then u + m - v else u - v
  }

  lemma SubStepState(a: nat, b: nat, u: nat, v: nat, x: nat, m: nat)
    requires InvState(a, b, u, v, x, m) && a > b
    ensures 0 <= Diff(u, v, m) < m && InvState(a - b, b, Diff(u, v, m), v, x, m)
  {
    hide Divides, Cong, Halve;
    var w := Diff(u, v, m);
    CongSub(u * x, a, v * x, b, m);
    MulDist(x, u, -(v as int));
    MulDist(x, u - v, m);
    var k := if u < v then x else 0;
    assert m * 0 == 0;
    CongIntro(w * x, u * x - v * x, m, k);
    CongTrans(w * x, u * x - v * x, a - b, m);
    SubDivisors(a, b, x, m);
  }

  lemma InvEnd(a: nat, u: nat, v: nat, x: nat, m: nat)
    requires InvState(a, a, u, v, x, m)
    ensures IsGcd(a, x, m) && Cong(u * x, a, m)
  {
    DividesIntro(a, a, 1);
  }

  /** u = (u - v) % mod, letting the sum u + mod wrap around. */
  method SubWrap(u: array<Word>, v: array<Word>, mod: array<Word>, n: nat)
    requires n <= u.Length && n <= v.Length && n <= mod.Length && u != v && u != mod
    requires V(u, n) < V(mod, n) && V(v, n) < V(mod, n)
    modifies u
    ensures Diff(old(V(u, n)), V(v, n), V(mod, n)) >= 0 && V(u, n) == Diff(old(V(u, n)), V(v, n), V(mod, n))
  {
    hide Pow, Val;
    ghost var x, y, m := V(u, n), V(v, n), V(mod, n);
    ghost var carry: Word := 0;
    var c := CmpUnsafe(u, v, n);
    if c < 0 {
      carry := Add(u, u, mod, n);
    }
    ghost var s := V(u, n);
    assert Pow(n) * 0 == 0;
    var borrow := Sub(u, u, v, n);
    ValBound(u[..n]);
    ValBound(mod[..n]);
    WrapCancels(Pow(n), s, carry, V(u, n), borrow, y, Diff(x, y, m));
  }

  lemma WrapCancels(p: nat, s: nat, carry: nat, r: nat, borrow: nat, y: nat, d: int)
    requires carry <= 1 && borrow <= 1 && 0 <= d < p && r < p
    requires s + p * carry == d + y && r - p * borrow == s - y
    ensures r == d
  {
  }

  /** a = (a - b) / 2 for odd a > b. */
  method SubHalve(a: array<Word>, b: array<Word>, n: nat)
    requires 0 < n <= a.Length && n <= b.Length && a != b && V(a, n) > V(b, n)
    modifies a
    ensures V(a, n) == (old(V(a, n)) - V(b, n)) / 2
  {
    hide Pow, Val;
    var borrow := Sub(a, a, b, n);
    ValBound(a[..n]);
    ValBound(b[..n]);
    WrapCancels(Pow(n), old(V(a, n)), 0, V(a, n), borrow, V(b, n), old(V(a, n)) - V(b, n)) by {
      ValBound(old(a[..n]));
      assert Pow(n) * 0 == 0;
    }
    Rshift1(a, n);
  }

  /** a = a / 2 and u = u / 2 mod mod: the branch for an even a. */
  method HalveStep(a: array<Word>, u: array<Word>, mod: array<Word>, n: nat)
    requires 0 < n <= a.Length && n <= u.Length && n <= mod.Length && a != u && a != mod && u != mod
    requires V(u, n) < V(mod, n) && V(mod, n) % 2 == 1
    modifies a, u
    ensures V(a, n) == old(V(a, n)) / 2
    ensures V(u, n) == Halve(old(V(u, n)), V(mod, n))
  {
    hide Pow, Val, Halve;
    Rshift1(a, n);
    Update(u, mod, n);
  }

  /** a = (a - b) / 2 and u = (u - v) / 2 mod mod: the branch for odd a > b. */
  method SubtractStep(a: array<Word>, b: array<Word>, u: array<Word>, v: array<Word>, mod: array<Word>, n: nat)
    requires 0 < n <= a.Length && n <= b.Length && n <= u.Length && n <= v.Length && n <= mod.Length
    requires a != b && a != u && a != v && a != mod && u != b && u != v && u != mod
    requires V(a, n) > V(b, n) && V(u, n) < V(mod, n) && V(v, n) < V(mod, n) && V(mod, n) % 2 == 1
    modifies a, u
    ensures V(a, n) == (old(V(a, n)) - V(b, n)) / 2
    ensures 0 <= Diff(old(V(u, n)), V(v, n), V(mod, n))
    ensures V(u, n) == Halve(Diff(old(V(u, n)), V(v, n), V(mod, n)), V(mod, n))
  {
    hide Pow, Val, Halve;
    SubHalve(a, b, n);
    SubWrap(u, v, mod, n);
    Update(u, mod, n);
  }

  /** The loop: a and b fall until they meet. */
  method InvLoop(a: array<Word>, b: array<Word>, u: array<Word>, v: array<Word>, mod: array<Word>, n: nat, ghost x: nat)
    requires 0 < n <= a.Length && n <= b.Length && n <= u.Length && n <= v.Length && n <= mod.Length
    requires a != b && a != u && a != v && b != u && b != v && u != v
    requires mod != a && mod != b && mod != u && mod != v
    requires InvState(V(a, n), V(b, n), V(u, n), V(v, n), x, V(mod, n))
    modifies a, b, u, v
    ensures V(a, n) == V(b, n) && InvState(V(a, n), V(b, n), V(u, n), V(v, n), x, V(mod, n))
    ensures old(V(a, n) == V(b, n)) ==> V(u, n) == old(V(u, n))
  {
    hide Pow, Val, InvState, Even, Halve, Diff;
    ghost var m := V(mod, n);
    var cmp := CmpUnsafe(a, b, n);
    while cmp != 0
      invariant InvState(V(a, n), V(b, n), V(u, n), V(v, n), x, m)
      invariant cmp == Sign(V(a, n) - V(b, n))
      invariant old(V(a, n) == V(b, n)) ==> cmp == 0 && V(u, n) == old(V(u, n))
      decreases V(a, n) + V(b, n)
    {
      InvStep(V(a, n), V(b, n), V(u, n), V(v, n), x, m);
      assert a[..n][0] == a[0] && b[..n][0] == b[0];
      EvenVal(a[..n]);
      EvenVal(b[..n]);
      if Even(a[0]) {
        HalveStep(a, u, mod, n);
      } else if Even(b[0]) {
        HalveStep(b, v, mod, n);
      } else if cmp > 0 {
        SubtractStep(a, b, u, v, mod, n);
      } else {
        SubtractStep(b, a, v, u, mod, n);
      }
      cmp := CmpUnsafe(a, b, n);
    }
  }

  /** result = (1 / input) % mod for an odd modulus. The loop always ends, with the greatest
      common divisor g of input and mod in a, and result * input is congruent to g. */
  method ModInv(result: array<Word>, input: array<Word>, mod: array<Word>, n: nat)
    requires 0 < n <= MAX_WORDS && n <= result.Length && n <= input.Length && n <= mod.Length
    requires result != mod && V(mod, n) > 1 && V(mod, n) % 2 == 1
    modifies result
    ensures V(result, n) < V(mod, n) && result[n..] == old(result[n..])
    ensures IsInverse(V(result, n), old(V(input, n)), V(mod, n))
    ensures old(V(input, n)) == V(mod, n) ==> V(result, n) == 1
  {
    hide Pow, Val, InvState;
    ghost var x, m := V(input, n), V(mod, n);
    var isZero := IsZero(input, n);
    if isZero {
      Clear(result, n);
      return;
    }
    var a := new Word[MAX_WORDS];
    var b := new Word[MAX_WORDS];
    var u := new Word[MAX_WORDS];
    var v := new Word[MAX_WORDS];
    Set(a, input, n);
    Set(b, mod, n);
    SetOne(u, n);
    Clear(v, n);
    InvStart(x, m);
    InvLoop(a, b, u, v, mod, n, x);
    InvEnd(V(a, n), V(u, n), V(v, n), x, m);
    InvRange(V(a, n), V(b, n), V(u, n), V(v, n), x, m);
    Set(result, u, n);
  }

  /** What inversion returns: zero for zero, and otherwise a number whose product with x is
      the greatest common divisor of x and m. */
  ghost predicate IsInverse(r: nat, x: nat, m: nat)
    requires m > 0
  {
    if x == 0 then r == 0 else exists g :: IsGcd(g, x, m) && Cong(r * x, g, m)
  }

  /** For coprime numbers it is the inverse. */
  lemma CoprimeInverse(r: nat, x: nat, m: nat)
    requires m > 1 && Coprime(x, m) && IsInverse(r, x, m) && r < m
    ensures Cong(r * x, 1, m)
  {
    DividesIntro(m, m, 1);
    DividesIntro(m, 0, 0);
    if x == 0 { assert false; }
  }

  lemma InvRange(a: nat, b: nat, u: nat, v: nat, x: nat, m: nat)
    requires InvState(a, b, u, v, x, m)
    ensures a > 0 && b > 0 && u < m && v < m && m % 2 == 1
  {
  }

  /** Every branch makes the sum of the two numbers smaller. */
  lemma SumFalls(a: nat, b: nat)
    requires a > 0 && b > 0
    ensures a / 2 + b < a + b && a + b / 2 < a + b
    ensures a > b ==> (a - b) / 2 + b < a + b
    ensures b > a ==> a + (b - a) / 2 < a + b
  {
  }

  lemma InvBranches(a: nat, b: nat, u: nat, v: nat, x: nat, m: nat)
    requires InvState(a, b, u, v, x, m)
    ensures u < m && v < m && a > 0 && b > 0 && m % 2 == 1
    ensures a % 2 == 0 ==> InvState(a / 2, b, Halve(u, m), v, x, m)
    ensures b % 2 == 0 ==> InvState(a, b / 2, u, Halve(v, m), x, m)
    ensures a > b && a % 2 == 1 && b % 2 == 1 ==>
              0 <= Diff(u, v, m) < m && InvState((a - b) / 2, b, Halve(Diff(u, v, m), m), v, x, m)
    ensures b > a && a % 2 == 1 && b % 2 == 1 ==>
              0 <= Diff(v, u, m) < m && InvState(a, (b - a) / 2, u, Halve(Diff(v, u, m), m), x, m)
  {
    InvRange(a, b, u, v, x, m);
    hide InvState, Halve, Diff;
    if a % 2 == 0 { HalfStepState(a, b, u, v, x, m); }
    SwapState(a, b, u, v, x, m);
    if b % 2 == 0 {
      HalfStepState(b, a, v, u, x, m);
      SwapState(b / 2, a, Halve(v, m), u, x, m);
    }
    if a > b && a % 2 == 1 && b % 2 == 1 {
      SubStepState(a, b, u, v, x, m);
      HalfStepState(a - b, b, Diff(u, v, m), v, x, m);
    }
    if b > a && a % 2 == 1 && b % 2 == 1 {
      SubStepState(b, a, v, u, x, m);
      HalfStepState(b - a, a, Diff(v, u, m), u, x, m);
      SwapState((b - a) / 2, a, Halve(Diff(v, u, m), m), u, x, m);
    }
  }

  /** The four branches of the loop body. */
  lemma InvStep(a: nat, b: nat, u: nat, v: nat, x: nat, m: nat)
    requires InvState(a, b, u, v, x, m)
    ensures u < m && v < m && a > 0 && b > 0 && m % 2 == 1
    ensures a % 2 == 0 ==> InvState(a / 2, b, Halve(u, m), v, x, m) && a / 2 + b < a + b
    ensures b % 2 == 0 ==> InvState(a, b / 2, u, Halve(v, m), x, m) && a + b / 2 < a + b
    ensures a > b && a % 2 == 1 && b % 2 == 1 ==>
              0 <= Diff(u, v, m) < m && InvState((a - b) / 2, b, Halve(Diff(u, v, m), m), v, x, m) &&
              (a - b) / 2 + b < a + b
    ensures b > a && a % 2 == 1 && b % 2 == 1 ==>
              0 <= Diff(v, u, m) < m && InvState(a, (b - a) / 2, u, Halve(Diff(v, u, m), m), x, m) &&
              a + (b - a) / 2 < a + b
  {
    hide InvState, Halve, Diff;
    InvBranches(a, b, u, v, x, m);
    SumFalls(a, b);
  }
}
