/** Arithmetic in the integers modulo p, on reduced representatives. */
module Field {
  import opened Arith
  import opened Congruence

  function FAdd(x: int, y: int, p: nat): (r: int)
    requires p > 0
    ensures 0 <= r < p
  {
    DivModDef(x + y, p);
    (x + y) % p
  }

  function FSub(x: int, y: int, p: nat): (r: int)
    requires p > 0
    ensures 0 <= r < p
  {
    DivModDef(x - y, p);
    (x - y) % p
  }

  function FMul(x: int, y: int, p: nat): (r: int)
    requires p > 0
    ensures 0 <= r < p
  {
    DivModDef(x * y, p);
    (x * y) % p
  }

  /** A reduced number that stands for e. */
  ghost predicate Stands(v: int, e: int, p: nat)
    requires p > 0
  {
    0 <= v < p && Cong(v, e, p)
  }

  lemma AddStands(x: int, a: int, y: int, b: int, p: nat)
    requires p > 0 && Cong(x, a, p) && Cong(y, b, p)
    ensures Stands(FAdd(x, y, p), a + b, p)
  {
    CongAdd(x, a, y, b, p);
    CongMod(x + y, p);
    CongTrans((x + y) % p, x + y, a + b, p);
  }

  lemma SubStands(x: int, a: int, y: int, b: int, p: nat)
    requires p > 0 && Cong(x, a, p) && Cong(y, b, p)
    ensures Stands(FSub(x, y, p), a - b, p)
  {
    CongSub(x, a, y, b, p);
    CongMod(x - y, p);
    CongTrans((x - y) % p, x - y, a - b, p);
  }

  lemma MulStands(x: int, a: int, y: int, b: int, p: nat)
    requires p > 0 && Cong(x, a, p) && Cong(y, b, p)
    ensures Stands(FMul(x, y, p), a * b, p)
  {
    CongMul(x, a, y, b, p);
    CongMod(x * y, p);
    CongTrans((x * y) % p, x * y, a * b, p);
  }

  /** Two reduced numbers standing for congruent expressions are equal. */
  lemma StandsEqual(v: int, w: int, e: int, f: int, p: nat)
    requires p > 0 && Stands(v, e, p) && Stands(w, f, p) && Cong(e, f, p)
    ensures v == w
  {
    CongTrans(v, e, f, p);
    CongSym(w, f, p);
    CongTrans(v, f, w, p);
    CongReduced(v, w, p);
  }
}
