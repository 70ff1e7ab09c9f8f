/** Lists of TCP fragments as sets of numbered bytes: what a position holds, and what inserting a
    fragment into a gap does. */
module Fragments {
  import opened Bytes

  /** PacketBuffer: the bytes of the relative sequence numbers begin to end. */
  datatype Fragment = Fragment(begin: nat, end: nat, data: seq<Byte>)

  datatype Cell = Absent | Held(value: Byte)

  predicate WellFormed(f: Fragment) {
    f.begin <= f.end && |f.data| == f.end - f.begin + 1
  }

  predicate Covers(f: Fragment, q: nat) {
    f.begin <= q <= f.end
  }

  /** The list is ordered and its fragments are disjoint. */
  ghost predicate Sorted(list: seq<Fragment>) {
    (forall i :: 0 <= i < |list| ==> WellFormed(list[i])) &&
    (forall i, j :: 0 <= i < j < |list| ==> list[i].end < list[j].begin)
  }

  /** The byte that the list holds for a position. */
  ghost function Look(list: seq<Fragment>, q: nat): Cell
    requires Sorted(list)
    decreases |list|
  {
    if |list| == 0 then Absent else
    assert WellFormed(list[0]);
    if Covers(list[0], q) then Held(list[0].data[q - list[0].begin])
    else Look(list[1..], q)
  }

  /** The number of bytes held. */
  function Total(list: seq<Fragment>): nat {
    if |list| == 0 then 0 else |list[0].data| + Total(list[1..])
  }

  /** A position inside fragment k holds that fragment's byte. */
  lemma {:induction false} LookInside(list: seq<Fragment>, k: nat, q: nat)
    requires Sorted(list) && k < |list| && Covers(list[k], q)
    ensures Look(list, q) == Held(list[k].data[q - list[k].begin])
    decreases k
  {
    if k > 0 { LookInside(list[1..], k - 1, q); }
  }

  /** A position between two neighbours, or outside the list, holds nothing. */
  lemma {:induction false} LookGap(list: seq<Fragment>, k: nat, q: nat)
    requires Sorted(list) && k <= |list|
    requires (k > 0 ==> list[k - 1].end < q) && (k < |list| ==> q < list[k].begin)
    ensures Look(list, q) == Absent
    decreases |list|
  {
    if |list| > 0 {
      if k == 0 {
        LookBefore(list, q);
      } else {
        LookGap(list[1..], k - 1, q);
      }
    }
  }

  lemma {:induction false} LookBefore(list: seq<Fragment>, q: nat)
    requires Sorted(list) && (|list| > 0 ==> q < list[0].begin)
    ensures Look(list, q) == Absent
    decreases |list|
  {
    if |list| > 0 { LookBefore(list[1..], q); }
  }

  function Inserted(list: seq<Fragment>, k: nat, f: Fragment): (r: seq<Fragment>)
    requires k <= |list|
    ensures |r| == |list| + 1
  {
    list[..k] + [f] + list[k..]
  }

  /** The fragment fits between its neighbours. */
  predicate Fits(list: seq<Fragment>, k: nat, f: Fragment) {
    k <= |list| && WellFormed(f) && (k > 0 ==> list[k - 1].end < f.begin) && (k < |list| ==> f.end < list[k].begin)
  }

  lemma InsertedAt(list: seq<Fragment>, k: nat, f: Fragment, i: nat)
    requires k <= |list| && i <= |list|
    ensures Inserted(list, k, f)[i] == if i < k then list[i] else if i == k then f else list[i - 1]
  {
  }

  /** A fragment before another does not reach the ones behind it. */
  lemma InsertedOrder(list: seq<Fragment>, k: nat, f: Fragment, i: nat, j: nat)
    requires Sorted(list) && Fits(list, k, f) && i < j <= |list|
    ensures Inserted(list, k, f)[i].end < Inserted(list, k, f)[j].begin
  {
    hide Inserted, WellFormed;
    InsertedAt(list, k, f, i);
    InsertedAt(list, k, f, j);
    if j == k {
      assert i < k - 1 ==> list[i].end < list[k - 1].begin;
      assert WellFormed(list[k - 1]);
      Bounds(list[k - 1]);
    } else if i == k {
      assert k < j - 1 ==> list[k].end < list[j - 1].begin;
      assert WellFormed(list[k]);
      Bounds(list[k]);
    }
  }

  lemma Bounds(f: Fragment)
    requires WellFormed(f)
    ensures f.begin <= f.end
  {
  }

  lemma InsertedSorted(list: seq<Fragment>, k: nat, f: Fragment)
    requires Sorted(list) && Fits(list, k, f)
    ensures Sorted(Inserted(list, k, f))
  {
    var t := Inserted(list, k, f);
    forall i | 0 <= i < |t|
      ensures WellFormed(t[i])
    {
      hide Inserted;
      InsertedAt(list, k, f, i);
    }
    forall i, j | 0 <= i < j < |t|
      ensures t[i].end < t[j].begin
    {
      hide Sorted, Inserted;
      InsertedOrder(list, k, f, i, j);
    }
  }

  /** What one fragment holds. */
  function At(f: Fragment, q: nat): Cell
    requires WellFormed(f)
  {
    if Covers(f, q) then Held(f.data[q - f.begin]) else Absent
  }

  lemma LookCons(list: seq<Fragment>, q: nat)
    requires Sorted(list) && |list| > 0
    ensures Sorted(list[1..]) && WellFormed(list[0])
    ensures Look(list, q) == if At(list[0], q).Held? then At(list[0], q) else Look(list[1..], q)
  {
    assert WellFormed(list[0]);
  }

  lemma NotBoth(f: Fragment, g: Fragment, q: nat)
    requires WellFormed(f) && WellFormed(g) && f.end < g.begin
    ensures At(g, q).Held? ==> At(f, q).Absent?
  {
  }

  /** The first fragment ends before one that fits behind it, and the rest still fits it. */
  lemma FitsRest(list: seq<Fragment>, k: nat, f: Fragment)
    requires Sorted(list) && Fits(list, k, f) && k > 0
    ensures Fits(list[1..], k - 1, f) && list[0].end < f.begin
    ensures Inserted(list, k, f)[0] == list[0] && Inserted(list, k, f)[1..] == Inserted(list[1..], k - 1, f)
  {
    if k > 1 {
      assert list[0].end < list[k - 1].begin;
      assert WellFormed(list[k - 1]);
    }
  }

  lemma InsertedFirst(list: seq<Fragment>, f: Fragment)
    ensures Inserted(list, 0, f)[0] == f && Inserted(list, 0, f)[1..] == list
  {
  }

  /** Inserting into a gap adds exactly the fragment's bytes. */
  lemma {:induction false} InsertedLook(list: seq<Fragment>, k: nat, f: Fragment, q: nat)
    requires Sorted(list) && Fits(list, k, f)
    ensures Sorted(Inserted(list, k, f)) && WellFormed(f)
    ensures Look(Inserted(list, k, f), q) == if At(f, q).Held? then At(f, q) else Look(list, q)
    decreases k
  {
    InsertedSorted(list, k, f);
    if k == 0 {
      InsertedFirst(list, f);
      LookCons(Inserted(list, 0, f), q);
    } else {
      FitsRest(list, k, f);
      RestSorted(list);
      InsertedLook(list[1..], k - 1, f, q);
      hide Sorted, Look, Inserted, At, Covers, Fits;
      LookStep(list, Inserted(list, k, f), f, q);
    }
  }

  lemma RestSorted(list: seq<Fragment>)
    requires Sorted(list) && |list| > 0
    ensures Sorted(list[1..])
  {
  }

  /** Two lists with the same first fragment, whose rests differ by what f holds. */
  lemma LookStep(list: seq<Fragment>, longer: seq<Fragment>, f: Fragment, q: nat)
    requires Sorted(list) && Sorted(longer) && |list| > 0 && |longer| > 0 && longer[0] == list[0] && WellFormed(f)
    requires list[0].end < f.begin && Sorted(list[1..]) && Sorted(longer[1..])
    requires Look(longer[1..], q) == if At(f, q).Held? then At(f, q) else Look(list[1..], q)
    ensures Look(longer, q) == if At(f, q).Held? then At(f, q) else Look(list, q)
  {
    LookCons(list, q);
    LookCons(longer, q);
    NotBoth(list[0], f, q);
  }

  lemma {:induction false} InsertedTotal(list: seq<Fragment>, k: nat, f: Fragment)
    requires k <= |list|
    ensures Total(Inserted(list, k, f)) == Total(list) + |f.data|
    decreases k
  {
    var t := Inserted(list, k, f);
    if k == 0 {
      assert t[1..] == list;
    } else {
      assert t[1..] == Inserted(list[1..], k - 1, f);
      InsertedTotal(list[1..], k - 1, f);
    }
  }

  /** What the positions of old hold once the first m bytes of a segment at start are added in its gaps. */
  ghost function Merged(before: seq<Fragment>, start: nat, bytes: seq<Byte>, m: nat, q: nat): Cell
    requires Sorted(before) && m <= |bytes|
  {
    if Look(before, q).Held? then Look(before, q)
    else if start <= q < start + m then Held(bytes[q - start])
    else Absent
  }

  /** list holds old and the first m bytes of the segment. */
  ghost predicate Holds(list: seq<Fragment>, before: seq<Fragment>, start: nat, bytes: seq<Byte>, m: nat) {
    Sorted(list) && Sorted(before) && m <= |bytes| &&
    forall q: nat :: Look(list, q) == Merged(before, start, bytes, m, q)
  }

  lemma HoldsNothing(list: seq<Fragment>, start: nat, bytes: seq<Byte>)
    requires Sorted(list)
    ensures Holds(list, list, start, bytes, 0)
  {
  }

  /** Bytes that are held already may be skipped. */
  lemma HoldsSkip(list: seq<Fragment>, before: seq<Fragment>, start: nat, bytes: seq<Byte>, m: nat, k: nat, m': nat)
    requires Holds(list, before, start, bytes, m) && m <= m' <= |bytes| && k < |list|
    requires list[k].begin <= start + m && start + m' - 1 <= list[k].end
    ensures Holds(list, before, start, bytes, m')
  {
    hide Sorted;
    forall q: nat
      ensures Look(list, q) == Merged(before, start, bytes, m', q)
    {
      assert Look(list, q) == Merged(before, start, bytes, m, q);
      if start + m <= q < start + m' { LookInside(list, k, q); }
    }
  }

  /** The piece of the segment from offset m with a given length. */
  function Piece(start: nat, bytes: seq<Byte>, m: nat, length: nat): Fragment
    requires m + length <= |bytes| && length > 0
  {
    Fragment(start + m, start + m + length - 1, bytes[m..m + length])
  }

  /** A piece put into a gap. */
  lemma HoldsInsert(list: seq<Fragment>, before: seq<Fragment>, start: nat, bytes: seq<Byte>, m: nat, k: nat,
                    length: nat)
    requires Holds(list, before, start, bytes, m) && m + length <= |bytes| && length > 0
    requires Fits(list, k, Piece(start, bytes, m, length))
    ensures Holds(Inserted(list, k, Piece(start, bytes, m, length)), before, start, bytes, m + length)
  {
    var f := Piece(start, bytes, m, length);
    InsertedSorted(list, k, f);
    hide Sorted;
    forall q: nat
      ensures Look(Inserted(list, k, f), q) == Merged(before, start, bytes, m + length, q)
    {
      assert Look(list, q) == Merged(before, start, bytes, m, q);
      InsertedLook(list, k, f, q);
      if Covers(f, q) { LookGap(list, k, q); }
    }
  }

  //
  // The number of bytes held
  //

  function Span(from: nat, n: nat): (r: set<nat>)
    ensures forall q: nat :: q in r <==> from <= q < from + n
    ensures |r| == n
  {
    if n == 0 then {} else Span(from, n - 1) + {from + n - 1}
  }

  /** The positions that a list holds. */
  ghost function Positions(list: seq<Fragment>): set<nat>
    requires Sorted(list)
    decreases |list|
  {
    if |list| == 0 then {} else Span(list[0].begin, |list[0].data|) + Positions(list[1..])
  }

  lemma {:induction false} PositionsLook(list: seq<Fragment>, q: nat)
    requires Sorted(list)
    ensures q in Positions(list) <==> Look(list, q).Held?
    decreases |list|
  {
    if |list| > 0 {
      assert WellFormed(list[0]);
      PositionsLook(list[1..], q);
    }
  }

  lemma {:induction false} TotalPositions(list: seq<Fragment>)
    requires Sorted(list)
    ensures Total(list) == |Positions(list)|
    decreases |list|
  {
    if |list| > 0 {
      var f := list[0];
      assert WellFormed(f);
      TotalPositions(list[1..]);
      forall q | q in Span(f.begin, |f.data|)
        ensures q !in Positions(list[1..])
      {
        PositionsLook(list[1..], q);
        LookBefore(list[1..], q);
      }
      Disjoint(Span(f.begin, |f.data|), Positions(list[1..]));
    }
  }

  lemma Disjoint(a: set<nat>, b: set<nat>)
    requires a !! b
    ensures |a + b| == |a| + |b|
  {
  }

  /** Storing m bytes holds at most m bytes more, and gives none up. */
  lemma HoldsTotal(list: seq<Fragment>, before: seq<Fragment>, start: nat, bytes: seq<Byte>, m: nat)
    requires Holds(list, before, start, bytes, m)
    ensures Total(before) <= Total(list) <= Total(before) + m
  {
    TotalPositions(list);
    TotalPositions(before);
    forall q: nat
      ensures q in Positions(before) ==> q in Positions(list)
      ensures q in Positions(list) ==> q in Positions(before) || q in Span(start, m)
    {
      PositionsLook(list, q);
      PositionsLook(before, q);
      assert Look(list, q) == Merged(before, start, bytes, m, q);
    }
    hide Sorted, Holds, Total, Positions, Span;
    Between(Positions(before), Positions(list), Span(start, m));
  }

  lemma Between(a: set<nat>, b: set<nat>, c: set<nat>)
    requires a <= b <= a + c
    ensures |a| <= |b| <= |a| + |c|
  {
    Smaller(a, b);
    Smaller(b, a + c);
    Union(a, c);
  }

  lemma Smaller(a: set<nat>, b: set<nat>)
    requires a <= b
    ensures |a| <= |b|
  {
    assert b == a + (b - a);
  }

  lemma Union(a: set<nat>, c: set<nat>)
    ensures |a + c| <= |a| + |c|
  {
    assert a + c == a + (c - a);
    Smaller(c - a, c);
  }
}
