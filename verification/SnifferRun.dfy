/** Whole runs of one direction: what the memory counter is after any segments, drains and searches, and
    which part of a stream has been released after any segments. */
module SnifferRun {
  import opened Arith
  import opened Bytes
  import opened Fragments
  import opened Streams
  import opened Reassembly

  //
  // The memory counter
  //

  datatype Event = Arrives(segment: Segment) | Drains | Searches(startsRecord: Fragment -> bool)

  /** A segment without FIN is taken in. */
  ghost predicate SegmentStep(limit: int, seqStart: nat, s: State, x: Segment, t: State) {
    x.Fits(seqStart) &&
    exists r: int, skip: nat, bytes: nat, stored: nat ::
      Adjusted(limit, s, x.Pos(seqStart), false, x.packet, x.length, r, skip, bytes, stored, t)
  }

  ghost predicate DrainStep(s: State, t: State) {
    exists drained :: Drained(s, drained, t)
  }

  ghost predicate SearchStep(s: State, startsRecord: Fragment -> bool, t: State) {
    exists found: bool, dropped: nat :: Searched(s, startsRecord, found, dropped, t)
  }

  ghost predicate Step(limit: int, seqStart: nat, s: State, e: Event, t: State) {
    match e
    case Arrives(x) => SegmentStep(limit, seqStart, s, x, t)
    case Drains => DrainStep(s, t)
    case Searches(p) => SearchStep(s, p, t)
  }

  /** The states of a run. */
  ghost predicate Run(limit: int, seqStart: nat, states: seq<State>, events: seq<Event>) {
    |states| == |events| + 1 && (forall i :: 0 <= i < |states| ==> Good(states[i])) &&
    forall i :: 0 <= i < |events| ==> Step(limit, seqStart, states[i], events[i], states[i + 1])
  }

  /** Any sequence of segments, drains and searches. */
  method Process(d: Direction, events: seq<Event>) returns (ghost states: seq<State>)
    requires d.Ready() && forall e :: e in events && e.Arrives? ==> e.segment.Fits(d.seqStart)
    modifies d
    ensures d.Ready() && Run(d.maxRecovery, d.seqStart, states, events)
    ensures states[0] == old(d.Now()) && states[|events|] == d.Now()
  {
    hide Good, Adjusted, Drained, Searched;
    states := [d.Now()];
    var i := 0;
    while i < |events|
      invariant 0 <= i <= |events| && d.Ready() && Run(d.maxRecovery, d.seqStart, states, events[..i])
      invariant states[0] == old(d.Now()) && states[i] == d.Now()
    {
      OneEvent(d, events[i]);
      RunSnoc(d.maxRecovery, d.seqStart, states, events[..i], events[i], d.Now());
      assert events[..i] + [events[i]] == events[..i + 1];
      states := states + [d.Now()];
      i := i + 1;
    }
    assert events[..i] == events;
  }

  method OneEvent(d: Direction, e: Event)
    requires d.Ready() && (e.Arrives? ==> e.segment.Fits(d.seqStart))
    modifies d
    ensures d.Ready() && Step(d.maxRecovery, d.seqStart, old(d.Now()), e, d.Now())
  {
    hide Good, Adjusted, Drained, Searched;
    match e
    case Arrives(x) =>
      var r, skip, bytes;
      ghost var stored;
      ghost var s := d.Now();
      r, skip, bytes, stored := d.AdjustSequence(x.sequence, false, x.packet, x.length, q => 0, 0);
      assert Adjusted(d.maxRecovery, s, x.Pos(d.seqStart), false, x.packet, x.length, r, skip, bytes, stored, d.Now());
    case Drains =>
      var more;
      ghost var drained;
      more, drained := d.HaveMoreInput();
    case Searches(p) =>
      var found;
      ghost var dropped;
      found, dropped := d.FindNextRecord(p);
  }

  lemma RunSnoc(limit: int, seqStart: nat, states: seq<State>, events: seq<Event>, e: Event, t: State)
    requires Run(limit, seqStart, states, events) && Good(t) && Step(limit, seqStart, states[|events|], e, t)
    ensures Run(limit, seqStart, states + [t], events + [e])
  {
    hide Good, Step;
  }

  /** What an event is charged beyond what it stores: the part of a segment that is cut off when its front
      is put before the list. */
  function Cut(limit: int, seqStart: nat, s: State, e: Event): nat {
    match e
    case Arrives(x) =>
      if x.Fits(seqStart) && x.Pos(seqStart) > s.expected && !FrontLimited(limit, s.memory, x.length)
      then Excess(s.list, x.Pos(seqStart), x.length) else 0
    case _ => 0
  }

  /** The most that an event can be charged. */
  function Charge(e: Event): nat {
    if e.Arrives? then 2 * e.segment.length else 0
  }

  function Charges(events: seq<Event>): nat {
    if |events| == 0 then 0 else Charges(events[..|events| - 1]) + Charge(events[|events| - 1])
  }

  /** A segment adds at most its length to the bytes held. */
  lemma SegmentTotal(limit: int, s: State, pos: nat, packet: seq<Byte>, length: nat, r: int, skip: nat, bytes: nat,
                     stored: nat, t: State)
    requires Good(s) && length < |packet| && Adjusted(limit, s, pos, false, packet, length, r, skip, bytes, stored, t)
    ensures Total(s.list) <= Total(t.list) <= Total(s.list) + length
  {
    hide Holds, Sorted, Small, Total, Wrap;
    if pos > s.expected && length > 0 {
      HoldsTotal(t.list, s.list, pos, packet[..length], stored);
    } else if r == 0 && length > 0 && PastFront(s.list, pos + length) {
      FrontShape(s.list);
      var end := s.list[0].end;
      HoldsTotal(t.list, s.list, end + 1, Tail(packet, skip, s.expected, end, pos + length), stored);
    }
  }

  /** A segment is overcharged by exactly what is cut off. */
  lemma SegmentOvercharge(limit: int, seqStart: nat, s: State, x: Segment, r: int, skip: nat, bytes: nat, stored: nat,
                          t: State)
    requires x.Fits(seqStart)
    requires Adjusted(limit, s, x.Pos(seqStart), false, x.packet, x.length, r, skip, bytes, stored, t)
    ensures t.overcharge == s.overcharge + Cut(limit, seqStart, s, Arrives(x))
    ensures Cut(limit, seqStart, s, Arrives(x)) <= x.length
  {
    hide Holds, TailHeld, Relative;
  }

  lemma {:induction false} TotalRest(list: seq<Fragment>, k: nat)
    requires k <= |list|
    ensures Total(list[k..]) <= Total(list)
    decreases k
  {
    if k > 0 {
      TotalRest(list[1..], k - 1);
      assert list[1..][k - 1..] == list[k..];
    } else {
      assert list[0..] == list;
    }
  }

  lemma StepCharge(limit: int, seqStart: nat, s: State, e: Event, t: State)
    requires Good(s) && Step(limit, seqStart, s, e, t)
    ensures t.overcharge == s.overcharge + Cut(limit, seqStart, s, e)
    ensures Total(t.list) + t.overcharge <= Total(s.list) + s.overcharge + Charge(e)
  {
    hide Good, Adjusted, Total, Relative;
    match e
    case Arrives(x) =>
      var r: int, skip: nat, bytes: nat, stored: nat :|
        Adjusted(limit, s, x.Pos(seqStart), false, x.packet, x.length, r, skip, bytes, stored, t);
      SegmentTotal(limit, s, x.Pos(seqStart), x.packet, x.length, r, skip, bytes, stored, t);
      SegmentOvercharge(limit, seqStart, s, x, r, skip, bytes, stored, t);
    case Drains =>
    case Searches(p) =>
      var found: bool, dropped: nat :| Searched(s, p, found, dropped, t);
      TotalRest(s.list, dropped);
      if found { TotalRest(s.list, dropped + 1); } else { assert s.list[dropped..] == t.list; }
  }

  /** No segment of a run so far was overcharged. */
  ghost predicate NothingCut(limit: int, seqStart: nat, states: seq<State>, events: seq<Event>) {
    |states| >= |events| && forall i :: 0 <= i < |events| ==> Cut(limit, seqStart, states[i], events[i]) == 0
  }

  lemma {:induction false} RunCharge(limit: int, seqStart: nat, states: seq<State>, events: seq<Event>)
    requires Run(limit, seqStart, states, events)
    ensures var s, t := states[0], states[|events|];
            Total(t.list) + t.overcharge <= Total(s.list) + s.overcharge + Charges(events) &&
            s.overcharge <= t.overcharge &&
            (s.overcharge == t.overcharge <==> NothingCut(limit, seqStart, states, events))
    decreases |events|
  {
    hide Good, Step, Total, Cut, Charge;
    if |events| > 0 {
      var n := |events| - 1;
      var front := events[..n];
      assert Run(limit, seqStart, states[..n + 1], front);
      RunCharge(limit, seqStart, states[..n + 1], front);
      StepCharge(limit, seqStart, states[n], events[n], states[n + 1]);
      CutSplit(limit, seqStart, states, events);
    }
  }

  lemma CutSplit(limit: int, seqStart: nat, states: seq<State>, events: seq<Event>)
    requires |events| > 0 && |states| == |events| + 1
    ensures var n := |events| - 1;
            NothingCut(limit, seqStart, states, events) <==>
            NothingCut(limit, seqStart, states[..n + 1], events[..n]) && Cut(limit, seqStart, states[n], events[n]) == 0
  {
    hide Cut;
  }

  /** After any run that is charged less than 2^32 bytes, the counter is not below the number of bytes held,
      and equals it exactly if no segment was cut before the front of the list. */
  lemma CounterRun(limit: int, seqStart: nat, states: seq<State>, events: seq<Event>)
    requires Run(limit, seqStart, states, events)
    requires Total(states[0].list) + states[0].overcharge + Charges(events) < WORD32
    ensures var t := states[|events|];
            t.memory >= Total(t.list) && t.memory == Total(t.list) + t.overcharge &&
            (states[0].overcharge == 0 ==>
               (t.memory == Total(t.list) <==> NothingCut(limit, seqStart, states, events)))
  {
    hide Run, Step, Total, NothingCut, Charges, Good, Cut, Wrap;
    RunCharge(limit, seqStart, states, events);
    RunCounted(limit, seqStart, states, events);
    var t := states[|events|];
    CounterBound(t.list, t.memory, t.overcharge);
  }

  lemma RunCounted(limit: int, seqStart: nat, states: seq<State>, events: seq<Event>)
    requires Run(limit, seqStart, states, events)
    ensures |states| == |events| + 1
    ensures var t := states[|events|]; t.memory == Wrap(Total(t.list) + t.overcharge)
  {
    hide Step, Total, Sorted, Small, Wrap;
    assert Good(states[|events|]);
  }

  //
  // Two runs of one segment
  //

  /** One byte is held for position 4, and expected is 1. */
  function OneHeld(): State {
    State([Fragment(4, 4, [7])], 1, [], 1, 0, false, [], 0)
  }

  lemma OneHeldGood()
    ensures Good(OneHeld())
  {
    assert OneHeld().list[1..] == [];
    assert Total(OneHeld().list) == 1;
    ModSmall(1, WORD32);
  }

  /** With the limit 100, a segment for the positions 3 and 4 is charged as two bytes and stored as one: the
      counter is 3 with two bytes on the list. */
  lemma OverchargeHappens(t: State)
    requires SegmentStep(100, 0, OneHeld(), Segment(3, [5, 7, 0], 2), t) && Good(t)
    ensures Good(OneHeld()) && t.memory == 3 && Total(t.list) == 2
  {
    OneHeldGood();
    var s, x := OneHeld(), Segment(3, [5, 7, 0], 2);
    var r: int, skip: nat, bytes: nat, stored: nat :|
      Adjusted(100, s, 3, false, x.packet, 2, r, skip, bytes, stored, t);
    SegmentOvercharge(100, 0, s, x, r, skip, bytes, stored, t);
    ModSmall(3, WORD32);
    assert Cut(100, 0, s, Arrives(x)) == 1;
    assert x.packet[..2] == [5, 7] && stored > 0;
    TwoHeld(t.list, stored);
  }

  lemma TwoHeld(list: seq<Fragment>, stored: nat)
    requires 0 < stored <= 2 && Holds(list, OneHeld().list, 3, [5, 7], stored)
    ensures Sorted(list) && Total(list) == 2
  {
    var before := OneHeld().list;
    HoldsSorted(list, before, 3, [5, 7], stored);
    assert before[1..] == [];
    forall q: nat
      ensures q in Positions(list) <==> q == 3 || q == 4
    {
      PositionsLook(list, q);
      assert Look(list, q) == Merged(before, 3, [5, 7], stored, q);
    }
    TotalPositions(list);
    assert Positions(list) == {3, 4};
  }

  /** Without a limit, a segment for position 3 is refused, and the session ends. */
  lemma RefusalHappens(t: State)
    requires SegmentStep(-1, 0, OneHeld(), Segment(3, [5, 0], 1), t)
    ensures Good(OneHeld()) && t.fatal && t.list == OneHeld().list
  {
    OneHeldGood();
    ModSmall(2, WORD32);
    hide Holds, TailHeld;
  }

  //
  // Streams under any limit
  //

  /** The segments of a run belong to a stream, and so does the byte behind each of them that would be stored. */
  ghost predicate RunAgrees(seqStart: nat, states: seq<State>, events: seq<Event>, stream: nat -> Byte) {
    |states| >= |events| && forall i :: 0 <= i < |events| ==> EventAgrees(seqStart, states[i], events[i], stream)
  }

  ghost predicate EventAgrees(seqStart: nat, s: State, e: Event, stream: nat -> Byte) {
    match e
    case Arrives(x) =>
      x.Fits(seqStart) && Agrees(x.packet, x.length, stream, x.Pos(seqStart)) &&
      (ExtraByte(s, x.Pos(seqStart), x.length) ==> x.packet[x.length] == stream(x.Pos(seqStart) + x.length))
    case Drains => true
    case Searches(_) => false
  }

  lemma EventFollows(limit: int, seqStart: nat, s: State, e: Event, t: State, stream: nat -> Byte, base: nat)
    requires Good(s) && Good(t) && Step(limit, seqStart, s, e, t) && EventAgrees(seqStart, s, e, stream)
    requires Follows(s, stream, base)
    ensures Follows(t, stream, base)
  {
    hide Adjusted, Drained, Follows, ExtraByte, Agrees, Total, Wrap, Small, Relative;
    match e
    case Arrives(x) =>
      var r: int, skip: nat, bytes: nat, stored: nat :|
        Adjusted(limit, s, x.Pos(seqStart), false, x.packet, x.length, r, skip, bytes, stored, t);
      AdjustedFollows(limit, s, x.Pos(seqStart), x.packet, x.length, r, skip, bytes, stored, t, stream, base);
    case Drains =>
      var drained :| Drained(s, drained, t);
      DrainedFollows(s, drained, t, stream, base);
  }

  /** Whatever the limit, everything released and held stays in the stream over a whole run of segments and
      drains. */
  lemma {:induction false} RunFollows(limit: int, seqStart: nat, states: seq<State>, events: seq<Event>,
                                      stream: nat -> Byte, base: nat)
    requires Run(limit, seqStart, states, events) && RunAgrees(seqStart, states, events, stream)
    requires Follows(states[0], stream, base)
    ensures Follows(states[|events|], stream, base)
    decreases |events|
  {
    hide Good, Step, Follows, EventAgrees;
    if |events| > 0 {
      var n := |events| - 1;
      var front := events[..n];
      assert Run(limit, seqStart, states[..n + 1], front);
      RunFollows(limit, seqStart, states[..n + 1], front, stream, base);
      EventFollows(limit, seqStart, states[n], events[n], states[n + 1], stream, base);
    }
  }

  //
  // The released prefix of a stream
  //

  /** Of what has been received, the bytes from base up to expected are released, and the others are on
      the list. */
  ghost predicate Part(s: State, got: Received, base: nat) {
    Sorted(s.list) && base <= s.expected && (forall q: nat :: base <= q < s.expected ==> q in got) &&
    s.released == Read(got, base, s.expected) &&
    forall q: nat :: Look(s.list, q) == if q < s.expected then Absent else CellOf(got, q)
  }

  /** Exactly the bytes up to the first gap are released. */
  ghost predicate Matches(s: State, got: Received, base: nat) {
    Part(s, got, base) && s.expected == Gap(got, base)
  }

  lemma FreshMatches(base: nat)
    ensures Matches(Fresh(base), map[], base)
  {
  }

  /** The list begins with the first byte that is held. */
  lemma FrontIsFirst(s: State, got: Received, base: nat)
    requires Part(s, got, base) && s.expected !in got && |s.list| > 0
    ensures s.expected < s.list[0].begin <= s.list[0].end
    ensures forall q: nat :: s.list[0].begin <= q <= s.list[0].end ==> q in got
    ensures forall q: nat :: s.expected <= q < s.list[0].begin ==> q !in got
  {
    var list := s.list;
    FrontShape(list);
    hide Sorted;
    forall q: nat
      ensures list[0].begin <= q <= list[0].end ==> s.expected < q && q in got
      ensures s.expected <= q < list[0].begin ==> q !in got
    {
      assert Look(list, q) == if q < s.expected then Absent else CellOf(got, q);
      if list[0].begin <= q <= list[0].end { LookInside(list, 0, q); }
      if q < list[0].begin { LookBefore(list, q); }
    }
    var b := list[0].begin;
    LookInside(list, 0, b);
    assert Look(list, b) == if b < s.expected then Absent else CellOf(got, b);
  }

  lemma NoneHeld(s: State, got: Received, base: nat, q: nat)
    requires Part(s, got, base) && s.list == [] && q >= s.expected
    ensures q !in got
  {
    assert Look(s.list, q) == CellOf(got, q);
  }

  /** Refused means that the segment lies before the front of the list. */
  lemma RefusedFront(s: State, got: Received, base: nat, pos: nat)
    requires Matches(s, got, base)
    ensures Refused(got, s.expected, pos) <==> pos > s.expected && BeforeFront(s.list, pos)
  {
    hide Sorted, Look;
    if |s.list| == 0 {
      forall q | q in got
        ensures q <= s.expected
      {
        if q > s.expected { NoneHeld(s, got, base, q); }
      }
    } else {
      FrontIsFirst(s, got, base);
      assert s.list[0].begin in got;
    }
  }

  /** The segment reaches something received early exactly if it runs into the list. */
  lemma OvertakenFront(s: State, got: Received, base: nat, n: nat)
    requires Matches(s, got, base) && n > s.expected
    ensures Overtaken(got, s.expected, n) <==> |s.list| > 0 && n > s.list[0].begin
  {
    hide Sorted, Look;
    if |s.list| == 0 {
      forall q | q in got
        ensures q <= s.expected
      {
        if q > s.expected { NoneHeld(s, got, base, q); }
      }
    } else {
      FrontIsFirst(s, got, base);
      assert s.list[0].begin in got;
    }
  }

  /** What has been received of a longer map up to a position is read from it in the same way. */
  lemma ReadKeeps(got: Received, more: Received, base: nat, to: nat)
    requires base <= to && forall q: nat :: base <= q < to ==> q in got && q in more && got[q] == more[q]
    ensures Read(more, base, to) == Read(got, base, to)
  {
  }

  lemma ReadMore(got: Received, base: nat, from: nat, to: nat, bytes: seq<Byte>)
    requires base <= from <= to && |bytes| == to - from && forall q: nat :: base <= q < to ==> q in got
    requires forall i :: 0 <= i < |bytes| ==> got[from + i] == bytes[i]
    ensures Read(got, base, to) == Read(got, base, from) + bytes
  {
    var r, s := Read(got, base, to), Read(got, base, from) + bytes;
    forall i | 0 <= i < |r|
      ensures r[i] == s[i]
    {
      if i >= from - base { assert got[from + (i - (from - base))] == bytes[i - (from - base)]; }
    }
  }

  /** Bytes put on the list. */
  lemma PartFilled(s: State, got: Received, base: nat, pos: nat, bytes: seq<Byte>, t: State)
    requires Matches(s, got, base) && pos > s.expected && t.expected == s.expected && t.released == s.released
    requires Holds(t.list, s.list, pos, bytes, |bytes|)
    ensures Part(t, Joined(got, pos, bytes), base)
  {
    var more := Joined(got, pos, bytes);
    HoldsSorted(t.list, s.list, pos, bytes, |bytes|);
    hide Sorted, Joined, Look;
    forall q: nat
      ensures base <= q < s.expected ==> q in more && more[q] == got[q]
      ensures Look(t.list, q) == if q < t.expected then Absent else CellOf(more, q)
    {
      JoinedAt(got, pos, bytes, q);
      assert Look(s.list, q) == if q < s.expected then Absent else CellOf(got, q);
      assert Look(t.list, q) == Merged(s.list, pos, bytes, |bytes|, q);
    }
    ReadKeeps(got, more, base, s.expected);
  }

  /** Bytes that have been released. */
  lemma PartOld(s: State, got: Received, base: nat, pos: nat, bytes: seq<Byte>)
    requires Matches(s, got, base) && (pos + |bytes| <= s.expected || bytes == [])
    ensures Part(s, Joined(got, pos, bytes), base)
  {
    var more := Joined(got, pos, bytes);
    hide Sorted, Joined, Look;
    forall q: nat
      ensures base <= q < s.expected ==> q in more && more[q] == got[q]
      ensures Look(s.list, q) == if q < s.expected then Absent else CellOf(more, q)
    {
      JoinedAt(got, pos, bytes, q);
      assert Look(s.list, q) == if q < s.expected then Absent else CellOf(got, q);
    }
    ReadKeeps(got, more, base, s.expected);
  }

  /** The rest of the segment behind the first fragment. */
  lemma TailLook(s: State, packet: seq<Byte>, pos: nat, length: nat, skip: nat, t: State, q: nat)
    requires Good(s) && length < |packet| && pos + skip == s.expected && PastFront(s.list, pos + length)
    requires TailHeld(s.list, packet, skip, s.expected, pos + length, pos + length - s.list[0].end, t.list)
    ensures Sorted(t.list)
    ensures Look(t.list, q) ==
            if Look(s.list, q).Held? then Look(s.list, q)
            else if s.list[0].end < q <= pos + length then Held(packet[q - pos]) else Absent
  {
    var end, n := s.list[0].end, pos + length;
    var tail := Tail(packet, skip, s.expected, end, n);
    HoldsSorted(t.list, s.list, end + 1, tail, n - end);
    assert Look(t.list, q) == Merged(s.list, end + 1, tail, n - end, q);
    if end < q <= n { assert tail[q - (end + 1)] == packet[q - pos]; }
  }

  /** What a segment that is next in order leaves on the list, position by position. */
  lemma DeliveredLook(s: State, got: Received, base: nat, pos: nat, packet: seq<Byte>, length: nat, skip: nat,
                      bytes: nat, stored: nat, t: State, q: nat)
    requires Good(s) && Matches(s, got, base) && length < |packet| && pos <= s.expected < pos + length
    requires Delivered(-1, s, pos, false, packet, length, skip, bytes, stored, t)
    ensures Sorted(t.list) && s.expected <= t.expected <= pos + length
    ensures var more := Joined(got, pos, packet[..Taken(got, s.expected, pos, length)]);
            Look(t.list, q) == (if q < t.expected then Absent else CellOf(more, q)) &&
            (s.expected <= q < t.expected ==> CellOf(more, q) == Held(packet[q - pos]))
  {
    var n := pos + length;
    OvertakenFront(s, got, base, n);
    JoinedAt(got, pos, packet[..Taken(got, s.expected, pos, length)], q);
    assert Look(s.list, q) == if q < s.expected then Absent else CellOf(got, q);
    if |s.list| == 0 {
      if q >= s.expected { NoneHeld(s, got, base, q); }
    } else {
      FrontIsFirst(s, got, base);
      if n > s.list[0].end { TailLook(s, packet, pos, length, skip, t, q); }
    }
    hide Sorted, Small, Total, Wrap, Look, Joined, Overtaken, Read, TailHeld;
  }

  /** A segment that is next in order. */
  lemma PartDelivered(s: State, got: Received, base: nat, pos: nat, packet: seq<Byte>, length: nat, skip: nat,
                      bytes: nat, stored: nat, t: State)
    requires Good(s) && Matches(s, got, base) && length < |packet| && pos <= s.expected < pos + length
    requires Delivered(-1, s, pos, false, packet, length, skip, bytes, stored, t)
    ensures Part(t, Joined(got, pos, packet[..Taken(got, s.expected, pos, length)]), base)
  {
    var e, more := s.expected, Joined(got, pos, packet[..Taken(got, s.expected, pos, length)]);
    DeliveredLook(s, got, base, pos, packet, length, skip, bytes, stored, t, e);
    hide Sorted, Small, Total, Wrap, Look, TailHeld, PastFront;
    forall q: nat
      ensures base <= q < e ==> q in more && more[q] == got[q]
      ensures e <= q < t.expected ==> q in more && more[q] == packet[q - pos]
      ensures Look(t.list, q) == if q < t.expected then Absent else CellOf(more, q)
    {
      JoinedAt(got, pos, packet[..Taken(got, s.expected, pos, length)], q);
      DeliveredLook(s, got, base, pos, packet, length, skip, bytes, stored, t, q);
    }
    ReadKeeps(got, more, base, e);
    var chunk := packet[skip..skip + bytes];
    forall i | 0 <= i < |chunk|
      ensures more[e + i] == chunk[i]
    {
      assert more[e + i] == packet[e + i - pos];
    }
    ReadMore(more, base, e, t.expected, chunk);
  }

  /** A segment that is not refused is received. */
  lemma AdjustedPart(s: State, got: Received, base: nat, pos: nat, packet: seq<Byte>, length: nat, r: int, skip: nat,
                     bytes: nat, stored: nat, t: State)
    requires Good(s) && Matches(s, got, base) && length < |packet|
    requires Adjusted(-1, s, pos, false, packet, length, r, skip, bytes, stored, t)
    requires length > 0 ==> !Refused(got, Gap(got, base), pos)
    ensures Part(t, Next(got, base, pos, packet, length), base) && r >= 0 && t.fatal == s.fatal
    ensures r == 1 ==> t.expected == s.expected
  {
    RefusedFront(s, got, base, pos);
    hide Good, Part, Joined, Holds, Refused, Overtaken, FrontLimited;
    if pos > s.expected && length > 0 {
      PartFilled(s, got, base, pos, packet[..length], t);
    } else if pos <= s.expected < pos + length {
      PartDelivered(s, got, base, pos, packet, length, skip, bytes, stored, t);
    } else {
      PartOld(s, got, base, pos, packet[..length]);
      if r == 0 {
        NothingDelivered(s, packet, skip, bytes);
        PartSame(s, t, Joined(got, pos, packet[..length]), base);
      }
    }
  }

  lemma NothingDelivered(s: State, packet: seq<Byte>, skip: nat, bytes: nat)
    requires skip == bytes == 0
    ensures s.released + packet[..0] == s.released
  {
  }

  lemma PartSame(s: State, t: State, got: Received, base: nat)
    requires Part(s, got, base) && t.list == s.list && t.expected == s.expected && t.released == s.released
    ensures Part(t, got, base)
  {
  }

  /** Draining releases more of what has been received. */
  lemma DrainedPart(s: State, got: Received, base: nat, drained: seq<Byte>, t: State)
    requires Part(s, got, base) && Drained(s, drained, t)
    ensures Part(t, got, base)
  {
    hide Sorted, Total, Look;
    forall q: nat
      ensures base <= q < t.expected ==> q in got
      ensures Look(t.list, q) == if q < t.expected then Absent else CellOf(got, q)
    {
      assert Look(s.list, q) == if q < s.expected then Absent else CellOf(got, q);
      if s.expected <= q < t.expected {
        assert Look(s.list, s.expected + (q - s.expected)) == Held(drained[q - s.expected]);
      }
    }
    forall i | 0 <= i < |drained|
      ensures got[s.expected + i] == drained[i]
    {
      assert Look(s.list, s.expected + i) == Held(drained[i]);
      assert Look(s.list, s.expected + i) == CellOf(got, s.expected + i);
    }
    ReadMore(got, base, s.expected, t.expected, drained);
  }

  /** When the list does not begin at expected, everything up to the first gap has been released. */
  lemma PartComplete(s: State, got: Received, base: nat)
    requires Part(s, got, base) && (|s.list| > 0 ==> s.list[0].begin > s.expected)
    ensures Matches(s, got, base)
  {
    LookBefore(s.list, s.expected);
    hide Sorted, Look;
    assert Look(s.list, s.expected) == CellOf(got, s.expected);
    GapUnique(got, base, s.expected);
  }

  /** A segment that is refused only ends the session. */
  lemma RefusedStays(s: State, got: Received, base: nat, pos: nat, packet: seq<Byte>, length: nat, r: int, skip: nat,
                     bytes: nat, stored: nat, t: State)
    requires Matches(s, got, base) && 0 < length < |packet| && Refused(got, Gap(got, base), pos)
    requires s.memory + length < WORD32 / 2
    requires Adjusted(-1, s, pos, false, packet, length, r, skip, bytes, stored, t)
    ensures r == -1 && t.fatal && t.list == s.list && Matches(t, got, base)
  {
    RefusedFront(s, got, base, pos);
    ModSmall(s.memory + length, WORD32);
    hide Part, Holds, Refused;
    PartSame(s, t, got, base);
  }

  /** No overcharge without a limit. */
  lemma NoCut(limit: int, seqStart: nat, s: State, x: Segment)
    requires limit == -1 && s.memory + x.length < WORD32 / 2
    ensures Cut(limit, seqStart, s, Arrives(x)) == 0
  {
    ModSmall(s.memory + x.length, WORD32);
  }

  lemma CounterExact(s: State)
    requires Good(s) && s.overcharge == 0 && Total(s.list) < WORD32
    ensures s.memory == Total(s.list)
  {
    ModSmall(Total(s.list), WORD32);
  }

  /** The segment is refused. */
  predicate Refuses(got: Received, base: nat, seqStart: nat, x: Segment)
    requires x.Fits(seqStart)
  {
    x.length > 0 && Refused(got, Gap(got, base), x.Pos(seqStart))
  }

  /** What a segment does to the direction: AdjustSequence, and HaveMoreInput when the segment was delivered.
      The record layer takes all the input. */
  method Round(d: Direction, x: Segment, ghost got: Received, ghost base: nat) returns (refused: bool, stalled: bool)
    requires d.Ready() && d.maxRecovery == -1 && x.Fits(d.seqStart) && Matches(d.Now(), got, base)
    requires !d.fatal && d.input == [] && d.overcharge == 0 && Total(d.list) + x.length < WORD32 / 2
    modifies d
    ensures d.Ready() && d.input == [] && d.overcharge == 0 && d.fatal == refused
    ensures Total(d.list) <= old(Total(d.list)) + x.length
    ensures refused <==> Refuses(got, base, d.seqStart, x)
    ensures if refused then d.list == old(d.list) && Matches(d.Now(), got, base)
            else Part(d.Now(), Next(got, base, x.Pos(d.seqStart), x.packet, x.length), base)
    ensures !refused && !stalled ==> Matches(d.Now(), Next(got, base, x.Pos(d.seqStart), x.packet, x.length), base)
    ensures stalled ==> !refused && MAX_INPUT_SZ < old(Total(d.list)) + x.length
  {
    hide Good, Part, Adjusted, Drained, Next, Refused, Cut, Sorted, Total, Relative;
    ghost var s := d.Now();
    CounterExact(s);
    NoCut(-1, d.seqStart, s, x);
    ghost var pos := x.Pos(d.seqStart);
    var r, skip, bytes;
    ghost var stored;
    r, skip, bytes, stored := d.AdjustSequence(x.sequence, false, x.packet, x.length, q => 0, 0);
    ghost var a := d.Now();
    SegmentTotal(-1, s, pos, x.packet, x.length, r, skip, bytes, stored, a);
    SegmentOvercharge(-1, d.seqStart, s, x, r, skip, bytes, stored, a);
    InputKept(s, pos, x.packet, x.length, r, skip, bytes, stored, a);
    refused, stalled := r < 0, false;
    ghost var next := Next(got, base, pos, x.packet, x.length);
    if Refuses(got, base, d.seqStart, x) {
      RefusedStays(s, got, base, pos, x.packet, x.length, r, skip, bytes, stored, a);
    } else {
      AdjustedPart(s, got, base, pos, x.packet, x.length, r, skip, bytes, stored, a);
    }
    if r == 0 {
      var more;
      ghost var drained;
      more, drained := d.HaveMoreInput();
      ghost var b := d.Now();
      DrainedPart(a, next, base, drained, b);
      DrainedSizes(a, drained, b);
      stalled := |d.list| > 0 && d.list[0].begin == d.expected;
      if stalled { FrontTotal(d.list); }
      d.input := [];
      InputTaken(b, d.Now());
      PartSame(b, d.Now(), next, base);
      if !stalled { PartComplete(d.Now(), next, base); }
    } else if r > 0 {
      NothingNext(s, got, base, pos, x.packet, x.length, a);
    }
  }

  lemma InputKept(s: State, pos: nat, packet: seq<Byte>, length: nat, r: int, skip: nat, bytes: nat, stored: nat,
                  t: State)
    requires length < |packet| && Adjusted(-1, s, pos, false, packet, length, r, skip, bytes, stored, t)
    ensures t.input == s.input && t.inputSize == s.inputSize
    ensures r == -1 || r == 0 || r == 1
    ensures r == 1 ==> t.expected == s.expected && (pos > s.expected || pos + length <= s.expected)
  {
    hide Holds, TailHeld;
  }

  lemma DrainedSizes(s: State, drained: seq<Byte>, t: State)
    requires Drained(s, drained, t)
    ensures Total(t.list) + |drained| == Total(s.list) && t.input == s.input + drained
    ensures t.overcharge == s.overcharge && t.fatal == s.fatal
  {
    hide Sorted, Total;
  }

  lemma FrontTotal(list: seq<Fragment>)
    requires |list| > 0
    ensures |list[0].data| <= Total(list)
  {
  }

  lemma InputTaken(s: State, t: State)
    requires Good(s) && t == s.(input := [])
    ensures Good(t) && (|t.list| > 0 ==> t.expected <= t.list[0].begin)
  {
    hide Sorted, Small, Total, Wrap;
  }

  /** A segment that is kept or dropped does not bring the byte that is expected. */
  lemma NothingNext(s: State, got: Received, base: nat, pos: nat, packet: seq<Byte>, length: nat, t: State)
    requires Matches(s, got, base) && length < |packet| && t.expected == s.expected
    requires pos > s.expected || pos + length <= s.expected
    requires Part(t, Next(got, base, pos, packet, length), base)
    ensures Matches(t, Next(got, base, pos, packet, length), base)
  {
    var next := Next(got, base, pos, packet, length);
    if s.expected in next { NextAt(got, base, pos, packet, length, s.expected); }
    hide Sorted, Look, Next;
    GapUnique(next, base, s.expected);
  }

  /** The number of bytes that segments carry. */
  function Payload(segments: seq<Segment>): nat {
    if |segments| == 0 then 0 else Payload(segments[..|segments| - 1]) + segments[|segments| - 1].length
  }

  lemma {:induction false} PayloadFront(segments: seq<Segment>, k: nat)
    requires k <= |segments|
    ensures Payload(segments[..k]) <= Payload(segments)
    ensures k < |segments| ==> Payload(segments[..k]) + segments[k].length <= Payload(segments)
    decreases |segments|
  {
    if k == |segments| {
      assert segments[..k] == segments;
    } else {
      var n := |segments| - 1;
      assert segments[..n][..k] == segments[..k];
      PayloadFront(segments[..n], k);
    }
  }

  lemma PayloadNext(segments: seq<Segment>, k: nat)
    requires k < |segments|
    ensures Payload(segments[..k + 1]) == Payload(segments[..k]) + segments[k].length
  {
    assert segments[..k + 1][..k] == segments[..k];
  }

  lemma AfterNext(segments: seq<Segment>, seqStart: nat, base: nat, k: nat)
    requires AllFit(segments, seqStart) && k < |segments|
    ensures var x := segments[k];
            AllFit(segments[..k], seqStart) && AllFit(segments[..k + 1], seqStart) && x.Fits(seqStart) &&
            After(segments[..k + 1], seqStart, base) ==
            Next(After(segments[..k], seqStart, base), base, x.Pos(seqStart), x.packet, x.length)
  {
    assert segments[..k + 1][..k] == segments[..k];
    AfterStep(segments[..k + 1], seqStart, base);
  }

  lemma NothingYet(segments: seq<Segment>, seqStart: nat, base: nat)
    requires AllFit(segments, seqStart)
    ensures AllFit(segments[..0], seqStart) && After(segments[..0], seqStart, base) == map[]
    ensures Payload(segments[..0]) == 0
  {
  }

  /** A new direction without a memory limit takes in segments, in any order and with any overlaps. Exactly
      the bytes up to the first position that has not been received are released, every position with the
      byte that came first, until a segment is refused; and the memory counter is exact. It stalls only when
      more than the largest input buffer holds has been received. */
  method FollowStream(d: Direction, segments: seq<Segment>) returns (done: nat, stalled: bool)
    requires d.Ready() && d.maxRecovery == -1 && AllFit(segments, d.seqStart) && d.Now() == Fresh(d.expected)
    requires Payload(segments) < WORD32 / 2
    modifies d
    ensures d.Ready() && done <= |segments| && AllFit(segments[..done], d.seqStart)
    ensures d.memory == Total(d.list) && d.overcharge == 0
    ensures var base := old(d.expected);
            Part(d.Now(), After(segments[..done], d.seqStart, base), base) &&
            (!stalled ==> Matches(d.Now(), After(segments[..done], d.seqStart, base), base)) &&
            (forall i :: 0 <= i < done ==> !RefusedAt(segments, d.seqStart, base, i)) &&
            (!stalled && done < |segments| ==> RefusedAt(segments, d.seqStart, base, done))
    ensures stalled ==> Payload(segments) > MAX_INPUT_SZ
  {
    ghost var base := d.expected;
    NothingYet(segments, d.seqStart, base);
    FreshMatches(base);
    done, stalled := 0, false;
    var refused := false;
    hide *;
    ProgressStart(d.Now(), segments, d.seqStart, base);
    while done < |segments| && !stalled && !refused
      invariant d.Ready() && done <= |segments|
      invariant Progress(d.Now(), segments, d.seqStart, base, done, refused, stalled)
      decreases |segments| - done, if refused then 0 else 1
    {
      refused, stalled := Advance(d, segments, done, base);
      if !refused { done := done + 1; }
    }
    ProgressEnd(d.Now(), segments, d.seqStart, base, done, refused, stalled);
  }

  /** How far a stream has come. */
  ghost predicate Progress(s: State, segments: seq<Segment>, seqStart: nat, base: nat, done: nat, refused: bool,
                           stalled: bool)
  {
    done <= |segments| && AllFit(segments, seqStart) && AllFit(segments[..done], seqStart) &&
    s.input == [] && s.overcharge == 0 && Total(s.list) <= Payload(segments[..done]) && s.fatal == refused &&
    Part(s, After(segments[..done], seqStart, base), base) &&
    (!stalled ==> Matches(s, After(segments[..done], seqStart, base), base)) &&
    (forall i :: 0 <= i < done ==> !RefusedAt(segments, seqStart, base, i)) &&
    (refused ==> !stalled && done < |segments| && RefusedAt(segments, seqStart, base, done)) &&
    (stalled ==> Payload(segments) > MAX_INPUT_SZ)
  }

  lemma ProgressStart(s: State, segments: seq<Segment>, seqStart: nat, base: nat)
    requires AllFit(segments, seqStart) && s == Fresh(base)
    ensures Progress(s, segments, seqStart, base, 0, false, false)
  {
    NothingYet(segments, seqStart, base);
    FreshMatches(base);
    hide AllFit, After, Payload, Part;
  }

  lemma ProgressEnd(s: State, segments: seq<Segment>, seqStart: nat, base: nat, done: nat, refused: bool, stalled: bool)
    requires Good(s) && Progress(s, segments, seqStart, base, done, refused, stalled)
    requires !(done < |segments| && !stalled && !refused) && Payload(segments) < WORD32 / 2
    ensures AllFit(segments[..done], seqStart) && s.memory == Total(s.list) && s.overcharge == 0
    ensures Part(s, After(segments[..done], seqStart, base), base)
    ensures !stalled ==> Matches(s, After(segments[..done], seqStart, base), base)
    ensures forall i :: 0 <= i < done ==> !RefusedAt(segments, seqStart, base, i)
    ensures !stalled && done < |segments| ==> RefusedAt(segments, seqStart, base, done)
    ensures stalled ==> Payload(segments) > MAX_INPUT_SZ
  {
    hide Good, Total, Part, Matches, After, Payload, AllFit, RefusedAt;
    PayloadFront(segments, done);
    CounterExact(s);
  }

  /** The next segment of a stream. */
  method Advance(d: Direction, segments: seq<Segment>, done: nat, ghost base: nat) returns (refused: bool,
                 stalled: bool)
    requires d.Ready() && d.maxRecovery == -1 && done < |segments| && Payload(segments) < WORD32 / 2
    requires Progress(d.Now(), segments, d.seqStart, base, done, false, false)
    modifies d
    ensures d.Ready()
    ensures Progress(d.Now(), segments, d.seqStart, base, if refused then done else done + 1, refused, stalled)
  {
    hide Good, Part, Matches, After, Payload, AllFit, Next, Total, Refuses, RefusedAt;
    AfterNext(segments, d.seqStart, base, done);
    PayloadNext(segments, done);
    PayloadFront(segments, done);
    RefusedIs(segments, d.seqStart, base, done);
    refused, stalled := Round(d, segments[done], After(segments[..done], d.seqStart, base), base);
    if refused { MatchesPart(d.Now(), After(segments[..done], d.seqStart, base), base); }
  }

  lemma RefusedIs(segments: seq<Segment>, seqStart: nat, base: nat, k: nat)
    requires AllFit(segments, seqStart) && k < |segments|
    ensures AllFit(segments[..k], seqStart) && segments[k].Fits(seqStart)
    ensures RefusedAt(segments, seqStart, base, k) <==>
            Refuses(After(segments[..k], seqStart, base), base, seqStart, segments[k])
  {
  }

  lemma MatchesPart(s: State, got: Received, base: nat)
    requires Matches(s, got, base)
    ensures Part(s, got, base)
  {
  }

  /** Segments of one stream: everything released and held belongs to the stream exactly if the bytes that
      were stored behind segments do. */
  lemma StreamReleased(s: State, segments: seq<Segment>, seqStart: nat, base: nat, stream: nat -> Byte)
    requires AllFit(segments, seqStart) && AllAgree(segments, seqStart, stream)
    requires Matches(s, After(segments, seqStart, base), base)
    ensures Follows(s, stream, base) <==> ExtrasAgree(segments, seqStart, base, stream)
    ensures ExtrasAgree(segments, seqStart, base, stream) ==>
              s.released == Slice(stream, base, Gap(After(segments, seqStart, base), base))
  {
    AfterOfStream(segments, seqStart, base, stream);
    hide AllFit, AllAgree, ExtrasAgree, After;
    FollowsExact(s, After(segments, seqStart, base), base, stream);
  }

  lemma FollowsExact(s: State, got: Received, base: nat, stream: nat -> Byte)
    requires Matches(s, got, base)
    ensures Follows(s, stream, base) <==> OfStream(got, stream, base)
    ensures Follows(s, stream, base) ==> s.released == Slice(stream, base, Gap(got, base))
  {
    hide Sorted, Look;
    if OfStream(got, stream, base) {
      ReadIsSlice(got, stream, base, s.expected);
      forall q: nat | Look(s.list, q).Held?
        ensures q >= s.expected && Look(s.list, q).value == stream(q)
      {
        assert Look(s.list, q) == if q < s.expected then Absent else CellOf(got, q);
      }
    }
    if Follows(s, stream, base) {
      forall q | q in got && q >= base
        ensures got[q] == stream(q)
      {
        if q < s.expected {
          assert Read(got, base, s.expected)[q - base] == got[q];
          assert Slice(stream, base, s.expected)[q - base] == stream(q);
        } else {
          assert Look(s.list, q) == CellOf(got, q);
        }
      }
    }
  }
}
