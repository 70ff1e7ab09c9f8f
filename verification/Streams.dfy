/** TCP streams as an observer sees them: what has been received of a stream, as a map from positions
    to bytes, and how far it goes without a gap. */
module Streams {
  import opened Arith
  import opened Bytes
  import opened Fragments

  const WORD32: nat := 0x1_0000_0000

  /** A sum of 32-bit counters. */
  function Wrap(x: int): (r: nat)
    ensures r < WORD32
  {
    DivModDef(x, WORD32);
    x % WORD32
  }

  /** The relative sequence number of a segment. */
  function Relative(seqStart: nat, sequence: nat): (r: nat)
    requires sequence < WORD32 && seqStart < WORD32
    ensures r < WORD32
  {
    if sequence < seqStart then WORD32 - 1 - seqStart + sequence else sequence - seqStart
  }

  /** After the sequence numbers have wrapped it is one less than the difference modulo 2^32. */
  lemma RolloverExact(seqStart: nat, sequence: nat)
    requires sequence < WORD32 && seqStart < WORD32
    ensures Wrap(sequence - seqStart) == Relative(seqStart, sequence) + (if sequence < seqStart then 1 else 0)
  {
    if sequence < seqStart {
      ModUnique(sequence - seqStart, WORD32, -1, sequence - seqStart + WORD32);
    } else {
      ModSmall(sequence - seqStart, WORD32);
    }
  }

  //
  // What has been received
  //

  type Received = map<nat, Byte>

  function CellOf(got: Received, q: nat): Cell {
    if q in got then Held(got[q]) else Absent
  }

  function Placed(pos: nat, bytes: seq<Byte>): Received {
    map q | q in Span(pos, |bytes|) :: bytes[q - pos]
  }

  /** Bytes arrive from a position on. A position keeps the byte that it received first. */
  function Joined(got: Received, pos: nat, bytes: seq<Byte>): Received {
    Placed(pos, bytes) + got
  }

  lemma JoinedAt(got: Received, pos: nat, bytes: seq<Byte>, q: nat)
    ensures CellOf(Joined(got, pos, bytes), q) ==
            if q in got then Held(got[q]) else if pos <= q < pos + |bytes| then Held(bytes[q - pos]) else Absent
  {
  }

  /** The first position from which nothing has been received. */
  function Gap(got: Received, from: nat): (r: nat)
    ensures from <= r && r !in got && forall q: nat :: from <= q < r ==> q in got
    decreases |got.Keys|
  {
    if from in got then
      var rest := got - {from};
      assert rest.Keys == got.Keys - {from};
      var r := Gap(rest, from + 1);
      assert forall q: nat :: from <= q < r ==> q in got by {
        forall q: nat | from <= q < r
          ensures q in got
        {
          if q > from { assert q in rest; }
        }
      }
      r
    else
      from
  }

  lemma GapUnique(got: Received, from: nat, r: nat)
    requires from <= r && r !in got && forall q: nat :: from <= q < r ==> q in got
    ensures Gap(got, from) == r
  {
    var g := Gap(got, from);
    assert g < r ==> g in got;
    assert r < g ==> r in got;
  }

  /** The bytes received from one position up to another. */
  function Read(got: Received, from: nat, to: nat): (r: seq<Byte>)
    requires from <= to && forall q: nat :: from <= q < to ==> q in got
    ensures |r| == to - from
  {
    seq(to - from, i requires 0 <= i < to - from => got[from + i])
  }

  /** Something beyond e has been received before n. */
  predicate Overtaken(got: Received, e: nat, n: nat) {
    exists q | q in got :: e < q < n
  }

  /** What has been received beyond e begins after pos. */
  predicate Refused(got: Received, e: nat, pos: nat) {
    pos > e && (exists q | q in got :: q > e) && forall q | q in got :: q > e ==> q > pos
  }

  /** The number of bytes taken from a segment: one too many when the segment is next in order and
      reaches something that was received early. */
  function Taken(got: Received, e: nat, pos: nat, length: nat): nat {
    if pos <= e < pos + length && Overtaken(got, e, pos + length) then length + 1 else length
  }

  /** A segment arrives, for packet the memory from its payload on. */
  function Next(got: Received, base: nat, pos: nat, packet: seq<Byte>, length: nat): Received
    requires length < |packet|
  {
    var e := Gap(got, base);
    if length > 0 && Refused(got, e, pos) then got else Joined(got, pos, packet[..Taken(got, e, pos, length)])
  }

  datatype Segment = Segment(sequence: nat, packet: seq<Byte>, length: nat) {
    /** The segment with the byte behind it is in memory, and its positions are 32-bit numbers. */
    predicate Fits(seqStart: nat) {
      sequence < WORD32 && seqStart < WORD32 && length < |packet| && Relative(seqStart, sequence) + length + 2 < WORD32
    }

    function Pos(seqStart: nat): nat
      requires Fits(seqStart)
    {
      Relative(seqStart, sequence)
    }
  }

  predicate AllFit(segments: seq<Segment>, seqStart: nat) {
    forall i :: 0 <= i < |segments| ==> segments[i].Fits(seqStart)
  }

  /** What has been received after some segments, of a stream that begins at base. */
  function After(segments: seq<Segment>, seqStart: nat, base: nat): Received
    requires AllFit(segments, seqStart)
    decreases |segments|
  {
    if |segments| == 0 then map[] else
    var s := segments[|segments| - 1];
    Next(After(segments[..|segments| - 1], seqStart, base), base, s.Pos(seqStart), s.packet, s.length)
  }

  //
  // Segments of one stream
  //

  /** A segment carries bytes of the stream. */
  ghost predicate Agrees(packet: seq<Byte>, length: nat, stream: nat -> Byte, pos: nat) {
    length <= |packet| && forall i :: 0 <= i < length ==> packet[i] == stream(pos + i)
  }

  /** What has been received from base on belongs to the stream. */
  ghost predicate OfStream(got: Received, stream: nat -> Byte, base: nat) {
    forall q :: q in got && q >= base ==> got[q] == stream(q)
  }

  /** The bytes of a stream from one position up to another. */
  ghost function Slice(stream: nat -> Byte, from: nat, to: nat): (r: seq<Byte>)
    requires from <= to
    ensures |r| == to - from
  {
    seq(to - from, i requires 0 <= i < to - from => stream(from + i))
  }

  /** What is released of received stream bytes is the stream. */
  lemma ReadIsSlice(got: Received, stream: nat -> Byte, from: nat, to: nat)
    requires OfStream(got, stream, from) && from <= to && forall q: nat :: from <= q < to ==> q in got
    ensures Read(got, from, to) == Slice(stream, from, to)
  {
  }

  /** The byte behind the segment is stored. */
  predicate TakesExtra(got: Received, base: nat, pos: nat, length: nat) {
    pos <= Gap(got, base) < pos + length && Overtaken(got, Gap(got, base), pos + length) && pos + length !in got
  }

  /** No position loses its byte. */
  lemma NextKeeps(got: Received, base: nat, pos: nat, packet: seq<Byte>, length: nat, q: nat)
    requires length < |packet| && q in got
    ensures q in Next(got, base, pos, packet, length) && Next(got, base, pos, packet, length)[q] == got[q]
  {
  }

  lemma NextHas(got: Received, base: nat, pos: nat, packet: seq<Byte>, length: nat, q: nat)
    requires length < |packet| && pos <= q < pos + length && !Refused(got, Gap(got, base), pos)
    ensures q in Next(got, base, pos, packet, length)
  {
  }

  lemma NextAt(got: Received, base: nat, pos: nat, packet: seq<Byte>, length: nat, q: nat)
    requires length < |packet| && q in Next(got, base, pos, packet, length)
    ensures var b := Next(got, base, pos, packet, length)[q];
            if q in got then b == got[q]
            else pos <= q <= pos + length && b == packet[q - pos] &&
                 (q == pos + length ==> TakesExtra(got, base, pos, length))
  {
  }

  lemma TakesExtraAt(got: Received, base: nat, pos: nat, packet: seq<Byte>, length: nat)
    requires length < |packet| && TakesExtra(got, base, pos, length)
    ensures CellOf(Next(got, base, pos, packet, length), pos + length) == Held(packet[length])
    ensures pos + length > base
  {
  }

  /** A segment of the stream keeps what has been received in the stream, if and only if the byte
      behind it agrees whenever it is stored. */
  lemma NextOfStream(got: Received, base: nat, pos: nat, packet: seq<Byte>, length: nat, stream: nat -> Byte)
    requires length < |packet| && Agrees(packet, length, stream, pos) && OfStream(got, stream, base)
    ensures OfStream(Next(got, base, pos, packet, length), stream, base) <==>
            (TakesExtra(got, base, pos, length) ==> packet[length] == stream(pos + length))
  {
    hide Next, TakesExtra;
    var next := Next(got, base, pos, packet, length);
    if TakesExtra(got, base, pos, length) { TakesExtraAt(got, base, pos, packet, length); }
    if TakesExtra(got, base, pos, length) ==> packet[length] == stream(pos + length) {
      forall q | q in next && q >= base
        ensures next[q] == stream(q)
      {
        NextAt(got, base, pos, packet, length, q);
        if q !in got && q < pos + length { assert packet[q - pos] == stream(pos + (q - pos)); }
      }
    }
  }

  ghost predicate AllAgree(segments: seq<Segment>, seqStart: nat, stream: nat -> Byte)
    requires AllFit(segments, seqStart)
  {
    forall i :: 0 <= i < |segments| ==>
      Agrees(segments[i].packet, segments[i].length, stream, segments[i].Pos(seqStart))
  }

  /** The byte behind segment i agrees with the stream if it is stored. */
  ghost predicate ExtraAgrees(segments: seq<Segment>, seqStart: nat, base: nat, stream: nat -> Byte, i: nat)
    requires AllFit(segments, seqStart) && i < |segments|
  {
    var s := segments[i];
    TakesExtra(After(segments[..i], seqStart, base), base, s.Pos(seqStart), s.length) ==>
      s.packet[s.length] == stream(s.Pos(seqStart) + s.length)
  }

  lemma AfterStep(segments: seq<Segment>, seqStart: nat, base: nat)
    requires AllFit(segments, seqStart) && |segments| > 0
    ensures var n := |segments| - 1; var s := segments[n];
            AllFit(segments[..n], seqStart) && s.Fits(seqStart) && s.length < |s.packet| &&
            After(segments, seqStart, base) ==
            Next(After(segments[..n], seqStart, base), base, s.Pos(seqStart), s.packet, s.length)
  {
  }

  /** Every byte that was stored behind a segment agrees with the stream. */
  ghost predicate ExtrasAgree(segments: seq<Segment>, seqStart: nat, base: nat, stream: nat -> Byte)
    requires AllFit(segments, seqStart)
  {
    forall i :: 0 <= i < |segments| ==> ExtraAgrees(segments, seqStart, base, stream, i)
  }

  lemma ExtrasSplit(segments: seq<Segment>, seqStart: nat, base: nat, stream: nat -> Byte)
    requires AllFit(segments, seqStart) && |segments| > 0
    ensures var n := |segments| - 1; var s, got := segments[n], After(segments[..n], seqStart, base);
            s.Fits(seqStart) && s.length < |s.packet| &&
            (ExtrasAgree(segments, seqStart, base, stream) <==>
             ExtrasAgree(segments[..n], seqStart, base, stream) &&
             (TakesExtra(got, base, s.Pos(seqStart), s.length) ==>
                s.packet[s.length] == stream(s.Pos(seqStart) + s.length)))
  {
    var n := |segments| - 1;
    forall i | 0 <= i < n
      ensures ExtraAgrees(segments[..n], seqStart, base, stream, i) == ExtraAgrees(segments, seqStart, base, stream, i)
    {
      assert segments[..n][..i] == segments[..i];
      hide After, TakesExtra;
    }
    assert ExtraAgrees(segments, seqStart, base, stream, n) <==>
           (TakesExtra(After(segments[..n], seqStart, base), base, segments[n].Pos(seqStart), segments[n].length) ==>
              segments[n].packet[segments[n].length] == stream(segments[n].Pos(seqStart) + segments[n].length));
    hide ExtraAgrees, After, TakesExtra;
  }

  lemma NotOfStream(got: Received, stream: nat -> Byte, base: nat) returns (q: nat)
    requires !OfStream(got, stream, base)
    ensures q in got && q >= base && got[q] != stream(q)
  {
    q :| q in got && q >= base && got[q] != stream(q);
  }

  lemma StaysWrong(got: Received, base: nat, pos: nat, packet: seq<Byte>, length: nat, stream: nat -> Byte)
    requires length < |packet| && !OfStream(got, stream, base)
    ensures !OfStream(Next(got, base, pos, packet, length), stream, base)
  {
    var q := NotOfStream(got, stream, base);
    hide Next;
    NextKeeps(got, base, pos, packet, length, q);
  }

  lemma AfterNone(segments: seq<Segment>, seqStart: nat, base: nat, stream: nat -> Byte)
    requires segments == [] && AllFit(segments, seqStart)
    ensures OfStream(After(segments, seqStart, base), stream, base) && ExtrasAgree(segments, seqStart, base, stream)
  {
  }

  lemma FrontAgrees(segments: seq<Segment>, seqStart: nat, stream: nat -> Byte)
    requires AllFit(segments, seqStart) && AllAgree(segments, seqStart, stream) && |segments| > 0
    ensures var n := |segments| - 1; var s := segments[n];
            AllFit(segments[..n], seqStart) && AllAgree(segments[..n], seqStart, stream) &&
            s.Fits(seqStart) && s.length < |s.packet| && Agrees(s.packet, s.length, stream, s.Pos(seqStart))
  {
    hide Agrees;
  }

  /** Everything received from segments of a stream belongs to the stream, if and only if every byte that
      was stored behind a segment does. */
  lemma {:induction false} AfterOfStream(segments: seq<Segment>, seqStart: nat, base: nat, stream: nat -> Byte)
    requires AllFit(segments, seqStart) && AllAgree(segments, seqStart, stream)
    ensures OfStream(After(segments, seqStart, base), stream, base) <==> ExtrasAgree(segments, seqStart, base, stream)
    decreases |segments|
  {
    hide After, Next, TakesExtra, ExtrasAgree, OfStream, AllFit, AllAgree, Agrees;
    if |segments| == 0 {
      AfterNone(segments, seqStart, base, stream);
    } else {
      var n := |segments| - 1;
      var s, front := segments[n], segments[..n];
      FrontAgrees(segments, seqStart, stream);
      AfterStep(segments, seqStart, base);
      ExtrasSplit(segments, seqStart, base, stream);
      AfterOfStream(front, seqStart, base, stream);
      var got := After(front, seqStart, base);
      if OfStream(got, stream, base) {
        NextOfStream(got, base, s.Pos(seqStart), s.packet, s.length, stream);
      } else {
        StaysWrong(got, base, s.Pos(seqStart), s.packet, s.length, stream);
      }
    }
  }

  /** Segment i is refused. */
  predicate RefusedAt(segments: seq<Segment>, seqStart: nat, base: nat, i: nat)
    requires AllFit(segments, seqStart) && i < |segments|
  {
    var got := After(segments[..i], seqStart, base);
    segments[i].length > 0 && Refused(got, Gap(got, base), segments[i].Pos(seqStart))
  }

  /** Segment i carries the position. */
  predicate Carries(segments: seq<Segment>, seqStart: nat, i: nat, q: nat)
    requires AllFit(segments, seqStart) && i < |segments|
  {
    segments[i].Pos(seqStart) <= q < segments[i].Pos(seqStart) + segments[i].length
  }

  lemma {:induction false} AfterHas(segments: seq<Segment>, seqStart: nat, base: nat, i: nat, q: nat)
    requires AllFit(segments, seqStart) && i < |segments| && Carries(segments, seqStart, i, q)
    requires !RefusedAt(segments, seqStart, base, i)
    ensures q in After(segments, seqStart, base)
    decreases |segments|
  {
    AfterStep(segments, seqStart, base);
    hide After, Next, Refused;
    var n := |segments| - 1;
    var s, got := segments[n], After(segments[..n], seqStart, base);
    if i == n {
      NextHas(got, base, s.Pos(seqStart), s.packet, s.length, q);
    } else {
      assert segments[..n][..i] == segments[..i];
      AfterHas(segments[..n], seqStart, base, i, q);
      NextKeeps(got, base, s.Pos(seqStart), s.packet, s.length, q);
    }
  }

  /** Some segment carries the position. */
  predicate Carried(segments: seq<Segment>, seqStart: nat, q: nat)
    requires AllFit(segments, seqStart)
  {
    exists i :: 0 <= i < |segments| && Carries(segments, seqStart, i, q)
  }

  /** In whatever order they arrive, and however they overlap: segments that are not refused and carry
      every position up to an end leave no gap before it. */
  lemma EverythingReleased(segments: seq<Segment>, seqStart: nat, base: nat, end: nat)
    requires AllFit(segments, seqStart) && forall i :: 0 <= i < |segments| ==> !RefusedAt(segments, seqStart, base, i)
    requires forall q: nat :: base <= q < end ==> Carried(segments, seqStart, q)
    ensures base <= end ==> Gap(After(segments, seqStart, base), base) >= end
  {
    var g := Gap(After(segments, seqStart, base), base);
    hide After, RefusedAt, Carries;
    if g < end && base <= end {
      assert Carried(segments, seqStart, g);
      var i :| 0 <= i < |segments| && Carries(segments, seqStart, i, g);
      AfterHas(segments, seqStart, base, i, g);
    }
  }
}
