/** The reassembly of one direction of a captured TCP stream: fragments that arrive early are kept
    in an ordered list and released when the stream reaches them. */
module Reassembly {
  import opened Arith
  import opened Bytes
  import opened Fragments
  import opened Streams

  /** MAX_INPUT_SZ, which the record sizes of the build determine. */
  const MAX_INPUT_SZ: nat

  /** A 32-bit number read as a signed one. */
  function Signed(x: nat): int {
    if x < WORD32 / 2 then x else x - WORD32
  }

  /** CreateBuffer: the fragment of the sequence numbers begin to end, from the bytes at data. */
  function CreateBuffer(begin: nat, end: nat, data: seq<Byte>): Fragment
    requires begin <= end < begin + |data|
  {
    Fragment(begin, end, data[..end - begin + 1])
  }

  /** How much more than it stores a segment is charged when its front part is put before the list. */
  function Excess(list: seq<Fragment>, start: nat, length: nat): nat {
    if |list| > 0 && start < list[0].begin < start + length then start + length - list[0].begin else 0
  }

  /** The loop's position: the next fragment begins no later than the next byte. */
  ghost predicate Positioned(list: seq<Fragment>, curr: nat, next: nat, bytesLeft: nat) {
    curr <= |list| && (bytesLeft > 0 ==> curr < |list| && list[curr].begin <= next)
  }

  /** The check before the front, as the code has it: it is switched off by the limit 1, not by -1. */
  predicate FrontLimited(limit: int, memory: nat, length: nat) {
    limit - 1 != 0 && Signed(Wrap(memory + length)) > limit
  }

  /** A 32-bit number stands for itself below 2^31 and for a negative number from there on. */
  lemma SignedExact(x: nat)
    ensures x < WORD32 / 2 ==> Signed(Wrap(x)) == x
    ensures WORD32 / 2 <= x < WORD32 ==> Signed(Wrap(x)) == x - WORD32 < 0
    ensures WORD32 <= x < WORD32 + WORD32 / 2 ==> Signed(Wrap(x)) == x - WORD32
  {
    if x < WORD32 {
      ModSmall(x, WORD32);
    } else if x < 2 * WORD32 {
      ModUnique(x, WORD32, 1, x - WORD32);
    }
  }

  /** A segment before the front is refused for its length exactly if the bytes charged so far and those of
      the segment exceed a limit other than 1, once what does not fit into 31 bits has wrapped. */
  lemma FrontLimitedExact(limit: int, memory: nat, length: nat)
    ensures var sum := memory + length;
            sum < WORD32 / 2 ==> (FrontLimited(limit, memory, length) <==> limit != 1 && sum > limit)
    ensures var sum := memory + length;
            WORD32 / 2 <= sum < WORD32 + WORD32 / 2 ==>
              (FrontLimited(limit, memory, length) <==> limit != 1 && sum - WORD32 > limit)
  {
    hide Signed, Wrap;
    SignedExact(memory + length);
  }

  /** The segment starts before everything on the list. */
  predicate BeforeFront(list: seq<Fragment>, start: nat) {
    |list| > 0 && start < list[0].begin
  }

  /** The end of what a segment that is next in order delivers. */
  function DeliveredTo(list: seq<Fragment>, newEnd: nat): nat {
    if |list| > 0 && newEnd > list[0].begin then list[0].begin else newEnd
  }

  /** A segment that is next in order runs past the end of the first fragment. */
  predicate PastFront(list: seq<Fragment>, newEnd: nat) {
    |list| > 0 && newEnd > list[0].end
  }

  /** The fields of a direction at one moment. */
  datatype State = State(list: seq<Fragment>, expected: nat, released: seq<Byte>, memory: nat, overcharge: nat,
                         fatal: bool, input: seq<Byte>, inputSize: nat)

  /** The list is in order and begins at expected or later, sequence numbers and counters are 32-bit
      numbers, and the memory counter is the number of bytes held and the overcharges so far, in 32 bits. */
  ghost predicate Good(s: State) {
    Sorted(s.list) && Small(s.list) && s.expected < WORD32 && s.memory < WORD32 && |s.input| <= s.inputSize &&
    s.memory == Wrap(Total(s.list) + s.overcharge) && (|s.list| > 0 ==> s.expected <= s.list[0].begin)
  }

  /** A direction at the start of a stream. */
  function Fresh(expected: nat): State {
    State([], expected, [], 0, 0, false, [], 0)
  }

  /** Everything held or released belongs to the stream: the released bytes are those from base up to
      expected, and the list holds bytes from expected on. */
  ghost predicate Follows(s: State, stream: nat -> Byte, base: nat) {
    Sorted(s.list) && base <= s.expected && s.released == Slice(stream, base, s.expected) &&
    InStream(s.list, stream, s.expected)
  }

  /** The rest of a segment behind the first fragment, and one byte more, is stored up to a point. */
  ghost predicate TailHeld(before: seq<Fragment>, packet: seq<Byte>, skip: nat, expected: nat, newEnd: nat, stored: nat,
                           list: seq<Fragment>)
    requires PastFront(before, newEnd)
  {
    var end := before[0].end;
    expected <= end && skip + newEnd - expected < |packet| && stored <= newEnd - end &&
    Holds(list, before, end + 1, Tail(packet, skip, expected, end, newEnd), stored)
  }

  /** The segment is next in order, runs past the end of the first fragment, and nothing is held behind it. */
  ghost predicate ExtraByte(s: State, pos: nat, length: nat) {
    Sorted(s.list) && pos <= s.expected < pos + length && PastFront(s.list, pos + length) &&
    Look(s.list, pos + length).Absent?
  }

  /** A segment that is early is kept: with the result 1 all of it, with -1 a first part of it. */
  ghost predicate Kept(limit: int, s: State, pos: nat, packet: seq<Byte>, length: nat, r: int, stored: nat, t: State)
    requires length <= |packet|
  {
    t.expected == s.expected && t.released == s.released && stored <= length &&
    Holds(t.list, s.list, pos, packet[..length], stored) && (stored == 0 ==> t.list == s.list) &&
    t.overcharge == s.overcharge + (if stored > 0 then Excess(s.list, pos, length) else 0) &&
    (if r == 1 then stored == length && t.fatal == s.fatal else r == -1 && t.fatal) &&
    (BeforeFront(s.list, pos) ==>
       if FrontLimited(limit, s.memory, length) then r == -1 && stored == 0 else stored > 0) &&
    (limit == -1 && !(BeforeFront(s.list, pos) && FrontLimited(limit, s.memory, length)) ==> r == 1)
  }

  /** A segment that is next in order is delivered, up to the first fragment. */
  ghost predicate Delivered(limit: int, s: State, pos: nat, fin: bool, packet: seq<Byte>, length: nat,
                            skip: nat, bytes: nat, stored: nat, t: State)
    requires length < |packet|
  {
    skip == (if length > 0 && pos < s.expected then s.expected - pos else 0) && skip + bytes <= length &&
    t.released == s.released + packet[skip..skip + bytes] &&
    t.expected == s.expected + bytes + (if fin then 1 else 0) && t.overcharge == s.overcharge &&
    (length > 0 ==> s.expected + bytes == DeliveredTo(s.list, pos + length)) &&
    (if length > 0 && PastFront(s.list, pos + length) then
       TailHeld(s.list, packet, skip, s.expected, pos + length, stored, t.list) &&
       (limit == -1 ==> stored == pos + length - s.list[0].end && t.fatal == s.fatal)
     else t.list == s.list && t.fatal == s.fatal)
  }

  /** What AdjustSequence does, with the result r, and delivering bytes bytes from skip on when r is 0. */
  ghost predicate Adjusted(limit: int, s: State, pos: nat, fin: bool, packet: seq<Byte>, length: nat,
                           r: int, skip: nat, bytes: nat, stored: nat, t: State)
    requires length < |packet|
  {
    t.input == s.input && t.inputSize == s.inputSize &&
    if pos > s.expected && length > 0 then
      Kept(limit, s, pos, packet, length, r, stored, t)
    else if (pos < s.expected && pos + length <= s.expected) || (pos > s.expected && fin) then
      r == 1 && t == s
    else
      r == 0 && Delivered(limit, s, pos, fin, packet, length, skip, bytes, stored, t)
  }

  /** What HaveMoreInput does: bytes held from expected on, without a gap, are drained. */
  ghost predicate Drained(s: State, drained: seq<Byte>, t: State) {
    Sorted(s.list) && Sorted(t.list) && t.expected == s.expected + |drained| && t.released == s.released + drained &&
    t.input == s.input + drained && t.overcharge == s.overcharge && t.fatal == s.fatal &&
    (forall i :: 0 <= i < |drained| ==> Look(s.list, s.expected + i) == Held(drained[i])) &&
    (forall q: nat :: Look(t.list, q) == if q < t.expected then Absent else Look(s.list, q)) &&
    Total(t.list) + |drained| == Total(s.list)
  }

  /** What FindNextRecordInAssembly does: fragments are given up until one starts a record. */
  ghost predicate Searched(s: State, startsRecord: Fragment -> bool, found: bool, dropped: nat, t: State) {
    t.released == s.released && t.overcharge == s.overcharge && t.fatal == s.fatal && dropped <= |s.list| &&
    (forall i :: 0 <= i < dropped ==> !startsRecord(s.list[i])) &&
    if found then
      dropped < |s.list| && startsRecord(s.list[dropped]) && t.list == s.list[dropped + 1..] &&
      t.input == s.list[dropped].data && t.expected == s.list[dropped].end + 1 &&
      t.inputSize == (if |t.input| > s.inputSize then |t.input| else s.inputSize)
    else
      dropped == |s.list| && t.list == [] && t.input == s.input && t.inputSize == s.inputSize &&
      t.expected == if dropped == 0 then s.expected else s.list[dropped - 1].end + 1
  }

  class Direction {
    var list: seq<Fragment>
    var expected: nat
    var memory: nat
    const maxRecovery: int
    var fatal: bool
    var input: seq<Byte>
    var inputSize: nat
    const seqStart: nat
    var finCounted: nat
    var finSeq: nat
    ghost var overcharge: nat
    ghost var released: seq<Byte>

    /** The list is in order, and its sequence numbers and the counters are 32-bit numbers. */
    ghost predicate Valid()
      reads this
    {
      Sorted(list) && Small(list) && expected < WORD32 && memory < WORD32 && |input| <= inputSize
    }

    /** The memory counter is the number of bytes held plus the overcharges so far, in 32 bits. */
    ghost predicate Counted()
      reads `memory, `list, `overcharge
    {
      memory == Wrap(Total(list) + overcharge)
    }

    /** What the segments and the drain rely on. */
    ghost predicate Ready()
      reads this
    {
      Good(Now())
    }

    ghost function Now(): State
      reads this
    {
      State(list, expected, released, memory, overcharge, fatal, input, inputSize)
    }

    /** A direction as a new session has it once its SYN was seen, with expected 1. */
    constructor (seqStart: nat, expected: nat, maxRecovery: int)
      requires expected < WORD32
      ensures Ready() && Now() == Fresh(expected)
      ensures this.seqStart == seqStart && this.maxRecovery == maxRecovery && finCounted == 0
    {
      list, input, released := [], [], [];
      memory, overcharge, inputSize, finCounted, finSeq := 0, 0, 0, 0, 0;
      fatal := false;
      this.expected, this.maxRecovery, this.seqStart := expected, maxRecovery, seqStart;
    }

    /** The check of every insertion but the one before the front. */
    predicate OverLimit(length: nat)
      reads this
    {
      maxRecovery != -1 && Signed(Wrap(memory + length)) > maxRecovery
    }

    /** AddToReassembly. The result is 1 when every byte of the segment is held afterwards, by what was
        there before or by the segment, and -1 when a limit stopped it after the first stored bytes:
        the next needed bytes are missing and would exceed the limit. Without a limit only a segment
        before the front can be refused. */
    method AddToReassembly(start: nat, frame: seq<Byte>, sslBytes: nat)
      returns (r: int, ghost stored: nat, ghost needed: nat)
      requires Valid() && Counted() && 0 < sslBytes <= |frame| && start + sslBytes < WORD32
      modifies this`list, this`memory, this`fatal, this`overcharge
      ensures Valid() && Counted() && stored <= sslBytes
      ensures if r == 1 then stored == sslBytes && fatal == old(fatal) else r == -1 && fatal
      ensures Holds(list, old(list), start, frame[..sslBytes], stored)
      ensures overcharge == old(overcharge) + (if stored > 0 then Excess(old(list), start, sslBytes) else 0)
      ensures stored == 0 ==> list == old(list)
      ensures old(BeforeFront(list, start) && !FrontLimited(maxRecovery, memory, sslBytes)) ==> stored > 0
      ensures old(BeforeFront(list, start) && FrontLimited(maxRecovery, memory, sslBytes)) ==> r == -1 && stored == 0
      ensures old(BeforeFront(list, start)) && old(memory) + sslBytes < WORD32 / 2 ==>
                (r == -1 && stored == 0 <==> maxRecovery != 1 && old(memory) + sslBytes > maxRecovery)
      ensures r == -1 && !old(BeforeFront(list, start) && FrontLimited(maxRecovery, memory, sslBytes)) ==>
                maxRecovery != -1 && (memory + needed < WORD32 / 2 ==> memory + needed > maxRecovery) &&
                OverLimit(needed) && stored + needed <= sslBytes && Missing(list, start + stored, needed)
      ensures r == 1 ==> list == old(list) || maxRecovery == -1 || Signed(memory) <= maxRecovery ||
                         old(BeforeFront(list, start) && maxRecovery == 1)
      ensures maxRecovery == -1 && !old(BeforeFront(list, start) && FrontLimited(maxRecovery, memory, sslBytes)) ==>
                r == 1
    {
      hide Sorted, Holds, Wrap, Charged, Total, Signed;
      ghost var before, mem, bytes := list, memory, frame[..sslBytes];
      HoldsNothing(list, start, bytes);
      ChargedNothing(mem, list);
      FrontLimitedExact(maxRecovery, memory, sslBytes);
      if |list| == 0 {
        if OverLimit(sslBytes) {
          SignedExact(memory + sslBytes);
          fatal := true;
          LookNothing(list, start, sslBytes);
          return -1, 0, sslBytes;
        }
        InsertOnly(start, frame, sslBytes);
        Recounted(mem, before, list, overcharge, 0);
        return 1, sslBytes, 0;
      }
      stored := 0;
      var curr := 0;
      ghost var excess := 0;
      var next, bytesLeft := start, sslBytes;
      if start < list[0].begin {
        if FrontLimited(maxRecovery, memory, sslBytes) {
          fatal := true;
          return -1, 0, sslBytes;
        }
        var added := InsertFront(start, frame, sslBytes);
        excess := sslBytes - added;
        curr := 1;
        stored := added;
        next, bytesLeft := start + added, bytesLeft - added;
      }
      r, stored, needed := FillGaps(start, frame, sslBytes, curr, next, bytesLeft, before, mem, excess);
      SignedExact(memory + needed);
      Recounted(mem, before, list, overcharge, excess);
      overcharge := overcharge + excess;
    }

    /** Puts the segment into the empty list. */
    method InsertOnly(start: nat, frame: seq<Byte>, sslBytes: nat)
      requires Valid() && 0 < sslBytes <= |frame| && start + sslBytes < WORD32 && list == []
      modifies this`list, this`memory
      ensures Valid() && Holds(list, old(list), start, frame[..sslBytes], sslBytes)
      ensures memory == Charged(old(memory), old(list), list, 0) && memory == Wrap(old(memory) + sslBytes)
    {
      hide Sorted, Holds, Wrap, Charged, Total;
      ghost var before, mem, bytes := list, memory, frame[..sslBytes];
      HoldsNothing(list, start, bytes);
      ChargedNothing(mem, list);
      var add := CreateBuffer(start, start + sslBytes - 1, frame);
      assert add == Piece(start, bytes, 0, sslBytes);
      HoldsInsert(list, before, start, bytes, 0, 0, sslBytes);
      ChargedInsert(mem, before, list, 0, add, 0, 0);
      assert Inserted(list, 0, add) == [add];
      HoldsSorted([add], before, start, bytes, sslBytes);
      list := [add];
      memory := Wrap(memory + sslBytes);
    }

    /** Puts the part of the segment before the front of the list there, and charges all of it. */
    method InsertFront(start: nat, frame: seq<Byte>, sslBytes: nat) returns (added: nat)
      requires Valid() && 0 < sslBytes <= |frame| && start + sslBytes < WORD32 && BeforeFront(list, start)
      modifies this`list, this`memory
      ensures Valid() && 0 < added <= sslBytes && sslBytes - added == Excess(old(list), start, sslBytes)
      ensures Holds(list, old(list), start, frame[..sslBytes], added)
      ensures memory == Charged(old(memory), old(list), list, sslBytes - added) &&
              memory == Wrap(old(memory) + sslBytes)
      ensures |list| > 1 && (added < sslBytes ==> list[1].begin == start + added)
    {
      hide Sorted, Holds, Wrap, Charged, Total;
      ghost var before, mem, bytes := list, memory, frame[..sslBytes];
      HoldsNothing(list, start, bytes);
      ChargedNothing(mem, list);
      var end := start + sslBytes - 1;
      if end >= list[0].begin {
        end := list[0].begin - 1;
      }
      var add := CreateBuffer(start, end, frame);
      added := end - start + 1;
      assert add == Piece(start, bytes, 0, added);
      HoldsInsert(list, before, start, bytes, 0, 0, added);
      ChargedInsert(mem, before, list, 0, add, 0, sslBytes - added);
      assert Inserted(list, 0, add) == [add] + list;
      HoldsSorted([add] + list, before, start, bytes, added);
      list := [add] + list;
      memory := Wrap(memory + sslBytes);
    }

    /** The loop that stores what falls into gaps. */
    method FillGaps(start: nat, frame: seq<Byte>, sslBytes: nat, first: nat, from: nat, left: nat,
                    ghost before: seq<Fragment>, ghost mem: nat, ghost excess: nat)
      returns (r: int, ghost stored: nat, ghost needed: nat)
      requires Valid() && 0 < sslBytes <= |frame| && start + sslBytes < WORD32
      requires start <= from && from + left == start + sslBytes && Positioned(list, first, from, left)
      requires Holds(list, before, start, frame[..sslBytes], sslBytes - left)
      requires left == sslBytes ==> list == before
      requires memory == Charged(mem, before, list, excess)
      modifies this`list, this`memory, this`fatal
      ensures Valid() && sslBytes - left <= stored <= sslBytes
      ensures if r == 1 then stored == sslBytes && fatal == old(fatal) else r == -1 && fatal
      ensures Holds(list, before, start, frame[..sslBytes], stored)
      ensures memory == Charged(mem, before, list, excess) && (stored == 0 ==> list == before)
      ensures maxRecovery == -1 ==> r == 1
      ensures r == -1 ==> OverLimit(needed) && stored + needed <= sslBytes && Missing(list, start + stored, needed)
      ensures r == 1 ==> list == old(list) || maxRecovery == -1 || Signed(memory) <= maxRecovery
    {
      hide Sorted, Small, Holds, Wrap, Charged, Signed, Missing;
      ghost var bytes := frame[..sslBytes];
      var curr, seqNo, bytesLeft := first, from, left;
      var prev := if first > 0 then first - 1 else 0;
      while bytesLeft > 0
        invariant 0 <= bytesLeft <= left && seqNo + bytesLeft == start + sslBytes && 0 <= curr <= |list|
        invariant Valid() && Positioned(list, curr, seqNo, bytesLeft) && fatal == old(fatal)
        invariant Holds(list, before, start, bytes, sslBytes - bytesLeft)
        invariant memory == Charged(mem, before, list, excess) && (bytesLeft == sslBytes ==> list == before)
        invariant list == old(list) || maxRecovery == -1 || Signed(memory) <= maxRecovery
        decreases bytesLeft, |list| - curr
      {
        prev, curr := Advance(curr, seqNo);
        Neighbours(list, prev);
        if list[prev].end >= seqNo {
          if seqNo + bytesLeft - 1 <= list[prev].end {
            HoldsSkip(list, before, start, bytes, sslBytes - bytesLeft, prev, sslBytes);
            return 1, sslBytes, 0;
          }
          HoldsSkip(list, before, start, bytes, sslBytes - bytesLeft, prev, list[prev].end + 1 - start);
          seqNo := list[prev].end + 1;
          bytesLeft := start + sslBytes - seqNo;
        }
        var added :=
          if curr == |list| || bytesLeft <= list[curr].begin - seqNo then bytesLeft else list[curr].begin - seqNo;
        if added > 0 {
          if OverLimit(added) {
            fatal := true;
            GapMissing(list, curr, seqNo, added);
            return -1, sslBytes - bytesLeft, added;
          }
          InsertPiece(start, frame, sslBytes, seqNo, bytesLeft, added, curr, before, mem, excess);
          seqNo, bytesLeft := seqNo + added, bytesLeft - added;
          curr := curr + 1;
        }
      }
      return 1, sslBytes, 0;
    }

    /** The bytes of a segment that is next in order: those from the front of the list on are left
        out, and what follows the first fragment is stored, with a length that is one too large. */
    method TrimToFront(packet: seq<Byte>, skip: nat, sslBytes: nat) returns (bytes: nat, ghost stored: nat)
      requires Valid() && Counted() && skip + sslBytes < |packet| && expected + sslBytes + 1 < WORD32
      requires |list| > 0 ==> expected <= list[0].begin
      modifies this`list, this`memory, this`fatal, this`overcharge
      ensures Valid() && Counted() && overcharge == old(overcharge)
      ensures expected + bytes == DeliveredTo(old(list), expected + sslBytes) && bytes <= sslBytes
      ensures !PastFront(old(list), expected + sslBytes) ==> list == old(list) && fatal == old(fatal)
      ensures PastFront(old(list), expected + sslBytes) ==>
                TailHeld(old(list), packet, skip, expected, expected + sslBytes, stored, list)
      ensures maxRecovery == -1 ==> fatal == old(fatal)
      ensures PastFront(old(list), expected + sslBytes) && maxRecovery == -1 ==>
                stored == expected + sslBytes - old(list)[0].end
    {
      hide Holds, Counted, Sorted;
      bytes, stored := sslBytes, 0;
      if |list| > 0 {
        FrontShape(list);
        var newEnd := expected + sslBytes;
        if newEnd > list[0].begin {
          bytes := bytes - (newEnd - list[0].begin);
        }
        if newEnd > list[0].end {
          var end := list[0].end;
          var from := skip + end + 1 - expected;
          var r;
          ghost var needed;
          r, stored, needed := AddToReassembly(end + 1, packet[from..], newEnd - end);
          assert packet[from..][..newEnd - end] == Tail(packet, skip, expected, end, newEnd);
        }
      }
    }

    /** A segment that is early goes to the list. */
    method Keep(pos: nat, packet: seq<Byte>, sslBytes: nat) returns (r: int, ghost stored: nat)
      requires Ready() && 0 < sslBytes < |packet| && pos + sslBytes < WORD32 && pos > expected
      modifies this`list, this`memory, this`fatal, this`overcharge
      ensures Valid() && Counted()
      ensures Kept(maxRecovery, old(Now()), pos, packet, sslBytes, r, stored, Now())
    {
      hide Holds, Sorted, Wrap, Total, Small;
      ghost var needed;
      r, stored, needed := AddToReassembly(pos, packet, sslBytes);
    }

    /** A segment that is next in order, from skip on, is delivered. */
    method Deliver(pos: nat, skip: nat, fin: bool, packet: seq<Byte>, sslBytes: nat)
      returns (bytes: nat, ghost stored: nat)
      requires Ready() && sslBytes < |packet| && pos + sslBytes + 2 < WORD32 && (fin ==> expected + 1 < WORD32)
      requires if sslBytes > 0 then pos + skip == expected < pos + sslBytes else skip == 0
      modifies this`list, this`memory, this`fatal, this`overcharge, this`released, this`expected
      ensures Valid() && Counted()
      ensures Delivered(maxRecovery, old(Now()), pos, fin, packet, sslBytes, skip, bytes, stored, Now())
    {
      hide Holds, Sorted, TailHeld, Wrap, Total, Small;
      bytes, stored := sslBytes, 0;
      if sslBytes > 0 {
        bytes, stored := TrimToFront(packet, skip, sslBytes - skip);
      }
      released := released + packet[skip..skip + bytes];
      expected := expected + bytes;
      if fin {
        expected := expected + 1;
      }
    }

    /** What AdjustSequence does to the segment and the list, for packet the memory from the segment's
        payload on. The result is 0 when bytes bytes from skip on are delivered. */
    method Adjust(sequence: nat, fin: bool, packet: seq<Byte>, sslBytes: nat)
      returns (r: int, skip: nat, bytes: nat, ghost stored: nat)
      requires Ready() && Segment(sequence, packet, sslBytes).Fits(seqStart)
      modifies this
      ensures Valid() && Counted()
      ensures Adjusted(maxRecovery, old(Now()), Relative(seqStart, sequence), fin, packet, sslBytes, r, skip, bytes,
                       stored, Now())
      ensures finCounted == old(finCounted)
      ensures finSeq == if fin && sslBytes == 0 && Relative(seqStart, sequence) > old(expected) && finCounted == 0
                        then Relative(seqStart, sequence) else old(finSeq)
    {
      hide Kept, Delivered, Sorted, Small, Wrap, Total, Relative;
      var pos := Relative(seqStart, sequence);
      r, skip, bytes, stored := 0, 0, sslBytes, 0;
      if pos < expected {
        if pos + sslBytes > expected {
          skip := expected - pos;
        } else {
          return 1, 0, sslBytes, 0;
        }
      } else if pos > expected {
        if sslBytes > 0 {
          r, stored := Keep(pos, packet, sslBytes);
          return r, 0, sslBytes, stored;
        } else if fin {
          if finCounted == 0 {
            finSeq := pos;
          }
          return 1, 0, 0, 0;
        }
      }
      bytes, stored := Deliver(pos, skip, fin, packet, sslBytes);
    }

    /** AdjustSequence. Without a limit, a segment of the stream without FIN keeps everything held and
        released in the stream if and only if the byte behind it agrees whenever it is stored: when the
        segment is next in order, runs past the end of the first fragment, and nothing is held there. */
    method AdjustSequence(sequence: nat, fin: bool, packet: seq<Byte>, sslBytes: nat, ghost stream: nat -> Byte,
                          ghost base: nat)
      returns (r: int, skip: nat, bytes: nat, ghost stored: nat)
      requires Ready() && Segment(sequence, packet, sslBytes).Fits(seqStart)
      modifies this
      ensures Valid() && Counted() && (!fin ==> Ready())
      ensures Adjusted(maxRecovery, old(Now()), Relative(seqStart, sequence), fin, packet, sslBytes, r, skip, bytes,
                       stored, Now())
      ensures finCounted == old(finCounted)
      ensures finSeq == if fin && sslBytes == 0 && Relative(seqStart, sequence) > old(expected) && finCounted == 0
                        then Relative(seqStart, sequence) else old(finSeq)
      ensures var pos, s := Relative(seqStart, sequence), old(Now());
              !fin && Agrees(packet, sslBytes, stream, pos) && Follows(s, stream, base) ==>
                ((ExtraByte(s, pos, sslBytes) ==> packet[sslBytes] == stream(pos + sslBytes)) ==>
                   Follows(Now(), stream, base)) &&
                (maxRecovery == -1 && Follows(Now(), stream, base) ==>
                   (ExtraByte(s, pos, sslBytes) ==> packet[sslBytes] == stream(pos + sslBytes)))
    {
      ghost var s := Now();
      r, skip, bytes, stored := Adjust(sequence, fin, packet, sslBytes);
      hide Sorted, Holds, Adjusted, Follows, ExtraByte, Agrees, Counted;
      var pos := Relative(seqStart, sequence);
      if !fin {
        AdjustedReady(maxRecovery, s, pos, packet, sslBytes, r, skip, bytes, stored, Now());
        if Agrees(packet, sslBytes, stream, pos) && Follows(s, stream, base) {
          AdjustedFollows(maxRecovery, s, pos, packet, sslBytes, r, skip, bytes, stored, Now(), stream, base);
        }
      }
    }

    /** HaveMoreInput: fragments that have become next in order move to the input buffer, until there is
        none, or none that fits a buffer of the largest size. */
    method HaveMoreInput() returns (moreInput: bool, ghost drained: seq<Byte>)
      requires Ready()
      modifies this`list, this`expected, this`memory, this`input, this`inputSize, this`released
      ensures Ready() && Drained(old(Now()), drained, Now()) && (moreInput <==> |drained| > 0)
      ensures |list| > 0 && list[0].begin == expected ==>
                |list[0].data| > inputSize - |input| && inputSize >= MAX_INPUT_SZ
    {
      hide Wrap, Total, Sorted, Small, Drained;
      ghost var s := Now();
      moreInput, drained := false, [];
      DrainedNothing(s);
      while |list| > 0 && list[0].begin == expected
        invariant Ready() && Drained(s, drained, Now()) && (moreInput <==> |drained| > 0)
        decreases |list|
      {
        FrontShape(list);
        ghost var u := Now();
        var room := inputSize - |input|;
        var packetLen := list[0].end - list[0].begin + 1;
        if packetLen > room && inputSize < MAX_INPUT_SZ {
          inputSize := packetLen + |input|;
          room := inputSize - |input|;
        }
        DrainedSize(s, drained, u, Now());
        FrontData(list);
        if packetLen <= room {
          DrainedFront(s, drained, Now(), packetLen);
          drained := drained + list[0].data;
          MoveFront(packetLen);
          moreInput := true;
        } else {
          break;
        }
      }
    }

    /** The first fragment, next in order, goes to the input buffer. */
    method MoveFront(packetLen: nat)
      requires Ready() && |list| > 0 && list[0].begin == expected
      requires packetLen == |list[0].data| <= inputSize - |input|
      modifies this`list, this`expected, this`memory, this`input, this`released
      ensures Ready() && Now() == Popped(old(Now()), packetLen)
    {
      hide Sorted, Small, Wrap, Total;
      CountedFront(list, memory, overcharge);
      FrontSmall(list);
      FrontData(list);
      SecondAfter(list);
      input := input + list[0].data;
      expected := expected + packetLen;
      released := released + list[0].data;
      list := list[1..];
      memory := Wrap(memory - packetLen);
    }

    /** FindNextRecordInAssembly: fragments are given up until one starts a record; that one becomes the
        input. The test of its first bytes is a parameter. */
    method FindNextRecord(startsRecord: Fragment -> bool) returns (found: bool, ghost dropped: nat)
      requires Ready()
      modifies `list, `expected, `memory, `input, `inputSize
      ensures Ready() && Searched(old(Now()), startsRecord, found, dropped, Now())
    {
      hide Sorted, Small, Wrap, Total;
      dropped := 0;
      ghost var start := list;
      while |list| > 0
        invariant Ready() && dropped <= |start| && list == start[dropped..] && input == old(input)
        invariant forall i :: 0 <= i < dropped ==> !startsRecord(start[i])
        invariant expected == (if dropped == 0 then old(expected) else start[dropped - 1].end + 1)
        invariant inputSize == old(inputSize)
        decreases |list|
      {
        FrontShape(list);
        FrontSmall(list);
        FrontData(list);
        SecondAfter(list);
        CountedFront(list, memory, overcharge);
        var curr := list[0];
        assert curr == start[dropped];
        expected := curr.end + 1;
        var length := curr.end - curr.begin + 1;
        list := list[1..];
        memory := Wrap(memory - length);
        if startsRecord(curr) {
          if length > inputSize {
            inputSize := length;
          }
          input := curr.data;
          return true, dropped;
        }
        dropped := dropped + 1;
      }
      found := false;
    }

    /** Moves on to the first fragment that begins after seqNo, and the one before it. */
    method Advance(first: nat, seqNo: nat) returns (prev: nat, curr: nat)
      requires Valid() && first < |list| && list[first].begin <= seqNo
      ensures first < curr <= |list| && prev == curr - 1 && list[prev].begin <= seqNo
      ensures curr < |list| ==> seqNo < list[curr].begin
    {
      prev, curr := first, first;
      while curr < |list| && seqNo >= list[curr].begin
        invariant first <= curr <= |list|
        invariant if curr > first then prev == curr - 1 && list[prev].begin <= seqNo else prev == first
      {
        prev := curr;
        curr := curr + 1;
      }
    }

    /** Puts the next piece of the segment between its neighbours. */
    method InsertPiece(start: nat, frame: seq<Byte>, sslBytes: nat, seqNo: nat, bytesLeft: nat, added: nat, curr: nat,
                       ghost before: seq<Fragment>, ghost mem: nat, ghost excess: nat)
      requires Valid() && sslBytes <= |frame| && start + sslBytes < WORD32 && bytesLeft <= sslBytes
      requires seqNo + bytesLeft == start + sslBytes && 0 < added <= bytesLeft
      requires 0 < curr <= |list| && list[curr - 1].end < seqNo && (curr < |list| ==> seqNo + added <= list[curr].begin)
      requires Holds(list, before, start, frame[..sslBytes], sslBytes - bytesLeft)
      requires memory == Charged(mem, before, list, excess)
      modifies this`list, this`memory
      ensures Valid() && |list| == old(|list|) + 1
      ensures curr + 1 < |list| ==> list[curr + 1] == old(list)[curr]
      ensures Holds(list, before, start, frame[..sslBytes], sslBytes - bytesLeft + added)
      ensures memory == Charged(mem, before, list, excess) && memory == Wrap(old(memory) + added)
    {
      hide Sorted, Holds, Wrap, Charged;
      ghost var bytes, m := frame[..sslBytes], sslBytes - bytesLeft;
      var add := CreateBuffer(seqNo, seqNo + added - 1, frame[seqNo - start..]);
      assert add == Piece(start, bytes, m, added);
      HoldsInsert(list, before, start, bytes, m, curr, added);
      ChargedInsert(mem, before, list, curr, add, excess, 0);
      HoldsSorted(Inserted(list, curr, add), before, start, bytes, m + added);
      list := list[..curr] + [add] + list[curr..];
      memory := Wrap(memory + added);
    }
  }

  /** The bytes that are stored as the rest of a segment: they reach one byte beyond its end. */
  function Tail(packet: seq<Byte>, skip: nat, expected: nat, end: nat, newEnd: nat): (r: seq<Byte>)
    requires expected <= end < newEnd && skip + newEnd - expected < |packet|
    ensures |r| == newEnd - end
  {
    packet[skip + end + 1 - expected..skip + newEnd + 1 - expected]
  }

  lemma FrontShape(list: seq<Fragment>)
    requires Sorted(list) && |list| > 0
    ensures list[0].begin <= list[0].end
  {
    assert WellFormed(list[0]);
  }

  lemma FrontData(list: seq<Fragment>)
    requires Sorted(list) && |list| > 0
    ensures |list[0].data| == list[0].end - list[0].begin + 1
  {
    assert WellFormed(list[0]);
  }

  lemma FrontSmall(list: seq<Fragment>)
    requires Small(list) && Sorted(list) && |list| > 0
    ensures list[0].end < WORD32 - 1 && Small(list[1..]) && Sorted(list[1..])
  {
  }

  /** Removing the first fragment, and its length from the counter. */
  lemma CountedFront(list: seq<Fragment>, memory: nat, overcharge: nat)
    requires |list| > 0 && memory == Wrap(Total(list) + overcharge)
    ensures Wrap(memory - |list[0].data|) == Wrap(Total(list[1..]) + overcharge)
  {
    var n := |list[0].data|;
    assert Total(list) == n + Total(list[1..]);
    hide Total;
    WrapAdd(Total(list) + overcharge, -(n as int));
  }

  /** The counter is never below the bytes held, and equals them without overcharges, as long as the
      charges stay below 2^32. */
  lemma CounterBound(list: seq<Fragment>, memory: nat, overcharge: nat)
    requires memory == Wrap(Total(list) + overcharge) && Total(list) + overcharge < WORD32
    ensures memory == Total(list) + overcharge && memory >= Total(list) && (overcharge == 0 <==> memory == Total(list))
  {
    ModSmall(Total(list) + overcharge, WORD32);
  }

  //
  // Segments of a stream
  //

  /** The list begins where something is held. */
  lemma FrontHeld(list: seq<Fragment>)
    requires Sorted(list) && |list| > 0
    ensures Look(list, list[0].begin).Held?
  {
    FrontShape(list);
    LookInside(list, 0, list[0].begin);
  }

  /** Storing from a position on leaves nothing before it that was not held. */
  lemma HoldsFront(list: seq<Fragment>, before: seq<Fragment>, start: nat, bytes: seq<Byte>, m: nat, from: nat)
    requires Holds(list, before, start, bytes, m) && from <= start && (|before| > 0 ==> from <= before[0].begin)
    ensures |list| > 0 ==> from <= list[0].begin
  {
    if |list| > 0 {
      hide Sorted;
      HoldsSorted(list, before, start, bytes, m);
      FrontHeld(list);
      var q := list[0].begin;
      assert Look(list, q) == Merged(before, start, bytes, m, q);
      if q < from { LookBefore(before, q); }
    }
  }

  /** After a segment without FIN the list still begins at expected or later. */
  lemma AdjustedReady(limit: int, s: State, pos: nat, packet: seq<Byte>, length: nat, r: int, skip: nat, bytes: nat,
                      stored: nat, t: State)
    requires Good(s) && length < |packet| && Adjusted(limit, s, pos, false, packet, length, r, skip, bytes, stored, t)
    ensures |t.list| > 0 ==> t.expected <= t.list[0].begin
  {
    hide Holds, Sorted, Small, Total, Wrap;
    if pos > s.expected && length > 0 {
      HoldsFront(t.list, s.list, pos, packet[..length], stored, s.expected);
    } else if r == 0 && length > 0 && PastFront(s.list, pos + length) {
      FrontShape(s.list);
      var end := s.list[0].end;
      HoldsFront(t.list, s.list, end + 1, Tail(packet, skip, s.expected, end, pos + length), stored, s.list[0].begin);
    }
  }

  /** The byte belongs to the stream, or the position is held already. */
  ghost predicate Harmless(before: seq<Fragment>, stream: nat -> Byte, q: nat, b: Byte)
    requires Sorted(before)
  {
    b == stream(q) || Look(before, q).Held?
  }

  /** Stored bytes of the stream keep the list in the stream. A position that was held may be given any byte. */
  lemma HoldsInStream(list: seq<Fragment>, before: seq<Fragment>, start: nat, bytes: seq<Byte>, m: nat,
                      stream: nat -> Byte, from: nat)
    requires Holds(list, before, start, bytes, m) && InStream(before, stream, from) && from <= start
    requires forall i :: 0 <= i < m ==> Harmless(before, stream, start + i, bytes[i])
    ensures Sorted(list) && InStream(list, stream, from)
  {
    hide Sorted;
    HoldsSorted(list, before, start, bytes, m);
    forall q: nat | Look(list, q).Held?
      ensures q >= from && Look(list, q).value == stream(q)
    {
      assert Look(list, q) == Merged(before, start, bytes, m, q);
      if !Look(before, q).Held? { assert Harmless(before, stream, start + (q - start), bytes[q - start]); }
    }
  }

  lemma SegmentInStream(list: seq<Fragment>, before: seq<Fragment>, pos: nat, packet: seq<Byte>, length: nat,
                        stored: nat, stream: nat -> Byte, from: nat)
    requires Agrees(packet, length, stream, pos) && Holds(list, before, pos, packet[..length], stored) &&
             stored <= length
    requires Sorted(before) && InStream(before, stream, from) && from <= pos
    ensures Sorted(list) && InStream(list, stream, from)
  {
    hide Holds, Sorted, InStream;
    HoldsInStream(list, before, pos, packet[..length], stored, stream, from);
  }

  /** The byte after the segment is the last one that storing its rest behind the first fragment adds. */
  lemma TailStored(list: seq<Fragment>, before: seq<Fragment>, pos: nat, packet: seq<Byte>, length: nat, skip: nat,
                   expected: nat)
    requires Sorted(before) && PastFront(before, pos + length) && pos + skip == expected && length < |packet|
    requires expected <= before[0].begin <= before[0].end
    requires TailHeld(before, packet, skip, expected, pos + length, pos + length - before[0].end, list)
    ensures Sorted(list)
    ensures Look(list, pos + length) ==
            if Look(before, pos + length).Held? then Look(before, pos + length) else Held(packet[length])
  {
    var start, tail := before[0].end + 1, Tail(packet, skip, expected, before[0].end, pos + length);
    HoldsSorted(list, before, start, tail, |tail|);
    assert Look(list, pos + length) == Merged(before, start, tail, |tail|, pos + length);
  }

  lemma TailInStream(list: seq<Fragment>, before: seq<Fragment>, pos: nat, packet: seq<Byte>, length: nat, skip: nat,
                     expected: nat, stored: nat, stream: nat -> Byte)
    requires Sorted(before) && PastFront(before, pos + length) && pos + skip == expected && length < |packet|
    requires expected <= before[0].begin <= before[0].end && InStream(before, stream, expected)
    requires Agrees(packet, length, stream, pos) &&
             (packet[length] == stream(pos + length) || Look(before, pos + length).Held?)
    requires TailHeld(before, packet, skip, expected, pos + length, stored, list)
    ensures Sorted(list) && InStream(list, stream, expected)
  {
    hide Holds, Sorted, InStream;
    var start, tail := before[0].end + 1, Tail(packet, skip, expected, before[0].end, pos + length);
    forall i | 0 <= i < stored
      ensures Harmless(before, stream, start + i, tail[i])
    {
      assert tail[i] == packet[start - pos + i];
      assert start + i == pos + (start - pos + i);
    }
    HoldsInStream(list, before, start, tail, stored, stream, expected);
  }

  /** The delivered bytes continue the released ones. */
  lemma DeliveredSlice(packet: seq<Byte>, length: nat, skip: nat, bytes: nat, pos: nat, stream: nat -> Byte,
                       base: nat, expected: nat)
    requires Agrees(packet, length, stream, pos) && skip + bytes <= length && pos + skip == expected && base <= expected
    ensures Slice(stream, base, expected) + packet[skip..skip + bytes] == Slice(stream, base, expected + bytes)
  {
    var s, t := Slice(stream, base, expected) + packet[skip..skip + bytes], Slice(stream, base, expected + bytes);
    forall i | 0 <= i < |s|
      ensures s[i] == t[i]
    {
      if i >= expected - base {
        var k := skip + (i - (expected - base));
        assert s[i] == packet[k];
        assert pos + k == base + i;
      }
    }
  }

  lemma DeliveredKeeps(list: seq<Fragment>, stream: nat -> Byte, from: nat, to: nat)
    requires Sorted(list) && InStream(list, stream, from) && (|list| > 0 ==> to <= list[0].begin)
    ensures InStream(list, stream, to)
  {
    hide Sorted;
    forall q: nat | Look(list, q).Held?
      ensures q >= to
    {
      if |list| == 0 || q < list[0].begin { LookBefore(list, q); }
    }
  }

  lemma InStreamAt(list: seq<Fragment>, stream: nat -> Byte, from: nat, q: nat)
    requires Sorted(list) && InStream(list, stream, from)
    ensures Look(list, q).Held? ==> Look(list, q).value == stream(q)
  {
  }

  /** A segment that is next in order keeps everything in the stream, as far as the byte behind it allows. */
  lemma DeliveredFollows(limit: int, s: State, pos: nat, packet: seq<Byte>, length: nat, skip: nat, bytes: nat,
                         stored: nat, t: State, stream: nat -> Byte, base: nat)
    requires Good(s) && length < |packet| && Delivered(limit, s, pos, false, packet, length, skip, bytes, stored, t)
    requires 0 < length && pos <= s.expected < pos + length && Follows(s, stream, base)
    requires Agrees(packet, length, stream, pos)
    requires Sorted(t.list) && (|t.list| > 0 ==> t.expected <= t.list[0].begin)
    ensures (ExtraByte(s, pos, length) ==> packet[length] == stream(pos + length)) ==> Follows(t, stream, base)
    ensures limit == -1 && Follows(t, stream, base) ==>
              (ExtraByte(s, pos, length) ==> packet[length] == stream(pos + length))
  {
    hide Holds, Sorted, Small, Total, Wrap, InStream, Agrees, Slice, Tail, TailHeld;
    var e := s.expected;
    DeliveredSlice(packet, length, skip, bytes, pos, stream, base, e);
    if PastFront(s.list, pos + length) {
      FrontShape(s.list);
      if ExtraByte(s, pos, length) ==> packet[length] == stream(pos + length) {
        TailInStream(t.list, s.list, pos, packet, length, skip, e, stored, stream);
        DeliveredKeeps(t.list, stream, e, t.expected);
      }
      if limit == -1 && Follows(t, stream, base) {
        TailStored(t.list, s.list, pos, packet, length, skip, e);
        InStreamAt(t.list, stream, t.expected, pos + length);
      }
    } else {
      DeliveredKeeps(t.list, stream, e, t.expected);
    }
  }

  /** A segment of the stream without FIN keeps everything held and released in the stream, if the byte
      behind it agrees whenever it is stored; and without a limit only then. */
  lemma AdjustedFollows(limit: int, s: State, pos: nat, packet: seq<Byte>, length: nat, r: int, skip: nat, bytes: nat,
                        stored: nat, t: State, stream: nat -> Byte, base: nat)
    requires Good(s) && length < |packet| && Adjusted(limit, s, pos, false, packet, length, r, skip, bytes, stored, t)
    requires Follows(s, stream, base) && Agrees(packet, length, stream, pos)
    requires Sorted(t.list) && (|t.list| > 0 ==> t.expected <= t.list[0].begin)
    ensures (ExtraByte(s, pos, length) ==> packet[length] == stream(pos + length)) ==> Follows(t, stream, base)
    ensures limit == -1 && Follows(t, stream, base) ==>
              (ExtraByte(s, pos, length) ==> packet[length] == stream(pos + length))
  {
    hide Holds, Sorted, Small, Total, Wrap, InStream, Agrees, Slice, TailHeld, Good;
    if pos > s.expected && length > 0 {
      SegmentInStream(t.list, s.list, pos, packet, length, stored, stream, s.expected);
    } else if r == 0 && length > 0 {
      DeliveredFollows(limit, s, pos, packet, length, skip, bytes, stored, t, stream, base);
    } else if r == 0 {
      assert packet[skip..skip + bytes] == [];
    }
  }

  /** A stream that is left: the list holds position 2, the segment carries the positions 1 and 2, and the
      byte behind it comes to stand for position 3. */
  lemma StreamLost(list: seq<Fragment>, packet: seq<Byte>, stream: nat -> Byte, r: int, skip: nat, bytes: nat,
                   stored: nat, t: State)
    requires list == [Fragment(2, 2, [stream(2)])] && packet == [stream(1), stream(2), 0] && stream(3) != 0
    requires Adjusted(-1, State(list, 1, [], 1, 0, false, [], 0), 1, false, packet, 2, r, skip, bytes, stored, t)
    requires Good(t)
    ensures Good(State(list, 1, [], 1, 0, false, [], 0)) && Follows(State(list, 1, [], 1, 0, false, [], 0), stream, 1)
    ensures Agrees(packet, 2, stream, 1) && !Follows(t, stream, 1) && Look(t.list, 3) == Held(0)
  {
    var s := State(list, 1, [], 1, 0, false, [], 0);
    LostStart(list, stream);
    TailStored(t.list, list, 1, packet, 2, 0, 1);
    hide *;
    AdjustedFollows(-1, s, 1, packet, 2, r, skip, bytes, stored, t, stream, 1);
  }

  lemma LostStart(list: seq<Fragment>, stream: nat -> Byte)
    requires list == [Fragment(2, 2, [stream(2)])]
    ensures var s := State(list, 1, [], 1, 0, false, [], 0); Good(s) && Follows(s, stream, 1) && ExtraByte(s, 1, 2)
  {
    assert list[1..] == [];
    assert Total(list) == 1;
    ModSmall(1, WORD32);
    assert Slice(stream, 1, 1) == [];
    assert Look(list, 3) == Absent;
    forall q: nat | Look(list, q).Held?
      ensures q >= 1 && Look(list, q).value == stream(q)
    {
      assert Look(list[1..], q) == Absent;
    }
  }

  //
  // The drain
  //

  function Popped(s: State, n: nat): State
    requires |s.list| > 0
  {
    State(s.list[1..], s.expected + n, s.released + s.list[0].data, Wrap(s.memory - n), s.overcharge, s.fatal,
          s.input + s.list[0].data, s.inputSize)
  }

  lemma DrainedNothing(s: State)
    requires Good(s)
    ensures Drained(s, [], s)
  {
    hide Sorted, Small, Wrap, Total;
    forall q: nat | q < s.expected
      ensures Look(s.list, q).Absent?
    {
      LookBefore(s.list, q);
    }
  }

  lemma DrainedSize(s: State, drained: seq<Byte>, t: State, u: State)
    requires Drained(s, drained, t) && u == t.(inputSize := u.inputSize)
    ensures Drained(s, drained, u)
  {
  }

  /** What the list holds without its first fragment. */
  lemma PopLook(list: seq<Fragment>, q: nat)
    requires Sorted(list) && |list| > 0
    ensures Sorted(list[1..]) && list[0].begin <= list[0].end
    ensures Look(list[1..], q) == if q <= list[0].end then Absent else Look(list, q)
    ensures Covers(list[0], q) ==>
              |list[0].data| > q - list[0].begin && Look(list, q) == Held(list[0].data[q - list[0].begin])
  {
    LookCons(list, q);
    FrontShape(list);
    if q <= list[0].end { LookBefore(list[1..], q); }
  }

  /** The first fragment, next in order, holds the next bytes. */
  lemma DrainedFront(s: State, drained: seq<Byte>, t: State, packetLen: nat)
    requires Good(t) && Drained(s, drained, t) && |t.list| > 0 && t.list[0].begin == t.expected
    requires packetLen == |t.list[0].data|
    ensures Drained(s, drained + t.list[0].data, Popped(t, packetLen))
  {
    var f := t.list[0];
    FrontData(t.list);
    RestSorted(t.list);
    assert Total(t.list) == |f.data| + Total(t.list[1..]);
    hide Sorted, Small, Wrap, Total;
    var more, u := drained + f.data, Popped(t, packetLen);
    forall i | 0 <= i < |more|
      ensures Look(s.list, s.expected + i) == Held(more[i])
    {
      if i >= |drained| { PopLook(t.list, s.expected + i); }
    }
    forall q: nat
      ensures Look(u.list, q) == if q < u.expected then Absent else Look(s.list, q)
    {
      PopLook(t.list, q);
    }
  }

  lemma SecondAfter(list: seq<Fragment>)
    requires Sorted(list) && |list| > 0
    ensures |list[1..]| > 0 ==> list[0].end < list[1..][0].begin
  {
  }

  /** Draining keeps everything held and released in the stream. */
  lemma DrainedFollows(s: State, drained: seq<Byte>, t: State, stream: nat -> Byte, base: nat)
    requires Drained(s, drained, t) && Follows(s, stream, base)
    ensures drained == Slice(stream, s.expected, t.expected) && Follows(t, stream, base)
  {
    hide Sorted;
    forall i | 0 <= i < |drained|
      ensures drained[i] == stream(s.expected + i)
    {
      assert Look(s.list, s.expected + i) == Held(drained[i]);
    }
    assert drained == Slice(stream, s.expected, t.expected);
    SliceJoin(stream, base, s.expected, t.expected);
  }

  /** What the list holds without its first k fragments. */
  lemma {:induction false} DropLook(list: seq<Fragment>, k: nat, q: nat)
    requires Sorted(list) && 0 < k <= |list|
    ensures Sorted(list[k..]) && Look(list[k..], q) == if q <= list[k - 1].end then Absent else Look(list, q)
    decreases k
  {
    PopLook(list, q);
    if k > 1 {
      DropLook(list[1..], k - 1, q);
      assert list[1..][k - 1..] == list[k..] && list[1..][k - 2] == list[k - 1];
      assert list[0].end < list[k - 1].end by { FrontShape(list[k - 1..]); }
    }
  }

  /** After a search the input is what was held right before the position from which the stream goes on, and
      everything held from there on is still held. */
  lemma SearchedResumes(s: State, startsRecord: Fragment -> bool, found: bool, dropped: nat, t: State)
    requires Good(s) && Searched(s, startsRecord, found, dropped, t)
    ensures Sorted(t.list) && s.expected <= t.expected
    ensures forall q: nat :: Look(t.list, q) == if q < t.expected then Absent else Look(s.list, q)
    ensures found ==> 0 < |t.input| <= t.expected - s.expected
    ensures found ==>
              forall i :: 0 <= i < |t.input| ==> Look(s.list, t.expected - |t.input| + i) == Held(t.input[i])
  {
    hide Small, Wrap, Total;
    var n := if found then dropped + 1 else dropped;
    assert t.list == s.list[n..];
    forall q: nat
      ensures Look(t.list, q) == if q < t.expected then Absent else Look(s.list, q)
    {
      if n > 0 { DropLook(s.list, n, q); } else if q < t.expected { LookBefore(s.list, q); }
    }
    if found {
      var f := s.list[dropped];
      assert WellFormed(f);
      forall i | 0 <= i < |t.input|
        ensures Look(s.list, t.expected - |t.input| + i) == Held(t.input[i])
      {
        LookInside(s.list, dropped, f.begin + i);
      }
    }
  }

  /** What a segment does, by its position: one that is next in order is delivered up to the front of the list,
      and FIN takes a position of its own; every other one leaves expected and what was released as they are. */
  lemma AdjustedPlain(limit: int, s: State, pos: nat, fin: bool, packet: seq<Byte>, length: nat, r: int, skip: nat,
                      bytes: nat, stored: nat, t: State)
    requires length < |packet| && Adjusted(limit, s, pos, fin, packet, length, r, skip, bytes, stored, t)
    ensures r == 0 <==>
            pos == s.expected || pos < s.expected < pos + length || (pos > s.expected && length == 0 && !fin)
    ensures r == 0 ==> skip + bytes <= length && t.released == s.released + packet[skip..skip + bytes] &&
                       t.expected == s.expected + bytes + (if fin then 1 else 0)
    ensures r == 0 && length > 0 ==>
              skip == s.expected - pos &&
              s.expected + bytes == (if |s.list| > 0 && s.list[0].begin < pos + length then s.list[0].begin
                                     else pos + length)
    ensures r != 0 ==> t.expected == s.expected && t.released == s.released
    ensures r != 0 && (pos <= s.expected || length == 0) ==> r == 1 && t == s
  {
    hide Sorted, Holds, TailHeld;
  }

  lemma SliceJoin(stream: nat -> Byte, a: nat, b: nat, c: nat)
    requires a <= b <= c
    ensures Slice(stream, a, b) + Slice(stream, b, c) == Slice(stream, a, c)
  {
  }

  /** The list holds bytes of the stream only, and none before a position. */
  ghost predicate InStream(list: seq<Fragment>, stream: nat -> Byte, from: nat)
    requires Sorted(list)
  {
    forall q: nat :: Look(list, q).Held? ==> q >= from && Look(list, q).value == stream(q)
  }

  /** None of the positions is held. */
  ghost predicate Missing(list: seq<Fragment>, from: nat, length: nat)
    requires Sorted(list)
  {
    length > 0 && forall q: nat :: from <= q < from + length ==> Look(list, q).Absent?
  }

  lemma LookNothing(list: seq<Fragment>, from: nat, length: nat)
    requires Sorted(list) && list == [] && length > 0
    ensures Missing(list, from, length)
  {
  }

  /** A gap between neighbours. */
  lemma GapMissing(list: seq<Fragment>, k: nat, from: nat, length: nat)
    requires Sorted(list) && 0 < k <= |list| && length > 0
    requires list[k - 1].end < from && (k < |list| ==> from + length <= list[k].begin)
    ensures Missing(list, from, length)
  {
    hide Sorted;
    forall q: nat | from <= q < from + length
      ensures Look(list, q).Absent?
    {
      LookGap(list, k, q);
    }
  }

  /** All sequence numbers leave room for their successor in 32 bits. */
  ghost predicate Small(list: seq<Fragment>) {
    forall i :: 0 <= i < |list| ==> list[i].end < WORD32 - 1
  }

  /** The memory counter after the list has grown, with an overcharge. */
  function Charged(mem: nat, before: seq<Fragment>, after: seq<Fragment>, excess: nat): nat {
    Wrap(mem + Total(after) - Total(before) + excess)
  }

  lemma ChargedNothing(mem: nat, list: seq<Fragment>)
    requires mem < WORD32
    ensures Charged(mem, list, list, 0) == mem
  {
    ModSmall(mem, WORD32);
  }

  lemma ChargedInsert(mem: nat, before: seq<Fragment>, list: seq<Fragment>, k: nat, f: Fragment, excess: nat, more: nat)
    requires k <= |list|
    ensures Charged(mem, before, Inserted(list, k, f), excess + more) ==
            Wrap(Charged(mem, before, list, excess) + |f.data| + more)
  {
    InsertedTotal(list, k, f);
    var x, y := mem + Total(list) - Total(before) + excess, |f.data| + more;
    hide Total, Inserted;
    WrapAdd(x, y);
  }

  /** The counter keeps step with what is held. */
  lemma Recounted(mem: nat, before: seq<Fragment>, after: seq<Fragment>, over: nat, excess: nat)
    requires mem == Wrap(Total(before) + over)
    ensures Charged(mem, before, after, excess) == Wrap(Total(after) + (over + excess))
  {
    hide Total;
    WrapAdd(Total(before) + over, Total(after) - Total(before) + excess);
  }

  lemma WrapAdd(x: int, y: int)
    ensures Wrap(Wrap(x) + y) == Wrap(x + y)
  {
    DivModDef(x, WORD32);
    DivModDef(x % WORD32 + y, WORD32);
    MulDist(WORD32, x / WORD32, (x % WORD32 + y) / WORD32);
    ModUnique(x + y, WORD32, x / WORD32 + (x % WORD32 + y) / WORD32, (x % WORD32 + y) % WORD32);
  }

  lemma Neighbours(list: seq<Fragment>, i: nat)
    requires Sorted(list) && i < |list|
    ensures i + 1 < |list| ==> list[i].end < list[i + 1].begin
  {
  }

  lemma HoldsSorted(list: seq<Fragment>, before: seq<Fragment>, start: nat, bytes: seq<Byte>, m: nat)
    requires Holds(list, before, start, bytes, m)
    ensures Sorted(list)
  {
  }
}
