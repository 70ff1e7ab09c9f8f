/** A pair of memory BIOs: each writes into a ring buffer of its own and reads from the other's. */
module BioPair {
  import opened Bytes

  const WOLFSSL_FAILURE: int := 0
  const WOLFSSL_SUCCESS: int := 1
  const WOLFSSL_BIO_ERROR: int := -1
  const WOLFSSL_BIO_UNSET: int := -2
  const WOLFSSL_BIO_SIZE: nat := 17000

  //
  // The ring
  //

  /** The indices the operations keep to: the read index never stays at the end of the buffer. */
  predicate InRange(w: nat, r: nat, size: nat) {
    w <= size && r <= size && (r == size ==> size == 0) && (w == r ==> w < size || size == 0)
  }

  /** The state that reading and counting take for an empty run: everything from the read index on is
      pending, and the write index is at the start. */
  predicate WrappedToStart(w: nat, r: nat) {
    w == 0 < r
  }

  /** The bytes that wait in the buffer, oldest first. */
  function Pending(mem: seq<Byte>, w: nat, r: nat): seq<Byte>
    requires InRange(w, r, |mem|)
  {
    if w < r || (w == r && r > 0) then mem[r..] + mem[..w] else mem[r..w]
  }

  /** The length of the first contiguous run of pending bytes, as nread0 computes it. */
  function FirstRun(w: nat, r: nat, size: nat): int {
    if w > 0 && r >= w then size - r else w - r
  }

  /** The indices after n bytes have been read. */
  function AfterRead(w: nat, r: nat, size: nat, n: int): (int, int) {
    var r1 := r + n;
    var (w2, r2) := if r1 == size then (if w == size then 0 else w, 0) else (w, r1);
    if r2 == w2 then (0, 0) else (w2, r2)
  }

  /** Where nwrite puts the next byte and how much fits there; a size of zero means that it refuses. */
  function WriteRun(w: nat, r: nat, size: nat): (nat, int) {
    if w < r then (w, r - w)
    else if r > 0 && w == r then (w, 0)
    else if size - w > 0 then (w, size - w)
    else if r == 0 then (w, 0)
    else (0, r)
  }

  /** The write index after n bytes have been written from index at on. */
  function AfterWrite(at: nat, r: nat, size: nat, n: nat): nat {
    if at + n == size && r > 0 then 0 else at + n
  }

  function Least(x: int, y: int): int {
    if x < y then x else y
  }

  /** Reading outside the state WrappedToStart takes the oldest bytes. */
  lemma ReadTakes(mem: seq<Byte>, w: nat, r: nat, n: nat)
    requires InRange(w, r, |mem|) && !WrappedToStart(w, r) && n <= FirstRun(w, r, |mem|)
    ensures FirstRun(w, r, |mem|) >= 0 && (FirstRun(w, r, |mem|) == 0 <==> Pending(mem, w, r) == [])
    ensures n <= |Pending(mem, w, r)| && r + n <= |mem| && mem[r..r + n] == Pending(mem, w, r)[..n]
    ensures n > 0 ==>
              var (w', r') := AfterRead(w, r, |mem|, n);
              w' >= 0 && r' >= 0 && InRange(w', r', |mem|) && Pending(mem, w', r') == Pending(mem, w, r)[n..]
  {
  }

  /** Reading in the state WrappedToStart gives a negative count and drops all that was pending. */
  lemma ReadLoses(mem: seq<Byte>, w: nat, r: nat)
    requires InRange(w, r, |mem|) && WrappedToStart(w, r)
    ensures |Pending(mem, w, r)| == |mem| - r > 0
    ensures FirstRun(w, r, |mem|) == -(r as int) && AfterRead(w, r, |mem|, FirstRun(w, r, |mem|)) == (0, 0)
    ensures Pending(mem, 0, 0) == []
  {
  }

  /** A read can take all that is pending, up to the end of the buffer. */
  lemma ReadRoom(mem: seq<Byte>, w: nat, r: nat)
    requires InRange(w, r, |mem|) && !WrappedToStart(w, r)
    ensures FirstRun(w, r, |mem|) == Least(|Pending(mem, w, r)|, |mem| - r)
  {
  }

  /** A write begins where the next byte belongs, behind all that is pending, and can use all that is free,
      up to the end of the buffer; so it is refused exactly when the buffer is full. */
  lemma WriteRoom(mem: seq<Byte>, w: nat, r: nat)
    requires InRange(w, r, |mem|)
    ensures var (at, run) := WriteRun(w, r, |mem|); var next := r + |Pending(mem, w, r)|;
            (at == next || at == next - |mem|) && at <= |mem| && |Pending(mem, w, r)| <= |mem| &&
            run == Least(|mem| - |Pending(mem, w, r)|, |mem| - at) &&
            (run == 0 <==> |Pending(mem, w, r)| == |mem|)
  {
  }

  /** Written bytes follow what is pending, whatever they are. */
  lemma WriteAppends(mem: seq<Byte>, mem': seq<Byte>, w: nat, r: nat, n: nat)
    requires InRange(w, r, |mem|) && |mem'| == |mem|
    requires var (at, run) := WriteRun(w, r, |mem|);
             0 < n <= run && at + n <= |mem| && mem'[..at] == mem[..at] && mem'[at + n..] == mem[at + n..]
    ensures var (at, run) := WriteRun(w, r, |mem|); var w' := AfterWrite(at, r, |mem|, n);
            InRange(w', r, |mem|) && Pending(mem', w', r) == Pending(mem, w, r) + mem'[at..at + n]
  {
    var (at, run) := WriteRun(w, r, |mem|);
    var w' := AfterWrite(at, r, |mem|, n);
    JoinHead(mem, mem', at, n);
    if w < r {
      KeepTail(mem, mem', at + n, r);
      assert Pending(mem', w', r) == mem'[r..] + mem'[..at + n];
    } else if at == w {
      JoinMiddle(mem, mem', at, n, r);
      assert Pending(mem', w', r) == mem'[r..at + n];
    } else {
      KeepTail(mem, mem', n, r);
      assert mem[r..w] == mem[r..];
      assert Pending(mem', w', r) == mem'[r..] + mem'[..n];
    }
  }

  lemma JoinHead(mem: seq<Byte>, mem': seq<Byte>, at: nat, n: nat)
    requires |mem'| == |mem| && at + n <= |mem| && mem'[..at] == mem[..at]
    ensures mem'[..at + n] == mem[..at] + mem'[at..at + n]
  {
  }

  lemma KeepTail(mem: seq<Byte>, mem': seq<Byte>, from: nat, r: nat)
    requires |mem'| == |mem| && from <= r <= |mem| && mem'[from..] == mem[from..]
    ensures mem'[r..] == mem[r..]
  {
    assert mem'[r..] == mem'[from..][r - from..] && mem[r..] == mem[from..][r - from..];
  }

  lemma JoinMiddle(mem: seq<Byte>, mem': seq<Byte>, at: nat, n: nat, r: nat)
    requires |mem'| == |mem| && r <= at && at + n <= |mem| && mem'[..at] == mem[..at]
    ensures mem'[r..at + n] == mem[r..at] + mem'[at..at + n]
  {
    assert mem'[r..at] == mem'[..at][r..] && mem[r..at] == mem[..at][r..];
    assert mem'[r..at + n] == mem'[r..at] + mem'[at..at + n];
  }

  /** A write leaves the state WrappedToStart exactly when it fills the buffer to its end with bytes
      read before; a read never does. */
  lemma WhenWrapped(mem: seq<Byte>, w: nat, r: nat, n: nat)
    requires InRange(w, r, |mem|) && 0 < n
    ensures var (at, run) := WriteRun(w, r, |mem|);
            n <= run ==> (WrappedToStart(AfterWrite(at, r, |mem|, n), r) <==> at + n == |mem| && r > 0)
    ensures !WrappedToStart(w, r) && n <= FirstRun(w, r, |mem|) ==>
              var (w', r') := AfterRead(w, r, |mem|, n); !(w' == 0 < r')
  {
  }

  //
  // Whole runs
  //

  datatype Ring = Ring(mem: seq<Byte>, w: nat, r: nat)

  ghost predicate Good(s: Ring) {
    InRange(s.w, s.r, |s.mem|)
  }

  /** wolfSSL_BIO_BIO_write: the new ring and the result. */
  function Put(s: Ring, data: seq<Byte>): (Ring, int)
    requires Good(s)
  {
    var (at, run) := WriteRun(s.w, s.r, |s.mem|);
    if |data| == 0 then (s, 0)
    else if run <= 0 then (s, WOLFSSL_BIO_ERROR)
    else
      WriteRoom(s.mem, s.w, s.r);
      var n := if |data| < run then |data| else run;
      (Ring(s.mem[..at] + data[..n] + s.mem[at + n..], AfterWrite(at, s.r, |s.mem|, n), s.r), n)
  }

  /** wolfSSL_BIO_BIO_read outside the state WrappedToStart: the new ring, the result and the bytes. */
  function Take(s: Ring, n: nat): (Ring, int, seq<Byte>)
    requires Good(s) && !WrappedToStart(s.w, s.r)
  {
    ReadTakes(s.mem, s.w, s.r, 0);
    var run := FirstRun(s.w, s.r, |s.mem|);
    if n == 0 then (s, 0, [])
    else if run == 0 then (s, WOLFSSL_BIO_ERROR, [])
    else
      var size := if n < run then n else run;
      ReadTakes(s.mem, s.w, s.r, size);
      var (w, r) := AfterRead(s.w, s.r, |s.mem|, size);
      (Ring(s.mem, w, r), size, s.mem[s.r..s.r + size])
  }

  lemma PutAppends(s: Ring, data: seq<Byte>)
    requires Good(s)
    ensures var (t, n) := Put(s, data);
            Good(t) && |t.mem| == |s.mem| && t.r == s.r && (n <= 0 ==> t == s) &&
            (n == WOLFSSL_BIO_ERROR <==> |data| > 0 && |Pending(s.mem, s.w, s.r)| == |s.mem|) &&
            (n != WOLFSSL_BIO_ERROR ==> 0 <= n <= |data| && (|data| > 0 ==> n > 0) &&
                                        Pending(t.mem, t.w, t.r) == Pending(s.mem, s.w, s.r) + data[..n])
  {
    WriteRoom(s.mem, s.w, s.r);
    var (t, n) := Put(s, data);
    if n > 0 {
      var at := WriteRun(s.w, s.r, |s.mem|).0;
      assert t.mem[at..at + n] == data[..n];
      assert t.mem[..at] == s.mem[..at] && t.mem[at + n..] == s.mem[at + n..];
      WriteAppends(s.mem, t.mem, s.w, s.r, n);
    }
  }

  lemma TakeRemoves(s: Ring, n: nat)
    requires Good(s) && !WrappedToStart(s.w, s.r)
    ensures var (t, size, bytes) := Take(s, n);
            Good(t) && |t.mem| == |s.mem| && Pending(s.mem, s.w, s.r) == bytes + Pending(t.mem, t.w, t.r) &&
            (size == WOLFSSL_BIO_ERROR <==> n > 0 && Pending(s.mem, s.w, s.r) == []) &&
            (size != WOLFSSL_BIO_ERROR ==> size == |bytes| && size <= n && (n > 0 ==> size > 0))
  {
    hide Pending, AfterRead;
    var (t, size, bytes) := Take(s, n);
    var p := Pending(s.mem, s.w, s.r);
    ReadTakes(s.mem, s.w, s.r, 0);
    if size > 0 {
      ReadTakes(s.mem, s.w, s.r, size);
      assert p == p[..size] + p[size..];
    }
  }

  /** A write that accepts fewer bytes than it was given leaves the buffer full or has reached its end. */
  lemma ShortWrite(s: Ring, data: seq<Byte>)
    requires Good(s)
    ensures var (t, n) := Put(s, data); var (at, _) := WriteRun(s.w, s.r, |s.mem|);
            0 <= n < |data| ==> Good(t) && (|Pending(t.mem, t.w, t.r)| == |t.mem| || at + n == |t.mem|)
  {
    hide Pending, Put;
    PutAppends(s, data);
    WriteRoom(s.mem, s.w, s.r);
    PutSize(s, data);
  }

  lemma PutSize(s: Ring, data: seq<Byte>)
    requires Good(s)
    ensures var (at, run) := WriteRun(s.w, s.r, |s.mem|);
            |data| > 0 && run > 0 ==> Put(s, data).1 == Least(|data|, run)
  {
  }

  /** A read that returns fewer bytes than it was asked for leaves nothing or has reached the end of the buffer. */
  lemma ShortRead(s: Ring, n: nat)
    requires Good(s) && !WrappedToStart(s.w, s.r)
    ensures var (t, size, _) := Take(s, n);
            0 <= size < n ==> Good(t) && (Pending(t.mem, t.w, t.r) == [] || s.r + size == |s.mem|)
  {
    hide Pending, AfterRead;
    var (t, size, bytes) := Take(s, n);
    TakeRemoves(s, n);
    ReadTakes(s.mem, s.w, s.r, 0);
    ReadRoom(s.mem, s.w, s.r);
  }

  datatype Call = Write(data: seq<Byte>) | Read(n: nat)

  /** No read of the run starts in the state WrappedToStart. */
  ghost predicate Clean(s: Ring, calls: seq<Call>)
    requires Good(s)
    decreases |calls|
  {
    |calls| == 0 ||
    match calls[0]
    case Write(data) => PutAppends(s, data); Clean(Put(s, data).0, calls[1..])
    case Read(n) => !WrappedToStart(s.w, s.r) && (TakeRemoves(s, n); Clean(Take(s, n).0, calls[1..]))
  }

  /** The ring after a run, what its writes accepted and what its reads returned. */
  ghost function After(s: Ring, calls: seq<Call>): (r: (Ring, seq<Byte>, seq<Byte>))
    requires Good(s) && Clean(s, calls)
    decreases |calls|
  {
    if |calls| == 0 then (s, [], []) else
    match calls[0]
    case Write(data) =>
      PutAppends(s, data);
      var (t, n) := Put(s, data);
      var (u, written, taken) := After(t, calls[1..]);
      (u, (if n > 0 then data[..n] else []) + written, taken)
    case Read(n) =>
      TakeRemoves(s, n);
      var (t, size, bytes) := Take(s, n);
      var (u, written, taken) := After(t, calls[1..]);
      (u, written, bytes + taken)
  }

  /** The pair is a FIFO: over every clean run, what was pending and what was written is what was read
      and what is pending. */
  lemma {:induction false} RunIsFifo(s: Ring, calls: seq<Call>)
    requires Good(s) && Clean(s, calls)
    ensures var (t, written, taken) := After(s, calls);
            Good(t) && |t.mem| == |s.mem| && Pending(s.mem, s.w, s.r) + written == taken + Pending(t.mem, t.w, t.r)
    decreases |calls|
  {
    hide Pending, Put, Take, InRange;
    if |calls| == 0 {
      Nothing(Pending(s.mem, s.w, s.r));
    } else {
      match calls[0]
      case Write(data) =>
        PutAppends(s, data);
        var (t, n) := Put(s, data);
        RunIsFifo(t, calls[1..]);
        var (u, written, taken) := After(t, calls[1..]);
        WriteFirst(Pending(s.mem, s.w, s.r), Pending(t.mem, t.w, t.r), if n > 0 then data[..n] else [], written);
      case Read(n) =>
        TakeRemoves(s, n);
        var (t, size, bytes) := Take(s, n);
        RunIsFifo(t, calls[1..]);
        var (u, written, taken) := After(t, calls[1..]);
        ReadFirst(Pending(t.mem, t.w, t.r), Pending(u.mem, u.w, u.r), bytes, written, taken);
    }
  }

  lemma Nothing(p: seq<Byte>)
    ensures p + [] == [] + p
  {
    assert p + [] == p && [] + p == p;
  }

  lemma WriteFirst(p: seq<Byte>, q: seq<Byte>, front: seq<Byte>, written: seq<Byte>)
    requires q == p + front || (front == [] && q == p)
    ensures q + written == p + (front + written)
  {
    assert (p + front) + written == p + (front + written);
    if front == [] { assert p + front == p; }
  }

  lemma ReadFirst(p: seq<Byte>, q: seq<Byte>, bytes: seq<Byte>, written: seq<Byte>, taken: seq<Byte>)
    requires p + written == taken + q
    ensures (bytes + p) + written == (bytes + taken) + q
  {
    assert (bytes + p) + written == bytes + (p + written);
    assert (bytes + taken) + q == bytes + (taken + q);
  }

  /** A run that is not one: three bytes of four written, one read, one written, and the next
      read returns -1 and drops all three bytes that wait. */
  lemma RunThatLoses()
    ensures var start := Ring([0, 0, 0, 0], 0, 0);
            Good(start) &&
            var s1 := Put(start, [1, 2, 3]).0;
            Good(s1) && !WrappedToStart(s1.w, s1.r) &&
            var s2 := Take(s1, 1).0;
            Good(s2) &&
            var s3 := Put(s2, [4]).0;
            Good(s3) && WrappedToStart(s3.w, s3.r) && Pending(s3.mem, s3.w, s3.r) == [2, 3, 4] &&
            FirstRun(s3.w, s3.r, 4) == -1 && AfterRead(s3.w, s3.r, 4, -1) == (0, 0)
  {
    var start := Ring([0, 0, 0, 0], 0, 0);
    var s1 := Put(start, [1, 2, 3]).0;
    assert s1 == Ring([1, 2, 3, 0], 3, 0) by { assert s1.mem == [] + [1, 2, 3] + [0]; }
    var s2 := Take(s1, 1).0;
    assert s2 == Ring([1, 2, 3, 0], 3, 1);
    var s3 := Put(s2, [4]).0;
    assert s3 == Ring([1, 2, 3, 4], 0, 1) by { assert s3.mem == [1, 2, 3] + [4] + []; }
    assert Pending(s3.mem, 0, 1) == s3.mem[1..] + s3.mem[..0];
  }

  //
  // The objects
  //

  datatype Kind = BioBio | Memory | Other

  /** WOLFSSL_BIO, as far as pairs use it. mem is the buffer that this BIO writes and its pair reads. */
  class Bio {
    var kind: Kind
    var mem: array?<Byte>
    var wrSz: nat
    var wrIdx: int
    var rdIdx: int
    var pair: Bio?

    constructor (kind: Kind)
      ensures this.kind == kind && mem == null && pair == null && wrSz == 0 && wrIdx == 0 && rdIdx == 0
    {
      this.kind, mem, pair, wrSz, wrIdx, rdIdx := kind, null, null, 0, 0, 0;
    }

    /** The buffer is there, and the indices are in range. */
    ghost predicate Valid()
      reads this
    {
      mem != null && mem.Length == wrSz && wrIdx >= 0 && rdIdx >= 0 && InRange(wrIdx, rdIdx, wrSz)
    }

    ghost function Value(): Ring
      requires Valid()
      reads this, mem
    {
      Ring(mem[..], wrIdx, rdIdx)
    }

    /** wolfSSL_BIO_set_write_buf_size; the allocation succeeds. */
    method SetWriteBufSize(size: int) returns (code: int)
      modifies this
      ensures code == WOLFSSL_FAILURE || code == WOLFSSL_SUCCESS
      ensures code == WOLFSSL_SUCCESS <==> old(kind == BioBio && pair == null) && size >= 0
      ensures code == WOLFSSL_SUCCESS ==> Valid() && fresh(mem) && wrSz == size && Pending(mem[..], wrIdx, rdIdx) == []
      ensures kind == old(kind) && pair == old(pair)
      ensures code == WOLFSSL_FAILURE ==>
                mem == old(mem) && wrSz == old(wrSz) && wrIdx == old(wrIdx) && rdIdx == old(rdIdx)
    {
      if kind != BioBio || size < 0 {
        return WOLFSSL_FAILURE;
      }
      if pair != null {
        return WOLFSSL_FAILURE;
      }
      wrSz := size;
      mem := new Byte[size];
      wrIdx := 0;
      rdIdx := 0;
      return WOLFSSL_SUCCESS;
    }

    /** wolfSSL_BIO_ctrl_pending: the number of bytes the pair has waiting for this BIO, except in the
        state WrappedToStart, where the count is negative before it is made unsigned. */
    method CtrlPending() returns (count: int)
      requires kind == BioBio && (pair != null ==> pair.Valid())
      ensures pair == null ==> count == 0
      ensures pair != null && !WrappedToStart(pair.wrIdx, pair.rdIdx) ==>
                count == |Pending(pair.mem[..], pair.wrIdx, pair.rdIdx)|
      ensures pair != null && WrappedToStart(pair.wrIdx, pair.rdIdx) ==> count == -(pair.rdIdx as int)
    {
      if pair == null {
        return 0;
      }
      if pair.wrIdx > 0 && pair.wrIdx <= pair.rdIdx {
        return pair.wrSz - pair.rdIdx + pair.wrIdx;
      } else {
        return pair.wrIdx - pair.rdIdx;
      }
    }

    /** wolfSSL_BIO_nread0: where the oldest byte is and how many follow it without a break. */
    method Nread0() returns (buf: nat, sz: int)
      requires pair != null ==> pair.Valid()
      ensures pair == null ==> sz == 0
      ensures pair != null ==> buf == pair.rdIdx && sz == FirstRun(pair.wrIdx, pair.rdIdx, pair.wrSz)
    {
      buf := 0;
      if pair != null {
        buf := pair.rdIdx;
        if pair.wrIdx > 0 && pair.rdIdx >= pair.wrIdx {
          return buf, pair.wrSz - pair.rdIdx;
        } else {
          return buf, pair.wrIdx - pair.rdIdx;
        }
      }
      return buf, 0;
    }

    /** wolfSSL_BIO_nread: the bytes at buf are the oldest ones, and they are gone afterwards; in the
        state WrappedToStart nothing is returned and everything is gone. A negative count is not checked and
        moves the read index back. */
    method Nread(num: int) returns (buf: nat, sz: int)
      requires kind != Memory && (pair != null ==> pair.Valid())
      modifies pair
      ensures pair == old(pair) && (pair == null ==> sz == WOLFSSL_BIO_UNSET)
      ensures pair != null ==>
                pair.mem == old(pair.mem) && pair.wrSz == old(pair.wrSz) && pair.kind == old(pair.kind) &&
                pair.pair == old(pair.pair)
      ensures pair != null && num >= 0 ==> pair.Valid()
      ensures pair != null && !WrappedToStart(old(pair.wrIdx), old(pair.rdIdx)) && num >= 0 ==>
                var (t, n, bytes) := Take(old(pair.Value()), num);
                pair.Value() == t && sz == n && buf == old(pair.rdIdx)
      ensures pair != null && num == 0 ==> sz == 0 && pair.wrIdx == old(pair.wrIdx) && pair.rdIdx == old(pair.rdIdx)
      ensures pair != null && !WrappedToStart(old(pair.wrIdx), old(pair.rdIdx)) && num > 0 ==>
                var waits := |Pending(pair.mem[..], old(pair.wrIdx), buf)|;
                if waits == 0 then sz == WOLFSSL_BIO_ERROR else sz == Least(num, Least(waits, pair.wrSz - buf))
      ensures pair != null && WrappedToStart(old(pair.wrIdx), old(pair.rdIdx)) && num > 0 ==>
                sz == -(old(pair.rdIdx) as int) && Pending(pair.mem[..], pair.wrIdx, pair.rdIdx) == []
      ensures pair != null && num != 0 ==>
                var w, r := old(pair.wrIdx), old(pair.rdIdx); var run := FirstRun(w, r, pair.wrSz);
                if run == 0 then sz == WOLFSSL_BIO_ERROR && pair.wrIdx == w && pair.rdIdx == r
                else sz == Least(num, run) && (pair.wrIdx, pair.rdIdx) == AfterRead(w, r, pair.wrSz, sz)
    {
      hide Pending, AfterRead;
      buf, sz := 0, WOLFSSL_BIO_UNSET;
      if pair != null {
        if num == 0 {
          return pair.rdIdx, 0;
        }
        buf, sz := Nread0();
        if sz == 0 {
          if !WrappedToStart(pair.wrIdx, pair.rdIdx) { ReadTakes(pair.mem[..], pair.wrIdx, pair.rdIdx, 0); }
          return buf, WOLFSSL_BIO_ERROR;
        }
        if num < sz {
          sz := num;
        }
        ghost var mem, w, r := pair.mem[..], pair.wrIdx, pair.rdIdx;
        if WrappedToStart(w, r) {
          ReadLoses(mem, w, r);
        } else {
          ReadTakes(mem, w, r, 0);
          ReadRoom(mem, w, r);
          if sz >= 0 { ReadTakes(mem, w, r, sz); }
        }
        pair.AdvanceRead(sz);
      }
    }

    /** The read index moves on, back to the start at the end of the buffer and when nothing is left. */
    method AdvanceRead(n: int)
      requires wrIdx >= 0 && rdIdx >= 0
      modifies `wrIdx, `rdIdx
      ensures (wrIdx, rdIdx) == AfterRead(old(wrIdx), old(rdIdx), wrSz, n)
    {
      rdIdx := rdIdx + n;
      if rdIdx == wrSz {
        rdIdx := 0;
        if wrIdx == wrSz {
          wrIdx := 0;
        }
      }
      if rdIdx == wrIdx {
        rdIdx := 0;
        wrIdx := 0;
      }
    }

    /** wolfSSL_BIO_nwrite: room for sz bytes at buf. They count as pending from now on, whatever the
        caller stores there; -1 is returned exactly when the buffer is full. A negative count is not checked
        and moves the write index back. */
    method Nwrite(num: int) returns (buf: nat, sz: int)
      requires kind == BioBio && pair != null ==> Valid()
      modifies this`wrIdx
      ensures kind != BioBio ==> sz == WOLFSSL_FAILURE
      ensures kind == BioBio && pair == null ==> sz == WOLFSSL_BIO_UNSET
      ensures kind != BioBio || pair == null ==> wrIdx == old(wrIdx)
      ensures kind == BioBio && pair != null ==>
                (num >= 0 ==> Valid()) &&
                var (at, run) := WriteRun(old(wrIdx), rdIdx, wrSz);
                if num == 0 || run == 0 then wrIdx == old(wrIdx) && sz == (if num == 0 then 0 else WOLFSSL_BIO_ERROR)
                else sz == Least(num, run) && buf == at &&
                     wrIdx == if sz < 0 then at + sz else AfterWrite(at, rdIdx, wrSz, sz)
      ensures kind == BioBio && pair != null && num > 0 ==>
                var waits := |Pending(mem[..], old(wrIdx), rdIdx)|;
                (sz == WOLFSSL_BIO_ERROR <==> waits == wrSz) &&
                (sz != WOLFSSL_BIO_ERROR ==> sz == Least(num, Least(wrSz - waits, wrSz - buf)))
    {
      buf, sz := 0, WOLFSSL_BIO_UNSET;
      if kind != BioBio {
        return 0, WOLFSSL_FAILURE;
      }
      if pair != null {
        if num == 0 {
          return wrIdx, 0;
        }
        ghost var m := mem[..];
        WriteRoom(m, wrIdx, rdIdx);
        ghost var (at, run) := WriteRun(wrIdx, rdIdx, wrSz);
        if wrIdx < rdIdx {
          sz := rdIdx - wrIdx;
        } else if rdIdx > 0 && wrIdx == rdIdx {
          return 0, WOLFSSL_BIO_ERROR;
        } else {
          sz := wrSz - wrIdx;
          if sz <= 0 {
            if rdIdx == 0 {
              return 0, WOLFSSL_BIO_ERROR;
            }
            wrIdx := 0;
            if rdIdx > 0 {
              sz := rdIdx;
            } else {
              sz := wrSz;
            }
          }
        }
        if num < sz {
          sz := num;
        }
        buf := wrIdx;
        if sz > 0 { WriteKeepsRange(m, old(wrIdx), rdIdx, sz); }
        wrIdx := wrIdx + sz;
        if wrIdx == wrSz && rdIdx > 0 {
          wrIdx := 0;
        }
      }
    }

    /** wolfSSL_BIO_BIO_write */
    method Write(data: seq<Byte>) returns (sz: int)
      requires kind == BioBio && (pair != null ==> Valid())
      modifies this`wrIdx, mem
      ensures pair == null ==> sz == WOLFSSL_BIO_UNSET && wrIdx == old(wrIdx)
      ensures pair != null ==> Valid() && mem == old(mem) && (Value(), sz) == Put(old(Value()), data)
    {
      hide Pending, WriteRun, AfterWrite, InRange;
      ghost var before := if pair != null then Value() else Ring([], 0, 0);
      if pair != null { WriteRoom(before.mem, before.w, before.r); }
      var buf;
      buf, sz := Nwrite(|data|);
      if sz <= 0 {
        return sz;
      }
      CopyIn(buf, data, sz);
    }

    /** Copies the first n bytes of the data to buf. */
    method CopyIn(buf: nat, data: seq<Byte>, n: nat)
      requires mem != null && n <= |data| && buf + n <= mem.Length
      modifies mem
      ensures mem[..] == old(mem[..buf]) + data[..n] + old(mem[buf + n..])
    {
      var i := 0;
      while i < n
        invariant 0 <= i <= n
        invariant mem[..buf] == old(mem[..buf]) && mem[buf..buf + i] == data[..i] &&
                  mem[buf + n..] == old(mem[buf + n..])
      {
        mem[buf + i] := data[i];
        assert mem[buf..buf + i + 1] == mem[buf..buf + i] + [data[i]];
        i := i + 1;
      }
      assert mem[..] == mem[..buf] + mem[buf..buf + n] + mem[buf + n..];
    }

    /** wolfSSL_BIO_BIO_read: the oldest bytes move to the buffer; in the state WrappedToStart nothing is
        copied and everything is gone. */
    method Read(buf: array<Byte>, len: int) returns (sz: int)
      requires kind == BioBio && len <= buf.Length && (pair != null ==> pair.Valid() && buf != pair.mem)
      modifies pair, buf
      ensures pair == old(pair) && (pair == null ==> sz == WOLFSSL_BIO_UNSET)
      ensures pair != null ==>
                pair.mem == old(pair.mem) && pair.wrSz == old(pair.wrSz) && pair.kind == old(pair.kind) &&
                pair.pair == old(pair.pair)
      ensures pair != null && len >= 0 ==> pair.Valid()
      ensures pair != null && !WrappedToStart(old(pair.wrIdx), old(pair.rdIdx)) && len >= 0 ==>
                var (t, n, bytes) := Take(old(pair.Value()), len);
                pair.Value() == t && sz == n && |bytes| <= buf.Length && buf[..|bytes|] == bytes &&
                buf[|bytes|..] == old(buf[|bytes|..])
      ensures pair != null && WrappedToStart(old(pair.wrIdx), old(pair.rdIdx)) && len > 0 ==>
                sz == -(old(pair.rdIdx) as int) && buf[..] == old(buf[..]) &&
                Pending(pair.mem[..], pair.wrIdx, pair.rdIdx) == []
      ensures pair != null && len < 0 ==>
                buf[..] == old(buf[..]) &&
                var w, r := old(pair.wrIdx), old(pair.rdIdx); var run := FirstRun(w, r, pair.wrSz);
                if run == 0 then sz == WOLFSSL_BIO_ERROR && pair.wrIdx == w && pair.rdIdx == r
                else sz == Least(len, run) && (pair.wrIdx, pair.rdIdx) == AfterRead(w, r, pair.wrSz, sz)
    {
      hide Pending, FirstRun, AfterRead, InRange;
      ghost var before := if pair != null then pair.Value() else Ring([], 0, 0);
      if pair != null && !WrappedToStart(pair.wrIdx, pair.rdIdx) && len >= 0 { TakeShape(before, len); }
      var pt;
      pt, sz := Nread(len);
      if sz > 0 {
        pair.CopyOut(pt, buf, sz);
      }
    }

    /** Copies n bytes from pt to the front of buf. */
    method CopyOut(pt: nat, buf: array<Byte>, n: nat)
      requires mem != null && pt + n <= mem.Length && n <= buf.Length && buf != mem
      modifies buf
      ensures buf[..n] == mem[pt..pt + n] && buf[n..] == old(buf[n..])
    {
      var i := 0;
      while i < n
        invariant 0 <= i <= n
        invariant buf[..i] == mem[pt..pt + i] && buf[n..] == old(buf[n..])
      {
        buf[i] := mem[pt + i];
        assert mem[pt..pt + i + 1] == mem[pt..pt + i] + [mem[pt + i]];
        assert buf[..i + 1] == buf[..i] + [buf[i]];
        i := i + 1;
      }
    }
  }

  /** Where the bytes of a read come from. */
  lemma TakeShape(s: Ring, n: nat)
    requires Good(s) && !WrappedToStart(s.w, s.r)
    ensures var (t, size, bytes) := Take(s, n);
            t.mem == s.mem && (size > 0 ==> size <= n && s.r + size <= |s.mem| && bytes == s.mem[s.r..s.r + size]) &&
            (size <= 0 ==> bytes == [])
  {
    hide Pending, AfterRead;
    var (t, size, bytes) := Take(s, n);
    ReadTakes(s.mem, s.w, s.r, 0);
    if size > 0 { ReadTakes(s.mem, s.w, s.r, size); }
  }

  lemma WriteKeepsRange(mem: seq<Byte>, w: nat, r: nat, n: int)
    requires InRange(w, r, |mem|) && 0 < n <= WriteRun(w, r, |mem|).1
    ensures var at := WriteRun(w, r, |mem|).0; at + n <= |mem| && InRange(AfterWrite(at, r, |mem|, n), r, |mem|)
  {
  }

  /** wolfSSL_BIO_make_bio_pair; the default size is used for a buffer that was not set. */
  method MakePair(b1: Bio, b2: Bio) returns (code: int)
    requires (b1.mem != null ==> b1.Valid()) && (b2.mem != null ==> b2.Valid())
    modifies b1, b2
    ensures code == WOLFSSL_SUCCESS <==>
            old(b1.kind == BioBio && b2.kind == BioBio && b1.pair == null && b2.pair == null)
    ensures code == WOLFSSL_SUCCESS || code == WOLFSSL_FAILURE
    ensures code == WOLFSSL_SUCCESS ==>
              b1.pair == b2 && b2.pair == b1 && b1.Valid() && b2.Valid() &&
              (old(b1.mem) == null ==> b1.wrSz == WOLFSSL_BIO_SIZE && Pending(b1.mem[..], b1.wrIdx, b1.rdIdx) == []) &&
              (old(b2.mem) == null ==> b2.wrSz == WOLFSSL_BIO_SIZE && Pending(b2.mem[..], b2.wrIdx, b2.rdIdx) == [])
  {
    if b1.kind != BioBio || b2.kind != BioBio || b1.pair != null || b2.pair != null {
      return WOLFSSL_FAILURE;
    }
    if b1.mem == null {
      var c1 := b1.SetWriteBufSize(WOLFSSL_BIO_SIZE);
      if c1 != WOLFSSL_SUCCESS { return WOLFSSL_FAILURE; }
    }
    if b2.mem == null {
      var c2 := b2.SetWriteBufSize(WOLFSSL_BIO_SIZE);
      if c2 != WOLFSSL_SUCCESS { return WOLFSSL_FAILURE; }
    }
    b1.pair := b2;
    b2.pair := b1;
    return WOLFSSL_SUCCESS;
  }
}
