/** Messages between virtual machines: hypercalls that put messages into the ring queue of a virtual
    CPU and take them out. */
module InterVm {
  import opened Arith
  import opened Bytes

  const MESSAGELIST_SZ: nat := 5
  const MESSAGE_SZ: nat := 255
  const MESSAGE_VCPU_NOT_FOUND: int := -1
  const MESSAGE_FULL: int := -2
  const MESSAGE_TOO_BIG: int := -3
  const MESSAGE_EMPTY: int := -4
  const MESSAGE_VCPU_NOT_INIT: int := -5

  /** message_t: a slot keeps all its bytes, of which the first size count. */
  datatype Slot = Slot(sourceId: nat, size: nat, message: seq<Byte>)

  /** A message as its sender meant it. */
  datatype Message = Message(sourceId: nat, data: seq<Byte>)

  predicate SlotOk(s: Slot) {
    |s.message| == MESSAGE_SZ && s.size <= MESSAGE_SZ
  }

  function Meaning(s: Slot): Message
    requires SlotOk(s)
  {
    Message(s.sourceId, s.message[..s.size])
  }

  /** The slot k places behind index i. */
  function SlotAt(i: nat, k: nat): (r: nat)
    ensures r < MESSAGELIST_SZ
  {
    (i + k) % MESSAGELIST_SZ
  }

  /** The n messages from slot out on, oldest first. */
  function Queue(slots: seq<Slot>, out': nat, n: nat): (r: seq<Message>)
    requires |slots| == MESSAGELIST_SZ && forall s :: s in slots ==> SlotOk(s)
    ensures |r| == n
  {
    seq(n, k requires 0 <= k < n => Meaning(slots[SlotAt(out', k)]))
  }

  /** Distinct places in one round of the ring are distinct slots. */
  lemma SlotsDistinct(i: nat, j: nat, k: nat)
    requires i < MESSAGELIST_SZ && j < k < MESSAGELIST_SZ
    ensures SlotAt(i, j) != SlotAt(i, k)
  {
  }

  lemma SlotNext(i: nat, k: nat)
    ensures SlotAt(SlotAt(i, 1), k) == SlotAt(i, k + 1)
  {
    DivModDef(i + 1, MESSAGELIST_SZ);
    var q, r := (i + 1) / MESSAGELIST_SZ, (i + 1) % MESSAGELIST_SZ;
    DivModDef(r + k, MESSAGELIST_SZ);
    ModUnique(i + k + 1, MESSAGELIST_SZ, q + (r + k) / MESSAGELIST_SZ, (r + k) % MESSAGELIST_SZ);
  }

  /** A message stored behind the last one joins the queue at its end. */
  lemma QueueAppend(slots: seq<Slot>, out': nat, n: nat, s: Slot)
    requires |slots| == MESSAGELIST_SZ && (forall s :: s in slots ==> SlotOk(s)) && SlotOk(s)
    requires out' < MESSAGELIST_SZ && n < MESSAGELIST_SZ
    ensures var slots' := slots[SlotAt(out', n) := s];
            (forall s :: s in slots' ==> SlotOk(s)) &&
            Queue(slots', out', n + 1) == Queue(slots, out', n) + [Meaning(s)]
  {
    hide SlotAt, SlotOk, Meaning;
    var slots' := slots[SlotAt(out', n) := s];
    forall k | 0 <= k < n
      ensures Queue(slots', out', n + 1)[k] == Queue(slots, out', n)[k]
    {
      SlotsDistinct(out', k, n);
    }
  }

  /** The oldest message leaves the queue when the read index moves on. */
  lemma QueueRemove(slots: seq<Slot>, out': nat, n: nat)
    requires |slots| == MESSAGELIST_SZ && (forall s :: s in slots ==> SlotOk(s))
    requires out' < MESSAGELIST_SZ && n > 0
    ensures Queue(slots, out', n) == [Meaning(slots[out'])] + Queue(slots, SlotAt(out', 1), n - 1)
  {
    hide SlotOk, Meaning;
    assert SlotAt(out', 0) == out';
    hide SlotAt;
    var rest, tail := Queue(slots, SlotAt(out', 1), n - 1), Queue(slots, out', n)[1..];
    forall k | 0 <= k < |rest|
      ensures rest[k] == tail[k]
    {
      SlotNext(out', k);
    }
  }

  /** vcpu_t, as far as messages go. The ghost fields are the messages accepted and delivered so far. */
  class Vcpu {
    const id: nat
    var init: bool
    var interrupt: bool
    var in': nat
    var out': nat
    var numMessages: nat
    const messageList: array<Slot>
    ghost var accepted: seq<Message>
    ghost var delivered: seq<Message>

    /** The messages that wait. */
    ghost function Waiting(): seq<Message>
      requires messageList.Length == MESSAGELIST_SZ && forall s :: s in messageList[..] ==> SlotOk(s)
      reads this, messageList
    {
      Queue(messageList[..], out', numMessages)
    }

    /** The indices agree with the count, and what was accepted is what was delivered, followed by
        what waits. */
    ghost predicate Valid()
      reads this, messageList
    {
      messageList.Length == MESSAGELIST_SZ && (forall s :: s in messageList[..] ==> SlotOk(s)) &&
      out' < MESSAGELIST_SZ && numMessages <= MESSAGELIST_SZ && in' == SlotAt(out', numMessages) &&
      accepted == delivered + Waiting()
    }

    /** An empty queue of a CPU that has not run yet. */
    constructor (id: nat)
      ensures Valid() && accepted == [] && delivered == [] && fresh(messageList) && this.id == id
      ensures init && !interrupt
    {
      this.id := id;
      init, interrupt, in', out', numMessages := true, false, 0, 0, 0;
      messageList := new Slot[MESSAGELIST_SZ](_ => Slot(0, 0, seq(MESSAGE_SZ, _ => 0)));
      accepted, delivered := [], [];
      new;
      assert Waiting() == [];
    }

    /** The CPU runs for the first time. */
    method Start()
      requires Valid()
      modifies `init
      ensures Valid() && !init
    {
      init := false;
    }

    /** The copy into the queue, once a message has passed the checks. */
    method Store(source: nat, data: seq<Byte>)
      requires Valid() && |data| <= MESSAGE_SZ && numMessages < MESSAGELIST_SZ
      modifies this, messageList
      ensures Valid() && interrupt && init == old(init)
      ensures accepted == old(accepted) + [Message(source, data)] && delivered == old(delivered)
    {
      hide Queue, SlotAt;
      var previous := messageList[in'];
      assert previous in messageList[..];
      var slot := Slot(source, |data|, data + previous.message[|data|..]);
      assert slot.message[..|data|] == data;
      QueueAppend(messageList[..], out', numMessages, slot);
      ghost var slots := messageList[..];
      messageList[in'] := slot;
      assert messageList[..] == slots[in' := slot];
      SlotStep(out', numMessages);
      numMessages := numMessages + 1;
      in' := (in' + 1) % MESSAGELIST_SZ;
      interrupt := true;
      accepted := accepted + [Message(source, data)];
    }

    /** intervm_recv_msg: the result is the size of the oldest message, or that there is none. */
    method Receive() returns (v0: int, source: nat, data: seq<Byte>)
      requires Valid()
      modifies this
      ensures Valid() && accepted == old(accepted) && init == old(init) && interrupt == old(interrupt)
      ensures if old(Waiting()) == [] then v0 == MESSAGE_EMPTY && delivered == old(delivered)
              else v0 == |data| && Message(source, data) == old(Waiting())[0] &&
                   delivered == old(delivered) + [Message(source, data)] && Waiting() == old(Waiting())[1..]
    {
      hide Queue, SlotAt;
      if numMessages == 0 {
        return MESSAGE_EMPTY, 0, [];
      }
      var slot := messageList[out'];
      assert slot in messageList[..];
      QueueRemove(messageList[..], out', numMessages);
      v0, source, data := slot.size, slot.sourceId, slot.message[..slot.size];
      SlotBehind(out', numMessages);
      numMessages := numMessages - 1;
      out' := (out' + 1) % MESSAGELIST_SZ;
      delivered := delivered + [Message(source, data)];
    }
  }

  lemma SlotStep(i: nat, n: nat)
    ensures (SlotAt(i, n) + 1) % MESSAGELIST_SZ == SlotAt(i, n + 1)
  {
    SlotNext(i, 0);
    DivModDef(i + n, MESSAGELIST_SZ);
    var q := (i + n) / MESSAGELIST_SZ + (SlotAt(i, n) + 1) / MESSAGELIST_SZ;
    ModUnique(i + n + 1, MESSAGELIST_SZ, q, (SlotAt(i, n) + 1) % MESSAGELIST_SZ);
  }

  lemma SlotBehind(i: nat, n: nat)
    requires n > 0
    ensures (i + 1) % MESSAGELIST_SZ == SlotAt(i, 1) && SlotAt(SlotAt(i, 1), n - 1) == SlotAt(i, n)
  {
    SlotNext(i, n - 1);
  }

  //
  // Hypercalls
  //

  /** A virtual machine with its virtual CPUs; messages to it go to the first. */
  datatype Vm = Vm(id: nat, vcpus: seq<Vcpu>)

  /** What a hypercall did to the queues. */
  datatype Event =
    | Accepted(target: Vcpu, message: Message)
    | Delivered(receiver: Vcpu, message: Message)
    | Refused(code: int)

  /** The messages that a run has accepted for a virtual CPU. */
  ghost function Sent(trace: seq<Event>, v: Vcpu): seq<Message> {
    if |trace| == 0 then [] else
    var e, before := trace[|trace| - 1], Sent(trace[..|trace| - 1], v);
    if e.Accepted? && e.target == v then before + [e.message] else before
  }

  /** The messages that a run has delivered to a virtual CPU. */
  ghost function Got(trace: seq<Event>, v: Vcpu): seq<Message> {
    if |trace| == 0 then [] else
    var e, before := trace[|trace| - 1], Got(trace[..|trace| - 1], v);
    if e.Delivered? && e.receiver == v then before + [e.message] else before
  }

  lemma TraceStep(trace: seq<Event>, e: Event, v: Vcpu)
    ensures Sent(trace + [e], v) ==
            if e.Accepted? && e.target == v then Sent(trace, v) + [e.message] else Sent(trace, v)
    ensures Got(trace + [e], v) ==
            if e.Delivered? && e.receiver == v then Got(trace, v) + [e.message] else Got(trace, v)
  {
    assert (trace + [e])[..|trace|] == trace;
  }

  /** The first CPU of the first machine with the id. */
  function Target(vms: seq<Vm>, id: nat): Vcpu? {
    if |vms| == 0 then null
    else if vms[0].id == id && |vms[0].vcpus| > 0 then vms[0].vcpus[0]
    else Target(vms[1..], id)
  }

  /** Machine i is the first that has the id and a CPU. */
  ghost predicate FirstWith(vms: seq<Vm>, id: nat, i: int) {
    0 <= i < |vms| && vms[i].id == id && |vms[i].vcpus| > 0 &&
    forall j :: 0 <= j < i ==> vms[j].id != id || |vms[j].vcpus| == 0
  }

  /** A message has no target exactly if no machine with a CPU has the id; otherwise its target is the first
      CPU of the first such machine. */
  lemma {:induction false} TargetExact(vms: seq<Vm>, id: nat)
    ensures Target(vms, id) == null <==> forall i :: 0 <= i < |vms| ==> vms[i].id != id || |vms[i].vcpus| == 0
    ensures forall i :: FirstWith(vms, id, i) ==> Target(vms, id) == vms[i].vcpus[0]
    ensures Target(vms, id) != null ==> exists i :: FirstWith(vms, id, i)
  {
    if |vms| == 0 {
    } else if vms[0].id == id && |vms[0].vcpus| > 0 {
      assert FirstWith(vms, id, 0);
    } else {
      TargetExact(vms[1..], id);
      if Target(vms, id) != null {
        var i :| FirstWith(vms[1..], id, i);
        assert FirstWith(vms, id, i + 1);
      }
      forall i | FirstWith(vms, id, i)
        ensures Target(vms, id) == vms[i].vcpus[0]
      {
        assert FirstWith(vms[1..], id, i - 1);
      }
      assert vms == [vms[0]] + vms[1..];
    }
  }

  class Hypervisor {
    const vms: seq<Vm>
    const cpus: set<Vcpu>
    ghost var trace: seq<Event>

    /** Every machine has a CPU, no queue is shared, and every queue has seen what the run says. */
    ghost predicate Valid()
      reads this, cpus, set v | v in cpus :: v.messageList
    {
      (forall i :: 0 <= i < |vms| ==> |vms[i].vcpus| > 0 && vms[i].vcpus[0] in cpus) &&
      (forall v :: v in cpus ==> v.Valid() && v.accepted == Sent(trace, v) && v.delivered == Got(trace, v)) &&
      (forall v, w :: v in cpus && w in cpus && v != w ==> v.messageList != w.messageList)
    }

    /** Queues that have seen nothing yet. */
    constructor (vms: seq<Vm>, cpus: set<Vcpu>)
      requires forall i :: 0 <= i < |vms| ==> |vms[i].vcpus| > 0 && vms[i].vcpus[0] in cpus
      requires forall v :: v in cpus ==> v.Valid() && v.accepted == [] && v.delivered == []
      requires forall v, w :: v in cpus && w in cpus && v != w ==> v.messageList != w.messageList
      ensures Valid() && this.vms == vms && this.cpus == cpus && trace == []
    {
      this.vms, this.cpus, trace := vms, cpus, [];
    }

    /** A CPU of the hypervisor runs for the first time, after which it can receive messages. */
    method StartCpu(v: Vcpu)
      requires Valid() && v in cpus
      modifies v`init
      ensures Valid() && !v.init
    {
      v.Start();
    }

    /** get_vcpu_from_id */
    method FindVcpu(id: nat) returns (v: Vcpu?)
      requires Valid()
      ensures v == Target(vms, id) && (v != null ==> v in cpus)
      ensures v == null <==> forall i :: 0 <= i < |vms| ==> vms[i].id != id
      ensures v != null ==>
                exists i :: 0 <= i < |vms| && vms[i].id == id && v == vms[i].vcpus[0] &&
                            forall j :: 0 <= j < i ==> vms[j].id != id
    {
      var i := 0;
      while i < |vms|
        invariant 0 <= i <= |vms| && Target(vms, id) == Target(vms[i..], id)
        invariant forall j :: 0 <= j < i ==> vms[j].id != id
      {
        assert vms[i..][1..] == vms[i + 1..];
        if vms[i].id == id {
          return vms[i].vcpus[0];
        }
        i := i + 1;
      }
      return null;
    }

    /** intervm_send_msg by the machine with the id source, for the bytes at the message pointer. Only
        an accepted message changes a queue, and only the target's. */
    method SendMsg(source: nat, targetId: nat, data: seq<Byte>) returns (v0: int)
      requires Valid()
      modifies this, cpus, set v | v in cpus :: v.messageList
      ensures Valid() && forall v :: v in cpus ==> v.init == old(v.init)
      ensures forall v :: v in cpus && v != Target(vms, targetId) ==> v.interrupt == old(v.interrupt)
      ensures v0 != |data| && v0 != MESSAGE_FULL ==> forall v :: v in cpus ==> v.interrupt == old(v.interrupt)
      ensures var v := Target(vms, targetId);
              v0 == if |data| > MESSAGE_SZ then MESSAGE_TOO_BIG
                    else if v == null then MESSAGE_VCPU_NOT_FOUND
                    else if old(v.init) then MESSAGE_VCPU_NOT_INIT
                    else if old(v.numMessages) == MESSAGELIST_SZ then MESSAGE_FULL
                    else |data|
      ensures if v0 == |data| then Target(vms, targetId) != null &&
                                   trace == old(trace) + [Accepted(Target(vms, targetId), Message(source, data))]
              else trace == old(trace) + [Refused(v0)]
      ensures v0 == MESSAGE_VCPU_NOT_FOUND <==>
                |data| <= MESSAGE_SZ && forall i :: 0 <= i < |vms| ==> vms[i].id != targetId
      ensures v0 == |data| ==>
                exists i :: 0 <= i < |vms| && vms[i].id == targetId &&
                            (forall j :: 0 <= j < i ==> vms[j].id != targetId) &&
                            trace == old(trace) + [Accepted(vms[i].vcpus[0], Message(source, data))]
      ensures v0 == |data| || v0 == MESSAGE_FULL ==>
                Target(vms, targetId) != null && Target(vms, targetId).interrupt
    {
      hide Target, Sent, Got;
      if |data| > MESSAGE_SZ {
        v0 := MESSAGE_TOO_BIG;
        Refuse(v0);
        return;
      }
      var vcpu := FindVcpu(targetId);
      if vcpu == null {
        v0 := MESSAGE_VCPU_NOT_FOUND;
        Refuse(v0);
        return;
      }
      if vcpu.init {
        v0 := MESSAGE_VCPU_NOT_INIT;
        Refuse(v0);
        return;
      }
      if vcpu.numMessages == MESSAGELIST_SZ {
        Interrupt(vcpu);
        v0 := MESSAGE_FULL;
        Refuse(v0);
        return;
      }
      Accept(vcpu, source, data);
      v0 := |data|;
    }

    /** The virtual interrupt alone. */
    method Interrupt(vcpu: Vcpu)
      requires Valid() && vcpu in cpus
      modifies vcpu`interrupt
      ensures Valid() && vcpu.interrupt
    {
      vcpu.interrupt := true;
    }

    /** The message joins the target's queue. */
    method Accept(vcpu: Vcpu, source: nat, data: seq<Byte>)
      requires Valid() && vcpu in cpus && |data| <= MESSAGE_SZ && vcpu.numMessages < MESSAGELIST_SZ
      modifies `trace, vcpu, vcpu.messageList
      ensures Valid() && trace == old(trace) + [Accepted(vcpu, Message(source, data))]
      ensures vcpu.interrupt && vcpu.init == old(vcpu.init)
    {
      hide Sent, Got;
      vcpu.Store(source, data);
      trace := trace + [Accepted(vcpu, Message(source, data))];
      forall v | v in cpus
        ensures v.accepted == Sent(trace, v) && v.delivered == Got(trace, v)
      {
        TraceStep(old(trace), Accepted(vcpu, Message(source, data)), v);
      }
    }

    /** A refused hypercall leaves the queues alone. */
    ghost method Refuse(code: int)
      requires Valid()
      modifies `trace
      ensures Valid() && trace == old(trace) + [Refused(code)]
    {
      trace := trace + [Refused(code)];
      forall v | v in cpus
        ensures v.accepted == Sent(trace, v) && v.delivered == Got(trace, v)
      {
        TraceStep(old(trace), Refused(code), v);
      }
    }

    /** intervm_recv_msg by the executing CPU. */
    method RecvMsg(executing: Vcpu) returns (v0: int, source: nat, data: seq<Byte>)
      requires Valid() && executing in cpus
      modifies this, cpus
      ensures Valid() && forall v :: v in cpus ==> v.init == old(v.init) && v.interrupt == old(v.interrupt)
      ensures if old(executing.numMessages) == 0 then v0 == MESSAGE_EMPTY && trace == old(trace) + [Refused(v0)]
              else v0 == |data| && trace == old(trace) + [Delivered(executing, Message(source, data))] &&
                   Message(source, data) == old(executing.Waiting())[0]
    {
      v0, source, data := executing.Receive();
      ghost var e := if v0 == MESSAGE_EMPTY then Refused(v0) else Delivered(executing, Message(source, data));
      trace := trace + [e];
      forall v | v in cpus
        ensures v.accepted == Sent(trace, v) && v.delivered == Got(trace, v)
      {
        TraceStep(old(trace), e, v);
      }
    }

    /** Exactly once and in order: in every run, what a CPU has received, followed by what waits for it,
        is what was accepted for it. */
    lemma ExactlyOnceInOrder(v: Vcpu)
      requires Valid() && v in cpus
      ensures v.messageList.Length == MESSAGELIST_SZ && forall s :: s in v.messageList[..] ==> SlotOk(s)
      ensures Sent(trace, v) == Got(trace, v) + v.Waiting() && |v.Waiting()| <= MESSAGELIST_SZ
    {
      assert v.Valid();
    }
  }
}
