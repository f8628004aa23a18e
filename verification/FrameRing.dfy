/** The drop-oldest ring of encoded frames between the capture thread and the sender thread. */
module FrameRing {
  import opened Wrappers
  import opened Bits

  const RING_SIZE: nat := 8
  const SLOT_BYTES: nat := 4 * 1024 * 1024

  datatype Frame = Frame(data: seq<Byte>, pts: nat, isKeyframe: bool)

  /** The ring as its slots and its two indices. */
  datatype Ring = Ring(slots: seq<Frame>, head: nat, tail: nat)

  predicate WellFormed(r: Ring) { |r.slots| == RING_SIZE && r.head < RING_SIZE && r.tail < RING_SIZE }

  function Used(r: Ring): nat
    requires WellFormed(r)
  {
    Slot(r.head + RING_SIZE - r.tail)
  }

  /** i % RING_SIZE, for the sums that occur. */
  function Slot(i: nat): (s: nat)
    requires i < 2 * RING_SIZE
    ensures s == if i < RING_SIZE then i else i - RING_SIZE
  {
    i % RING_SIZE
  }

  /** The queued frames, oldest first. */
  function Queue(r: Ring): (q: seq<Frame>)
    requires WellFormed(r)
    ensures |q| == Used(r)
  {
    seq(Used(r), k requires 0 <= k < Used(r) => r.slots[Slot(r.tail + k)])
  }

  // ---- the three operations on the slots ----

  function Next(i: nat): (n: nat)
    requires i < RING_SIZE
    ensures n < RING_SIZE
  {
    Slot(i + 1)
  }

  function Push(r: Ring, f: Frame): (s: Ring)
    requires WellFormed(r)
    ensures WellFormed(s)
  {
    Ring(r.slots[r.head := f], Next(r.head), if Next(r.head) == r.tail then Next(r.tail) else r.tail)
  }

  /** The slot handed out, if any, and the ring afterwards. */
  function Pop(r: Ring): (p: (Option<nat>, Ring))
    requires WellFormed(r)
    ensures WellFormed(p.1)
  {
    if r.head == r.tail then (None, r) else (Some(r.tail), r.(tail := Next(r.tail)))
  }

  function Flush(r: Ring): (s: Ring)
    requires WellFormed(r)
    ensures WellFormed(s)
  {
    r.(tail := r.head)
  }

  // ---- refinement of a queue of at most seven frames ----

  /** A bounded queue that makes room by dropping its oldest frame. */
  function Enqueue(q: seq<Frame>, f: Frame): seq<Frame> {
    (if |q| == RING_SIZE - 1 then q[1..] else q) + [f]
  }

  lemma PushRefines(r: Ring, f: Frame)
    requires WellFormed(r)
    ensures Queue(Push(r, f)) == Enqueue(Queue(r), f)
  {
    var s, q := Push(r, f), Enqueue(Queue(r), f);
    var drop := if Used(r) == RING_SIZE - 1 then 1 else 0;
    assert Used(s) == |q|;
    forall k | 0 <= k < |q| ensures Queue(s)[k] == q[k] {
      SlotOfPushed(r, f, drop, k);
    }
  }

  lemma SlotOfPushed(r: Ring, f: Frame, drop: nat, k: nat)
    requires WellFormed(r) && drop == (if Used(r) == RING_SIZE - 1 then 1 else 0) && k <= Used(r) - drop
    ensures Used(Push(r, f)) == Used(r) + 1 - drop
    ensures Queue(Push(r, f))[k] == if k == Used(r) - drop then f else Queue(r)[k + drop]
  {
    hide Queue;
    QueueAt(r, if k == Used(r) - drop then 0 else k + drop);
    QueueAt(Push(r, f), k);
  }

  lemma QueueAt(r: Ring, k: nat)
    requires WellFormed(r)
    ensures k < Used(r) ==> Queue(r)[k] == r.slots[Slot(r.tail + k)]
  {
  }

  lemma PopRefines(r: Ring)
    requires WellFormed(r)
    ensures Queue(r) == [] <==> Pop(r).0.None?
    ensures Pop(r).0.None? ==> Pop(r).1 == r
    ensures Pop(r).0.Some? ==> Pop(r).0.value < RING_SIZE && Queue(r) == [r.slots[Pop(r).0.value]] + Queue(Pop(r).1)
  {
    hide Queue;
    if r.head != r.tail {
      var s := Pop(r).1;
      assert Used(r) == Used(s) + 1;
      QueueAt(r, 0);
      forall k | 0 <= k < Used(s) ensures Queue(r)[k + 1] == Queue(s)[k] {
        QueueAt(r, k + 1);
        QueueAt(s, k);
      }
      assert Queue(r) == [r.slots[r.tail]] + Queue(s);
    }
  }

  lemma FlushRefines(r: Ring)
    requires WellFormed(r)
    ensures Queue(Flush(r)) == []
  {
  }

  // ---- whole runs ----

  datatype Op = PushOp(frame: Frame) | PopOp | FlushOp

  /**
   * What happened in a run: the frames pushed, the frames read out of popped slots, the push number of
   * each popped frame, and how many frames were dropped and flushed.
   */
  datatype Log = Log(pushed: seq<Frame>, popped: seq<Frame>, order: seq<nat>, dropped: nat, flushed: nat)

  function Step(r: Ring, l: Log, op: Op): (next: (Ring, Log))
    requires WellFormed(r) && Used(r) <= |l.pushed|
    ensures WellFormed(next.0)
  {
    match op
    case PushOp(f) =>
      (Push(r, f), l.(pushed := l.pushed + [f], dropped := l.dropped + if Next(r.head) == r.tail then 1 else 0))
    case PopOp =>
      var (slot, s) := Pop(r);
      if slot.None? then (r, l)
      else (s, l.(popped := l.popped + [r.slots[slot.value]], order := l.order + [|l.pushed| - Used(r)]))
    case FlushOp =>
      (Flush(r), l.(flushed := l.flushed + Used(r)))
  }

  /** Frames are accounted for and leave in push order; the queue is the newest part of what was pushed. */
  ghost predicate Faithful(r: Ring, l: Log) {
    && WellFormed(r)
    && |l.pushed| == |l.popped| + l.dropped + l.flushed + Used(r)
    && Queue(r) == l.pushed[|l.pushed| - Used(r)..]
    && |l.order| == |l.popped|
    && (forall i :: 0 <= i < |l.order| ==> l.order[i] < |l.pushed| - Used(r) && l.popped[i] == l.pushed[l.order[i]])
    && (forall i, j :: 0 <= i < j < |l.order| ==> l.order[i] < l.order[j])
  }

  lemma StepIsFaithful(r: Ring, l: Log, op: Op)
    requires Faithful(r, l)
    ensures Faithful(Step(r, l, op).0, Step(r, l, op).1)
  {
    hide Queue;
    match op {
      case PushOp(f) => PushRefines(r, f);
      case PopOp => PopRefines(r);
      case FlushOp => FlushRefines(r);
    }
  }

  function Run(r: Ring, ops: seq<Op>): (end: (Ring, Log))
    requires WellFormed(r) && Used(r) == 0
    ensures Faithful(end.0, end.1)
    decreases |ops|
  {
    if ops == [] then (r, Log([], [], [], 0, 0))
    else
      var (s, l) := Run(r, ops[..|ops| - 1]);
      StepIsFaithful(s, l, ops[|ops| - 1]);
      Step(s, l, ops[|ops| - 1])
  }

  /** Every run from an empty ring: conservation, order and exact contents. */
  lemma EveryRunIsFaithful(r: Ring, ops: seq<Op>)
    requires WellFormed(r) && Used(r) == 0
    ensures var (s, l) := Run(r, ops);
            && |l.pushed| == |l.popped| + l.dropped + l.flushed + |Queue(s)| && |Queue(s)| <= 7
            && (forall i :: 0 <= i < |l.popped| ==> l.order[i] < |l.pushed| && l.popped[i] == l.pushed[l.order[i]])
            && (forall i, j :: 0 <= i < j < |l.popped| ==> l.order[i] < l.order[j])
            && l.pushed == PushedIn(ops)
  {
    PushedInRun(r, ops);
  }

  function PushedIn(ops: seq<Op>): seq<Frame>
    decreases |ops|
  {
    if ops == [] then []
    else
      var last := ops[|ops| - 1];
      PushedIn(ops[..|ops| - 1]) + if last.PushOp? then [last.frame] else []
  }

  lemma {:induction false} PushedInRun(r: Ring, ops: seq<Op>)
    requires WellFormed(r) && Used(r) == 0
    ensures Run(r, ops).1.pushed == PushedIn(ops)
    decreases |ops|
  {
    if ops == [] {
    } else {
      PushedInRun(r, ops[..|ops| - 1]);
    }
  }

  // ---- how long a popped slot stays as it was ----

  function Apply(r: Ring, ops: seq<Op>): (s: Ring)
    requires WellFormed(r)
    ensures WellFormed(s)
    decreases |ops|
  {
    if ops == [] then r
    else
      var s := Apply(r, ops[..|ops| - 1]);
      match ops[|ops| - 1]
      case PushOp(f) => Push(s, f)
      case PopOp => Pop(s).1
      case FlushOp => Flush(s)
  }

  lemma {:induction false} HeadCountsPushes(r: Ring, ops: seq<Op>)
    requires WellFormed(r) && |PushedIn(ops)| <= 7
    ensures Apply(r, ops).head == Slot(r.head + |PushedIn(ops)|)
    decreases |ops|
  {
    hide Slot;
    if ops == [] {
    } else {
      HeadCountsPushes(r, ops[..|ops| - 1]);
    }
  }

  /** The slot just popped is the one behind the tail. */
  function PoppedSlot(r: Ring): nat
    requires WellFormed(r)
  {
    Slot(r.tail + RING_SIZE - 1)
  }

  /** With k frames left after a pop, the slot is untouched by the next 7-k pushes, whatever else happens. */
  lemma {:induction false} PoppedSlotIsStable(r: Ring, ops: seq<Op>)
    requires WellFormed(r) && |PushedIn(ops)| <= 7 - Used(r)
    ensures Apply(r, ops).slots[PoppedSlot(r)] == r.slots[PoppedSlot(r)]
    decreases |ops|
  {
    hide Slot;
    if ops == [] {
    } else {
      var before := ops[..|ops| - 1];
      PoppedSlotIsStable(r, before);
      if ops[|ops| - 1].PushOp? {
        HeadCountsPushes(r, before);
        HeadMissesSlot(r, |PushedIn(before)|);
      }
    }
  }

  /** Push number 8-k is the one that overwrites it: the pointer does not last until the next pop. */
  lemma PoppedSlotIsReused(r: Ring, ops: seq<Op>, f: Frame)
    requires WellFormed(r) && |PushedIn(ops)| == 7 - Used(r)
    ensures Apply(r, ops + [PushOp(f)]).slots[PoppedSlot(r)] == f
  {
    hide Slot, Used;
    assert (ops + [PushOp(f)])[..|ops|] == ops;
    HeadCountsPushes(r, ops);
    HeadMissesSlot(r, |PushedIn(ops)|);
  }

  /** The exact window of a popped pointer: 7-k pushes leave its slot alone, the next one overwrites it. */
  lemma PopWindow(r: Ring, ops: seq<Op>, f: Frame)
    requires WellFormed(r) && Queue(r) != []
    ensures var (slot, s) := Pop(r);
            && slot.Some? && slot.value < RING_SIZE && r.slots[slot.value] == Queue(r)[0]
            && (|PushedIn(ops)| <= 7 - |Queue(s)| ==> Apply(s, ops).slots[slot.value] == Queue(r)[0])
            && (|PushedIn(ops)| == 7 - |Queue(s)| ==> Apply(s, ops + [PushOp(f)]).slots[slot.value] == f)
  {
    hide Apply;
    PopRefines(r);
    var s := Pop(r).1;
    assert PoppedSlot(s) == r.tail;
    if |PushedIn(ops)| <= 7 - Used(s) {
      PoppedSlotIsStable(s, ops);
      if |PushedIn(ops)| == 7 - Used(s) { PoppedSlotIsReused(s, ops, f); }
    }
  }

  lemma HeadMissesSlot(r: Ring, n: nat)
    requires WellFormed(r) && n <= 7 - Used(r)
    ensures Slot(r.head + n) == PoppedSlot(r) <==> n == 7 - Used(r)
  {
    hide Slot;
  }

  // ---- the shared object ----

  class RingEntry {
    var data: array<Byte>
    var size: nat
    var pts: nat
    var isKeyframe: bool

    constructor ()
      ensures fresh(data) && data.Length == SLOT_BYTES && size == 0 && pts == 0 && !isKeyframe
    {
      data := new Byte[SLOT_BYTES];
      size, pts, isKeyframe := 0, 0, false;
    }

    ghost function Contents(): Frame
      reads this, data
      requires size <= data.Length
    {
      Frame(data[..size], pts, isKeyframe)
    }

    /** The entry is in order and this is its frame. */
    ghost predicate Holds(f: Frame)
      reads this, data
    {
      size <= data.Length && SLOT_BYTES <= data.Length && Contents() == f
    }

    /** Grows the buffer if the frame exceeds the pre-allocated size, then copies the frame in. */
    method Store(bytes: seq<Byte>, pts: nat, isKeyframe: bool)
      requires SLOT_BYTES <= data.Length
      modifies this, data
      ensures Holds(Frame(bytes, pts, isKeyframe)) && (data == old(data) || fresh(data))
    {
      if |bytes| > SLOT_BYTES {
        data := new Byte[|bytes|];
      }
      forall i | 0 <= i < |bytes| {
        data[i] := bytes[i];
      }
      size := |bytes|;
      this.pts := pts;
      this.isKeyframe := isKeyframe;
      assert data[..|bytes|] == bytes;
    }
  }

  /** Every method runs under the ring's mutex. */
  class RingBuffer {
    const entries: seq<RingEntry>
    var head: nat
    var tail: nat
    /** What the entries hold. */
    ghost var slots: seq<Frame>

    ghost predicate Valid()
      reads this, entries, set e | e in entries :: e.data
    {
      && |entries| == |slots| == RING_SIZE && head < RING_SIZE && tail < RING_SIZE
      && (forall i :: 0 <= i < RING_SIZE ==> entries[i].Holds(slots[i]))
      && (forall i, j :: 0 <= i < j < RING_SIZE ==> entries[i] != entries[j] && entries[i].data != entries[j].data)
    }

    ghost function View(): Ring
      reads this
    {
      Ring(slots, head, tail)
    }

    constructor ()
      ensures Valid() && Used(View()) == 0
    {
      var es: seq<RingEntry> := [];
      ghost var frames: seq<Frame> := [];
      for i := 0 to RING_SIZE
        invariant |es| == |frames| == i
        invariant forall k :: 0 <= k < i ==> fresh(es[k]) && fresh(es[k].data) && es[k].data.Length == SLOT_BYTES
        invariant forall k :: 0 <= k < i ==> es[k].size == 0 && es[k].Contents() == frames[k]
        invariant forall j, k :: 0 <= j < k < i ==> es[j] != es[k] && es[j].data != es[k].data
      {
        var e := new RingEntry();
        es := es + [e];
        frames := frames + [e.Contents()];
      }
      entries := es;
      head, tail := 0, 0;
      slots := frames;
    }

    method PushFrame(data: seq<Byte>, pts: nat, isKeyframe: bool)
      requires Valid()
      modifies this, entries[head], entries[head].data
      ensures Valid() && View() == Push(old(View()), Frame(data, pts, isKeyframe))
      ensures Queue(View()) == Enqueue(old(Queue(View())), Frame(data, pts, isKeyframe))
    {
      hide Queue, Enqueue, Slot;
      PushRefines(View(), Frame(data, pts, isKeyframe));
      hide Used, RingEntry.Holds;
      var nextHead := Next(head);
      if nextHead == tail {
        tail := Next(tail);
      }
      var e := entries[head];
      e.Store(data, pts, isKeyframe);
      forall i | 0 <= i < RING_SIZE && i != head
        ensures entries[i].Holds(slots[i]) && entries[i].data == old(entries[i].data)
      {
        assert entries[i].data != old(e.data);
      }
      slots := slots[head := Frame(data, pts, isKeyframe)];
      head := nextHead;
    }

    /** Returns the entry itself, not a copy. */
    method PopFrame() returns (e: RingEntry?)
      requires Valid()
      modifies this
      ensures Valid() && View() == Pop(old(View())).1
      ensures old(Queue(View())) == [] <==> e == null
      ensures e != null ==> e == entries[old(tail)] && e.size <= e.data.Length
      ensures e != null ==> [e.Contents()] + Queue(View()) == old(Queue(View()))
    {
      hide Queue;
      PopRefines(View());
      if head == tail {
        return null;
      }
      e := entries[tail];
      tail := Next(tail);
    }

    method FlushFrames() returns (dropped: nat)
      requires Valid()
      modifies this
      ensures Valid() && View() == Flush(old(View())) && Queue(View()) == []
      ensures dropped == |old(Queue(View()))|
    {
      hide Slot;
      dropped := 0;
      while head != tail
        invariant Valid() && View() == old(View()).(tail := tail)
        invariant dropped + Used(View()) == Used(old(View()))
        decreases Used(View())
      {
        tail := Next(tail);
        dropped := dropped + 1;
      }
    }
  }
}
