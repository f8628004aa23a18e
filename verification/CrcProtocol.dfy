/**
 * The vblank timer and the composer worker: a counter published under a lock, a work item that can be
 * pending once, and a worker that snapshots, composes and emits one CRC entry per frame.
 */
module CrcProtocol {
  /** The fields of the CRTC state that the composer lock protects. */
  datatype Shared = Shared(crcPending: bool, frameStart: nat, frameEnd: nat)

  /** The timer's locked section for the given vblank count. */
  function Publish(s: Shared, frame: nat): Shared {
    Shared(true, if s.crcPending then s.frameStart else frame, frame)
  }

  /** What the worker's locked section leaves behind. */
  function Taken(): Shared { Shared(false, 0, 0) }

  /** The worker: idle, started but not yet at its snapshot, composing, or emitting entries. */
  datatype Worker = Idle | Started | Composing(first: nat, last: nat) | Emitting(next: nat, last: nat)

  /** `lost` records the frames no entry will ever be made for. */
  datatype State = State(
    count: nat, queueing: bool, workPending: bool, shared: Shared, worker: Worker, emitted: seq<nat>, lost: set<nat>)

  /** Any thread's next step; a tick may advance the vblank count by more than one after an overrun. */
  datatype Event = Tick(frames: nat) | QueueWork | Dequeue | Snapshot | Compose(ok: bool) | Emit

  predicate Enabled(s: State, e: Event) {
    match e
    case Tick(frames) => frames >= 1 && !s.queueing
    case QueueWork => s.queueing
    case Dequeue => s.workPending && s.worker.Idle?
    case Snapshot => s.worker.Started?
    case Compose(_) => s.worker.Composing?
    case Emit => s.worker.Emitting?
  }

  /** The frame numbers from a up to but not including b. */
  function Range(a: nat, b: nat): (r: set<nat>) {
    set n: nat {:trigger Between(a, n, b)} | a <= n < b && Between(a, n, b)
  }

  predicate Between(a: nat, n: nat, b: nat) { a <= n < b }

  function Step(s: State, e: Event): State
    requires Enabled(s, e)
  {
    match e
    case Tick(frames) =>
      var frame := s.count + frames;
      s.(count := frame, queueing := true, shared := Publish(s.shared, frame),
         lost := if s.shared.crcPending then s.lost else s.lost + Range(s.count + 1, frame))
    case QueueWork =>
      s.(queueing := false, workPending := true)
    case Dequeue =>
      s.(workPending := false, worker := Started)
    case Snapshot =>
      s.(shared := Taken(),
         worker := if s.shared.crcPending then Composing(s.shared.frameStart, s.shared.frameEnd) else Idle)
    case Compose(ok) =>
      var w := s.worker;
      if ok then s.(worker := Emitting(w.first, w.last))
      else s.(worker := Idle, lost := s.lost + Range(w.first, w.last + 1))
    case Emit =>
      var w := s.worker;
      if w.next <= w.last then s.(emitted := s.emitted + [w.next], worker := Emitting(w.next + 1, w.last))
      else s.(worker := Idle)
  }

  function Initial(base: nat): State {
    State(base, false, false, Taken(), Idle, [], {})
  }

  // ---- the invariant ----

  predicate InWorker(w: Worker, n: nat) {
    match w
    case Composing(first, last) => first <= n <= last
    case Emitting(next, last) => next <= n <= last
    case _ => false
  }

  predicate Pending(c: Shared, n: nat) { c.crcPending && c.frameStart <= n <= c.frameEnd }

  /** Where frame n is: exactly one of these holds for each frame since the start. */
  function Fates(s: State, n: nat): nat {
    (if n in s.emitted then 1 else 0) + (if n in s.lost then 1 else 0)
    + (if InWorker(s.worker, n) then 1 else 0) + (if Pending(s.shared, n) then 1 else 0)
  }

  /** Every frame since the start has exactly one fate. */
  ghost predicate Accounted(s: State, base: nat) {
    base <= s.count && forall n: nat :: Fates(s, n) == if base < n <= s.count then 1 else 0
  }

  /** Entries made come before frames being worked on, and those before frames waiting. */
  ghost predicate Ordered(s: State) {
    && (forall i, j :: 0 <= i < j < |s.emitted| ==> s.emitted[i] < s.emitted[j])
    && (forall i, n: nat :: 0 <= i < |s.emitted| && InWorker(s.worker, n) ==> s.emitted[i] < n)
    && (forall i, n: nat :: 0 <= i < |s.emitted| && Pending(s.shared, n) ==> s.emitted[i] < n)
    && (forall m: nat, n: nat :: InWorker(s.worker, m) && Pending(s.shared, n) ==> m < n)
  }

  /** A waiting frame always has somebody coming for it. */
  ghost predicate Served(s: State) {
    && (s.worker.Composing? ==> s.worker.first <= s.worker.last)
    && (s.shared.crcPending ==> s.shared.frameStart <= s.shared.frameEnd == s.count)
    && (s.shared.crcPending ==> s.workPending || s.queueing || s.worker.Started?)
  }

  ghost predicate Inv(s: State, base: nat) { Accounted(s, base) && Ordered(s) && Served(s) }

  lemma InitialInv(base: nat)
    ensures Inv(Initial(base), base)
  {
  }

  lemma StepAccounts(s: State, e: Event, base: nat)
    requires Inv(s, base) && Enabled(s, e)
    ensures Accounted(Step(s, e), base)
  {
    var t := Step(s, e);
    forall n: nat ensures Fates(t, n) == if base < n <= t.count then 1 else 0 {
      assert Fates(s, n) == if base < n <= s.count then 1 else 0;
      if e.Tick? {
        assert n in Range(s.count + 1, t.count) <==> Between(s.count + 1, n, t.count);
      } else if e.Compose? {
        var w := s.worker;
        assert n in Range(w.first, w.last + 1) <==> Between(w.first, n, w.last + 1);
      }
    }
  }

  lemma NothingBeyondCount(s: State, base: nat)
    requires Accounted(s, base)
    ensures forall i :: 0 <= i < |s.emitted| ==> s.emitted[i] <= s.count
    ensures forall n: nat :: InWorker(s.worker, n) ==> n <= s.count
  {
    assert forall i :: 0 <= i < |s.emitted| ==> s.emitted[i] in s.emitted && Fates(s, s.emitted[i]) >= 1;
    assert forall n: nat :: InWorker(s.worker, n) ==> Fates(s, n) >= 1;
  }

  lemma StepOrders(s: State, e: Event, base: nat)
    requires Inv(s, base) && Enabled(s, e)
    ensures Ordered(Step(s, e))
  {
    hide Accounted, Fates;
    var t := Step(s, e);
    NothingBeyondCount(s, base);
    match e {
      case Tick(_) =>
        assert forall n: nat :: Pending(t.shared, n) ==> Pending(s.shared, n) || n > s.count;
      case Snapshot =>
        assert forall n: nat :: InWorker(t.worker, n) ==> Pending(s.shared, n);
      case Emit =>
        assert forall n: nat :: InWorker(t.worker, n) ==> InWorker(s.worker, n);
        assert s.worker.next <= s.worker.last ==> InWorker(s.worker, s.worker.next);
      case _ =>
        assert forall n: nat :: InWorker(t.worker, n) ==> InWorker(s.worker, n);
    }
  }

  /** Every step of either thread, in any interleaving, keeps the invariant. */
  lemma StepKeepsInv(s: State, e: Event, base: nat)
    requires Inv(s, base) && Enabled(s, e)
    ensures Inv(Step(s, e), base)
  {
    StepAccounts(s, e, base);
    StepOrders(s, e, base);
  }

  // ---- whole runs ----

  /** A run: every event is enabled where it happens. */
  ghost predicate IsRun(s: State, events: seq<Event>)
    decreases |events|
  {
    events == [] || (Enabled(s, events[0]) && IsRun(Step(s, events[0]), events[1..]))
  }

  ghost function Run(s: State, events: seq<Event>): State
    requires IsRun(s, events)
    decreases |events|
  {
    if events == [] then s else Run(Step(s, events[0]), events[1..])
  }

  lemma {:induction false} RunKeepsInv(s: State, events: seq<Event>, base: nat)
    requires Inv(s, base) && IsRun(s, events)
    ensures Inv(Run(s, events), base)
    decreases |events|
  {
    if events == [] {
    } else {
      StepKeepsInv(s, events[0], base);
      RunKeepsInv(Step(s, events[0]), events[1..], base);
    }
  }

  /** Nothing left to do except wait for the next vblank. */
  predicate Quiescent(s: State) { !s.queueing && !s.workPending && s.worker.Idle? }

  /**
   * However the threads interleave, entries come out in strictly increasing order, and once all is quiet
   * every vblank since the start either has its entry or is recorded as lost, never both.
   */
  lemma EveryFrameHasItsFate(base: nat, events: seq<Event>)
    requires IsRun(Initial(base), events)
    ensures var s := Run(Initial(base), events);
            && (forall i, j :: 0 <= i < j < |s.emitted| ==> s.emitted[i] < s.emitted[j])
            && (forall n: nat :: n in s.emitted ==> base < n <= s.count && n !in s.lost)
            && (Quiescent(s) ==> forall n: nat :: base < n <= s.count ==> (n in s.emitted <==> n !in s.lost))
            && (s.shared.crcPending ==> s.workPending || s.queueing || s.worker.Started?)
  {
    InitialInv(base);
    RunKeepsInv(Initial(base), events, base);
    var s := Run(Initial(base), events);
    forall n: nat
      ensures n in s.emitted ==> base < n <= s.count && n !in s.lost
      ensures Quiescent(s) && base < n <= s.count ==> (n in s.emitted <==> n !in s.lost)
    {
      assert Fates(s, n) == if base < n <= s.count then 1 else 0;
    }
  }

  lemma {:induction false} LostStays(s: State, events: seq<Event>)
    requires IsRun(s, events)
    ensures s.lost <= Run(s, events).lost
    decreases |events|
  {
    if events == [] {
    } else {
      LostStays(Step(s, events[0]), events[1..]);
    }
  }

  /** A range whose composition failed is lost for good: no later step of any run makes an entry for it. */
  lemma FailedRangeIsLost(s: State, events: seq<Event>, base: nat, n: nat)
    requires Inv(s, base) && s.worker.Composing? && s.worker.first <= n <= s.worker.last
    requires IsRun(Step(s, Compose(false)), events)
    ensures var end := Run(Step(s, Compose(false)), events); n in end.lost && n !in end.emitted
  {
    var t := Step(s, Compose(false));
    assert Between(s.worker.first, n, s.worker.last + 1);
    assert n in t.lost;
    LostStays(t, events);
    StepKeepsInv(s, Compose(false), base);
    RunKeepsInv(t, events, base);
    var end := Run(t, events);
    assert Fates(end, n) <= 1;
  }

  // ---- the worker catches up ----

  function Length(first: nat, last: nat): nat { if first <= last then last - first + 1 else 0 }

  /** The steps still to be taken if no further vblank comes. */
  function Backlog(s: State): nat {
    (if s.queueing then 3 else 0) + (if s.workPending then 2 else 0)
    + (match s.worker
       case Idle => 0
       case Started => 1
       case Composing(first, last) => Length(first, last) + 2
       case Emitting(next, last) => Length(next, last) + 1)
    + (if s.shared.crcPending then Length(s.shared.frameStart, s.shared.frameEnd) + 2 else 0)
  }

  /** Without a tick every step shortens the backlog, in whichever order the threads take their steps. */
  lemma {:induction false} BacklogBoundsTheRun(s: State, events: seq<Event>)
    requires IsRun(s, events) && forall i :: 0 <= i < |events| ==> !events[i].Tick?
    ensures |events| + Backlog(Run(s, events)) <= Backlog(s)
    decreases |events|
  {
    if events == [] {
    } else {
      var e := events[0];
      assert !e.Tick?;
      assert Backlog(Step(s, e)) < Backlog(s);
      BacklogBoundsTheRun(Step(s, e), events[1..]);
    }
  }

  /** Nobody is ever stuck: as long as something is left to do, some thread can do it. */
  lemma SomebodyCanMove(s: State)
    ensures Quiescent(s) <==> forall e: Event :: Enabled(s, e) ==> e.Tick?
  {
    if s.worker.Idle? {
      assert s.queueing ==> Enabled(s, QueueWork);
      assert s.workPending ==> Enabled(s, Dequeue);
    } else {
      assert Enabled(s, Snapshot) || Enabled(s, Compose(true)) || Enabled(s, Emit);
    }
  }

  /** No vblank skipped by a late timer and no composition failed. */
  predicate Smooth(e: Event) { (e.Tick? ==> e.frames == 1) && (e.Compose? ==> e.ok) }

  lemma {:induction false} SmoothRunLosesNothing(s: State, events: seq<Event>)
    requires IsRun(s, events) && s.lost == {}
    requires forall i :: 0 <= i < |events| ==> Smooth(events[i])
    ensures Run(s, events).lost == {}
    decreases |events|
  {
    if events == [] {
    } else {
      var e := events[0];
      assert Smooth(e);
      if e.Tick? { assert Range(s.count + 1, s.count + 1) == {}; }
      SmoothRunLosesNothing(Step(s, e), events[1..]);
    }
  }

  /** The numbers base+1, base+2, ... of the given length. */
  function Consecutive(base: nat, length: nat): seq<nat> { seq(length, i requires i >= 0 => base + 1 + i) }

  /**
   * With one vblank per tick and no failed composition, the entries at any moment of any run are
   * consecutive from the first vblank on, none lost and none repeated, and at quiescence none is missing.
   */
  lemma SmoothRunIsConsecutive(base: nat, events: seq<Event>)
    requires IsRun(Initial(base), events)
    requires forall i :: 0 <= i < |events| ==> Smooth(events[i])
    ensures var s := Run(Initial(base), events);
            && s.emitted == Consecutive(base, |s.emitted|)
            && base + |s.emitted| <= s.count
            && (Quiescent(s) ==> base + |s.emitted| == s.count)
  {
    InitialInv(base);
    RunKeepsInv(Initial(base), events, base);
    SmoothRunLosesNothing(Initial(base), events);
    var s := Run(Initial(base), events);
    forall i | 0 <= i < |s.emitted| ensures s.emitted[i] == base + 1 + i {
      NoGap(s, base, i);
    }
    if |s.emitted| > 0 {
      var last := s.emitted[|s.emitted| - 1];
      assert last in s.emitted && Fates(s, last) >= 1;
    }
    if Quiescent(s) && base < s.count {
      assert Fates(s, s.count) == 1;
      var k :| 0 <= k < |s.emitted| && s.emitted[k] == s.count;
    }
  }

  /** With nothing lost, a frame below an emitted one has been emitted, so the i-th entry is frame base+1+i. */
  lemma {:induction false} NoGap(s: State, base: nat, i: nat)
    requires Inv(s, base) && s.lost == {} && i < |s.emitted|
    ensures s.emitted[i] == base + 1 + i
    decreases i
  {
    assert s.emitted[i] in s.emitted && Fates(s, s.emitted[i]) >= 1;
    if i > 0 { NoGap(s, base, i - 1); }
    var n := base + 1 + i;
    if s.emitted[i] != n {
      assert Fates(s, n) == 1;
      assert n in s.emitted;
      var k :| 0 <= k < |s.emitted| && s.emitted[k] == n;
    }
  }

  // ---- the two locked sections and the emission loop as the driver runs them ----

  class CrtcState {
    var crcPending: bool
    var frameStart: nat
    var frameEnd: nat
    var wbPending: bool

    ghost function View(): Shared
      reads this
    {
      Shared(crcPending, frameStart, frameEnd)
    }

    /** The timer, under the composer lock. */
    method PublishFrame(frame: nat)
      modifies this
      ensures wbPending == old(wbPending) && View() == Publish(old(View()), frame)
    {
      if !crcPending {
        frameStart := frame;
      }
      frameEnd := frame;
      crcPending := true;
    }

    /** The worker, under the composer lock; whether a writeback is wanted is read but not reset. */
    method TakeFrames() returns (start: nat, end: nat, pending: bool, writeback: bool)
      modifies this
      ensures Shared(pending, start, end) == old(View()) && View() == Taken()
      ensures writeback == wbPending == old(wbPending)
    {
      start, end, pending, writeback := frameStart, frameEnd, crcPending, wbPending;
      frameStart, frameEnd, crcPending := 0, 0, false;
    }
  }

  /** The worker's last loop: one entry for each frame that became due, the late ones included. */
  method EmitEntries(emitted: seq<nat>, frameStart: nat, frameEnd: nat) returns (entries: seq<nat>)
    ensures entries == emitted + seq(if frameStart <= frameEnd then frameEnd - frameStart + 1 else 0,
                                     i requires i >= 0 => frameStart + i)
  {
    entries := emitted;
    var next := frameStart;
    while next <= frameEnd
      invariant frameStart <= next && (next <= frameEnd + 1 || next == frameStart)
      invariant entries == emitted + seq(next - frameStart, i requires i >= 0 => frameStart + i)
    {
      entries := entries + [next];
      next := next + 1;
    }
  }
}
