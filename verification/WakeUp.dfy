/** How a filesystem event reaches the capture worker: a native callback, the event
    loop and the worker thread interleave over a bounded event queue, an overflow
    flag, a debounce slot and a one-slot work queue. Each step is one access to
    shared state; elapsed-time tests may come out either way. */
module WakeUp {

  const QUEUE_CAPACITY := 128

  /** A path outside the ignored directories, only ignored paths, or a notification error. */
  datatype Kind = Notable | Ignored | Failed

  /** A native notification and the moment its callback was entered. */
  datatype Event = Event(id: nat, at: nat, kind: Kind)

  /** Where the event loop is: in select, holding a received event, having swapped the overflow flag, about to
      send a job, having sent one, or about to poll. */
  datatype LoopPc =
    | AtSelect
    | Handling(event: Event)
    | Swapped(was: bool)
    | Sending
    | Sent
    | Polling
    | LoopEnded

  /** The worker thread: opening its store, waiting for a job, holding one, past the start of its check, gone. */
  datatype Worker = Starting | Waiting | Taken | Working | WorkerEnded

  datatype State = State(
    queue: seq<Event>,
    inCallback: set<Event>,
    overflow: bool,
    debounce: bool,
    job: bool,
    loop: LoopPc,
    worker: Worker,
    shutdown: bool,
    clock: nat,
    lastCheck: nat,
    seen: set<Event>)

  /** The loop starts with a startup scan pending. */
  ghost predicate Init(s: State) {
    s == State([], {}, false, true, false, AtSelect, Starting, false, 1, 0, {})
  }

  // ----- the native callback

  /** try_send fails when the queue is full or its receiver is gone. */
  ghost predicate Native(s: State, s': State, e: Event) {
    && e.at == s.clock && e !in s.seen
    && s' == if |s.queue| < QUEUE_CAPACITY && !s.loop.LoopEnded?
             then Tick(s).(queue := s.queue + [e], seen := s.seen + {e})
             else Tick(s).(inCallback := s.inCallback + {e}, seen := s.seen + {e})
  }

  ghost predicate NativeOverflow(s: State, s': State, e: Event) {
    e in s.inCallback && s' == Tick(s).(inCallback := s.inCallback - {e}, overflow := true)
  }

  // ----- the event loop

  ghost predicate Receive(s: State, s': State) {
    s.loop.AtSelect? && s.queue != [] && s' == Tick(s).(loop := Handling(s.queue[0]), queue := s.queue[1..])
  }

  ghost predicate Handle(s: State, s': State) {
    && s.loop.Handling?
    && s' == match s.loop.event.kind
             case Notable => Tick(s).(loop := AtSelect, debounce := true)
             case Failed => Tick(s).(loop := AtSelect, overflow := true)
             case Ignored => Tick(s).(loop := AtSelect)
  }

  ghost predicate SwapOverflow(s: State, s': State) {
    s.loop.AtSelect? && s' == Tick(s).(loop := Swapped(s.overflow), overflow := false)
  }

  ghost predicate MarkCoalesced(s: State, s': State) {
    s.loop.Swapped? && s' == Tick(s).(loop := Sending, debounce := s.debounce || s.loop.was)
  }

  /** The debounce interval has passed and the work queue takes the job, or not. */
  ghost predicate TrySend(s: State, s': State) {
    && s.loop.Sending?
    && (s' == Tick(s).(loop := Polling)
        || (s.debounce && !s.job && !s.worker.WorkerEnded? && s' == Tick(s).(loop := Sent, job := true)))
  }

  ghost predicate ClearDebounce(s: State, s': State) {
    s.loop.Sent? && s' == Tick(s).(loop := Polling, debounce := false)
  }

  /** The fallback scan: queued only when nothing is debounced and the work queue has room. */
  ghost predicate Poll(s: State, s': State) {
    && s.loop.Polling?
    && (s' == Tick(s).(loop := AtSelect)
        || (!s.debounce && !s.job && !s.worker.WorkerEnded? && s' == Tick(s).(loop := AtSelect, job := true)))
  }

  ghost predicate EndLoop(s: State, s': State) {
    s.loop.AtSelect? && s.shutdown && s' == Tick(s).(loop := LoopEnded)
  }

  // ----- the worker

  ghost predicate Start(s: State, s': State) {
    s.worker.Starting? && s' == Tick(s).(worker := Waiting)
  }

  /** The worker thread ends: its store did not open, or shutdown was requested. A queued job dies with it. */
  ghost predicate EndWorker(s: State, s': State) {
    && (s.worker.Starting? || (s.shutdown && !s.worker.WorkerEnded?))
    && s' == Tick(s).(worker := WorkerEnded, job := false)
  }

  ghost predicate TakeJob(s: State, s': State) {
    s.worker.Waiting? && s.job && s' == Tick(s).(worker := Taken, job := false)
  }

  /** The change check begins to read files. */
  ghost predicate BeginCheck(s: State, s': State) {
    s.worker.Taken? && s' == Tick(s).(worker := Working, lastCheck := s.clock)
  }

  /** The operation finishes, fails or times out. */
  ghost predicate EndOperation(s: State, s': State) {
    s.worker.Working? && s' == Tick(s).(worker := Waiting)
  }

  ghost predicate RequestShutdown(s: State, s': State) {
    s' == Tick(s).(shutdown := true)
  }

  function Tick(s: State): State {
    s.(clock := s.clock + 1)
  }

  ghost predicate Next(s: State, s': State) {
    || (exists e :: Native(s, s', e)) || (exists e :: NativeOverflow(s, s', e))
    || LoopStep(s, s') || WorkerStep(s, s') || RequestShutdown(s, s')
  }

  ghost predicate LoopStep(s: State, s': State) {
    || Receive(s, s') || Handle(s, s') || SwapOverflow(s, s') || MarkCoalesced(s, s') || TrySend(s, s')
    || ClearDebounce(s, s') || Poll(s, s') || EndLoop(s, s')
  }

  ghost predicate WorkerStep(s: State, s': State) {
    Start(s, s') || EndWorker(s, s') || TakeJob(s, s') || BeginCheck(s, s') || EndOperation(s, s')
  }

  ghost predicate IsRun(run: seq<State>) {
    |run| > 0 && Init(run[0]) && forall k :: 0 <= k < |run| - 1 ==> Next(run[k], run[k + 1])
  }

  // ----- no event is forgotten

  /** A wake-up is on its way: somewhere between the callback and the worker, something still stands for the event. */
  predicate OnItsWay(s: State, e: Event) {
    || e in s.queue || e in s.inCallback || s.loop == Handling(e)
    || s.overflow || s.loop == Swapped(true)
    || (s.debounce && !s.loop.Sent?)
    || s.job || s.worker.Taken?
  }

  /** A check that reads the files began after the event. */
  predicate Checked(s: State, e: Event) {
    e.at < s.lastCheck
  }

  ghost predicate Inv(s: State) {
    && |s.queue| <= QUEUE_CAPACITY
    && (forall e :: e in s.seen ==> e.at < s.clock)
    && (!s.worker.WorkerEnded? ==>
          forall e :: e in s.seen && e.kind != Ignored ==> Safe(s, e))
  }

  lemma {:induction false} NativeKeeps(s: State, s': State, e: Event, d: Event)
    requires (Native(s, s', e) && (d == e || Safe(s, d))) || (NativeOverflow(s, s', e) && Safe(s, d))
    ensures Safe(s', d)
  {
    if d == e && Native(s, s', e) && |s.queue| < QUEUE_CAPACITY && !s.loop.LoopEnded? {
      assert s'.queue[|s.queue|] == e;
    }
  }

  lemma {:induction false} NativeHolds(s: State, s': State, e: Event)
    requires Inv(s) && (Native(s, s', e) || NativeOverflow(s, s', e))
    ensures Inv(s')
  {
    hide Safe;
    if !s'.worker.WorkerEnded? {
      forall d | d in s'.seen && d.kind != Ignored ensures Safe(s', d) {
        NativeKeeps(s, s', e, d);
      }
    }
  }

  ghost predicate Safe(s: State, e: Event) {
    OnItsWay(s, e) || Checked(s, e)
  }

  lemma {:induction false} ReceiveKeeps(s: State, s': State, e: Event)
    requires Receive(s, s') && Safe(s, e)
    ensures Safe(s', e)
  {
    if e in s.queue {
      var i :| 0 <= i < |s.queue| && s.queue[i] == e;
      assert i > 0 ==> s'.queue[i - 1] == e;
    }
  }

  lemma {:induction false} HandleKeeps(s: State, s': State, e: Event)
    requires Handle(s, s') && Safe(s, e) && e.kind != Ignored
    ensures Safe(s', e)
  {
  }

  lemma {:induction false} TickKeeps(s: State, s': State, e: Event)
    requires SwapOverflow(s, s') || MarkCoalesced(s, s') || TrySend(s, s') || ClearDebounce(s, s') || Poll(s, s')
    requires Safe(s, e)
    ensures Safe(s', e)
  {
  }

  lemma {:induction false} LoopHolds(s: State, s': State)
    requires Inv(s) && LoopStep(s, s')
    ensures Inv(s')
  {
    hide LoopStep, Safe;
    LoopFrame(s, s');
    if !s.worker.WorkerEnded? {
      forall e | e in s'.seen && e.kind != Ignored ensures Safe(s', e) {
        assert Safe(s, e);
        LoopKeeps(s, s', e);
      }
    }
  }

  ghost predicate Framed(s: State, s': State) {
    && s'.seen == s.seen && s'.clock == s.clock + 1 && |s'.queue| <= |s.queue|
    && s'.worker == s.worker && s'.lastCheck == s.lastCheck && s'.shutdown == s.shutdown
  }

  lemma {:induction false} EventFrame(s: State, s': State)
    requires Receive(s, s') || Handle(s, s')
    ensures Framed(s, s')
  {
  }

  lemma {:induction false} TickFrame(s: State, s': State)
    requires SwapOverflow(s, s') || MarkCoalesced(s, s') || TrySend(s, s') || EndLoop(s, s')
    ensures Framed(s, s')
  {
  }

  lemma {:induction false} PollFrame(s: State, s': State)
    requires ClearDebounce(s, s') || Poll(s, s')
    ensures Framed(s, s')
  {
  }

  lemma {:induction false} LoopFrame(s: State, s': State)
    requires LoopStep(s, s')
    ensures Framed(s, s')
  {
    hide Receive, Handle, SwapOverflow, MarkCoalesced, TrySend, ClearDebounce, Poll, EndLoop, Framed;
    if Receive(s, s') || Handle(s, s') {
      EventFrame(s, s');
    } else if ClearDebounce(s, s') || Poll(s, s') {
      PollFrame(s, s');
    } else {
      TickFrame(s, s');
    }
  }

  lemma {:induction false} LoopKeeps(s: State, s': State, e: Event)
    requires LoopStep(s, s') && Safe(s, e) && e.kind != Ignored
    ensures Safe(s', e)
  {
    hide Receive, Handle, SwapOverflow, MarkCoalesced, TrySend, ClearDebounce, Poll;
    if Receive(s, s') {
      ReceiveKeeps(s, s', e);
    } else if Handle(s, s') {
      HandleKeeps(s, s', e);
    } else if !EndLoop(s, s') {
      hide Safe;
      TickKeeps(s, s', e);
    }
  }

  lemma {:induction false} WorkerKeeps(s: State, s': State, e: Event)
    requires WorkerStep(s, s') && !s'.worker.WorkerEnded? && Safe(s, e) && e.at < s.clock
    ensures Safe(s', e)
  {
  }

  lemma {:induction false} WorkerHolds(s: State, s': State)
    requires Inv(s) && WorkerStep(s, s')
    ensures Inv(s')
  {
    assert s'.seen == s.seen && s'.clock == s.clock + 1 && s'.queue == s.queue;
    if !s'.worker.WorkerEnded? {
      assert !s.worker.WorkerEnded?;
      forall e | e in s'.seen && e.kind != Ignored ensures Safe(s', e) {
        hide OnItsWay, Checked, WorkerStep;
        assert Safe(s, e);
        WorkerKeeps(s, s', e);
      }
    }
  }

  lemma {:induction false} NextHolds(s: State, s': State)
    requires Inv(s) && Next(s, s')
    ensures Inv(s')
  {
    hide LoopStep, WorkerStep, Native, NativeOverflow;
    if e :| Native(s, s', e) {
      NativeHolds(s, s', e);
    } else if e :| NativeOverflow(s, s', e) {
      NativeHolds(s, s', e);
    } else if LoopStep(s, s') {
      LoopHolds(s, s');
    } else if WorkerStep(s, s') {
      WorkerHolds(s, s');
    }
  }

  lemma {:induction false} RunHolds(run: seq<State>, k: nat)
    requires IsRun(run) && k < |run|
    ensures Inv(run[k])
  {
    hide Next;
    if k > 0 {
      RunHolds(run, k - 1);
      NextHolds(run[k - 1], run[k]);
    }
  }

  /** In every interleaving, while the worker thread lives, each event that matters is on its way to the worker or
      has been followed by the start of a check. */
  lemma {:induction false} NoLostWakeUp(run: seq<State>, k: nat, e: Event)
    requires IsRun(run) && k < |run| && e in run[k].seen && e.kind != Ignored
    requires !run[k].worker.WorkerEnded?
    ensures OnItsWay(run[k], e) || Checked(run[k], e)
  {
    hide IsRun, OnItsWay, Checked;
    RunHolds(run, k);
  }

  lemma {:induction false} EndedStep(s: State, s': State)
    requires Next(s, s') && s.worker.WorkerEnded?
    ensures s'.worker.WorkerEnded? && s'.lastCheck == s.lastCheck
  {
    hide LoopStep;
    if LoopStep(s, s') {
      LoopFrame(s, s');
    }
  }

  /** The condition on the worker cannot be dropped: once its thread has ended, an event it has not checked is never
      checked in any later state. */
  lemma {:induction false} EndedWorkerChecksNothing(run: seq<State>, j: nat, k: nat, e: Event)
    requires IsRun(run) && j <= k < |run| && run[j].worker.WorkerEnded?
    ensures run[k].worker.WorkerEnded? && (Checked(run[k], e) <==> Checked(run[j], e))
    decreases k
  {
    hide Next;
    if j < k {
      EndedWorkerChecksNothing(run, j, k - 1, e);
      EndedStep(run[k - 1], run[k]);
    }
  }

  /** The worker has opened its store and is running. */
  predicate Running(s: State) {
    s.worker.Waiting? || s.worker.Taken? || s.worker.Working?
  }

  lemma {:induction false} RunningStep(s: State, s': State)
    requires Next(s, s')
    ensures s.shutdown ==> s'.shutdown
    ensures Running(s) && !s'.shutdown ==> Running(s')
    ensures s'.worker.WorkerEnded? && !s'.shutdown ==> s.worker.Starting? || s.worker.WorkerEnded?
  {
    hide LoopStep;
    if LoopStep(s, s') {
      LoopFrame(s, s');
    }
  }

  /** A worker that has opened its store runs until shutdown is requested. */
  lemma {:induction false} RunsUntilShutdown(run: seq<State>, j: nat, k: nat)
    requires IsRun(run) && j <= k < |run| && Running(run[j]) && !run[k].shutdown
    ensures Running(run[k])
    decreases k
  {
    hide Next;
    if j < k {
      RunningStep(run[k - 1], run[k]);
      RunsUntilShutdown(run, j, k - 1);
    }
  }

  /** Without a shutdown a worker can only have ended before it ever ran: its store did not open. */
  lemma {:induction false} EndedBeforeRunning(run: seq<State>, k: nat)
    requires IsRun(run) && k < |run| && run[k].worker.WorkerEnded? && !run[k].shutdown
    ensures forall j :: 0 <= j <= k ==> !Running(run[j])
  {
    hide IsRun;
    forall j | 0 <= j <= k ensures !Running(run[j]) {
      if Running(run[j]) {
        RunsUntilShutdown(run, j, k);
      }
    }
  }

  /** Once the worker has opened its store, and until shutdown is requested, no event that matters is lost. */
  lemma {:induction false} NothingLostOnceOpen(run: seq<State>, j: nat, k: nat, e: Event)
    requires IsRun(run) && j <= k < |run| && Running(run[j]) && !run[k].shutdown
    requires e in run[k].seen && e.kind != Ignored
    ensures OnItsWay(run[k], e) || Checked(run[k], e)
  {
    hide IsRun, OnItsWay, Checked;
    RunsUntilShutdown(run, j, k);
    NoLostWakeUp(run, k, e);
  }

  /** When everything is at rest, every event that matters has been followed by a check. */
  lemma {:induction false} QuietMeansChecked(run: seq<State>, k: nat, e: Event)
    requires IsRun(run) && k < |run| && e in run[k].seen && e.kind != Ignored
    requires var s := run[k];
             && s.queue == [] && s.inCallback == {} && !s.overflow && !s.debounce && !s.job
             && s.loop.AtSelect? && s.worker.Waiting?
    ensures e.at < run[k].lastCheck
  {
    hide IsRun;
    NoLostWakeUp(run, k, e);
  }

  /** The queue never holds more than its capacity. */
  lemma {:induction false} QueueIsBounded(run: seq<State>, k: nat)
    requires IsRun(run) && k < |run|
    ensures |run[k].queue| <= 128
  {
    hide IsRun;
    RunHolds(run, k);
  }

  /** Up to that bound events do wait in it. */
  lemma {:induction false} QueueFills(n: nat) returns (run: seq<State>)
    requires n <= 128
    ensures IsRun(run) && |run[|run| - 1].queue| == n && !run[|run| - 1].overflow
    ensures run[|run| - 1].loop.AtSelect? && forall e :: e in run[|run| - 1].seen ==> e.at < run[|run| - 1].clock
  {
    if n == 0 {
      run := [State([], {}, false, true, false, AtSelect, Starting, false, 1, 0, {})];
    } else {
      var before := QueueFills(n - 1);
      var s := before[|before| - 1];
      var e := Event(0, s.clock, Notable);
      var s' := Tick(s).(queue := s.queue + [e], seen := s.seen + {e});
      assert Native(s, s', e);
      hide IsRun;
      Append(before, s');
      run := before + [s'];
    }
  }

  /** At that bound the next event is not queued but sets the overflow flag. */
  lemma {:induction false} FullQueueOverflows(s: State, s': State, e: Event)
    requires Native(s, s', e)
    ensures |s.queue| >= 128 ==> s'.queue == s.queue && e in s'.inCallback
    ensures |s.queue| < 128 && !s.loop.LoopEnded? ==> s'.queue == s.queue + [e] && s'.inCallback == s.inCallback
  {
  }

  lemma {:induction false} Append(run: seq<State>, s: State)
    requires IsRun(run) && Next(run[|run| - 1], s)
    ensures IsRun(run + [s])
  {
    hide Next;
    var run' := run + [s];
    forall k | 0 <= k < |run'| - 1 ensures Next(run'[k], run'[k + 1]) {
      if k < |run| - 1 {
        assert run'[k] == run[k] && run'[k + 1] == run[k + 1];
      }
    }
  }

  /** From the start, an event can reach the debounce slot before the worker has opened its store. */
  lemma {:induction false} EventDebounced(e: Event) returns (run: seq<State>)
    requires e == Event(0, 1, Notable)
    ensures IsRun(run)
    ensures run[|run| - 1] == State([], {}, false, true, false, AtSelect, Starting, false, 4, 0, {e})
  {
    var s0 := State([], {}, false, true, false, AtSelect, Starting, false, 1, 0, {});
    var s1 := Tick(s0).(queue := [e], seen := {e});
    var s2 := Tick(s1).(loop := Handling(e), queue := []);
    var s3 := Tick(s2).(loop := AtSelect, debounce := true);
    assert Native(s0, s1, e) && Receive(s1, s2) && Handle(s2, s3);
    assert Next(s0, s1) && Next(s1, s2) && Next(s2, s3);
    hide Next;
    run := [s0, s1, s2, s3];
  }

  /** If the worker's store does not open, an event can be lost without any shutdown: its job is queued for a
      worker that is about to die. */
  lemma {:induction false} WorkerFailureLosesEvent() returns (run: seq<State>, e: Event)
    ensures IsRun(run)
    ensures var s := run[|run| - 1];
            && e in s.seen && e.kind == Notable && !s.shutdown && s.worker.WorkerEnded?
            && !OnItsWay(s, e) && !Checked(s, e)
  {
    e := Event(0, 1, Notable);
    run := EventDebounced(e);
    hide IsRun;
    var s3 := run[|run| - 1];
    var s4 := Tick(s3).(loop := Swapped(false));
    assert SwapOverflow(s3, s4);
    Append(run, s4);
    var s5 := Tick(s4).(loop := Sending);
    assert MarkCoalesced(s4, s5);
    Append(run + [s4], s5);
    var s6 := Tick(s5).(loop := Sent, job := true);
    assert TrySend(s5, s6);
    Append(run + [s4] + [s5], s6);
    var s7 := Tick(s6).(loop := Polling, debounce := false);
    assert ClearDebounce(s6, s7);
    Append(run + [s4] + [s5] + [s6], s7);
    var s8 := Tick(s7).(worker := WorkerEnded, job := false);
    assert EndWorker(s7, s8);
    Append(run + [s4] + [s5] + [s6] + [s7], s8);
    run := run + [s4] + [s5] + [s6] + [s7] + [s8];
  }
}
