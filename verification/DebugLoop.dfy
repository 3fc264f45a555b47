/**
 The debugger's run loops as functions of the machine, the execution mode, the breakpoints
 and a schedule of polls, and what they have to do with repeated single steps.
 */
module DebugLoop {
  import opened Words
  import opened PagedMemory
  import opened Machine
  import opened Runs
  import M = Machine

  datatype ExecMode = Step | Continue | RangeStep(start: u32, end: u32) | Interrupted

  /** What a poll of the connection finds; a broken connection counts as data, and the read
      that follows fails. */
  datatype Poll = Silent | Data(value: byte) | Broken

  type Polls = nat -> Poll

  datatype Reason =
    | Terminated | SwBreak | DoneStep | Exited(code: byte) | WatchHit(kind: WatchKind, addr: u32) | Interrupt

  /** What a wait returns; a panic of the program ends it instead. */
  datatype Event = IncomingData(value: byte) | ConnectionLost | TargetStopped(reason: Reason) | Crashed

  datatype Return = Return(event: Event, machine: M.Machine, steps: nat)

  function PollEvent(p: Poll): Event {
    match p
    case Data(b) => IncomingData(b)
    case _ => ConnectionLost
  }

  function ExitReason(exit: Exit): Reason {
    match exit
    case Paused(_) => SwBreak
    case Halted(code) => Exited(code % 0x100)
    case HwWatchPoint(hit) => WatchHit(hit.kind, hit.addr)
  }

  /** Why a step that returned `r` and left the program counter at `pc` ends the wait, if it does. */
  function StopAfter(mode: ExecMode, breakpoints: set<u32>, r: StepResult, pc: u32): Option<Event> {
    match r
    case Failed => Some(TargetStopped(Terminated))
    case Panicked => Some(Crashed)
    case Hung => None
    case Ran(Some(exit)) => Some(TargetStopped(ExitReason(exit)))
    case Ran(None) =>
      match mode
      case Step => Some(TargetStopped(if pc in breakpoints then SwBreak else DoneStep))
      case RangeStep(start, end) =>
        if !(start <= pc < end) then Some(TargetStopped(DoneStep))
        else if pc in breakpoints then Some(TargetStopped(SwBreak))
        else None
      case _ => if pc in breakpoints then Some(TargetStopped(SwBreak)) else None
  }

  /** The loop of Continue and RangeStep, from the iteration that has made `cycles` steps. It
      polls before every 1024th step. `None` when it has not returned within `fuel` steps. */
  function Loop(host: Host, m: M.Machine, mode: ExecMode, breakpoints: set<u32>, polls: Polls, cycles: nat, fuel: nat):
      Option<Return>
    decreases fuel
  {
    if cycles % 1024 == 0 && polls(cycles / 1024) != Silent then
      Some(Return(PollEvent(polls(cycles / 1024)), m, cycles))
    else if fuel == 0 then None
    else
      var (r, m') := M.Step(host, m);
      var stop := StopAfter(mode, breakpoints, r, m'.hart.pc);
      if r == Hung then None
      else if stop.Some? then Some(Return(stop.value, m', cycles + 1))
      else Loop(host, m', mode, breakpoints, polls, cycles + 1, fuel - 1)
  }

  function Wait(host: Host, m: M.Machine, mode: ExecMode, breakpoints: set<u32>, polls: Polls, fuel: nat):
      Option<Return>
  {
    match mode
    case Interrupted =>
      if polls(0) != Silent then Some(Return(PollEvent(polls(0)), m, 0))
      else Some(Return(TargetStopped(Interrupt), m, 0))
    case _ => Loop(host, m, mode, breakpoints, polls, 0, fuel)
  }

  // ---------- Repeated single steps ----------

  /** Why the run stops at its step `k`, counting from one, if it does. */
  function StopAt(host: Host, m: M.Machine, mode: ExecMode, breakpoints: set<u32>, k: nat): Option<Event>
    requires k > 0
  {
    StopAfter(mode, breakpoints, ResultOf(host, m, k - 1), After(host, m, k).hart.pc)
  }

  ghost predicate GoesOn(host: Host, m: M.Machine, mode: ExecMode, breakpoints: set<u32>, k: nat)
    requires k > 0
  {
    ResultOf(host, m, k - 1) != Hung && StopAt(host, m, mode, breakpoints, k).None?
  }

  /** The first `n` steps complete and none of them is a reason to stop. */
  ghost predicate Free(host: Host, m: M.Machine, mode: ExecMode, breakpoints: set<u32>, n: nat) {
    forall k | 0 < k <= n :: GoesOn(host, m, mode, breakpoints, k)
  }

  /** Step `n` is the first that is a reason to stop, and `event` is the reason. */
  ghost predicate FirstStop(host: Host, m: M.Machine, mode: ExecMode, breakpoints: set<u32>, n: nat, event: Event) {
    && n > 0 && Free(host, m, mode, breakpoints, n - 1)
    && ResultOf(host, m, n - 1) != Hung
    && StopAt(host, m, mode, breakpoints, n) == Some(event)
  }

  ghost predicate SilentBelow(polls: Polls, n: nat) {
    forall i | 0 <= i < n :: polls(i) == Silent
  }

  /** The loop is left at step `n` because of a poll. */
  ghost predicate PolledAt(host: Host, m: M.Machine, mode: ExecMode, breakpoints: set<u32>, polls: Polls,
                           n: nat, event: Event)
  {
    && n % 1024 == 0 && Free(host, m, mode, breakpoints, n)
    && SilentBelow(polls, n / 1024) && polls(n / 1024) != Silent && event == PollEvent(polls(n / 1024))
  }

  /** The loop is left at step `n` because the target stops. */
  ghost predicate StoppedAt(host: Host, m: M.Machine, mode: ExecMode, breakpoints: set<u32>, polls: Polls,
                            n: nat, event: Event)
  {
    FirstStop(host, m, mode, breakpoints, n, event) && SilentBelow(polls, (n - 1) / 1024 + 1)
  }

  /** The loop after `i` free steps is the loop from the start. */
  lemma {:induction false} LoopAfter(host: Host, m: M.Machine, mode: ExecMode, breakpoints: set<u32>, polls: Polls,
                                     i: nat, fuel: nat)
    requires i <= fuel && Free(host, m, mode, breakpoints, i) && SilentBelow(polls, (i + 1023) / 1024)
    ensures Loop(host, m, mode, breakpoints, polls, 0, fuel) ==
            Loop(host, After(host, m, i), mode, breakpoints, polls, i, fuel - i)
  {
    hide M.Step, StopAfter;
    if i > 0 {
      LoopAfter(host, m, mode, breakpoints, polls, i - 1, fuel);
      assert GoesOn(host, m, mode, breakpoints, i);
      if (i - 1) % 1024 == 0 {
        assert (i + 1023) / 1024 == (i - 1) / 1024 + 1;
      }
    }
  }

  /** Where the loop is when it returns. */
  lemma {:induction false} LoopReturns(host: Host, m: M.Machine, mode: ExecMode, breakpoints: set<u32>, polls: Polls,
                                       i: nat, fuel: nat)
    requires Free(host, m, mode, breakpoints, i) && SilentBelow(polls, (i + 1023) / 1024)
    ensures var r := Loop(host, After(host, m, i), mode, breakpoints, polls, i, fuel);
            r.Some? ==> && r.value.machine == After(host, m, r.value.steps)
                        && (|| PolledAt(host, m, mode, breakpoints, polls, r.value.steps, r.value.event)
                            || StoppedAt(host, m, mode, breakpoints, polls, r.value.steps, r.value.event))
    decreases fuel
  {
    hide M.Step, StopAfter;
    if i % 1024 == 0 && polls(i / 1024) != Silent {
      assert (i + 1023) / 1024 == i / 1024;
    } else if fuel > 0 {
      PollsThrough(polls, i);
      var r := M.Step(host, After(host, m, i)).0;
      assert r == ResultOf(host, m, i);
      if GoesOn(host, m, mode, breakpoints, i + 1) {
        LoopReturns(host, m, mode, breakpoints, polls, i + 1, fuel - 1);
      }
    }
  }

  lemma PollsThrough(polls: Polls, i: nat)
    requires SilentBelow(polls, (i + 1023) / 1024) && (i % 1024 == 0 ==> polls(i / 1024) == Silent)
    ensures (i + 1 + 1023) / 1024 == i / 1024 + 1
    ensures SilentBelow(polls, i / 1024 + 1)
  {
    if i % 1024 != 0 { assert (i + 1023) / 1024 == i / 1024 + 1; }
  }

  /**
   Continue and RangeStep refine repeated single steps: with any schedule of polls, the wait
   returns after `n` steps with `event` exactly when either step `n` is the first reason to
   stop and no poll before it found data, or a poll at step `n` is the first to find data and
   no step so far is a reason to stop; and the machine is then the one after `n` single steps.
   */
  lemma LoopReturnsIff(host: Host, m: M.Machine, mode: ExecMode, breakpoints: set<u32>, polls: Polls, n: nat,
                       event: Event)
    ensures (exists fuel ::
            Loop(host, m, mode, breakpoints, polls, 0, fuel) == Some(Return(event, After(host, m, n), n)))
       <==> || PolledAt(host, m, mode, breakpoints, polls, n, event)
            || StoppedAt(host, m, mode, breakpoints, polls, n, event)
    ensures forall fuel :: var r := Loop(host, m, mode, breakpoints, polls, 0, fuel);
              r.Some? ==> r.value.machine == After(host, m, r.value.steps)
  {
    hide M.Step, StopAfter;
    forall fuel ensures var r := Loop(host, m, mode, breakpoints, polls, 0, fuel);
        r.Some? ==> && r.value.machine == After(host, m, r.value.steps)
                    && (|| PolledAt(host, m, mode, breakpoints, polls, r.value.steps, r.value.event)
                        || StoppedAt(host, m, mode, breakpoints, polls, r.value.steps, r.value.event))
    {
      LoopReturns(host, m, mode, breakpoints, polls, 0, fuel);
    }
    if PolledAt(host, m, mode, breakpoints, polls, n, event) {
      assert (n + 1023) / 1024 == n / 1024;
      LoopAfter(host, m, mode, breakpoints, polls, n, n);
    } else if StoppedAt(host, m, mode, breakpoints, polls, n, event) {
      var i := n - 1;
      assert (i + 1023) / 1024 <= i / 1024 + 1;
      LoopAfter(host, m, mode, breakpoints, polls, i, n);
      LoopStops(host, m, mode, breakpoints, polls, i, event, 1);
    }
  }

  lemma LoopStops(host: Host, m: M.Machine, mode: ExecMode, breakpoints: set<u32>, polls: Polls, i: nat,
                  event: Event, fuel: nat)
    requires StoppedAt(host, m, mode, breakpoints, polls, i + 1, event) && fuel > 0
    ensures Loop(host, After(host, m, i), mode, breakpoints, polls, i, fuel)
         == Some(Return(event, After(host, m, i + 1), i + 1))
  {
    hide M.Step, StopAfter;
    assert polls(i / 1024) == Silent;
    assert M.Step(host, After(host, m, i)) == (ResultOf(host, m, i), After(host, m, i + 1));
  }

  /** There is one first stop. */
  lemma FirstStopUnique(host: Host, m: M.Machine, mode: ExecMode, breakpoints: set<u32>, n: nat, e: Event, n': nat,
                        e': Event)
    requires FirstStop(host, m, mode, breakpoints, n, e) && FirstStop(host, m, mode, breakpoints, n', e')
    ensures n == n' && e == e'
  {
    hide M.Step, StopAfter;
    assert n < n' ==> GoesOn(host, m, mode, breakpoints, n);
    assert n' < n ==> GoesOn(host, m, mode, breakpoints, n');
  }

  // ---------- Interrupted and resumed waits ----------

  /** Waits in one mode, one after the other, each left by incoming data but the last. */
  function Waits(host: Host, m: M.Machine, mode: ExecMode, breakpoints: set<u32>, schedules: seq<Polls>, fuel: nat):
      Option<Return>
    decreases |schedules|
  {
    if schedules == [] then None
    else
      match Loop(host, m, mode, breakpoints, schedules[0], 0, fuel)
      case Some(Return(IncomingData(_), m', n)) =>
        (match Waits(host, m', mode, breakpoints, schedules[1..], fuel)
         case Some(Return(event, m'', n')) => Some(Return(event, m'', n + n'))
         case None => None)
      case r => r
  }

  lemma {:induction false} FreeThenFree(host: Host, m: M.Machine, mode: ExecMode, breakpoints: set<u32>, i: nat, j: nat)
    requires Free(host, m, mode, breakpoints, i) && Free(host, After(host, m, i), mode, breakpoints, j)
    ensures Free(host, m, mode, breakpoints, i + j)
  {
    hide M.Step, StopAfter;
    forall k | 0 < k <= i + j ensures GoesOn(host, m, mode, breakpoints, k) {
      if k > i {
        AfterAfter(host, m, i, k - i);
        AfterAfter(host, m, i, k - i - 1);
        assert GoesOn(host, After(host, m, i), mode, breakpoints, k - i);
      }
    }
  }

  /** However often incoming data interrupts the waits, and wherever, the run they make is the
      run of single steps up to its first reason to stop, which is what they report. */
  lemma {:induction false} WaitsRefineSteps(host: Host, m: M.Machine, mode: ExecMode, breakpoints: set<u32>,
                                            schedules: seq<Polls>, fuel: nat)
    ensures var r := Waits(host, m, mode, breakpoints, schedules, fuel);
            r.Some? && (r.value.event.TargetStopped? || r.value.event.Crashed?) ==>
              && FirstStop(host, m, mode, breakpoints, r.value.steps, r.value.event)
              && r.value.machine == After(host, m, r.value.steps)
    decreases |schedules|
  {
    hide M.Step, StopAfter, Loop, GoesOn;
    if schedules != [] {
      LoopReturns(host, m, mode, breakpoints, schedules[0], 0, fuel);
      match Loop(host, m, mode, breakpoints, schedules[0], 0, fuel)
      case Some(Return(IncomingData(b), m', n)) =>
        WaitsRefineSteps(host, m', mode, breakpoints, schedules[1..], fuel);
        match Waits(host, m', mode, breakpoints, schedules[1..], fuel) {
          case Some(Return(event, m'', n')) =>
            NotIncoming(host, m, mode, breakpoints, n);
            if event.TargetStopped? || event.Crashed? {
              FreeThenFree(host, m, mode, breakpoints, n, n' - 1);
              AfterAfter(host, m, n, n');
              AfterAfter(host, m, n, n' - 1);
            }
          case None =>
        }
      case _ =>
    }
  }

  /** A reason to stop is never incoming data. */
  lemma NotIncoming(host: Host, m: M.Machine, mode: ExecMode, breakpoints: set<u32>, n: nat)
    ensures forall b :: !FirstStop(host, m, mode, breakpoints, n, IncomingData(b))
    ensures !FirstStop(host, m, mode, breakpoints, n, ConnectionLost)
  {
    hide M.Step;
  }

  ghost predicate Unbroken(polls: Polls) {
    forall i :: polls(i) != Broken
  }

  ghost predicate AllSilent(polls: Polls) {
    forall i :: polls(i) == Silent
  }

  /** The schedules have no broken poll, and the last is all silent. */
  ghost predicate EndsSilent(schedules: seq<Polls>) {
    && schedules != []
    && (forall k | 0 <= k < |schedules| :: Unbroken(schedules[k]))
    && AllSilent(schedules[|schedules| - 1])
  }

  lemma FirstData(polls: Polls, n: nat) returns (i: nat)
    ensures i <= n && SilentBelow(polls, i) && (i < n ==> polls(i) != Silent)
  {
    i := 0;
    while i < n && polls(i) == Silent
      invariant i <= n && SilentBelow(polls, i)
    {
      i := i + 1;
    }
  }

  /** What is left of a run up to its first stop, after some of its steps. */
  lemma FirstStopAfter(host: Host, m: M.Machine, mode: ExecMode, breakpoints: set<u32>, i: nat, n: nat, event: Event)
    requires FirstStop(host, m, mode, breakpoints, n, event) && i < n
    ensures Free(host, m, mode, breakpoints, i)
    ensures FirstStop(host, After(host, m, i), mode, breakpoints, n - i, event)
  {
    hide M.Step, StopAfter;
    AfterAfter(host, m, i, n - i);
    AfterAfter(host, m, i, n - i - 1);
    forall k | 0 < k <= n - i - 1 ensures GoesOn(host, After(host, m, i), mode, breakpoints, k) {
      AfterAfter(host, m, i, k);
      AfterAfter(host, m, i, k - 1);
      assert GoesOn(host, m, mode, breakpoints, i + k);
    }
  }

  lemma LoopPolled(host: Host, m: M.Machine, mode: ExecMode, breakpoints: set<u32>, polls: Polls, i: nat, fuel: nat)
    requires Free(host, m, mode, breakpoints, 1024 * i) && 1024 * i <= fuel
    requires SilentBelow(polls, i) && polls(i) != Silent
    ensures Loop(host, m, mode, breakpoints, polls, 0, fuel)
         == Some(Return(PollEvent(polls(i)), After(host, m, 1024 * i), 1024 * i))
  {
    hide M.Step, StopAfter, Free;
    assert (1024 * i + 1023) / 1024 == i;
    LoopAfter(host, m, mode, breakpoints, polls, 1024 * i, fuel);
  }

  lemma LoopStopped(host: Host, m: M.Machine, mode: ExecMode, breakpoints: set<u32>, polls: Polls, n: nat,
                    event: Event, fuel: nat)
    requires StoppedAt(host, m, mode, breakpoints, polls, n, event) && fuel >= n
    ensures Loop(host, m, mode, breakpoints, polls, 0, fuel) == Some(Return(event, After(host, m, n), n))
  {
    hide M.Step, StopAfter, GoesOn, StopAt, Loop;
    var i := n - 1;
    assert (i + 1023) / 1024 <= i / 1024 + 1;
    LoopAfter(host, m, mode, breakpoints, polls, i, fuel);
    LoopStops(host, m, mode, breakpoints, polls, i, event, fuel - i);
  }

  /** And they get there: waits cut short any number of times, on a connection that does not break
      and is silent in the end, report the first stop of the run, after as many steps. */
  lemma {:induction false} WaitsReachStop(host: Host, m: M.Machine, mode: ExecMode, breakpoints: set<u32>,
                                          schedules: seq<Polls>, n: nat, event: Event, fuel: nat)
    requires FirstStop(host, m, mode, breakpoints, n, event) && EndsSilent(schedules) && fuel >= n
    ensures Waits(host, m, mode, breakpoints, schedules, fuel) == Some(Return(event, After(host, m, n), n))
    decreases |schedules|
  {
    hide M.Step, Loop, FirstStop, Free;
    var polls := schedules[0];
    assert Unbroken(polls);
    var i := FirstData(polls, (n - 1) / 1024 + 1);
    NotIncoming(host, m, mode, breakpoints, n);
    if i == (n - 1) / 1024 + 1 {
      LoopStopped(host, m, mode, breakpoints, polls, n, event, fuel);
    } else {
      var k := 1024 * i;
      FirstStopAfter(host, m, mode, breakpoints, k, n, event);
      LoopPolled(host, m, mode, breakpoints, polls, i, fuel);
      assert |schedules| > 1;
      WaitsReachStop(host, After(host, m, k), mode, breakpoints, schedules[1..], n - k, event, fuel);
      AfterAfter(host, m, k, n - k);
    }
  }

  /** So on such a connection the waits report a stop after `n` steps exactly when it is the first. */
  lemma WaitsStopIff(host: Host, m: M.Machine, mode: ExecMode, breakpoints: set<u32>, schedules: seq<Polls>,
                     n: nat, event: Event)
    requires EndsSilent(schedules) && (event.TargetStopped? || event.Crashed?)
    ensures FirstStop(host, m, mode, breakpoints, n, event)
       <==> exists fuel ::
           Waits(host, m, mode, breakpoints, schedules, fuel) == Some(Return(event, After(host, m, n), n))
  {
    hide M.Step, Loop, FirstStop, EndsSilent;
    if FirstStop(host, m, mode, breakpoints, n, event) {
      WaitsReachStop(host, m, mode, breakpoints, schedules, n, event, n);
    }
    forall fuel | Waits(host, m, mode, breakpoints, schedules, fuel) == Some(Return(event, After(host, m, n), n))
      ensures FirstStop(host, m, mode, breakpoints, n, event)
    {
      WaitsRefineSteps(host, m, mode, breakpoints, schedules, fuel);
    }
  }

  /** So the schedules are invisible: two series of waits that end with a stop end alike. */
  lemma SchedulesInvisible(host: Host, m: M.Machine, mode: ExecMode, breakpoints: set<u32>,
                           s: seq<Polls>, fuel: nat, s': seq<Polls>, fuel': nat)
    requires Waits(host, m, mode, breakpoints, s, fuel).Some? && Waits(host, m, mode, breakpoints, s', fuel').Some?
    requires Waits(host, m, mode, breakpoints, s, fuel).value.event.TargetStopped?
    requires Waits(host, m, mode, breakpoints, s', fuel').value.event.TargetStopped?
    ensures Waits(host, m, mode, breakpoints, s, fuel) == Waits(host, m, mode, breakpoints, s', fuel')
  {
    var r, r' := Waits(host, m, mode, breakpoints, s, fuel).value, Waits(host, m, mode, breakpoints, s', fuel').value;
    WaitsRefineSteps(host, m, mode, breakpoints, s, fuel);
    WaitsRefineSteps(host, m, mode, breakpoints, s', fuel');
    FirstStopUnique(host, m, mode, breakpoints, r.steps, r.event, r'.steps, r'.event);
  }

  // ---------- Range stepping ----------

  /**
   A range step visits only program counters in [start, end) and off every breakpoint before
   its last step. Its order of reasons: an error or an exit code, then leaving the range, then
   a breakpoint. With an empty range it takes one step.
   */
  lemma RangeStepStays(host: Host, m: M.Machine, start: u32, end: u32, breakpoints: set<u32>, n: nat, event: Event)
    requires FirstStop(host, m, RangeStep(start, end), breakpoints, n, event)
    ensures forall k | 0 < k < n :: var pc := After(host, m, k).hart.pc;
              start <= pc < end && pc !in breakpoints && ResultOf(host, m, k - 1) == Ran(None)
    ensures var pc, last := After(host, m, n).hart.pc, ResultOf(host, m, n - 1);
            && (event == TargetStopped(DoneStep) <==> last == Ran(None) && !(start <= pc < end))
            && (last == Ran(None) && start <= pc < end ==> event == TargetStopped(SwBreak) && pc in breakpoints)
    ensures start >= end ==> n == 1
  {
    hide M.Step, After, StopAfter, ResultOf;
    forall k | 0 < k < n ensures var pc := After(host, m, k).hart.pc;
      start <= pc < end && pc !in breakpoints && ResultOf(host, m, k - 1) == Ran(None)
    {
      RangeGoesOn(host, m, start, end, breakpoints, k);
    }
    RangeStops(host, m, start, end, breakpoints, n, event);
    if n > 1 { RangeGoesOn(host, m, start, end, breakpoints, 1); }
  }

  lemma RangeGoesOn(host: Host, m: M.Machine, start: u32, end: u32, breakpoints: set<u32>, k: nat)
    requires k > 0 && GoesOn(host, m, RangeStep(start, end), breakpoints, k)
    ensures var pc := After(host, m, k).hart.pc;
            start <= pc < end && pc !in breakpoints && ResultOf(host, m, k - 1) == Ran(None)
  {
    hide M.Step, After, ResultOf;
  }

  lemma RangeStops(host: Host, m: M.Machine, start: u32, end: u32, breakpoints: set<u32>, n: nat, event: Event)
    requires n > 0 && StopAt(host, m, RangeStep(start, end), breakpoints, n) == Some(event)
    ensures var pc, last := After(host, m, n).hart.pc, ResultOf(host, m, n - 1);
            && (event == TargetStopped(DoneStep) <==> last == Ran(None) && !(start <= pc < end))
            && (last == Ran(None) && start <= pc < end ==> event == TargetStopped(SwBreak) && pc in breakpoints)
  {
    hide M.Step, After, ResultOf;
  }

  /** Step `k` completes without an exit code, away from every breakpoint. */
  predicate Uneventful(host: Host, m: M.Machine, breakpoints: set<u32>, k: nat)
    requires k > 0
  {
    ResultOf(host, m, k - 1) == Ran(None) && After(host, m, k).hart.pc !in breakpoints
  }

  /** Continue stops at the first step that fails, yields an exit code or lands on a breakpoint. */
  lemma ContinueStops(host: Host, m: M.Machine, breakpoints: set<u32>, n: nat, event: Event)
    ensures FirstStop(host, m, Continue, breakpoints, n, event)
       <==> && n > 0
            && (forall k | 0 < k < n :: Uneventful(host, m, breakpoints, k))
            && match ResultOf(host, m, n - 1)
               case Failed => event == TargetStopped(Terminated)
               case Panicked => event == Crashed
               case Hung => false
               case Ran(Some(exit)) => event == TargetStopped(ExitReason(exit))
               case Ran(None) => After(host, m, n).hart.pc in breakpoints && event == TargetStopped(SwBreak)
  {
    hide M.Step, After;
    if n > 0 && forall k | 0 < k < n :: Uneventful(host, m, breakpoints, k) {
      forall k | 0 < k <= n - 1 ensures GoesOn(host, m, Continue, breakpoints, k) {
        assert Uneventful(host, m, breakpoints, k);
      }
    }
    if n > 0 && Free(host, m, Continue, breakpoints, n - 1) {
      forall k | 0 < k < n ensures Uneventful(host, m, breakpoints, k) {
        assert GoesOn(host, m, Continue, breakpoints, k);
      }
    }
  }
}
