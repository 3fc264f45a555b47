/** What a wait reports, spelled out for every reason and every mode. */
module Stops {
  import opened Words
  import opened PagedMemory
  import opened Machine
  import opened Steps
  import opened Runs
  import opened Halting
  import opened DebugLoop
  import opened Sessions
  import M = Machine

  // ---------- Events of one step ----------

  /** The step at `m` returned `r` and led to `m'`; the wait ended there with `event`. */
  predicate Ends(host: Host, m: M.Machine, mode: ExecMode, breakpoints: set<u32>, event: Event) {
    M.Step(host, m).0 != Hung &&
        StopAfter(mode, breakpoints, M.Step(host, m).0, M.Step(host, m).1.hart.pc) == Some(event)
  }

  /** Exited is reported exactly for a halting call, with its code. */
  lemma ExitedIff(host: Host, m: M.Machine, mode: ExecMode, breakpoints: set<u32>, event: Event, code: byte)
    requires Ends(host, m, mode, breakpoints, event)
    ensures event == TargetStopped(Exited(code)) <==> AtHalt(m, Halted(code))
  {
    hide M.Step, AtHalt;
    HaltsReturn(host, m, Halted(code));
    if M.Step(host, m).0.Ran? {
      ExitIff(host, m, Halted(code));
      match M.Step(host, m).0.exit
      case Some(Halted(c)) => ExitIff(host, m, Halted(c)); HaltCodes(m, c);
      case _ =>
    }
  }

  lemma HaltCodes(m: M.Machine, code: u32)
    ensures AtHalt(m, Halted(code)) ==> code < 0x100
  {
    hide ReadMem;
  }

  lemma HaltsReturn(host: Host, m: M.Machine, exit: Exit)
    ensures AtHalt(m, exit) ==> M.Step(host, m).0.Ran? || M.Step(host, m).0 == Hung
  {
    hide M.Step, AtHalt, OpcodeCycle, SessionCycle.Settle;
    if AtHalt(m, exit) {
      HaltingStep(host, m, exit);
    }
  }

  /** SwBreak is reported exactly for a pausing call, and for a step without an exit onto a
      breakpoint, in a range step inside the range. */
  lemma SwBreakIff(host: Host, m: M.Machine, mode: ExecMode, breakpoints: set<u32>, event: Event)
    requires Ends(host, m, mode, breakpoints, event)
    ensures var (r, m') := M.Step(host, m);
            event == TargetStopped(SwBreak) <==>
            || (exists code :: AtHalt(m, Paused(code)))
            || (r == Ran(None) && m'.hart.pc in breakpoints
                && (mode.RangeStep? ==> mode.start <= m'.hart.pc < mode.end))
  {
    hide M.Step, AtHalt;
    forall code | AtHalt(m, Paused(code)) ensures M.Step(host, m).0 == Ran(Some(Paused(code))) {
      HaltsReturn(host, m, Paused(code));
      ExitIff(host, m, Paused(code));
    }
    if M.Step(host, m).0.Ran? && M.Step(host, m).0.exit.Some? && M.Step(host, m).0.exit.value.Paused? {
      ExitIff(host, m, M.Step(host, m).0.exit.value);
    }
  }

  /** A watchpoint is reported exactly when the step completes and it is the first that an access
      of the step matches. */
  lemma WatchHitIff(host: Host, m: M.Machine, mode: ExecMode, breakpoints: set<u32>, event: Event,
                    kind: WatchKind, addr: u32)
    requires Ends(host, m, mode, breakpoints, event) && m.mem.ledger.Some?
    ensures var (r, m') := M.Step(host, m);
            event == TargetStopped(WatchHit(kind, addr)) <==>
            r.Ran? && exists i, k :: IsFirstHit(m.mem.watches, m'.mem.log, i, k, Hit(kind, addr))
  {
    hide M.Step, IsFirstHit;
    if M.Step(host, m).0.Ran? {
      WatchReport(host, m, Hit(kind, addr));
      FirstHitIff(m.mem.watches, M.Step(host, m).1.mem.log, Hit(kind, addr));
    }
  }

  /** DoneStep is reported exactly for a step without an exit: in step mode off every breakpoint, in
      a range step out of the range. */
  lemma DoneStepIff(host: Host, m: M.Machine, mode: ExecMode, breakpoints: set<u32>, event: Event)
    requires Ends(host, m, mode, breakpoints, event)
    ensures var (r, m') := M.Step(host, m);
            event == TargetStopped(DoneStep) <==>
            && r == Ran(None)
            && ((mode == ExecMode.Step && m'.hart.pc !in breakpoints)
                || (mode.RangeStep? && !(mode.start <= m'.hart.pc < mode.end)))
  {
    hide M.Step;
  }

  /** The rest: an error is reported as a termination, a panic ends the program, and nothing else is
      reported of a step. */
  lemma OtherEvents(host: Host, m: M.Machine, mode: ExecMode, breakpoints: set<u32>, event: Event)
    requires Ends(host, m, mode, breakpoints, event)
    ensures event == TargetStopped(Terminated) <==> M.Step(host, m).0 == Failed
    ensures event == Crashed <==> M.Step(host, m).0 == Panicked
    ensures event != ConnectionLost && !event.IncomingData? && event != TargetStopped(Interrupt)
  {
    hide M.Step;
  }

  // ---------- Waits ----------

  /** Step `n` is the first stop, so its event is that of the step. */
  lemma FirstStopEnds(host: Host, m: M.Machine, mode: ExecMode, breakpoints: set<u32>, n: nat, event: Event)
    requires FirstStop(host, m, mode, breakpoints, n, event)
    ensures n > 0 && Ends(host, After(host, m, n - 1), mode, breakpoints, event)
    ensures After(host, m, n) == M.Step(host, After(host, m, n - 1)).1
    ensures mode == ExecMode.Step ==> n == 1
  {
    hide M.Step;
    if n > 1 && mode == ExecMode.Step {
      assert GoesOn(host, m, mode, breakpoints, 1);
      StepStops(breakpoints, ResultOf(host, m, 0), After(host, m, 1).hart.pc);
    }
  }

  lemma StepStops(breakpoints: set<u32>, r: StepResult, pc: u32)
    requires r != Hung
    ensures StopAfter(ExecMode.Step, breakpoints, r, pc).Some?
  {
  }

  /** What `event` says of a step that returned `r` and led from `at` to `end`: an exit with the code
      of the halting call it was at; a software break at a pausing call, or for landing on a
      breakpoint; the first watchpoint that the step matched; a done step off breakpoints, or out of
      the range; a termination for an error, and the end of the program for a panic. */
  ghost predicate Says(mode: ExecMode, breakpoints: set<u32>, at: M.Machine, r: StepResult, end: M.Machine,
                       event: Event) {
    && (forall code: byte :: event == TargetStopped(Exited(code)) <==> AtHalt(at, Halted(code)))
    && (event == TargetStopped(SwBreak) <==>
          || (exists code :: AtHalt(at, Paused(code)))
          || (r == Ran(None) && end.hart.pc in breakpoints
              && (mode.RangeStep? ==> mode.start <= end.hart.pc < mode.end)))
    && (forall kind, addr: u32 :: event == TargetStopped(WatchHit(kind, addr)) <==>
          r.Ran? && exists i, k :: IsFirstHit(at.mem.watches, end.mem.log, i, k, Hit(kind, addr)))
    && (event == TargetStopped(DoneStep) <==>
          && r == Ran(None)
          && ((mode == ExecMode.Step && end.hart.pc !in breakpoints)
              || (mode.RangeStep? && !(mode.start <= end.hart.pc < mode.end))))
    && (event == TargetStopped(Terminated) <==> r == Failed)
    && (event == Crashed <==> r == Panicked)
  }

  /** The reason that a run stops for, in every mode, is told by its last step alone. */
  lemma StopReasons(host: Host, m: M.Machine, mode: ExecMode, breakpoints: set<u32>, n: nat, event: Event)
    requires FirstStop(host, m, mode, breakpoints, n, event) && After(host, m, n - 1).mem.ledger.Some?
    ensures Says(mode, breakpoints, After(host, m, n - 1), ResultOf(host, m, n - 1), After(host, m, n), event)
    ensures mode == ExecMode.Step ==> n == 1
  {
    hide M.Step, Ends, FirstStop, AtHalt, IsFirstHit, After;
    FirstStopEnds(host, m, mode, breakpoints, n, event);
    StepSays(host, After(host, m, n - 1), mode, breakpoints, event);
  }

  lemma StepSays(host: Host, at: M.Machine, mode: ExecMode, breakpoints: set<u32>, event: Event)
    requires Ends(host, at, mode, breakpoints, event) && at.mem.ledger.Some?
    ensures Says(mode, breakpoints, at, M.Step(host, at).0, M.Step(host, at).1, event)
  {
    hide M.Step, Ends, AtHalt, IsFirstHit;
    forall code: byte ensures event == TargetStopped(Exited(code)) <==> AtHalt(at, Halted(code)) {
      ExitedIff(host, at, mode, breakpoints, event, code);
    }
    SwBreakIff(host, at, mode, breakpoints, event);
    forall kind, addr: u32
      ensures event == TargetStopped(WatchHit(kind, addr)) <==>
              M.Step(host, at).0.Ran?
              && exists i, k :: IsFirstHit(at.mem.watches, M.Step(host, at).1.mem.log, i, k, Hit(kind, addr))
    {
      WatchHitIff(host, at, mode, breakpoints, event, kind, addr);
    }
    DoneStepIff(host, at, mode, breakpoints, event);
    OtherEvents(host, at, mode, breakpoints, event);
  }

  /** What a poll that finds something makes of a wait. */
  predicate Passes(poll: Poll, event: Event) {
    match poll
    case Silent => false
    case Data(b) => event == IncomingData(b)
    case Broken => event == ConnectionLost
  }

  /**
   What a wait returns. After an interrupt it makes no step: it passes on a byte that is there, a
   broken connection, or reports the interrupt. In any other mode it returns at a poll, made at a
   multiple of 1024 steps, with the byte that is there or a broken connection; or at the first stop,
   which in step mode is the first step.
   */
  lemma WaitReturns(host: Host, m: M.Machine, mode: ExecMode, breakpoints: set<u32>, polls: Polls, fuel: nat)
    requires Wait(host, m, mode, breakpoints, polls, fuel).Some?
    ensures var r := Wait(host, m, mode, breakpoints, polls, fuel).value;
            && r.machine == After(host, m, r.steps)
            && (mode == Interrupted ==>
                  && r.steps == 0
                  && (Passes(polls(0), r.event) || (polls(0) == Silent && r.event == TargetStopped(Interrupt))))
            && (mode != Interrupted ==>
                  || (&& r.steps % 1024 == 0 && SilentBelow(polls, r.steps / 1024)
                      && Passes(polls(r.steps / 1024), r.event))
                  || (&& r.steps > 0 && Ends(host, After(host, m, r.steps - 1), mode, breakpoints, r.event)
                      && (mode == ExecMode.Step ==> r.steps == 1)))
  {
    hide M.Step, Ends, FirstStop;
    if mode != Interrupted {
      LoopReturns(host, m, mode, breakpoints, polls, 0, fuel);
      var r := Wait(host, m, mode, breakpoints, polls, fuel).value;
      if StoppedAt(host, m, mode, breakpoints, polls, r.steps, r.event) {
        FirstStopEnds(host, m, mode, breakpoints, r.steps, r.event);
      }
    }
  }

  // ---------- Commands ----------

  /** The breakpoints act as a set, and only the two commands change them. */
  lemma BreakpointsActAsSet(host: Host, s: Session, c: Command)
    requires Apply(host, s, c).Some?
    ensures var s' := Apply(host, s, c).value.0;
            forall pc :: pc in s'.breakpoints <==>
              c == InsertBreak(pc) || (pc in s.breakpoints && c != DeleteBreak(pc))
  {
    hide Wait, Peek;
  }

  /** The mode is that of the last resumption, or interrupted since. */
  lemma ModeFollows(host: Host, s: Session, c: Command)
    requires Apply(host, s, c).Some?
    ensures Apply(host, s, c).value.0.mode ==
            match c case Resume(mode, _, _) => mode case PressInterrupt => Interrupted case _ => s.mode
  {
    hide Wait, Peek;
  }

  // ---------- After a disconnect ----------

  /** A pause, a halt, an error and a panic end the run; a watchpoint report does not. */
  predicate EndsRun(r: StepResult) {
    match r
    case Failed => true
    case Panicked => true
    case Hung => false
    case Ran(Some(Paused(_))) => true
    case Ran(Some(Halted(_))) => true
    case Ran(Some(HwWatchPoint(_))) => false
    case Ran(None) => false
  }

  /** The run after a disconnect returns exactly at the first step that ends it, with its result. */
  lemma {:induction false} RunOnIff(host: Host, m: M.Machine, fuel: nat, last: StepResult, end: M.Machine, n: nat)
    ensures RunOn(host, m, fuel) == Some((last, end, n)) <==>
            && 0 < n <= fuel && end == After(host, m, n) && last == ResultOf(host, m, n - 1) && EndsRun(last)
            && forall k | 0 <= k < n - 1 :: ResultOf(host, m, k) != Hung && !EndsRun(ResultOf(host, m, k))
    decreases fuel
  {
    hide M.Step;
    if fuel > 0 {
      var (r, m') := M.Step(host, m);
      assert After(host, m, 1) == m' && ResultOf(host, m, 0) == r by { assert After(host, m, 0) == m; }
      if r != Hung && !EndsRun(r) && n > 1 {
        RunOnIff(host, m', fuel - 1, last, end, n - 1);
        AfterAfter(host, m, 1, n - 1);
        AfterAfter(host, m, 1, n - 2);
        forall k | 0 <= k < n - 2 ensures ResultOf(host, m', k) == ResultOf(host, m, k + 1) {
          AfterAfter(host, m, 1, k);
        }
        assert forall k | 0 < k < n - 1 :: ResultOf(host, m, k) == ResultOf(host, m', k - 1);
      } else if r != Hung && !EndsRun(r) {
        RunOnCounts(host, m', fuel - 1);
      }
    }
  }

  lemma RunOnCounts(host: Host, m: M.Machine, fuel: nat)
    ensures RunOn(host, m, fuel).Some? ==> RunOn(host, m, fuel).value.2 > 0
  {
    hide M.Step;
  }
}
