/** The debugger: the run loops, breakpoints, watchpoints and memory access in place. */
module Debugger {
  import opened Words
  import opened SessionCycle
  import opened PagedMemory
  import opened Machine
  import opened Simulator
  import opened DebugLoop
  import opened Sessions
  import M = Machine

  class Debugger {
    const simulator: Simulator
    var execMode: ExecMode
    var breakpoints: set<u32>

    constructor (simulator: Simulator)
      ensures this.simulator == simulator && execMode == Continue && breakpoints == {}
    {
      this.simulator := simulator;
      execMode := Continue;
      breakpoints := {};
    }

    ghost predicate Valid()
      reads this, simulator, simulator.mem, simulator.sessionCycleCount
    {
      simulator.Valid()
    }

    ghost function View(): Session
      reads this, simulator, simulator.mem, simulator.mem.sessionCycleCallback
    {
      Session(simulator.View(), execMode, breakpoints)
    }

    // ---------- Waiting for the target to stop ----------

    /**
     Waits in the current mode. The loops of the source run until there is a reason to return;
     `fuel` is a bound on the steps to it, and asks no more than that there is one.
     */
    method WaitForStopReason(polls: Polls, ghost fuel: nat) returns (event: Event, ghost steps: nat)
      requires Valid() && Wait(simulator.host, simulator.View(), execMode, breakpoints, polls, fuel).Some?
      modifies simulator, simulator.mem, simulator.sessionCycleCount
      ensures Valid()
      ensures Wait(simulator.host, old(simulator.View()), execMode, breakpoints, polls, fuel)
              == Some(Return(event, simulator.View(), steps))
    {
      hide M.Step, SessionCycle.Sound;
      steps := 0;
      match execMode
      case Step =>
        if polls(0) != Silent {
          event := PollEvent(polls(0));
          return;
        }
        var result := simulator.Step();
        steps := 1;
        event := Stop(result);
      case Interrupted =>
        event := if polls(0) != Silent then PollEvent(polls(0)) else TargetStopped(Interrupt);
      case Continue =>
        event, steps := RunLoop(polls, fuel);
      case RangeStep(_, _) =>
        event, steps := RunLoop(polls, fuel);
    }

    /** The reason of a single step to end the wait, which it always has. */
    method Stop(result: StepResult) returns (event: Event)
      requires result != Hung && execMode == Step
      ensures StopAfter(execMode, breakpoints, result, simulator.hartState.pc) == Some(event)
    {
      match result
      case Failed => event := TargetStopped(Terminated);
      case Panicked => event := Crashed;
      case Ran(Some(exit)) => event := TargetStopped(ExitReason(exit));
      case Ran(None) =>
        event := TargetStopped(if simulator.hartState.pc in breakpoints then SwBreak else DoneStep);
    }

    /** The loop that Continue and RangeStep share but for its last tests. */
    method RunLoop(polls: Polls, ghost fuel: nat) returns (event: Event, ghost steps: nat)
      requires Valid() && (execMode == Continue || execMode.RangeStep?)
      requires Loop(simulator.host, simulator.View(), execMode, breakpoints, polls, 0, fuel).Some?
      modifies simulator, simulator.mem, simulator.sessionCycleCount
      ensures Valid()
      ensures Loop(simulator.host, old(simulator.View()), execMode, breakpoints, polls, 0, fuel)
              == Some(Return(event, simulator.View(), steps))
    {
      hide M.Step, SessionCycle.Sound;
      var cycles := 0;
      while true
        invariant Valid() && cycles <= fuel
        invariant Loop(simulator.host, old(simulator.View()), execMode, breakpoints, polls, 0, fuel) ==
                  Loop(simulator.host, simulator.View(), execMode, breakpoints, polls, cycles, fuel - cycles)
        decreases fuel - cycles
      {
        if cycles % 1024 == 0 {
          if polls(cycles / 1024) != Silent {
            event, steps := PollEvent(polls(cycles / 1024)), cycles;
            return;
          }
        }
        var result := simulator.Step();
        cycles := cycles + 1;
        steps := cycles;
        match result
        case Failed => event := TargetStopped(Terminated); return;
        case Panicked => event := Crashed; return;
        case Ran(Some(exit)) => event := TargetStopped(ExitReason(exit)); return;
        case Ran(None) =>
          var pc := simulator.hartState.pc;
          if execMode.RangeStep? && !(execMode.start <= pc < execMode.end) {
            event := TargetStopped(DoneStep);
            return;
          }
          if pc in breakpoints {
            event := TargetStopped(SwBreak);
            return;
          }
      }
    }

    method OnInterrupt() returns (reason: Reason)
      modifies this`execMode
      ensures Some((View(), [])) == Apply(simulator.host, old(View()), PressInterrupt) && reason == Interrupt
    {
      execMode := Interrupted;
      reason := Interrupt;
    }

    // ---------- Breakpoints and watchpoints ----------

    method AddSwBreakpoint(addr: u32) returns (added: bool)
      modifies this`breakpoints
      ensures added == (addr !in old(breakpoints))
      ensures Some((View(), [])) == Apply(simulator.host, old(View()), InsertBreak(addr))
    {
      added := addr !in breakpoints;
      breakpoints := breakpoints + {addr};
    }

    method RemoveSwBreakpoint(addr: u32) returns (removed: bool)
      modifies this`breakpoints
      ensures removed == (addr in old(breakpoints))
      ensures Some((View(), [])) == Apply(simulator.host, old(View()), DeleteBreak(addr))
    {
      removed := addr in breakpoints;
      breakpoints := breakpoints - {addr};
    }

    method AddHwWatchpoint(addr: u32, len: u32, kind: WatchKind) returns (added: bool)
      modifies simulator.mem
      ensures simulator.mem.sessionCycleCallback == old(simulator.mem.sessionCycleCallback)
      ensures added == AddWatchpoint(old(simulator.mem.hwWatchpoints), Watch(addr, len, kind)).0
      ensures Some((View(), [])) == Apply(simulator.host, old(View()), InsertWatch(Watch(addr, len, kind)))
    {
      var w := Watch(addr, len, kind);
      if w in simulator.mem.hwWatchpoints {
        added := false;
      } else {
        simulator.mem.hwWatchpoints := simulator.mem.hwWatchpoints + [w];
        added := true;
      }
    }

    method RemoveHwWatchpoint(addr: u32, len: u32, kind: WatchKind) returns (removed: bool)
      modifies simulator.mem
      ensures simulator.mem.sessionCycleCallback == old(simulator.mem.sessionCycleCallback)
      ensures removed == RemoveWatchpoint(old(simulator.mem.hwWatchpoints), Watch(addr, len, kind)).0
      ensures Some((View(), [])) == Apply(simulator.host, old(View()), DeleteWatch(Watch(addr, len, kind)))
    {
      var w := Watch(addr, len, kind);
      var watches := simulator.mem.hwWatchpoints;
      var idx := 0;
      while idx < |watches| && watches[idx] != w
        invariant idx <= |watches|
        invariant Position(watches, w) == idx + Position(watches[idx..], w)
      {
        assert watches[idx..][1..] == watches[idx + 1..];
        idx := idx + 1;
      }
      if idx == |watches| {
        removed := false;
      } else {
        simulator.mem.hwWatchpoints := watches[..idx] + watches[idx + 1..];
        removed := true;
      }
    }

    // ---------- Memory and registers ----------

    /** Reads memory into a buffer, up to the end of guest memory; `None` when the start is
        outside it. */
    method ReadAddrs(start: u32, data: array<byte>) returns (count: Option<nat>)
      requires simulator.Wired()
      modifies simulator.mem, simulator.sessionCycleCount, data
      ensures simulator.Wired()
      ensures count == if GUEST_MIN_MEM <= start < GUEST_MAX_MEM then Some(Replied(start, data.Length)) else None
      ensures Some((View(), [])) == Apply(simulator.host, old(View()), ReadMemory(start, data.Length))
      ensures count.Some? ==>
                var n := Readable(start, data.Length);
                && n <= data.Length && start + n <= GUEST_MAX_MEM
                && data[..n] == Peek(old(simulator.mem.View()), start, n).0
                && data[n..] == old(data[..])[n..]
      ensures count.None? ==> data[..] == old(data[..])
    {
      if !(GUEST_MIN_MEM <= start < GUEST_MAX_MEM) {
        return None;
      }
      hide Peek;
      ReadableFits(start, data.Length);
      var end := Min(Wrap(start + data.Length), GUEST_MAX_MEM);
      var n := if end > start then end - start else 0;
      FillBuffer(start, n, data);
      count := Some(Wrap(end - start));
    }

    method FillBuffer(start: u32, n: nat, data: array<byte>)
      requires simulator.Wired() && n <= data.Length && GUEST_MIN_MEM <= start && start + n <= GUEST_MAX_MEM
      modifies simulator.mem, simulator.sessionCycleCount, data
      ensures simulator.Wired()
      ensures Peek(old(simulator.mem.View()), start, n) == (data[..n], simulator.mem.View())
      ensures data[n..] == old(data[..])[n..]
    {
      hide ReadMem, Peek;
      ghost var before := simulator.mem.View();
      ghost var shown: seq<byte> := [];
      PeekNothing(before, start, n);
      for i := 0 to n
        invariant simulator.Wired() && |shown| == i
        invariant Peek(before, start, n) == Behind(shown, Peek(simulator.mem.View(), start + i, n - i))
        invariant forall k | 0 <= k < i :: data[k] == shown[k]
        invariant forall k | i <= k < data.Length :: data[k] == old(data[k])
      {
        PeekFirst(simulator.mem.View(), start + i, n - i);
        var b := simulator.mem.ReadMemWithPrivileges(start + i, Byte, true);
        BehindOne(shown, b.value % 0x100, Peek(simulator.mem.View(), start + i + 1, n - i - 1));
        data[i] := b.value % 0x100;
        shown := shown + [b.value % 0x100];
      }
      PeekFirst(simulator.mem.View(), start + n, 0);
      assert shown + [] == shown == data[..n];
    }

    /** Writes bytes up to the first outside guest memory; those before it stay written. */
    method WriteAddrs(start: u32, data: seq<byte>) returns (ok: bool)
      requires simulator.Wired()
      modifies simulator.mem, simulator.sessionCycleCount
      ensures simulator.Wired()
      ensures (ok, simulator.mem.View()) == Poke(old(simulator.mem.View()), start, data)
    {
      hide WriteMem;
      var addr := start;
      assert data[0..] == data;
      for i := 0 to |data|
        invariant simulator.Wired()
        invariant Poke(old(simulator.mem.View()), start, data) == Poke(simulator.mem.View(), addr, data[i..])
      {
        assert data[i..][1..] == data[i + 1..];
        GrantedInGuest(simulator.mem.View(), addr, data[i]);
        var written := simulator.mem.WriteMemWithPrivileges(addr, Byte, data[i], true);
        if !written {
          return false;
        }
        addr := addr + 1;
      }
      ok := true;
    }

    method ReadRegisters() returns (registers: Registers, pc: u32)
      ensures Hart(pc, registers) == simulator.hartState
    {
      registers, pc := simulator.hartState.regs, simulator.hartState.pc;
    }

    method WriteRegisters(registers: Registers, pc: u32)
      modifies simulator
      ensures simulator.View() == old(simulator.View()).(hart := Hart(pc, registers))
    {
      simulator.hartState := Hart(pc, registers);
    }

    // ---------- After a disconnect ----------

    /** Runs to the end of the program, past any watchpoint; `fuel` bounds the steps to it. */
    method RunToCompletion(ghost fuel: nat) returns (last: StepResult, ghost steps: nat)
      requires Valid() && RunOn(simulator.host, simulator.View(), fuel).Some?
      modifies simulator, simulator.mem, simulator.sessionCycleCount
      ensures Valid()
      ensures RunOn(simulator.host, old(simulator.View()), fuel) == Some((last, simulator.View(), steps))
    {
      hide M.Step, SessionCycle.Sound;
      ghost var left: nat := fuel;
      while true
        invariant Valid() && left <= fuel && RunOn(simulator.host, simulator.View(), left).Some?
        invariant var (r, end, n) := RunOn(simulator.host, simulator.View(), left).value;
                  RunOn(simulator.host, old(simulator.View()), fuel) == Some((r, end, fuel - left + n))
        decreases left
      {
        last := simulator.Step();
        left := left - 1;
        if last.Failed? || last.Panicked? {
          break;
        }
        if last.exit.Some? && !last.exit.value.HwWatchPoint? {
          break;
        }
      }
      steps := fuel - left;
    }
  }

  /** What a peek shows, behind bytes already shown. */
  ghost function Behind(shown: seq<byte>, rest: (seq<byte>, Mem)): (seq<byte>, Mem) {
    (shown + rest.0, rest.1)
  }

  lemma BehindOne(shown: seq<byte>, b: byte, rest: (seq<byte>, Mem))
    ensures Behind(shown + [b], rest) == Behind(shown, ([b] + rest.0, rest.1))
  {
    assert shown + [b] + rest.0 == shown + ([b] + rest.0);
  }

  lemma PeekNothing(m: Mem, addr: u32, n: nat)
    requires GUEST_MIN_MEM <= addr && addr + n <= GUEST_MAX_MEM
    ensures Peek(m, addr, n) == Behind([], Peek(m, addr, n))
  {
    assert [] + Peek(m, addr, n).0 == Peek(m, addr, n).0;
  }

  lemma GrantedInGuest(m: Mem, addr: u32, b: byte)
    ensures WriteMem(m, addr, Byte, b, true).0 == InGuest(addr)
  {
  }
}
