/** Watchpoints over whole sessions: the list stays a set, and one that was removed is never
    reported again. */
module Watching {
  import opened Words
  import opened PagedMemory
  import opened Machine
  import opened Steps
  import opened Runs
  import opened DebugLoop
  import opened Sessions
  import M = Machine

  // ---------- Steps ----------

  lemma {:induction false} RunKeepsWatches(host: Host, m: M.Machine, n: nat)
    ensures After(host, m, n).mem.watches == m.mem.watches
    ensures m.mem.ledger.Some? ==> After(host, m, n).mem.ledger.Some?
  {
    hide M.Step;
    if n > 0 {
      RunKeepsWatches(host, m, n - 1);
      StepKeepsWatches(host, After(host, m, n - 1));
    }
  }

  /** Watchpoint `x` explains the report: an access of the step matches it. */
  ghost predicate Explains(x: Watch, accesses: seq<Access>, hit: Hit) {
    exists i :: 0 <= i < |accesses| && Hits(x, accesses[i]) && hit == Hit(x.kind, accesses[i].addr)
  }

  /** A reported watchpoint is one of those that are set. */
  lemma ReportedIsSet(host: Host, m: M.Machine, hit: Hit) returns (x: Watch)
    requires m.mem.ledger.Some? && M.Step(host, m).0 == Ran(Some(HwWatchPoint(hit)))
    ensures x in m.mem.watches && Explains(x, M.Step(host, m).1.mem.log, hit)
  {
    WatchReport(host, m, hit);
    hide M.Step;
    var accesses := M.Step(host, m).1.mem.log;
    var i, k := FirstHitAt(m.mem.watches, accesses);
    x := m.mem.watches[k];
    assert Hits(x, accesses[i]);
  }

  // ---------- Sessions ----------

  function WatchesOf(s: Session): seq<Watch> {
    s.machine.mem.watches
  }

  lemma ApplyWatches(host: Host, s: Session, c: Command)
    requires Distinct(WatchesOf(s)) && Apply(host, s, c).Some?
    ensures var s' := Apply(host, s, c).value.0;
            && Distinct(WatchesOf(s'))
            && (forall w :: w in WatchesOf(s') ==> w in WatchesOf(s) || c == InsertWatch(w))
            && (c.DeleteWatch? ==> c.watch !in WatchesOf(s'))
            && (s.machine.mem.ledger.Some? ==> s'.machine.mem.ledger.Some?)
  {
    hide M.Step, Wait, Peek, AddWatchpoint, RemoveWatchpoint;
    match c
    case Resume(mode, polls, fuel) =>
      WaitIsSteps(host, s.machine, mode, s.breakpoints, polls, fuel);
      RunKeepsWatches(host, s.machine, Wait(host, s.machine, mode, s.breakpoints, polls, fuel).value.steps);
    case ReadMemory(addr, len) =>
      if GUEST_MIN_MEM <= addr < GUEST_MAX_MEM {
        ReadableFits(addr, len);
        PeekSees(s.machine.mem, addr, Readable(addr, len));
      }
    case InsertWatch(w) => WatchpointsActAsSet(WatchesOf(s), w);
    case DeleteWatch(w) => WatchpointsActAsSet(WatchesOf(s), w);
    case _ =>
  }

  lemma {:induction false} SessionWatches(host: Host, s: Session, commands: seq<Command>)
    requires Distinct(WatchesOf(s)) && ApplyAll(host, s, commands).Some?
    ensures var s' := ApplyAll(host, s, commands).value.0;
            && Distinct(WatchesOf(s'))
            && (forall w :: w in WatchesOf(s') ==> w in WatchesOf(s) || InsertWatch(w) in commands)
            && (s.machine.mem.ledger.Some? ==> s'.machine.mem.ledger.Some?)
    decreases commands
  {
    hide Apply, Distinct;
    if commands != [] {
      ApplyWatches(host, s, commands[0]);
      SessionWatches(host, Apply(host, s, commands[0]).value.0, commands[1..]);
    }
  }

  /**
   Over a session the list of watchpoints stays free of duplicates. Once `w` has been removed,
   and as long as it is not set again, whatever else is done, it is not in the list, and every
   watchpoint that any further step reports is explained by another one.
   */
  lemma RemovedNeverFires(host: Host, s: Session, w: Watch, rest: seq<Command>, s1: Session, s2: Session, n: nat,
                          hit: Hit)
    requires Distinct(WatchesOf(s)) && s.machine.mem.ledger.Some?
    requires Apply(host, s, DeleteWatch(w)) == Some((s1, []))
    requires InsertWatch(w) !in rest
    requires ApplyAll(host, s1, rest).Some? && ApplyAll(host, s1, rest).value.0 == s2
    ensures Distinct(WatchesOf(s2)) && w !in WatchesOf(s2)
    ensures ResultOf(host, s2.machine, n) == Ran(Some(HwWatchPoint(hit))) ==>
              exists x :: x in WatchesOf(s2) && x != w && Explains(x, After(host, s2.machine, n + 1).mem.log, hit)
  {
    ApplyWatches(host, s, DeleteWatch(w));
    SessionWatches(host, s1, rest);
    RunKeepsWatches(host, s2.machine, n);
    hide M.Step, Apply, ApplyAll, Distinct, Explains;
    if ResultOf(host, s2.machine, n) == Ran(Some(HwWatchPoint(hit))) {
      var x := ReportedIsSet(host, After(host, s2.machine, n), hit);
    }
  }
}
