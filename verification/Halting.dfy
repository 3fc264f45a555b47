/** Exit codes: which steps report one, and that a halted machine stays as it is. */
module Halting {
  import opened Words
  import opened SessionCycle
  import opened PagedMemory
  import opened FlatMemory
  import opened Machine
  import opened Transparency
  import opened Steps
  import opened Runs
  import Outputs
  import Trace

  /** The program counter is at an environment call that halts or pauses with this exit. */
  predicate AtHalt(m: Machine, exit: Exit) {
    && Insn(m).Some? && IsEcall(Insn(m).value) && OpcodeCycle(Insn(m).value).Some? && Reg(m, REG_T0) == 0
    && match exit
       case Halted(code) => Reg(m, REG_A0) % 0x100 == 0 && code == Reg(m, REG_A0) / 0x100 % 0x100
       case Paused(code) => Reg(m, REG_A0) % 0x100 == 1 && code == Reg(m, REG_A0) / 0x100 % 0x100
       case HwWatchPoint(_) => false
  }

  lemma EcallExit(host: Host, m: Machine, exit: Exit)
    requires Ecall(host, m).0.Proceed? && !exit.HwWatchPoint?
    ensures Ecall(host, m).0.exit == Some(exit) <==>
            && Reg(m, REG_T0) == 0
            && exit == (if Reg(m, REG_A0) % 0x100 == 0 then Halted(Reg(m, REG_A0) / 0x100 % 0x100)
                        else Paused(Reg(m, REG_A0) / 0x100 % 0x100))
            && Reg(m, REG_A0) % 0x100 < 2
  {
    hide HandleSyscall, ReadName, WriteBytes, ReadBytes, ReadWords, ShaBlocks;
  }

  /** A completed step reports a halt or a pause exactly when it is such a call, with the code
      in the second byte of A0; watchpoints neither cause nor mask one. */
  lemma ExitIff(host: Host, m: Machine, exit: Exit)
    requires Step(host, m).0.Ran? && !exit.HwWatchPoint?
    ensures Step(host, m).0 == Ran(Some(exit)) <==> AtHalt(m, exit)
  {
    RanIsCharged(host, m);
    var start, fetched := Start(m), Insn(m).value;
    hide ReadMem, Step, Ecall, Execute, OpcodeCycle, IsEcall, Settle, Trace.Follows;
    if IsEcall(fetched) {
      EcallExit(host, start, exit);
    }
  }

  /** The books are sound and no page waits to be charged. */
  ghost predicate Clear(m: Mem) {
    m.ledger.Some? && Sound(m.ledger.value) && m.ledger.value.read == {} == m.ledger.value.written
  }

  lemma FetchSettles(m: Machine, base: nat)
    requires Clear(m.mem) && InGuest(m.hart.pc) && base <= 2
    ensures var l := Settle(LedgerOf(Start(m)), base);
            l.Some? && Sound(l.value) && l.value.read == {} == l.value.written
  {
    var l, page := Charged(m.mem.ledger.value, Load(m.hart.pc, Word)), PageOf(m.hart.pc);
    assert Start(m).mem.ledger == Some(l);
    hide Settle, ColdCharge, ReadMem;
    assert {} + {page} == {page} == {page, page};
    TwoAccessStepSettles(l, base, page, page);
    SettleSound(l, base);
  }

  lemma HaltingStep(host: Host, m: Machine, exit: Exit)
    requires AtHalt(m, exit)
    ensures Step(host, m) == Finish(Start(m), Some(exit), OpcodeCycle(Insn(m).value).value)
    ensures InGuest(m.hart.pc)
  {
    hide OpcodeCycle, Settle;
  }

  /** Whatever the machine has been through, a halting step with clear books completes, moves
      nothing, and leaves the machine at the same halt with clear books. */
  lemma HaltRepeats(host: Host, m: Machine, exit: Exit)
    requires AtHalt(m, exit) && Clear(m.mem)
    ensures Step(host, m).0 == Ran(Some(exit))
    ensures var m' := Step(host, m).1;
            AtHalt(m', exit) && Clear(m'.mem) && m' == m.(mem := m'.mem) && SameWords(m.mem, m'.mem)
  {
    HaltingStep(host, m, exit);
    OpcodeCycleBound(Insn(m).value);
    FetchSettles(m, OpcodeCycle(Insn(m).value).value);
    HaltLeaves(host, m, exit);
    var m' := Step(host, m).1;
    hide OpcodeCycle, Settle, IsEcall, ReadMem, Sound, SameWords, Step;
    SameInsn(m, m');
  }

  lemma HaltLeaves(host: Host, m: Machine, exit: Exit)
    requires AtHalt(m, exit) && Step(host, m) == Finish(Start(m), Some(exit), OpcodeCycle(Insn(m).value).value)
    requires Settle(LedgerOf(Start(m)), OpcodeCycle(Insn(m).value).value).Some?
    ensures var m' := Step(host, m).1;
            && Step(host, m).0 == Ran(Some(exit)) && m' == m.(mem := m'.mem) && SameWords(m.mem, m'.mem)
            && m'.mem.ledger == Some(Settle(LedgerOf(Start(m)), OpcodeCycle(Insn(m).value).value).value)
  {
    hide Step, OpcodeCycle, Settle, IsEcall, ReadMem, SameWords;
    Outputs.StartSame(m);
    SamePages(m.mem, Start(m).mem, m.mem, Step(host, m).1.mem);
  }

  lemma SameInsn(m: Machine, m': Machine)
    requires m'.hart == m.hart && SameWords(m.mem, m'.mem)
    ensures Insn(m') == Insn(m)
  {
    WordsAfterRead(m.mem, m.hart.pc, Word, false, 0, 0);
    WordsAfterRead(m'.mem, m.hart.pc, Word, false, 0, 0);
  }

  /** A halted or paused machine stays so: however often it is stepped again, it reports the
      same exit and no register, byte or stream changes. */
  lemma {:induction false} HaltedForEver(host: Host, m: Machine, exit: Exit, n: nat)
    requires AtHalt(m, exit) && Clear(m.mem)
    ensures ResultOf(host, m, n) == Ran(Some(exit))
    ensures var m' := After(host, m, n);
            AtHalt(m', exit) && Clear(m'.mem) && m' == m.(mem := m'.mem) && SameWords(m.mem, m'.mem)
  {
    hide Step, AtHalt, Clear, SameWords;
    if n > 0 {
      HaltedForEver(host, m, exit, n - 1);
      HaltRepeats(host, After(host, m, n - 1), exit);
      SameWordsThrough(m.mem, After(host, m, n - 1).mem, After(host, m, n).mem);
    } else {
      SameWordsSelf(m.mem);
    }
    HaltRepeats(host, After(host, m, n), exit);
  }
}
