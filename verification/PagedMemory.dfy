/**
 Guest memory: a sparse map of 256-word pages, allocated on first touch, with hardware
 watchpoints and a cycle callback on every access that is not the debugger's own.
 */
module PagedMemory {
  import opened Words
  import opened SessionCycle

  const GUEST_MIN_MEM: u32 := 0x0000_0400
  const GUEST_MAX_MEM: u32 := 0x0C00_0000

  datatype Size = Byte | HalfWord | Word

  datatype Spacing = ByBytes | ByWords

  datatype WatchKind = Write | Read | ReadWrite

  datatype Watch = Watch(addr: u32, len: u32, kind: WatchKind)

  datatype Hit = Hit(kind: WatchKind, addr: u32)

  datatype Access = Load(addr: u32, size: Size) | Store(addr: u32, size: Size, data: u32)

  type PageWords = s: seq<u32> | |s| == 256 witness seq(256, _ => 0)

  function ZeroPage(): (p: PageWords)
    ensures forall i | 0 <= i < 256 :: p[i] == 0
  {
    seq(256, _ => 0)
  }

  /**
   The state of the memory. `log` is a history variable: the accesses that passed the range
   check, other than the debugger's, since the watch trigger was last cleared.
   */
  datatype Mem = Mem(
    pages: map<Page, PageWords>,
    watches: seq<Watch>,
    trigger: Option<Hit>,
    ledger: Option<Ledger>,
    log: seq<Access>)

  const BLANK: Mem := Mem(map[], [], None, None, [])

  /** The range check; the upper bound is inclusive, as in the program. */
  predicate InGuest(addr: u32) {
    GUEST_MIN_MEM <= addr <= GUEST_MAX_MEM
  }

  function PageOf(addr: u32): Page {
    addr / 1024
  }

  function OffsetOf(addr: u32): (offset: nat)
    ensures offset < 1024
  {
    addr % 1024
  }

  function Width(size: Size): nat {
    match size
    case Byte => 1
    case HalfWord => 2
    case Word => 4
  }

  predicate Aligned(addr: nat, size: Size) {
    match size
    case Byte => true
    case HalfWord => addr % 2 == 0
    case Word => addr % 4 == 0
  }

  // ---------- Watchpoints ----------

  function WatchEnd(w: Watch): u32 {
    Wrap(w.addr + w.len)
  }

  predicate Matches(w: Watch, addr: u32, len: nat, isWrite: bool) {
    && w.kind != (if isWrite then Read else Write)
    && ((addr < w.addr && addr + len >= w.addr) || (addr >= w.addr && addr < WatchEnd(w)))
  }

  function FirstMatch(watches: seq<Watch>, addr: u32, len: nat, isWrite: bool): Option<Hit> {
    if watches == [] then None
    else if Matches(watches[0], addr, len, isWrite) then Some(Hit(watches[0].kind, addr))
    else FirstMatch(watches[1..], addr, len, isWrite)
  }

  /** The accountant's callback: the page joins the set of pages the step has read or written. */
  function Charged(l: Ledger, a: Access): Ledger {
    if a.Load? then l.(read := l.read + {PageOf(a.addr)}) else l.(written := l.written + {PageOf(a.addr)})
  }

  /** What an access that is not the debugger's leaves behind besides its effect on the words:
      its page in the ledger, a sticky watch trigger, and itself in the history. */
  function Observe(m: Mem, a: Access): Mem {
    m.(ledger := if m.ledger.Some? then Some(Charged(m.ledger.value, a)) else None,
       trigger := if m.trigger.Some? then m.trigger
                  else FirstMatch(m.watches, a.addr, Width(a.size), a.Store?),
       log := m.log + [a])
  }

  // ---------- Words ----------

  function Allocate(m: Mem, page: Page): Mem {
    if page in m.pages then m else m.(pages := m.pages[page := ZeroPage()])
  }

  function Fetched(word: u32, offset: nat, size: Size): u32 {
    match size
    case Byte => ByteOf(word, offset % 4)
    case HalfWord => if offset % 4 == 2 then word / 0x1_0000 else word % 0x1_0000
    case Word => word
  }

  function Stored(word: u32, offset: nat, size: Size, data: u32): u32 {
    match size
    case Byte => PutByte(word, offset % 4, data % 0x100)
    case HalfWord =>
      if offset % 4 == 2 then word % 0x1_0000 + 0x1_0000 * (data % 0x1_0000)
      else word - word % 0x1_0000 + data % 0x1_0000
    case Word => data
  }

  function ReadMem(m: Mem, addr: u32, size: Size, privileged: bool): (r: (Option<u32>, Mem)) {
    if !InGuest(addr) then (None, m)
    else
      var a := Allocate(m, PageOf(addr));
      var o := if privileged then a else Observe(a, Load(addr, size));
      (Some(Fetched(o.pages[PageOf(addr)][OffsetOf(addr) / 4], OffsetOf(addr), size)), o)
  }

  function WriteMem(m: Mem, addr: u32, size: Size, data: u32, privileged: bool): (r: (bool, Mem)) {
    if !InGuest(addr) then (false, m)
    else
      var page, i := PageOf(addr), OffsetOf(addr) / 4;
      var a := Allocate(m, page);
      var o := if privileged then a else Observe(a, Store(addr, size, data));
      var word := Stored(o.pages[page][i], OffsetOf(addr), size, data);
      (true, o.(pages := o.pages[page := o.pages[page][i := word]]))
  }

  // ---------- Sequences of accesses ----------

  /** The reply to a granted access (zero for a store), or `None` when it is refused. */
  function Do(m: Mem, a: Access): (Option<u32>, Mem) {
    match a
    case Load(addr, size) => ReadMem(m, addr, size, false)
    case Store(addr, size, data) =>
      var (ok, m') := WriteMem(m, addr, size, data, false);
      (if ok then Some(0) else None, m')
  }

  /** Accesses in order up to the first that is refused, with the replies to those granted. */
  function Perform(m: Mem, accesses: seq<Access>): (r: (seq<u32>, Mem))
    ensures |r.0| <= |accesses|
    decreases accesses
  {
    if accesses == [] then ([], m)
    else
      var (reply, m1) := Do(m, accesses[0]);
      if reply.None? then ([], m1)
      else
        var (replies, m2) := Perform(m1, accesses[1..]);
        ([reply.value] + replies, m2)
  }

  /** How far place `i` of a run is from its start. */
  function Apart(spacing: Spacing, i: nat): nat {
    match spacing
    case ByBytes => i
    case ByWords => 4 * i
  }

  /** `count` loads of one size, evenly spaced. */
  function Loads(addr: u32, spacing: Spacing, count: nat, size: Size): (s: seq<Access>)
    ensures |s| == count
  {
    seq(count, (i: nat) => Load(Wrap(addr + Apart(spacing, i)), size))
  }

  /** A byte store for each element of `data`, evenly spaced. */
  function Stores(addr: u32, spacing: Spacing, data: seq<u32>): (s: seq<Access>)
    ensures |s| == |data|
  {
    seq(|data|, (i: nat) requires i < |data| => Store(Wrap(addr + Apart(spacing, i)), Byte, data[i]))
  }

  lemma {:induction false} PerformAppend(m: Mem, a: seq<Access>, b: seq<Access>)
    ensures var (ra, ma) := Perform(m, a);
            Perform(m, a + b) == if |ra| < |a| then (ra, ma) else (ra + Perform(ma, b).0, Perform(ma, b).1)
    decreases a
  {
    if a == [] {
      assert a + b == b;
      assert [] + Perform(m, b).0 == Perform(m, b).0;
    } else {
      var (reply, m1) := Do(m, a[0]);
      assert (a + b)[1..] == a[1..] + b;
      if reply.Some? {
        PerformAppend(m1, a[1..], b);
        var (ra, ma) := Perform(m1, a[1..]);
        assert [reply.value] + (ra + Perform(ma, b).0) == [reply.value] + ra + Perform(ma, b).0;
      }
    }
  }

  /** One more access after a granted prefix: the step of every access loop. */
  lemma PerformNext(m: Mem, accesses: seq<Access>, i: nat)
    requires i < |accesses| && |Perform(m, accesses[..i]).0| == i
    ensures var (rs, mi) := Perform(m, accesses[..i]);
            var (reply, m') := Do(mi, accesses[i]);
            && (reply.None? ==> Perform(m, accesses) == (rs, m'))
            && (reply.Some? ==> Perform(m, accesses[..i + 1]) == (rs + [reply.value], m'))
  {
    var (rs, mi) := Perform(m, accesses[..i]);
    var next := [accesses[i]];
    var (reply, m') := Do(mi, accesses[i]);
    PerformAppend(m, accesses[..i], next);
    assert accesses[..i + 1] == accesses[..i] + next;
    assert next[1..] == [];
    if reply.None? {
      assert Perform(mi, next) == ([], m');
      assert rs + [] == rs;
      PerformAppend(m, accesses[..i + 1], accesses[i + 1..]);
      assert accesses == accesses[..i + 1] + accesses[i + 1..];
    } else {
      assert Perform(m', []) == ([], m');
      assert [reply.value] + [] == [reply.value];
      assert Perform(mi, next) == ([reply.value], m');
    }
  }

  // ---------- The memory as the program keeps it ----------

  class Memory {
    var pages: map<Page, PageWords>
    var hwWatchpoints: seq<Watch>
    var watchTrigger: Option<Hit>
    var sessionCycleCallback: SessionCycleCount?
    ghost var log: seq<Access>

    constructor ()
      ensures View() == BLANK && sessionCycleCallback == null
    {
      pages := map[];
      hwWatchpoints := [];
      watchTrigger := None;
      sessionCycleCallback := null;
      log := [];
    }

    ghost function View(): Mem
      reads this, sessionCycleCallback
    {
      Mem(pages, hwWatchpoints, watchTrigger,
          if sessionCycleCallback == null then None else Some(sessionCycleCallback.View()), log)
    }

    method WithSessionCycleCallback(callback: SessionCycleCount)
      modifies this
      ensures sessionCycleCallback == callback
      ensures View() == old(View()).(ledger := Some(callback.View()))
    {
      sessionCycleCallback := callback;
    }

    /** Forgets the watch trigger before the body of a step, and starts its history. */
    method ClearTrigger()
      modifies this
      ensures sessionCycleCallback == old(sessionCycleCallback)
      ensures View() == old(View()).(trigger := None, log := [])
    {
      watchTrigger := None;
      log := [];
    }

    method CheckWatchpoints(addr: u32, len: u32, isWrite: bool)
      modifies this`watchTrigger
      ensures watchTrigger == if old(watchTrigger).Some? then old(watchTrigger)
                              else FirstMatch(hwWatchpoints, addr, len, isWrite)
    {
      if watchTrigger.Some? {
        return;
      }
      for k := 0 to |hwWatchpoints|
        invariant watchTrigger == None
        invariant FirstMatch(hwWatchpoints, addr, len, isWrite) == FirstMatch(hwWatchpoints[k..], addr, len, isWrite)
      {
        var entry := hwWatchpoints[k];
        assert hwWatchpoints[k..][0] == entry && hwWatchpoints[k..][1..] == hwWatchpoints[k + 1..];
        if isWrite && entry.kind == Read {
          continue;
        }
        if !isWrite && entry.kind == Write {
          continue;
        }
        var watchStart := entry.addr;
        var watchEnd := Wrap(watchStart + entry.len);
        var actionStart := addr;
        var actionEnd := addr + len;
        if actionStart < watchStart && actionEnd >= watchStart {
          watchTrigger := Some(Hit(entry.kind, addr));
          return;
        } else if actionStart >= watchStart && actionStart < watchEnd {
          watchTrigger := Some(Hit(entry.kind, addr));
          return;
        }
      }
    }

    /** The bookkeeping of an access that is not the debugger's. */
    method Note(a: Access)
      modifies this, sessionCycleCallback
      ensures sessionCycleCallback == old(sessionCycleCallback)
      ensures View() == Observe(old(View()), a)
    {
      if sessionCycleCallback != null {
        match a
        case Load(addr, _) => sessionCycleCallback.CallbackReadMem(addr / 1024);
        case Store(addr, _, _) => sessionCycleCallback.CallbackWriteMem(addr / 1024);
      }
      CheckWatchpoints(a.addr, Width(a.size), a.Store?);
      log := log + [a];
    }

    method ReadMemWithPrivileges(addr: u32, size: Size, privileged: bool) returns (r: Option<u32>)
      modifies this, sessionCycleCallback
      ensures sessionCycleCallback == old(sessionCycleCallback)
      ensures (r, View()) == ReadMem(old(View()), addr, size, privileged)
    {
      if addr < GUEST_MIN_MEM || addr > GUEST_MAX_MEM {
        return None;
      }
      var pageIdx := addr / 1024;
      if pageIdx !in pages {
        pages := pages[pageIdx := ZeroPage()];
      }
      if !privileged {
        Note(Load(addr, size));
      }
      var pageOffset := addr % 1024;
      var word := Select(pages[pageIdx][pageOffset / 4], pageOffset, size);
      r := Some(word);
    }

    /** The part of a word that a load of some size picks out. */
    static method Select(word: u32, pageOffset: nat, size: Size) returns (r: u32)
      ensures r == Fetched(word, pageOffset, size)
    {
      match size
      case Byte =>
        if pageOffset % 4 == 0 {
          r := word % 0x100;
        } else if pageOffset % 4 == 1 {
          r := word / 0x100 % 0x100;
        } else if pageOffset % 4 == 2 {
          r := word / 0x1_0000 % 0x100;
        } else {
          r := word / 0x100_0000 % 0x100;
        }
      case HalfWord =>
        if pageOffset % 4 == 2 {
          r := word / 0x1_0000 % 0x1_0000;
        } else {
          r := word % 0x1_0000;
        }
      case Word =>
        r := word;
    }

    /** The word with the stored part put in. */
    static method Insert(word: u32, pageOffset: nat, size: Size, storeData: u32) returns (newWord: u32)
      ensures newWord == Stored(word, pageOffset, size, storeData)
    {
      match size
      case Byte =>
        newWord := PutByte(word, pageOffset % 4, storeData % 0x100);
      case HalfWord =>
        if pageOffset % 4 == 2 {
          newWord := word % 0x1_0000 + storeData % 0x1_0000 * 0x1_0000;
        } else {
          newWord := word - word % 0x1_0000 + storeData % 0x1_0000;
        }
      case Word =>
        newWord := storeData;
    }

    method WriteMemWithPrivileges(addr: u32, size: Size, storeData: u32, privileged: bool) returns (ok: bool)
      modifies this, sessionCycleCallback
      ensures sessionCycleCallback == old(sessionCycleCallback)
      ensures (ok, View()) == WriteMem(old(View()), addr, size, storeData, privileged)
    {
      if addr < GUEST_MIN_MEM || addr > GUEST_MAX_MEM {
        return false;
      }
      var pageIdx := addr / 1024;
      if pageIdx !in pages {
        pages := pages[pageIdx := ZeroPage()];
      }
      if !privileged {
        Note(Store(addr, size, storeData));
      }
      var pageOffset := addr % 1024;
      var word := pages[pageIdx][pageOffset / 4];
      var newWord := Insert(word, pageOffset, size, storeData);
      pages := pages[pageIdx := pages[pageIdx][pageOffset / 4 := newWord]];
      ok := true;
    }
  }
}
