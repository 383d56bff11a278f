/** The machine's memory and the address spaces as the source keeps them: a byte array, page
    tables updated in place, and one shared bitmap of frames; then whole runs over them. */
module Machines {
  import opened Bits
  import opened BitMapModel
  import opened Memory

  class Machine {
    const mainMemory: array<Byte>
    var pageTable: array<PageEntry>

    ghost predicate Valid()
      reads this
    {
      mainMemory.Length == MEMORY_SIZE
    }

    ghost function Contents(): Memory
      requires Valid()
      reads this, mainMemory
    {
      mainMemory[..]
    }

    constructor (table: array<PageEntry>)
      ensures Valid() && pageTable == table && fresh(mainMemory)
    {
      mainMemory := new Byte[MEMORY_SIZE];
      pageTable := table;
    }

    /** Machine::Translate; the physical address only when there was no exception. */
    method TranslateAddress(virtAddr: int, size: nat, writing: bool) returns (out: Outcome)
      requires Valid() && ValidSize(size)
      modifies pageTable
      ensures out == Translate(old(pageTable[..]), virtAddr, size, writing)
      ensures out.Fault? ==> unchanged(pageTable)
      ensures out.Physical? ==> pageTable[..] == Touched(old(pageTable[..]), virtAddr, writing)
      ensures out.Physical? ==> Address(out.frame, out.offset) + size <= MEMORY_SIZE
    {
      if (size == 4 && virtAddr % 4 != 0) || (size == 2 && virtAddr % 2 != 0) {
        return Fault(AddressError);
      }
      var vpn := Unsigned(virtAddr) / PAGE_SIZE;
      var offset := Unsigned(virtAddr) % PAGE_SIZE;
      if vpn >= pageTable.Length {
        return Fault(AddressError);
      } else if !pageTable[vpn].valid {
        return Fault(PageFault);
      }
      if pageTable[vpn].readOnly && writing {
        return Fault(ReadOnly);
      }
      var pageFrame := Unsigned(pageTable[vpn].physicalPage);
      if pageFrame >= NUM_PHYS_PAGES {
        return Fault(BusError);
      }
      AccessFits(pageTable[..], virtAddr, size, writing);
      pageTable[vpn] := pageTable[vpn].(use := true);
      if writing {
        pageTable[vpn] := pageTable[vpn].(dirty := true);
      }
      return Physical(pageFrame, offset);
    }

    method ReadMemory(addr: int, size: nat) returns (r: Read)
      requires Valid() && ValidSize(size)
      modifies pageTable
      ensures r == ReadMem(Contents(), old(pageTable[..]), addr, size)
      ensures r.ReadFault? ==> unchanged(pageTable)
      ensures r.Value? ==> pageTable[..] == Touched(old(pageTable[..]), addr, false)
    {
      var out := TranslateAddress(addr, size, false);
      if out.Fault? {
        return ReadFault(out.what);
      }
      var a := Address(out.frame, out.offset);
      return Value(Load(mainMemory[a..a + size]));
    }

    method WriteMemory(addr: int, size: nat, value: int) returns (fault: Outcome)
      requires Valid() && ValidSize(size)
      modifies pageTable, mainMemory
      ensures WriteMem(old(Contents()), old(pageTable[..]), addr, size, value)
           == if fault.Fault? then WriteFault(fault.what) else Wrote(Contents())
      ensures fault.Fault? ==> unchanged(pageTable) && unchanged(mainMemory)
      ensures fault.Physical? ==> pageTable[..] == Touched(old(pageTable[..]), addr, true)
    {
      fault := TranslateAddress(addr, size, true);
      if fault.Fault? {
        return;
      }
      StoreBytes(Address(fault.frame, fault.offset), Store(value, size));
    }

    /** The store through a cast pointer. */
    method StoreBytes(a: nat, bytes: seq<Byte>)
      requires Valid() && a + |bytes| <= MEMORY_SIZE
      modifies mainMemory
      ensures mainMemory[..] == old(mainMemory[..a]) + bytes + old(mainMemory[a + |bytes|..])
    {
      for i := 0 to |bytes|
        invariant mainMemory[..] == old(mainMemory[..a]) + bytes[..i] + old(mainMemory[a + i..])
      {
        mainMemory[a + i] := bytes[i];
      }
    }
  }

  /** Pages asked for by an executable with the given segment sizes. */
  function PagesNeeded(code: Word, initData: Word, uninitData: Word): nat {
    DivRoundUp(Unsigned(code + initData + uninitData + USER_STACK_SIZE), PAGE_SIZE)
  }

  /** The segments and the stack fit into that many pages, and not into one fewer, exactly as
      long as the sizes do not add up beyond an unsigned int. */
  lemma PagesFit(code: Word, initData: Word, uninitData: Word)
    ensures var total, pages := code + initData + uninitData + USER_STACK_SIZE, PagesNeeded(code, initData, uninitData);
            (pages - 1) * PAGE_SIZE < total <= pages * PAGE_SIZE <==> total < WORD_LIMIT
  {
    var total := code + initData + uninitData + USER_STACK_SIZE;
    var u := Unsigned(total);
    DivRoundUpIsLeast(u, PAGE_SIZE);
    if total >= WORD_LIMIT {
      assert DivRoundUp(u, PAGE_SIZE) * PAGE_SIZE <= WORD_LIMIT;
      assert total >= u + WORD_LIMIT;
    }
  }

  /** A table as the constructor's loop leaves it, its frames taken from the clear ones. */
  ghost predicate Built(t: seq<PageEntry>, before: set<nat>, now: set<nat>) {
    && (forall k :: 0 <= k < |t| ==> t[k] == PageEntry(k, t[k].physicalPage, true, false, false, false))
    && Taken(Frames(t), NUM_PHYS_PAGES, before, now)
  }

  lemma BuiltOneMore(t: seq<PageEntry>, before: set<nat>, now: set<nat>, frame: nat)
    requires Built(t, before, now) && frame !in now && frame < NUM_PHYS_PAGES
    ensures Built(t + [PageEntry(|t|, frame, true, false, false, false)], before, now + {frame})
  {
    var e := PageEntry(|t|, frame, true, false, false, false);
    TakenOneMore(Frames(t), NUM_PHYS_PAGES, before, now, frame);
    assert FrameOf(e) == frame;
    assert Frames(t + [e]) == Frames(t) + [frame];
  }

  lemma BuiltIsOk(t: seq<PageEntry>, before: set<nat>, now: set<nat>)
    requires Built(t, before, now)
    ensures TableOk(t)
  {
    assert forall k :: 0 <= k < |t| ==> FrameOf(t[k]) == Frames(t)[k];
  }

  class AddrSpace {
    var numPages: nat
    var pageTable: array<PageEntry>

    ghost predicate Valid()
      reads this, pageTable
    {
      numPages == pageTable.Length && TableOk(pageTable[..])
    }

    /** AddrSpace(OpenFile*), up to the loading of segments. */
    constructor (frames: BitMap, code: Word, initData: Word, uninitData: Word)
      requires frames.Valid() && frames.numBits == NUM_PHYS_PAGES
      requires PagesNeeded(code, initData, uninitData) <= NUM_PHYS_PAGES
      modifies frames.words
      ensures Valid() && fresh(pageTable)
      ensures Built(pageTable[..], old(frames.Marked()), frames.Marked())
      ensures var pages := PagesNeeded(code, initData, uninitData);
              numPages == if pages > old(frames.Clear0()) then 0 else pages
    {
      var pages := PagesNeeded(code, initData, uninitData);
      numPages := pages;
      pageTable := new PageEntry[0];
      new;
      var clear := frames.NumClear();
      if pages > clear {
        numPages := 0;
        return;
      }
      pageTable := new PageEntry[pages];
      FillTable(frames);
    }

    method FillTable(frames: BitMap)
      requires frames.Valid() && frames.numBits == NUM_PHYS_PAGES
      requires numPages == pageTable.Length && numPages <= frames.Clear0()
      modifies pageTable, frames.words
      ensures Valid() && Built(pageTable[..], old(frames.Marked()), frames.Marked())
    {
      ghost var before := frames.Marked();
      for i := 0 to numPages
        invariant frames.Clear0() == old(frames.Clear0()) - i
        invariant Built(pageTable[..i], before, frames.Marked())
      {
        FillEntry(frames, i, before);
      }
      assert pageTable[..numPages] == pageTable[..];
      BuiltIsOk(pageTable[..], before, frames.Marked());
    }

    method FillEntry(frames: BitMap, i: nat, ghost before: set<nat>)
      requires frames.Valid() && frames.numBits == NUM_PHYS_PAGES
      requires i < pageTable.Length && 0 < frames.Clear0()
      requires Built(pageTable[..i], before, frames.Marked())
      modifies pageTable, frames.words
      ensures frames.Clear0() == old(frames.Clear0()) - 1
      ensures Built(pageTable[..i + 1], before, frames.Marked())
    {
      ghost var now, built := frames.Marked(), pageTable[..i];
      var found := frames.FindClear();
      BuiltOneMore(built, before, now, found);
      ghost var marked := frames.Marked();
      StoreEntry(i, PageEntry(i, found, true, false, false, false));
      assert frames.Marked() == marked;
    }

    method StoreEntry(i: nat, entry: PageEntry)
      requires i < pageTable.Length
      modifies pageTable
      ensures pageTable[..i + 1] == old(pageTable[..i]) + [entry]
    {
      pageTable[i] := entry;
    }

    /** ~AddrSpace */
    method Destroy(frames: BitMap)
      requires Valid() && frames.Valid() && frames.numBits == NUM_PHYS_PAGES
      requires Elements(Frames(pageTable[..])) <= frames.Marked()
      modifies frames.words
      ensures frames.Marked() == old(frames.Marked()) - Elements(Frames(pageTable[..]))
    {
      ghost var held := Frames(pageTable[..]);
      ghost var before := frames.Marked();
      for i := 0 to numPages
        invariant frames.Marked() == before - Elements(held[..i])
      {
        ReleaseOneMore(held, i, before);
        frames.Clear(Unsigned(pageTable[i].physicalPage));
      }
      assert held[..numPages] == held;
    }
  }

  // ---- runs -----------------------------------------------------------------------------

  /** All spaces ever created, the marked frames and physical memory. */
  datatype State = State(spaces: Spaces, marked: set<nat>, m: Memory)

  datatype Action =
    | Construct(table: seq<PageEntry>)
    | Destruct(space: nat)
    | Load1(space: nat, addr: int, size: nat)
    | Store1(space: nat, addr: int, size: nat, value: int)

  /** What the constructor, the destructor, ReadMem and WriteMem do to the state. */
  ghost predicate Step(s: State, a: Action, s': State) {
    match a
    case Construct(table) =>
      && TableOk(table) && Taken(Frames(table), NUM_PHYS_PAGES, s.marked, s'.marked)
      && s'.spaces == s.spaces + [table] && s'.m == s.m
    case Destruct(i) =>
      && i < |s.spaces| && s'.m == s.m
      && s'.spaces == s.spaces[i := []] && s'.marked == s.marked - Elements(Frames(s.spaces[i]))
    case Load1(i, addr, size) =>
      && i < |s.spaces| && ValidSize(size) && s'.m == s.m && s'.marked == s.marked
      && s'.spaces == if ReadMem(s.m, s.spaces[i], addr, size).Value?
                      then s.spaces[i := Touched(s.spaces[i], addr, false)] else s.spaces
    case Store1(i, addr, size, value) =>
      && i < |s.spaces| && ValidSize(size) && s'.marked == s.marked
      && match WriteMem(s.m, s.spaces[i], addr, size, value)
         case WriteFault(_) => s' == s
         case Wrote(m) => s'.m == m && s'.spaces == s.spaces[i := Touched(s.spaces[i], addr, true)]
  }

  ghost predicate Run(states: seq<State>, actions: seq<Action>) {
    && |states| == |actions| + 1
    && (forall k :: 0 <= k < |actions| ==> Step(states[k], actions[k], states[k + 1]))
  }

  ghost predicate Inv(s: State) {
    Isolated(s.spaces, s.marked)
  }

  /** Setting use and dirty bits moves no frame. */
  lemma TouchKeepsIsolation(spaces: Spaces, marked: set<nat>, i: nat, addr: int, writing: bool)
    requires Isolated(spaces, marked) && i < |spaces| && Unsigned(addr) / PAGE_SIZE < |spaces[i]|
    ensures Isolated(spaces[i := Touched(spaces[i], addr, writing)], marked)
  {
    var t := Touched(spaces[i], addr, writing);
    assert Frames(t) == Frames(spaces[i]);
    assert FrameSets(spaces[i := t]) == FrameSets(spaces);
  }

  lemma StepKeepsInv(s: State, a: Action, s': State)
    requires Inv(s) && Step(s, a, s')
    ensures Inv(s')
  {
    match a
    case Construct(table) => CreateKeepsIsolation(s.spaces, s.marked, table, s'.marked);
    case Destruct(i) => DestroyKeepsIsolation(s.spaces, s.marked, i);
    case Load1(i, addr, size) =>
      if ReadMem(s.m, s.spaces[i], addr, size).Value? {
        TouchKeepsIsolation(s.spaces, s.marked, i, addr, false);
      }
    case Store1(i, addr, size, value) =>
      if WriteMem(s.m, s.spaces[i], addr, size, value).Wrote? {
        TouchKeepsIsolation(s.spaces, s.marked, i, addr, true);
      }
  }

  /** From an empty machine, every order of construction, destruction and memory traffic
      keeps live tables on disjoint frames that are exactly the marked ones. */
  lemma {:induction false} RunKeepsInv(states: seq<State>, actions: seq<Action>)
    requires Run(states, actions) && states[0].spaces == [] && states[0].marked == {}
    ensures forall k :: 0 <= k < |states| ==> Inv(states[k])
  {
    RunKeepsInvTo(states, actions, |actions|);
  }

  lemma {:induction false} RunKeepsInvTo(states: seq<State>, actions: seq<Action>, n: nat)
    requires Run(states, actions) && n <= |actions|
    requires states[0].spaces == [] && states[0].marked == {}
    ensures forall k :: 0 <= k <= n ==> Inv(states[k])
  {
    if n > 0 {
      RunKeepsInvTo(states, actions, n - 1);
      StepKeepsInv(states[n - 1], actions[n - 1], states[n]);
    }
  }

  // ---- noninterference ----------------------------------------------------------------------

  /** Does the action run in space j, or end it? */
  predicate Acts(a: Action, j: nat) {
    match a
    case Construct(_) => false
    case Destruct(i) => i == j
    case Load1(i, _, _) => i == j
    case Store1(i, _, _, _) => i == j
  }

  /** Everything a space can see: its table and the bytes behind it. */
  ghost predicate SameView(s: State, s': State, j: nat) {
    && j < |s.spaces| && j < |s'.spaces| && s.spaces[j] == s'.spaces[j]
    && forall addr, size :: ValidSize(size) ==>
         ReadMem(s.m, s.spaces[j], addr, size) == ReadMem(s'.m, s'.spaces[j], addr, size)
  }

  lemma StepSparesOthers(s: State, a: Action, s': State, j: nat)
    requires Inv(s) && Step(s, a, s') && j < |s.spaces| && !Acts(a, j)
    ensures SameView(s, s', j)
  {
    if a.Store1? && WriteMem(s.m, s.spaces[a.space], a.addr, a.size, a.value).Wrote? {
      forall addr, size | ValidSize(size)
        ensures ReadMem(s.m, s.spaces[j], addr, size) == ReadMem(s'.m, s'.spaces[j], addr, size)
      {
        OthersReadTheSame(s.m, s.spaces, s.marked, a.space, a.addr, a.size, a.value, j, addr, size);
      }
    }
  }

  lemma SameViewJoins(s: State, s': State, s'': State, j: nat)
    requires SameView(s, s', j) && SameView(s', s'', j)
    ensures SameView(s, s'', j)
  {
  }

  /** Whatever all other spaces do, including dying and taking frames for new tables, a space
      that does nothing reads the same values and takes the same faults. The loading of segments
      into a new space is not among the actions: the source's loops write at virtualAddr plus the
      frame's address, which can lie in a frame of another space. */
  lemma {:induction false} RunSparesOthers(states: seq<State>, actions: seq<Action>, lo: nat, hi: nat, j: nat)
    requires Run(states, actions) && states[0].spaces == [] && states[0].marked == {}
    requires lo <= hi <= |actions| && j < |states[lo].spaces|
    requires forall k :: lo <= k < hi ==> !Acts(actions[k], j)
    ensures SameView(states[lo], states[hi], j)
    decreases hi
  {
    if lo < hi {
      RunSparesOthers(states, actions, lo, hi - 1, j);
      RunKeepsInvTo(states, actions, hi - 1);
      StepSparesOthers(states[hi - 1], actions[hi - 1], states[hi], j);
      SameViewJoins(states[lo], states[hi - 1], states[hi], j);
    }
  }

  // ---- use and dirty bits ------------------------------------------------------------------

  /** The action writes page v of space i, and the write goes through. */
  predicate WritesPage(s: State, a: Action, i: nat, v: nat) {
    && a.Store1? && a.space == i < |s.spaces| && ValidSize(a.size)
    && WriteMem(s.m, s.spaces[i], a.addr, a.size, a.value).Wrote? && Unsigned(a.addr) / PAGE_SIZE == v
  }

  predicate ReadsPage(s: State, a: Action, i: nat, v: nat) {
    && a.Load1? && a.space == i < |s.spaces| && ValidSize(a.size)
    && ReadMem(s.m, s.spaces[i], a.addr, a.size).Value? && Unsigned(a.addr) / PAGE_SIZE == v
  }

  lemma StepTouches(s: State, a: Action, s': State, i: nat, v: nat)
    requires Step(s, a, s') && i < |s.spaces| && v < |s.spaces[i]| && a != Destruct(i)
    ensures i < |s'.spaces| && v < |s'.spaces[i]|
    ensures var e := s.spaces[i][v];
            s'.spaces[i][v] == e.(use := e.use || ReadsPage(s, a, i, v) || WritesPage(s, a, i, v),
                                  dirty := e.dirty || WritesPage(s, a, i, v))
  {
  }

  ghost predicate Written(states: seq<State>, actions: seq<Action>, i: nat, v: nat, lo: nat, hi: nat)
    requires Run(states, actions) && lo <= hi <= |actions|
  {
    exists k :: lo <= k < hi && WritesPage(states[k], actions[k], i, v)
  }

  ghost predicate Accessed(states: seq<State>, actions: seq<Action>, i: nat, v: nat, lo: nat, hi: nat)
    requires Run(states, actions) && lo <= hi <= |actions|
  {
    exists k :: lo <= k < hi && (ReadsPage(states[k], actions[k], i, v) || WritesPage(states[k], actions[k], i, v))
  }

  /** While the space lives, a page becomes dirty exactly by a write to it and used exactly by an
      access to it, and nothing else of its entry changes. */
  lemma {:induction false} BitsTellAccess(states: seq<State>, actions: seq<Action>, i: nat, v: nat, lo: nat, hi: nat)
    requires Run(states, actions) && lo <= hi <= |actions|
    requires i < |states[lo].spaces| && v < |states[lo].spaces[i]|
    requires forall k :: lo <= k < hi ==> actions[k] != Destruct(i)
    ensures i < |states[hi].spaces| && v < |states[hi].spaces[i]|
    ensures var e := states[lo].spaces[i][v];
            states[hi].spaces[i][v] == e.(use := e.use || Accessed(states, actions, i, v, lo, hi),
                                          dirty := e.dirty || Written(states, actions, i, v, lo, hi))
    decreases hi
  {
    if lo < hi {
      BitsTellAccess(states, actions, i, v, lo, hi - 1);
      StepTouches(states[hi - 1], actions[hi - 1], states[hi], i, v);
    }
  }
}
