/** Address translation (machine/translate.cc), frame allocation (userprog/addrspace.cc) and
    the isolation of address spaces from each other. */
module Memory {
  import opened Common
  import opened Bits
  import opened BitMapModel

  const PAGE_SIZE: nat := 512
  const NUM_PHYS_PAGES: nat := 128
  const MEMORY_SIZE: nat := 65536
  const USER_STACK_SIZE: nat := 1024

  datatype Exception = PageFault | ReadOnly | BusError | AddressError

  datatype PageEntry = PageEntry(virtualPage: int, physicalPage: int,
                                 valid: bool, readOnly: bool, use: bool, dirty: bool)

  type Memory = m: seq<Byte> | |m| == 65536 witness seq(65536, _ => 0)

  /** (unsigned) x */
  function Unsigned(x: int): Word {
    x % WORD_LIMIT
  }

  /** An int as C converts it: negative ones count down from the top. */
  lemma UnsignedOfInt(x: int)
    requires -0x8000_0000 <= x < 0x8000_0000
    ensures Unsigned(x) == if x < 0 then x + WORD_LIMIT else x
  {
  }

  predicate Aligned(addr: int, size: nat) {
    (size == 4 ==> addr % 4 == 0) && (size == 2 ==> addr % 2 == 0)
  }

  datatype Outcome = Fault(what: Exception) | Physical(frame: nat, offset: nat)

  /** Translate with a page table and no TLB. */
  function Translate(table: seq<PageEntry>, addr: int, size: nat, writing: bool): Outcome {
    if !Aligned(addr, size) then Fault(AddressError)
    else
      var vpn := Unsigned(addr) / PAGE_SIZE;
      if vpn >= |table| then Fault(AddressError)
      else if !table[vpn].valid then Fault(PageFault)
      else if table[vpn].readOnly && writing then Fault(ReadOnly)
      else if Unsigned(table[vpn].physicalPage) >= NUM_PHYS_PAGES then Fault(BusError)
      else Physical(Unsigned(table[vpn].physicalPage), Unsigned(addr) % PAGE_SIZE)
  }

  /** The table after a successful translation: use, and on a write dirty, set. */
  function Touched(table: seq<PageEntry>, addr: int, writing: bool): seq<PageEntry>
    requires Unsigned(addr) / PAGE_SIZE < |table|
  {
    var vpn := Unsigned(addr) / PAGE_SIZE;
    table[vpn := table[vpn].(use := true, dirty := table[vpn].dirty || writing)]
  }

  // ---- values as bytes --------------------------------------------------------------

  predicate ValidSize(size: nat) {
    size == 1 || size == 2 || size == 4
  }

  /** Little-endian bytes of the low part of a value. */
  function Store(value: int, size: nat): (b: seq<Byte>)
    requires ValidSize(size)
    ensures |b| == size
  {
    if size == 1 then [value % 256]
    else if size == 2 then [value % 256, value / 256 % 256]
    else [value % 256, value / 256 % 256, value / 256 / 256 % 256, value / 256 / 256 / 256 % 256]
  }

  function SignedByte(b: Byte): int {
    if b >= 128 then b - 256 else b
  }

  /** What ReadMem makes of the bytes: a char is signed, a short unsigned, a word an int. */
  function Load(b: seq<Byte>): int
    requires ValidSize(|b|)
  {
    var b0: int := b[0];
    if |b| == 1 then SignedByte(b[0])
    else
      var b1: int := b[1];
      if |b| == 2 then b0 + 256 * b1
      else
        var b2: int := b[2];
        b0 + 256 * (b1 + 256 * (b2 + 256 * SignedByte(b[3])))
  }

  /** Values that survive being stored and read back. */
  predicate Representable(value: int, size: nat) {
    if size == 1 then -128 <= value < 128
    else if size == 2 then 0 <= value < 65536
    else -0x8000_0000 <= value < 0x8000_0000
  }

  lemma StoreLoad(value: int, size: nat)
    requires ValidSize(size)
    ensures Load(Store(value, size)) == value <==> Representable(value, size)
  {
    if size == 4 {
      var q1 := value / 256;
      var q2 := q1 / 256;
      var q3 := q2 / 256;
      assert Load(Store(value, 4))
          == value % 256 + 256 * (q1 % 256 + 256 * (q2 % 256 + 256 * SignedByte(q3 % 256)));
      assert Load(Store(value, 4)) == value <==> SignedByte(q3 % 256) == q3;
      assert -128 <= q3 < 128 <==> Representable(value, size);
    }
  }

  function Digit(b: seq<Byte>, i: nat): nat
    requires i < |b|
  {
    b[i]
  }

  /** The number that bytes denote, the first one least significant. */
  function LittleEndian(b: seq<Byte>): nat {
    if b == [] then 0 else Digit(b, 0) + 256 * LittleEndian(b[1..])
  }

  /** 256 to the power of the size. */
  function Range(size: nat): nat
    requires ValidSize(size)
  {
    if size == 1 then 256 else if size == 2 then 65536 else 0x1_0000_0000
  }

  /** Stored is the value modulo the range of the size, whether or not it fits. */
  lemma StoredIsModulo(value: int, size: nat)
    requires ValidSize(size)
    ensures LittleEndian(Store(value, size)) == value % Range(size)
  {
    var b := Store(value, size);
    var q1 := value / 256;
    var q2 := q1 / 256;
    var q3 := q2 / 256;
    if size == 1 {
      Bytes1(b);
    } else if size == 2 {
      Bytes2(b);
      Remainder(value, q2, Digit(b, 0) + 256 * Digit(b, 1), 65536);
    } else {
      Bytes4(b);
      var q4 := q3 / 256;
      Remainder(value, q4, Digit(b, 0) + 256 * (Digit(b, 1) + 256 * (Digit(b, 2) + 256 * Digit(b, 3))), 0x1_0000_0000);
    }
  }

  lemma Remainder(x: int, q: int, r: int, m: int)
    requires m > 0 && x == m * q + r && 0 <= r < m
    ensures x % m == r
  {
    var k := x / m - q;
    assert m * k == r - x % m;
    assert k >= 1 ==> m * k >= m;
    assert k <= -1 ==> m * k <= -m;
  }

  lemma Bytes1(b: seq<Byte>)
    requires |b| == 1
    ensures LittleEndian(b) == Digit(b, 0)
  {
  }

  lemma Bytes2(b: seq<Byte>)
    requires |b| == 2
    ensures LittleEndian(b) == Digit(b, 0) + 256 * Digit(b, 1)
  {
    Bytes1(b[1..]);
  }

  lemma Bytes4(b: seq<Byte>)
    requires |b| == 4
    ensures LittleEndian(b) == Digit(b, 0) + 256 * (Digit(b, 1) + 256 * (Digit(b, 2) + 256 * Digit(b, 3)))
  {
    assert b[1..][1..] == b[2..];
    Bytes2(b[2..]);
  }

  /** A char and a word are read signed, a short unsigned. */
  lemma LoadedIsSigned(b: seq<Byte>)
    requires ValidSize(|b|)
    ensures Load(b) == LittleEndian(b) - if |b| != 2 && LittleEndian(b) >= Range(|b|) / 2 then Range(|b|) else 0
  {
    if |b| == 1 { Bytes1(b); } else if |b| == 2 { Bytes2(b); } else { Bytes4(b); }
  }

  // ---- memory accesses ----------------------------------------------------------------

  function Address(frame: nat, offset: nat): nat {
    frame * PAGE_SIZE + offset
  }

  /** An aligned access stays inside its page, so inside memory. */
  lemma AccessFits(table: seq<PageEntry>, addr: int, size: nat, writing: bool)
    requires ValidSize(size) && Translate(table, addr, size, writing).Physical?
    ensures var p := Translate(table, addr, size, writing);
            && p.frame < NUM_PHYS_PAGES && p.offset + size <= PAGE_SIZE
            && Address(p.frame, p.offset) + size <= MEMORY_SIZE
  {
    UnsignedAlignment(addr);
    AlignedOffset(Unsigned(addr));
  }

  lemma UnsignedAlignment(addr: int)
    ensures Unsigned(addr) % 4 == addr % 4
    ensures Unsigned(addr) % 2 == addr % 2
  {
    var k := 0x2000_0000 * (addr / WORD_LIMIT);
    assert addr == 4 * (2 * k) + Unsigned(addr);
    MultipleOfFour(2 * k, Unsigned(addr));
    MultipleOfTwo(4 * k, Unsigned(addr));
  }

  lemma MultipleOfFour(k: int, r: int)
    ensures (4 * k + r) % 4 == r % 4
  {
    var x := 4 * k + r;
    assert 4 * (x / 4 - k - r / 4) == r % 4 - x % 4;
  }

  lemma MultipleOfTwo(k: int, r: int)
    ensures (2 * k + r) % 2 == r % 2
  {
    var x := 2 * k + r;
    assert 2 * (x / 2 - k - r / 2) == r % 2 - x % 2;
  }

  lemma AlignedOffset(u: nat)
    ensures u % 4 == 0 ==> u % PAGE_SIZE + 4 <= PAGE_SIZE
    ensures u % 2 == 0 ==> u % PAGE_SIZE + 2 <= PAGE_SIZE
  {
    var q, r := u / PAGE_SIZE, u % PAGE_SIZE;
    if u % 4 == 0 { MultipleLeavesRoom(u / 4, 128 * q, r, 4); }
    if u % 2 == 0 { MultipleLeavesRoom(u / 2, 256 * q, r, 2); }
  }

  /** The offset of a multiple of size is a multiple of size itself. */
  lemma MultipleLeavesRoom(a: nat, b: nat, r: nat, size: nat)
    requires (size == 4 || size == 2) && size * a == size * b + r && r < PAGE_SIZE
    ensures r + size <= PAGE_SIZE
  {
    if size == 4 {
      assert r == 4 * (a - b);
    } else {
      assert r == 2 * (a - b);
    }
  }

  datatype Read = ReadFault(what: Exception) | Value(value: int)

  function ReadMem(m: Memory, table: seq<PageEntry>, addr: int, size: nat): Read
    requires ValidSize(size)
  {
    match Translate(table, addr, size, false)
    case Fault(what) => ReadFault(what)
    case Physical(frame, offset) =>
      AccessFits(table, addr, size, false);
      var a := Address(frame, offset);
      Value(Load(m[a..a + size]))
  }

  datatype Write = WriteFault(what: Exception) | Wrote(m: Memory)

  function WriteMem(m: Memory, table: seq<PageEntry>, addr: int, size: nat, value: int): Write
    requires ValidSize(size)
  {
    match Translate(table, addr, size, true)
    case Fault(what) => WriteFault(what)
    case Physical(frame, offset) =>
      AccessFits(table, addr, size, true);
      var a := Address(frame, offset);
      Wrote(m[..a] + Store(value, size) + m[a + size..])
  }

  /** What an access comes to, in each case. An address is in range when it lies below the pages
      of the table. */
  lemma TranslateCases(table: seq<PageEntry>, addr: int, size: nat, writing: bool)
    requires ValidSize(size)
    ensures var out := Translate(table, addr, size, writing);
            var u := Unsigned(addr);
            if addr % size != 0 || u >= |table| * PAGE_SIZE then out == Fault(AddressError)
            else
              var e := table[u / PAGE_SIZE];
              if !e.valid then out == Fault(PageFault)
              else if e.readOnly && writing then out == Fault(ReadOnly)
              else if !(0 <= e.physicalPage % WORD_LIMIT < NUM_PHYS_PAGES) then out == Fault(BusError)
              else out.Physical? && Address(out.frame, out.offset) == e.physicalPage % WORD_LIMIT * PAGE_SIZE + u % PAGE_SIZE
  {
    PageInRange(Unsigned(addr), |table|);
  }

  lemma PageInRange(u: nat, pages: nat)
    ensures u / PAGE_SIZE < pages <==> u < pages * PAGE_SIZE
  {
  }

  // ---- address spaces --------------------------------------------------------------------

  function FrameOf(e: PageEntry): nat {
    Unsigned(e.physicalPage)
  }

  function Frames(table: seq<PageEntry>): (f: seq<nat>)
    ensures |f| == |table|
    ensures forall i :: 0 <= i < |table| ==> f[i] == FrameOf(table[i])
  {
    seq(|table|, i requires 0 <= i < |table| => FrameOf(table[i]))
  }

  /** A page table as AddrSpace builds it. */
  ghost predicate TableOk(table: seq<PageEntry>) {
    && (forall i :: 0 <= i < |table| ==> table[i].valid && !table[i].readOnly && FrameOf(table[i]) < NUM_PHYS_PAGES)
    && NoDuplicates(Frames(table))
  }

  /** The spaces ever created, by number; a destroyed or refused one has no pages. */
  type Spaces = seq<seq<PageEntry>>

  ghost function FrameSets(spaces: Spaces): (o: seq<set<nat>>)
    ensures |o| == |spaces|
    ensures forall i :: 0 <= i < |spaces| ==> o[i] == Elements(Frames(spaces[i]))
  {
    seq(|spaces|, i requires 0 <= i < |spaces| => Elements(Frames(spaces[i])))
  }

  /** Live tables use pairwise disjoint existing frames, and those are the marked ones. */
  ghost predicate Isolated(spaces: Spaces, marked: set<nat>) {
    && (forall i :: 0 <= i < |spaces| ==> TableOk(spaces[i]))
    && PairwiseDisjoint(FrameSets(spaces))
    && Covers(FrameSets(spaces), marked)
  }

  /** Creating a space from clear frames. */
  lemma CreateKeepsIsolation(spaces: Spaces, marked: set<nat>, table: seq<PageEntry>, marked': set<nat>)
    requires Isolated(spaces, marked) && TableOk(table)
    requires Taken(Frames(table), NUM_PHYS_PAGES, marked, marked')
    ensures Isolated(spaces + [table], marked')
  {
    OneHoldingAdded(FrameSets(spaces), marked, Elements(Frames(table)));
    assert FrameSets(spaces + [table]) == FrameSets(spaces) + [Elements(Frames(table))];
  }

  /** Destroying one clears exactly its frames. */
  lemma DestroyKeepsIsolation(spaces: Spaces, marked: set<nat>, i: nat)
    requires Isolated(spaces, marked) && i < |spaces|
    ensures Elements(Frames(spaces[i])) <= marked
    ensures Isolated(spaces[i := []], marked - Elements(Frames(spaces[i])))
  {
    var o := FrameSets(spaces);
    assert o[i] <= marked;
    OneHoldingChanged(o, marked, i, {});
    assert Elements(Frames([])) == {};
    assert FrameSets(spaces[i := []]) == o[i := {}];
  }

  /** Through a table that AddrSpace built, an access succeeds exactly when it is aligned and
      ends inside the space; its last page is as good as its first. */
  lemma AccessSucceedsIff(m: Memory, table: seq<PageEntry>, addr: int, size: nat, value: int)
    requires TableOk(table) && ValidSize(size)
    ensures ReadMem(m, table, addr, size).Value? <==>
              addr % size == 0 && Unsigned(addr) + size <= |table| * PAGE_SIZE
    ensures WriteMem(m, table, addr, size, value).Wrote? <==>
              addr % size == 0 && Unsigned(addr) + size <= |table| * PAGE_SIZE
  {
    TranslateCases(table, addr, size, false);
    TranslateCases(table, addr, size, true);
    if addr % size == 0 { AlignedEnd(addr, size, |table|); }
  }

  lemma AlignedEnd(addr: int, size: nat, pages: nat)
    requires ValidSize(size) && addr % size == 0
    ensures Unsigned(addr) < pages * PAGE_SIZE <==> Unsigned(addr) + size <= pages * PAGE_SIZE
  {
    var u := Unsigned(addr);
    UnsignedAlignment(addr);
    AlignedOffset(u);
    PageInRange(u, pages);
    assert u == PAGE_SIZE * (u / PAGE_SIZE) + u % PAGE_SIZE;
  }

  // ---- isolation --------------------------------------------------------------------------

  /** The byte a space sees at a virtual address. */
  function VirtualByte(m: Memory, table: seq<PageEntry>, a: nat): Byte
    requires a < |table| * PAGE_SIZE && FrameOf(table[a / PAGE_SIZE]) < NUM_PHYS_PAGES
  {
    m[Address(FrameOf(table[a / PAGE_SIZE]), a % PAGE_SIZE)]
  }

  function VirtualBytes(m: Memory, table: seq<PageEntry>, a: nat, n: nat): (b: seq<Byte>)
    requires a + n <= |table| * PAGE_SIZE
    requires forall i :: 0 <= i < |table| ==> FrameOf(table[i]) < NUM_PHYS_PAGES
    ensures |b| == n
    ensures forall k :: 0 <= k < n ==> b[k] == VirtualByte(m, table, a + k)
  {
    if n == 0 then [] else VirtualBytes(m, table, a, n - 1) + [VirtualByte(m, table, a + n - 1)]
  }

  /** Distinct places of live spaces are distinct in memory. */
  lemma PlacesDistinct(spaces: Spaces, marked: set<nat>, i: nat, p: nat, j: nat, q: nat)
    requires Isolated(spaces, marked) && i < |spaces| && j < |spaces|
    requires p < |spaces[i]| && q < |spaces[j]| && (i != j || p != q)
    ensures FrameOf(spaces[i][p]) != FrameOf(spaces[j][q])
  {
    var o := FrameSets(spaces);
    assert Frames(spaces[i])[p] in o[i] && Frames(spaces[j])[q] in o[j];
    if i == j {
      assert Frames(spaces[i])[p] != Frames(spaces[i])[q];
    } else {
      assert i < j ==> o[i] !! o[j];
      assert j < i ==> o[j] !! o[i];
    }
  }

  /** A successful WriteMem changes exactly the addressed bytes of its own space, and no byte
      that any other space can see. */
  lemma WriteIsIsolated(m: Memory, spaces: Spaces, marked: set<nat>, i: nat, addr: int, size: nat,
                        value: int, j: nat, a: nat)
    requires Isolated(spaces, marked) && i < |spaces| && j < |spaces| && ValidSize(size)
    requires WriteMem(m, spaces[i], addr, size, value).Wrote?
    requires a < |spaces[j]| * PAGE_SIZE
    ensures VirtualByte(WriteMem(m, spaces[i], addr, size, value).m, spaces[j], a)
         == if j == i && Unsigned(addr) <= a < Unsigned(addr) + size
            then Store(value, size)[a - Unsigned(addr)]
            else VirtualByte(m, spaces[j], a)
  {
    AccessFits(spaces[i], addr, size, true);
    var vpn := Unsigned(addr) / PAGE_SIZE;
    var q := a / PAGE_SIZE;
    if i != j || vpn != q {
      PlacesDistinct(spaces, marked, i, vpn, j, q);
    }
    WriteHits(m, spaces[i], addr, size, value, FrameOf(spaces[j][q]), a % PAGE_SIZE);
  }

  /** Memory after a write, by frame and offset. */
  lemma WriteHits(m: Memory, table: seq<PageEntry>, addr: int, size: nat, value: int, frame: nat, offset: nat)
    requires ValidSize(size) && WriteMem(m, table, addr, size, value).Wrote?
    requires frame < NUM_PHYS_PAGES && offset < PAGE_SIZE
    ensures var p := Translate(table, addr, size, true);
            WriteMem(m, table, addr, size, value).m[Address(frame, offset)]
            == if frame == p.frame && p.offset <= offset < p.offset + size
               then Store(value, size)[offset - p.offset]
               else m[Address(frame, offset)]
  {
    AccessFits(table, addr, size, true);
  }

  /** A read sees the bytes of its own space and nothing else. */
  lemma ReadSeesOwnBytes(m: Memory, table: seq<PageEntry>, addr: int, size: nat)
    requires TableOk(table) && ValidSize(size) && ReadMem(m, table, addr, size).Value?
    ensures Unsigned(addr) + size <= |table| * PAGE_SIZE
    ensures ReadMem(m, table, addr, size).value
         == Load(VirtualBytes(m, table, Unsigned(addr), size))
  {
    AccessFits(table, addr, size, false);
    var u := Unsigned(addr);
    var p := Translate(table, addr, size, false);
    var a := Address(p.frame, p.offset);
    var seen := VirtualBytes(m, table, u, size);
    var got := m[a..a + size];
    forall k | 0 <= k < size ensures got[k] == seen[k] {
      ByteSeen(m, table, u, p.frame, size, k);
    }
    assert got == seen;
  }

  lemma ByteSeen(m: Memory, table: seq<PageEntry>, u: nat, frame: nat, size: nat, k: nat)
    requires u / PAGE_SIZE < |table| && frame == FrameOf(table[u / PAGE_SIZE]) < NUM_PHYS_PAGES
    requires k < size && u % PAGE_SIZE + size <= PAGE_SIZE
    ensures u + k < |table| * PAGE_SIZE && FrameOf(table[(u + k) / PAGE_SIZE]) < NUM_PHYS_PAGES
    ensures VirtualByte(m, table, u + k) == m[Address(frame, u % PAGE_SIZE) + k]
  {
    SamePage(u, k, size);
  }

  lemma SamePage(u: nat, k: nat, size: nat)
    requires k < size && u % PAGE_SIZE + size <= PAGE_SIZE
    ensures (u + k) / PAGE_SIZE == u / PAGE_SIZE && (u + k) % PAGE_SIZE == u % PAGE_SIZE + k
  {
  }

  lemma OthersSeeTheSame(m: Memory, spaces: Spaces, marked: set<nat>, i: nat, addr: int, size: nat,
                         value: int, j: nat, a: nat, n: nat)
    requires Isolated(spaces, marked) && i < |spaces| && j < |spaces| && i != j
    requires ValidSize(size) && WriteMem(m, spaces[i], addr, size, value).Wrote?
    requires a + n <= |spaces[j]| * PAGE_SIZE
    ensures TableOk(spaces[j])
    ensures VirtualBytes(WriteMem(m, spaces[i], addr, size, value).m, spaces[j], a, n)
         == VirtualBytes(m, spaces[j], a, n)
  {
    var b := VirtualBytes(m, spaces[j], a, n);
    var b' := VirtualBytes(WriteMem(m, spaces[i], addr, size, value).m, spaces[j], a, n);
    forall k | 0 <= k < n ensures b'[k] == b[k] {
      WriteIsIsolated(m, spaces, marked, i, addr, size, value, j, a + k);
    }
  }

  /** So a write through one table leaves every read through another as it was, fault or
      value. */
  lemma OthersReadTheSame(m: Memory, spaces: Spaces, marked: set<nat>, i: nat, addr: int, size: nat,
                          value: int, j: nat, addr': int, size': nat)
    requires Isolated(spaces, marked) && i < |spaces| && j < |spaces| && i != j
    requires ValidSize(size) && ValidSize(size') && WriteMem(m, spaces[i], addr, size, value).Wrote?
    ensures ReadMem(WriteMem(m, spaces[i], addr, size, value).m, spaces[j], addr', size')
         == ReadMem(m, spaces[j], addr', size')
  {
    if Translate(spaces[j], addr', size', false).Physical? {
      ReadSeesOwnBytes(m, spaces[j], addr', size');
      ReadSeesOwnBytes(WriteMem(m, spaces[i], addr, size, value).m, spaces[j], addr', size');
      OthersSeeTheSame(m, spaces, marked, i, addr, size, value, j, Unsigned(addr'), size');
    }
  }

  /** And a read of what was just written returns it, exactly when the size can hold it. */
  lemma ReadBack(m: Memory, table: seq<PageEntry>, addr: int, size: nat, value: int)
    requires ValidSize(size) && WriteMem(m, table, addr, size, value).Wrote?
    ensures ReadMem(WriteMem(m, table, addr, size, value).m, table, addr, size) == Value(value)
       <==> Representable(value, size)
  {
    AccessFits(table, addr, size, true);
    StoreLoad(value, size);
    var p := Translate(table, addr, size, true);
    var a := Address(p.frame, p.offset);
    var m' := WriteMem(m, table, addr, size, value).m;
    assert m'[a..a + size] == Store(value, size);
  }
}
