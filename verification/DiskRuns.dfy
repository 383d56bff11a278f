/** Whole runs of the file system: what holds after formatting and any sequence of Create,
    Remove and writes through live handles. */
module DiskRuns {
  import opened Common
  import opened Bits
  import opened BitMapModel
  import opened Layout
  import opened FileHeaders
  import opened OpenFiles
  import opened Directories
  import opened DiskState
  import opened DiskSteps
  import opened FileSystems

  datatype Op =
    | Create(name: Name, size: nat)
    | Remove(name: Name)
    | Write(name: Name, position: nat, data: seq<Byte>)

  /** One call with its result, as the methods of FileSystem and OpenFile specify it. A write
      goes through a handle of the file, if it is in the directory. */
  ghost predicate Step(d: Image, op: Op, ok: bool, d': Image)
    requires Inv(d)
  {
    match op
    case Create(name, size) =>
      && (ok <==> Key(name) !in Files(d) && |Files(d)| < NUM_ENTRIES
                  && ClearSectors(d) >= 1 + DivRoundUp(size, SECTOR_SIZE))
      && if ok then exists sector :: Created(d, d', name, size, sector) else d' == d
    case Remove(name) =>
      && (ok <==> Key(name) in Files(d))
      && if ok then Removed(d, d', name) else d' == d
    case Write(name, position, data) =>
      && (ok <==> IndexOf(Table(d), Key(name)) != -1)
      && if ok then Wrote(d, d', IndexOf(Table(d), Key(name)), position, data) else d' == d
  }

  /** Sectors a file of some length needs: its header and its data. */
  function Cost(bytes: nat): nat {
    1 + DivRoundUp(bytes, SECTOR_SIZE)
  }

  /** Sectors that all files of a map need. */
  ghost function MapFootprint(m: map<seq<Byte>, seq<Byte>>): nat
    decreases |m|
  {
    if m == map[] then 0
    else
      var k :| k in m;
      Cost(|m[k]|) + MapFootprint(m - {k})
  }

  /** When a plain map of ten names on 1020 sectors has room for one more. */
  ghost predicate MapFits(m: map<seq<Byte>, seq<Byte>>, key: seq<Byte>, size: nat) {
    key !in m && |m| < NUM_ENTRIES && MapFootprint(m) + Cost(size) <= NUM_SECTORS - 4
  }

  /** The same call on a plain map from names to contents. */
  ghost predicate MapStep(m: map<seq<Byte>, seq<Byte>>, op: Op, ok: bool, m': map<seq<Byte>, seq<Byte>>) {
    match op
    case Create(name, size) =>
      && (ok <==> MapFits(m, Key(name), size))
      && if ok then exists c: seq<Byte> :: |c| == size && m' == m[Key(name) := c] else m' == m
    case Remove(name) =>
      && (ok <==> Key(name) in m)
      && m' == m - {Key(name)}
    case Write(name, position, data) =>
      && (ok <==> Key(name) in m)
      && m' == if ok then m[Key(name) := Written(m[Key(name)], position, data)] else m
  }

  /** One call keeps the invariant and refines the map. */
  lemma StepRefines(d: Image, op: Op, ok: bool, d': Image)
    requires Inv(d) && Step(d, op, ok, d')
    ensures Inv(d') && MapStep(Files(d), op, ok, Files(d'))
  {
    match op
    case Create(name, size) =>
      Conservation(d);
      FootprintIsMaps(d);
      if ok {
        var sector :| Created(d, d', name, size, sector);
        CreatedFiles(d, d', name, size, sector);
      }
    case Remove(name) =>
      if ok {
        RemovedFiles(d, d', name);
      } else {
        assert Files(d) - {Key(name)} == Files(d);
      }
    case Write(name, position, data) =>
      FilesAndTable(d, name);
      if ok { WroteFiles(d, d', IndexOf(Table(d), Key(name)), position, data); }
  }

  /** Every call of the implementation is such a step. */
  method Perform(fs: FileSystem, op: Op) returns (ok: bool)
    requires fs.Valid()
    requires op.Create? ==> op.size <= MAX_FILE_SIZE
    modifies fs.disk
    ensures fs.Valid() && Step(old(fs.disk.image), op, ok, fs.disk.image)
  {
    match op
    case Create(name, size) =>
      ok := fs.Create(name, size);
    case Remove(name) =>
      ok := fs.Remove(name);
    case Write(name, position, data) =>
      FilesAndTable(fs.disk.image, name);
      var file := fs.Open(name);
      ok := file != null;
      if ok {
        ghost var i := IndexOf(Table(fs.disk.image), Key(name));
        var n := WriteThrough(fs, file, i, position, data);
      }
  }

  /** A write through any handle of the file in slot i, however long ago it was opened, is such
      a step too, and the handle stays good. */
  method WriteThrough(fs: FileSystem, file: OpenFile, ghost i: nat, position: nat, data: seq<Byte>)
    returns (n: int)
    requires fs.Valid() && file.disk == fs.disk && i < NUM_ENTRIES && Handles(file, fs.disk.image, i)
    modifies fs.disk
    ensures fs.Valid() && Wrote(old(fs.disk.image), fs.disk.image, i, position, data)
    ensures Handles(file, fs.disk.image, i)
    ensures n == Transfer(file.hdr.numBytes, |data|, position)
  {
    ghost var d := fs.disk.image;
    n := file.WriteAt(data, position);
    assert Wrote(d, fs.disk.image, i, position, data);
    WroteFiles(d, fs.disk.image, i, position, data);
    WroteSystemFiles(d, fs.disk.image, i, position, data);
    WriteKeepsSlot(d, fs.disk.image, i, position, data, i);
    HandleKept(file, d, fs.disk.image, i);
  }

  /** A sequence of calls of the implementation is a run. */
  method PerformAll(fs: FileSystem, ops: seq<Op>) returns (oks: seq<bool>, ghost ds: seq<Image>)
    requires fs.Valid()
    requires forall k :: 0 <= k < |ops| && ops[k].Create? ==> ops[k].size <= MAX_FILE_SIZE
    modifies fs.disk
    ensures fs.Valid() && Run(ds, ops, oks)
    ensures ds[0] == old(fs.disk.image) && ds[|ops|] == fs.disk.image
  {
    oks, ds := [], [fs.disk.image];
    for n := 0 to |ops|
      invariant fs.Valid() && Run(ds, ops[..n], oks)
      invariant ds[0] == old(fs.disk.image) && ds[n] == fs.disk.image
    {
      var ok := Perform(fs, ops[n]);
      RunOneMore(ds, ops, oks, n, ok, fs.disk.image);
      ds, oks := ds + [fs.disk.image], oks + [ok];
    }
    assert ops[..|ops|] == ops;
  }

  lemma RunOneMore(ds: seq<Image>, ops: seq<Op>, oks: seq<bool>, n: nat, ok: bool, d: Image)
    requires n < |ops| && Run(ds, ops[..n], oks) && RunStep(ds[n], ops[n], ok, d)
    ensures Run(ds + [d], ops[..n + 1], oks + [ok])
  {
    var ds', oks' := ds + [d], oks + [ok];
    forall k | 0 <= k <= n ensures RunStep(ds'[k], ops[k], oks'[k], ds'[k + 1]) {
      if k < n { assert RunStep(ds[k], ops[..n][k], oks[k], ds[k + 1]); }
    }
  }

  /** A handle opened early and kept through any calls that do not remove its file then writes
      to that file and no other. */
  method KeptHandleWrites(fs: FileSystem, name: Name, ops: seq<Op>, position: nat, data: seq<Byte>)
    returns (oks: seq<bool>, ghost ds: seq<Image>)
    requires fs.Valid() && Key(name) in Files(fs.disk.image)
    requires forall k :: 0 <= k < |ops| && ops[k].Create? ==> ops[k].size <= MAX_FILE_SIZE
    requires forall k :: 0 <= k < |ops| ==> !Removes(ops[k], Key(name))
    modifies fs.disk
    ensures fs.Valid() && Run(ds, ops, oks) && ds[0] == old(fs.disk.image)
    ensures Inv(ds[|ops|]) && Key(name) in Files(ds[|ops|])
    ensures var m := Files(ds[|ops|]);
            Files(fs.disk.image) == m[Key(name) := Written(m[Key(name)], position, data)]
  {
    FilesAndTable(fs.disk.image, name);
    var file := fs.Open(name);
    ghost var i := IndexOf(Table(fs.disk.image), Key(name));
    oks, ds := PerformAll(fs, ops);
    RunKeepsSlot(ds, ops, oks, |ops|, i);
    HandleKept(file, ds[0], ds[|ops|], i);
    var n := WriteThrough(fs, file, i, position, data);
    WroteFiles(ds[|ops|], fs.disk.image, i, position, data);
  }

  /** ds[0], ds[1], ... with call k leading from ds[k] to ds[k + 1]. */
  ghost predicate Run(ds: seq<Image>, ops: seq<Op>, oks: seq<bool>) {
    && |ds| == |ops| + 1 && |oks| == |ops|
    && forall k :: 0 <= k < |ops| ==> RunStep(ds[k], ops[k], oks[k], ds[k + 1])
  }

  ghost predicate RunStep(d: Image, op: Op, ok: bool, d': Image) {
    Inv(d) ==> Step(d, op, ok, d')
  }

  ghost predicate RefinesAt(d: Image, op: Op, ok: bool, d': Image) {
    Inv(d) && Inv(d') && MapStep(Files(d), op, ok, Files(d'))
  }

  /** Safety over whole runs: the ownership invariant holds in every state, and the run on
      the disk is a run on the map. */
  lemma {:induction false} RunRefines(ds: seq<Image>, ops: seq<Op>, oks: seq<bool>, n: nat)
    requires Run(ds, ops, oks) && Inv(ds[0]) && n <= |ops|
    ensures Inv(ds[n])
    ensures forall k :: 0 <= k < n ==> RefinesAt(ds[k], ops[k], oks[k], ds[k + 1])
  {
    if n > 0 {
      RunRefines(ds, ops, oks, n - 1);
      assert RunStep(ds[n - 1], ops[n - 1], oks[n - 1], ds[n - 1 + 1]);
      StepRefines(ds[n - 1], ops[n - 1], oks[n - 1], ds[n]);
    }
  }

  // ---- handles stay live ---------------------------------------------------------

  /** The header a handle of slot i read when it was opened is still the one on disk. */
  ghost predicate SlotKept(d: Image, d': Image, i: nat)
    requires Inv(d) && Inv(d') && i < NUM_ENTRIES && Table(d)[i].inUse
  {
    assert Live(Table(d), i);
    && Table(d')[i] == Table(d)[i]
    && Hdr(d', Table(d)[i].sector) == Hdr(d, Table(d)[i].sector)
  }

  predicate Removes(op: Op, key: seq<Byte>) {
    op.Remove? && Key(op.name) == key
  }

  lemma UpdateKeepsSlot(d: Image, d': Image, also: set<nat>, i: nat)
    requires Inv(d) && Inv(d') && i < NUM_ENTRIES && Table(d)[i].inUse
    requires SystemUpdate(d, d', also) && also !! FreeMap(d)
    requires Table(d')[i] == Table(d)[i]
    ensures SlotKept(d, d', i)
  {
    var t := Table(d);
    assert Live(t, i);
    RootIsOwned(d, t, i);
    SystemUpdateSpares(d, d', also, i, Root(t, i));
  }

  lemma WriteKeepsSlot(d: Image, d': Image, j: nat, position: nat, data: seq<Byte>, i: nat)
    requires Inv(d) && j < NUM_ENTRIES && Table(d)[j].inUse && Wrote(d, d', j, position, data)
    requires i < NUM_ENTRIES && Table(d)[i].inUse
    ensures Inv(d') && SlotKept(d, d', i)
  {
    WroteFiles(d, d', j, position, data);
    WroteFrame(d, d', j, position, data, i);
  }

  lemma StepKeepsSlot(d: Image, op: Op, ok: bool, d': Image, i: nat)
    requires Inv(d) && Step(d, op, ok, d') && i < NUM_ENTRIES && Table(d)[i].inUse
    requires !Removes(op, KeyOf(Table(d)[i]))
    ensures Inv(d') && SlotKept(d, d', i)
  {
    StepRefines(d, op, ok, d');
    match op
    case Create(name, size) =>
      if ok {
        var sector :| Created(d, d', name, size, sector);
        assert FirstFree(Table(d)) != i;
        UpdateKeepsSlot(d, d', {sector}, i);
      }
    case Remove(name) =>
      if ok {
        assert IndexOf(Table(d), Key(name)) != i;
        UpdateKeepsSlot(d, d', {}, i);
      }
    case Write(name, position, data) =>
      if ok { WriteKeepsSlot(d, d', IndexOf(Table(d), Key(name)), position, data, i); }
  }

  /** A file keeps its slot and header through any run that does not remove it. */
  lemma {:induction false} RunKeepsSlot(ds: seq<Image>, ops: seq<Op>, oks: seq<bool>, n: nat, i: nat)
    requires Run(ds, ops, oks) && Inv(ds[0]) && n <= |ops|
    requires i < NUM_ENTRIES && Table(ds[0])[i].inUse
    requires forall k :: 0 <= k < n ==> !Removes(ops[k], KeyOf(Table(ds[0])[i]))
    ensures Inv(ds[n]) && SlotKept(ds[0], ds[n], i)
  {
    if n > 0 {
      RunKeepsSlot(ds, ops, oks, n - 1, i);
      assert RunStep(ds[n - 1], ops[n - 1], oks[n - 1], ds[n - 1 + 1]);
      StepKeepsSlot(ds[n - 1], ops[n - 1], oks[n - 1], ds[n], i);
    }
  }

  /** What keeps the slot keeps its handles. */
  lemma HandleKept(f: OpenFile, d: Image, d': Image, i: nat)
    requires Inv(d) && Inv(d') && i < NUM_ENTRIES && Handles(f, d, i) && SlotKept(d, d', i)
    ensures Handles(f, d', i)
  {
    assert Live(Table(d'), i);
  }

  /** So a handle stays good through any run that does not remove its file. */
  lemma RunKeepsHandle(f: OpenFile, ds: seq<Image>, ops: seq<Op>, oks: seq<bool>, n: nat, i: nat)
    requires Run(ds, ops, oks) && Inv(ds[0]) && n <= |ops| && i < NUM_ENTRIES && Handles(f, ds[0], i)
    requires forall k :: 0 <= k < n ==> !Removes(ops[k], KeyOf(Table(ds[0])[i]))
    ensures Inv(ds[n]) && Handles(f, ds[n], i)
  {
    RunKeepsSlot(ds, ops, oks, n, i);
    HandleKept(f, ds[0], ds[n], i);
  }

  // ---- undo ------------------------------------------------------------------------

  lemma CreateThenRemoveMarks(d: Image, d1: Image, d2: Image, name: Name, size: nat, sector: nat)
    requires Inv(d) && Created(d, d1, name, size, sector)
    requires SystemFilesOk(d1) && Removed(d1, d2, name)
    ensures FreeMap(d2) == FreeMap(d)
  {
    CreatedOwns(d, d1, name, size, sector);
    var t, t1, i := Table(d), Table(d1), FirstFree(Table(d));
    AddedNames(t, name, sector);
    assert Holds(t1[i], Key(name));
    IndexOfUnique(t1, Key(name), i);
  }

  /** Create then Remove restores the free map bit for bit, and the files. */
  lemma CreateThenRemove(d: Image, d1: Image, d2: Image, name: Name, size: nat, sector: nat)
    requires Inv(d) && Created(d, d1, name, size, sector)
    requires SystemFilesOk(d1) && Removed(d1, d2, name)
    ensures Inv(d2) && Files(d2) == Files(d)
    ensures MapWords(d2) == MapWords(d)
  {
    CreateThenRemoveMarks(d, d1, d2, name, size, sector);
    SameMarksSameWords(d2, d);
    CreatedFiles(d, d1, name, size, sector);
    RemovedFiles(d1, d2, name);
    SetThenDrop(Files(d), Key(name), Files(d1)[Key(name)]);
  }

  lemma SameMarksSameWords(d: Image, d': Image)
    requires SystemFilesOk(d) && SystemFilesOk(d') && FreeMap(d) == FreeMap(d')
    ensures MapWords(d) == MapWords(d')
  {
    WordsFromMarks(MapWords(d), MapWords(d'), NUM_SECTORS);
  }

  lemma SetThenDrop(m: map<seq<Byte>, seq<Byte>>, k: seq<Byte>, c: seq<Byte>)
    requires k !in m
    ensures m[k := c] - {k} == m
  {
  }

  // ---- conservation ----------------------------------------------------------------

  ghost function SumSizes(o: seq<set<nat>>): nat {
    if o == [] then 0 else SumSizes(o[..|o| - 1]) + |o[|o| - 1]|
  }

  lemma {:induction false} CoveredSize(o: seq<set<nat>>, marked: set<nat>)
    requires PairwiseDisjoint(o) && Covers(o, marked)
    ensures |marked| == SumSizes(o)
  {
    if o == [] {
      assert marked == {};
    } else {
      var last, rest := o[|o| - 1], o[..|o| - 1];
      forall i | 0 <= i < |rest| ensures rest[i] <= marked - last {
        assert o[i] !! last && o[i] <= marked;
      }
      forall s | s in marked - last ensures exists i :: 0 <= i < |rest| && s in rest[i] {
        var i :| 0 <= i < |o| && s in o[i];
        assert s in rest[i];
      }
      CoveredSize(rest, marked - last);
      assert marked == (marked - last) + last;
    }
  }

  lemma {:induction false} ElementsSize(s: seq<nat>)
    requires NoDuplicates(s)
    ensures |Elements(s)| == |s|
  {
    if s == [] {
      assert Elements(s) == {};
    } else {
      var rest, x := s[..|s| - 1], s[|s| - 1];
      ElementsSize(rest);
      assert Elements(s) == Elements(rest) + {x};
    }
  }

  /** Sectors taken by the files of a directory: one header each, plus their data. */
  ghost function Footprint(v: seq<Slot>): nat {
    if v == [] then 0
    else Footprint(v[..|v| - 1]) +
         (match v[|v| - 1]
          case Unused => 0
          case File(_, bytes) => Cost(|bytes|))
  }

  lemma {:induction false} MapFootprintDrop(m: map<seq<Byte>, seq<Byte>>, k: seq<Byte>)
    requires k in m
    ensures MapFootprint(m) == Cost(|m[k]|) + MapFootprint(m - {k})
    decreases |m|
  {
    var j :| j in m && MapFootprint(m) == Cost(|m[j]|) + MapFootprint(m - {j});
    if j != k {
      MapFootprintDrop(m - {j}, k);
      MapFootprintDrop(m - {k}, j);
      assert m - {j} - {k} == m - {k} - {j};
    }
  }

  lemma {:induction false} FootprintByName(v: seq<Slot>)
    requires SlotsDistinct(v)
    ensures Footprint(v) == MapFootprint(ByName(v))
  {
    if v != [] {
      var w := v[..|v| - 1];
      FootprintByName(w);
      ByNameEntries(w);
      match v[|v| - 1]
      case Unused =>
      case File(key, bytes) =>
        assert key !in ByName(w);
        MapFootprintDrop(ByName(v), key);
        assert ByName(v) - {key} == ByName(w);
    }
  }

  lemma FootprintIsMaps(d: Image)
    requires Inv(d)
    ensures Footprint(Slots(d)) == MapFootprint(Files(d))
  {
    InvSlots(d);
    FootprintByName(Slots(d));
  }

  lemma OwnerSize(d: Image, i: nat)
    requires Inv(d) && i < NUM_OWNERS && Live(Table(d), i)
    ensures OwnerOk(d, Table(d), i)
    ensures |Owned(d, Table(d), i)| == 1 + Hdr(d, Root(Table(d), i)).numSectors
  {
    ElementsSize(Area(Root(Table(d), i), Hdr(d, Root(Table(d), i))));
  }

  lemma {:induction false} HoldingsSize(d: Image, n: nat)
    requires Inv(d) && n <= NUM_ENTRIES
    ensures SumSizes(Holdings(d, Table(d))[..n]) == Footprint(Slots(d)[..n])
  {
    if n > 0 {
      var o, v := Holdings(d, Table(d)), Slots(d);
      HoldingsSize(d, n - 1);
      assert o[..n][..n - 1] == o[..n - 1] && v[..n][..n - 1] == v[..n - 1];
      InvSlots(d);
      if Table(d)[n - 1].inUse {
        OwnerSize(d, n - 1);
      }
    }
  }

  lemma SumOfTwelve(o: seq<set<nat>>)
    requires |o| == NUM_OWNERS
    ensures SumSizes(o) == SumSizes(o[..NUM_ENTRIES]) + |o[NUM_ENTRIES]| + |o[NUM_ENTRIES + 1]|
  {
    assert o[..NUM_ENTRIES + 1][..NUM_ENTRIES] == o[..NUM_ENTRIES];
  }

  lemma ClearIsRest(d: Image)
    requires SystemFilesOk(d)
    ensures ClearSectors(d) == NUM_SECTORS - |FreeMap(d)|
  {
    var all, marked := Items(NUM_SECTORS), FreeMap(d);
    assert (all - marked) + marked == all;
  }

  /** Sectors are neither lost nor gained: in every state of every run, what is clear plus
      what the listed files need is the disk less the four system sectors. */
  lemma Conservation(d: Image)
    requires Inv(d)
    ensures ClearSectors(d) + Footprint(Slots(d)) == NUM_SECTORS - 4
  {
    var t, o, v := Table(d), Holdings(d, Table(d)), Slots(d);
    CoveredSize(o, FreeMap(d));
    ClearIsRest(d);
    HoldingsSize(d, NUM_ENTRIES);
    assert v[..NUM_ENTRIES] == v;
    OwnerSize(d, NUM_ENTRIES);
    OwnerSize(d, NUM_ENTRIES + 1);
    SumOfTwelve(o);
  }
}
