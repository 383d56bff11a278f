/** What a successful Create, Remove or WriteAt does to the disk image, and the proofs that
    each keeps the ownership invariant and acts on the abstract files as a plain map. */
module DiskSteps {
  import opened Bits
  import opened BitMapModel
  import opened Layout
  import opened FileHeaders
  import opened OpenFiles
  import opened Directories
  import opened DiskState

  /** The two system headers stay, and outside the system files' data only `also` changes. */
  ghost predicate SystemUpdate(d: Image, d': Image, also: set<nat>)
    requires SystemFilesOk(d)
  {
    && Hdr(d', MAP_SECTOR) == Hdr(d, MAP_SECTOR)
    && Hdr(d', DIRECTORY_SECTOR) == Hdr(d, DIRECTORY_SECTOR)
    && forall s :: 0 <= s < NUM_SECTORS && s !in also
                   && s !in DataOf(Hdr(d, MAP_SECTOR)) && s !in DataOf(Hdr(d, DIRECTORY_SECTOR))
         ==> d'[s] == d[s]
  }

  /** filesys/filesys.cc:185-208 on its success path. */
  ghost predicate Created(d: Image, d': Image, name: Name, size: nat, sector: nat)
    requires SystemFilesOk(d)
  {
    && sector < NUM_SECTORS && sector !in FreeMap(d)
    && (forall j: nat :: j < sector ==> j in FreeMap(d))
    && IndexOf(Table(d), Key(name)) == -1 && FirstFree(Table(d)) != -1
    && SystemUpdate(d, d', {sector})
    && Table(d') == Added(Table(d), name, sector)
    && Allocated(Hdr(d', sector), size, FreeMap(d) + {sector}, FreeMap(d'))
  }

  /** filesys/filesys.cc:265-288 on its success path. */
  ghost predicate Removed(d: Image, d': Image, name: Name)
    requires SystemFilesOk(d)
  {
    && IndexOf(Table(d), Key(name)) != -1
    && SystemUpdate(d, d', {})
    && Table(d') == Dropped(Table(d), name)
    && FreeMap(d') == FreeMap(d) - Owned(d, Table(d), IndexOf(Table(d), Key(name)))
  }

  /** A write through a handle of the file in slot i. */
  ghost predicate Wrote(d: Image, d': Image, i: nat, position: nat, data: seq<Byte>)
    requires Inv(d) && i < NUM_ENTRIES && Table(d)[i].inUse
  {
    assert Live(Table(d), i);
    var h := Hdr(d, Table(d)[i].sector);
    && OnlyFileChanged(d, d', h)
    && Content(d', h) == Written(Content(d, h), position, data)
  }

  // ---- framing -------------------------------------------------------------

  /** Owners keep to their own sectors. */
  lemma ForeignSector(d: Image, i: nat, j: nat, s: nat)
    requires Inv(d) && i < NUM_OWNERS && j < NUM_OWNERS && i != j
    requires s in Owned(d, Table(d), i)
    ensures s !in Owned(d, Table(d), j) && s in FreeMap(d) && s < NUM_SECTORS
  {
    var t := Table(d);
    var o := Holdings(d, t);
    assert o[i] <= FreeMap(d);
    assert i < j ==> o[i] !! o[j];
    assert j < i ==> o[j] !! o[i];
  }

  lemma SystemOwners(d: Image)
    requires Inv(d)
    ensures Elements(DataOf(Hdr(d, MAP_SECTOR))) <= Owned(d, Table(d), NUM_ENTRIES)
    ensures Elements(DataOf(Hdr(d, DIRECTORY_SECTOR))) <= Owned(d, Table(d), NUM_ENTRIES + 1)
    ensures MAP_SECTOR in Owned(d, Table(d), NUM_ENTRIES)
    ensures DIRECTORY_SECTOR in Owned(d, Table(d), NUM_ENTRIES + 1)
  {
    var t := Table(d);
    assert Live(t, NUM_ENTRIES) && Live(t, NUM_ENTRIES + 1);
    RootIsOwned(d, t, NUM_ENTRIES);
    RootIsOwned(d, t, NUM_ENTRIES + 1);
  }

  /** A system update that spares marked sectors leaves every sector of a listed file alone. */
  lemma SystemUpdateSpares(d: Image, d': Image, also: set<nat>, i: nat, s: nat)
    requires Inv(d) && SystemUpdate(d, d', also) && also !! FreeMap(d)
    requires i < NUM_ENTRIES && s in Owned(d, Table(d), i)
    ensures s < NUM_SECTORS && d'[s] == d[s]
  {
    SystemOwners(d);
    ForeignSector(d, i, NUM_ENTRIES, s);
    ForeignSector(d, i, NUM_ENTRIES + 1, s);
  }

  /** So what the untouched entries own, and their contents, stay. */
  lemma SystemUpdateFrame(d: Image, d': Image, also: set<nat>, t': seq<Entry>, i: nat)
    requires Inv(d) && SystemUpdate(d, d', also) && also !! FreeMap(d)
    requires |t'| == NUM_ENTRIES && i < NUM_OWNERS
    requires i < NUM_ENTRIES ==> t'[i] == Table(d)[i]
    ensures Owned(d', t', i) == Owned(d, Table(d), i)
    ensures Live(t', i) ==> OwnerOk(d', t', i)
    ensures i < NUM_ENTRIES ==> SlotOf(d', t', i) == SlotOf(d, Table(d), i)
  {
    var t := Table(d);
    if Live(t, i) {
      RootIsOwned(d, t, i);
      if i < NUM_ENTRIES {
        SystemUpdateSpares(d, d', also, i, Root(t, i));
        OwnedFrame(d, d', t, t', i);
        var h := Hdr(d, Root(t, i));
        forall s | s in DataOf(h) ensures d[s] == d'[s] {
          SystemUpdateSpares(d, d', also, i, s);
        }
        ContentFrame(d, d', h);
      }
    }
    OwnedFrame(d, d', t, t', i);
  }

  // ---- Create --------------------------------------------------------------

  /** The sectors of the new file are exactly the newly marked ones. */
  lemma CreatedOwns(d: Image, d': Image, name: Name, size: nat, sector: nat)
    requires Inv(d) && Created(d, d', name, size, sector)
    ensures var t', i := Table(d'), FirstFree(Table(d));
            && Live(t', i) && OwnerOk(d', t', i)
            && Owned(d', t', i) !! FreeMap(d)
            && FreeMap(d') == FreeMap(d) + Owned(d', t', i)
  {
    var t', i := Table(d'), FirstFree(Table(d));
    var h := Hdr(d', sector);
    assert sector !in Elements(DataOf(h));
    assert OwnerOk(d', t', i) by {
      assert forall k :: 0 <= k < |DataOf(h)| ==> DataOf(h)[k] in Elements(DataOf(h));
    }
    RootIsOwned(d', t', i);
  }

  /** A directory update of one entry changes one holding and one slot. */
  lemma OneEntryUpdated(d: Image, d': Image, also: set<nat>, i: nat)
    requires Inv(d) && SystemUpdate(d, d', also) && also !! FreeMap(d) && i < NUM_ENTRIES
    requires forall j :: 0 <= j < NUM_ENTRIES && j != i ==> Table(d')[j] == Table(d)[j]
    requires Live(Table(d'), i) ==> OwnerOk(d', Table(d'), i)
    ensures OwnersOk(d', Table(d'))
    ensures Holdings(d', Table(d')) == Holdings(d, Table(d))[i := Owned(d', Table(d'), i)]
    ensures Slots(d') == Slots(d)[i := SlotOf(d', Table(d'), i)]
  {
    var t, t' := Table(d), Table(d');
    forall j: nat | j < NUM_OWNERS && j != i
      ensures Owned(d', t', j) == Owned(d, t, j)
      ensures Live(t', j) ==> OwnerOk(d', t', j)
      ensures j < NUM_ENTRIES ==> SlotOf(d', t', j) == SlotOf(d, t, j)
    {
      SystemUpdateFrame(d, d', also, t', j);
    }
  }

  lemma CreatedUpdates(d: Image, d': Image, name: Name, size: nat, sector: nat)
    requires Inv(d) && Created(d, d', name, size, sector)
    ensures OwnersOk(d', Table(d'))
    ensures PairwiseDisjoint(Holdings(d', Table(d')))
    ensures Covers(Holdings(d', Table(d')), FreeMap(d'))
    ensures var i := FirstFree(Table(d));
            && OwnerOk(d', Table(d'), i)
            && |FileAt(d', Table(d'), i)| == size
            && Slots(d') == Slots(d)[i := File(Key(name), FileAt(d', Table(d'), i))]
  {
    var i := FirstFree(Table(d));
    CreatedOwns(d, d', name, size, sector);
    OneEntryUpdated(d, d', {sector}, i);
    var o := Holdings(d, Table(d));
    assert o[i] == {};
    OneHoldingChanged(o, FreeMap(d), i, Owned(d', Table(d'), i));
    assert KeyOf(Table(d')[i]) == Key(name);
  }

  /** Create keeps the invariant, adds one name with some content of the requested size, and
      touches no other file. */
  lemma CreatedFiles(d: Image, d': Image, name: Name, size: nat, sector: nat)
    requires Inv(d) && Created(d, d', name, size, sector)
    ensures Inv(d')
    ensures Key(name) !in Files(d) && Key(name) in Files(d')
    ensures |Files(d')[Key(name)]| == size
    ensures Files(d') == Files(d)[Key(name) := Files(d')[Key(name)]]
  {
    var t, t', i := Table(d), Table(d'), FirstFree(Table(d));
    CreatedUpdates(d, d', name, size, sector);
    AddedNames(t, name, sector);
    InvSlots(d);
    assert forall j :: 0 <= j < |t| ==> !Holds(t[j], Key(name));
    ByNameSet(Slots(d), i, File(Key(name), FileAt(d', t', i)));
  }

  // ---- Remove --------------------------------------------------------------

  lemma RemovedUpdates(d: Image, d': Image, name: Name)
    requires Inv(d) && Removed(d, d', name)
    ensures Inv(d')
    ensures Slots(d') == Slots(d)[IndexOf(Table(d), Key(name)) := Unused]
  {
    var t, t', i := Table(d), Table(d'), IndexOf(Table(d), Key(name));
    OneEntryUpdated(d, d', {}, i);
    assert Owned(d', t', i) == {};
    OneHoldingChanged(Holdings(d, t), FreeMap(d), i, {});
    assert FreeMap(d') == FreeMap(d) - Holdings(d, t)[i] + {};
  }

  /** Remove keeps the invariant and takes exactly the named file out. */
  lemma RemovedFiles(d: Image, d': Image, name: Name)
    requires Inv(d) && Removed(d, d', name)
    ensures Inv(d')
    ensures Key(name) in Files(d)
    ensures Files(d') == Files(d) - {Key(name)}
  {
    RemovedUpdates(d, d', name);
    InvSlots(d);
    ByNameDrop(Slots(d), IndexOf(Table(d), Key(name)));
  }

  // ---- write through a handle ----------------------------------------------

  lemma WroteSpares(d: Image, d': Image, i: nat, position: nat, data: seq<Byte>, j: nat, s: nat)
    requires Inv(d) && i < NUM_ENTRIES && Table(d)[i].inUse && Wrote(d, d', i, position, data)
    requires j < NUM_OWNERS && s in Owned(d, Table(d), j)
    requires j != i || s == Root(Table(d), i)
    ensures s < NUM_SECTORS && d'[s] == d[s]
  {
    var t := Table(d);
    assert Live(t, i);
    RootIsOwned(d, t, i);
    assert Holdings(d, t)[j] <= FreeMap(d);
    if j != i {
      ForeignSector(d, j, i, s);
    }
  }

  /** Every other owner keeps its header and its bytes. */
  lemma WroteFrame(d: Image, d': Image, i: nat, position: nat, data: seq<Byte>, j: nat)
    requires Inv(d) && i < NUM_ENTRIES && Table(d)[i].inUse && Wrote(d, d', i, position, data)
    requires j < NUM_OWNERS && Live(Table(d), j)
    ensures OwnerOk(d, Table(d), j)
    ensures Hdr(d', Root(Table(d), j)) == Hdr(d, Root(Table(d), j))
    ensures var h := Hdr(d, Root(Table(d), j));
            Content(d', h) == if j == i then Written(Content(d, h), position, data) else Content(d, h)
  {
    var t := Table(d);
    RootIsOwned(d, t, j);
    WroteSpares(d, d', i, position, data, j, Root(t, j));
    if j != i {
      forall s | s in DataOf(Hdr(d, Root(t, j))) ensures d[s] == d'[s] {
        WroteSpares(d, d', i, position, data, j, s);
      }
      ContentFrame(d, d', Hdr(d, Root(t, j)));
    }
  }

  lemma WroteSystemFiles(d: Image, d': Image, i: nat, position: nat, data: seq<Byte>)
    requires Inv(d) && i < NUM_ENTRIES && Table(d)[i].inUse && Wrote(d, d', i, position, data)
    ensures Hdr(d', MAP_SECTOR) == Hdr(d, MAP_SECTOR)
    ensures Hdr(d', DIRECTORY_SECTOR) == Hdr(d, DIRECTORY_SECTOR)
    ensures SystemFilesOk(d') && Table(d') == Table(d) && MapWords(d') == MapWords(d)
  {
    WroteFrame(d, d', i, position, data, NUM_ENTRIES);
    WroteFrame(d, d', i, position, data, NUM_ENTRIES + 1);
  }

  lemma WroteUpdates(d: Image, d': Image, i: nat, position: nat, data: seq<Byte>)
    requires Inv(d) && i < NUM_ENTRIES && Table(d)[i].inUse && Wrote(d, d', i, position, data)
    ensures Inv(d')
    ensures OwnerOk(d, Table(d), i)
    ensures Slots(d') == Slots(d)[i := File(KeyOf(Table(d)[i]),
                                            Written(FileAt(d, Table(d), i), position, data))]
  {
    var t := Table(d);
    WroteSystemFiles(d, d', i, position, data);
    forall j: nat | j < NUM_OWNERS
      ensures Owned(d', t, j) == Owned(d, t, j)
      ensures Live(t, j) ==> OwnerOk(d', t, j)
      ensures j < NUM_ENTRIES && j != i ==> SlotOf(d', t, j) == SlotOf(d, t, j)
    {
      if Live(t, j) {
        WroteFrame(d, d', i, position, data, j);
      }
      OwnedFrame(d, d', t, t, j);
    }
    assert Holdings(d', t) == Holdings(d, t);
    WroteFrame(d, d', i, position, data, i);
  }

  /** A write through a handle keeps the invariant, the map and the directory, and rewrites
      that file alone. */
  lemma WroteFiles(d: Image, d': Image, i: nat, position: nat, data: seq<Byte>)
    requires Inv(d) && i < NUM_ENTRIES && Table(d)[i].inUse && Wrote(d, d', i, position, data)
    ensures Inv(d') && Table(d') == Table(d) && MapWords(d') == MapWords(d)
    ensures KeyOf(Table(d)[i]) in Files(d)
    ensures var k := KeyOf(Table(d)[i]);
            Files(d') == Files(d)[k := Written(Files(d)[k], position, data)]
  {
    WroteSystemFiles(d, d', i, position, data);
    WroteUpdates(d, d', i, position, data);
    InvSlots(d);
    ByNameEntries(Slots(d));
    assert Slots(d)[i].File?;
    ByNameSet(Slots(d), i, File(KeyOf(Table(d)[i]), Written(FileAt(d, Table(d), i), position, data)));
  }
}
