/** The file system operations of filesys/filesys.cc, each proved against the disk image. */
module FileSystems {
  import opened Common
  import opened Bits
  import opened BitMapModel
  import opened Layout
  import opened FileHeaders
  import opened OpenFiles
  import opened Directories
  import opened DiskState
  import opened DiskSteps

  // ---- the two system files do not interfere -------------------------------

  ghost predicate SystemSeparate(d: Image) {
    && SystemFilesOk(d)
    && NoDuplicates(DataOf(Hdr(d, MAP_SECTOR))) && NoDuplicates(DataOf(Hdr(d, DIRECTORY_SECTOR)))
    && Elements(DataOf(Hdr(d, MAP_SECTOR))) !! Elements(DataOf(Hdr(d, DIRECTORY_SECTOR)))
    && Elements(DataOf(Hdr(d, MAP_SECTOR))) !! {MAP_SECTOR, DIRECTORY_SECTOR}
    && Elements(DataOf(Hdr(d, DIRECTORY_SECTOR))) !! {MAP_SECTOR, DIRECTORY_SECTOR}
  }

  lemma InvSeparates(d: Image)
    requires Inv(d)
    ensures SystemSeparate(d)
    ensures {MAP_SECTOR, DIRECTORY_SECTOR} <= FreeMap(d)
    ensures Elements(DataOf(Hdr(d, MAP_SECTOR))) <= FreeMap(d)
    ensures Elements(DataOf(Hdr(d, DIRECTORY_SECTOR))) <= FreeMap(d)
  {
    var t := Table(d);
    assert Live(t, NUM_ENTRIES) && Live(t, NUM_ENTRIES + 1);
    RootIsOwned(d, t, NUM_ENTRIES);
    RootIsOwned(d, t, NUM_ENTRIES + 1);
    var o := Holdings(d, t);
    assert o[NUM_ENTRIES] !! o[NUM_ENTRIES + 1];
    assert o[NUM_ENTRIES] <= FreeMap(d) && o[NUM_ENTRIES + 1] <= FreeMap(d);
  }

  lemma AfterMapWrite(d: Image, d': Image)
    requires SystemSeparate(d) && OnlyFileChanged(d, d', Hdr(d, MAP_SECTOR))
    ensures SystemSeparate(d') && SystemUpdate(d, d', {})
    ensures Table(d') == Table(d)
  {
    ContentFrame(d, d', Hdr(d, DIRECTORY_SECTOR));
  }

  lemma AfterDirectoryWrite(d: Image, d': Image)
    requires SystemSeparate(d) && OnlyFileChanged(d, d', Hdr(d, DIRECTORY_SECTOR))
    ensures SystemSeparate(d') && SystemUpdate(d, d', {})
    ensures MapWords(d') == MapWords(d)
  {
    ContentFrame(d, d', Hdr(d, MAP_SECTOR));
  }

  /** A sector outside both system files is written. */
  lemma AfterSectorWrite(d: Image, d': Image, sector: nat, data: Sector)
    requires SystemSeparate(d) && sector < NUM_SECTORS && d' == d[sector := data]
    requires sector !in {MAP_SECTOR, DIRECTORY_SECTOR}
    requires sector !in DataOf(Hdr(d, MAP_SECTOR)) && sector !in DataOf(Hdr(d, DIRECTORY_SECTOR))
    ensures SystemSeparate(d') && SystemUpdate(d, d', {sector})
    ensures Table(d') == Table(d) && MapWords(d') == MapWords(d)
  {
    ContentFrame(d, d', Hdr(d, DIRECTORY_SECTOR));
    ContentFrame(d, d', Hdr(d, MAP_SECTOR));
  }

  lemma AfterHeaderWrite(d: Image, sector: nat, h: Header)
    requires Inv(d) && sector < NUM_SECTORS && sector !in FreeMap(d)
    requires |h.dataSectors| == NUM_DIRECT
    ensures var d' := d[sector := EncodeHeader(h)];
            && SystemSeparate(d') && SystemUpdate(d, d', {sector})
            && Table(d') == Table(d) && MapWords(d') == MapWords(d)
            && Hdr(d', sector) == h
  {
    InvSeparates(d);
    HeaderRoundTrip(h);
    AfterSectorWrite(d, d[sector := EncodeHeader(h)], sector, EncodeHeader(h));
  }

  lemma ClearCount(n: nat, marked: set<nat>)
    requires marked <= Items(n)
    ensures |Items(n) - marked| == n - |marked|
  {
    assert |Items(n) - marked| + |marked| == |Items(n)| by {
      assert (Items(n) - marked) + marked == Items(n);
    }
  }

  // ---- the bitmap as a file (userprog/bitmap.cc:148-165) ---------------------

  method MapFetchFrom(freeMap: BitMap, file: OpenFile)
    requires freeMap.Valid() && freeMap.numBits == NUM_SECTORS
    requires file.Valid() && file.hdr.numBytes == MAP_BYTES
    requires freeMap.words != file.hdr.dataSectors
    modifies freeMap.words
    ensures freeMap.words[..] == DecodeWords(file.Bytes())
  {
    var buf := new Byte[MAP_BYTES];
    var n := file.ReadAt(buf, 0, 4 * freeMap.words.Length, 0);
    assert buf[..] == buf[0..n] == file.Bytes();
    var decoded := DecodeWords(buf[..]);
    forall i | 0 <= i < freeMap.words.Length {
      freeMap.words[i] := decoded[i];
    }
    assert freeMap.words[..] == decoded;
  }

  method MapWriteBack(freeMap: BitMap, file: OpenFile)
    requires freeMap.Valid() && freeMap.numBits == NUM_SECTORS
    requires file.Valid() && file.hdr.numBytes == MAP_BYTES
    modifies file.disk
    ensures DecodeWords(file.Bytes()) == freeMap.words[..]
    ensures OnlyFileChanged(old(file.disk.image), file.disk.image, file.hdr.Value())
  {
    var bytes := EncodeWords(freeMap.words[..]);
    WordsRoundTrip(freeMap.words[..]);
    WrittenWhole(file.Bytes(), bytes);
    var n := file.WriteAt(bytes, 0);
  }

  // ---- format ----------------------------------------------------------------

  /** A disk with the two system files allocated and marked, and an empty directory, is a
      file system without files. */
  lemma FormattedIsEmpty(d: Image, marks: set<nat>)
    requires SystemFilesOk(d)
    requires Allocated(Hdr(d, MAP_SECTOR), MAP_BYTES, {MAP_SECTOR, DIRECTORY_SECTOR}, marks)
    requires Allocated(Hdr(d, DIRECTORY_SECTOR), DIRECTORY_BYTES, marks, FreeMap(d))
    requires forall i :: 0 <= i < NUM_ENTRIES ==> !Table(d)[i].inUse
    ensures Inv(d) && Files(d) == map[]
  {
    SystemOwnersOnly(d, marks);
    TwoHoldings(Holdings(d, Table(d)), FreeMap(d));
    NoFiles(Slots(d));
  }

  /** The two system files own what is marked, and nobody else owns anything. */
  lemma SystemOwnersOnly(d: Image, marks: set<nat>)
    requires SystemFilesOk(d)
    requires Allocated(Hdr(d, MAP_SECTOR), MAP_BYTES, {MAP_SECTOR, DIRECTORY_SECTOR}, marks)
    requires Allocated(Hdr(d, DIRECTORY_SECTOR), DIRECTORY_BYTES, marks, FreeMap(d))
    requires forall i :: 0 <= i < NUM_ENTRIES ==> !Table(d)[i].inUse
    ensures OwnersOk(d, Table(d))
    ensures var o := Holdings(d, Table(d));
            && (forall i :: 0 <= i < NUM_ENTRIES ==> o[i] == {})
            && o[NUM_ENTRIES] !! o[NUM_ENTRIES + 1]
            && FreeMap(d) == o[NUM_ENTRIES] + o[NUM_ENTRIES + 1]
  {
    var t := Table(d);
    var m, n := Hdr(d, MAP_SECTOR), Hdr(d, DIRECTORY_SECTOR);
    assert forall k :: 0 <= k < |DataOf(m)| ==> DataOf(m)[k] in Elements(DataOf(m));
    assert forall k :: 0 <= k < |DataOf(n)| ==> DataOf(n)[k] in Elements(DataOf(n));
    assert OwnerOk(d, t, NUM_ENTRIES) && OwnerOk(d, t, NUM_ENTRIES + 1);
    RootIsOwned(d, t, NUM_ENTRIES);
    RootIsOwned(d, t, NUM_ENTRIES + 1);
  }

  lemma TwoHoldings(o: seq<set<nat>>, marked: set<nat>)
    requires |o| == NUM_OWNERS && (forall i :: 0 <= i < NUM_ENTRIES ==> o[i] == {})
    requires o[NUM_ENTRIES] !! o[NUM_ENTRIES + 1] && marked == o[NUM_ENTRIES] + o[NUM_ENTRIES + 1]
    ensures PairwiseDisjoint(o) && Covers(o, marked)
  {
  }

  lemma {:induction false} NoFiles(v: seq<Slot>)
    requires forall i :: 0 <= i < |v| ==> v[i].Unused?
    ensures ByName(v) == map[]
  {
    if v != [] { NoFiles(v[..|v| - 1]); }
  }

  /** The headers of the two system files, as formatting allocates them. */
  ghost predicate SystemAllocated(m: Header, n: Header, marks: set<nat>, marked: set<nat>) {
    && Allocated(m, MAP_BYTES, {MAP_SECTOR, DIRECTORY_SECTOR}, marks)
    && Allocated(n, DIRECTORY_BYTES, marks, marked)
  }

  lemma SystemAllocatedSeparate(d: Image, marks: set<nat>, marked: set<nat>)
    requires SystemAllocated(Hdr(d, MAP_SECTOR), Hdr(d, DIRECTORY_SECTOR), marks, marked)
    ensures SystemSeparate(d)
  {
  }

  /** filesys/filesys.cc:93-100; the source asserts that both allocations succeed. */
  method AllocateSystemFiles(freeMap: BitMap, mapHdr: FileHeader, dirHdr: FileHeader)
    returns (ghost marks: set<nat>)
    requires freeMap.Valid() && freeMap.numBits == NUM_SECTORS && freeMap.Marked() == {}
    requires mapHdr.Valid() && dirHdr.Valid() && mapHdr != dirHdr
    requires mapHdr.dataSectors != dirHdr.dataSectors
    requires freeMap.words != mapHdr.dataSectors && freeMap.words != dirHdr.dataSectors
    modifies freeMap.words, mapHdr, mapHdr.dataSectors, dirHdr, dirHdr.dataSectors
    ensures SystemAllocated(mapHdr.Value(), dirHdr.Value(), marks, freeMap.Marked())
  {
    MarkSystemHeaders(freeMap);
    var ok := mapHdr.Allocate(freeMap, MAP_BYTES);
    assert ok;
    marks := freeMap.Marked();
    ok := dirHdr.Allocate(freeMap, DIRECTORY_BYTES);
    assert ok;
  }

  method MarkSystemHeaders(freeMap: BitMap)
    requires freeMap.Valid() && freeMap.numBits == NUM_SECTORS && freeMap.Marked() == {}
    modifies freeMap.words
    ensures freeMap.Marked() == {MAP_SECTOR, DIRECTORY_SECTOR}
    ensures freeMap.Clear0() == NUM_SECTORS - 2
  {
    freeMap.Mark(MAP_SECTOR);
    freeMap.Mark(DIRECTORY_SECTOR);
    assert freeMap.Marked() == {MAP_SECTOR, DIRECTORY_SECTOR};
    ClearCount(NUM_SECTORS, {MAP_SECTOR, DIRECTORY_SECTOR});
  }

  /** filesys/filesys.cc:115-126 */
  method WriteSystemFiles(disk: SynchDisk, freeMap: BitMap, directory: Directory, ghost marks: set<nat>)
    requires freeMap.Valid() && freeMap.numBits == NUM_SECTORS
    requires directory.table.Length == NUM_ENTRIES
    requires forall i :: 0 <= i < NUM_ENTRIES ==> !directory.table[i].inUse
    requires SystemAllocated(Hdr(disk.image, MAP_SECTOR), Hdr(disk.image, DIRECTORY_SECTOR),
                             marks, freeMap.Marked())
    modifies disk
    ensures Inv(disk.image) && Files(disk.image) == map[]
  {
    ghost var d1 := disk.image;
    SystemAllocatedSeparate(d1, marks, freeMap.Marked());
    var freeMapFile := new OpenFile(disk, MAP_SECTOR);
    var directoryFile := new OpenFile(disk, DIRECTORY_SECTOR);
    MapWriteBack(freeMap, freeMapFile);
    ghost var d2 := disk.image;
    AfterMapWrite(d1, d2);
    directory.WriteBack(directoryFile);
    AfterDirectoryWrite(d2, disk.image);
    FormattedIsEmpty(disk.image, marks);
  }

  /** filesys/filesys.cc:84-126 */
  method Format(disk: SynchDisk)
    modifies disk
    ensures Inv(disk.image) && Files(disk.image) == map[]
  {
    var freeMap := new BitMap(NUM_SECTORS);
    var directory := new Directory(NUM_ENTRIES);
    var mapHdr := new FileHeader();
    var dirHdr := new FileHeader();
    ghost var marks := AllocateSystemFiles(freeMap, mapHdr, dirHdr);
    mapHdr.WriteBack(disk, MAP_SECTOR);
    dirHdr.WriteBack(disk, DIRECTORY_SECTOR);
    HeaderRoundTrip(mapHdr.Value());
    HeaderRoundTrip(dirHdr.Value());
    WriteSystemFiles(disk, freeMap, directory, marks);
  }

  // ---- the write sequences of Create and Remove --------------------------------

  /** Header, then directory, then map (filesys/filesys.cc:205-207). */
  lemma CreateWrites(d: Image, d1: Image, d2: Image, d3: Image,
                     name: Name, size: nat, sector: nat, h: Header)
    requires Inv(d) && sector < NUM_SECTORS && sector !in FreeMap(d)
    requires forall j: nat :: j < sector ==> j in FreeMap(d)
    requires IndexOf(Table(d), Key(name)) == -1 && FirstFree(Table(d)) != -1
    requires |h.dataSectors| == NUM_DIRECT && d1 == d[sector := EncodeHeader(h)]
    requires OnlyFileChanged(d1, d2, Hdr(d, DIRECTORY_SECTOR))
    requires DecodeTable(Content(d2, Hdr(d, DIRECTORY_SECTOR))) == Added(Table(d), name, sector)
    requires OnlyFileChanged(d2, d3, Hdr(d, MAP_SECTOR))
    requires Allocated(h, size, FreeMap(d) + {sector},
                       MarkedIn(DecodeWords(Content(d3, Hdr(d, MAP_SECTOR))), NUM_SECTORS))
    ensures Created(d, d3, name, size, sector)
  {
    InvSeparates(d);
    AfterHeaderWrite(d, sector, h);
    AfterDirectoryWrite(d1, d2);
    AfterMapWrite(d2, d3);
    UpdatesJoin(d, d1, d2, {sector});
    UpdatesJoin(d, d2, d3, {sector});
    assert Hdr(d3, sector) == Hdr(d2, sector) == h;
  }

  lemma UpdatesJoin(d: Image, d1: Image, d2: Image, also: set<nat>)
    requires SystemFilesOk(d) && SystemUpdate(d, d1, also) && SystemFilesOk(d1) && SystemUpdate(d1, d2, {})
    ensures SystemUpdate(d, d2, also)
  {
  }

  /** Map, then directory (filesys/filesys.cc:282-283). */
  lemma RemoveWrites(d: Image, d1: Image, d2: Image, name: Name)
    requires Inv(d) && IndexOf(Table(d), Key(name)) != -1
    requires OnlyFileChanged(d, d1, Hdr(d, MAP_SECTOR))
    requires MarkedIn(DecodeWords(Content(d1, Hdr(d, MAP_SECTOR))), NUM_SECTORS)
          == FreeMap(d) - Owned(d, Table(d), IndexOf(Table(d), Key(name)))
    requires OnlyFileChanged(d1, d2, Hdr(d, DIRECTORY_SECTOR))
    requires DecodeTable(Content(d2, Hdr(d, DIRECTORY_SECTOR))) == Dropped(Table(d), name)
    ensures Removed(d, d2, name)
  {
    InvSeparates(d);
    AfterMapWrite(d, d1);
    AfterDirectoryWrite(d1, d2);
  }

  /** A handle of the file in slot i: its in-memory header is the one on disk. */
  ghost predicate Handles(f: OpenFile, d: Image, i: nat)
    requires SystemFilesOk(d) && i < NUM_ENTRIES
    reads f.hdr, f.hdr.dataSectors
  {
    && f.Valid()
    && Table(d)[i].inUse && OwnerOk(d, Table(d), i)
    && f.hdr.Value() == Hdr(d, Table(d)[i].sector)
  }

  class FileSystem {
    const disk: SynchDisk
    const freeMapFile: OpenFile
    const directoryFile: OpenFile

    ghost predicate Valid()
      reads disk, freeMapFile.hdr, freeMapFile.hdr.dataSectors
      reads directoryFile.hdr, directoryFile.hdr.dataSectors
    {
      && Inv(disk.image)
      && freeMapFile.disk == disk && directoryFile.disk == disk
      && freeMapFile.Valid() && freeMapFile.hdr.Value() == Hdr(disk.image, MAP_SECTOR)
      && directoryFile.Valid() && directoryFile.hdr.Value() == Hdr(disk.image, DIRECTORY_SECTOR)
    }

    constructor (disk: SynchDisk, format: bool)
      requires !format ==> Inv(disk.image)
      modifies disk
      ensures Valid() && this.disk == disk
      ensures if format then Files(disk.image) == map[] else disk.image == old(disk.image)
      ensures fresh(freeMapFile.hdr) && fresh(freeMapFile.hdr.dataSectors)
      ensures fresh(directoryFile.hdr) && fresh(directoryFile.hdr.dataSectors)
    {
      if format {
        Format(disk);
      }
      InvSeparates(disk.image);
      this.disk := disk;
      freeMapFile := new OpenFile(disk, MAP_SECTOR);
      directoryFile := new OpenFile(disk, DIRECTORY_SECTOR);
    }

    method FetchDirectory() returns (directory: Directory)
      requires Valid()
      ensures fresh(directory) && fresh(directory.table)
      ensures directory.table[..] == Table(disk.image)
    {
      directory := new Directory(NUM_ENTRIES);
      directory.FetchFrom(directoryFile);
    }

    method FetchMap() returns (freeMap: BitMap)
      requires Valid()
      ensures fresh(freeMap) && fresh(freeMap.words)
      ensures freeMap.Valid() && freeMap.numBits == NUM_SECTORS
      ensures freeMap.words[..] == MapWords(disk.image)
      ensures freeMap.Marked() == FreeMap(disk.image)
      ensures freeMap.Clear0() == ClearSectors(disk.image)
    {
      freeMap := new BitMap(NUM_SECTORS);
      MapFetchFrom(freeMap, freeMapFile);
    }

    method Create(name: Name, initialSize: int) returns (success: bool)
      requires Valid() && 0 <= initialSize <= MAX_FILE_SIZE
      modifies disk
      ensures Valid()
      ensures success <==> old(
                && Key(name) !in Files(disk.image)
                && |Files(disk.image)| < NUM_ENTRIES
                && ClearSectors(disk.image) >= 1 + DivRoundUp(initialSize, SECTOR_SIZE))
      ensures !success ==> disk.image == old(disk.image)
      ensures success ==> exists sector :: Created(old(disk.image), disk.image, name, initialSize, sector)
    {
      FilesAndTable(disk.image, name);
      var directory := FetchDirectory();
      var found := directory.Find(name);
      if found != -1 {
        return false;
      }
      success := CreateAbsent(name, initialSize, directory);
    }

    /** filesys/filesys.cc:191-211 */
    method CreateAbsent(name: Name, initialSize: int, directory: Directory) returns (success: bool)
      requires Valid() && 0 <= initialSize <= MAX_FILE_SIZE
      requires directory.table[..] == Table(disk.image)
      requires IndexOf(Table(disk.image), Key(name)) == -1
      modifies disk, directory.table
      ensures Valid()
      ensures success <==> old(
                && FirstFree(Table(disk.image)) != -1
                && ClearSectors(disk.image) >= 1 + DivRoundUp(initialSize, SECTOR_SIZE))
      ensures !success ==> disk.image == old(disk.image)
      ensures success ==> exists sector :: Created(old(disk.image), disk.image, name, initialSize, sector)
    {
      var freeMap := FetchMap();
      ghost var marked := freeMap.Marked();
      var sector := freeMap.Find();
      if sector == -1 {
        assert Items(NUM_SECTORS) - marked == {};
        return false;
      }
      var added := directory.Add(name, sector);
      if !added {
        return false;
      }
      success := AllocateAndFlush(name, initialSize, sector, directory, freeMap);
    }

    /** filesys/filesys.cc:199-209 */
    method AllocateAndFlush(ghost name: Name, initialSize: int, sector: nat,
                            directory: Directory, freeMap: BitMap) returns (success: bool)
      requires Valid() && 0 <= initialSize <= MAX_FILE_SIZE
      requires sector < NUM_SECTORS && sector !in FreeMap(disk.image)
      requires forall j: nat :: j < sector ==> j in FreeMap(disk.image)
      requires IndexOf(Table(disk.image), Key(name)) == -1 && FirstFree(Table(disk.image)) != -1
      requires directory.table.Length == NUM_ENTRIES
      requires directory.table[..] == Added(Table(disk.image), name, sector)
      requires freeMap.Valid() && freeMap.numBits == NUM_SECTORS
      requires freeMap.Marked() == FreeMap(disk.image) + {sector}
      requires freeMap.words != freeMapFile.hdr.dataSectors
      requires freeMap.words != directoryFile.hdr.dataSectors
      modifies disk, freeMap.words
      ensures Valid()
      ensures success <==> old(freeMap.Clear0()) >= DivRoundUp(initialSize, SECTOR_SIZE)
      ensures !success ==> disk.image == old(disk.image)
      ensures success ==> Created(old(disk.image), disk.image, name, initialSize, sector)
    {
      var hdr := new FileHeader();
      success := hdr.Allocate(freeMap, initialSize);
      if success {
        FlushCreated(name, initialSize, sector, hdr, directory, freeMap);
      }
    }

    method FlushCreated(ghost name: Name, ghost size: nat, sector: nat,
                        hdr: FileHeader, directory: Directory, freeMap: BitMap)
      requires Valid() && sector < NUM_SECTORS && sector !in FreeMap(disk.image)
      requires forall j: nat :: j < sector ==> j in FreeMap(disk.image)
      requires IndexOf(Table(disk.image), Key(name)) == -1 && FirstFree(Table(disk.image)) != -1
      requires hdr.Valid() && freeMap.Valid() && freeMap.numBits == NUM_SECTORS
      requires directory.table.Length == NUM_ENTRIES
      requires directory.table[..] == Added(Table(disk.image), name, sector)
      requires Allocated(hdr.Value(), size, FreeMap(disk.image) + {sector}, freeMap.Marked())
      modifies disk
      ensures Valid() && Created(old(disk.image), disk.image, name, size, sector)
    {
      ghost var d := disk.image;
      hdr.WriteBack(disk, sector);
      ghost var d1 := disk.image;
      directory.WriteBack(directoryFile);
      ghost var d2 := disk.image;
      MapWriteBack(freeMap, freeMapFile);
      CreateWrites(d, d1, d2, disk.image, name, size, sector, hdr.Value());
      CreatedFiles(d, disk.image, name, size, sector);
    }

    method Open(name: Name) returns (file: OpenFile?)
      requires Valid()
      ensures file == null <==> Key(name) !in Files(disk.image)
      ensures file != null ==>
                && fresh(file) && fresh(file.hdr) && fresh(file.hdr.dataSectors)
                && file.disk == disk && file.seekPosition == 0
                && IndexOf(Table(disk.image), Key(name)) != -1
                && Handles(file, disk.image, IndexOf(Table(disk.image), Key(name)))
                && file.Bytes() == Files(disk.image)[Key(name)]
    {
      FilesAndTable(disk.image, name);
      var directory := FetchDirectory();
      var sector := directory.Find(name);
      if sector < 0 {
        return null;
      }
      OpenedOwner(disk.image, name);
      file := new OpenFile(disk, sector);
    }

    method Remove(name: Name) returns (success: bool)
      requires Valid()
      modifies disk
      ensures Valid()
      ensures success <==> old(Key(name) in Files(disk.image))
      ensures !success ==> disk.image == old(disk.image)
      ensures success ==> Removed(old(disk.image), disk.image, name)
    {
      FilesAndTable(disk.image, name);
      var directory := FetchDirectory();
      var sector := directory.Find(name);
      if sector == -1 {
        return false;
      }
      OpenedOwner(disk.image, name);
      var freeMap := ReleaseSectors(sector);
      var dropped := directory.Remove(name);
      FlushRemoved(name, directory, freeMap);
      return true;
    }

    /** filesys/filesys.cc:272-279: the free map without the file's sectors. That each data
        sector is marked, as Deallocate asserts, is part of what is required of the disk. */
    method ReleaseSectors(sector: nat) returns (freeMap: BitMap)
      requires Valid() && sector < NUM_SECTORS
      requires HeaderOk(Hdr(disk.image, sector)) && NoDuplicates(DataOf(Hdr(disk.image, sector)))
      requires Elements(DataOf(Hdr(disk.image, sector))) <= FreeMap(disk.image)
      ensures fresh(freeMap) && fresh(freeMap.words)
      ensures freeMap.Valid() && freeMap.numBits == NUM_SECTORS
      ensures freeMap.Marked()
           == FreeMap(disk.image) - ({sector} + Elements(DataOf(Hdr(disk.image, sector))))
    {
      var fileHdr := new FileHeader();
      fileHdr.FetchFrom(disk, sector);
      freeMap := FetchMap();
      ReleaseFrom(freeMap, fileHdr, sector);
    }

    method ReleaseFrom(freeMap: BitMap, fileHdr: FileHeader, sector: nat)
      requires freeMap.Valid() && freeMap.numBits == NUM_SECTORS && sector < NUM_SECTORS
      requires fileHdr.Valid() && freeMap.words != fileHdr.dataSectors
      requires HeaderOk(fileHdr.Value()) && NoDuplicates(DataOf(fileHdr.Value()))
      requires Elements(DataOf(fileHdr.Value())) <= freeMap.Marked()
      modifies freeMap.words
      ensures freeMap.Marked() == old(freeMap.Marked()) - ({sector} + Elements(DataOf(fileHdr.Value())))
    {
      fileHdr.Deallocate(freeMap);
      freeMap.Clear(sector);
    }

    method FlushRemoved(ghost name: Name, directory: Directory, freeMap: BitMap)
      requires Valid() && IndexOf(Table(disk.image), Key(name)) != -1
      requires freeMap.Valid() && freeMap.numBits == NUM_SECTORS
      requires freeMap.Marked()
            == FreeMap(disk.image) - Owned(disk.image, Table(disk.image), IndexOf(Table(disk.image), Key(name)))
      requires directory.table.Length == NUM_ENTRIES
      requires directory.table[..] == Dropped(Table(disk.image), name)
      modifies disk
      ensures Valid() && Removed(old(disk.image), disk.image, name)
    {
      ghost var d := disk.image;
      MapWriteBack(freeMap, freeMapFile);
      ghost var d1 := disk.image;
      directory.WriteBack(directoryFile);
      RemoveWrites(d, d1, disk.image, name);
      RemovedFiles(d, disk.image, name);
    }
  }

  /** What the directory finds is a file that owns marked sectors, its header among them. */
  lemma OpenedOwner(d: Image, name: Name)
    requires Inv(d) && IndexOf(Table(d), Key(name)) != -1
    ensures var t, i := Table(d), IndexOf(Table(d), Key(name));
            && OwnerOk(d, t, i)
            && NoDuplicates(DataOf(Hdr(d, t[i].sector)))
            && Owned(d, t, i) == {t[i].sector as nat} + Elements(DataOf(Hdr(d, t[i].sector)))
            && Owned(d, t, i) <= FreeMap(d)
            && t[i].sector !in DataOf(Hdr(d, t[i].sector))
            && Key(name) in Files(d) && Files(d)[Key(name)] == Content(d, Hdr(d, t[i].sector))
  {
    var t, i := Table(d), IndexOf(Table(d), Key(name));
    assert Live(t, i);
    RootIsOwned(d, t, i);
    assert Holdings(d, t)[i] <= FreeMap(d);
    InvSlots(d);
    ByNameEntries(Slots(d));
    assert Slots(d)[i].File?;
  }
}
