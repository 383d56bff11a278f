/** The sector store below the file system and the in-memory file header of
    filesys/filehdr.cc. */
module FileHeaders {
  import opened Common
  import opened Bits
  import opened BitMapModel
  import opened Layout

  /** Whole-sector reads and writes; that each call is atomic is the subject of module
      SynchDiskProtocol. */
  class SynchDisk {
    var image: Image

    constructor (initial: Image)
      ensures image == initial
    {
      image := initial;
    }

    method ReadSector(sector: nat) returns (data: Sector)
      requires sector < NUM_SECTORS
      ensures data == image[sector]
    {
      data := image[sector];
    }

    method WriteSector(sector: nat, data: Sector)
      requires sector < NUM_SECTORS
      modifies this
      ensures image == old(image)[sector := data]
    {
      image := image[sector := data];
    }
  }

  /** The header of a new file of fileSize bytes in sectors just taken. */
  ghost predicate Allocated(h: Header, fileSize: nat, before: set<nat>, after: set<nat>) {
    HeaderOk(h) && h.numBytes == fileSize && Taken(DataOf(h), NUM_SECTORS, before, after)
  }

  lemma TakenIsHeader(h: Header, before: set<nat>, after: set<nat>)
    requires |h.dataSectors| == NUM_DIRECT && h.numBytes <= MAX_FILE_SIZE
    requires h.numSectors == DivRoundUp(h.numBytes, SECTOR_SIZE) <= NUM_DIRECT
    requires Taken(h.dataSectors[..h.numSectors], NUM_SECTORS, before, after)
    ensures HeaderOk(h)
  {
    var s := h.dataSectors[..h.numSectors];
    assert forall k :: 0 <= k < |s| ==> h.dataSectors[k] == s[k];
  }

  class FileHeader {
    var numBytes: Word
    var numSectors: Word
    const dataSectors: array<Word>

    ghost predicate Valid() {
      dataSectors.Length == NUM_DIRECT
    }

    function Value(): Header
      reads this, dataSectors
    {
      Header(numBytes, numSectors, dataSectors[..])
    }

    /** Fields are left with whatever memory held. */
    constructor ()
      ensures Valid() && fresh(dataSectors)
    {
      dataSectors := new Word[NUM_DIRECT];
    }

    method Allocate(freeMap: BitMap, fileSize: int) returns (ok: bool)
      requires Valid() && freeMap.Valid() && freeMap.words != dataSectors
      requires freeMap.numBits == NUM_SECTORS
      requires 0 <= fileSize <= MAX_FILE_SIZE
      modifies this, dataSectors, freeMap.words
      ensures ok <==> old(freeMap.Clear0()) >= DivRoundUp(fileSize, SECTOR_SIZE)
      ensures !ok ==> freeMap.Marked() == old(freeMap.Marked())
      ensures ok ==> Allocated(Value(), fileSize, old(freeMap.Marked()), freeMap.Marked())
      ensures ok ==> freeMap.Clear0() == old(freeMap.Clear0()) - numSectors
    {
      numBytes := fileSize;
      numSectors := DivRoundUp(fileSize, SECTOR_SIZE);
      var clear := freeMap.NumClear();
      if clear < numSectors {
        return false;
      }
      ghost var before := freeMap.Marked();
      TakeSectors(freeMap, numSectors);
      assert DataOf(Value()) == dataSectors[..numSectors] by {
        assert HeaderOk(Value()) by { TakenIsHeader(Value(), before, freeMap.Marked()); }
      }
      return true;
    }

    /** The loop of Allocate. */
    method TakeSectors(freeMap: BitMap, n: nat)
      requires Valid() && freeMap.Valid() && freeMap.words != dataSectors
      requires freeMap.numBits == NUM_SECTORS
      requires n <= NUM_DIRECT && n <= freeMap.Clear0()
      modifies dataSectors, freeMap.words
      ensures Taken(dataSectors[..n], NUM_SECTORS, old(freeMap.Marked()), freeMap.Marked())
      ensures freeMap.Clear0() == old(freeMap.Clear0()) - n
    {
      ghost var before := freeMap.Marked();
      for i := 0 to n
        invariant freeMap.Clear0() == old(freeMap.Clear0()) - i
        invariant Taken(dataSectors[..i], NUM_SECTORS, before, freeMap.Marked())
      {
        TakeNext(freeMap, i, before);
      }
    }

    method TakeNext(freeMap: BitMap, i: nat, ghost before: set<nat>)
      requires Valid() && freeMap.Valid() && freeMap.words != dataSectors
      requires freeMap.numBits == NUM_SECTORS
      requires i < NUM_DIRECT && 0 < freeMap.Clear0()
      requires Taken(dataSectors[..i], NUM_SECTORS, before, freeMap.Marked())
      modifies dataSectors, freeMap.words
      ensures Taken(dataSectors[..i + 1], NUM_SECTORS, before, freeMap.Marked())
      ensures freeMap.Clear0() == old(freeMap.Clear0()) - 1
    {
      ghost var now, taken := freeMap.Marked(), dataSectors[..i];
      var found := freeMap.FindClear();
      TakenOneMore(taken, NUM_SECTORS, before, now, found);
      ghost var marked := freeMap.Marked();
      StoreSector(i, found);
      assert freeMap.Marked() == marked;
    }

    method StoreSector(i: nat, sector: Word)
      requires Valid() && i < NUM_DIRECT
      modifies dataSectors
      ensures dataSectors[..i + 1] == old(dataSectors[..i]) + [sector]
    {
      dataSectors[i] := sector;
    }

    /** The source asserts each sector to be marked just before it is cleared. */
    method Deallocate(freeMap: BitMap)
      requires Valid() && freeMap.Valid() && freeMap.words != dataSectors
      requires freeMap.numBits == NUM_SECTORS
      requires HeaderOk(Value()) && NoDuplicates(DataOf(Value()))
      requires Elements(DataOf(Value())) <= freeMap.Marked()
      modifies freeMap.words
      ensures freeMap.Marked() == old(freeMap.Marked()) - Elements(DataOf(Value()))
    {
      ghost var data := DataOf(Value());
      ghost var before := freeMap.Marked();
      for i := 0 to numSectors
        invariant freeMap.Marked() == before - Elements(data[..i])
      {
        ReleaseOneMore(data, i, before);
        var marked := freeMap.Test(dataSectors[i]);
        assert marked;
        freeMap.Clear(dataSectors[i]);
      }
      assert data[..numSectors] == data;
    }

    method FetchFrom(disk: SynchDisk, sector: nat)
      requires Valid() && sector < NUM_SECTORS
      modifies this, dataSectors
      ensures Value() == DecodeHeader(disk.image[sector])
    {
      var data := disk.ReadSector(sector);
      var h := DecodeHeader(data);
      numBytes, numSectors := h.numBytes, h.numSectors;
      forall i | 0 <= i < NUM_DIRECT {
        dataSectors[i] := h.dataSectors[i];
      }
      assert dataSectors[..] == h.dataSectors;
    }

    method WriteBack(disk: SynchDisk, sector: nat)
      requires Valid() && sector < NUM_SECTORS
      modifies disk
      ensures disk.image == old(disk.image)[sector := EncodeHeader(Value())]
    {
      disk.WriteSector(sector, EncodeHeader(Value()));
    }

    function ByteToSector(offset: nat): Word
      requires Valid() && offset / SECTOR_SIZE < NUM_DIRECT
      reads this, dataSectors
    {
      dataSectors[offset / SECTOR_SIZE]
    }

    function FileLength(): Word
      reads this
    {
      numBytes
    }
  }
}
