/** Byte-range I/O over whole sectors: filesys/openfile.cc. */
module OpenFiles {
  import opened Common
  import opened Bits
  import opened BitMapModel
  import opened Layout
  import opened FileHeaders

  /** How many bytes a request of numBytes at position transfers in a file of length len. */
  function Transfer(len: nat, numBytes: int, position: nat): (n: nat)
    ensures n > 0 ==> position + n <= len && n <= numBytes
  {
    if numBytes <= 0 || position >= len then 0
    else if position + numBytes > len then len - position
    else numBytes
  }

  /** As much as was asked for and as the file still holds. */
  lemma TransferIsMost(len: nat, numBytes: int, position: nat)
    ensures var n := Transfer(len, numBytes, position);
            && (numBytes <= 0 ==> n == 0)
            && (numBytes > 0 ==> n <= numBytes)
            && (n > 0 ==> position + n <= len)
            && (n < numBytes ==> position + n >= len)
  {
  }

  /** Content with the bytes from position on replaced by data. */
  function Splice(c: seq<Byte>, position: nat, data: seq<Byte>): (r: seq<Byte>)
    requires position + |data| <= |c|
    ensures |r| == |c|
  {
    c[..position] + data + c[position + |data|..]
  }

  /** What a write of data at position leaves in a file. */
  function Written(c: seq<Byte>, position: nat, data: seq<Byte>): (r: seq<Byte>)
    ensures |r| == |c|
  {
    var n := Transfer(|c|, |data|, position);
    if n == 0 then c else Splice(c, position, data[..n])
  }

  /** Byte by byte: the data where it reaches, the old content elsewhere. */
  lemma WrittenByte(c: seq<Byte>, position: nat, data: seq<Byte>, i: nat)
    requires i < |c|
    ensures Written(c, position, data)[i] == if position <= i < position + |data| then data[i - position] else c[i]
  {
  }

  lemma WrittenWhole(c: seq<Byte>, data: seq<Byte>)
    requires |c| == |data|
    ensures Written(c, 0, data) == data
  {
  }

  /** What a read of numBytes at position returns. */
  function Slice(c: seq<Byte>, position: nat, numBytes: int): (r: seq<Byte>)
    ensures |r| == Transfer(|c|, numBytes, position)
  {
    var n := Transfer(|c|, numBytes, position);
    if n == 0 then [] else c[position..position + n]
  }

  /** Only sectors of the file may differ. */
  ghost predicate OnlyFileChanged(d: Image, d': Image, h: Header)
    requires HeaderOk(h)
  {
    forall s :: 0 <= s < NUM_SECTORS && s !in DataOf(h) ==> d'[s] == d[s]
  }

  /** The file's sectors laid end to end, including what lies past end of file. */
  function Raw(d: Image, h: Header): (r: seq<Byte>)
    requires HeaderOk(h)
    ensures |r| == h.numSectors * SECTOR_SIZE
  {
    seq(h.numSectors * SECTOR_SIZE, j requires 0 <= j < h.numSectors * SECTOR_SIZE =>
        d[h.dataSectors[j / SECTOR_SIZE]][j % SECTOR_SIZE])
  }

  lemma ContentIsRaw(d: Image, h: Header)
    requires HeaderOk(h)
    ensures h.numBytes <= |Raw(d, h)|
    ensures Content(d, h) == Raw(d, h)[..h.numBytes]
  {
  }

  lemma RawSector(d: Image, h: Header, i: nat)
    requires HeaderOk(h) && i < h.numSectors
    ensures (i + 1) * SECTOR_SIZE <= |Raw(d, h)|
    ensures Raw(d, h)[i * SECTOR_SIZE..(i + 1) * SECTOR_SIZE] == d[h.dataSectors[i]]
  {
    forall j | 0 <= j < SECTOR_SIZE
      ensures Raw(d, h)[i * SECTOR_SIZE + j] == d[h.dataSectors[i]][j]
    {
      assert (i * SECTOR_SIZE + j) / SECTOR_SIZE == i && (i * SECTOR_SIZE + j) % SECTOR_SIZE == j;
    }
  }

  /** Overwriting one data sector splices its bytes into the file. */
  lemma RawAfterWrite(d: Image, h: Header, i: nat, data: Sector)
    requires HeaderOk(h) && NoDuplicates(DataOf(h)) && i < h.numSectors
    ensures (i + 1) * SECTOR_SIZE <= |Raw(d, h)|
    ensures Raw(d[h.dataSectors[i] := data], h) == Splice(Raw(d, h), i * SECTOR_SIZE, data)
  {
    var d' := d[h.dataSectors[i] := data];
    forall j | 0 <= j < |Raw(d, h)|
      ensures Raw(d', h)[j] == Splice(Raw(d, h), i * SECTOR_SIZE, data)[j]
    {
      var k := j / SECTOR_SIZE;
      if k != i {
        assert DataOf(h)[k] != DataOf(h)[i];
      }
    }
  }

  /** One more sector of the buffer written back. */
  lemma RawNextSector(d: Image, h: Header, raw: seq<Byte>, buf: seq<Byte>, first: nat, i: nat)
    requires HeaderOk(h) && NoDuplicates(DataOf(h)) && first <= i < h.numSectors
    requires |raw| == h.numSectors * SECTOR_SIZE && (i + 1 - first) * SECTOR_SIZE <= |buf|
    requires Raw(d, h) == Splice(raw, first * SECTOR_SIZE, buf[..(i - first) * SECTOR_SIZE])
    ensures (i + 1) * SECTOR_SIZE <= |raw|
    ensures var at := (i - first) * SECTOR_SIZE;
            Raw(d[h.dataSectors[i] := buf[at..at + SECTOR_SIZE]], h)
            == Splice(raw, first * SECTOR_SIZE, buf[..(i + 1 - first) * SECTOR_SIZE])
  {
    var at := (i - first) * SECTOR_SIZE;
    var data := buf[at..at + SECTOR_SIZE];
    RawAfterWrite(d, h, i, data);
    SpliceTwice(raw, first * SECTOR_SIZE, buf[..at], data);
    assert buf[..at] + data == buf[..(i + 1 - first) * SECTOR_SIZE];
  }

  lemma SliceOfSlice(s: seq<Byte>, a: nat, b: nat, skip: nat, n: nat)
    requires a <= b <= |s| && a + skip + n <= b
    ensures s[a..b][skip..skip + n] == s[a + skip..a + skip + n]
  {
    var l, r := s[a..b][skip..skip + n], s[a + skip..a + skip + n];
    assert forall k :: 0 <= k < n ==> l[k] == r[k];
  }

  lemma Extend(s: seq<Byte>, a: nat, b: nat, c: nat)
    requires a <= b <= c <= |s|
    ensures s[a..c] == s[a..b] + s[b..c]
  {
  }

  lemma SpliceTwice(c: seq<Byte>, p: nat, a: seq<Byte>, b: seq<Byte>)
    requires p + |a| + |b| <= |c|
    ensures Splice(Splice(c, p, a), p + |a|, b) == Splice(c, p, a + b)
  {
  }

  /** The image after the buffer went back to the file's sectors from first up to i. */
  ghost predicate Flushed(d: Image, d': Image, h: Header, bytes: seq<Byte>, first: nat, i: nat) {
    && HeaderOk(h) && first <= i <= h.numSectors && (i - first) * SECTOR_SIZE <= |bytes|
    && OnlyFileChanged(d, d', h)
    && Raw(d', h) == Splice(Raw(d, h), first * SECTOR_SIZE, bytes[..(i - first) * SECTOR_SIZE])
  }

  lemma NothingFlushed(d: Image, h: Header, bytes: seq<Byte>, first: nat)
    requires HeaderOk(h) && first <= h.numSectors
    ensures Flushed(d, d, h, bytes, first, first)
  {
  }

  class OpenFile {
    const disk: SynchDisk
    const hdr: FileHeader
    var seekPosition: int

    ghost predicate Valid()
      reads hdr, hdr.dataSectors
    {
      hdr.Valid() && HeaderOk(hdr.Value()) && NoDuplicates(DataOf(hdr.Value()))
    }

    ghost function Bytes(): seq<Byte>
      requires Valid()
      reads hdr, hdr.dataSectors, disk
    {
      Content(disk.image, hdr.Value())
    }

    constructor (disk: SynchDisk, sector: nat)
      requires sector < NUM_SECTORS
      ensures this.disk == disk && seekPosition == 0
      ensures hdr.Valid() && fresh(hdr) && fresh(hdr.dataSectors)
      ensures hdr.Value() == DecodeHeader(disk.image[sector])
    {
      var h := new FileHeader();
      h.FetchFrom(disk, sector);
      this.disk := disk;
      hdr := h;
      seekPosition := 0;
    }

    method Seek(position: int)
      modifies this
      ensures seekPosition == position
    {
      seekPosition := position;
    }

    /** The loop reading sectors first..last of the file into a fresh buffer. */
    method ReadSectors(first: nat, last: nat) returns (buf: array<Byte>)
      requires Valid() && first <= last < hdr.numSectors
      ensures fresh(buf) && buf.Length == (1 + last - first) * SECTOR_SIZE
      ensures (last + 1) * SECTOR_SIZE <= |Raw(disk.image, hdr.Value())|
      ensures buf[..] == Raw(disk.image, hdr.Value())[first * SECTOR_SIZE..(last + 1) * SECTOR_SIZE]
    {
      ghost var raw := Raw(disk.image, hdr.Value());
      buf := new Byte[(1 + last - first) * SECTOR_SIZE];
      for i := first to last + 1
        invariant buf[..(i - first) * SECTOR_SIZE] == raw[first * SECTOR_SIZE..i * SECTOR_SIZE]
      {
        ReadNext(buf, raw, first, i);
      }
    }

    method ReadNext(buf: array<Byte>, ghost raw: seq<Byte>, first: nat, i: nat)
      requires Valid() && raw == Raw(disk.image, hdr.Value()) && first <= i < hdr.numSectors
      requires (i + 1 - first) * SECTOR_SIZE <= buf.Length
      requires buf[..(i - first) * SECTOR_SIZE] == raw[first * SECTOR_SIZE..i * SECTOR_SIZE]
      modifies buf
      ensures buf[..(i + 1 - first) * SECTOR_SIZE] == raw[first * SECTOR_SIZE..(i + 1) * SECTOR_SIZE]
    {
      var data := disk.ReadSector(hdr.ByteToSector(i * SECTOR_SIZE));
      RawSector(disk.image, hdr.Value(), i);
      CopyInto(buf, (i - first) * SECTOR_SIZE, data);
      Extend(raw, first * SECTOR_SIZE, i * SECTOR_SIZE, (i + 1) * SECTOR_SIZE);
    }

    /** bcopy to buf + at */
    static method CopyInto(buf: array<Byte>, at: nat, data: seq<Byte>)
      requires at + |data| <= buf.Length
      modifies buf
      ensures buf[..at] == old(buf[..at])
      ensures buf[at..at + |data|] == data
      ensures buf[at + |data|..] == old(buf[at + |data|..])
      ensures buf[..at + |data|] == old(buf[..at]) + data
    {
      forall j | 0 <= j < |data| {
        buf[at + j] := data[j];
      }
    }

    /** The loop writing the buffer back to sectors first..last of the file. */
    method WriteSectors(buf: array<Byte>, first: nat, last: nat)
      requires Valid() && first <= last < hdr.numSectors
      requires buf.Length == (1 + last - first) * SECTOR_SIZE
      modifies disk
      ensures OnlyFileChanged(old(disk.image), disk.image, hdr.Value())
      ensures first * SECTOR_SIZE + buf.Length <= hdr.numSectors * SECTOR_SIZE
      ensures Raw(disk.image, hdr.Value())
           == Splice(Raw(old(disk.image), hdr.Value()), first * SECTOR_SIZE, buf[..])
    {
      ghost var h, d := hdr.Value(), disk.image;
      var bytes := buf[..];
      NothingFlushed(d, h, bytes, first);
      for i := first to last + 1
        invariant Flushed(d, disk.image, h, bytes, first, i)
      {
        WriteNext(h, d, bytes, first, i);
      }
      assert bytes[..(last + 1 - first) * SECTOR_SIZE] == bytes;
    }

    method WriteNext(ghost h: Header, ghost d: Image, bytes: seq<Byte>, first: nat, i: nat)
      requires Valid() && h == hdr.Value() && first <= i < h.numSectors
      requires (i + 1 - first) * SECTOR_SIZE <= |bytes| && Flushed(d, disk.image, h, bytes, first, i)
      modifies disk
      ensures Flushed(d, disk.image, h, bytes, first, i + 1)
    {
      RawNextSector(disk.image, h, Raw(d, h), bytes, first, i);
      var at := (i - first) * SECTOR_SIZE;
      var sector := hdr.ByteToSector(i * SECTOR_SIZE);
      assert sector == h.dataSectors[i] == DataOf(h)[i];
      disk.WriteSector(sector, bytes[at..at + SECTOR_SIZE]);
    }

    method ReadAt(into: array<Byte>, at: nat, numBytes: int, position: nat) returns (n: int)
      requires Valid()
      requires at + Transfer(hdr.numBytes, numBytes, position) <= into.Length
      modifies into
      ensures n == Transfer(hdr.numBytes, numBytes, position)
      ensures into[..at] == old(into[..at])
      ensures into[at..at + n] == Slice(Bytes(), position, numBytes)
      ensures into[at + n..] == old(into[at + n..])
    {
      var fileLength := hdr.FileLength();
      if numBytes <= 0 || position >= fileLength {
        return 0;
      }
      n := numBytes;
      if position + numBytes > fileLength {
        n := fileLength - position;
      }
      var data := ReadRange(position, n);
      assert data == Slice(Bytes(), position, numBytes);
      CopyInto(into, at, data);
    }

    method ReadRange(position: nat, n: nat) returns (data: seq<Byte>)
      requires Valid() && n > 0 && position + n <= hdr.numBytes
      ensures data == Bytes()[position..position + n]
    {
      var firstSector := position / SECTOR_SIZE;
      var lastSector := (position + n - 1) / SECTOR_SIZE;
      var buf := ReadSectors(firstSector, lastSector);
      var skip := position - firstSector * SECTOR_SIZE;
      ghost var raw := Raw(disk.image, hdr.Value());
      ContentIsRaw(disk.image, hdr.Value());
      SliceOfSlice(raw, firstSector * SECTOR_SIZE, (lastSector + 1) * SECTOR_SIZE, skip, n);
      SliceOfSlice(raw, 0, hdr.numBytes, position, n);
      data := buf[..][skip..skip + n];
    }

    method Read(into: array<Byte>, numBytes: int) returns (n: int)
      requires Valid() && 0 <= seekPosition
      requires Transfer(hdr.numBytes, numBytes, seekPosition) <= into.Length
      modifies into, this
      ensures n == Transfer(hdr.numBytes, numBytes, old(seekPosition))
      ensures into[..n] == Slice(Bytes(), old(seekPosition), numBytes)
      ensures seekPosition == old(seekPosition) + n
    {
      n := ReadAt(into, 0, numBytes, seekPosition);
      seekPosition := seekPosition + n;
    }

    method WriteAt(from: seq<Byte>, position: nat) returns (n: int)
      requires Valid()
      modifies disk
      ensures n == Transfer(hdr.numBytes, |from|, position)
      ensures Bytes() == Written(old(Bytes()), position, from)
      ensures OnlyFileChanged(old(disk.image), disk.image, hdr.Value())
    {
      var fileLength := hdr.FileLength();
      if |from| <= 0 || position >= fileLength {
        return 0;
      }
      n := |from|;
      if position + n > fileLength {
        n := fileLength - position;
      }
      var firstSector := position / SECTOR_SIZE;
      var lastSector := (position + n - 1) / SECTOR_SIZE;
      var buf := new Byte[(1 + lastSector - firstSector) * SECTOR_SIZE];
      FillPartial(buf, firstSector, lastSector, position, n);
      var skip := position - firstSector * SECTOR_SIZE;
      ghost var filled := buf[..];
      CopyInto(buf, skip, from[..n]);
      WriteSectors(buf, firstSector, lastSector);
      WriteThroughBuffer(old(disk.image), disk.image, hdr.Value(), position, from[..n], filled, buf[..]);
    }

    /** Reads the first and last sector if they are to be partially modified. */
    method FillPartial(buf: array<Byte>, first: nat, last: nat, position: nat, n: nat)
      requires Valid() && n > 0 && position + n <= hdr.numBytes
      requires first == position / SECTOR_SIZE && last == (position + n - 1) / SECTOR_SIZE
      requires buf.Length == (1 + last - first) * SECTOR_SIZE
      modifies buf
      ensures Filled(buf[..], Bytes(), first, position, n)
    {
      var firstAligned := position == first * SECTOR_SIZE;
      var lastAligned := position + n == (last + 1) * SECTOR_SIZE;
      if !firstAligned {
        var got := ReadAt(buf, 0, SECTOR_SIZE, first * SECTOR_SIZE);
      }
      ghost var half := buf[..];
      if !lastAligned && (first != last || firstAligned) {
        var got := ReadAt(buf, (last - first) * SECTOR_SIZE, SECTOR_SIZE, last * SECTOR_SIZE);
        assert buf[..][..(last - first) * SECTOR_SIZE] == half[..(last - first) * SECTOR_SIZE];
      }
      PartialSectorsFill(Bytes(), half, buf[..], first, last, position, n);
    }

    method Write(from: seq<Byte>) returns (n: int)
      requires Valid() && 0 <= seekPosition
      modifies disk, this
      ensures n == Transfer(hdr.numBytes, |from|, old(seekPosition))
      ensures Bytes() == Written(old(Bytes()), old(seekPosition), from)
      ensures OnlyFileChanged(old(disk.image), disk.image, hdr.Value())
      ensures seekPosition == old(seekPosition) + n
    {
      n := WriteAt(from, seekPosition);
      seekPosition := seekPosition + n;
    }
  }

  /** The buffer holds the file's own bytes wherever the request will not overwrite it. */
  ghost predicate Filled(buf: seq<Byte>, c: seq<Byte>, first: nat, position: nat, n: nat) {
    forall j :: 0 <= j < |buf| && first * SECTOR_SIZE + j < |c|
                && !(position <= first * SECTOR_SIZE + j < position + n)
      ==> buf[j] == c[first * SECTOR_SIZE + j]
  }

  /** The one or two partial-sector reads of WriteAt fill the buffer, for every alignment. */
  lemma PartialSectorsFill(c: seq<Byte>, half: seq<Byte>, buf: seq<Byte>,
                           first: nat, last: nat, position: nat, n: nat)
    requires n > 0 && position + n <= |c|
    requires first == position / SECTOR_SIZE && last == (position + n - 1) / SECTOR_SIZE
    requires |half| == |buf| == (1 + last - first) * SECTOR_SIZE
    requires position != first * SECTOR_SIZE ==>
               var got := Slice(c, first * SECTOR_SIZE, SECTOR_SIZE);
               half[..|got|] == got
    requires var at := (last - first) * SECTOR_SIZE;
             if position + n != (last + 1) * SECTOR_SIZE
                && (first != last || position == first * SECTOR_SIZE)
             then var got := Slice(c, last * SECTOR_SIZE, SECTOR_SIZE);
                  buf[..at] == half[..at] && buf[at..at + |got|] == got
             else buf == half
    ensures Filled(buf, c, first, position, n)
  {
    var at := (last - first) * SECTOR_SIZE;
    var second := position + n != (last + 1) * SECTOR_SIZE
                  && (first != last || position == first * SECTOR_SIZE);
    forall j | 0 <= j < |buf| && first * SECTOR_SIZE + j < |c|
               && !(position <= first * SECTOR_SIZE + j < position + n)
      ensures buf[j] == c[first * SECTOR_SIZE + j]
    {
      var got1 := Slice(c, first * SECTOR_SIZE, SECTOR_SIZE);
      var got2 := Slice(c, last * SECTOR_SIZE, SECTOR_SIZE);
      if second && at <= j {
        assert buf[j] == buf[at..at + |got2|][j - at];
      } else {
        assert half[j] == half[..|got1|][j];
        assert second ==> buf[j] == buf[..at][j];
      }
    }
  }

  /** Writing back a filled buffer changes exactly the requested bytes. */
  lemma WriteThroughBuffer(d: Image, d': Image, h: Header, position: nat, data: seq<Byte>,
                           filled: seq<Byte>, buf: seq<Byte>)
    requires HeaderOk(h) && |data| > 0 && position + |data| <= h.numBytes
    requires Filled(filled, Content(d, h), position / SECTOR_SIZE, position, |data|)
    requires |filled| == |buf|
    requires var skip := position % SECTOR_SIZE;
             && skip + |data| <= |buf|
             && buf[..skip] == filled[..skip]
             && buf[skip..skip + |data|] == data
             && buf[skip + |data|..] == filled[skip + |data|..]
    requires position / SECTOR_SIZE * SECTOR_SIZE + |buf| <= |Raw(d, h)|
    requires Raw(d', h) == Splice(Raw(d, h), position / SECTOR_SIZE * SECTOR_SIZE, buf)
    ensures Content(d', h) == Splice(Content(d, h), position, data)
  {
    ContentIsRaw(d, h);
    ContentIsRaw(d', h);
    var skip, base := position % SECTOR_SIZE, position / SECTOR_SIZE * SECTOR_SIZE;
    var c, c' := Content(d, h), Content(d', h);
    forall i | 0 <= i < |c| ensures c'[i] == if base <= i < base + |buf| then buf[i - base] else c[i] {
    }
    SpliceThrough(c, c', base, skip, filled, buf, data);
  }

  /** What the buffer puts back around the data is what was there. */
  lemma SpliceThrough(c: seq<Byte>, c': seq<Byte>, base: nat, skip: nat,
                      filled: seq<Byte>, buf: seq<Byte>, data: seq<Byte>)
    requires |c'| == |c| && base + skip + |data| <= |c| && |filled| == |buf| && skip + |data| <= |buf|
    requires buf[..skip] == filled[..skip] && buf[skip..skip + |data|] == data
    requires buf[skip + |data|..] == filled[skip + |data|..]
    requires forall i :: 0 <= i < |c| ==> c'[i] == if base <= i < base + |buf| then buf[i - base] else c[i]
    requires forall j :: 0 <= j < |buf| && base + j < |c| && !(skip <= j < skip + |data|) ==> filled[j] == c[base + j]
    ensures c' == Splice(c, base + skip, data)
  {
    forall i | 0 <= i < |c| ensures c'[i] == Splice(c, base + skip, data)[i] {
      if base <= i < base + |buf| {
        BufferByte(filled, buf, data, skip, i - base);
      }
    }
  }

  lemma BufferByte(filled: seq<Byte>, buf: seq<Byte>, data: seq<Byte>, skip: nat, j: nat)
    requires |filled| == |buf| && skip + |data| <= |buf| && j < |buf|
    requires buf[..skip] == filled[..skip] && buf[skip..skip + |data|] == data
    requires buf[skip + |data|..] == filled[skip + |data|..]
    ensures buf[j] == if skip <= j < skip + |data| then data[j - skip] else filled[j]
  {
    if skip <= j < skip + |data| {
      assert buf[j] == buf[skip..skip + |data|][j - skip];
    } else if j < skip {
      assert buf[j] == buf[..skip][j];
    } else {
      assert buf[j] == buf[skip + |data|..][j - (skip + |data|)];
    }
  }
}
