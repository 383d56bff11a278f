/** How the file system lays its structures out in bytes: little-endian words, one-sector
    file headers, the directory table, and the logical content of a file spread over
    its data sectors. */
module Layout {
  import opened Bits

  const SECTOR_SIZE: nat := 512
  const NUM_SECTORS: nat := 1024
  const NUM_DIRECT: nat := 126
  const MAX_FILE_SIZE: nat := 64512
  const NAME_LENGTH: nat := 9
  const ENTRY_SIZE: nat := 20

  type Sector = s: seq<Byte> | |s| == 512 witness seq(512, _ => 0)
  type Image = d: seq<Sector> | |d| == 1024 witness seq<Sector>(1024, _ => BLANK)

  const BLANK: Sector := seq(512, _ => 0)

  // ---- words -------------------------------------------------------------

  function EncodeWord(w: Word): (b: seq<Byte>)
    ensures |b| == 4
  {
    [w % 256, w / 256 % 256, w / 256 / 256 % 256, w / 256 / 256 / 256]
  }

  function DecodeWord(b: seq<Byte>): Word
    requires |b| == 4
  {
    var (b0: int, b1: int, b2: int, b3: int) := (b[0], b[1], b[2], b[3]);
    b0 + 256 * (b1 + 256 * (b2 + 256 * b3))
  }

  function EncodeWords(ws: seq<Word>): (b: seq<Byte>)
    ensures |b| == 4 * |ws|
  {
    seq(4 * |ws|, i requires 0 <= i < 4 * |ws| => EncodeWord(ws[i / 4])[i % 4])
  }

  function DecodeWords(b: seq<Byte>): (ws: seq<Word>)
    ensures |ws| == |b| / 4
  {
    seq(|b| / 4, k requires 0 <= k < |b| / 4 => DecodeWord(b[4 * k..4 * k + 4]))
  }

  lemma WordRoundTrip(w: Word)
    ensures DecodeWord(EncodeWord(w)) == w
  {
  }

  /** The first byte counts least. */
  lemma WordIsPositional(w: Word)
    ensures var b := EncodeWord(w);
            w == b[0] as int + 256 * (b[1] as int) + 65536 * (b[2] as int) + 16777216 * (b[3] as int)
  {
  }

  lemma WordsRoundTrip(ws: seq<Word>)
    ensures DecodeWords(EncodeWords(ws)) == ws
  {
    var b := EncodeWords(ws);
    forall k | 0 <= k < |ws| ensures DecodeWord(b[4 * k..4 * k + 4]) == ws[k] {
      forall j | 0 <= j < 4 ensures b[4 * k..4 * k + 4][j] == EncodeWord(ws[k])[j] {
        assert (4 * k + j) / 4 == k && (4 * k + j) % 4 == j;
      }
      assert b[4 * k..4 * k + 4] == EncodeWord(ws[k]);
      WordRoundTrip(ws[k]);
    }
  }

  lemma WordPlace(ws: seq<Word>, k: nat)
    requires k < |ws|
    ensures DecodeWord(EncodeWords(ws)[4 * k..4 * k + 4]) == ws[k]
  {
    WordsRoundTrip(ws);
    assert DecodeWords(EncodeWords(ws))[k] == ws[k];
  }

  // ---- file headers ------------------------------------------------------

  datatype Header = Header(numBytes: Word, numSectors: Word, dataSectors: seq<Word>)

  /** A header as it sits in one sector. */
  function EncodeHeader(h: Header): (s: Sector)
    requires |h.dataSectors| == NUM_DIRECT
  {
    EncodeWords([h.numBytes, h.numSectors] + h.dataSectors)
  }

  function DecodeHeader(s: Sector): (h: Header)
    ensures |h.dataSectors| == NUM_DIRECT
  {
    var ws := DecodeWords(s);
    Header(ws[0], ws[1], ws[2..])
  }

  lemma HeaderRoundTrip(h: Header)
    requires |h.dataSectors| == NUM_DIRECT
    ensures DecodeHeader(EncodeHeader(h)) == h
  {
    var ws := [h.numBytes, h.numSectors] + h.dataSectors;
    WordsRoundTrip(ws);
    assert ws[2..] == h.dataSectors;
  }

  /** Length, sector count, then the sector numbers, four bytes each. */
  lemma HeaderPlaces(h: Header, k: nat)
    requires |h.dataSectors| == NUM_DIRECT && k < NUM_DIRECT
    ensures var s := EncodeHeader(h);
            && DecodeWord(s[0..4]) == h.numBytes && DecodeWord(s[4..8]) == h.numSectors
            && DecodeWord(s[8 + 4 * k..12 + 4 * k]) == h.dataSectors[k]
  {
    var ws := [h.numBytes, h.numSectors] + h.dataSectors;
    WordPlace(ws, 0);
    WordPlace(ws, 1);
    SectorPlace(h, k);
  }

  lemma SectorPlace(h: Header, k: nat)
    requires |h.dataSectors| == NUM_DIRECT && k < NUM_DIRECT
    ensures DecodeWord(EncodeHeader(h)[8 + 4 * k..12 + 4 * k]) == h.dataSectors[k]
  {
    var ws, i := [h.numBytes, h.numSectors] + h.dataSectors, k + 2;
    assert ws[i] == h.dataSectors[k];
    WordPlace(ws, i);
  }

  /** A header that describes a file: its sector count is the rounded-up length and its
      sector numbers exist. */
  predicate HeaderOk(h: Header) {
    && |h.dataSectors| == NUM_DIRECT
    && h.numBytes <= MAX_FILE_SIZE
    && h.numSectors == DivRoundUp(h.numBytes, SECTOR_SIZE)
    && forall k :: 0 <= k < h.numSectors ==> h.dataSectors[k] < NUM_SECTORS
  }

  /** The data sectors in use, in file order. */
  function DataOf(h: Header): (s: seq<nat>)
    requires HeaderOk(h)
    ensures |s| == h.numSectors
    ensures forall k :: 0 <= k < |s| ==> s[k] < NUM_SECTORS
  {
    h.dataSectors[..h.numSectors]
  }

  /** The logical content of a file. */
  function Content(d: Image, h: Header): (c: seq<Byte>)
    requires HeaderOk(h)
    ensures |c| == h.numBytes
  {
    seq(h.numBytes, i requires 0 <= i < h.numBytes =>
        d[h.dataSectors[i / SECTOR_SIZE]][i % SECTOR_SIZE])
  }

  /** Content depends on the file's data sectors only. */
  lemma ContentFrame(d: Image, d': Image, h: Header)
    requires HeaderOk(h)
    requires forall s :: s in DataOf(h) ==> d[s] == d'[s]
    ensures Content(d, h) == Content(d', h)
  {
    forall i | 0 <= i < h.numBytes
      ensures Content(d, h)[i] == Content(d', h)[i]
    {
      assert DataOf(h)[i / SECTOR_SIZE] in DataOf(h);
    }
  }

  // ---- directory ---------------------------------------------------------

  datatype RawEntry = Entry(inUse: bool, sector: Word, name: seq<Byte>)

  /** name holds FileNameMaxLen + 1 bytes. */
  type Entry = e: RawEntry | |e.name| == 10 witness Entry(false, 0, seq(10, _ => 0))

  function EncodeEntry(e: Entry): (b: seq<Byte>)
    ensures |b| == ENTRY_SIZE
  {
    [if e.inUse then 1 else 0, 0, 0, 0] + EncodeWord(e.sector) + e.name + [0, 0]
  }

  function DecodeEntry(b: seq<Byte>): Entry
    requires |b| == ENTRY_SIZE
  {
    Entry(b[0] != 0, DecodeWord(b[4..8]), b[8..18])
  }

  function EncodeTable(t: seq<Entry>): (b: seq<Byte>)
    ensures |b| == ENTRY_SIZE * |t|
  {
    seq(ENTRY_SIZE * |t|, i requires 0 <= i < ENTRY_SIZE * |t| => EncodeEntry(t[i / 20])[i % 20])
  }

  function DecodeTable(b: seq<Byte>): (t: seq<Entry>)
    ensures |t| == |b| / ENTRY_SIZE
  {
    seq(|b| / ENTRY_SIZE, k requires 0 <= k < |b| / ENTRY_SIZE => DecodeEntry(b[20 * k..20 * k + 20]))
  }

  lemma EntryRoundTrip(e: Entry)
    ensures DecodeEntry(EncodeEntry(e)) == e
  {
    var b := EncodeEntry(e);
    assert b[4..8] == EncodeWord(e.sector);
    assert b[8..18] == e.name;
    WordRoundTrip(e.sector);
  }

  /** Entry k of the table stands at byte 20 * k: the flag, the sector at byte 4, the name at 8. */
  lemma EntryPlaces(t: seq<Entry>, k: nat)
    requires k < |t|
    ensures var b := EncodeTable(t)[20 * k..20 * k + 20];
            && DecodeWord(b[0..4]) == (if t[k].inUse then 1 else 0)
            && DecodeWord(b[4..8]) == t[k].sector && b[8..18] == t[k].name
  {
    var b, e := EncodeTable(t)[20 * k..20 * k + 20], EncodeEntry(t[k]);
    forall j | 0 <= j < 20 ensures b[j] == e[j] {
      assert (20 * k + j) / 20 == k && (20 * k + j) % 20 == j;
    }
    assert b == e;
    assert e[0..4] == [if t[k].inUse then 1 else 0, 0, 0, 0];
    assert e[4..8] == EncodeWord(t[k].sector);
    WordRoundTrip(t[k].sector);
  }

  lemma TableRoundTrip(t: seq<Entry>)
    ensures DecodeTable(EncodeTable(t)) == t
  {
    var b := EncodeTable(t);
    forall k | 0 <= k < |t| ensures DecodeEntry(b[20 * k..20 * k + 20]) == t[k] {
      forall j | 0 <= j < 20 ensures b[20 * k..20 * k + 20][j] == EncodeEntry(t[k])[j] {
        assert (20 * k + j) / 20 == k && (20 * k + j) % 20 == j;
      }
      assert b[20 * k..20 * k + 20] == EncodeEntry(t[k]);
      EntryRoundTrip(t[k]);
    }
  }
}
