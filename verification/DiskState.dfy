/** The file system as a property of the disk image alone: which sectors each file owns,
    the invariant that ties ownership to the on-disk free map, and the abstract map from
    names to contents. */
module DiskState {
  import opened Common
  import opened Bits
  import opened BitMapModel
  import opened Layout
  import opened FileHeaders
  import opened OpenFiles
  import opened Directories

  const MAP_SECTOR: nat := 0
  const DIRECTORY_SECTOR: nat := 1
  const MAP_BYTES: nat := 128
  const DIRECTORY_BYTES: nat := 200
  const NUM_ENTRIES: nat := 10
  /** Ten directory slots, then the map file and the directory file. */
  const NUM_OWNERS: nat := 12

  function Hdr(d: Image, s: nat): (h: Header)
    requires s < NUM_SECTORS
    ensures |h.dataSectors| == NUM_DIRECT
  {
    DecodeHeader(d[s])
  }

  predicate SystemFilesOk(d: Image) {
    && HeaderOk(Hdr(d, MAP_SECTOR)) && Hdr(d, MAP_SECTOR).numBytes == MAP_BYTES
    && HeaderOk(Hdr(d, DIRECTORY_SECTOR)) && Hdr(d, DIRECTORY_SECTOR).numBytes == DIRECTORY_BYTES
  }

  /** The directory as stored. */
  function Table(d: Image): (t: seq<Entry>)
    requires SystemFilesOk(d)
    ensures |t| == NUM_ENTRIES
  {
    DecodeTable(Content(d, Hdr(d, DIRECTORY_SECTOR)))
  }

  /** The free map as stored. */
  function MapWords(d: Image): (ws: seq<Word>)
    requires SystemFilesOk(d)
    ensures |ws| == 32
  {
    DecodeWords(Content(d, Hdr(d, MAP_SECTOR)))
  }

  ghost function FreeMap(d: Image): (s: set<nat>)
    requires SystemFilesOk(d)
    ensures s <= Items(NUM_SECTORS)
  {
    MarkedMember(MapWords(d), NUM_SECTORS);
    MarkedIn(MapWords(d), NUM_SECTORS)
  }

  ghost function ClearSectors(d: Image): nat
    requires SystemFilesOk(d)
  {
    |Items(NUM_SECTORS) - FreeMap(d)|
  }

  predicate Live(t: seq<Entry>, i: nat)
    requires |t| == NUM_ENTRIES && i < NUM_OWNERS
  {
    i >= NUM_ENTRIES || t[i].inUse
  }

  /** The header sector of an owner. */
  function Root(t: seq<Entry>, i: nat): nat
    requires |t| == NUM_ENTRIES && i < NUM_OWNERS
  {
    if i == NUM_ENTRIES then MAP_SECTOR
    else if i == NUM_ENTRIES + 1 then DIRECTORY_SECTOR
    else t[i].sector
  }

  /** A header sector followed by its data sectors. */
  function Area(s: nat, h: Header): seq<nat>
    requires HeaderOk(h)
  {
    [s] + DataOf(h)
  }

  ghost predicate OwnerOk(d: Image, t: seq<Entry>, i: nat)
    requires |t| == NUM_ENTRIES && i < NUM_OWNERS
  {
    var r := Root(t, i);
    r < NUM_SECTORS && HeaderOk(Hdr(d, r)) && NoDuplicates(Area(r, Hdr(d, r)))
  }

  /** The sectors an owner holds. */
  ghost function Owned(d: Image, t: seq<Entry>, i: nat): set<nat>
    requires |t| == NUM_ENTRIES && i < NUM_OWNERS
  {
    if Live(t, i) && OwnerOk(d, t, i) then Elements(Area(Root(t, i), Hdr(d, Root(t, i)))) else {}
  }

  ghost predicate OwnersOk(d: Image, t: seq<Entry>)
    requires |t| == NUM_ENTRIES
  {
    forall i: nat :: i < NUM_OWNERS && Live(t, i) ==> OwnerOk(d, t, i)
  }

  /** All twelve holdings. */
  ghost function Holdings(d: Image, t: seq<Entry>): (o: seq<set<nat>>)
    requires |t| == NUM_ENTRIES
    ensures |o| == NUM_OWNERS
    ensures forall i :: 0 <= i < NUM_OWNERS ==> o[i] == Owned(d, t, i)
  {
    seq(NUM_OWNERS, i requires 0 <= i < NUM_OWNERS => Owned(d, t, i))
  }

  /** The ownership invariant. */
  ghost predicate Inv(d: Image) {
    && SystemFilesOk(d)
    && NamesPadded(Table(d)) && KeysDistinct(Table(d))
    && OwnersOk(d, Table(d))
    && PairwiseDisjoint(Holdings(d, Table(d)))
    && Covers(Holdings(d, Table(d)), FreeMap(d))
  }

  // ---- the abstract state --------------------------------------------------

  datatype Slot = Unused | File(key: seq<Byte>, bytes: seq<Byte>)

  ghost function FileAt(d: Image, t: seq<Entry>, i: nat): seq<Byte>
    requires |t| == NUM_ENTRIES && i < NUM_ENTRIES && OwnerOk(d, t, i)
  {
    Content(d, Hdr(d, t[i].sector))
  }

  ghost function SlotOf(d: Image, t: seq<Entry>, i: nat): Slot
    requires |t| == NUM_ENTRIES && i < NUM_ENTRIES
  {
    if t[i].inUse && OwnerOk(d, t, i) then File(KeyOf(t[i]), FileAt(d, t, i)) else Unused
  }

  /** The directory with the file contents in place of the sector numbers. */
  ghost function Slots(d: Image): (v: seq<Slot>)
    requires SystemFilesOk(d)
    ensures |v| == NUM_ENTRIES
    ensures forall i :: 0 <= i < NUM_ENTRIES ==> v[i] == SlotOf(d, Table(d), i)
  {
    seq(NUM_ENTRIES, i requires 0 <= i < NUM_ENTRIES => SlotOf(d, Table(d), i))
  }

  ghost predicate SlotsDistinct(v: seq<Slot>) {
    forall i, j :: 0 <= i < j < |v| && v[i].File? && v[j].File? ==> v[i].key != v[j].key
  }

  /** The contents by name. */
  ghost function ByName(v: seq<Slot>): map<seq<Byte>, seq<Byte>> {
    if v == [] then map[]
    else
      var rest := ByName(v[..|v| - 1]);
      match v[|v| - 1]
      case Unused => rest
      case File(key, bytes) => rest[key := bytes]
  }

  /** The files: nine-byte names to contents. */
  ghost function Files(d: Image): map<seq<Byte>, seq<Byte>>
    requires SystemFilesOk(d)
  {
    ByName(Slots(d))
  }

  lemma {:induction false} ByNameEntries(v: seq<Slot>)
    requires SlotsDistinct(v)
    ensures forall i :: 0 <= i < |v| && v[i].File? ==>
              v[i].key in ByName(v) && ByName(v)[v[i].key] == v[i].bytes
    ensures forall k :: k in ByName(v) ==> exists i :: 0 <= i < |v| && v[i].File? && v[i].key == k
  {
    if v != [] {
      var w := v[..|v| - 1];
      ByNameEntries(w);
      forall k | k in ByName(v) ensures exists i :: 0 <= i < |v| && v[i].File? && v[i].key == k {
        if k in ByName(w) {
          var i :| 0 <= i < |w| && w[i].File? && w[i].key == k;
          assert v[i] == w[i];
        } else {
          assert v[|v| - 1].File?;
        }
      }
    }
  }

  /** Setting one slot sets one name. */
  lemma ByNameSet(v: seq<Slot>, i: nat, f: Slot)
    requires SlotsDistinct(v) && i < |v| && f.File?
    requires if v[i].File? then v[i].key == f.key
             else forall j :: 0 <= j < |v| && v[j].File? ==> v[j].key != f.key
    ensures SlotsDistinct(v[i := f])
    ensures ByName(v[i := f]) == ByName(v)[f.key := f.bytes]
    ensures f.key in ByName(v) <==> v[i].File?
  {
    var v', m := v[i := f], ByName(v)[f.key := f.bytes];
    ByNameEntries(v);
    ByNameEntries(v');
    forall k | k in m ensures k in ByName(v') && ByName(v')[k] == m[k] {
      ByNameSetAt(v, i, f, k);
    }
    forall k | k in ByName(v') ensures k in m {
      var j :| 0 <= j < |v| && v'[j].File? && v'[j].key == k;
      assert j != i ==> v[j] == v'[j];
    }
  }

  lemma ByNameSetAt(v: seq<Slot>, i: nat, f: Slot, k: seq<Byte>)
    requires i < |v| && f.File? && SlotsDistinct(v[i := f])
    requires SlotsDistinct(v) && (k == f.key || k in ByName(v)) && (v[i].File? ==> v[i].key == f.key)
    ensures k in ByName(v[i := f]) && ByName(v[i := f])[k] == if k == f.key then f.bytes else ByName(v)[k]
  {
    var v' := v[i := f];
    ByNameEntries(v);
    ByNameEntries(v');
    if k == f.key {
      assert v'[i].key == k;
    } else {
      var j :| 0 <= j < |v| && v[j].File? && v[j].key == k;
      assert v'[j] == v[j];
    }
  }

  /** Emptying one slot drops one name. */
  lemma ByNameDrop(v: seq<Slot>, i: nat)
    requires SlotsDistinct(v) && i < |v| && v[i].File?
    ensures SlotsDistinct(v[i := Unused])
    ensures v[i].key in ByName(v) && ByName(v[i := Unused]) == ByName(v) - {v[i].key}
  {
    var v', m := v[i := Unused], ByName(v) - {v[i].key};
    ByNameEntries(v);
    ByNameEntries(v');
    forall k | k in m ensures k in ByName(v') && ByName(v')[k] == m[k] {
      var j :| 0 <= j < |v| && v[j].File? && v[j].key == k;
      assert v'[j] == v[j];
    }
    forall k | k in ByName(v') ensures k in m {
      var j :| 0 <= j < |v| && v'[j].File? && v'[j].key == k;
      assert j != i && v[j] == v'[j];
    }
  }

  function CountUsed(v: seq<Slot>): (n: nat)
    ensures n <= |v|
    ensures n == |v| <==> forall i :: 0 <= i < |v| ==> v[i].File?
  {
    if v == [] then 0
    else CountUsed(v[..|v| - 1]) + (if v[|v| - 1].File? then 1 else 0)
  }

  lemma {:induction false} ByNameSize(v: seq<Slot>)
    requires SlotsDistinct(v)
    ensures |ByName(v)| == CountUsed(v)
  {
    if v != [] {
      var w := v[..|v| - 1];
      ByNameSize(w);
      ByNameEntries(w);
      match v[|v| - 1]
      case Unused =>
      case File(key, bytes) =>
        assert key !in ByName(w);
        assert ByName(v).Keys == ByName(w).Keys + {key};
    }
  }

  lemma InvSlots(d: Image)
    requires Inv(d)
    ensures SlotsDistinct(Slots(d))
    ensures forall i :: 0 <= i < NUM_ENTRIES ==>
              (Slots(d)[i].File? <==> Table(d)[i].inUse)
              && (Slots(d)[i].File? ==> Slots(d)[i].key == KeyOf(Table(d)[i]))
  {
    forall i | 0 <= i < NUM_ENTRIES && Table(d)[i].inUse ensures OwnerOk(d, Table(d), i) {
      assert Live(Table(d), i);
    }
  }

  /** A name is in use exactly when the directory finds it, and the directory has room
      exactly when fewer than ten names are in use. */
  lemma FilesAndTable(d: Image, name: Name)
    requires Inv(d)
    ensures Key(name) in Files(d) <==> IndexOf(Table(d), Key(name)) != -1
    ensures |Files(d)| < NUM_ENTRIES <==> FirstFree(Table(d)) != -1
  {
    InvSlots(d);
    NameInSlots(Table(d), Slots(d), Key(name));
    RoomInSlots(Table(d), Slots(d));
  }

  /** A table and the slots that show it. */
  ghost predicate Shows(t: seq<Entry>, v: seq<Slot>) {
    && |t| == |v|
    && forall i :: 0 <= i < |v| ==>
         (v[i].File? <==> t[i].inUse) && (v[i].File? ==> v[i].key == KeyOf(t[i]))
  }

  lemma NameInSlots(t: seq<Entry>, v: seq<Slot>, k: seq<Byte>)
    requires Shows(t, v) && SlotsDistinct(v)
    ensures k in ByName(v) <==> IndexOf(t, k) != -1
  {
    ByNameEntries(v);
    if k in ByName(v) {
      var i :| 0 <= i < |v| && v[i].File? && v[i].key == k;
      assert Holds(t[i], k);
    }
    var r := IndexOf(t, k);
    assert r != -1 ==> v[r].File? && v[r].key == k;
  }

  lemma RoomInSlots(t: seq<Entry>, v: seq<Slot>)
    requires Shows(t, v) && SlotsDistinct(v)
    ensures |ByName(v)| < |v| <==> FirstFree(t) != -1
  {
    ByNameSize(v);
    var f := FirstFree(t);
    assert f != -1 ==> !v[f].File?;
  }

  // ---- framing -------------------------------------------------------------

  /** What an owner holds depends on its table entry and its header sector only. */
  lemma OwnedFrame(d: Image, d': Image, t: seq<Entry>, t': seq<Entry>, i: nat)
    requires |t| == |t'| == NUM_ENTRIES && i < NUM_OWNERS
    requires Live(t', i) == Live(t, i) && Root(t', i) == Root(t, i)
    requires Live(t, i) && Root(t, i) < NUM_SECTORS ==> Hdr(d', Root(t, i)) == Hdr(d, Root(t, i))
    ensures Owned(d', t', i) == Owned(d, t, i)
    ensures Live(t, i) ==> (OwnerOk(d', t', i) <==> OwnerOk(d, t, i))
  {
  }

  lemma RootIsOwned(d: Image, t: seq<Entry>, i: nat)
    requires |t| == NUM_ENTRIES && i < NUM_OWNERS && Live(t, i) && OwnerOk(d, t, i)
    ensures Root(t, i) in Owned(d, t, i)
    ensures Elements(DataOf(Hdr(d, Root(t, i)))) <= Owned(d, t, i)
    ensures Owned(d, t, i) == {Root(t, i)} + Elements(DataOf(Hdr(d, Root(t, i))))
    ensures Root(t, i) !in DataOf(Hdr(d, Root(t, i)))
    ensures NoDuplicates(DataOf(Hdr(d, Root(t, i))))
  {
    var r := Root(t, i);
    var h := Hdr(d, r);
    assert Area(r, h)[0] == r;
    assert forall k :: 0 <= k < |DataOf(h)| ==> Area(r, h)[k + 1] == DataOf(h)[k];
  }
}
