/** The directory table of filesys/directory.cc. */
module Directories {
  import opened Bits
  import opened Layout
  import opened FileHeaders
  import opened OpenFiles

  /** A file name as C passes it: characters before the terminating NUL. */
  type Name = n: seq<Byte> | 0 !in n

  function CharAt(name: Name, i: nat): Byte {
    if i < |name| then name[i] else 0
  }

  /** What strncpy leaves in the first nine bytes: the name cut or NUL-padded to nine. */
  function Key(name: Name): (k: seq<Byte>)
    ensures |k| == NAME_LENGTH
  {
    seq(NAME_LENGTH, i requires 0 <= i => CharAt(name, i))
  }

  /** Nine bytes in which only NULs follow a NUL. */
  predicate Padded(k: seq<Byte>) {
    |k| == NAME_LENGTH && forall i, j :: 0 <= i < j < NAME_LENGTH && k[i] == 0 ==> k[j] == 0
  }

  function KeyOf(e: Entry): seq<Byte> {
    e.name[..NAME_LENGTH]
  }

  /** strncmp(a, name, 9) == 0, comparing from position i. */
  predicate SameName(a: seq<Byte>, name: Name, i: nat := 0)
    requires |a| == 10 && i <= NAME_LENGTH
    decreases NAME_LENGTH - i
  {
    i == NAME_LENGTH ||
    (a[i] == CharAt(name, i) && (a[i] == 0 || SameName(a, name, i + 1)))
  }

  lemma KeyIsPadded(name: Name)
    ensures Padded(Key(name))
  {
    assert forall i :: 0 <= i < |name| ==> name[i] in name;
  }

  /** strncmp tells exactly whether the nine-byte keys agree. */
  lemma {:induction false} SameNameIsSameKey(e: Entry, name: Name, i: nat)
    requires Padded(KeyOf(e)) && i <= NAME_LENGTH
    ensures SameName(e.name, name, i) <==> KeyOf(e)[i..] == Key(name)[i..]
    decreases NAME_LENGTH - i
  {
    KeyIsPadded(name);
    if i < NAME_LENGTH {
      var a, b := KeyOf(e), Key(name);
      assert a[i..] == [a[i]] + a[i + 1..] && b[i..] == [b[i]] + b[i + 1..];
      if e.name[i] == CharAt(name, i) == 0 {
        assert a[i + 1..] == b[i + 1..];
      } else {
        SameNameIsSameKey(e, name, i + 1);
        assert a[i..] == b[i..] ==> a[i..][0] == b[i..][0] && a[i..][1..] == b[i..][1..];
      }
    }
  }

  /** The characters that tell names apart: the first nine. */
  function Cut(name: Name): seq<Byte> {
    name[..if |name| < 9 then |name| else 9]
  }

  /** A key is the name's own characters with NULs behind a short one. */
  lemma KeyIsName(name: Name)
    ensures |name| < 9 ==> Key(name)[..|name|] == name && forall i :: |name| <= i < 9 ==> Key(name)[i] == 0
    ensures |name| >= 9 ==> Key(name) == name[..9]
  {
    var k := Key(name);
    assert forall i :: 0 <= i < |name| && i < 9 ==> k[i] == name[i];
  }

  /** Two names have one key exactly when they agree in their first nine characters. */
  lemma KeysAgree(a: Name, b: Name)
    ensures Key(a) == Key(b) <==> Cut(a) == Cut(b)
  {
    KeyIsName(a);
    KeyIsName(b);
    if Key(a) == Key(b) {
      KeyLength(a, b);
      KeyLength(b, a);
      assert Cut(a) == Key(a)[..|Cut(a)|] && Cut(b) == Key(b)[..|Cut(b)|];
    } else {
      KeyFromCut(a);
      KeyFromCut(b);
    }
  }

  lemma KeyLength(a: Name, b: Name)
    requires Key(a) == Key(b)
    ensures |Cut(a)| <= |Cut(b)|
  {
    KeyIsName(a);
    KeyIsName(b);
    forall i | 0 <= i < |Cut(a)| ensures Key(a)[i] != 0 {
      assert Key(a)[..|Cut(a)|] == Cut(a);
      assert Key(a)[i] == a[i] && a[i] in a;
    }
    assert |Cut(b)| < 9 ==> Key(b)[|Cut(b)|] == 0;
  }

  /** The key is determined by the nine characters. */
  lemma KeyFromCut(a: Name)
    ensures Key(a) == Cut(a) + seq(9 - |Cut(a)|, _ => 0)
  {
    KeyIsName(a);
  }

  /** So strncmp finds the entry stored for b under the name a exactly when the first nine
      characters agree. */
  lemma FoundUnderName(e: Entry, a: Name, b: Name)
    requires KeyOf(e) == Key(b)
    ensures SameName(e.name, a) <==> Cut(a) == Cut(b)
  {
    KeyIsPadded(b);
    SameNameIsSameKey(e, a, 0);
    assert KeyOf(e)[0..] == KeyOf(e) && Key(a)[0..] == Key(a);
    KeysAgree(a, b);
  }

  predicate Holds(e: Entry, key: seq<Byte>) {
    e.inUse && KeyOf(e) == key
  }

  /** Index of the first used entry at or after from that carries the key, or -1. */
  function IndexOf(t: seq<Entry>, key: seq<Byte>, from: nat := 0): (r: int)
    requires from <= |t|
    ensures r == -1 || (from <= r < |t| && Holds(t[r], key))
    ensures forall j :: from <= j < (if r == -1 then |t| else r) ==> !Holds(t[j], key)
    decreases |t| - from
  {
    if from == |t| then -1
    else if Holds(t[from], key) then from
    else IndexOf(t, key, from + 1)
  }

  /** Index of the first unused entry at or after from, or -1. */
  function FirstFree(t: seq<Entry>, from: nat := 0): (r: int)
    requires from <= |t|
    ensures r == -1 || (from <= r < |t| && !t[r].inUse)
    ensures forall j :: from <= j < (if r == -1 then |t| else r) ==> t[j].inUse
    decreases |t| - from
  {
    if from == |t| then -1
    else if !t[from].inUse then from
    else FirstFree(t, from + 1)
  }

  lemma IndexOfUnique(t: seq<Entry>, key: seq<Byte>, i: int)
    requires 0 <= i < |t| && Holds(t[i], key)
    requires forall j :: 0 <= j < |t| && j != i ==> !Holds(t[j], key)
    ensures IndexOf(t, key) == i
  {
    var r := IndexOf(t, key);
    assert r != -1 ==> Holds(t[r], key);
  }

  ghost predicate NamesPadded(t: seq<Entry>) {
    forall j :: 0 <= j < |t| && t[j].inUse ==> Padded(KeyOf(t[j]))
  }

  ghost predicate KeysDistinct(t: seq<Entry>) {
    forall i, j :: 0 <= i < j < |t| && t[i].inUse && t[j].inUse ==> KeyOf(t[i]) != KeyOf(t[j])
  }

  /** The table after adding: strncpy writes nine bytes and leaves the tenth. */
  function Added(t: seq<Entry>, name: Name, sector: Word): seq<Entry>
    requires FirstFree(t) != -1
  {
    var i := FirstFree(t);
    t[i := Entry(true, sector, Key(name) + [t[i].name[9]])]
  }

  lemma AddedNames(t: seq<Entry>, name: Name, sector: Word)
    requires NamesPadded(t) && KeysDistinct(t)
    requires FirstFree(t) != -1 && IndexOf(t, Key(name)) == -1
    ensures NamesPadded(Added(t, name, sector)) && KeysDistinct(Added(t, name, sector))
    ensures KeyOf(Added(t, name, sector)[FirstFree(t)]) == Key(name)
  {
    KeyIsPadded(name);
    assert KeyOf(Added(t, name, sector)[FirstFree(t)]) == Key(name);
    assert forall j :: 0 <= j < |t| ==> !Holds(t[j], Key(name));
  }

  function Dropped(t: seq<Entry>, name: Name): seq<Entry>
    requires IndexOf(t, Key(name)) != -1
  {
    var i := IndexOf(t, Key(name));
    t[i := t[i].(inUse := false)]
  }

  class Directory {
    const table: array<Entry>

    constructor (size: nat)
      ensures fresh(table) && table.Length == size
      ensures forall i :: 0 <= i < size ==> !table[i].inUse
    {
      table := new Entry[size];
      new;
      for i := 0 to size
        invariant forall j :: 0 <= j < i ==> !table[j].inUse
      {
        table[i] := table[i].(inUse := false);
      }
    }

    method FetchFrom(file: OpenFile)
      requires file.Valid() && file.hdr.numBytes == ENTRY_SIZE * table.Length
      modifies table
      ensures table[..] == DecodeTable(file.Bytes())
    {
      var buf := new Byte[ENTRY_SIZE * table.Length];
      var n := file.ReadAt(buf, 0, ENTRY_SIZE * table.Length, 0);
      assert buf[..] == buf[0..n] == file.Bytes();
      var decoded := DecodeTable(buf[..]);
      forall i | 0 <= i < table.Length {
        table[i] := decoded[i];
      }
      assert table[..] == decoded;
    }

    method WriteBack(file: OpenFile)
      requires file.Valid() && file.hdr.numBytes == ENTRY_SIZE * table.Length
      modifies file.disk
      ensures DecodeTable(file.Bytes()) == table[..]
      ensures OnlyFileChanged(old(file.disk.image), file.disk.image, file.hdr.Value())
    {
      var bytes := EncodeTable(table[..]);
      TableRoundTrip(table[..]);
      WrittenWhole(file.Bytes(), bytes);
      var n := file.WriteAt(bytes, 0);
    }

    method FindIndex(name: Name) returns (r: int)
      requires NamesPadded(table[..])
      ensures r == IndexOf(table[..], Key(name))
    {
      ghost var t := table[..];
      for i := 0 to table.Length
        invariant IndexOf(t, Key(name)) == IndexOf(t, Key(name), i)
      {
        if table[i].inUse {
          SameNameIsSameKey(t[i], name, 0);
          assert KeyOf(t[i])[0..] == KeyOf(t[i]) && Key(name)[0..] == Key(name);
          if SameName(table[i].name, name) {
            return i;
          }
        }
      }
      return -1;
    }

    method Find(name: Name) returns (sector: int)
      requires NamesPadded(table[..])
      ensures var i := IndexOf(table[..], Key(name));
              sector == if i == -1 then -1 else table[i].sector
    {
      var i := FindIndex(name);
      if i != -1 {
        return table[i].sector;
      }
      return -1;
    }

    method Add(name: Name, newSector: Word) returns (ok: bool)
      requires NamesPadded(table[..])
      modifies table
      ensures ok <==> old(IndexOf(table[..], Key(name)) == -1 && FirstFree(table[..]) != -1)
      ensures table[..] == old(if ok then Added(table[..], name, newSector) else table[..])
    {
      var found := FindIndex(name);
      if found != -1 {
        return false;
      }
      ghost var t := table[..];
      for i := 0 to table.Length
        invariant table[..] == t
        invariant FirstFree(t) == FirstFree(t, i)
      {
        if !table[i].inUse {
          table[i] := Entry(true, newSector, Key(name) + [table[i].name[9]]);
          assert table[..] == Added(t, name, newSector);
          return true;
        }
      }
      return false;
    }

    method Remove(name: Name) returns (ok: bool)
      requires NamesPadded(table[..])
      modifies table
      ensures ok <==> old(IndexOf(table[..], Key(name))) != -1
      ensures table[..] == old(if ok then Dropped(table[..], name) else table[..])
    {
      var i := FindIndex(name);
      if i == -1 {
        return false;
      }
      ghost var t := table[..];
      table[i] := table[i].(inUse := false);
      assert table[..] == Dropped(t, name);
      return true;
    }
  }
}
