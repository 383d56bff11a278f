/** The process table of threads/ptable.cc: a bitmap of slots and an array of pointers that is
    never reset to NULL. */
module ProcessTable {
  import opened Bits
  import opened BitMapModel

  const MAX_PROCESS: nat := 10

  /** What an entry of the array points to. */
  datatype Pcb = Null | Block(parentID: int, fileName: string) | Deleted

  /** How far JoinUpdate gets: it refuses, it goes on to wait for the child, or it has read
      memory of a deleted block. */
  datatype Lookup = Refused | Proceeds | TouchesDeleted

  class PTable {
    const bm: BitMap
    const pcb: array<Pcb>

    ghost predicate Valid()
      reads pcb, bm.words
    {
      && bm.Valid() && bm.numBits == MAX_PROCESS && pcb.Length == MAX_PROCESS
      && (forall i :: 0 <= i < MAX_PROCESS && pcb[i].Block? ==> i in bm.Marked())
      && (forall i :: 1 <= i < MAX_PROCESS && i in bm.Marked() ==> pcb[i].Block?)
    }

    constructor ()
      ensures Valid() && fresh(bm.words) && fresh(pcb)
      ensures bm.Marked() == {0} && forall i :: 0 <= i < MAX_PROCESS ==> pcb[i] == Null
    {
      bm := new BitMap(MAX_PROCESS);
      pcb := new Pcb[MAX_PROCESS](_ => Null);
      new;
      bm.Mark(0);
    }

    /** Takes the least free slot; refuses, changing nothing, when the file does not open, the
        caller would execute itself or all slots are taken. */
    method ExecUpdate(opens: bool, filename: string, callerName: string, callerID: int) returns (id: int)
      requires Valid()
      modifies bm.words, pcb
      ensures Valid()
      ensures id == -1 <==> !opens || filename == callerName || old(bm.Marked()) == Items(MAX_PROCESS)
      ensures id == -1 ==> bm.Marked() == old(bm.Marked()) && pcb[..] == old(pcb[..])
      ensures id != -1 ==>
                && 0 <= id < MAX_PROCESS && id !in old(bm.Marked())
                && (forall j: nat :: j < id ==> j in old(bm.Marked()))
                && bm.Marked() == old(bm.Marked()) + {id}
                && pcb[..] == old(pcb[..])[id := Block(if id == 0 then 0 else callerID, filename)]
    {
      if !opens {
        return -1;
      }
      if filename == callerName {
        return -1;
      }
      id := bm.Find();
      if id == -1 {
        return -1;
      }
      pcb[id] := Block(if id == 0 then 0 else callerID, filename);
      bm.Mark(id);
    }

    /** The tests of JoinUpdate before it waits. */
    method JoinLookup(pID: int, callerID: int) returns (r: Lookup)
      requires Valid()
      ensures r == Proceeds <==> 0 < pID < MAX_PROCESS && pID in bm.Marked() && pcb[pID].parentID == callerID
      ensures r == TouchesDeleted <==> 0 < pID < MAX_PROCESS && pID !in bm.Marked() && pcb[pID] != Null
    {
      if pID <= 0 || pID > 9 {
        return Refused;
      }
      match pcb[pID]
      case Null => return Refused;
      case Deleted => return TouchesDeleted;
      case Block(parentID, _) => return if callerID != parentID then Refused else Proceeds;
    }

    /** Deleting a NULL pointer does nothing. */
    method Remove(pID: int)
      requires Valid()
      modifies bm.words, pcb
      ensures Valid()
      ensures bm.Marked() == old(bm.Marked()) - {pID}
      ensures forall i: nat :: i < MAX_PROCESS ==>
                pcb[i] == if i == pID && old(pcb[i].Block?) then Deleted else old(pcb[i])
    {
      if pID < 0 || pID > 9 {
        assert pID !in bm.Marked();
        return;
      }
      var marked := bm.Test(pID);
      if marked {
        bm.Clear(pID);
        if pcb[pID].Block? {
          pcb[pID] := Deleted;
        }
      }
    }
  }
}
