/** The bit-packed allocator of userprog/bitmap.cc: an array of 32-bit words that
    refines a set of marked item numbers. */
module BitMapModel {
  import opened Common
  import opened Bits

  predicate BitOf(ws: seq<Word>, i: nat)
    requires i < 32 * |ws|
  {
    TestBit(ws[i / 32], i % 32)
  }

  /** The items below n whose bit is set in the words. */
  ghost function MarkedIn(ws: seq<Word>, n: nat): set<nat>
    requires n <= 32 * |ws|
  {
    if n == 0 then {}
    else if BitOf(ws, n - 1) then MarkedIn(ws, n - 1) + {n - 1}
    else MarkedIn(ws, n - 1)
  }

  lemma {:induction false} MarkedMember(ws: seq<Word>, n: nat)
    requires n <= 32 * |ws|
    ensures forall i: nat :: i in MarkedIn(ws, n) <==> i < n && BitOf(ws, i)
  {
    if n > 0 { MarkedMember(ws, n - 1); }
  }

  predicate Below(i: nat, n: nat) {
    i < n
  }

  /** All item numbers below n. */
  ghost function Items(n: nat): (s: set<nat>)
    ensures forall i: nat :: i in s <==> i < n
    ensures |s| == n
  {
    ItemsSize(n);
    set i: nat | i < n && Below(i, n)
  }

  lemma {:induction false} ItemsSize(n: nat)
    ensures |set i: nat | i < n && Below(i, n)| == n
  {
    if n > 0 {
      var m := n - 1;
      ItemsSize(m);
      assert (set i: nat | i < n && Below(i, n)) == (set i: nat | i < m && Below(i, m)) + {m};
    }
  }

  /** Words that carry the same marks on all of their bits are the same words. */
  lemma WordsFromMarks(a: seq<Word>, b: seq<Word>, n: nat)
    requires |a| == |b| && n == 32 * |a|
    requires MarkedIn(a, n) == MarkedIn(b, n)
    ensures a == b
  {
    MarkedMember(a, n);
    MarkedMember(b, n);
    Pow2Of32();
    forall w | 0 <= w < |a| ensures a[w] == b[w] {
      forall k: nat | k < 32 ensures TestBit(a[w], k) <==> TestBit(b[w], k) {
        var i := 32 * w + k;
        assert i / 32 == w && i % 32 == k;
        assert BitOf(a, i) <==> BitOf(b, i);
      }
      BitExtensionality(a[w], b[w], 32);
    }
  }

  lemma MarkedAfterSet(ws: seq<Word>, n: nat, i: nat)
    requires i < n <= 32 * |ws|
    ensures MarkedIn(ws[i / 32 := SetBit(ws[i / 32], i % 32)], n) == MarkedIn(ws, n) + {i}
  {
    var ws' := ws[i / 32 := SetBit(ws[i / 32], i % 32)];
    MarkedMember(ws, n);
    MarkedMember(ws', n);
    forall j: nat | j < n ensures BitOf(ws', j) <==> j == i || BitOf(ws, j) {
    }
  }

  lemma MarkedAfterClear(ws: seq<Word>, n: nat, i: nat)
    requires i < n <= 32 * |ws|
    ensures MarkedIn(ws[i / 32 := ClearBit(ws[i / 32], i % 32)], n) == MarkedIn(ws, n) - {i}
  {
    var ws' := ws[i / 32 := ClearBit(ws[i / 32], i % 32)];
    MarkedMember(ws, n);
    MarkedMember(ws', n);
    forall j: nat | j < n ensures BitOf(ws', j) <==> j != i && BitOf(ws, j) {
    }
  }

  // ---- who holds the marked items ------------------------------------------------

  ghost function Elements(s: seq<nat>): (r: set<nat>)
    ensures forall x :: x in r <==> x in s
  {
    set x | x in s
  }

  /** Distinct items below the limit, clear before and marked now, besides nothing else. */
  ghost predicate Taken(items: seq<nat>, limit: nat, before: set<nat>, now: set<nat>) {
    && NoDuplicates(items)
    && (forall k :: 0 <= k < |items| ==> items[k] < limit)
    && Elements(items) !! before
    && now == before + Elements(items)
  }

  lemma TakenOneMore(items: seq<nat>, limit: nat, before: set<nat>, now: set<nat>, x: nat)
    requires Taken(items, limit, before, now) && x !in now && x < limit
    ensures Taken(items + [x], limit, before, now + {x})
  {
    assert Elements(items + [x]) == Elements(items) + {x};
    assert forall k :: 0 <= k < |items| ==> items[k] in Elements(items);
  }

  lemma ReleaseOneMore(items: seq<nat>, i: nat, before: set<nat>)
    requires NoDuplicates(items) && Elements(items) <= before && i < |items|
    ensures items[i] in before - Elements(items[..i])
    ensures before - Elements(items[..i]) - {items[i]} == before - Elements(items[..i + 1])
  {
    assert items[i] in Elements(items);
    assert Elements(items[..i + 1]) == Elements(items[..i]) + {items[i]};
  }

  ghost predicate PairwiseDisjoint(o: seq<set<nat>>) {
    forall i, j :: 0 <= i < j < |o| ==> o[i] !! o[j]
  }

  /** An item is marked exactly when somebody holds it. */
  ghost predicate Covers(o: seq<set<nat>>, marked: set<nat>) {
    && (forall i :: 0 <= i < |o| ==> o[i] <= marked)
    && (forall s :: s in marked ==> exists i :: 0 <= i < |o| && s in o[i])
  }

  /** Replacing one holding by unmarked items, or by nothing, keeps holdings exclusive and
      the marks exact. */
  lemma OneHoldingChanged(o: seq<set<nat>>, marked: set<nat>, i: nat, h: set<nat>)
    requires PairwiseDisjoint(o) && Covers(o, marked) && i < |o| && h !! marked
    ensures PairwiseDisjoint(o[i := h]) && Covers(o[i := h], marked - o[i] + h)
  {
    var o', marked' := o[i := h], marked - o[i] + h;
    forall j | 0 <= j < |o| ensures o'[j] <= marked' {
      assert o[j] <= marked;
      assert j < i ==> o[j] !! o[i];
      assert i < j ==> o[i] !! o[j];
    }
    forall s | s in marked' ensures exists j :: 0 <= j < |o'| && s in o'[j] {
      if s in h {
        assert s in o'[i];
      } else {
        var j :| 0 <= j < |o| && s in o[j];
        assert s in o'[j];
      }
    }
  }

  /** A new holder of clear items. */
  lemma OneHoldingAdded(o: seq<set<nat>>, marked: set<nat>, h: set<nat>)
    requires PairwiseDisjoint(o) && Covers(o, marked) && h !! marked
    ensures PairwiseDisjoint(o + [h]) && Covers(o + [h], marked + h)
  {
    var o' := o + [h];
    forall s | s in marked + h ensures exists j :: 0 <= j < |o'| && s in o'[j] {
      if s in h {
        assert s in o'[|o|];
      } else {
        var j :| 0 <= j < |o| && s in o[j];
        assert s in o'[j];
      }
    }
  }

  class BitMap {
    const numBits: nat
    const words: array<Word>

    ghost predicate Valid() {
      words.Length == DivRoundUp(numBits, 32)
    }

    /** The abstract value: the set of marked items. */
    ghost function Marked(): (s: set<nat>)
      requires Valid()
      reads words
      ensures s <= Items(numBits)
    {
      MarkedMember(words[..], numBits);
      MarkedIn(words[..], numBits)
    }

    /** The number of items that are not marked. */
    ghost function Clear0(): nat
      requires Valid()
      reads words
    {
      |Items(numBits) - Marked()|
    }

    constructor (nitems: nat)
      ensures Valid() && fresh(words) && numBits == nitems
      ensures Marked() == {}
    {
      numBits := nitems;
      words := new Word[DivRoundUp(nitems, 32)];
      new;
      for i := 0 to numBits
        invariant forall j :: j in Marked() ==> i <= j
      {
        Clear(i);
      }
    }

    method Mark(which: int)
      requires Valid() && 0 <= which < numBits
      modifies words
      ensures Marked() == old(Marked()) + {which}
    {
      MarkedAfterSet(words[..], numBits, which);
      ghost var before := words[..];
      words[which / 32] := SetBit(words[which / 32], which % 32);
      assert words[..] == before[which / 32 := SetBit(before[which / 32], which % 32)];
    }

    method Clear(which: int)
      requires Valid() && 0 <= which < numBits
      modifies words
      ensures Marked() == old(Marked()) - {which}
    {
      MarkedAfterClear(words[..], numBits, which);
      ghost var before := words[..];
      words[which / 32] := ClearBit(words[which / 32], which % 32);
      assert words[..] == before[which / 32 := ClearBit(before[which / 32], which % 32)];
    }

    method Test(which: int) returns (marked: bool)
      requires Valid() && 0 <= which < numBits
      ensures marked <==> which in Marked()
    {
      MarkedMember(words[..], numBits);
      assert which in Marked() <==> BitOf(words[..], which);
      marked := HasBit(words[which / 32], which % 32);
    }

    /** Marks and returns the least clear item; -1, and no change, when there is none. */
    method Find() returns (found: int)
      requires Valid()
      modifies words
      ensures found == -1 <==> old(Marked()) == Items(numBits)
      ensures found == -1 ==> Marked() == old(Marked())
      ensures found != -1 ==>
                && 0 <= found < numBits
                && found !in old(Marked())
                && (forall j: nat :: j < found ==> j in old(Marked()))
                && Marked() == old(Marked()) + {found}
      ensures found != -1 ==> Clear0() == old(Clear0()) - 1
    {
      ghost var marks := Marked();
      for i := 0 to numBits
        invariant unchanged(words)
        invariant forall j: nat | j < i :: j in marks
      {
        var marked := Test(i);
        if !marked {
          Mark(i);
          assert Items(numBits) - (marks + {i}) == (Items(numBits) - marks) - {i};
          return i;
        }
      }
      assert marks == Items(numBits);
      return -1;
    }

    /** Find where an item is known to be clear. */
    method FindClear() returns (found: nat)
      requires Valid() && 0 < Clear0()
      modifies words
      ensures found < numBits && found !in old(Marked()) && Marked() == old(Marked()) + {found}
      ensures Clear0() == old(Clear0()) - 1
    {
      ghost var marks := Marked();
      assert marks != Items(numBits);
      var least := Find();
      found := least;
    }

    method NumClear() returns (count: int)
      requires Valid()
      ensures count == Clear0()
    {
      count := 0;
      ghost var seen: set<nat> := {};
      for i := 0 to numBits
        invariant seen == set j: nat | j < i && j !in Marked()
        invariant count == |seen|
      {
        var marked := Test(i);
        if !marked {
          count := count + 1;
          seen := seen + {i};
        }
      }
      assert seen == Items(numBits) - Marked();
    }
  }
}
