/** The singly-linked list with first and last pointers of threads/list.cc. */
module LinkedList {
  import opened Common

  /** One list element as a value. */
  datatype Cell<T> = Cell(item: T, key: int)

  predicate SortedByKey<T>(c: seq<Cell<T>>) {
    forall i, j :: 0 <= i < j < |c| ==> c[i].key <= c[j].key
  }

  function Items<T>(c: seq<Cell<T>>): (r: seq<T>)
    ensures |r| == |c|
  {
    seq(|c|, i requires 0 <= i < |c| => c[i].item)
  }

  lemma ItemsOfEnds<T>(c: seq<Cell<T>>, x: Cell<T>)
    ensures Items(c + [x]) == Items(c) + [x.item]
    ensures c != [] ==> Items(c[1..]) == Items(c)[1..] && Items(c)[0] == c[0].item
  {
  }

  /** The index of the first element with a larger key, or the length. */
  function Place<T>(c: seq<Cell<T>>, key: int): (p: nat)
    ensures p <= |c|
    ensures forall i :: 0 <= i < p ==> c[i].key <= key
    ensures p < |c| ==> key < c[p].key
  {
    if c == [] || key < c[0].key then 0 else 1 + Place(c[1..], key)
  }

  function Inserted<T>(c: seq<Cell<T>>, x: Cell<T>): seq<Cell<T>> {
    c[..Place(c, x.key)] + [x] + c[Place(c, x.key)..]
  }

  lemma PlaceUnique<T>(c: seq<Cell<T>>, key: int, p: nat)
    requires p <= |c| && (forall i :: 0 <= i < p ==> c[i].key <= key)
    requires p < |c| ==> key < c[p].key
    ensures Place(c, key) == p
  {
    assert Place(c, key) <= p <= Place(c, key);
  }

  /** Inserting into a sorted list keeps it sorted. */
  lemma InsertedSorted<T>(c: seq<Cell<T>>, x: Cell<T>)
    requires SortedByKey(c)
    ensures SortedByKey(Inserted(c, x))
  {
    var p, d := Place(c, x.key), Inserted(c, x);
    forall i, j | 0 <= i < j < |d| ensures d[i].key <= d[j].key {
      assert d[i] == if i < p then c[i] else if i == p then x else c[i - 1];
      assert d[j] == if j < p then c[j] else if j == p then x else c[j - 1];
    }
  }

  /** Inserting adds exactly the new element. */
  lemma InsertedElements<T>(c: seq<Cell<T>>, x: Cell<T>)
    ensures multiset(Inserted(c, x)) == multiset(c) + multiset{x}
  {
    var p := Place(c, x.key);
    assert c == c[..p] + c[p..];
  }

  class ListElement<T> {
    var next: ListElement?<T>
    var key: int
    var item: T

    constructor (item: T, key: int)
      ensures this.item == item && this.key == key && next == null
    {
      this.item, this.key, next := item, key, null;
    }
  }

  /** The element after position i of a chain. */
  ghost function Successor<T>(nodes: seq<ListElement<T>>, i: nat): ListElement?<T> {
    if i + 1 < |nodes| then nodes[i + 1] else null
  }

  /** Distinct elements, each pointing to the next. */
  ghost predicate Chain<T>(nodes: seq<ListElement<T>>)
    reads nodes
  {
    && (forall i, j :: 0 <= i < j < |nodes| ==> nodes[i] != nodes[j])
    && (forall i {:trigger nodes[i].next} :: 0 <= i < |nodes| ==> nodes[i].next == Successor(nodes, i))
  }

  ghost function Cells<T>(nodes: seq<ListElement<T>>): (c: seq<Cell<T>>)
    reads nodes
    ensures |c| == |nodes|
    ensures forall i :: 0 <= i < |nodes| ==> c[i] == Cell(nodes[i].item, nodes[i].key)
  {
    seq(|nodes|, i requires 0 <= i < |nodes| reads nodes => Cell(nodes[i].item, nodes[i].key))
  }

  /** From first to last, the chain of nodes holds the contents. */
  ghost predicate Linked<T>(first: ListElement?<T>, last: ListElement?<T>, nodes: seq<ListElement<T>>,
                            contents: seq<Cell<T>>)
    reads nodes
  {
    && Chain(nodes) && contents == Cells(nodes)
    && first == (if nodes == [] then null else nodes[0])
    && last == (if nodes == [] then null else nodes[|nodes| - 1])
  }

  /** The same, element by element from the front. */
  ghost predicate ChainOf<T>(first: ListElement?<T>, nodes: seq<ListElement<T>>, contents: seq<Cell<T>>)
    reads nodes
    decreases |nodes|
  {
    if nodes == [] then first == null && contents == []
    else
      && first == nodes[0] && nodes[0] !in nodes[1..]
      && contents != [] && contents[0] == Cell(nodes[0].item, nodes[0].key)
      && ChainOf(nodes[0].next, nodes[1..], contents[1..])
  }

  lemma {:induction false} ChainIsLinked<T>(first: ListElement?<T>, nodes: seq<ListElement<T>>, contents: seq<Cell<T>>)
    requires ChainOf(first, nodes, contents)
    ensures Chain(nodes) && contents == Cells(nodes) && first == if nodes == [] then null else nodes[0]
    decreases |nodes|
  {
    if nodes != [] {
      var rest := nodes[1..];
      ChainIsLinked(nodes[0].next, rest, contents[1..]);
      forall i | 0 <= i < |nodes| ensures nodes[i].next == Successor(nodes, i) && contents[i] == Cell(nodes[i].item, nodes[i].key) {
        if i > 0 {
          assert nodes[i] == rest[i - 1] && rest[i - 1].next == Successor(rest, i - 1);
          assert contents[i] == contents[1..][i - 1];
        }
      }
      forall i, j | 0 <= i < j < |nodes| ensures nodes[i] != nodes[j] {
        assert nodes[j] == rest[j - 1];
      }
    }
  }

  lemma {:induction false} LinkedIsChain<T>(first: ListElement?<T>, nodes: seq<ListElement<T>>, contents: seq<Cell<T>>)
    requires Chain(nodes) && contents == Cells(nodes) && first == if nodes == [] then null else nodes[0]
    ensures ChainOf(first, nodes, contents)
    decreases |nodes|
  {
    if nodes != [] {
      var rest := nodes[1..];
      assert nodes[0].next == Successor(nodes, 0);
      forall i | 0 <= i < |rest| ensures rest[i].next == Successor(rest, i) {
        assert rest[i] == nodes[i + 1] && nodes[i + 1].next == Successor(nodes, i + 1);
      }
      assert contents[1..] == Cells(rest);
      LinkedIsChain(nodes[0].next, rest, contents[1..]);
    }
  }

  function InsertAt<T>(s: seq<T>, p: nat, x: T): seq<T>
    requires p <= |s|
  {
    s[..p] + [x] + s[p..]
  }

  /** Where a new element e belongs at position p and the pointers have been set accordingly,
      the longer sequence is the list. */
  lemma LinkedInserted<T>(first: ListElement?<T>, last: ListElement?<T>, nodes: seq<ListElement<T>>,
                          contents: seq<Cell<T>>, e: ListElement<T>, p: nat)
    requires p <= |nodes| && e !in nodes && contents == Cells(nodes)
    requires forall i, j :: 0 <= i < j < |nodes| ==> nodes[i] != nodes[j]
    requires forall i {:trigger nodes[i].next} :: 0 <= i < |nodes| ==>
               nodes[i].next == if i + 1 == p then e else Successor(nodes, i)
    requires e.next == if p < |nodes| then nodes[p] else null
    requires first == (if p == 0 then e else nodes[0])
    requires last == (if p == |nodes| then e else nodes[|nodes| - 1])
    ensures Linked(first, last, InsertAt(nodes, p, e), InsertAt(contents, p, Cell(e.item, e.key)))
  {
    ChainInserted(nodes, e, p);
    CellsInserted(nodes, e, p);
  }

  lemma ChainInserted<T>(nodes: seq<ListElement<T>>, e: ListElement<T>, p: nat)
    requires p <= |nodes| && e !in nodes
    requires forall i, j :: 0 <= i < j < |nodes| ==> nodes[i] != nodes[j]
    requires forall i {:trigger nodes[i].next} :: 0 <= i < |nodes| ==>
               nodes[i].next == if i + 1 == p then e else Successor(nodes, i)
    requires e.next == if p < |nodes| then nodes[p] else null
    ensures Chain(InsertAt(nodes, p, e))
  {
    var longer := InsertAt(nodes, p, e);
    forall i | 0 <= i < |longer| ensures longer[i].next == Successor(longer, i) {
      if i < p {
        assert longer[i] == nodes[i];
      } else if p < i {
        assert longer[i] == nodes[i - 1];
      }
    }
  }

  lemma CellsInserted<T>(nodes: seq<ListElement<T>>, e: ListElement<T>, p: nat)
    requires p <= |nodes|
    ensures Cells(InsertAt(nodes, p, e)) == InsertAt(Cells(nodes), p, Cell(e.item, e.key))
  {
    var c, d := Cells(InsertAt(nodes, p, e)), InsertAt(Cells(nodes), p, Cell(e.item, e.key));
    assert |c| == |d| && forall i :: 0 <= i < |c| ==> c[i] == d[i];
  }

  lemma InsertAtMembers<T>(s: seq<T>, p: nat, x: T)
    requires p <= |s|
    ensures forall n :: n in InsertAt(s, p, x) ==> n in s || n == x
  {
  }

  class List<T> {
    var first: ListElement?<T>
    var last: ListElement?<T>
    ghost var nodes: seq<ListElement<T>>
    ghost var contents: seq<Cell<T>>
    ghost var repr: set<object>

    ghost predicate Valid()
      reads this, repr
    {
      && this in repr && (forall n :: n in nodes ==> n in repr)
      && Held()
    }

    /** The pointers hold the contents. */
    ghost predicate Held()
      reads this`first, this`last, this`nodes, this`contents, nodes
    {
      ChainOf(first, nodes, contents) && last == if nodes == [] then null else nodes[|nodes| - 1]
    }

    constructor ()
      ensures Valid() && contents == [] && fresh(repr)
    {
      first, last, nodes, contents, repr := null, null, [], [], {this};
    }

    method IsEmpty() returns (empty: bool)
      requires Valid()
      ensures empty <==> contents == []
    {
      empty := first == null;
    }

    method Append(item: T)
      requires Valid()
      modifies repr
      ensures Valid() && fresh(repr - old(repr))
      ensures contents == old(contents) + [Cell(item, 0)]
    {
      var element := new ListElement(item, 0);
      AppendElement(element);
      repr := repr + {element};
    }

    method AppendElement(element: ListElement<T>)
      requires Held() && element !in nodes && element.next == null
      modifies this`first, this`last, this`nodes, this`contents, nodes, element
      ensures Held() && contents == old(contents) + [old(Cell(element.item, element.key))]
      ensures forall n :: n in nodes ==> n in old(nodes) || n == element
    {
      ChainIsLinked(first, nodes, contents);
      InsertAtMembers(nodes, |nodes|, element);
      if first == null {
        first := element;
        last := element;
        Commit(element, 0);
      } else {
        LinkAfter(last, |nodes| - 1, element);
      }
      LinkedIsChain(first, nodes, contents);
    }

    /** Hooks a fresh element in behind ptr; the last element gets it through last. */
    method LinkAfter(ptr: ListElement<T>, ghost i: nat, element: ListElement<T>)
      requires Linked(first, last, nodes, contents) && i < |nodes| && ptr == nodes[i]
      requires element !in nodes && element.next == null
      modifies this`last, this`nodes, this`contents, nodes, element
      ensures Linked(first, last, nodes, contents)
      ensures nodes == InsertAt(old(nodes), i + 1, element)
      ensures contents == InsertAt(old(contents), i + 1, old(Cell(element.item, element.key)))
    {
      ghost var cell := Cell(element.item, element.key);
      Relink(ptr, i, element);
      assert cell == Cell(element.item, element.key);
      Commit(element, i + 1);
    }

    /** Ghost only: the pointers are set, so the longer sequence is the list. */
    ghost method Commit(element: ListElement<T>, p: nat)
      requires p <= |nodes| && element !in nodes && contents == Cells(nodes)
      requires forall i, j :: 0 <= i < j < |nodes| ==> nodes[i] != nodes[j]
      requires forall i {:trigger nodes[i].next} :: 0 <= i < |nodes| ==>
                 nodes[i].next == if i + 1 == p then element else Successor(nodes, i)
      requires element.next == if p < |nodes| then nodes[p] else null
      requires first == (if p == 0 then element else nodes[0])
      requires last == (if p == |nodes| then element else nodes[|nodes| - 1])
      modifies this`nodes, this`contents
      ensures Linked(first, last, nodes, contents) && nodes == InsertAt(old(nodes), p, element)
      ensures contents == InsertAt(old(contents), p, Cell(element.item, element.key))
    {
      LinkedInserted(first, last, nodes, contents, element, p);
      nodes, contents := InsertAt(nodes, p, element), InsertAt(contents, p, Cell(element.item, element.key));
    }

    method Relink(ptr: ListElement<T>, ghost i: nat, element: ListElement<T>)
      requires Linked(first, last, nodes, contents) && i < |nodes| && ptr == nodes[i]
      requires element !in nodes && element.next == null
      modifies this`last, ptr, element
      ensures element.next == Successor(nodes, i)
      ensures forall j {:trigger nodes[j].next} :: 0 <= j < |nodes| ==>
                nodes[j].next == if j == i then element else Successor(nodes, j)
      ensures contents == Cells(nodes)
      ensures element.item == old(element.item) && element.key == old(element.key)
      ensures last == if i + 1 < |nodes| then old(last) else element
    {
      assert ptr.next == Successor(nodes, i);
      if ptr.next != null {
        element.next := ptr.next;
        ptr.next := element;
      } else {
        last.next := element;
        last := element;
      }
    }

    method SortedInsert(item: T, sortKey: int)
      requires Valid()
      modifies repr
      ensures Valid() && fresh(repr - old(repr))
      ensures contents == Inserted(old(contents), Cell(item, sortKey))
    {
      var element := new ListElement(item, sortKey);
      InsertElement(element);
      repr := repr + {element};
    }

    method InsertElement(element: ListElement<T>)
      requires Held() && element !in nodes && element.next == null
      modifies this`first, this`last, this`nodes, this`contents, nodes, element
      ensures Held() && contents == Inserted(old(contents), old(Cell(element.item, element.key)))
      ensures forall n :: n in nodes ==> n in old(nodes) || n == element
    {
      ChainIsLinked(first, nodes, contents);
      ghost var before, p := nodes, 0;
      if first == null {
        InsertFront(element);
      } else if element.key < first.key {
        InsertFront(element);
      } else {
        var ptr, i := FindPredecessor(element.key);
        p := i + 1;
        PlaceUnique(contents, element.key, p);
        LinkAfter(ptr, i, element);
      }
      InsertAtMembers(before, p, element);
      LinkedIsChain(first, nodes, contents);
    }

    method InsertFront(element: ListElement<T>)
      requires Linked(first, last, nodes, contents) && element !in nodes && element.next == null
      requires Place(contents, element.key) == 0
      modifies this`first, this`last, this`nodes, this`contents, element
      ensures Linked(first, last, nodes, contents) && nodes == InsertAt(old(nodes), 0, element)
      ensures contents == Inserted(old(contents), old(Cell(element.item, element.key)))
    {
      if first == null {
        first := element;
        last := element;
      } else {
        element.next := first;
        first := element;
      }
      assert Cells(nodes) == contents;
      Commit(element, 0);
    }

    /** The walk of SortedInsert: the element after which a key goes that is not smaller
        than the first one. */
    method FindPredecessor(sortKey: int) returns (ptr: ListElement<T>, ghost i: nat)
      requires Linked(first, last, nodes, contents) && first != null && first.key <= sortKey
      ensures i < |nodes| && ptr == nodes[i]
      ensures forall j :: 0 <= j <= i ==> contents[j].key <= sortKey
      ensures i + 1 < |nodes| ==> sortKey < contents[i + 1].key
    {
      ptr, i := first, 0;
      while ptr.next != null
        invariant i < |nodes| && ptr == nodes[i]
        invariant forall j :: 0 <= j <= i ==> contents[j].key <= sortKey
        decreases |nodes| - i
      {
        if sortKey < ptr.next.key {
          return;
        }
        ptr, i := ptr.next, i + 1;
      }
    }

    method SortedRemove() returns (thing: Option<Cell<T>>)
      requires Valid()
      modifies this
      ensures Valid() && repr == old(repr)
      ensures if old(contents) == [] then thing == None && contents == []
              else thing == Some(old(contents)[0]) && contents == old(contents)[1..]
    {
      if first == null {
        return None;
      }
      ChainIsLinked(first, nodes, contents);
      thing := Some(Cell(first.item, first.key));
      if first == last {
        first := null;
        last := null;
      } else {
        first := first.next;
      }
      nodes, contents := nodes[1..], contents[1..];
    }

    method Remove() returns (thing: Option<T>)
      requires Valid()
      modifies this
      ensures Valid() && repr == old(repr)
      ensures if old(contents) == [] then thing == None && contents == []
              else thing == Some(old(contents)[0].item) && contents == old(contents)[1..]
    {
      var cell := SortedRemove();
      thing := if cell.Some? then Some(cell.value.item) else None;
    }
  }
}
