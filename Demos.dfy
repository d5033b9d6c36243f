/** Proved scenarios on both lists: the drivers at the bottom of LinkList.js and
    DoublyLinkList.js, round trips, and small inputs on which the source's
    defects and boundary choices show. */
module Demos {
  import opened ListSpec
  import Singly
  import Doubly

  /** The driver of LinkList.js: insert 10 with the default index, append 30 and
      40, prepend 5, then reverse. */
  method SinglyDriver() returns (before: seq<int>, after: seq<int>)
    ensures before == [5, 10, 30, 40] && after == [40, 30, 10, 5]
  {
    var list := new Singly.LinkedList<int>();
    list.Insert(10, None);
    assert list.contents == [10];
    list.Append(30);
    list.Append(40);
    assert list.contents == [10, 30, 40];
    list.Prepend(5);
    before := list.Values();
    assert before == [5, 10, 30, 40];
    list.Reverse();
    after := list.Values();
    ReversedFour(5, 10, 30, 40);
  }

  /** The reversal holds the same elements, so a second reversal touches only the
      original nodes. */
  lemma ReversedElements<X>(s: seq<X>)
    ensures forall x :: x in Reversed(s) ==> x in s
  {
    forall x | x in Reversed(s) ensures x in s {
      assert x in multiset(Reversed(s));
    }
  }

  lemma ReversedFour(a: int, b: int, c: int, d: int)
    ensures Reversed([a, b, c, d]) == [d, c, b, a]
  {
    assert [a, b, c, d][1..] == [b, c, d];
    ReversedThree(b, c, d);
  }

  lemma ReversedThree(a: int, b: int, c: int)
    ensures Reversed([a, b, c]) == [c, b, a]
  {
    assert [a, b, c][1..] == [b, c];
    ReversedTwo(b, c);
  }

  lemma ReversedTwo(a: int, b: int)
    ensures Reversed([a, b]) == [b, a]
  {
    assert [a, b][1..] == [b];
    assert Reversed([b]) == [b];
  }

  /** The driver of DoublyLinkList.js: three `insertAt` calls with the default
      index, then reverse. */
  method DoublyDriver() returns (before: seq<int>, after: seq<int>)
    ensures before == [10, 20, 30] && after == [30, 20, 10]
  {
    var list := new Doubly.DoublyLinkList<int>();
    list.InsertAt(10, None);
    assert list.contents == [10];
    list.InsertAt(20, None);
    assert list.contents == [10, 20];
    list.InsertAt(30, None);
    before := list.Values();
    assert before == [10, 20, 30];
    list.Reverse();
    after := list.Values();
    ReversedThree(10, 20, 30);
  }

  /** Filling an empty list from an array and reading it back with `toArray` gives
      nodes holding the array's values in order, for both lists. */
  method FromArrayRoundTrip<T(==)>(arr: seq<T>) returns (singly: seq<Singly.Node<T>>, doubly: seq<Doubly.Node<T>>)
    ensures |singly| == |arr| && forall i :: 0 <= i < |arr| ==> singly[i].value == arr[i]
    ensures |doubly| == |arr| && forall i :: 0 <= i < |arr| ==> doubly[i].value == arr[i]
  {
    var s := new Singly.LinkedList<T>();
    s.FromArray(arr);
    singly := s.ToArray();
    var d := new Doubly.DoublyLinkList<T>();
    d.FromArray(arr);
    doubly := d.ToArray();
  }

  /** Reversing a singly linked list twice restores every node and link. */
  method SinglyReverseTwice<T(==)>(list: Singly.LinkedList<T>)
    requires list.Valid()
    modifies list, set n | n in list.spine
    ensures list.Valid() && list.spine == old(list.spine) && list.contents == old(list.contents)
    ensures list.head == old(list.head) && list.tail == old(list.tail)
  {
    ghost var s := list.spine;
    list.Reverse();
    ReversedElements(s);
    list.Reverse();
    ReversedInvolution(old(list.spine));
    ReversedInvolution(old(list.contents));
  }

  /** Reversing a doubly linked list twice restores every node and both links. */
  method DoublyReverseTwice<T(==)>(list: Doubly.DoublyLinkList<T>)
    requires list.Valid() && list.BackLinked()
    modifies list, set n | n in list.spine
    ensures list.Valid() && list.BackLinked()
    ensures list.spine == old(list.spine) && list.contents == old(list.contents)
    ensures list.head == old(list.head) && list.tail == old(list.tail)
  {
    ghost var s := list.spine;
    list.Reverse();
    ReversedElements(s);
    list.Reverse();
    ReversedInvolution(old(list.spine));
    ReversedInvolution(old(list.contents));
  }

  /** `deleteHead` undoes `prepend`, and `deleteTail` undoes `append`: the same
      nodes, in the same order, with the same head and tail. */
  method SinglyDeleteUndoesInsert<T(==)>(list: Singly.LinkedList<T>, v: T)
    requires list.Valid()
    modifies list, list.spine
    ensures list.Valid() && list.contents == old(list.contents)
    ensures list.spine == old(list.spine) && list.head == old(list.head) && list.tail == old(list.tail)
  {
    list.Prepend(v);
    var first := list.DeleteHead();
    list.Append(v);
    var last := list.DeleteTail();
  }

  /** Scenarios on tiny lists: deleting from an empty list, the only node, and an
      index equal to the size. */
  method SinglyEdgeCases() returns (fromEmpty: bool, headAfter: bool, outOfRange: bool, size: nat)
    ensures fromEmpty && headAfter && outOfRange && size == 2
  {
    var list := new Singly.LinkedList<int>();
    var r := list.DeleteHead();
    fromEmpty := r == null && list.head == null;
    list.Append(7);
    var only := list.head;
    r := list.DeleteTail();
    headAfter := r == only && list.head == null && list.tail == null;
    list.FromArray([1, 2]);
    r := list.DeleteNodeByIndex(2);
    outOfRange := r == null;
    size := list.GetSize();
  }

  /** `insert(v, size-1)` on the singly linked list places `v` before the last
      element, but `insertAt(v, size-1)` on the doubly linked list appends it. */
  method InsertBoundaries() returns (singly: seq<int>, doubly: seq<int>)
    ensures singly == [1, 2, 9, 3] && doubly == [1, 2, 3, 9]
  {
    var s := new Singly.LinkedList<int>();
    s.FromArray([1, 2, 3]);
    s.Insert(9, Some(2));
    singly := s.Values();
    var d := new Doubly.DoublyLinkList<int>();
    d.FromArray([1, 2, 3]);
    d.InsertAt(9, Some(2));
    doubly := d.Values();
  }

  /** The two lists place an inserted value at the same position for every index
      except `size - 1` on a list of two or more nodes. */
  lemma InsertPositionsDiffer(index: Option<int>, size: nat)
    ensures Singly.LinkedList<int>.InsertPosition(index, size) != Doubly.DoublyLinkList<int>.InsertAtPosition(index, size)
      <==> size >= 2 && index == Some(size - 1)
  {
  }

  /** Deleting 7 from [1, 7, 2, 7] on the singly linked list removes the first
      occurrence. */
  method SinglyDeletesFirstOccurrence() returns (values: seq<int>)
    ensures values == [1, 2, 7]
  {
    var arr := [1, 7, 2, 7];
    assert arr[..1] == [1];
    IndexOfUnique(arr, 7, 1);
    assert RemovedAt(arr, 1) == [1, 2, 7];
    var list := new Singly.LinkedList<int>();
    list.FromArray(arr);
    var r := list.DeleteNodeByValue(7);
    values := list.Values();
  }

  /** The same deletion on the doubly linked list removes the tail, the last
      occurrence. */
  method DoublyDeletesLastOccurrence() returns (values: seq<int>)
    ensures values == [1, 7, 2]
  {
    var arr := [1, 7, 2, 7];
    assert Doubly.DoublyLinkList<int>.ValueDeletePosition(arr, 7) == 3;
    assert RemovedAt(arr, 3) == [1, 7, 2];
    var list := new Doubly.DoublyLinkList<int>();
    list.FromArray(arr);
    var r := list.DeleteNodeByValue(7);
    values := list.Values();
  }

  /** Each delete of the singly linked list returns the removed node with its
      value in place: head, tail, by index, then by value, on [1, 2, 3, 4]. */
  method SinglyDeletedValues() returns (values: seq<int>)
    ensures values == [1, 4, 3, 2]
  {
    var list := new Singly.LinkedList<int>();
    list.FromArray([1, 2, 3, 4]);
    var r := list.DeleteHead();
    var first := r.value;
    assert list.contents == [2, 3, 4];
    r := list.DeleteTail();
    var last := r.value;
    assert list.contents == [2, 3];
    r := list.DeleteNodeByIndex(1);
    var byIndex := r.value;
    assert list.contents == [2];
    r := list.DeleteNodeByValue(2);
    values := [first, last, byIndex, r.value];
  }

  /** The same four deletes on the doubly linked list. */
  method DoublyDeletedValues() returns (values: seq<int>)
    ensures values == [1, 4, 3, 2]
  {
    var list := new Doubly.DoublyLinkList<int>();
    list.FromArray([1, 2, 3, 4]);
    var r := list.DeleteHead();
    var first := r.value;
    assert list.contents == [2, 3, 4];
    r := list.DeleteTail();
    var last := r.value;
    assert list.contents == [2, 3];
    r := list.DeleteNodeByIndex(1);
    var byIndex := r.value;
    assert list.contents == [2];
    r := list.DeleteNodeByValue(2);
    values := [first, last, byIndex, r.value];
  }

  /** Deleting the value held only by the last of two nodes leaves `tail` on the
      removed node. */
  method StaleTail() returns (stale: bool)
    ensures stale
  {
    var list := new Singly.LinkedList<int>();
    list.FromArray([1, 2]);
    var removed := list.DeleteNodeByValue(2);
    stale := removed != null && list.tail == removed;
  }

  /** With the repair, the same deletion leaves `tail` on the node holding 1. */
  method StaleTailRepaired() returns (tailValue: int)
    ensures tailValue == 1
  {
    var list := new Singly.LinkedList<int>();
    list.FromArray([1, 2]);
    var removed := list.DeleteNodeByValueCorrected(2);
    tailValue := list.tail.value;
  }

  /** `insertAt(9, 1)` on [1, 2, 3]: reading forward gives 1, 9, 2, 3, but walking
      `prev` back from the tail gives 3, 2, 1, because the node holding 2 still
      has the node holding 1 as its `prev`. */
  method MissingBackLink() returns (forward: seq<int>, backward: seq<int>, stops: bool)
    ensures forward == [1, 9, 2, 3] && backward == [3, 2, 1] && stops
  {
    var list := new Doubly.DoublyLinkList<int>();
    list.FromArray([1, 2, 3]);
    list.InsertAt(9, Some(1));
    forward := list.Values();
    var last := list.tail;
    var second := last.prev;
    var first := second.prev;
    backward := [last.value, second.value, first.value];
    stops := first.prev == null;
  }

  /** With the repair, walking `prev` back from the tail visits all four values. */
  method MissingBackLinkRepaired() returns (forward: seq<int>, backward: seq<int>, stops: bool)
    ensures forward == [1, 9, 2, 3] && backward == [3, 2, 9, 1] && stops
  {
    var list := new Doubly.DoublyLinkList<int>();
    list.FromArray([1, 2, 3]);
    list.InsertAtCorrected(9, Some(1));
    forward := list.Values();
    var last := list.tail;
    var third := last.prev;
    var second := third.prev;
    var first := second.prev;
    backward := [last.value, third.value, second.value, first.value];
    stops := first.prev == null;
  }
}
