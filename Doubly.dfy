/** The doubly linked list of DoublyLinkList.js: the singly linked chain plus a
    `prev` link on every node that the mutators keep in step with `next`. */
module Doubly {
  import opened ListSpec

  class Node<T> {
    var value: T
    var next: Node?<T>
    var prev: Node?<T>

    constructor (value: T, next: Node?<T>, prev: Node?<T>)
      ensures this.value == value && this.next == next && this.prev == prev
    {
      this.value := value;
      this.next := next;
      this.prev := prev;
    }
  }

  class DoublyLinkList<T(==)> {
    var head: Node?<T>
    var tail: Node?<T>
    /** The nodes reachable from `head` through `next`, in order. */
    ghost var spine: seq<Node<T>>
    /** The values those nodes hold, in order. */
    ghost var contents: seq<T>

    /** The forward part of the list invariant: distinct nodes, `head` first and
        `tail` last, each `next` the following node and the last one null, and
        `contents` their values. */
    ghost predicate Valid()
      reads this, spine
    {
      |contents| == |spine| &&
      Distinct(spine) &&
      head == (if spine == [] then null else spine[0]) &&
      tail == (if spine == [] then null else spine[|spine| - 1]) &&
      (forall i {:trigger spine[i].next} :: 0 <= i < |spine| ==>
        spine[i].next == if i + 1 < |spine| then spine[i + 1] else null) &&
      (forall i :: 0 <= i < |spine| ==> spine[i].value == contents[i])
    }

    /** The back-link part: each `prev` is the preceding node, and null on `head`. */
    ghost predicate BackLinked()
      reads this, spine
    {
      forall i {:trigger spine[i].prev} :: 0 <= i < |spine| ==>
        spine[i].prev == if 0 < i then spine[i - 1] else null
    }

    /** The node at position `k` as a set, empty outside the list: the frames of
        the mutators name the nodes they relink with it. */
    ghost function NodeAt(k: int): set<Node<T>>
      reads this
    {
      if 0 <= k < |spine| then {spine[k]} else {}
    }

    constructor ()
      ensures Valid() && BackLinked() && spine == [] && contents == []
    {
      head, tail := null, null;
      spine, contents := [], [];
    }

    /** Counts the nodes by walking `next` from `head`. */
    method GetSize() returns (size: nat)
      requires Valid()
      ensures size == |contents|
    {
      size := 0;
      var node := head;
      while node != null
        invariant size <= |spine|
        invariant node == if size < |spine| then spine[size] else null
        decreases |spine| - size
      {
        node := node.next;
        size := size + 1;
      }
    }

    /** The node at position `index`, or null when `index` is outside `[0, size-1]`. */
    method GetNodeByIndex(index: int) returns (node: Node?<T>)
      requires Valid()
      ensures node == if 0 <= index < |spine| then spine[index] else null
    {
      var size: int := GetSize();
      if index < 0 || index > size - 1 {
        return null;
      } else if index == 0 {
        return head;
      } else if index == size - 1 {
        return tail;
      }
      node := head;
      var count := 0;
      while count != index
        invariant 0 <= count <= index && node == spine[count]
        decreases index - count
      {
        node := node.next;
        count := count + 1;
      }
    }

    /** The first node holding `value`, or null. Reads `head.value` first, so the
        list must not be empty. */
    method GetNodeByValue(value: T) returns (node: Node?<T>)
      requires Valid() && contents != []
      ensures var k := IndexOf(contents, value); node == if k < 0 then null else spine[k]
    {
      if head.value == value {
        IndexOfUnique(contents, value, 0);
        return head;
      }
      node := head;
      ghost var count := 0;
      while node.value != value
        invariant 0 <= count < |spine| && node == spine[count]
        invariant value !in contents[..count]
        decreases |spine| - count
      {
        assert contents[..count + 1] == contents[..count] + [contents[count]];
        node := node.next;
        if node == null {
          assert count == |spine| - 1;
          assert contents == contents[..count + 1];
          return null;
        }
        count := count + 1;
      }
      IndexOfUnique(contents, value, count);
    }

    /** Puts a new node holding `value` in front of `head` and points the old
        head's `prev` at it. */
    method Prepend(value: T)
      requires Valid()
      modifies this, NodeAt(0)`prev
      ensures Valid() && (old(BackLinked()) ==> BackLinked())
      ensures contents == [value] + old(contents)
      ensures head != null && fresh(head) && head.prev == null && spine == [head] + old(spine)
      ensures old(head) != null ==> old(head).prev == head
      ensures old(spine) == [] ==> tail == head
    {
      ghost var s := spine;
      if head == null {
        head := new Node(value, null, null);
        tail := head;
      } else {
        var node := head;
        head := new Node(value, node, null);
        node.prev := head;
      }
      spine := [head] + spine;
      contents := [value] + contents;
      if old(BackLinked()) {
        forall i | 1 < i < |spine| ensures spine[i].prev == spine[i - 1] {
          assert spine[i] == s[i - 1] && spine[i - 1] == s[i - 2];
        }
      }
    }

    /** Links a new node holding `value` after `tail`, with `prev` pointing back
        at the old tail. */
    method Append(value: T)
      requires Valid()
      modifies this, NodeAt(|spine| - 1)`next
      ensures Valid() && (old(BackLinked()) ==> BackLinked())
      ensures contents == old(contents) + [value]
      ensures tail != null && fresh(tail) && tail.prev == old(tail) && spine == old(spine) + [tail]
      ensures old(tail) != null ==> old(tail).next == tail
      ensures old(spine) == [] ==> head == tail
    {
      if head == null {
        head := new Node(value, null, null);
        tail := head;
      } else {
        var node := tail;
        var newNode := new Node(value, null, node);
        node.next := newNode;
        tail := newNode;
      }
      spine := spine + [tail];
      contents := contents + [value];
    }

    /** Where `insertAt` puts its value: an index at or below 0 prepends, and an
        absent index (the source's default `Infinity`) or one at or past `size - 1`
        appends, so a positive index of `size - 1` puts the value last. */
    static function InsertAtPosition(index: Option<int>, size: nat): (p: nat)
      ensures p <= size
      ensures index.Some? && 0 <= index.value <= size && !(0 < index.value == size - 1) ==> p == index.value
      ensures index.Some? && 0 < index.value == size - 1 ==> p == size
      ensures index.Some? && index.value < 0 ==> p == 0
      ensures index.None? || index.value > size ==> p == size
    {
      match index
      case None => size
      case Some(i) => if i <= 0 then 0 else if i >= size - 1 then size else i
    }

    /** Inserts a new node holding `value` at `InsertAtPosition(index, size)`. In
        the middle case the new node's `prev` is set but its successor's `prev` is
        not: it still points at the predecessor, so back-links no longer hold. */
    method InsertAt(value: T, index: Option<int>)
      requires Valid()
      modifies this, NodeAt(InsertAtPosition(index, |spine|) - 1)`next, NodeAt(InsertAtPosition(index, |spine|))`prev
      ensures Valid()
      ensures var p := InsertAtPosition(index, |old(spine)|);
        p < |spine| && fresh(spine[p]) &&
        spine == Inserted(old(spine), p, spine[p]) &&
        contents == Inserted(old(contents), p, value)
      ensures var p := InsertAtPosition(index, |old(spine)|);
        0 < p < |old(spine)| ==>
          spine[p].prev == spine[p - 1] && spine[p + 1].prev == old(spine[p].prev)
      ensures old(BackLinked()) ==>
        (BackLinked() <==> InsertAtPosition(index, |old(spine)|) in {0, |old(spine)|})
      ensures var p := InsertAtPosition(index, |old(spine)|);
        old(BackLinked()) && 0 < p < |old(spine)| ==>
          forall i {:trigger spine[i].prev} :: 0 <= i < |spine| && i != p + 1 ==>
            spine[i].prev == if 0 < i then spine[i - 1] else null
    {
      ghost var p := InsertAtPosition(index, |spine|);
      if index.Some? && index.value <= 0 {
        assert p == 0;
        Prepend(value);
        assert spine == Inserted(old(spine), 0, spine[0]);
        assert contents == Inserted(old(contents), 0, value);
        return;
      }
      var size: int := GetSize();
      if index.None? || index.value >= size - 1 {
        assert p == size;
        Append(value);
        assert spine == Inserted(old(spine), size, spine[size]);
        assert contents == Inserted(old(contents), size, value);
        return;
      }
      assert p == index.value;
      InsertInMiddle(value, index.value);
    }

    /** The middle case of `InsertAt`: a fresh node holding `value` is linked in at
        position `k`, its `prev` set, its successor's `prev` left alone. */
    method InsertInMiddle(value: T, k: int)
      requires Valid() && 0 < k < |spine|
      modifies this, NodeAt(k - 1)`next
      ensures Valid() && |spine| == |old(spine)| + 1 && fresh(spine[k])
      ensures spine == Inserted(old(spine), k, spine[k]) && contents == Inserted(old(contents), k, value)
      ensures spine[k].prev == spine[k - 1] && spine[k + 1].prev == old(spine[k].prev)
      ensures old(BackLinked()) ==> !BackLinked()
      ensures old(BackLinked()) ==>
        forall i {:trigger spine[i].prev} :: 0 <= i < |spine| && i != k + 1 ==>
          spine[i].prev == if 0 < i then spine[i - 1] else null
    {
      var prevNode := GetNodeByIndex(k - 1);
      ghost var s := spine;
      var newNode := new Node(value, prevNode.next, prevNode);
      LinkAfter(prevNode, newNode, k);
      if old(BackLinked()) {
        assert spine[k + 1].prev == s[k - 1] != spine[k];
      }
    }

    /** Links the fresh node `newNode`, whose `next` is already `prev.next` and whose
        `prev` is `prev`, after `prev`; only `prev.next` changes in the heap, so every
        back-link but the successor's still holds. */
    method LinkAfter(prev: Node<T>, newNode: Node<T>, ghost k: int)
      requires Valid() && 0 < k < |spine| && prev == spine[k - 1]
      requires newNode !in spine && newNode.next == spine[k] && newNode.prev == prev
      modifies this`spine, this`contents, prev`next
      ensures Valid() && head == old(head) && tail == old(tail)
      ensures spine == Inserted(old(spine), k, newNode)
      ensures contents == Inserted(old(contents), k, newNode.value)
      ensures old(BackLinked()) ==>
        forall i {:trigger spine[i].prev} :: 0 <= i < |spine| && i != k + 1 ==>
          spine[i].prev == if 0 < i then spine[i - 1] else null
    {
      ghost var s, c := spine, contents;
      prev.next := newNode;
      spine := Inserted(s, k, newNode);
      contents := Inserted(c, k, newNode.value);
      forall i | 0 <= i < |spine|
        ensures spine[i].next == if i + 1 < |spine| then spine[i + 1] else null
        ensures spine[i].value == contents[i]
      {
        if i < k - 1 {
          assert spine[i] == s[i] && spine[i + 1] == s[i + 1] && contents[i] == c[i];
        } else if i > k {
          assert spine[i] == s[i - 1] && contents[i] == c[i - 1];
          assert i + 1 < |spine| ==> spine[i + 1] == s[i];
        }
      }
      assert Distinct(spine);
      if old(BackLinked()) {
        forall i | 0 <= i < |spine| && i != k + 1
          ensures spine[i].prev == if 0 < i then spine[i - 1] else null
        {
          if i < k {
            assert spine[i] == s[i] && (0 < i ==> spine[i - 1] == s[i - 1]);
          } else if k + 1 < i {
            assert spine[i] == s[i - 1] && spine[i - 1] == s[i - 2];
          }
        }
      }
    }

    /** `InsertAt` with the missing back-link repaired: the successor's `prev` is
        pointed at the new node. */
    method InsertAtCorrected(value: T, index: Option<int>)
      requires Valid()
      modifies this, NodeAt(InsertAtPosition(index, |spine|) - 1)`next, NodeAt(InsertAtPosition(index, |spine|))`prev
      ensures Valid() && (old(BackLinked()) ==> BackLinked())
      ensures var p := InsertAtPosition(index, |old(spine)|);
        p < |spine| && fresh(spine[p]) &&
        spine == Inserted(old(spine), p, spine[p]) &&
        contents == Inserted(old(contents), p, value)
    {
      ghost var p := InsertAtPosition(index, |spine|);
      if index.Some? && index.value <= 0 {
        assert p == 0;
        Prepend(value);
        assert spine == Inserted(old(spine), 0, spine[0]);
        assert contents == Inserted(old(contents), 0, value);
        return;
      }
      var size: int := GetSize();
      if index.None? || index.value >= size - 1 {
        assert p == size;
        Append(value);
        assert spine == Inserted(old(spine), size, spine[size]);
        assert contents == Inserted(old(contents), size, value);
        return;
      }
      var k := index.value;
      assert p == k && 0 < k < size;
      var prevNode := GetNodeByIndex(k - 1);
      var newNode := new Node(value, prevNode.next, prevNode);
      LinkBetween(prevNode, newNode, newNode.next, k);
    }

    /** Links the fresh node `newNode` between `prev` and its successor `succ` in
        both directions. */
    method LinkBetween(prev: Node<T>, newNode: Node<T>, succ: Node?<T>, ghost k: int)
      requires Valid() && 0 < k < |spine| && prev == spine[k - 1] && succ == spine[k]
      requires newNode !in spine && newNode.next == succ && newNode.prev == prev
      modifies this`spine, this`contents, prev`next, succ`prev
      ensures Valid() && head == old(head) && tail == old(tail)
      ensures spine == Inserted(old(spine), k, newNode)
      ensures contents == Inserted(old(contents), k, newNode.value)
      ensures old(BackLinked()) ==> BackLinked()
    {
      ghost var s := spine;
      LinkAfter(prev, newNode, k);
      succ.prev := newNode;
      if old(BackLinked()) {
        forall i | 0 <= i < |spine| ensures spine[i].prev == if 0 < i then spine[i - 1] else null {
          if i < k {
            assert spine[i] == s[i] && (0 < i ==> spine[i - 1] == s[i - 1]);
          } else if i > k + 1 {
            assert spine[i] == s[i - 1] && spine[i - 1] == s[i - 2];
          }
        }
      }
    }

    /** Unlinks the first node and returns it, or returns null on an empty list; the
        new head's `prev` is cleared. */
    method DeleteHead() returns (removed: Node?<T>)
      requires Valid()
      modifies this, NodeAt(0)`next, NodeAt(1)`prev
      ensures Valid() && (old(BackLinked()) ==> BackLinked())
      ensures old(spine) == [] ==> removed == null && spine == [] && contents == []
      ensures old(spine) != [] ==>
        removed == old(head) && removed.value == old(contents)[0] && removed.next == null && removed.prev == old(head.prev) &&
        spine == old(spine)[1..] && contents == old(contents)[1..]
      ensures |old(spine)| > 1 ==> head.prev == null
    {
      if head == null {
        return null;
      }
      removed := head;
      if head == tail {
        Clear();
      } else {
        head := removed.next;
        head.prev := null;
        removed.next := null;
        spine := spine[1..];
        contents := contents[1..];
      }
    }

    /** Unlinks the last node and returns it, or returns null on an empty list; it
        steps back through `tail.prev`, so back-links must hold. */
    method DeleteTail() returns (removed: Node?<T>)
      requires Valid() && BackLinked()
      modifies this, NodeAt(|spine| - 2)`next, NodeAt(|spine| - 1)`prev
      ensures Valid() && BackLinked()
      ensures old(spine) == [] ==> removed == null && spine == [] && contents == []
      ensures old(spine) != [] ==>
        removed == old(tail) && removed.value == old(contents)[|old(contents)| - 1] && removed.next == null && removed.prev == null &&
        spine == old(spine)[..|old(spine)| - 1] && contents == old(contents)[..|old(contents)| - 1]
    {
      if head == null {
        return null;
      }
      removed := tail;
      if head == tail {
        Clear();
      } else {
        tail := removed.prev;
        tail.next := null;
        removed.prev := null;
        spine := spine[..|spine| - 1];
        contents := contents[..|contents| - 1];
      }
    }

    /** Splices `node`, an inner node at `index`, out through its `prev` and `next`
        links and clears both of its links. */
    method Unlink(node: Node<T>, ghost index: int)
      requires Valid() && BackLinked() && 0 < index < |spine| - 1 && node == spine[index]
      modifies this`spine, this`contents, node`next, node`prev, NodeAt(index - 1)`next, NodeAt(index + 1)`prev
      ensures Valid() && BackLinked() && head == old(head) && tail == old(tail)
      ensures node.value == old(contents)[index] && node.next == null && node.prev == null
      ensures spine == RemovedAt(old(spine), index) && contents == RemovedAt(old(contents), index)
    {
      ghost var s, c := spine, contents;
      node.prev.next := node.next;
      node.next.prev := node.prev;
      node.next := null;
      node.prev := null;
      spine := RemovedAt(s, index);
      contents := RemovedAt(c, index);
      forall i | 0 <= i < |spine|
        ensures spine[i].next == if i + 1 < |spine| then spine[i + 1] else null
        ensures spine[i].prev == if 0 < i then spine[i - 1] else null
        ensures spine[i].value == contents[i]
      {
        if i < index {
          assert spine[i] == s[i] && contents[i] == c[i];
          assert 0 < i ==> spine[i - 1] == s[i - 1];
          assert i + 1 < index ==> spine[i + 1] == s[i + 1];
        } else {
          assert spine[i] == s[i + 1] && contents[i] == c[i + 1];
          assert i + 1 < |spine| ==> spine[i + 1] == s[i + 2];
          assert index < i ==> spine[i - 1] == s[i];
        }
      }
      assert Distinct(spine);
    }

    /** Unlinks the node at `index` and returns it with both links cleared; returns
        null and changes nothing when `index` is outside `[0, size-1]`. */
    method DeleteNodeByIndex(index: int) returns (removed: Node?<T>)
      requires Valid() && BackLinked()
      modifies this, NodeAt(index - 1)`next, NodeAt(index)`next, NodeAt(index)`prev, NodeAt(index + 1)`prev
      ensures Valid() && BackLinked()
      ensures !(0 <= index < |old(spine)|) ==>
        removed == null && spine == old(spine) && contents == old(contents)
      ensures 0 <= index < |old(spine)| ==>
        removed == old(spine)[index] && removed.value == old(contents)[index] && removed.next == null && removed.prev == null &&
        spine == RemovedAt(old(spine), index) && contents == RemovedAt(old(contents), index)
    {
      var size: int := GetSize();
      if index < 0 || index > size - 1 {
        return null;
      } else if index == 0 {
        removed := DeleteHead();
        assert RemovedAt(old(spine), 0) == old(spine)[1..];
        assert RemovedAt(old(contents), 0) == old(contents)[1..];
        return;
      } else if index == size - 1 {
        removed := DeleteTail();
        assert RemovedAt(old(spine), index) == old(spine)[..index];
        assert RemovedAt(old(contents), index) == old(contents)[..index];
        return;
      }
      removed := GetNodeByIndex(index);
      Unlink(removed, index);
    }

    /** The position `deleteNodeByValue` removes: the head if it holds `v`, else the
        tail if it does, else the first inner node holding `v`, else -1. */
    static function ValueDeletePosition(s: seq<T>, v: T): (r: int)
      ensures -1 <= r < |s|
      ensures r == -1 <==> v !in s
      ensures 0 <= r ==> s[r] == v
    {
      if s == [] then -1
      else if s[0] == v then 0
      else if s[|s| - 1] == v then |s| - 1
      else IndexOf(s, v)
    }

    /** The position removed differs from the first occurrence exactly when the head
        does not hold `v` but the tail does and so does an earlier node. */
    static lemma ValueDeletePositionVersusFirst(s: seq<T>, v: T)
      ensures ValueDeletePosition(s, v) != IndexOf(s, v) <==>
        s != [] && s[0] != v && s[|s| - 1] == v && v in s[..|s| - 1]
    {
      if s != [] && s[0] != v && s[|s| - 1] == v {
        var k := IndexOf(s, v);
        if k < |s| - 1 {
          assert s[..|s| - 1][k] == v;
        } else {
          assert s[..k] == s[..|s| - 1];
        }
      }
    }

    /** Removes the node `ValueDeletePosition` picks and returns it with both links
        cleared, or returns null and changes nothing when no node holds `value`.
        Reads `head.value` first, so the list must not be empty. */
    method DeleteNodeByValue(value: T) returns (removed: Node?<T>)
      requires Valid() && BackLinked() && contents != []
      modifies this, NodeAt(ValueDeletePosition(contents, value) - 1)`next, NodeAt(ValueDeletePosition(contents, value))`next,
        NodeAt(ValueDeletePosition(contents, value))`prev, NodeAt(ValueDeletePosition(contents, value) + 1)`prev
      ensures Valid() && BackLinked()
      ensures var k := ValueDeletePosition(old(contents), value);
        if k == -1 then removed == null && spine == old(spine) && contents == old(contents)
        else (removed == old(spine)[k] && removed.value == value && removed.next == null && removed.prev == null &&
              spine == RemovedAt(old(spine), k) && contents == RemovedAt(old(contents), k))
    {
      if value == head.value {
        removed := DeleteHead();
        return;
      } else if value == tail.value {
        removed := DeleteTail();
        return;
      }
      removed := GetNodeByValue(value);
      if removed == null {
        return null;
      }
      Unlink(removed, IndexOf(contents, value));
    }

    /** Replaces the value of the node at `index` and returns that node; returns
        null and changes nothing when `index` is outside `[0, size-1]`. */
    method UpdateNode(value: T, index: int) returns (node: Node?<T>)
      requires Valid()
      modifies this, NodeAt(index)`value
      ensures Valid() && spine == old(spine) && (old(BackLinked()) ==> BackLinked())
      ensures !(0 <= index < |spine|) ==> node == null && contents == old(contents)
      ensures 0 <= index < |spine| ==> node == spine[index] && contents == old(contents)[index := value]
    {
      node := GetNodeByIndex(index);
      if node == null {
        return null;
      }
      node.value := value;
      contents := contents[index := value];
    }

    /** Whether some node holds `value`; faults like `GetNodeByValue` on an empty list. */
    method Contains(value: T) returns (found: bool)
      requires Valid() && contents != []
      ensures found <==> value in contents
    {
      var node := GetNodeByValue(value);
      found := node != null;
    }

    /** Appends every element of `arr`, in order. */
    method FromArray(arr: seq<T>)
      requires Valid()
      modifies this, NodeAt(|spine| - 1)`next
      ensures Valid() && (old(BackLinked()) ==> BackLinked())
      ensures contents == old(contents) + arr
      ensures |spine| == |old(spine)| + |arr| && spine[..|old(spine)|] == old(spine)
      ensures forall i :: |old(spine)| <= i < |spine| ==> fresh(spine[i])
    {
      var i := 0;
      while i < |arr|
        invariant 0 <= i <= |arr|
        invariant Valid() && (old(BackLinked()) ==> BackLinked())
        invariant contents == old(contents) + arr[..i]
        invariant |spine| == |old(spine)| + i && spine[..|old(spine)|] == old(spine)
        invariant forall j :: |old(spine)| <= j < |spine| ==> fresh(spine[j])
      {
        Append(arr[i]);
        assert arr[..i + 1] == arr[..i] + [arr[i]];
        i := i + 1;
      }
      assert arr[..i] == arr;
    }

    /** The values from `head` to `tail`: the array `print` builds before it logs it. */
    method Values() returns (arr: seq<T>)
      requires Valid()
      ensures arr == contents
    {
      arr := [];
      var node := head;
      while node != null
        invariant |arr| <= |spine| && arr == contents[..|arr|]
        invariant node == if |arr| < |spine| then spine[|arr|] else null
        decreases |spine| - |arr|
      {
        arr := arr + [node.value];
        node := node.next;
      }
    }

    /** The nodes from `head` to `tail`, in order. */
    method ToArray() returns (nodes: seq<Node<T>>)
      requires Valid()
      ensures nodes == spine
      ensures forall i :: 0 <= i < |nodes| ==> nodes[i].value == contents[i]
    {
      nodes := [];
      var node := head;
      while node != null
        invariant |nodes| <= |spine| && nodes == spine[..|nodes|]
        invariant node == if |nodes| < |spine| then spine[|nodes|] else null
        decreases |spine| - |nodes|
      {
        nodes := nodes + [node];
        node := node.next;
      }
    }

    /** Swaps `next` and `prev` on every node in one forward pass, then swaps
        `head` and `tail`; it follows `prev`, so back-links must hold. */
    method Reverse()
      requires Valid() && BackLinked()
      modifies this, spine`next, spine`prev
      ensures Valid() && BackLinked()
      ensures spine == Reversed(old(spine)) && contents == Reversed(old(contents))
      ensures head == old(tail) && tail == old(head)
    {
      ghost var s, c := spine, contents;
      assert tail == if s == [] then null else s[|s| - 1];
      if s != [] {
        ReversedAt(s, 0);
        ReversedAt(s, |s| - 1);
      }
      var last := TurnLinks(head, s, c);
      tail := head;
      head := last;
      spine := Reversed(s);
      contents := Reversed(c);
    }

    /** The loop of `reverse`: walks the chain `s` from its first node, swapping
        each node's `next` and `prev`, and returns the last node visited. */
    static method TurnLinks(first: Node?<T>, ghost s: seq<Node<T>>, ghost c: seq<T>) returns (last: Node?<T>)
      requires Distinct(s) && |c| == |s|
      requires first == if s == [] then null else s[0]
      requires forall i :: 0 <= i < |s| ==> s[i].value == c[i]
      requires forall i {:trigger s[i].next} :: 0 <= i < |s| ==>
        s[i].next == if i + 1 < |s| then s[i + 1] else null
      requires forall i {:trigger s[i].prev} :: 0 <= i < |s| ==>
        s[i].prev == if 0 < i then s[i - 1] else null
      modifies s`next, s`prev
      ensures last == if s == [] then null else s[|s| - 1]
      ensures Distinct(Reversed(s))
      ensures forall i :: 0 <= i < |s| ==> Reversed(s)[i].value == Reversed(c)[i]
      ensures forall i {:trigger Reversed(s)[i].next} :: 0 <= i < |s| ==>
        Reversed(s)[i].next == if i + 1 < |s| then Reversed(s)[i + 1] else null
      ensures forall i {:trigger Reversed(s)[i].prev} :: 0 <= i < |s| ==>
        Reversed(s)[i].prev == if 0 < i then Reversed(s)[i - 1] else null
    {
      var currentNode := first;
      var prevNode: Node?<T> := null;
      var nextNode: Node?<T> := null;
      ghost var k := 0;
      while currentNode != null
        invariant 0 <= k <= |s|
        invariant currentNode == if k < |s| then s[k] else null
        invariant prevNode == if 0 < k then s[k - 1] else null
        invariant forall i :: 0 <= i < |s| ==> s[i].value == c[i]
        invariant forall i {:trigger s[i].next} :: 0 <= i < |s| ==>
          s[i].next == if i < k then (if 0 < i then s[i - 1] else null)
                       else (if i + 1 < |s| then s[i + 1] else null)
        invariant forall i {:trigger s[i].prev} :: 0 <= i < |s| ==>
          s[i].prev == if i < k then (if i + 1 < |s| then s[i + 1] else null)
                       else (if 0 < i then s[i - 1] else null)
        decreases |s| - k
      {
        nextNode := currentNode.next;
        prevNode := currentNode.prev;
        currentNode.next := prevNode;
        currentNode.prev := nextNode;
        prevNode := currentNode;
        currentNode := nextNode;
        k := k + 1;
      }
      last := prevNode;
      TurnedAround(s, c);
    }

    /** Nodes whose `next` and `prev` links have all been turned around form, read in
        reverse, a chain that is linked both ways. */
    static lemma TurnedAround(s: seq<Node<T>>, c: seq<T>)
      requires Distinct(s) && |c| == |s|
      requires forall i :: 0 <= i < |s| ==> s[i].value == c[i]
      requires forall i {:trigger s[i].next} :: 0 <= i < |s| ==>
        s[i].next == if 0 < i then s[i - 1] else null
      requires forall i {:trigger s[i].prev} :: 0 <= i < |s| ==>
        s[i].prev == if i + 1 < |s| then s[i + 1] else null
      ensures Distinct(Reversed(s))
      ensures forall i :: 0 <= i < |s| ==> Reversed(s)[i].value == Reversed(c)[i]
      ensures forall i {:trigger Reversed(s)[i].next} :: 0 <= i < |s| ==>
        Reversed(s)[i].next == if i + 1 < |s| then Reversed(s)[i + 1] else null
      ensures forall i {:trigger Reversed(s)[i].prev} :: 0 <= i < |s| ==>
        Reversed(s)[i].prev == if 0 < i then Reversed(s)[i - 1] else null
    {
      ReversedAll(s);
      ReversedAll(c);
      DistinctReversed(s);
    }

    /** Empties the list by dropping `head` and `tail`. */
    method Clear()
      modifies this
      ensures Valid() && BackLinked() && spine == [] && contents == []
      ensures head == null && tail == null
    {
      head, tail := null, null;
      spine, contents := [], [];
    }
  }
}
