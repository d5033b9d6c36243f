/** The singly linked list of LinkList.js: a chain of nodes linked by `next`,
    with the list holding its first and last node. */
module Singly {
  import opened ListSpec

  class Node<T> {
    var value: T
    var next: Node?<T>

    constructor (value: T, next: Node?<T>)
      ensures this.value == value && this.next == next
    {
      this.value := value;
      this.next := next;
    }
  }

  class LinkedList<T(==)> {
    var head: Node?<T>
    var tail: Node?<T>
    /** The nodes reachable from `head`, in order. */
    ghost var spine: seq<Node<T>>
    /** The values those nodes hold, in order. */
    ghost var contents: seq<T>

    /** Every part of the list invariant except the one about `tail`: the nodes are
        distinct, `head` is the first, each links to the next, the last links to null,
        and `contents` lists their values. */
    ghost predicate Chain()
      reads this, spine
    {
      |contents| == |spine| &&
      Distinct(spine) &&
      head == (if spine == [] then null else spine[0]) &&
      (forall i {:trigger spine[i].next} :: 0 <= i < |spine| ==> spine[i].next == if i + 1 < |spine| then spine[i + 1] else null) &&
      (forall i :: 0 <= i < |spine| ==> spine[i].value == contents[i])
    }

    /** The list invariant: a chain whose `tail` is its last node (null when empty). */
    ghost predicate Valid()
      reads this, spine
    {
      Chain() && tail == (if spine == [] then null else spine[|spine| - 1])
    }

    /** The node at position `k` as a set, empty outside the list: the frames of
        the mutators name the nodes they relink with it. */
    ghost function NodeAt(k: int): set<Node<T>>
      reads this
    {
      if 0 <= k < |spine| then {spine[k]} else {}
    }

    constructor ()
      ensures Valid() && spine == [] && contents == []
    {
      head, tail := null, null;
      spine, contents := [], [];
    }

    /** Counts the nodes by walking `next` from `head`. */
    method GetSize() returns (size: nat)
      requires Valid()
      ensures size == |contents|
    {
      var node := head;
      size := 0;
      while node != null
        invariant size <= |spine|
        invariant node == if size < |spine| then spine[size] else null
        decreases |spine| - size
      {
        size := size + 1;
        node := node.next;
      }
    }

    /** The position of the first node holding `value`, or -1. The source reads
        `head.value` before anything else, so the list must not be empty. */
    method GetIndex(value: T) returns (index: int)
      requires Valid() && contents != []
      ensures index == IndexOf(contents, value)
    {
      var node := head;
      var count := 0;
      while node.value != value
        invariant 0 <= count < |spine| && node == spine[count]
        invariant value !in contents[..count]
        decreases |spine| - count
      {
        assert contents[..count + 1] == contents[..count] + [contents[count]];
        node := node.next;
        if node == null {
          assert count == |spine| - 1;
          assert contents == contents[..count + 1];
          return -1;
        }
        count := count + 1;
      }
      IndexOfUnique(contents, value, count);
      return count;
    }

    /** The node at position `index`, or null when `index` is outside `[0, size-1]`. */
    method GetNodeByIndex(index: int) returns (node: Node?<T>)
      requires Valid()
      ensures node == if 0 <= index < |spine| then spine[index] else null
    {
      var size: int := GetSize();
      if index < 0 || index > size - 1 {
        return null;
      } else if index == 0 {
        return head;
      } else if index == size - 1 {
        return tail;
      }
      node := head;
      var count := 0;
      while count != index
        invariant 0 <= count <= index && node == spine[count]
        decreases index - count
      {
        node := node.next;
        count := count + 1;
      }
    }

    /** The first node holding `value`, or null. Reads `head.value` first, so the
        list must not be empty. */
    method GetNodeByValue(value: T) returns (node: Node?<T>)
      requires Valid() && contents != []
      ensures var k := IndexOf(contents, value); node == if k < 0 then null else spine[k]
    {
      if head.value == value {
        IndexOfUnique(contents, value, 0);
        return head;
      }
      node := head;
      ghost var count := 0;
      while node.value != value
        invariant 0 <= count < |spine| && node == spine[count]
        invariant value !in contents[..count]
        decreases |spine| - count
      {
        assert contents[..count + 1] == contents[..count] + [contents[count]];
        node := node.next;
        if node == null {
          assert count == |spine| - 1;
          assert contents == contents[..count + 1];
          return null;
        }
        count := count + 1;
      }
      IndexOfUnique(contents, value, count);
    }

    /** Puts a new node holding `value` in front of `head`. */
    method Prepend(value: T)
      requires Valid()
      modifies this
      ensures Valid()
      ensures contents == [value] + old(contents)
      ensures head != null && fresh(head) && spine == [head] + old(spine)
      ensures old(spine) == [] ==> tail == head
    {
      head := new Node(value, head);
      if tail == null {
        tail := head;
      }
      spine := [head] + spine;
      contents := [value] + contents;
    }

    /** Links a new node holding `value` after `tail`. */
    method Append(value: T)
      requires Valid()
      modifies this, NodeAt(|spine| - 1)`next
      ensures Valid()
      ensures contents == old(contents) + [value]
      ensures tail != null && fresh(tail) && spine == old(spine) + [tail]
      ensures old(spine) == [] ==> head == tail
    {
      var newNode := new Node(value, null);
      if head == null {
        head := newNode;
      } else {
        tail.next := newNode;
      }
      tail := newNode;
      spine := spine + [newNode];
      contents := contents + [value];
    }

    /** Where `insert` puts its value: an index below 1 prepends, an absent index
        (the source's default `Infinity`) or one at or past the size appends. */
    static function InsertPosition(index: Option<int>, size: nat): (p: nat)
      ensures p <= size
      ensures index.Some? && 0 <= index.value <= size ==> p == index.value
      ensures index.Some? && index.value < 0 ==> p == 0
      ensures index.None? || index.value > size ==> p == size
    {
      match index
      case None => size
      case Some(i) => if i < 1 then 0 else if i >= size then size else i
    }

    /** Inserts a new node holding `value` at `InsertPosition(index, size)`. */
    method Insert(value: T, index: Option<int>)
      requires Valid()
      modifies this, NodeAt(InsertPosition(index, |spine|) - 1)`next
      ensures Valid()
      ensures var p := InsertPosition(index, |old(spine)|);
        p < |spine| && fresh(spine[p]) &&
        spine == Inserted(old(spine), p, spine[p]) &&
        contents == Inserted(old(contents), p, value)
      ensures 0 < InsertPosition(index, |old(spine)|) < |old(spine)| ==> tail == old(tail)
    {
      if index.Some? && index.value < 1 {
        Prepend(value);
        assert spine == Inserted(old(spine), 0, spine[0]);
        assert contents == Inserted(old(contents), 0, value);
        return;
      }
      var size := GetSize();
      if index.None? || index.value >= size {
        Append(value);
        assert spine == Inserted(old(spine), size, spine[size]);
        assert contents == Inserted(old(contents), size, value);
        return;
      }
      InsertInMiddle(value, index.value);
    }

    /** The middle case of `Insert`: a fresh node holding `value` is linked in after
        the node at position `k - 1`; head and tail stay. */
    method InsertInMiddle(value: T, k: int)
      requires Valid() && 0 < k < |spine|
      modifies this, NodeAt(k - 1)`next
      ensures Valid() && |spine| == |old(spine)| + 1 && fresh(spine[k])
      ensures spine == Inserted(old(spine), k, spine[k]) && contents == Inserted(old(contents), k, value)
      ensures tail == old(tail)
    {
      var node := GetNodeByIndex(k - 1);
      ghost var s, c := spine, contents;
      assert node == s[k - 1] && node.next == s[k];
      var newNode := new Node(value, node.next);
      node.next := newNode;
      spine := Inserted(s, k, newNode);
      contents := Inserted(c, k, value);
      forall i | 0 <= i < |spine|
        ensures spine[i].next == if i + 1 < |spine| then spine[i + 1] else null
        ensures spine[i].value == contents[i]
      {
        if i < k - 1 {
          assert spine[i] == s[i] && spine[i + 1] == s[i + 1] && contents[i] == c[i];
        } else if i > k {
          assert spine[i] == s[i - 1] && contents[i] == c[i - 1];
          assert i + 1 < |spine| ==> spine[i + 1] == s[i];
        }
      }
      assert Distinct(spine);
    }

    /** Unlinks the first node and returns it, or returns null on an empty list. */
    method DeleteHead() returns (removed: Node?<T>)
      requires Valid()
      modifies this, NodeAt(0)`next
      ensures Valid()
      ensures old(spine) == [] ==> removed == null && spine == [] && contents == []
      ensures old(spine) != [] ==>
        removed == old(head) && removed.value == old(contents)[0] && removed.next == null &&
        spine == old(spine)[1..] && contents == old(contents)[1..]
    {
      if head == null {
        return null;
      }
      removed := head;
      if removed.next == null {
        Clear();
      } else {
        head := removed.next;
        spine := spine[1..];
        contents := contents[1..];
      }
      removed.next := null;
    }

    /** Unlinks the last node and returns it, or returns null on an empty list;
        walks from `head` to find the node before `tail`. */
    method DeleteTail() returns (removed: Node?<T>)
      requires Valid()
      modifies this, NodeAt(|spine| - 2)`next, NodeAt(|spine| - 1)`next
      ensures Valid()
      ensures old(spine) == [] ==> removed == null && spine == [] && contents == []
      ensures old(spine) != [] ==>
        removed == old(tail) && removed.value == old(contents)[|old(contents)| - 1] && removed.next == null &&
        spine == old(spine)[..|old(spine)| - 1] && contents == old(contents)[..|old(contents)| - 1]
    {
      if head == null {
        return null;
      }
      removed := tail;
      if head == tail {
        Clear();
      } else {
        var node := head;
        ghost var k := 0;
        while node.next != tail
          invariant 0 <= k < |spine| - 1 && node == spine[k]
          decreases |spine| - k
        {
          node := node.next;
          k := k + 1;
        }
        node.next := null;
        tail := node;
        removed.next := null;
        spine := spine[..|spine| - 1];
        contents := contents[..|contents| - 1];
      }
    }

    /** Unlinks the node at `index` and returns it; returns null and changes nothing
        when `index` is outside `[0, size-1]`. */
    method DeleteNodeByIndex(index: int) returns (removed: Node?<T>)
      requires Valid()
      modifies this, NodeAt(index - 1)`next, NodeAt(index)`next
      ensures Valid()
      ensures !(0 <= index < |old(spine)|) ==>
        removed == null && spine == old(spine) && contents == old(contents)
      ensures 0 <= index < |old(spine)| ==>
        removed == old(spine)[index] && removed.value == old(contents)[index] && removed.next == null &&
        spine == RemovedAt(old(spine), index) && contents == RemovedAt(old(contents), index)
    {
      var size: int := GetSize();
      if index < 0 || index > size - 1 {
        return null;
      } else if index == 0 {
        removed := DeleteHead();
        return;
      } else if index == size - 1 {
        removed := DeleteTail();
        return;
      }
      var node := GetNodeByIndex(index - 1);
      removed := UnlinkAfter(node, index);
    }

    /** Splices out the successor of `prev`, the node at `index`, and clears its
        `next`; `head` and `tail` are left alone. */
    method UnlinkAfter(prev: Node<T>, ghost index: int) returns (removed: Node<T>)
      requires Chain() && 0 < index < |spine| && prev == spine[index - 1]
      modifies this`spine, this`contents, prev`next, NodeAt(index)`next
      ensures Chain() && head == old(head) && tail == old(tail)
      ensures removed == old(spine)[index] && removed.value == old(contents)[index] && removed.next == null
      ensures spine == RemovedAt(old(spine), index) && contents == RemovedAt(old(contents), index)
    {
      ghost var s, c := spine, contents;
      removed := prev.next;
      prev.next := removed.next;
      removed.next := null;
      spine := RemovedAt(s, index);
      contents := RemovedAt(c, index);
      forall i | 0 <= i < |spine|
        ensures spine[i].next == if i + 1 < |spine| then spine[i + 1] else null
        ensures spine[i].value == contents[i]
      {
        if i < index - 1 {
          assert spine[i] == s[i] && spine[i + 1] == s[i + 1] && contents[i] == c[i];
        } else if i >= index {
          assert spine[i] == s[i + 1] && contents[i] == c[i + 1];
          assert i + 1 < |spine| ==> spine[i + 1] == s[i + 2];
        }
      }
      assert Distinct(spine);
    }

    /** Unlinks the first node holding `value` and returns it, or returns null when
        no node holds it. As written, removing the last node of a list of two or more
        never moves `tail`: it is left pointing at the removed node, so only `Chain()`
        holds afterwards. */
    method DeleteNodeByValue(value: T) returns (removed: Node?<T>)
      requires Valid() && contents != []
      modifies this, NodeAt(IndexOf(contents, value) - 1)`next, NodeAt(IndexOf(contents, value))`next
      ensures Chain()
      ensures IndexOf(old(contents), value) == -1 ==>
        removed == null && spine == old(spine) && contents == old(contents) && Valid()
      ensures var k := IndexOf(old(contents), value);
        0 <= k ==>
          removed == old(spine)[k] && removed.value == value && removed.next == null &&
          spine == RemovedAt(old(spine), k) && contents == RemovedAt(old(contents), k)
      ensures var k := IndexOf(old(contents), value);
        0 < k == |old(spine)| - 1 ==> tail == removed && !Valid()
      ensures var k := IndexOf(old(contents), value);
        k == 0 || 0 < k < |old(spine)| - 1 ==> Valid()
    {
      ghost var s := spine;
      var index := GetIndex(value);
      if index == -1 {
        return null;
      }
      var prevNode := GetNodeByIndex(index - 1);
      if prevNode == null {
        assert index == 0 && NodeAt(0) == {head};
        removed := DeleteHead();
        return;
      }
      assert 0 < index && prevNode == s[index - 1];
      assert NodeAt(index - 1) == {prevNode} && NodeAt(index) == {s[index]};
      removed := UnlinkAfter(prevNode, index);
      if index == |s| - 1 {
        assert tail == removed && removed != spine[|spine| - 1];
      } else {
        assert spine[|spine| - 1] == s[|s| - 1];
      }
    }

    /** `DeleteNodeByValue` with the stale tail repaired: when the removed node was
        the tail, its predecessor becomes the tail. */
    method DeleteNodeByValueCorrected(value: T) returns (removed: Node?<T>)
      requires Valid() && contents != []
      modifies this, NodeAt(IndexOf(contents, value) - 1)`next, NodeAt(IndexOf(contents, value))`next
      ensures Valid()
      ensures IndexOf(old(contents), value) == -1 ==>
        removed == null && spine == old(spine) && contents == old(contents)
      ensures var k := IndexOf(old(contents), value);
        0 <= k ==>
          removed == old(spine)[k] && removed.value == value && removed.next == null &&
          spine == RemovedAt(old(spine), k) && contents == RemovedAt(old(contents), k)
    {
      ghost var s := spine;
      var index := GetIndex(value);
      if index == -1 {
        return null;
      }
      var prevNode := GetNodeByIndex(index - 1);
      if prevNode == null {
        assert index == 0 && NodeAt(0) == {head};
        removed := DeleteHead();
        return;
      }
      assert 0 < index && prevNode == s[index - 1];
      assert NodeAt(index - 1) == {prevNode} && NodeAt(index) == {s[index]};
      removed := UnlinkAfter(prevNode, index);
      if removed == tail {
        tail := prevNode;
      }
    }

    /** Replaces the value of the node at `index` and returns that node; returns
        null and changes nothing when `index` is outside `[0, size-1]`. */
    method UpdateNode(value: T, index: int) returns (node: Node?<T>)
      requires Valid()
      modifies this, NodeAt(index)`value
      ensures Valid() && spine == old(spine)
      ensures !(0 <= index < |spine|) ==> node == null && contents == old(contents)
      ensures 0 <= index < |spine| ==> node == spine[index] && contents == old(contents)[index := value]
    {
      node := GetNodeByIndex(index);
      if node == null {
        return null;
      }
      node.value := value;
      contents := contents[index := value];
    }

    /** Whether some node holds `value`; faults like `GetNodeByValue` on an empty list. */
    method Contains(value: T) returns (found: bool)
      requires Valid() && contents != []
      ensures found <==> value in contents
    {
      var node := GetNodeByValue(value);
      found := node != null;
    }

    /** Inserts every element of `arr`, in order, with the default (appending) index. */
    method FromArray(arr: seq<T>)
      requires Valid()
      modifies this, NodeAt(|spine| - 1)`next
      ensures Valid()
      ensures contents == old(contents) + arr
      ensures |spine| == |old(spine)| + |arr| && spine[..|old(spine)|] == old(spine)
      ensures forall i :: |old(spine)| <= i < |spine| ==> fresh(spine[i])
    {
      var i := 0;
      while i < |arr|
        invariant 0 <= i <= |arr|
        invariant Valid()
        invariant contents == old(contents) + arr[..i]
        invariant |spine| == |old(spine)| + i && spine[..|old(spine)|] == old(spine)
        invariant forall j :: |old(spine)| <= j < |spine| ==> fresh(spine[j])
      {
        Insert(arr[i], None);
        assert arr[..i + 1] == arr[..i] + [arr[i]];
        i := i + 1;
      }
      assert arr[..i] == arr;
    }

    /** The values from `head` to `tail`: the array `print` builds before it logs it. */
    method Values() returns (arr: seq<T>)
      requires Valid()
      ensures arr == contents
    {
      arr := [];
      var node := head;
      while node != null
        invariant |arr| <= |spine| && arr == contents[..|arr|]
        invariant node == if |arr| < |spine| then spine[|arr|] else null
        decreases |spine| - |arr|
      {
        arr := arr + [node.value];
        node := node.next;
      }
    }

    /** The nodes from `head` to `tail`, in order. */
    method ToArray() returns (nodes: seq<Node<T>>)
      requires Valid()
      ensures nodes == spine
      ensures forall i :: 0 <= i < |nodes| ==> nodes[i].value == contents[i]
    {
      nodes := [];
      var node := head;
      while node != null
        invariant |nodes| <= |spine| && nodes == spine[..|nodes|]
        invariant node == if |nodes| < |spine| then spine[|nodes|] else null
        decreases |spine| - |nodes|
      {
        nodes := nodes + [node];
        node := node.next;
      }
    }

    /** Empties the list by dropping `head` and `tail`. */
    method Clear()
      modifies this
      ensures Valid() && spine == [] && contents == []
      ensures head == null && tail == null
    {
      head, tail := null, null;
      spine, contents := [], [];
    }

    /** Turns every `next` link around in one pass, then swaps `head` and `tail`. */
    method Reverse()
      requires Valid()
      modifies this, spine`next
      ensures Valid()
      ensures spine == Reversed(old(spine)) && contents == Reversed(old(contents))
      ensures head == old(tail) && tail == old(head)
    {
      ghost var s, c := spine, contents;
      ghost var n := |s|;
      var curr := head;
      var prev: Node?<T> := null;
      ghost var k := 0;
      while curr != null
        invariant 0 <= k <= n
        invariant spine == s && contents == c && head == old(head) && tail == old(tail)
        invariant Distinct(s) && |c| == n
        invariant curr == if k < n then s[k] else null
        invariant prev == if 0 < k then s[k - 1] else null
        invariant forall i :: 0 <= i < n ==> s[i].value == c[i]
        invariant forall i {:trigger s[i].next} :: 0 <= i < n ==>
          s[i].next == if i < k then (if 0 < i then s[i - 1] else null)
                       else (if i + 1 < n then s[i + 1] else null)
        decreases n - k
      {
        var nextNode := curr.next;
        curr.next := prev;
        prev := curr;
        curr := nextNode;
        k := k + 1;
      }
      tail := head;
      head := prev;
      spine := Reversed(s);
      contents := Reversed(c);
      forall i | 0 <= i < n
        ensures spine[i].next == if i + 1 < n then spine[i + 1] else null
        ensures spine[i].value == contents[i]
      {
        ReversedAt(s, i);
        ReversedAt(c, i);
        if i + 1 < n {
          ReversedAt(s, i + 1);
        }
      }
      DistinctReversed(s);
      if n > 0 {
        ReversedAt(s, 0);
        ReversedAt(s, n - 1);
      }
    }
  }
}
