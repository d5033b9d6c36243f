/** The abstract view shared by both lists: a list is a sequence of values,
    and every operation is stated as a function on sequences. */
module ListSpec {

  /** An optional argument; `None` stands for an index that was not passed. */
  datatype Option<T> = None | Some(value: T)

  /** The elements of `s` in the opposite order. */
  function Reversed<X>(s: seq<X>): (r: seq<X>)
    ensures |r| == |s|
    ensures multiset(r) == multiset(s)
  {
    if s == [] then []
    else
      assert s == [s[0]] + s[1..];
      Reversed(s[1..]) + [s[0]]
  }

  /** Position `k` of the reversal is position `|s| - 1 - k` of the original. */
  lemma {:induction false} ReversedAt<X>(s: seq<X>, k: int)
    requires 0 <= k < |s|
    ensures Reversed(s)[k] == s[|s| - 1 - k]
  {
    if k < |s| - 1 {
      ReversedAt(s[1..], k);
    }
  }

  lemma ReversedAll<X>(s: seq<X>)
    ensures forall k :: 0 <= k < |s| ==> Reversed(s)[k] == s[|s| - 1 - k]
  {
    forall k | 0 <= k < |s| ensures Reversed(s)[k] == s[|s| - 1 - k] {
      ReversedAt(s, k);
    }
  }

  /** Reversing twice gives back the original sequence, empty and one-element ones included. */
  lemma {:induction false} ReversedInvolution<X>(s: seq<X>)
    ensures Reversed(Reversed(s)) == s
  {
    var r := Reversed(s);
    forall k | 0 <= k < |s| ensures Reversed(r)[k] == s[k] {
      ReversedAt(r, k);
      ReversedAt(s, |s| - 1 - k);
    }
  }

  /** The position of the first element equal to `v`, or -1 when there is none. */
  function IndexOf<X(==)>(s: seq<X>, v: X): (r: int)
    ensures -1 <= r < |s|
    ensures r == -1 <==> v !in s
    ensures 0 <= r ==> s[r] == v && v !in s[..r]
  {
    if s == [] then -1
    else if s[0] == v then 0
    else
      var k := IndexOf(s[1..], v);
      assert s == [s[0]] + s[1..];
      if k == -1 then -1
      else
        assert s[..k + 1] == [s[0]] + s[1..][..k];
        k + 1
  }

  /** A position holding `v` with no earlier `v` is the one `IndexOf` finds. */
  lemma IndexOfUnique<X>(s: seq<X>, v: X, k: int)
    requires 0 <= k < |s| && s[k] == v && v !in s[..k]
    ensures IndexOf(s, v) == k
  {
  }

  /** `s` with `v` placed at position `k`. */
  function Inserted<X>(s: seq<X>, k: int, v: X): seq<X>
    requires 0 <= k <= |s|
  {
    s[..k] + [v] + s[k..]
  }

  /** `s` without its element at position `k`. */
  function RemovedAt<X>(s: seq<X>, k: int): seq<X>
    requires 0 <= k < |s|
  {
    s[..k] + s[k + 1..]
  }

  /** Removing at the position just inserted at gives back the original sequence. */
  lemma RemovedInserted<X>(s: seq<X>, k: int, v: X)
    requires 0 <= k <= |s|
    ensures |Inserted(s, k, v)| == |s| + 1 && Inserted(s, k, v)[k] == v
    ensures RemovedAt(Inserted(s, k, v), k) == s
  {
    var t := Inserted(s, k, v);
    assert t[..k] == s[..k];
    assert t[k + 1..] == s[k..];
  }

  /** No element occurs twice. */
  ghost predicate Distinct<X>(s: seq<X>)
  {
    forall i, j :: 0 <= i < j < |s| ==> s[i] != s[j]
  }

  /** Reversal keeps a sequence free of repetitions. */
  lemma DistinctReversed<X>(s: seq<X>)
    requires Distinct(s)
    ensures Distinct(Reversed(s))
  {
    ReversedAll(s);
  }
}
