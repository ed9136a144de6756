// Stretches of consecutive slots in a circular array, as sequences.
module Cyclic {

  // The index k places behind index start in a circle of n slots.
  function Index(start: nat, k: nat, n: nat): (i: nat)
    requires start < n && k <= n
    ensures i < n
  {
    if start + k < n then start + k else start + k - n
  }

  // How many places the index i is behind index start.
  function Distance(start: nat, i: nat, n: nat): nat
    requires start < n && i < n
  {
    if i >= start then i - start else i + n - start
  }

  // The count elements from index start on.
  function Cells<T>(d: seq<T>, start: nat, count: nat): (s: seq<T>)
    requires start < |d| && count <= |d|
    ensures |s| == count
    ensures forall k :: 0 <= k < count ==> s[k] == d[Index(start, k, |d|)]
  {
    seq(count, k requires 0 <= k < count => d[Index(start, k, |d|)])
  }

  // Writing the slot behind the last element changes no element.
  lemma WriteBehind<T>(d: seq<T>, start: nat, count: nat, val: T)
    requires start < |d| && count < |d|
    ensures Cells(d[Index(start, count, |d|) := val], start, count) == Cells(d, start, count)
  {
  }

  // Counting that slot in appends its element.
  lemma AppendCell<T>(d: seq<T>, start: nat, count: nat)
    requires start < |d| && count < |d|
    ensures Cells(d, start, count + 1) == Cells(d, start, count) + [d[Index(start, count, |d|)]]
  {
  }

  // Moving the start on drops the first element.
  lemma DropFirstCell<T>(d: seq<T>, start: nat, count: nat)
    requires start < |d| && 0 < count <= |d|
    ensures Cells(d, Index(start, 1, |d|), count - 1) == Cells(d, start, count)[1..]
  {
    var c := Cells(d, Index(start, 1, |d|), count - 1);
    forall k | 0 <= k < count - 1
      ensures c[k] == Cells(d, start, count)[1..][k]
    {
      assert Index(Index(start, 1, |d|), k, |d|) == Index(start, k + 1, |d|);
    }
  }

  // Overwriting the first element of a full circle and moving the start on displaces it.
  lemma DisplaceCell<T>(d: seq<T>, start: nat, val: T)
    requires start < |d|
    ensures Cells(d[start := val], Index(start, 1, |d|), |d|) == Cells(d, start, |d|)[1..] + [val]
  {
    var c := Cells(d[start := val], Index(start, 1, |d|), |d|);
    forall k | 0 <= k < |d|
      ensures c[k] == (Cells(d, start, |d|)[1..] + [val])[k]
    {
      assert Index(Index(start, 1, |d|), k, |d|) == if k == |d| - 1 then start else Index(start, k + 1, |d|);
    }
  }

  // Taking back the last element.
  lemma RemoveLastCell<T>(d: seq<T>, start: nat, count: nat, val: T)
    requires start < |d| && 0 < count <= |d|
    ensures var last := Index(start, count - 1, |d|);
      Cells(d, start, count) == Cells(d[last := val], start, count - 1) + [d[last]]
  {
  }
}
