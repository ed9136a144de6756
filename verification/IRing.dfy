// The displacing ring of include/i-ring.h, for any ring size of at least 1 (the header's
// I_RING_SIZE is 4). The header gives the representation and the contract; the C bodies of push
// and pop are not part of this model and are written from that contract.
module IRing {
  import opened Cyclic

  // The header's representation: indices in range, an empty ring has front == back, and every
  // element outside back..front holds the default value.
  ghost predicate Represents(d: seq<int>, front: nat, back: nat, empty: bool, defaultVal: int) {
    && front < |d| && back < |d|
    && (empty ==> front == back)
    && forall i :: 0 <= i < |d| && Distance(back, i, |d|) >= Count(front, back, empty, |d|) ==> d[i] == defaultVal
  }

  function Count(front: nat, back: nat, empty: bool, n: nat): nat
    requires front < n && back < n
  {
    if empty then 0 else Distance(back, front, n) + 1
  }

  // The defined elements, oldest first.
  ghost function View(d: seq<int>, front: nat, back: nat, empty: bool, defaultVal: int): seq<int>
    requires Represents(d, front, back, empty, defaultVal)
  {
    Cells(d, back, Count(front, back, empty, |d|))
  }

  // Where push writes, and the back afterwards.
  function PushIndex(front: nat, empty: bool, n: nat): nat
    requires front < n
  {
    if empty then front else if front + 1 == n then 0 else front + 1
  }

  function PushBack(front: nat, back: nat, empty: bool, n: nat): nat
    requires front < n && back < n
  {
    if PushIndex(front, empty, n) == back && !empty then (if back + 1 == n then 0 else back + 1) else back
  }

  lemma PushRepresents(d: seq<int>, front: nat, back: nat, empty: bool, defaultVal: int, val: int)
    requires Represents(d, front, back, empty, defaultVal)
    ensures var i, b := PushIndex(front, empty, |d|), PushBack(front, back, empty, |d|);
      Represents(d[i := val], i, b, false, defaultVal)
  {
  }

  lemma PushView(d: seq<int>, front: nat, back: nat, empty: bool, defaultVal: int, val: int)
    requires Represents(d, front, back, empty, defaultVal)
    ensures var i, b := PushIndex(front, empty, |d|), PushBack(front, back, empty, |d|);
      && Represents(d[i := val], i, b, false, defaultVal)
      && View(d[i := val], i, b, false, defaultVal) == Pushed(View(d, front, back, empty, defaultVal), val, |d|)
      && d[i] == if |View(d, front, back, empty, defaultVal)| == |d| then View(d, front, back, empty, defaultVal)[0]
                 else defaultVal
  {
    PushRepresents(d, front, back, empty, defaultVal, val);
    if Count(front, back, empty, |d|) == |d| {
      PushIndexWhenFull(d, front, back, empty, defaultVal);
      DisplaceCell(d, back, val);
    } else {
      PushIndexWithRoom(d, front, back, empty, defaultVal);
      var n := Count(front, back, empty, |d|);
      WriteBehind(d, back, n, val);
      AppendCell(d[Index(back, n, |d|) := val], back, n);
    }
  }

  // A full ring is written at its back, which moves on.
  lemma PushIndexWhenFull(d: seq<int>, front: nat, back: nat, empty: bool, defaultVal: int)
    requires Represents(d, front, back, empty, defaultVal) && Count(front, back, empty, |d|) == |d|
    ensures PushIndex(front, empty, |d|) == back && PushBack(front, back, empty, |d|) == Index(back, 1, |d|)
    ensures !empty && Count(back, Index(back, 1, |d|), false, |d|) == |d|
  {
  }

  // A ring with room is written behind its last element, where the default value is.
  lemma PushIndexWithRoom(d: seq<int>, front: nat, back: nat, empty: bool, defaultVal: int)
    requires Represents(d, front, back, empty, defaultVal) && Count(front, back, empty, |d|) < |d|
    ensures var n := Count(front, back, empty, |d|);
      && PushIndex(front, empty, |d|) == Index(back, n, |d|) && PushBack(front, back, empty, |d|) == back
      && Count(Index(back, n, |d|), back, false, |d|) == n + 1
      && d[Index(back, n, |d|)] == defaultVal
  {
    assert Distance(back, Index(back, Count(front, back, empty, |d|), |d|), |d|) == Count(front, back, empty, |d|);
  }

  class Ring {
    const size: nat
    const data: array<int>
    var defaultVal: int
    var front: nat
    var back: nat
    var empty: bool

    ghost predicate Valid()
      reads this, data
    {
      1 <= size == data.Length && Represents(data[..], front, back, empty, defaultVal)
    }

    ghost function Contents(): seq<int>
      reads this, data
      requires Valid()
    {
      View(data[..], front, back, empty, defaultVal)
    }

    constructor (size: nat, defaultVal: int)
      requires 1 <= size
      ensures Valid() && Contents() == [] && fresh(data)
      ensures this.size == size && this.defaultVal == defaultVal
    {
      this.size := size;
      this.defaultVal := defaultVal;
      data := new int[size](_ => defaultVal);
      front, back, empty := 0, 0, true;
    }

    // Only the flag tells an empty ring from a ring with one entry.
    method IsEmpty() returns (e: bool)
      requires Valid()
      ensures e <==> Contents() == []
      ensures front == back && !e ==> |Contents()| == 1
    {
      e := empty;
    }

    method Push(val: int) returns (displaced: int)
      requires Valid()
      modifies this`front, this`back, this`empty, data
      ensures Valid()
      ensures Contents() == Pushed(old(Contents()), val, size)
      ensures displaced == if |old(Contents())| == size then old(Contents())[0] else defaultVal
    {
      ghost var d := data[..];
      PushView(d, front, back, empty, defaultVal, val);
      var dest := if empty then front else if front + 1 == size then 0 else front + 1;
      var newBack := if dest == back && !empty then (if back + 1 == size then 0 else back + 1) else back;
      assert dest == PushIndex(front, empty, size) && newBack == PushBack(front, back, empty, size);
      displaced := data[dest];
      data[dest] := val;
      assert data[..] == d[dest := val];
      front, back, empty := dest, newBack, false;
    }

    // Popping from an empty ring aborts.
    method Pop() returns (top: int)
      requires Valid() && Contents() != []
      modifies this`front, this`empty, data
      ensures Valid()
      ensures old(Contents()) == Contents() + [top]
    {
      ghost var d := data[..];
      RemoveLastCell(d, back, Count(front, back, empty, size), defaultVal);
      top := data[front];
      data[front] := defaultVal;
      assert data[..] == d[front := defaultVal];
      if front == back {
        empty := true;
      } else {
        front := if front == 0 then size - 1 else front - 1;
      }
    }
  }

  // A push on a ring of n slots: the newest n items stay.
  function Pushed(s: seq<int>, val: int, n: nat): seq<int>
    requires 1 <= n
  {
    if |s| == n then s[1..] + [val] else s + [val]
  }

  datatype Op = Push(val: int) | Pop

  // A run: the items displaced so far, in the order in which push returned them, and the ring.
  // A run in which pop meets an empty ring aborts.
  datatype Run = Aborted | Running(displaced: seq<int>, ring: seq<int>)

  function Step(run: Run, op: Op, n: nat): Run
    requires 1 <= n
  {
    match run
    case Aborted => Aborted
    case Running(displaced, ring) =>
      match op
      case Push(val) => Running(if |ring| == n then displaced + [ring[0]] else displaced, Pushed(ring, val, n))
      case Pop => if ring == [] then Aborted else Running(displaced, ring[..|ring| - 1])
  }

  function RingAfter(ops: seq<Op>, n: nat): Run
    requires 1 <= n
  {
    if ops == [] then Running([], []) else Step(RingAfter(ops[..|ops| - 1], n), ops[|ops| - 1], n)
  }

  // An unbounded stack under the same operations.
  function StackAfter(ops: seq<Op>): seq<int> {
    if ops == [] then []
    else
      var s := StackAfter(ops[..|ops| - 1]);
      match ops[|ops| - 1]
      case Push(val) => s + [val]
      case Pop => if s == [] then s else s[..|s| - 1]
  }

  // Over every run the ring holds the top of the unbounded stack, at most n items, and exactly
  // what is missing below it has been handed back by push, oldest first.
  lemma {:induction false} RingIsTopOfStack(ops: seq<Op>, n: nat)
    requires 1 <= n
    ensures RingAfter(ops, n).Running? ==>
      && |RingAfter(ops, n).ring| <= n
      && StackAfter(ops) == RingAfter(ops, n).displaced + RingAfter(ops, n).ring
  {
    if ops != [] {
      var init := ops[..|ops| - 1];
      RingIsTopOfStack(init, n);
      if RingAfter(init, n).Running? {
        StepKeepsStack(RingAfter(init, n).displaced, RingAfter(init, n).ring, ops[|ops| - 1], n);
      }
    }
  }

  lemma StepKeepsStack(displaced: seq<int>, ring: seq<int>, op: Op, n: nat)
    requires 1 <= n && |ring| <= n
    ensures match Step(Running(displaced, ring), op, n)
      case Aborted => op == Pop && ring == []
      case Running(displaced', ring') =>
        && |ring'| <= n
        && displaced' + ring' == match op
             case Push(val) => displaced + ring + [val]
             case Pop => (displaced + ring)[..|displaced + ring| - 1]
  {
    if op.Push? && |ring| == n {
      assert ring == [ring[0]] + ring[1..];
    }
  }

  // While the stack never outgrows the ring nothing is displaced: the ring is the whole stack.
  lemma {:induction false} NothingLostBelowCapacity(ops: seq<Op>, n: nat)
    requires 1 <= n
    requires forall m :: 0 <= m <= |ops| ==> |StackAfter(ops[..m])| <= n
    ensures RingAfter(ops, n).Running? ==> RingAfter(ops, n) == Running([], StackAfter(ops))
  {
    if ops != [] {
      var init := ops[..|ops| - 1];
      forall m | 0 <= m <= |init|
        ensures |StackAfter(init[..m])| <= n
      {
        assert init[..m] == ops[..m];
      }
      assert ops[..|ops|] == ops;
      NothingLostBelowCapacity(init, n);
    }
  }

  // Running operations on a ring object that is empty at first: it ends up with the ring of the
  // list model, and push has handed back what the model displaces.
  method RunOps(ring: Ring, ops: seq<Op>) returns (aborted: bool, displaced: seq<int>)
    requires ring.Valid() && ring.Contents() == []
    modifies ring`front, ring`back, ring`empty, ring.data
    ensures ring.Valid()
    ensures RingAfter(ops, ring.size) == if aborted then Aborted else Running(displaced, ring.Contents())
    ensures !aborted ==> StackAfter(ops) == displaced + ring.Contents()
  {
    var held: nat := 0;
    aborted, displaced := false, [];
    assert ops[..0] == [];
    for i := 0 to |ops|
      invariant ring.Valid() && held == |ring.Contents()|
      invariant RingAfter(ops[..i], ring.size) == Running(displaced, ring.Contents())
    {
      assert ops[..i + 1][..i] == ops[..i];
      match ops[i]
      case Push(val) =>
        var back := ring.Push(val);
        if held == ring.size {
          displaced := displaced + [back];
        } else {
          held := held + 1;
        }
      case Pop =>
        var empty := ring.IsEmpty();
        if empty {
          StaysAborted(ops, i + 1, ring.size);
          return true, displaced;
        }
        ghost var contents := ring.Contents();
        var _ := ring.Pop();
        assert ring.Contents() == contents[..|contents| - 1];
        held := held - 1;
    }
    assert ops[..|ops|] == ops;
    RingIsTopOfStack(ops, ring.size);
  }

  lemma {:induction false} StaysAborted(ops: seq<Op>, i: nat, n: nat)
    requires 1 <= n && i <= |ops| && RingAfter(ops[..i], n) == Aborted
    ensures RingAfter(ops, n) == Aborted
    decreases |ops|
  {
    if i == |ops| {
      assert ops[..i] == ops;
    } else {
      assert ops[..|ops| - 1][..i] == ops[..i];
      StaysAborted(ops[..|ops| - 1], i, n);
    }
  }
}
