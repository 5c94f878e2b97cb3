/** The bounded ring buffer of the keys whose values have been asked for. */
module CirQueue {
  import opened Bytes

  const QUE_SIZE: nat := 4096

  // The slot i places after front.
  function Slot(front: nat, i: nat): (k: nat)
    requires front < QUE_SIZE && i < QUE_SIZE
    ensures k < QUE_SIZE && k == (front + i) % QUE_SIZE
  {
    if front + i < QUE_SIZE then front + i else front + i - QUE_SIZE
  }

  class CirQueue {
    const data: array<Option<bytes>>
    var front: nat
    var rear: nat
    var count: int
    // The queued keys, oldest first; the other slots are empty.
    ghost var contents: seq<bytes>

    ghost predicate Valid()
      reads this, data
    {
      && data.Length == QUE_SIZE && front < QUE_SIZE && |contents| == count < QUE_SIZE
      && rear == Slot(front, count)
      && (forall i {:trigger contents[i]} :: 0 <= i < count ==> data[Slot(front, i)] == Some(contents[i]))
      && (forall i {:trigger Slot(front, i)} :: count <= i < QUE_SIZE ==> data[Slot(front, i)] == None)
    }

    constructor ()
      ensures Valid() && contents == [] && data.Length == 4096 && fresh(data)
    {
      data := new Option<bytes>[QUE_SIZE](_ => None);
      front, rear, count := 0, 0, 0;
      contents := [];
    }

    method IsEmpty() returns (empty: bool)
      requires Valid()
      ensures empty <==> contents == []
    {
      empty := front == rear;
    }

    // One slot always stays free.
    method IsFull() returns (full: bool)
      requires Valid()
      ensures full <==> |contents| == QUE_SIZE - 1
    {
      full := count == QUE_SIZE - 1;
    }

    method Push(x: bytes)
      requires Valid()
      modifies this, data
      ensures Valid()
      ensures contents == Pushed(old(contents), x)
    {
      var full := IsFull();
      if full {
        return;
      }
      count := count + 1;
      data[rear] := Some(x);
      rear := (rear + 1) % QUE_SIZE;
      contents := contents + [x];
    }

    // Clears the front slot and moves past it.
    method Drop() returns (x: bytes)
      requires Valid() && contents != []
      modifies this, data
      ensures Valid() && contents == old(contents)[1..]
      ensures x == old(contents)[0]
    {
      ghost var (was, start) := (contents, front);
      assert data[Slot(front, 0)] == Some(contents[0]);
      x := data[front].value;
      data[front] := None;
      count := count - 1;
      front := (front + 1) % QUE_SIZE;
      contents := contents[1..];
      forall i | 0 <= i < count
        ensures data[Slot(front, i)] == Some(contents[i])
      {
        assert contents[i] == was[i + 1];
      }
      forall i | count <= i < QUE_SIZE
        ensures data[Slot(front, i)] == None
      {
        assert Slot(front, i) == if i + 1 < QUE_SIZE then Slot(start, i + 1) else start;
      }
    }

    method Pop() returns (x: Option<bytes>)
      requires Valid()
      modifies this, data
      ensures Valid()
      ensures x == First(old(contents)) && contents == Popped(old(contents))
    {
      var empty := IsEmpty();
      if empty {
        return None;
      }
      var y := Drop();
      x := Some(y);
    }

    method Clear()
      requires Valid()
      modifies this, data
      ensures Valid() && contents == []
    {
      var empty := IsEmpty();
      while !empty
        invariant Valid() && (empty <==> contents == [])
        decreases |contents|
      {
        var _ := Drop();
        empty := IsEmpty();
      }
    }
  }

  // A key that does not fit is not queued.
  function Pushed(q: seq<bytes>, x: bytes): seq<bytes> {
    if |q| == QUE_SIZE - 1 then q else q + [x]
  }

  function First(q: seq<bytes>): Option<bytes> {
    if q == [] then None else Some(q[0])
  }

  function Popped(q: seq<bytes>): seq<bytes> {
    if q == [] then [] else q[1..]
  }
}
