/**
 lk::Fifo: a ring buffer of messages with a pipe that holds one byte per queued message. Every method works under one
 mutex. Messages are identified by their address.
 */
module Fifo {
  import opened Options

  const SIZE: nat := 1024

  /** One place stays empty, to tell a full ring from an empty one. */
  const CAPACITY: nat := SIZE - 1

  function Next(i: nat): nat
  {
    (i + 1) % SIZE
  }

  /** The place k positions after i. */
  function Place(i: nat, k: nat): (p: nat)
    ensures p < SIZE
  {
    (i + k) % SIZE
  }

  /** The ring holds the queue, oldest message first. */
  ghost predicate Holds(read: nat, write: nat, data: seq<nat>, queue: seq<nat>)
  {
    && |data| == SIZE && read < SIZE && |queue| <= CAPACITY
    && write == Place(read, |queue|)
    && forall k | 0 <= k < |queue| :: data[Place(read, k)] == queue[k]
  }

  lemma PlaceStep(i: nat, k: nat)
    ensures Next(Place(i, k)) == Place(i, k + 1)
    ensures Place(Next(i), k) == Place(i, k + 1)
  {
    PlaceAdds(i + k, 1);
    PlaceAdds(i + 1, k);
  }

  lemma PlaceAdds(i: nat, k: nat)
    ensures (i % SIZE + k) % SIZE == (i + k) % SIZE
  {
    var q, r := i / SIZE, (i % SIZE + k) / SIZE;
    assert i == q * SIZE + i % SIZE;
    assert i + k == (q + r) * SIZE + (i % SIZE + k) % SIZE;
  }

  lemma PlacesDiffer(i: nat, j: nat, k: nat)
    requires j < k < j + SIZE
    ensures Place(i, j) != Place(i, k)
  {
  }

  /** The two tests of the ring: full and empty. */
  lemma FullOrEmpty(read: nat, write: nat, data: seq<nat>, queue: seq<nat>)
    requires Holds(read, write, data, queue)
    ensures Next(write) == read <==> |queue| == CAPACITY
    ensures read == write <==> queue == []
  {
    PlaceStep(read, |queue|);
    if |queue| < CAPACITY {
      PlacesDiffer(read, 0, |queue| + 1);
    }
    if queue != [] {
      PlacesDiffer(read, 0, |queue|);
    }
  }

  /** Writing to the free place changes no queued message. */
  lemma StoreKeeps(read: nat, write: nat, data: seq<nat>, queue: seq<nat>, m: nat)
    requires Holds(read, write, data, queue)
    ensures Holds(read, write, data[write := m], queue)
  {
    forall k | 0 <= k < |queue|
      ensures data[write := m][Place(read, k)] == queue[k]
    {
      PlacesDiffer(read, k, |queue|);
    }
  }

  /** Moving the write position queues what is stored there. */
  lemma MoveWrite(read: nat, write: nat, data: seq<nat>, queue: seq<nat>)
    requires Holds(read, write, data, queue) && |queue| < CAPACITY
    ensures Holds(read, Next(write), data, queue + [data[write]])
  {
    PlaceStep(read, |queue|);
  }

  /** Moving the read position takes the oldest message off. */
  lemma MoveRead(read: nat, write: nat, data: seq<nat>, queue: seq<nat>)
    requires Holds(read, write, data, queue) && queue != []
    ensures data[read] == queue[0] && Holds(Next(read), write, data, queue[1..])
  {
    PlaceStep(read, |queue| - 1);
    assert Place(read, 0) == read;
    forall k | 0 <= k < |queue| - 1
      ensures data[Place(Next(read), k)] == queue[1..][k]
    {
      PlaceStep(read, k);
    }
  }

  class Fifo {
    var read: nat
    var write: nat
    const data: array<nat>
    var pipe: nat              // bytes in the pipe
    ghost var queue: seq<nat>
    ghost var deleted: seq<nat>

    ghost predicate Valid()
      reads this, data
    {
      && data.Length == SIZE
      && Holds(read, write, data[..], queue)
      && pipe == |queue|
    }

    constructor ()
      ensures Valid() && queue == [] && deleted == [] && fresh(data)
    {
      read, write, pipe := 0, 0, 0;
      data := new nat[SIZE];
      queue, deleted := [], [];
    }

    /** push: a message is queued, or deleted when the ring is full. */
    method Push(m: nat) returns (ok: bool)
      requires Valid()
      modifies this, data
      ensures Valid()
      ensures ok <==> |old(queue)| < CAPACITY
      ensures queue == if ok then old(queue) + [m] else old(queue)
      ensures deleted == if ok then old(deleted) else old(deleted) + [m]
    {
      FullOrEmpty(read, write, data[..], queue);
      var next := (write + 1) % SIZE;
      if next != read {
        ghost var data0 := data[..];
        StoreKeeps(read, write, data0, queue, m);
        MoveWrite(read, write, data0[write := m], queue);
        data[write] := m;
        assert data[..] == data0[write := m];
        write := next;
        pipe := pipe + 1;
        queue := queue + [m];
        return true;
      } else {
        deleted := deleted + [m];
        return false;
      }
    }

    /** pop: the oldest message is handed over and deleted. */
    method Pop() returns (m: Option<nat>)
      requires Valid()
      modifies this
      ensures Valid()
      ensures if old(queue) == [] then m == None && queue == [] && deleted == old(deleted)
              else m == Some(old(queue)[0]) && queue == old(queue)[1..] && deleted == old(deleted) + [old(queue)[0]]
    {
      FullOrEmpty(read, write, data[..], queue);
      if read == write {
        return None;
      }
      MoveRead(read, write, data[..], queue);
      var next := (read + 1) % SIZE;
      m := Some(data[read]);
      read := next;
      pipe := pipe - 1;
      deleted := deleted + [queue[0]];
      queue := queue[1..];
    }

    /** hasMessage, between other calls. */
    method HasMessage() returns (b: bool)
      requires Valid()
      ensures b <==> queue != []
    {
      FullOrEmpty(read, write, data[..], queue);
      b := read != write;
    }

    /** The destructor deletes every queued message, oldest first, and empties the pipe. */
    method Destroy()
      requires Valid()
      modifies this
      ensures queue == [] && pipe == 0 && deleted == old(deleted) + old(queue)
    {
      FullOrEmpty(read, write, data[..], queue);
      while read != write
        invariant Valid() && (read == write <==> queue == [])
        invariant deleted + queue == old(deleted) + old(queue)
        decreases |queue|
      {
        MoveRead(read, write, data[..], queue);
        var next := (read + 1) % SIZE;
        assert deleted + queue == (deleted + [queue[0]]) + queue[1..];
        deleted := deleted + [data[read]];
        read := next;
        pipe := pipe - 1;
        queue := queue[1..];
        FullOrEmpty(read, write, data[..], queue);
      }
    }
  }
}
