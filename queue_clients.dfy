/**
 * What callers of the two queues can rely on: the FIFO example of
 * go/lock_free_queue/lock_free_queue.go, first-in first-out delivery for any
 * batch of values, and agreement of the linked queue with the slice-backed
 * reference on every sequence of operations.
 */
module QueueClients {
  import opened Wrappers
  import LockFreeQueue
  import MutexQueue

  /** The example in the comment at the end of the Go file: 1, 2, 3, then nil. */
  method FifoExample() returns (out: seq<Option<int>>)
    ensures out == [Some(1), Some(2), Some(3), None]
  {
    var q := new LockFreeQueue.Queue<int>();
    q.Enqueue(1);
    q.Enqueue(2);
    q.Enqueue(3);
    var a := q.Dequeue();
    var b := q.Dequeue();
    var c := q.Dequeue();
    var d := q.Dequeue();
    out := [a, b, c, d];
  }

  /** Enqueues all of `vs`, in order, on a fresh queue. */
  method EnqueueAll(vs: seq<int>) returns (q: LockFreeQueue.Queue<int>)
    ensures q.Valid() && fresh(q.Repr) && q.Contents() == vs
  {
    q := new LockFreeQueue.Queue<int>();
    var i := 0;
    while i < |vs|
      invariant 0 <= i <= |vs|
      invariant q.Valid() && fresh(q.Repr) && q.Contents() == vs[..i]
    {
      q.Enqueue(vs[i]);
      i := i + 1;
    }
    assert vs[..i] == vs;
  }

  /**
   * First in, first out: enqueue all of `vs` on a fresh queue, then dequeue
   * one more time than there are values. The dequeues return `vs` in order and
   * then report the queue empty.
   */
  method EnqueueAllThenDrain(vs: seq<int>) returns (out: seq<Option<int>>)
    ensures |out| == |vs| + 1
    ensures forall j :: 0 <= j < |vs| ==> out[j] == Some(vs[j])
    ensures out[|vs|] == None
  {
    var q := EnqueueAll(vs);
    out := [];
    var i := 0;
    while i < |vs|
      invariant 0 <= i <= |vs|
      invariant q.Valid() && fresh(q.Repr) && q.Contents() == vs[i..]
      invariant |out| == i && forall j :: 0 <= j < i ==> out[j] == Some(vs[j])
    {
      var r := q.Dequeue();
      out := out + [r];
      i := i + 1;
    }
    var r := q.Dequeue();
    out := out + [r];
  }

  /** One call on a queue: enqueue a value, or dequeue. */
  datatype Op = Enqueue(v: int) | Dequeue

  /** How the slice-backed queue reports a dequeue result of the linked queue. */
  function AsPair(r: Option<int>): (int, bool)
  {
    match r
    case Some(v) => (v, true)
    case None => (0, false)
  }

  /** How many of `ops` are dequeues. */
  function Dequeues(ops: seq<Op>): nat
  {
    if ops == [] then 0
    else (if ops[0].Dequeue? then 1 else 0) + Dequeues(ops[1..])
  }

  /**
   * The reference FIFO run over `ops`, starting from the values `data`: an
   * enqueue appends at the back, a dequeue answers `(front, true)` and drops
   * the front, or `(0, false)` when there is nothing. One answer per dequeue.
   */
  function RefRun(ops: seq<Op>, data: seq<int>): (answers: seq<(int, bool)>)
    ensures |answers| == Dequeues(ops)
  {
    if ops == [] then []
    else match ops[0]
      case Enqueue(v) => RefRun(ops[1..], data + [v])
      case Dequeue =>
        if data == [] then [(0, false)] + RefRun(ops[1..], data)
        else [(data[0], true)] + RefRun(ops[1..], data[1..])
  }

  /**
   * Runs the same calls on a fresh linked queue and a fresh slice-backed queue.
   * The slice-backed queue gives exactly the reference FIFO's answers, one per
   * dequeue, and the linked queue gives the same answers up to Go's
   * `(0, false)` standing for "empty": the linked queue refines the FIFO.
   */
  method RunBoth(ops: seq<Op>) returns (linked: seq<Option<int>>, slice: seq<(int, bool)>)
    ensures slice == RefRun(ops, [])
    ensures |linked| == |slice| == Dequeues(ops)
    ensures forall i :: 0 <= i < |linked| ==> slice[i] == AsPair(linked[i])
  {
    var q := new LockFreeQueue.Queue<int>();
    var m := new MutexQueue.MutexQueue();
    linked, slice := [], [];
    assert ops[0..] == ops;
    for k := 0 to |ops|
      invariant q.Valid() && q.Contents() == m.data
      invariant fresh(q.Repr)
      invariant fresh(m)
      invariant slice + RefRun(ops[k..], m.data) == RefRun(ops, [])
      invariant |linked| == |slice|
      invariant forall i :: 0 <= i < |linked| ==> slice[i] == AsPair(linked[i])
    {
      assert ops[k..][0] == ops[k] && ops[k..][1..] == ops[k + 1..];
      match ops[k]
      case Enqueue(v) =>
        q.Enqueue(v);
        m.Enqueue(v);
      case Dequeue =>
        var r := q.Dequeue();
        var val, ok := m.Dequeue();
        linked, slice := linked + [r], slice + [(val, ok)];
    }
  }
}
