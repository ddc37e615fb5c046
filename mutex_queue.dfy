/**
 * The slice-backed `MutexQueue` that go/lock_free_queue/lock_free_queue_benchmark_test.go
 * measures the lock-free queue against. It is the reference FIFO: its `data`
 * slice is exactly the queue's contents. The mutex only serialises callers and
 * has no sequential effect.
 */
module MutexQueue {

  class MutexQueue {
    var data: seq<int>

    /** `newMutexQueue`: an empty slice (its initial capacity has no observable effect). */
    constructor ()
      ensures data == []
    {
      data := [];
    }

    /** `enqueue`: appends `val` to the slice. */
    method Enqueue(val: int)
      modifies this
      ensures data == old(data) + [val]
    {
      data := data + [val];
    }

    /**
     * `dequeue`: `(0, false)` on an empty slice, otherwise the first element
     * and `true`, re-slicing past it.
     */
    method Dequeue() returns (val: int, ok: bool)
      modifies this
      ensures ok <==> old(data) != []
      ensures !ok ==> val == 0 && data == old(data)
      ensures ok ==> val == old(data)[0] && data == old(data)[1..]
    {
      if |data| == 0 {
        return 0, false;
      }
      val := data[0];
      data := data[1..];
      return val, true;
    }
  }
}
