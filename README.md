# Sequential model of a Michael–Scott queue, its slice-backed reference, and a right-walking binary search tree

This project models three pieces of a Go sandbox repository in Dafny and proves
properties of them.

- **The linked FIFO queue** of `go/lock_free_queue/lock_free_queue.go`
  (module `LockFreeQueue`). It is the Michael–Scott non-blocking queue: a
  sentinel node heads a singly linked chain, `head` points at the sentinel
  and `tail` at the last node or, while an enqueue is half done, at the node
  before it. `Enqueue` links a new node after the last node and then swings
  `tail` to it. `Dequeue` moves `head` to `head.next`, whose node becomes the
  new sentinel, and returns that node's value. The queue is taken with
  sequential semantics. Every atomic load is a plain read. Every
  compare-and-swap is a helper (`CasNext`, `CasTail`, `CasHead`) that assigns
  only if the field holds the expected node and reports whether it did. The
  `for {}` retry loops are `while true` loops. Their measure is the distance
  from `tail` to the last node of the chain. A ghost `chain` of nodes and a
  `Valid()` invariant carry the structure, and `Contents()` is the values after
  the sentinel.
- **`MutexQueue`** from `go/lock_free_queue/lock_free_queue_benchmark_test.go`
  (module `MutexQueue`). It is a slice-backed FIFO of `int` and serves as the
  reference FIFO. `QueueClients.RunBoth` proves that, on every sequence of
  calls, it gives exactly the answers of a pure reference run (`RefRun`) and
  that the linked queue agrees with it.
- **The binary search tree** of `go/bst/bst.go` (module `BinarySearchTree`).
  `Insert` walks only to the right. It has no branch for
  `v <= current.data`, so on reaching such a node its loop spins forever
  without writing anything. Trees built by `New` and `Insert` are therefore
  right spines with strictly increasing values and nil left children. The
  model keeps `Insert`'s loop and reports the spinning case as
  `returned == false`. `InOrder` returns the sequence that the Go code
  prints.

The files are `wrappers.dfy` (the `Option` type), `lock_free_queue.dfy`,
`mutex_queue.dfy`, `queue_clients.dfy` and `bst.dfy`.

## Model

| member | source | states |
|---|---|---|
| `LockFreeQueue.Node.constructor` | go/lock_free_queue/lock_free_queue.go:8-12 | a node is built with its value and a nil `next`; `value` is a constant, so no operation ever rewrites it |
| `LockFreeQueue.Node.CasNext` | go/lock_free_queue/lock_free_queue.go:41 | compare-and-swap on `next`: succeeds exactly when `next` holds the expected node, and then holds the new one; otherwise nothing changes |
| `LockFreeQueue.Queue.CasTail` | go/lock_free_queue/lock_free_queue.go:48 | compare-and-swap on `tail`, with the same success condition and effect |
| `LockFreeQueue.Queue.CasHead` | go/lock_free_queue/lock_free_queue.go:73 | compare-and-swap on `head`, with the same success condition and effect |
| `LockFreeQueue.Queue.NilMarksLast` | go/lock_free_queue/lock_free_queue.go:37-39 | in a valid chain a node's `next` is nil exactly when it is the last node, so the node the loops find with a nil `next` is the true end of the queue |
| `LockFreeQueue.Queue.EmptyIffNoSuccessor` | go/lock_free_queue/lock_free_queue.go:62-67 | the contents are empty exactly when the sentinel's `next` is nil |
| `LockFreeQueue.Queue.constructor` | go/lock_free_queue/lock_free_queue.go:20-27 | a fresh queue has `head == tail ==` one sentinel whose `next` is nil; it satisfies the invariant and its contents are empty |
| `LockFreeQueue.Queue.LinkAfterTail` | go/lock_free_queue/lock_free_queue.go:39-45 | the linking CAS succeeds exactly when the tail node's `next` is nil; on success the new node is appended to the chain, the invariant still holds, and `tail` now lags one node behind |
| `LockFreeQueue.Queue.HelpTail` | go/lock_free_queue/lock_free_queue.go:46-49 | the helping step moves `tail` exactly one node forward along the chain, keeps the invariant and leaves the contents unchanged (the same step serves at lines 43 and 70) |
| `LockFreeQueue.Queue.Enqueue` | go/lock_free_queue/lock_free_queue.go:29-52 | contents become `old + [v]`; `tail` is the fresh new node, which is last and has a nil `next`; `head` and the earlier chain are unchanged; only `tail`, the old last node's `next` and ghost state may change |
| `LockFreeQueue.Queue.Dequeue` | go/lock_free_queue/lock_free_queue.go:54-80 | on empty contents returns `None` and changes no field; otherwise returns the first content value, `head` becomes the old `head.next` (the new sentinel), the chain loses its old sentinel, contents become `old[1..]`, and `tail` moves only if it was lagging at the sentinel; only `head` and `tail` may change |
| `QueueClients.FifoExample` | go/lock_free_queue/lock_free_queue.go:86-93 | `Enqueue(1)`, `Enqueue(2)` and `Enqueue(3)` followed by four `Dequeue`s yield 1, 2, 3, then nothing |
| `QueueClients.EnqueueAll` | go/lock_free_queue/lock_free_queue_test.go:6-10 | enqueuing values one after another on a new queue leaves exactly those values, in order, as its contents |
| `QueueClients.EnqueueAllThenDrain` | go/lock_free_queue/lock_free_queue.go:29-80 | FIFO for any batch: after enqueuing `vs`, `|vs|` dequeues return `vs` in order and one more reports the queue empty |
| `QueueClients.RefRun` | go/lock_free_queue/lock_free_queue_benchmark_test.go:144-159 | the reference FIFO over a sequence of calls (enqueue appends at the back; dequeue answers the front and drops it, or `(0, false)` when empty) gives exactly one answer per dequeue |
| `QueueClients.RunBoth` | go/lock_free_queue/lock_free_queue_benchmark_test.go:135-159 | on every sequence of enqueues and dequeues, `MutexQueue` gives exactly the reference FIFO's answers (`RefRun`), one per dequeue. The linked queue gives the same answers, with `None` matching `(0, false)` and `Some(v)` matching `(v, true)`. The loop invariant is that the linked queue's contents equal the slice. |
| `MutexQueue.MutexQueue.constructor` | go/lock_free_queue/lock_free_queue_benchmark_test.go:140-142 | a new queue has an empty slice |
| `MutexQueue.MutexQueue.Enqueue` | go/lock_free_queue/lock_free_queue_benchmark_test.go:144-148 | the slice becomes `old + [val]` |
| `MutexQueue.MutexQueue.Dequeue` | go/lock_free_queue/lock_free_queue_benchmark_test.go:150-159 | on an empty slice returns `(0, false)` and leaves the slice alone; otherwise returns `(old[0], true)` and leaves `old[1..]`, the rest in their order |
| `BinarySearchTree.Node.constructor` | go/bst/bst.go:8-12 | a node is built with its value and nil children; `data` is a constant, so no operation ever rewrites it |
| `BinarySearchTree.InOrder` | go/bst/bst.go:37-44 | the traversal of a tree is empty exactly when the tree is nil |
| `BinarySearchTree.Tree.constructor` | go/bst/bst.go:14-16 | `New` gives a tree whose `root` is nil and whose spine is empty |
| `BinarySearchTree.Tree.NilRightMarksLast` | go/bst/bst.go:27 | on a valid spine a node's `right` is nil exactly when it is the last spine node |
| `BinarySearchTree.Tree.SpineIncreasing` | go/bst/bst.go:26-31 | any two spine nodes, the higher one holds the smaller value |
| `BinarySearchTree.Tree.SpineSorted` | go/bst/bst.go:26-31 | the values down the spine strictly increase |
| `BinarySearchTree.Tree.AboveLastIffAboveAll` | go/bst/bst.go:25-34 | `v` is above the last spine value exactly when it is above every spine value, which are the values `Insert` compares it with |
| `BinarySearchTree.Tree.Attach` | go/bst/bst.go:27-29 | a fresh leaf holding `v` becomes the `right` child of the last spine node; the spine grows by that leaf and stays valid |
| `BinarySearchTree.Tree.Insert` | go/bst/bst.go:18-35 | the call returns exactly when `v` is above every spine value; it then appends one fresh leaf holding `v` at the end of the spine (as the root of an empty tree) and keeps the spine strictly increasing; otherwise (the spinning case) nothing changes; only `root` and `right` fields are written, never `left` or `data` |
| `BinarySearchTree.Tree.InOrderFrom` | go/bst/bst.go:38-43 | traversing from any spine node emits the values from that node to the end of the spine |
| `BinarySearchTree.Tree.InOrderSorted` | go/bst/bst.go:37-44 | for a tree built by `New` and `Insert`, `InOrder(root)` emits the spine's values, in strictly increasing order, as the doc comment's "sorted order" promises |
| `BinarySearchTree.InsertExample` | go/bst/bst_test.go:11-22 | inserting 1337, 2000 and 3000 into a new tree returns each time, and the traversal is 1337, 2000, 3000 |
| `BinarySearchTree.InsertStallExample` | go/bst/bst_test.go:18-20 | after 1337, 2000 and 3000, inserting 2500 does not return, since 2500 is not above 3000, the last spine value |

## Left out

- Concurrency in the queue is not modelled. That covers interleavings of atomic loads and CAS, linearizability, lock-freedom and memory reclamation. Every operation runs alone.
- The re-read checks at go/lock_free_queue/lock_free_queue.go:38 and :63 always succeed when operations run alone, so the model omits them.
- A CAS that fails cannot happen sequentially. The retry branches are kept, and assertions after the linking CAS in `Enqueue` and the head CAS in `Dequeue` state that those CASes succeed.
- `unsafe.Pointer` fields are references. `Node.next` is nullable (`Node?<T>`). `Queue.head` and `Queue.tail` are non-null `Node<T>`, because `NewLockFreeQueue` is the only way the model builds a queue.
- The zero-value `LockFreeQueue{}` is not modelled. Its nil `head` and `tail` make `Enqueue` and `Dequeue` panic on a nil dereference at go/lock_free_queue/lock_free_queue.go:35 and :60.
- Go's `Dequeue` returns `nil` for "empty", which is ambiguous when `nil` itself was enqueued. The model returns `Option<T>`.
- The sentinel's value: Go builds the sentinel with the zero value of `interface{}`. The model builds it with an arbitrary value of `T`, which is never part of the contents.
- The generic API (`NewLockFreeQueue[T]`, `Peek`, `Size`, `IsEmpty`, `Clear`, `ResetSize` and an approximate size counter) is called from go/lock_free_queue/example/main.go and the benchmark file. go/lock_free_queue/lock_free_queue.go defines none of it, so the model follows the code and leaves it out.
- The rest of the benchmark file and the `sync.Mutex` inside `MutexQueue` are not modelled. They are goroutines, `WaitGroup`s and timing, and the mutex has no effect when callers are sequential. The slice's initial capacity of 1000 has no observable effect and is not modelled.
- `InOrder` prints with `fmt.Printf`. The model returns the printed values as a sequence.
- `BinarySearchTree.Tree.Insert` cannot be written as a call that never returns, because the model must prove termination. It stops at the node where the Go loop would start spinning and reports `returned == false`. Nothing has been written by then. The call's non-termination itself is not modelled.
- `BinarySearchTree.Tree.Insert`: its frame shows that it writes no `left` field. Dafny has no read frames on methods, so the claim that it never reads one is not stated.
- The tree invariant `Valid()` describes exactly the trees `New` and `Insert` can build, so sortedness of `InOrder` is proved for those trees only. `InOrder` itself is defined for any finite tree.
- `InsertIter` and `InsertRec`, which go/bst/bst_test.go calls, are not part of this model because go/bst/bst.go does not define them. The two example methods replay that test's values with `Insert`.
- Go's `int` is 64 bits wide. The queues only store and return values, and the tree only compares them, so unbounded `int` changes no behaviour.
