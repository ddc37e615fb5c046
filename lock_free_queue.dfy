/**
 * The Michael-Scott linked FIFO queue of go/lock_free_queue/lock_free_queue.go,
 * taken with sequential semantics: every atomic load is a plain read and every
 * compare-and-swap is a conditional assignment that reports whether it happened.
 */
module LockFreeQueue {
  import opened Wrappers

  /** One link of the chain. The value is fixed when the node is built; only `next` changes. */
  class Node<T> {
    const value: T
    var next: Node?<T>

    constructor (v: T)
      ensures value == v && next == null
    {
      value := v;
      next := null;
    }

    /** Compare-and-swap on `next`. */
    method CasNext(expected: Node?<T>, desired: Node?<T>) returns (swapped: bool)
      modifies this`next
      ensures swapped <==> old(next) == expected
      ensures next == if swapped then desired else old(next)
    {
      swapped := next == expected;
      if swapped {
        next := desired;
      }
    }
  }

  /** The values held by a run of nodes, in order. */
  ghost function Values<T>(nodes: seq<Node<T>>): (vs: seq<T>)
  {
    seq(|nodes|, i requires 0 <= i < |nodes| => nodes[i].value)
  }

  class Queue<T(0)> {
    var head: Node<T>
    var tail: Node<T>
    /** The nodes from `head` to the last node, following `next`. */
    ghost var chain: seq<Node<T>>
    /** The position of `tail` in `chain`. */
    ghost var tailAt: nat
    /** Every node the queue has ever linked, the current chain among them. */
    ghost var Repr: set<Node<T>>

    /**
     * The object invariant: `head` is the first node of an acyclic chain whose
     * last node alone has a nil `next`, and `tail` is some node of that chain
     * at or after `head` (it may lag behind the last node).
     */
    ghost predicate Valid()
      reads this, chain
    {
      |chain| >= 1 && chain[0] == head &&
      (forall i :: 0 <= i < |chain| - 1 ==> chain[i].next == chain[i + 1]) &&
      chain[|chain| - 1].next == null &&
      (forall i, j :: 0 <= i < j < |chain| ==> chain[i] != chain[j]) &&
      tailAt < |chain| && chain[tailAt] == tail &&
      (forall i :: 0 <= i < |chain| ==> chain[i] in Repr)
    }

    /** The queue's contents: the values after the sentinel `head`. */
    ghost function Contents(): seq<T>
      reads this
      requires |chain| >= 1
    {
      Values(chain[1..])
    }

    /** The last node of the chain: the one whose `next` is nil. */
    ghost function Last(): Node<T>
      reads this
      requires |chain| >= 1
    {
      chain[|chain| - 1]
    }

    /** In a valid chain exactly the last node has a nil `next`. */
    lemma NilMarksLast(i: nat)
      requires Valid() && i < |chain|
      ensures chain[i].next == null <==> i == |chain| - 1
    {
      if i < |chain| - 1 {
        assert chain[i].next == chain[i + 1];
      }
    }

    /** The queue is empty exactly when the sentinel has no successor. */
    lemma EmptyIffNoSuccessor()
      requires Valid()
      ensures Contents() == [] <==> head.next == null
    {
      NilMarksLast(0);
    }

    /**
     * `NewLockFreeQueue`: `head` and `tail` both point to one sentinel node.
     * Go gives the sentinel the zero value; here it holds an arbitrary value
     * that is never part of the contents.
     */
    constructor ()
      ensures Valid() && fresh(Repr)
      ensures |chain| == 1 && head == tail && head.next == null
      ensures Contents() == []
    {
      var zero: T := *;
      var sentinel := new Node(zero);
      head, tail := sentinel, sentinel;
      chain, tailAt, Repr := [sentinel], 0, {sentinel};
    }

    /** Compare-and-swap on `tail`. */
    method CasTail(expected: Node<T>, desired: Node<T>) returns (swapped: bool)
      modifies this`tail
      ensures swapped <==> old(tail) == expected
      ensures tail == if swapped then desired else old(tail)
    {
      swapped := tail == expected;
      if swapped {
        tail := desired;
      }
    }

    /** Compare-and-swap on `head`. */
    method CasHead(expected: Node<T>, desired: Node<T>) returns (swapped: bool)
      modifies this`head
      ensures swapped <==> old(head) == expected
      ensures head == if swapped then desired else old(head)
    {
      swapped := head == expected;
      if swapped {
        head := desired;
      }
    }

    /**
     * `Enqueue`: links a new node after the last node and swings `tail` to it,
     * first helping a lagging `tail` forward one node at a time.
     */
    method Enqueue(v: T)
      requires Valid()
      modifies this`tail, this`chain, this`tailAt, this`Repr, Last()`next
      ensures Valid() && fresh(Repr - old(Repr))
      ensures Contents() == old(Contents()) + [v]
      ensures head == old(head)
      ensures chain[..|old(chain)|] == old(chain) && fresh(tail)
      ensures tail == chain[|chain| - 1] && tail.value == v && tail.next == null
    {
      var newNode := new Node(v);
      while true
        invariant Valid() && head == old(head) && chain == old(chain) && Repr == old(Repr)
        invariant fresh(newNode) && newNode.next == null
        decreases |chain| - tailAt
      {
        var t := tail;
        var next := t.next;
        if next == null {
          // only the last node has no successor
          NilMarksLast(tailAt);
          var linked := LinkAfterTail(t, newNode);
          // run alone, the link cannot fail
          assert linked;
          if linked {
            // swing the tail to the new node; the same step as helping
            HelpTail(t, newNode);
            return;
          }
        } else {
          // the tail lags behind: help it forward, then retry
          HelpTail(t, next);
        }
      }
    }

    /**
     * The linking step: a compare-and-swap of the tail node's nil `next` to
     * the new node. On success the new node is the last of the chain and
     * `tail` lags one node behind it.
     */
    method LinkAfterTail(t: Node<T>, newNode: Node<T>) returns (linked: bool)
      requires Valid() && t == tail && newNode.next == null && newNode !in Repr
      modifies this`chain, this`Repr, t`next
      ensures Valid()
      ensures linked <==> old(t.next) == null
      ensures linked ==> chain == old(chain) + [newNode] && Repr == old(Repr) + {newNode}
      ensures !linked ==> chain == old(chain) && Repr == old(Repr)
    {
      NilMarksLast(tailAt);
      linked := t.CasNext(null, newNode);
      if linked {
        chain, Repr := chain + [newNode], Repr + {newNode};
      }
    }

    /**
     * The helping step: a lagging `tail` is swung one node forward along the
     * chain. The contents do not change.
     */
    method HelpTail(t: Node<T>, next: Node<T>)
      requires Valid() && t == tail && t.next == next
      modifies this`tail, this`tailAt
      ensures Valid() && Contents() == old(Contents())
      ensures tailAt == old(tailAt) + 1 && tail == next
    {
      NilMarksLast(tailAt);
      var _ := CasTail(t, next);
      tailAt := tailAt + 1;
    }

    /**
     * `Dequeue`: on an empty queue returns `None` (Go's `nil`) and changes
     * nothing; otherwise advances `head` to the first element's node, which
     * becomes the new sentinel, and returns that node's value. A `tail` left
     * at the sentinel is helped forward first.
     */
    method Dequeue() returns (r: Option<T>)
      requires Valid()
      modifies this`head, this`tail, this`chain, this`tailAt
      ensures Valid()
      ensures r == if old(Contents()) == [] then None else Some(old(Contents())[0])
      ensures old(Contents()) == [] ==> head == old(head) && tail == old(tail) && chain == old(chain)
      ensures old(Contents()) != [] ==>
                chain == old(chain)[1..] && head == old(head.next) && Contents() == old(Contents())[1..] &&
                tail == if old(tail) == old(head) then old(head.next) else old(tail)
    {
      while true
        invariant Valid() && chain == old(chain) && head == old(head)
        invariant tail == old(tail) || (old(tail) == old(head) && tail == old(head.next))
        decreases |chain| - tailAt
      {
        var h := head;
        var t := tail;
        var next := h.next;
        if h == t {
          if next == null {
            // the queue is empty
            return None;
          }
          // the tail lags behind: help it forward, then retry
          HelpTail(t, next);
        } else {
          NilMarksLast(0);
          var advanced := CasHead(h, next);
          // run alone, the head cannot have moved
          assert advanced;
          if advanced {
            // the old first element's node becomes the new sentinel
            chain, tailAt := chain[1..], tailAt - 1;
            return Some(next.value);
          }
        }
      }
    }
  }
}
