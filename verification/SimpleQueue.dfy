/** The STAILQ macros of base/queue.h: a singly linked queue whose `stqh_last`
    is the address of the cell that holds the final NULL. */
module SimpleQueue {
  import opened Sequences

  datatype Link<T> = Nowhere | FirstOf(q: Queue<T>) | NextOf(e: Node<T>)

  /** A struct that embeds STAILQ_ENTRY; `val` stands for its other fields. */
  class Node<T> {
    var next: Node?<T>
    const val: T

    constructor (v: T)
      ensures val == v
    {
      val := v;
      next := null;
    }
  }

  ghost function At<T>(s: seq<Node<T>>, i: nat): Node?<T>
    requires i <= |s|
  {
    if i == |s| then null else s[i]
  }

  class Queue<T> {
    var first: Node?<T>
    var last: Link<T>
    ghost var elems: seq<Node<T>>

    /** A head in zeroed memory. */
    constructor Zero()
      ensures first == null && last == Nowhere && elems == []
    {
      first, last, elems := null, Nowhere, [];
    }

    ghost predicate Valid()
      reads this, elems`next
    {
      && Distinct(elems)
      && first == At(elems, 0)
      && last == (if elems == [] then FirstOf(this) else NextOf(elems[|elems| - 1]))
      && (forall i {:trigger elems[i].next} :: 0 <= i < |elems| ==> elems[i].next == At(elems, i + 1))
    }

    /** STAILQ_INIT */
    method Init()
      modifies this
      ensures Valid() && elems == []
    {
      first := null;
      last := FirstOf(this);
      elems := [];
    }

    /** STAILQ_FIRST; STAILQ_EMPTY compares it with NULL. */
    function First(): (r: Node?<T>)
      requires Valid()
      reads this, elems`next
      ensures r == At(elems, 0)
    {
      first
    }

    /** STAILQ_INSERT_TAIL */
    method InsertTail(e: Node<T>)
      requires Valid() && e !in elems
      modifies this, e`next, elems`next
      ensures Valid() && elems == old(elems) + [e]
    {
      e.next := null;
      match last {
        case FirstOf(q) => q.first := e;
        case NextOf(l) => l.next := e;
      }
      last := NextOf(e);
      elems := elems + [e];
    }

    /** STAILQ_REMOVE_HEAD */
    method RemoveHead()
      requires Valid() && elems != []
      modifies this
      ensures Valid() && elems == old(elems)[1..]
    {
      assert first.next == At(elems, 1);
      first := first.next;
      if first == null {
        last := FirstOf(this);
      }
      elems := elems[1..];
    }
  }
}
