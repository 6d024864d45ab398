/** The TAILQ macros of base/queue.h.

  A tail queue is a doubly linked list whose backward links are not element
  pointers but addresses of pointer cells: `tqe_prev` holds the address of the
  cell that points at the element, and `tqh_last` the address of the cell that
  holds the final NULL.  A cell is either the `tqh_first` word of a head or the
  `tqe_next` word of an entry.  */
module TailQueue {
  import opened Sequences

  /** The address of a pointer cell; Nowhere is NULL. */
  datatype Cell<T> = Nowhere | HeadFirst(q: Head<T>) | NextOf(e: Entry<T>)

  /** A struct that embeds TAILQ_ENTRY: the two link words, and in `val` the
      other fields of the struct. */
  class Entry<T> {
    var next: Entry?<T>
    var prev: Cell<T>
    var val: T

    /** A struct whose link words are zero. */
    constructor (v: T)
      ensures next == null && prev == Nowhere && val == v
    {
      next, prev, val := null, Nowhere, v;
    }
  }

  /** The heads and the entries that an address points into, for frames. */
  ghost function HeadsOf<T>(c: Cell<T>): set<Head<T>> {
    if c.HeadFirst? then {c.q} else {}
  }

  ghost function EntriesOf<T>(c: Cell<T>): set<Entry<T>> {
    if c.NextOf? then {c.e} else {}
  }

  /** `*c` */
  function Load<T>(c: Cell<T>): Entry?<T>
    requires c != Nowhere
    reads HeadsOf(c)`first, EntriesOf(c)`next
  {
    match c
    case HeadFirst(q) => q.first
    case NextOf(e) => e.next
  }

  /** `((struct headname *)c)->tqh_last`: the word that follows the cell.  In a
      head that word is `tqh_last`, in an entry it is `tqe_prev`. */
  function WordAfter<T>(c: Cell<T>): Cell<T>
    requires c != Nowhere
    reads HeadsOf(c)`last, EntriesOf(c)`prev
  {
    match c
    case HeadFirst(q) => q.last
    case NextOf(e) => e.prev
  }

  /** `*c = v` */
  method Store<T>(c: Cell<T>, v: Entry?<T>)
    requires c != Nowhere
    modifies HeadsOf(c)`first, EntriesOf(c)`next
    ensures Load(c) == v
  {
    match c
    case HeadFirst(q) => q.first := v;
    case NextOf(e) => e.next := v;
  }

  /** The element at position i of a queue, NULL at its end. */
  ghost function At<T>(s: seq<Entry<T>>, i: nat): Entry?<T>
    requires i <= |s|
  {
    if i == |s| then null else s[i]
  }

  /** The cell that points at position i of queue q. */
  ghost function CellAt<T>(q: Head<T>, s: seq<Entry<T>>, i: nat): Cell<T>
    requires i <= |s|
  {
    if i == 0 then HeadFirst(q) else NextOf(s[i - 1])
  }

  /** The neighbours of position i after an insertion at k. */
  lemma InsertNeighbours<T>(q: Head<T>, s: seq<Entry<T>>, k: nat, x: Entry<T>, i: nat)
    requires k <= |s| && i <= |s|
    ensures |Insert(s, k, x)| == |s| + 1
    ensures Insert(s, k, x)[i] == if i < k then s[i] else if i == k then x else s[i - 1]
    ensures At(Insert(s, k, x), i + 1) == if i + 1 < k then s[i + 1] else if i + 1 == k then x else At(s, i)
    ensures CellAt(q, Insert(s, k, x), i) ==
            if i <= k then CellAt(q, s, i) else if i == k + 1 then NextOf(x) else CellAt(q, s, i - 1)
  {
  }

  class Head<T> {
    var first: Entry?<T>
    var last: Cell<T>
    ghost var elems: seq<Entry<T>>  // the queue, front to back

    /** A head in zeroed memory, never initialised. */
    constructor Zero()
      ensures Zeroed()
    {
      first, last, elems := null, Nowhere, [];
    }

    ghost predicate Zeroed()
      reads this
      ensures Zeroed() ==> elems == []
    {
      first == null && last == Nowhere && elems == []
    }

    /** The links spell out s in both directions. */
    ghost predicate Spells(s: seq<Entry<T>>)
      reads this, s`next, s`prev
    {
      && Distinct(s)
      && first == At(s, 0)
      && last == CellAt(this, s, |s|)
      && (forall i {:trigger s[i].next} :: 0 <= i < |s| ==> s[i].next == At(s, i + 1))
      && (forall i {:trigger s[i].prev} :: 0 <= i < |s| ==> s[i].prev == CellAt(this, s, i))
    }

    ghost predicate Valid()
      reads this, elems`next, elems`prev
    {
      Spells(elems)
    }

    lemma NoRepeats()
      requires Valid()
      ensures Distinct(elems)
    {
    }

    lemma NextAt(i: nat)
      requires Valid() && i < |elems|
      ensures elems[i].next == At(elems, i + 1)
    {
    }

    /** Relinking around position k is all that an insertion there needs. */
    lemma Linked(s: seq<Entry<T>>, k: nat, e: Entry<T>)
      requires k <= |s| && Distinct(s) && e !in s
      requires first == if k == 0 then e else s[0]
      requires last == if k == |s| then NextOf(e) else NextOf(s[|s| - 1])
      requires e.next == At(s, k) && e.prev == CellAt(this, s, k)
      requires k > 0 ==> s[k - 1].next == e
      requires k < |s| ==> s[k].prev == NextOf(e)
      requires forall i {:trigger s[i].next} :: 0 <= i < |s| && i + 1 != k ==> s[i].next == At(s, i + 1)
      requires forall i {:trigger s[i].prev} :: 0 <= i < |s| && i != k ==> s[i].prev == CellAt(this, s, i)
      ensures Spells(Insert(s, k, e))
    {
      var t := Insert(s, k, e);
      InsertDistinct(s, k, e);
      forall i: nat | i < |t|
        ensures t[i].next == At(t, i + 1) && t[i].prev == CellAt(this, t, i)
      {
        InsertNeighbours(this, s, k, e, i);
      }
    }

    /** Relinking around position k is all that a removal there needs. */
    lemma Unlinked(s: seq<Entry<T>>, k: nat)
      requires k < |s| && Distinct(s)
      requires first == if k == 0 then At(s, 1) else s[0]
      requires last == if k + 1 == |s| then CellAt(this, s, k) else NextOf(s[|s| - 1])
      requires k > 0 ==> s[k - 1].next == At(s, k + 1)
      requires k + 1 < |s| ==> s[k + 1].prev == CellAt(this, s, k)
      requires forall i {:trigger s[i].next} :: 0 <= i < |s| && i != k && i + 1 != k ==> s[i].next == At(s, i + 1)
      requires forall i {:trigger s[i].prev} :: 0 <= i < |s| && i != k && i != k + 1 ==> s[i].prev == CellAt(this, s, i)
      ensures Spells(Without(s, k))
    {
      var t := Without(s, k);
      forall i: nat | i < |t|
        ensures t[i].next == At(t, i + 1) && t[i].prev == CellAt(this, t, i)
      {
        assert t[i] == if i < k then s[i] else s[i + 1];
      }
    }

    /** TAILQ_INIT */
    method Init()
      modifies this
      ensures Valid() && elems == []
    {
      first := null;
      last := HeadFirst(this);
      elems := [];
    }

    /** TAILQ_EMPTY */
    predicate Empty()
      requires Valid() || Zeroed()
      reads this, elems`next, elems`prev
      ensures Empty() <==> elems == []
    {
      first == null
    }

    /** TAILQ_FIRST */
    function First(): (r: Entry?<T>)
      requires Valid() || Zeroed()
      reads this, elems`next, elems`prev
      ensures r == At(elems, 0)
    {
      first
    }

    /** TAILQ_INSERT_HEAD.  It also turns a zeroed head into a valid queue. */
    method InsertHead(e: Entry<T>)
      requires Valid() || Zeroed()
      requires e !in elems
      modifies this, e`next, e`prev, elems`prev
      ensures Valid() && elems == [e] + old(elems)
    {
      e.next := first;
      if e.next != null {
        first.prev := NextOf(e);
      } else {
        last := NextOf(e);
      }
      first := e;
      e.prev := HeadFirst(this);
      Linked(elems, 0, e);
      assert Insert(elems, 0, e) == [e] + elems;
      elems := [e] + elems;
    }

    /** TAILQ_INSERT_TAIL */
    method InsertTail(e: Entry<T>)
      requires Valid()
      requires e !in elems
      modifies this, e`next, e`prev, elems`next
      ensures Valid() && elems == old(elems) + [e]
    {
      e.next := null;
      e.prev := last;
      Store(last, e);
      last := NextOf(e);
      Linked(elems, |elems|, e);
      assert Insert(elems, |elems|, e) == elems + [e];
      elems := elems + [e];
    }

    /** TAILQ_INSERT_AFTER */
    method InsertAfter(at: Entry<T>, e: Entry<T>, ghost k: nat)
      requires Valid()
      requires k < |elems| && elems[k] == at && e !in elems
      modifies this, e`next, e`prev, elems`next, elems`prev
      ensures Valid() && elems == old(elems)[..k + 1] + [e] + old(elems)[k + 1..]
    {
      assert at.next == At(elems, k + 1);
      e.next := at.next;
      if e.next != null {
        e.next.prev := NextOf(e);
      } else {
        last := NextOf(e);
      }
      at.next := e;
      e.prev := NextOf(at);
      Linked(elems, k + 1, e);
      elems := Insert(elems, k + 1, e);
    }

    /** TAILQ_INSERT_BEFORE; the macro never names the head. */
    method InsertBefore(at: Entry<T>, e: Entry<T>, ghost k: nat)
      requires Valid()
      requires k < |elems| && elems[k] == at && e !in elems
      modifies this, e`next, e`prev, elems`next, elems`prev
      ensures Valid() && elems == old(elems)[..k] + [e] + old(elems)[k..]
    {
      assert at.prev == CellAt(this, elems, k);
      e.prev := at.prev;
      e.next := at;
      Store(at.prev, e);
      at.prev := NextOf(e);
      Linked(elems, k, e);
      elems := Insert(elems, k, e);
    }

    /** TAILQ_REMOVE.  The removed entry keeps its stale links. */
    method Remove(e: Entry<T>, ghost k: nat)
      requires Valid()
      requires k < |elems| && elems[k] == e
      modifies this, elems`next, elems`prev
      ensures Valid() && elems == old(elems)[..k] + old(elems)[k + 1..]
      ensures e.next == old(e.next) && e.prev == old(e.prev)
    {
      assert e.next == At(elems, k + 1) && e.prev == CellAt(this, elems, k);
      if e.next != null {
        e.next.prev := e.prev;
      } else {
        last := e.prev;
      }
      Store(e.prev, e.next);
      Unlinked(elems, k);
      elems := Without(elems, k);
    }

    /** TAILQ_LAST: the cell in `tqh_last` is reread as a head. */
    function Last(): (r: Entry?<T>)
      requires Valid()
      reads this, elems`next, elems`prev
      ensures r == if elems == [] then null else elems[|elems| - 1]
    {
      ghost var n := |elems|;
      assert last == CellAt(this, elems, n);
      assert n > 0 ==> elems[n - 1].prev == CellAt(this, elems, n - 1);
      assert n > 1 ==> elems[n - 2].next == At(elems, n - 1);
      Load(WordAfter(last))
    }

    /** TAILQ_PREV: the cell in `tqe_prev` is reread as a head. */
    function Prev(e: Entry<T>, ghost k: nat): (r: Entry?<T>)
      requires Valid()
      requires k < |elems| && elems[k] == e
      reads this, elems`next, elems`prev
      ensures r == if k == 0 then null else elems[k - 1]
    {
      assert e.prev == CellAt(this, elems, k);
      assert last == CellAt(this, elems, |elems|);
      assert k > 0 ==> elems[k - 1].prev == CellAt(this, elems, k - 1);
      assert k > 1 ==> elems[k - 2].next == At(elems, k - 1);
      Load(WordAfter(e.prev))
    }

    /** TAILQ_FOREACH, recording the elements it visits. */
    method ForEach() returns (visited: seq<Entry<T>>)
      requires Valid()
      ensures visited == elems
    {
      visited := [];
      var v := first;
      while v != null
        invariant |visited| <= |elems| && visited == elems[..|visited|]
        invariant v == At(elems, |visited|)
        decreases |elems| - |visited|
      {
        visited := visited + [v];
        v := v.next;
      }
    }

    /** TAILQ_FOREACH_REVERSE, recording the elements it visits. */
    method ForEachReverse() returns (visited: seq<Entry<T>>)
      requires Valid()
      ensures visited == Reverse(elems)
      ensures |visited| == |elems| && forall i :: 0 <= i < |elems| ==> visited[i] == elems[|elems| - 1 - i]
    {
      visited := [];
      var v := Last();
      ghost var left := |elems|;
      while v != null
        invariant left == |elems| - |visited| && 0 <= left <= |elems|
        invariant v == if left == 0 then null else elems[left - 1]
        invariant forall i :: 0 <= i < |visited| ==> visited[i] == elems[|elems| - 1 - i]
        decreases left
      {
        visited := visited + [v];
        left := left - 1;
        v := Prev(v, left);
      }
    }
  }
}
