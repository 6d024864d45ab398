/** The life of every object that a free list recycles: allocated, in use or
    free by turns, and freed at most once. */
module Ledgers {
  import opened Sequences

  datatype Ledger<T> = Ledger(
    inUse: set<T>,       // handed out and not yet given back
    free: seq<T>,        // the free list
    ever: set<T>,        // everything ever allocated
    freed: multiset<T>)  // one occurrence for each release to the allocator

  /** What was allocated is in use or free, never both, and what is neither has
      been released exactly once. */
  ghost predicate Balanced<T>(b: Ledger<T>) {
    && Distinct(b.free)
    && b.inUse !! SetOf(b.free)
    && b.inUse + SetOf(b.free) <= b.ever
    && b.freed == multiset(b.ever - b.inUse - SetOf(b.free))
  }

  ghost function Opened<T>(): (r: Ledger<T>)
    ensures Balanced(r) && r.inUse == {} && r.free == [] && r.ever == {}
  {
    Ledger({}, [], {}, multiset{})
  }

  /** The head of the free list is handed out. */
  ghost function Reused<T>(b: Ledger<T>): (r: Ledger<T>)
    requires Balanced(b) && b.free != []
    ensures Balanced(r) && r.free == b.free[1..] && r.ever == b.ever && r.freed == b.freed
    ensures |r.inUse| == |b.inUse| + 1 && b.free[0] in r.inUse && b.free[0] !in b.inUse && b.free[0] in b.ever
    ensures forall x {:trigger x in r.inUse} :: x in b.inUse ==> x in r.inUse
    ensures forall x {:trigger x in r.inUse} :: x in r.inUse ==> x in b.inUse || x == b.free[0]
  {
    assert SetOf(b.free) == {b.free[0]} + SetOf(b.free[1..]);
    DistinctTail(b.free);
    assert b.free[0] in SetOf(b.free);
    assert b.ever - (b.inUse + {b.free[0]}) - SetOf(b.free[1..]) == b.ever - b.inUse - SetOf(b.free);
    b.(inUse := b.inUse + {b.free[0]}, free := b.free[1..])
  }

  lemma FreeAllocated<T>(b: Ledger<T>)
    requires Balanced(b)
    ensures forall x :: x in b.free ==> x in b.ever && x !in b.inUse
  {
    assert forall x :: x in b.free ==> x in SetOf(b.free);
  }

  lemma HeadAllocated<T>(b: Ledger<T>)
    requires Balanced(b) && b.free != []
    ensures b.free[0] in b.ever && b.free[0] !in b.inUse
  {
    assert b.free[0] in SetOf(b.free);
  }

  /** A new object is allocated and handed out. */
  ghost function Allocated<T>(b: Ledger<T>, x: T): (r: Ledger<T>)
    requires Balanced(b) && x !in b.ever
    ensures Balanced(r) && r.free == b.free && r.ever == b.ever + {x} && r.freed == b.freed
    ensures |r.inUse| == |b.inUse| + 1 && x in r.inUse && x !in b.inUse
    ensures forall y {:trigger y in r.inUse} :: y in b.inUse ==> y in r.inUse
    ensures forall y {:trigger y in r.inUse} :: y in r.inUse ==> y in b.inUse || y == x
  {
    assert b.ever + {x} - (b.inUse + {x}) - SetOf(b.free) == b.ever - b.inUse - SetOf(b.free);
    b.(inUse := b.inUse + {x}, ever := b.ever + {x})
  }

  /** An object goes back to the head of the free list. */
  ghost function Kept<T>(b: Ledger<T>, x: T): (r: Ledger<T>)
    requires Balanced(b) && x in b.inUse
    ensures Balanced(r) && r.free == [x] + b.free && r.ever == b.ever && r.freed == b.freed
    ensures |r.inUse| == |b.inUse| - 1 && x !in r.inUse
    ensures forall y {:trigger y in r.inUse} {:trigger y in b.inUse} :: y in b.inUse && y != x ==> y in r.inUse
    ensures forall y {:trigger y in r.inUse} :: y in r.inUse ==> y in b.inUse
  {
    assert x in b.free ==> x in SetOf(b.free);
    DistinctCons(x, b.free);
    assert SetOf([x] + b.free) == {x} + SetOf(b.free);
    assert b.ever - (b.inUse - {x}) - SetOf([x] + b.free) == b.ever - b.inUse - SetOf(b.free);
    b.(inUse := b.inUse - {x}, free := [x] + b.free)
  }

  /** An object goes to the end of the free list. */
  ghost function Queued<T>(b: Ledger<T>, x: T): (r: Ledger<T>)
    requires Balanced(b) && x in b.inUse
    ensures Balanced(r) && r.free == b.free + [x] && r.ever == b.ever && r.freed == b.freed
    ensures |r.inUse| == |b.inUse| - 1 && x !in r.inUse && x !in b.free && x in b.ever
    ensures forall y {:trigger y in r.inUse} {:trigger y in b.inUse} :: y in b.inUse && y != x ==> y in r.inUse
    ensures forall y {:trigger y in r.inUse} :: y in r.inUse ==> y in b.inUse
  {
    assert x in b.free ==> x in SetOf(b.free);
    DistinctSnoc(b.free, x);
    assert SetOf(b.free + [x]) == {x} + SetOf(b.free);
    assert b.ever - (b.inUse - {x}) - SetOf(b.free + [x]) == b.ever - b.inUse - SetOf(b.free);
    b.(inUse := b.inUse - {x}, free := b.free + [x])
  }

  /** An object in use is released to the allocator. */
  ghost function Released<T>(b: Ledger<T>, x: T): (r: Ledger<T>)
    requires Balanced(b) && x in b.inUse
    ensures Balanced(r) && r.free == b.free && r.ever == b.ever && r.freed == b.freed + multiset{x}
    ensures |r.inUse| == |b.inUse| - 1 && x !in r.inUse
    ensures forall y {:trigger y in r.inUse} {:trigger y in b.inUse} :: y in b.inUse && y != x ==> y in r.inUse
    ensures forall y {:trigger y in r.inUse} :: y in r.inUse ==> y in b.inUse
  {
    var left := b.ever - b.inUse - SetOf(b.free);
    assert x in b.free ==> x in SetOf(b.free);
    assert b.ever - (b.inUse - {x}) - SetOf(b.free) == left + {x};
    b.(inUse := b.inUse - {x}, freed := b.freed + multiset{x})
  }

  /** The head of the free list is released to the allocator. */
  ghost function Drained<T>(b: Ledger<T>): (r: Ledger<T>)
    requires Balanced(b) && b.free != []
    ensures Balanced(r) && r.free == b.free[1..] && r.ever == b.ever && r.inUse == b.inUse
    ensures r.freed == b.freed + multiset{b.free[0]}
  {
    var left := b.ever - b.inUse - SetOf(b.free);
    assert SetOf(b.free) == {b.free[0]} + SetOf(b.free[1..]);
    DistinctTail(b.free);
    assert b.ever - b.inUse - SetOf(b.free[1..]) == left + {b.free[0]};
    b.(free := b.free[1..], freed := b.freed + multiset{b.free[0]})
  }

  /** Nothing in use and nothing on the free list: everything ever allocated
      has been released, each object once. */
  lemma AllReleased<T>(b: Ledger<T>)
    requires Balanced(b) && b.inUse == {} && b.free == []
    ensures b.freed == multiset(b.ever)
  {
    assert b.ever - b.inUse - SetOf(b.free) == b.ever;
  }

  /** The free list has been released: each of its objects once. */
  lemma AllDrained<T>(b0: Ledger<T>, b1: Ledger<T>)
    requires Balanced(b0) && Balanced(b1) && b1.ever == b0.ever && b1.inUse == b0.inUse && b1.free == []
    ensures b1.freed == b0.freed + multiset(b0.free)
  {
    DistinctOnce(b0.free);
    assert b0.ever - b0.inUse == (b0.ever - b0.inUse - SetOf(b0.free)) + SetOf(b0.free);
    assert b1.ever - b1.inUse - SetOf(b1.free) == b0.ever - b0.inUse;
  }

  /** Each allocated object is in use, on the free list, or released: exactly
      one of the three. */
  lemma OnePlace<T>(b: Ledger<T>, x: T)
    requires Balanced(b) && x in b.ever
    ensures b.freed[x] == if x in b.inUse || x in b.free then 0 else 1
    ensures !(x in b.inUse && x in b.free)
  {
    assert x in b.free <==> x in SetOf(b.free);
  }
}
