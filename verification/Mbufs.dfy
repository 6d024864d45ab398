/** base/mbuf.c: fixed-capacity buffers with a read and a write cursor, and the
    capped free list from which a context hands them out. */
module Mbufs {
  import opened Sequences
  import opened Ledgers
  import opened TailQueue
  import opened Segments

  const RECYCLE_LENGTH := 10

  /** The fields of struct mbuf beside its links; pos and last are offsets into
      the buffer, and `end` is its length. */
  datatype Area = Area(start: array<byte>, pos: nat, last: nat)

  type Mbuf = Entry<Area>

  ghost predicate CursorsOk(m: Mbuf)
    reads m
  {
    m.val.pos <= m.val.last <= m.val.start.Length
  }

  /** The written area, start up to last. */
  ghost function Written(m: Mbuf): seq<byte>
    requires CursorsOk(m)
    reads m, m.val.start
  {
    m.val.start[..m.val.last]
  }

  function ReadSize(m: Mbuf): int
    reads m
  {
    m.val.last - m.val.pos
  }

  function WriteSize(m: Mbuf): int
    reads m
  {
    m.val.start.Length - m.val.last
  }

  predicate CanRecycle(m: Mbuf)
    reads m
  {
    ReadSize(m) == 0 && WriteSize(m) == 0
  }

  method MbufWrite(buf: Mbuf, data: seq<byte>, len: nat) returns (write: nat)
    requires CursorsOk(buf) && len <= |data|
    modifies buf`val, buf.val.start
    ensures CursorsOk(buf) && buf.val == old(buf.val).(last := old(buf.val.last) + write)
    ensures write == Min(old(WriteSize(buf)), len)
    ensures Written(buf) == old(Written(buf)) + data[..write]
    ensures forall i :: old(buf.val.last) + write <= i < buf.val.start.Length ==>
              buf.val.start[i] == old(buf.val.start[i])
  {
    var remain := WriteSize(buf);
    if remain == 0 {
      return 0;
    }
    write := if remain > len then len else remain;
    var a, last := buf.val.start, buf.val.last;
    forall k | 0 <= k < write {
      a[last + k] := data[k];
    }
    buf.val := buf.val.(last := last + write);
  }

  method MbufPeek(buf: Mbuf, dst: array<byte>, at: nat, len: nat) returns (ret: nat)
    requires CursorsOk(buf) && dst != buf.val.start
    requires at + Min(ReadSize(buf), len) <= dst.Length
    modifies dst
    ensures ret == Min(ReadSize(buf), len)
    ensures dst[..] == Overwrite(old(dst[..]), at, Written(buf)[buf.val.pos..][..ret])
    ensures forall i {:trigger dst[at + i]} :: 0 <= i < ret ==> dst[at + i] == buf.val.start[buf.val.pos + i]
    ensures forall i {:trigger dst[i]} :: 0 <= i < dst.Length && !(at <= i < at + ret) ==> dst[i] == old(dst[i])
  {
    ret := 0;
    var read := ReadSize(buf);
    if read != 0 {
      var copy := if read > len then len else read;
      ret := copy;
      var a, pos := buf.val.start, buf.val.pos;
      forall k | 0 <= k < copy {
        dst[at + k] := a[pos + k];
      }
    }
  }

  method MbufRead(buf: Mbuf, dst: array<byte>, at: nat, len: nat) returns (read: nat)
    requires CursorsOk(buf) && dst != buf.val.start
    requires at + Min(ReadSize(buf), len) <= dst.Length
    modifies dst, buf`val
    ensures read == Min(old(ReadSize(buf)), len)
    ensures CursorsOk(buf) && buf.val == old(buf.val).(pos := old(buf.val.pos) + read)
    ensures dst[..] == Overwrite(old(dst[..]), at, old(Written(buf)[buf.val.pos..])[..read])
    ensures forall i {:trigger dst[at + i]} :: 0 <= i < read ==> dst[at + i] == old(buf.val.start[buf.val.pos + i])
    ensures forall i {:trigger dst[i]} :: 0 <= i < dst.Length && !(at <= i < at + read) ==> dst[i] == old(dst[i])
  {
    read := MbufPeek(buf, dst, at, len);
    buf.val := buf.val.(pos := buf.val.pos + read);
  }

  // ----- the free list, seen from a queue

  /** Queue q0 has grown to q1.  The mbufs come off the head of the free list,
      in their order there, and from the allocator only once it is empty. */
  ghost predicate Lent(b0: Ledger<Mbuf>, q0: seq<Mbuf>, b1: Ledger<Mbuf>, q1: seq<Mbuf>) {
    && |q0| <= |q1| && q1[..|q0|] == q0
    && Handed(b0.free, q1[|q0|..], b1.free) && Made(b0, q1[|q0|..])
    && b0.ever <= b1.ever && b1.freed == b0.freed && |b1.inUse| == |b0.inUse| + |q1| - |q0|
  }

  ghost predicate Handed(free0: seq<Mbuf>, got: seq<Mbuf>, free1: seq<Mbuf>)
    ensures Handed(free0, got, free1) ==> |free1| == |free0| - Min(|got|, |free0|)
  {
    var k := Min(|got|, |free0|);
    got[..k] == free0[..k] && free1 == free0[k..]
  }

  /** Those beyond the free list have never been allocated before. */
  ghost predicate Made(b: Ledger<Mbuf>, got: seq<Mbuf>) {
    forall i {:trigger got[i]} :: |b.free| <= i < |got| ==> got[i] !in b.ever
  }

  /** Queue q0 has given its first mbufs back, and q1 is left.  They go to the
      front of the free list one by one while it has fewer than 11, and from then
      on to the allocator. */
  ghost predicate Repaid(b0: Ledger<Mbuf>, q0: seq<Mbuf>, b1: Ledger<Mbuf>, q1: seq<Mbuf>) {
    && |q1| <= |q0|
    && var n := |q0| - |q1|;
    && q1 == q0[n..] && b1.ever == b0.ever && |b1.inUse| == |b0.inUse| - n
    && Stacked(b0.free, q0, n, b1.free) && Overflowed(b0.freed, q0, n, 11 - |b0.free|, b1.freed)
  }

  /** The first n mbufs of q have come to the front of the free list, the latest
      in front, as far as there was room for them. */
  ghost predicate Stacked(free0: seq<Mbuf>, q: seq<Mbuf>, n: nat, free1: seq<Mbuf>)
    requires n <= |q|
    ensures Stacked(free0, q, n, free1) ==> |free0| <= 11 && |free1| == |free0| + Min(n, 11 - |free0|)
  {
    |free0| <= 11 && free1 == Reverse(q[..Min(n, 11 - |free0|)]) + free0
  }

  /** Those of them beyond the room r have been released. */
  ghost predicate Overflowed(freed0: multiset<Mbuf>, q: seq<Mbuf>, n: nat, r: nat, freed1: multiset<Mbuf>)
    requires n <= |q|
  {
    freed1 == freed0 + multiset(q[Min(n, r)..n])
  }

  /** Lent, index by index. */
  lemma LentMeans(b0: Ledger<Mbuf>, q0: seq<Mbuf>, b1: Ledger<Mbuf>, q1: seq<Mbuf>)
    requires Lent(b0, q0, b1, q1)
    ensures |q0| <= |q1|
    ensures var k := |q1| - |q0|; var j := if k < |b0.free| then k else |b0.free|;
            && b1.free == b0.free[j..] && |b1.inUse| + |b1.free| == |b0.inUse| + |b0.free| + k - j
            && (forall i {:trigger q1[i]} :: 0 <= i < |q0| ==> q1[i] == q0[i])
            && (forall i {:trigger b0.free[i]} :: 0 <= i < j ==> q1[|q0| + i] == b0.free[i])
            && (forall i {:trigger q1[i]} :: |q0| + j <= i < |q1| ==> q1[i] !in b0.ever)
  {
    var n, got := |q0|, q1[|q0|..];
    var j := Min(|got|, |b0.free|);
    forall i | 0 <= i < j
      ensures q1[n + i] == b0.free[i]
    {
      assert got[..j][i] == b0.free[..j][i];
    }
    forall i | n + j <= i < |q1|
      ensures q1[i] !in b0.ever
    {
      assert q1[i] == got[i - n];
    }
    forall i | 0 <= i < n
      ensures q1[i] == q0[i]
    {
      assert q1[..n][i] == q0[i];
    }
  }

  /** Repaid, index by index. */
  lemma RepaidMeans(b0: Ledger<Mbuf>, q0: seq<Mbuf>, b1: Ledger<Mbuf>, q1: seq<Mbuf>)
    requires Repaid(b0, q0, b1, q1)
    ensures |q1| <= |q0| && |b0.free| <= |b1.free| && b1.ever == b0.ever
    ensures var k, j := |q0| - |q1|, |b1.free| - |b0.free|;
            && |b1.free| == (if |b0.free| + k < 11 then |b0.free| + k else 11)
            && |b1.inUse| + |b1.free| == |b0.inUse| + |b0.free| - (k - j)
            && q1 == q0[k..] && b1.free[j..] == b0.free
            && (forall i {:trigger b1.free[i]} :: 0 <= i < j ==> b1.free[i] == q0[j - 1 - i])
            && b1.freed == b0.freed + multiset(q0[j..k])
  {
    ReverseAt(q0[..|b1.free| - |b0.free|]);
  }

  lemma LentNothing(b: Ledger<Mbuf>, q: seq<Mbuf>)
    ensures Lent(b, q, b, q)
  {
  }

  lemma LentOne(b0: Ledger<Mbuf>, q: seq<Mbuf>, b1: Ledger<Mbuf>, m: Mbuf)
    requires Balanced(b0)
    requires if b0.free != [] then m == b0.free[0] && b1 == Reused(b0) else m !in b0.ever && b1 == Allocated(b0, m)
    ensures Lent(b0, q, b1, q + [m])
  {
    hide Balanced, Reused, Allocated;
    assert (q + [m])[|q|..] == [m];
  }

  lemma HandedAgain(free0: seq<Mbuf>, a: seq<Mbuf>, free1: seq<Mbuf>, b: seq<Mbuf>, free2: seq<Mbuf>)
    requires Handed(free0, a, free1) && Handed(free1, b, free2)
    ensures Handed(free0, a + b, free2)
  {
    var k, l := Min(|a|, |free0|), Min(|b|, |free1|);
    if k < |a| {
      assert (a + b)[..k] == a[..k] && free2 == free1;
    } else {
      assert (a + b)[..k + l] == a + b[..l] == free0[..k + l];
    }
  }

  lemma LentAgain(b0: Ledger<Mbuf>, q0: seq<Mbuf>, b1: Ledger<Mbuf>, q1: seq<Mbuf>, b2: Ledger<Mbuf>, q2: seq<Mbuf>)
    requires Lent(b0, q0, b1, q1) && Lent(b1, q1, b2, q2)
    ensures Lent(b0, q0, b2, q2)
  {
    hide Handed;
    var a, b := q1[|q0|..], q2[|q1|..];
    assert q2 == q1 + b;
    assert q2[|q0|..] == a + b && q2[..|q0|] == q0;
    HandedAgain(b0.free, a, b1.free, b, b2.free);
  }

  lemma RepaidOne(b0: Ledger<Mbuf>, q: seq<Mbuf>, b1: Ledger<Mbuf>)
    requires Balanced(b0) && q != [] && q[0] in b0.inUse && |b0.free| <= 11
    requires b1 == if |b0.free| > 10 then Released(b0, q[0]) else Kept(b0, q[0])
    ensures Repaid(b0, q, b1, q[1..])
  {
    hide Balanced, Released, Kept, Reverse;
    ReverseOne(q);
  }

  lemma StackedAgain(free0: seq<Mbuf>, free1: seq<Mbuf>, free2: seq<Mbuf>, q: seq<Mbuf>, m: nat, n: nat)
    requires m + n <= |q| && Stacked(free0, q, m, free1) && Stacked(free1, q[m..], n, free2)
    ensures Stacked(free0, q, m + n, free2)
  {
    hide Reverse;
    var k, l := Min(m, 11 - |free0|), Min(n, 11 - |free1|);
    PiecesInRow(q, m, l);
    ReverseBoth(q[..k], q[m..][..l]);
    ReverseOne(q[m..][..0]);
    if l == 0 {
      assert free2 == free1;
    } else {
      assert k == m && q[..k] + q[m..][..l] == q[..k + l];
    }
  }

  lemma OverflowedAgain(f0: multiset<Mbuf>, f1: multiset<Mbuf>, f2: multiset<Mbuf>, q: seq<Mbuf>, m: nat, n: nat,
                        r0: nat, r1: nat)
    requires m + n <= |q| && r1 == r0 - Min(m, r0)
    requires Overflowed(f0, q, m, r0, f1) && Overflowed(f1, q[m..], n, r1, f2)
    ensures Overflowed(f0, q, m + n, r0, f2)
  {
    var k, l := Min(m, r0), Min(n, r1);
    assert k == m || l == 0;
    assert q[k..m] + q[m..][l..n] == q[k + l..m + n];
  }

  lemma RepaidAgain(b0: Ledger<Mbuf>, q0: seq<Mbuf>, b1: Ledger<Mbuf>, q1: seq<Mbuf>, b2: Ledger<Mbuf>, q2: seq<Mbuf>)
    requires Repaid(b0, q0, b1, q1) && Repaid(b1, q1, b2, q2)
    ensures Repaid(b0, q0, b2, q2)
  {
    hide Stacked, Overflowed;
    var m, n := |q0| - |q1|, |q1| - |q2|;
    assert |b0.free| <= |b1.free| <= 11;
    PiecesInRow(q0, m, n);
    StackedAgain(b0.free, b1.free, b2.free, q0, m, n);
    OverflowedAgain(b0.freed, b1.freed, b2.freed, q0, m, n, 11 - |b0.free|, 11 - |b1.free|);
  }

  /** The mbuf part of struct context: buffer size, free list and counters. */
  class Pool {
    const offset: nat
    const freeq: Head<Area>
    var totalBuffers: int
    var buffers: int
    var freeBuffers: int

    ghost var ledger: Ledger<Mbuf>
    ghost var areas: seq<array<byte>>  // the buffers of the free list
    ghost var repr: set<object>        // this, the free list, its mbufs and their buffers

    /** The counters are exact, and the free list is capped. */
    ghost predicate Counted()
      reads this, freeq
    {
      && Balanced(ledger) && ledger.free == freeq.elems
      && totalBuffers == buffers + freeBuffers
      && buffers == |ledger.inUse|
      && freeBuffers == |freeq.elems| <= RECYCLE_LENGTH + 1
    }

    ghost predicate Stocked()
      reads this, repr
    {
      && this in repr && freeq in repr
      && |areas| == |freeq.elems| && Distinct(areas)
      && (forall i {:trigger freeq.elems[i]} {:trigger areas[i]} :: 0 <= i < |areas| ==>
            freeq.elems[i] in repr && areas[i] in repr
            && freeq.elems[i].val.start == areas[i] && areas[i].Length == offset)
      && freeq.Valid()
    }

    ghost predicate Valid()
      reads this, repr
      ensures Valid() ==> this in repr && freeq in repr && offset > 0
    {
      offset > 0 && Stocked() && Counted()
    }

    lemma NothingRepaid(q: seq<Mbuf>)
      requires Valid()
      ensures Repaid(ledger, q, ledger, q)
    {
      assert Reverse(q[..0]) == [] && q[0..0] == [];
    }

    ghost predicate Exact()
      reads this, freeq
    {
      && freeq.elems == ledger.free && freeBuffers == |freeq.elems| <= 11
      && totalBuffers == |ledger.inUse| + |ledger.free|
    }

    lemma IsExact()
      requires Valid()
      ensures Exact()
    {
    }

    lemma Counts()
      requires Valid()
      ensures Balanced(ledger) && freeq.elems == ledger.free && freeq.Valid()
      ensures freeBuffers == |ledger.free| <= 11 && buffers == |ledger.inUse| && totalBuffers == buffers + freeBuffers
    {
    }

    constructor (bufferSize: nat)
      requires bufferSize > 0
      ensures Valid() && fresh(repr) && offset == bufferSize
      ensures ledger == Opened() && ledger.inUse == {}
    {
      hide Balanced, Head.Spells, Distinct, Opened;
      DistinctNil<array<byte>>();
      offset := bufferSize;
      freeq := new Head<Area>.Zero();
      totalBuffers, buffers, freeBuffers := 0, 0, 0;
      ledger, areas := Opened(), [];
      new;
      freeq.Init();
      repr := {this, freeq};
    }

    /** mbuf_create: the head of the free list, or else a new buffer. */
    method Create() returns (m: Mbuf)
      requires Valid()
      modifies repr
      ensures Stocked() && Balanced(ledger) && ledger.free == freeq.elems
      ensures buffers == old(buffers) && freeBuffers == |freeq.elems| <= RECYCLE_LENGTH + 1
      ensures totalBuffers == buffers + 1 + freeBuffers
      ensures m.val.start.Length == offset
      ensures m !in repr && m.val.start !in repr && repr == old(repr) - {m, m.val.start}
      ensures fresh({m, m.val.start} - old(repr))
      ensures if old(freeq.elems) != []
              then m == old(freeq.elems[0]) && ledger == Reused(old(ledger))
              else fresh(m) && ledger == Allocated(old(ledger), m)
    {
      hide Balanced, Head.Spells, Distinct, Reused, Allocated;
      if !freeq.Empty() {
        m := Unstock();
        freeBuffers := freeBuffers - 1;
        ledger := Reused(ledger);
      } else {
        var a := new byte[offset];
        totalBuffers := totalBuffers + 1;
        m := new Entry<Area>(Area(a, 0, 0));
        ledger := Allocated(ledger, m);
      }
    }

    /** TAILQ_FIRST and TAILQ_REMOVE on the free list. */
    method Unstock() returns (m: Mbuf)
      requires Stocked() && freeq.elems != []
      modifies `areas, `repr, freeq, freeq.elems`next, freeq.elems`prev
      ensures Stocked() && m == old(freeq.elems[0]) && freeq.elems == old(freeq.elems)[1..]
      ensures m.val.start.Length == offset
      ensures m in old(repr) && m.val.start in old(repr) && repr == old(repr) - {m, m.val.start}
    {
      hide Head.Spells, Distinct, Head.Valid;
      assert freeq.Valid() && freeq.elems[0].val.start == areas[0];
      m := freeq.First();
      freeq.NoRepeats();
      DistinctTail(freeq.elems);
      WithoutFirst(freeq.elems);
      freeq.Remove(m, 0);
      areas := areas[1..];
      repr := repr - {m, m.val.start};
      Unstocked();
    }

    /** Since the old state, the first mbuf has left the free list. */
    twostate lemma Unstocked()
      requires old(Stocked()) && old(freeq.elems) != [] && freeq.Valid()
      requires freeq.elems == old(freeq.elems)[1..] && areas == old(areas)[1..] && old(freeq.elems)[0] !in freeq.elems
      requires repr == old(repr) - {old(freeq.elems)[0], old(areas)[0]}
      requires forall m :: m in old(freeq.elems) ==> m.val == old(m.val)
      ensures Stocked()
    {
      hide Head.Spells, Distinct, Head.Valid;
      DistinctTail(old(areas));
      forall i | 0 <= i < |areas|
        ensures freeq.elems[i] in repr && areas[i] in repr
        ensures freeq.elems[i].val.start == areas[i] && areas[i].Length == offset
      {
        var m, a := old(freeq.elems)[i + 1], old(areas)[i + 1];
        assert m.val == old(m.val) && old(m.val.start) == a;
      }
    }

    /** mbuf_get: an mbuf with both cursors at the start.  Stale bytes stay in
        the buffer. */
    method Get() returns (m: Mbuf)
      requires Valid()
      modifies repr
      ensures Valid()
      ensures m.val.pos == m.val.last == 0 && m.val.start.Length == offset
      ensures m !in repr && m.val.start !in repr && repr == old(repr) - {m, m.val.start}
      ensures fresh({m, m.val.start} - old(repr))
      ensures if old(freeq.elems) != []
              then m == old(freeq.elems[0]) && ledger == Reused(old(ledger))
              else fresh(m) && ledger == Allocated(old(ledger), m)
    {
      hide Balanced, Head.Spells, Distinct, Reused, Allocated;
      m := Create();
      m.val := Area(m.val.start, 0, 0);
      m.next := null;
      buffers := buffers + 1;
    }

    /** mbuf_recycle: keep at most RECYCLE_LENGTH + 1 mbufs, free the others. */
    method Recycle(m: Mbuf)
      requires Valid()
      requires m in ledger.inUse && m !in repr && m.val.start !in repr && m.val.start.Length == offset
      modifies repr, m`next, m`prev
      ensures Valid()
      ensures if |old(freeq.elems)| > RECYCLE_LENGTH
              then repr == old(repr) && ledger == Released(old(ledger), m)
              else repr == old(repr) + {m, m.val.start} && ledger == Kept(old(ledger), m)
    {
      hide Balanced, Head.Spells, Distinct, Released, Kept;
      buffers := buffers - 1;
      if freeBuffers > RECYCLE_LENGTH {
        totalBuffers := totalBuffers - 1;
        ledger := Released(ledger, m);
        return;
      }
      m.next := null;
      freeq.InsertHead(m);
      freeBuffers := freeBuffers + 1;
      DistinctCons(m.val.start, areas);
      areas := [m.val.start] + areas;
      ledger := Kept(ledger, m);
      repr := repr + {m, m.val.start};
    }

    /** mbuf_destroy: frees the whole free list.  `total_buffers` is not
        lowered, so it keeps counting the mbufs freed here. */
    method Destroy()
      requires Valid()
      modifies this, freeq, freeq.elems
      ensures freeq.Valid() && freeq.elems == []
      ensures Balanced(ledger) && ledger.free == [] && ledger.inUse == old(ledger.inUse) && ledger.ever == old(ledger.ever)
      ensures ledger.freed == old(ledger.freed) + multiset(old(freeq.elems))
      ensures freeBuffers == 0 && buffers == old(buffers) && totalBuffers == old(totalBuffers)
      ensures totalBuffers == buffers + freeBuffers + |old(freeq.elems)|
    {
      hide Balanced, Head.Spells, Head.Valid, Distinct, Pool.Valid;
      Counts();
      while !freeq.Empty()
        invariant freeq.Valid() && Balanced(ledger) && ledger.free == freeq.elems
        invariant |freeq.elems| <= |old(freeq.elems)|
        invariant freeq.elems == old(freeq.elems)[|old(freeq.elems)| - |freeq.elems|..]
        invariant ledger.inUse == old(ledger.inUse) && ledger.ever == old(ledger.ever)
        invariant buffers == old(buffers) && totalBuffers == old(totalBuffers)
        invariant freeBuffers == |freeq.elems|
        decreases |freeq.elems|
      {
        DestroyFirst();
      }
      AllDrained(old(ledger), ledger);
    }

    /** One turn of that loop. */
    method DestroyFirst()
      requires freeq.Valid() && Balanced(ledger) && ledger.free == freeq.elems != []
      modifies `ledger, `freeBuffers, freeq, freeq.elems`next, freeq.elems`prev
      ensures freeq.Valid() && Balanced(ledger) && ledger.free == freeq.elems == old(freeq.elems)[1..]
      ensures ledger.inUse == old(ledger.inUse) && ledger.ever == old(ledger.ever)
      ensures freeBuffers == old(freeBuffers) - 1
    {
      hide Balanced, Head.Spells, Head.Valid, Distinct, Drained;
      var buf := freeq.First();
      WithoutFirst(freeq.elems);
      freeq.Remove(buf, 0);
      ledger := Drained(ledger);
      freeBuffers := freeBuffers - 1;
    }
  }
}
