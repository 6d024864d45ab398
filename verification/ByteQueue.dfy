/** The mbuf queue of one con_info: the data side of base/corvus.c. */
module ByteQueues {
  import opened Sequences
  import opened Ledgers
  import opened TailQueue
  import opened Segments
  import opened Mbufs
  import opened AsWritten

  /** Mbuf m is struct {buffer a, pos, last == |seg|} and its written area is seg. */
  ghost predicate Holds(m: Mbuf, a: array<byte>, seg: seq<byte>, pos: nat, cap: nat)
    reads m`val, a
  {
    && m.val == Area(a, pos, |seg|)
    && a.Length == cap
    && pos <= |seg| <= cap
    && a[..|seg|] == seg
  }

  /** One queue and the pool exchanged mbufs: what left the queue is no longer
      in use, what joined it was not in use before, and mbufs that other queues
      hold stay in use. */
  ghost predicate Traded(use0: set<Mbuf>, elems0: seq<Mbuf>, use1: set<Mbuf>, elems1: seq<Mbuf>) {
    && |use1| - |elems1| == |use0| - |elems0|
    && (forall m :: m in use0 && m !in elems0 ==> m in use1)
    && (forall m :: m in use1 ==> m in use0 || m in elems1)
    && (forall m :: m in use1 && m in elems0 ==> m in elems1)
    && (forall m :: m in elems1 ==> m in use1)
    && (forall m :: m in elems1 ==> m in elems0 || m !in use0)
  }

  lemma TradedNothing(use0: set<Mbuf>, elems0: seq<Mbuf>)
    requires forall m :: m in elems0 ==> m in use0
    ensures Traded(use0, elems0, use0, elems0)
  {
  }

  lemma TradedAgain(use0: set<Mbuf>, elems0: seq<Mbuf>, use1: set<Mbuf>, elems1: seq<Mbuf>,
                    use2: set<Mbuf>, elems2: seq<Mbuf>)
    requires Traded(use0, elems0, use1, elems1) && Traded(use1, elems1, use2, elems2)
    ensures Traded(use0, elems0, use2, elems2)
  {
  }

  /** An mbuf has come to the end of queue q. */
  lemma OneDrawn(b0: Ledger<Mbuf>, q: seq<Mbuf>, b1: Ledger<Mbuf>, m: Mbuf)
    requires Balanced(b0) && forall x :: x in q ==> x in b0.inUse
    requires if b0.free != [] then m == b0.free[0] && b1 == Reused(b0) else m !in b0.ever && b1 == Allocated(b0, m)
    ensures Traded(b0.inUse, q, b1.inUse, q + [m]) && Lent(b0, q, b1, q + [m])
    ensures forall x :: x in q + [m] ==> x in b1.inUse
  {
    hide Balanced, Reused, Allocated, Lent;
    LentOne(b0, q, b1, m);
  }

  /** The first mbuf of queue q has gone. */
  lemma OneDropped(b0: Ledger<Mbuf>, q: seq<Mbuf>, b1: Ledger<Mbuf>)
    requires Balanced(b0) && q != [] && q[0] !in q[1..] && |b0.free| <= 11 && forall x :: x in q ==> x in b0.inUse
    requires b1 == if |b0.free| > 10 then Released(b0, q[0]) else Kept(b0, q[0])
    ensures Traded(b0.inUse, q, b1.inUse, q[1..]) && Repaid(b0, q, b1, q[1..])
    ensures forall x :: x in q[1..] ==> x in b1.inUse
  {
    hide Balanced, Released, Kept, Repaid;
    RepaidOne(b0, q, b1);
  }

  class ByteQueue {
    const data: Head<Area>
    ghost var view: Chain
    ghost var areas: seq<array<byte>>
    ghost var repr: set<object>

    ghost function PosAt(i: nat): nat
      reads this
    {
      if i == 0 then view.pos else 0
    }

    /** The queue of mbufs in memory is the chain `view`. */
    ghost predicate Linked(cap: nat)
      reads this, repr
      ensures Linked(cap) ==> this in repr && data in repr
    {
      && this in repr && data in repr
      && |areas| == |data.elems| == |view.segs| && Distinct(areas)
      && (forall i {:trigger data.elems[i]} {:trigger areas[i]} {:trigger view.segs[i]} :: 0 <= i < |areas| ==>
            data.elems[i] in repr && areas[i] in repr
            && Holds(data.elems[i], areas[i], view.segs[i], PosAt(i), cap))
      && (view.segs == [] ==> view.pos == 0)
      && data.Valid()
    }

    ghost predicate Owned(use: set<Mbuf>)
      reads this, data
    {
      forall m :: m in data.elems ==> m in use
    }

    /** A con_info straight from the allocator. */
    constructor ()
      ensures fresh(repr) && this in repr && data in repr && repr == {this, data}
    {
      data := new Head<Area>.Zero();
      view, areas := Chain([], 0), [];
      new;
      repr := {this, data};
    }

    /** TAILQ_INIT(&info->data) */
    method Init()
      modifies this, data
      ensures view == Chain([], 0) && data.elems == [] && repr == {this, data}
      ensures forall cap :: Linked(cap)
    {
      data.Init();
      view, areas := Chain([], 0), [];
      repr := {this, data};
    }

    /** TAILQ_INSERT_TAIL of an empty mbuf. */
    method Attach(buf: Mbuf, ghost cap: nat)
      requires Linked(cap) && buf !in repr && buf.val.start !in repr
      requires buf.val == Area(buf.val.start, 0, 0) && buf.val.start.Length == cap
      modifies repr, buf`next, buf`prev
      ensures Linked(cap) && repr == old(repr) + {buf, buf.val.start}
      ensures view == old(view).(segs := old(view.segs) + [[]])
      ensures data.elems == old(data.elems) + [buf]
    {
      hide Head.Spells, Distinct;
      data.InsertTail(buf);
      DistinctSnoc(areas, buf.val.start);
      areas := areas + [buf.val.start];
      view := view.(segs := view.segs + [[]]);
      repr := repr + {buf, buf.val.start};
    }

    /** What mbufs drawn for this queue do to the free list. */
    twostate lemma FreeListDrawn(pool: Pool)
      requires old(pool.Exact()) && pool.Exact()
      requires Lent(old(pool.ledger), old(data.elems), pool.ledger, data.elems)
      ensures var k := |data.elems| - |old(data.elems)|;
              var j := if k < |old(pool.freeq.elems)| then k else |old(pool.freeq.elems)|;
              && 0 <= j && pool.freeq.elems == old(pool.freeq.elems)[j..]
              && pool.freeBuffers == old(pool.freeBuffers) - j && pool.totalBuffers == old(pool.totalBuffers) + k - j
    {
      LentMeans(old(pool.ledger), old(data.elems), pool.ledger, data.elems);
    }

    /** A fresh mbuf at the tail (base/corvus.c:155-157 and 178-180). */
    method Grow(pool: Pool) returns (buf: Mbuf)
      requires pool.Valid() && Linked(pool.offset) && Owned(pool.ledger.inUse)
      requires pool.repr !! repr
      modifies pool.repr, repr
      ensures pool.Valid() && Linked(pool.offset)
      ensures pool.repr !! repr && fresh(repr + pool.repr - old(repr + pool.repr))
      ensures view == old(view).(segs := old(view.segs) + [[]])
      ensures data.elems == old(data.elems) + [buf]
      ensures Owned(pool.ledger.inUse)
      ensures Traded(old(pool.ledger.inUse), old(data.elems), pool.ledger.inUse, data.elems)
      ensures Lent(old(pool.ledger), old(data.elems), pool.ledger, data.elems)
      ensures var k := |data.elems| - |old(data.elems)|;
              var j := if k < |old(pool.freeq.elems)| then k else |old(pool.freeq.elems)|;
              && 0 <= j && pool.freeq.elems == old(pool.freeq.elems)[j..]
              && pool.freeBuffers == old(pool.freeBuffers) - j && pool.totalBuffers == old(pool.totalBuffers) + k - j
    {
      hide Balanced, Head.Spells, Distinct, Reused, Allocated, Holds, Traded, Lent, Pool.Valid, Pool.Exact;
      pool.IsExact();
      pool.Counts();
      buf := pool.Get();
      OneDrawn(old(pool.ledger), data.elems, pool.ledger, buf);
      Attach(buf, pool.offset);
      pool.IsExact();
      FreeListDrawn(pool);
    }

    /** mbuf_write to the last mbuf. */
    method FillTail(buf: Mbuf, bytes: seq<byte>, len: nat, ghost cap: nat) returns (write: nat)
      requires Linked(cap) && data.elems != [] && buf == data.elems[|data.elems| - 1]
      requires len <= |bytes|
      modifies repr
      ensures Linked(cap) && repr == old(repr) && data.elems == old(data.elems)
      ensures write == Min(cap - |old(view.segs)[|old(view.segs)| - 1]|, len)
      ensures var n := |old(view.segs)| - 1;
              view == old(view).(segs := old(view.segs)[n := old(view.segs)[n] + bytes[..write]])
    {
      hide Head.Spells, Distinct;
      ghost var n := |areas| - 1;
      assert Holds(buf, areas[n], view.segs[n], PosAt(n), cap);
      data.NoRepeats();
      DistinctFrom(data.elems, n);
      DistinctFrom(areas, n);
      write := MbufWrite(buf, bytes, len);
      view := view.(segs := view.segs[n := view.segs[n] + bytes[..write]]);
    }

    /** mbuf_read from the first mbuf. */
    method ReadHead(buf: Mbuf, dst: array<byte>, at: nat, len: nat, ghost cap: nat) returns (read: nat)
      requires Linked(cap) && data.elems != [] && buf == data.elems[0]
      requires dst !in repr && at + Min(|view.segs[0]| - view.pos, len) <= dst.Length
      modifies repr, dst
      ensures Linked(cap) && repr == old(repr) && data.elems == old(data.elems)
      ensures read == Min(|view.segs[0]| - old(view.pos), len)
      ensures view == old(view).(pos := old(view.pos) + read)
      ensures dst[..] == Overwrite(old(dst[..]), at, view.segs[0][old(view.pos)..][..read])
    {
      hide Head.Spells, Distinct;
      assert Holds(buf, areas[0], view.segs[0], PosAt(0), cap);
      data.NoRepeats();
      DistinctFrom(data.elems, 0);
      DistinctFrom(areas, 0);
      read := MbufRead(buf, dst, at, len);
      view := view.(pos := view.pos + read);
    }

    /** TAILQ_REMOVE of the first mbuf and mbuf_recycle. */
    method DropHead(buf: Mbuf, pool: Pool)
      requires pool.Valid() && Linked(pool.offset) && Owned(pool.ledger.inUse)
      requires pool.repr !! repr
      requires data.elems != [] && buf == data.elems[0]
      modifies pool.repr, repr
      ensures pool.Valid() && Linked(pool.offset)
      ensures pool.repr !! repr && repr + pool.repr <= old(repr + pool.repr)
      ensures view == Chain(old(view.segs)[1..], 0)
      ensures data.elems == old(data.elems)[1..]
      ensures Owned(pool.ledger.inUse)
      ensures Traded(old(pool.ledger.inUse), old(data.elems), pool.ledger.inUse, data.elems)
      ensures Repaid(old(pool.ledger), old(data.elems), pool.ledger, data.elems)
    {
      hide Balanced, Head.Spells, Distinct, Kept, Released, Traded, Repaid;
      pool.Counts();
      Detach(buf, pool.offset);
      pool.Recycle(buf);
      OneDropped(old(pool.ledger), old(data.elems), pool.ledger);
    }

    /** TAILQ_REMOVE of the first mbuf. */
    method Detach(buf: Mbuf, ghost cap: nat)
      requires Linked(cap) && data.elems != [] && buf == data.elems[0]
      modifies repr
      ensures Linked(cap) && repr == old(repr) - {buf, buf.val.start}
      ensures buf.val == old(buf.val) && buf !in data.elems && buf.val.start.Length == cap
      ensures view == Chain(old(view.segs)[1..], 0)
      ensures data.elems == old(data.elems)[1..]
    {
      hide Head.Spells, Distinct, Holds, Head.Valid;
      MbufFits(0, cap);
      SameLengths(cap);
      data.NoRepeats();
      DistinctTail(data.elems);
      WithoutFirst(data.elems);
      data.Remove(buf, 0);
      areas := areas[1..];
      view := Chain(view.segs[1..], 0);
      repr := repr - {buf, buf.val.start};
      HeadGone(cap);
    }

    /** Since the old state, the first mbuf has left the queue, and no mbuf and
        no buffer has changed. */
    twostate lemma HeadGone(cap: nat)
      requires old(Linked(cap)) && old(data.elems) != [] && data.Valid()
      requires data.elems == old(data.elems)[1..] && areas == old(areas)[1..] && old(data.elems)[0] !in data.elems
      requires view == Chain(old(view.segs)[1..], 0) && repr == old(repr) - {old(data.elems)[0], old(areas)[0]}
      requires forall m :: m in old(data.elems) ==> m.val == old(m.val)
      requires forall a :: a in old(areas) ==> a[..] == old(a[..])
      ensures Linked(cap)
    {
      hide Head.Spells, Distinct, Head.Valid;
      DistinctTail(old(areas));
      forall i | 0 <= i < |areas|
        ensures data.elems[i] in repr && areas[i] in repr
        ensures Holds(data.elems[i], areas[i], view.segs[i], PosAt(i), cap)
      {
        var m, a := old(data.elems)[i + 1], old(areas)[i + 1];
        assert old(Holds(m, a, view.segs[i + 1], PosAt(i + 1), cap));
        assert m.val == old(m.val) && a[..] == old(a[..]);
      }
    }

    /** The queue holds what history h has left. */
    ghost predicate Valid(cap: nat, h: History)
      requires cap > 0
      reads this, repr
    {
      Linked(cap) && h.Ok() && view == Layout(cap, h)
    }

    /** Valid, with what the owner of the queue has to know about it. */
    ghost predicate Holding(cap: nat, h: History)
      requires cap > 0
      reads this, repr
      ensures Holding(cap, h) ==>
        && this in repr && data in repr && h.Ok()
        && (forall m :: m in data.elems ==> m in repr)
        && |data.elems| == |Layout(cap, h).segs|
    {
      Valid(cap, h)
    }

    lemma ValidLinked(cap: nat, h: History)
      requires cap > 0 && Valid(cap, h)
      ensures Linked(cap)
    {
    }

    lemma EmptyIsValid(cap: nat)
      requires cap > 0 && Linked(cap) && view == Chain([], 0)
      ensures Valid(cap, NOTHING)
    {
      NothingLaidOut(cap);
    }

    lemma DriftIsNoMatter(cap: nat, h: History, h1: History)
      requires cap > 0 && Valid(cap, h) && h1.written == h.written && h1.taken == h.taken
      ensures Valid(cap, h1)
    {
    }

    lemma TailSizes(cap: nat)
      requires Linked(cap) && data.elems != []
      ensures var n := |data.elems| - 1; var m := data.elems[n];
              CursorsOk(m) && WriteSize(m) == cap - |view.segs[n]| >= 0
    {
      var n := |areas| - 1;
      assert Holds(data.elems[n], areas[n], view.segs[n], PosAt(n), cap);
    }

    lemma HeadSizes(cap: nat)
      requires Linked(cap) && data.elems != []
      ensures var m := data.elems[0];
              CursorsOk(m) && ReadSize(m) == |view.segs[0]| - view.pos >= 0 && WriteSize(m) == cap - |view.segs[0]|
    {
      assert Holds(data.elems[0], areas[0], view.segs[0], PosAt(0), cap);
    }

    /** The mbuf that con_buf_write starts with: the tail, or a new one if there
        is none or it is full (base/corvus.c:149-161). */
    method WritableTail(pool: Pool, ghost h: History) returns (buf: Mbuf)
      requires pool.Valid() && Valid(pool.offset, h) && Owned(pool.ledger.inUse)
      requires pool.repr !! repr
      modifies pool.repr, repr
      ensures pool.Valid() && Linked(pool.offset) && OpenTail(pool.offset, h, view)
      ensures data.elems != [] && buf == data.elems[|data.elems| - 1] && Owned(pool.ledger.inUse)
      ensures pool.repr !! repr && fresh(repr + pool.repr - old(repr + pool.repr))
      ensures Traded(old(pool.ledger.inUse), old(data.elems), pool.ledger.inUse, data.elems)
      ensures Lent(old(pool.ledger), old(data.elems), pool.ledger, data.elems)
    {
      hide Balanced, Head.Spells, Distinct, Holds, Layout, OpenTail, Traded, Lent, Linked;
      var head := data;
      var tail: Entry?<Area> := null;
      ghost var cap := pool.offset;
      TradedNothing(pool.ledger.inUse, data.elems);
      LentNothing(pool.ledger, data.elems);
      SameLengths(cap);
      if !head.Empty() {
        tail := head.Last();
        TailSizes(cap);
      }
      if tail == null || WriteSize(tail) == 0 {
        var _ := Grow(pool);
      }
      OpensTail(cap, h, view);
      SameLengths(cap);
      buf := head.Last();
    }

    /** One turn of the write loop (base/corvus.c:165-184) with `bytes` still to
        write; `done` says that the `return` of line 176 is taken. */
    method PutOnce(pool: Pool, buf: Mbuf, bytes: seq<byte>, ghost h: History)
      returns (write: nat, tail: Mbuf, done: bool)
      requires pool.Valid() && Linked(pool.offset) && Owned(pool.ledger.inUse)
      requires pool.repr !! repr && bytes != [] && h.Ok() && OpenTail(pool.offset, h, view)
      requires data.elems != [] && buf == data.elems[|data.elems| - 1]
      modifies pool.repr, repr
      ensures pool.Valid() && Linked(pool.offset) && Owned(pool.ledger.inUse)
      ensures pool.repr !! repr && fresh(repr + pool.repr - old(repr + pool.repr))
      ensures Traded(old(pool.ledger.inUse), old(data.elems), pool.ledger.inUse, data.elems)
      ensures Lent(old(pool.ledger), old(data.elems), pool.ledger, data.elems)
      ensures 0 < write <= |bytes|
      ensures data.elems != [] && tail == data.elems[|data.elems| - 1]
      ensures if write == |bytes|
              then view == Layout(pool.offset, h.Put(bytes)) && (done <==> Closed(pool.offset, view))
              else !done && OpenTail(pool.offset, h.Put(bytes[..write]), view)
    {
      hide Balanced, Head.Spells, Distinct, Holds, Layout, OpenTail, Traded, Lent, Linked, Pool.Valid;
      ghost var cap := pool.offset;
      ghost var v0 := view;
      done, tail := false, buf;
      TradedNothing(pool.ledger.inUse, data.elems);
      LentNothing(pool.ledger, data.elems);
      OpenTailRoom(cap, h, v0);
      TailSizes(cap);
      SameLengths(cap);
      var writable := WriteSize(buf);
      if writable > |bytes| {
        write := FillTail(buf, bytes, |bytes|, cap);
        FillOpenTail(cap, h, v0, bytes[..write]);
        assert bytes[..write] == bytes;
      } else {
        write := FillTail(buf, bytes, writable, cap);
        FillOpenTail(cap, h, v0, bytes[..write]);
        if write == |bytes| {
          assert bytes[..write] == bytes;
          done := true;
        } else {
          ghost var ledger1, elems1 := pool.ledger, data.elems;
          tail := Grow(pool);
          TradedAgain(old(pool.ledger.inUse), old(data.elems), ledger1.inUse, elems1, pool.ledger.inUse, data.elems);
          LentAgain(old(pool.ledger), old(data.elems), ledger1, elems1, pool.ledger, data.elems);
          OpensTail(cap, h.Put(bytes[..write]), view);
        }
      }
    }

    /** The writing part of con_buf_write (base/corvus.c:149-187).  `early` says
        that the loop was left by the `return` of line 176. */
    method Put(pool: Pool, bytes: seq<byte>, ghost h: History) returns (early: bool)
      requires pool.Valid() && Valid(pool.offset, h) && Owned(pool.ledger.inUse)
      requires pool.repr !! repr && bytes != []
      modifies pool.repr, repr
      ensures pool.Valid() && Valid(pool.offset, h.Put(bytes)) && Owned(pool.ledger.inUse)
      ensures pool.repr !! repr && fresh(repr + pool.repr - old(repr + pool.repr))
      ensures Traded(old(pool.ledger.inUse), old(data.elems), pool.ledger.inUse, data.elems)
      ensures Lent(old(pool.ledger), old(data.elems), pool.ledger, data.elems)
      ensures var k := |data.elems| - |old(data.elems)|;
              var j := if k < |old(pool.freeq.elems)| then k else |old(pool.freeq.elems)|;
              && 0 <= j && pool.freeq.elems == old(pool.freeq.elems)[j..]
              && pool.freeBuffers == old(pool.freeBuffers) - j && pool.totalBuffers == old(pool.totalBuffers) + k - j
      ensures early <==> OnBoundary(pool.offset, |h.Put(bytes).written|)
    {
      hide Balanced, Head.Spells, Distinct, Holds, Layout, OpenTail, Traded, Lent, Linked, Pool.Valid, Pool.Exact,
        Closed, OnBoundary;
      ghost var cap := pool.offset;
      pool.IsExact();
      early := false;
      var buf := WritableTail(pool, h);
      var left, at := |bytes|, 0;
      PutNothing(h, bytes[..at]);
      while left != 0
        invariant 0 <= at && 0 <= left && at + left == |bytes|
        invariant pool.Valid() && Linked(cap) && Owned(pool.ledger.inUse)
        invariant pool.repr !! repr && fresh(repr + pool.repr - old(repr + pool.repr))
        invariant data.elems != [] && buf == data.elems[|data.elems| - 1]
        invariant Traded(old(pool.ledger.inUse), old(data.elems), pool.ledger.inUse, data.elems)
        invariant Lent(old(pool.ledger), old(data.elems), pool.ledger, data.elems)
        invariant if left == 0 then view == Layout(cap, h.Put(bytes)) && !Closed(cap, view)
                  else OpenTail(cap, h.Put(bytes[..at]), view)
      {
        ghost var ledger1, elems1 := pool.ledger, data.elems;
        ghost var was := h.Put(bytes[..at]);
        var write, done;
        write, buf, done := PutOnce(pool, buf, bytes[at..], was);
        TradedAgain(old(pool.ledger.inUse), old(data.elems), ledger1.inUse, elems1, pool.ledger.inUse, data.elems);
        LentAgain(old(pool.ledger), old(data.elems), ledger1, elems1, pool.ledger, data.elems);
        h.PutMore(bytes, at, at + write);
        h.PutMore(bytes, at, |bytes|);
        PutAll(h, bytes, was, at);
        left := left - write;
        at := at + write;
        if done {
          ClosedIff(cap, h.Put(bytes));
          pool.IsExact();
          FreeListDrawn(pool);
          return true;
        }
      }
      ClosedIff(cap, h.Put(bytes));
      pool.IsExact();
      FreeListDrawn(pool);
    }

    lemma SameLengths(cap: nat)
      requires Linked(cap)
      ensures data.Valid() && |data.elems| == |view.segs|
    {
    }

    /** mhdr_readable: only the first mbuf is looked at. */
    predicate Readable()
      requires data.Valid()
      reads this, data, data.elems
    {
      var buf := data.First();
      buf != null && ReadSize(buf) != 0
    }

    lemma ReadableIff(cap: nat, h: History)
      requires cap > 0 && Valid(cap, h)
      ensures data.Valid() && (Readable() <==> h.Stream() != [])
    {
      HeadDecides(cap, h);
      if data.elems != [] {
        HeadSizes(cap);
      }
    }

    /** One turn of the read loop (base/corvus.c:200-211).  `again` is false
        when the loop is left by its `break`. */
    method TakeOnce(pool: Pool, dst: array<byte>, at: nat, ask: nat, ghost h: History)
      returns (ret: nat, again: bool)
      requires pool.Valid() && Valid(pool.offset, h) && Owned(pool.ledger.inUse)
      requires pool.repr !! repr && dst !in pool.repr && dst !in repr
      requires h.Stream() != [] && at + Min(HeadLeft(pool.offset, h.taken, |h.written|), ask) <= dst.Length
      modifies pool.repr, repr, dst
      ensures ret == Min(HeadLeft(pool.offset, h.taken, |h.written|), ask) <= |h.Stream()|
      ensures (again <==> Drains(pool.offset, h.taken, ret)) && (again ==> ret > 0)
      ensures pool.Valid() && Valid(pool.offset, h.Take(ret)) && Owned(pool.ledger.inUse)
      ensures pool.repr !! repr && repr + pool.repr <= old(repr + pool.repr)
      ensures Traded(old(pool.ledger.inUse), old(data.elems), pool.ledger.inUse, data.elems)
      ensures Repaid(old(pool.ledger), old(data.elems), pool.ledger, data.elems)
      ensures dst[..] == Overwrite(old(dst[..]), at, h.Stream()[..ret])
    {
      hide Balanced, Head.Spells, Distinct, Holds, Layout, Traded, Repaid, Linked, Pool.Valid;
      ghost var cap := pool.offset;
      HeadHolds(cap, h);
      SameLengths(cap);
      TradedNothing(pool.ledger.inUse, data.elems);
      pool.NothingRepaid(data.elems);
      var buf := data.First();
      HeadSizes(cap);
      ret := ReadHead(buf, dst, at, ask, cap);
      TakeFromHead(cap, h, ret);
      HeadSizes(cap);
      again := CanRecycle(buf);
      if again {
        DropHead(buf, pool);
      }
    }

    /** The intended loop of con_buf_read: an mbuf is asked for what is still
        wanted (base/corvus.c:192-212).  A negative `size` makes that negative,
        and with an mbuf to read it then reaches memcpy: `fault` says so. */
    method Take(pool: Pool, dst: array<byte>, len: nat, size: int, ghost h: History) returns (read: nat, fault: bool)
      requires pool.Valid() && Valid(pool.offset, h) && Owned(pool.ledger.inUse)
      requires pool.repr !! repr && dst !in pool.repr && dst !in repr
      requires ReadCount(h, len, size) <= dst.Length
      modifies pool.repr, repr, dst
      ensures fault <==> size < 0 && h.Stream() != []
      ensures fault ==> read == 0 && unchanged(old(pool.repr)) && unchanged(old(repr)) && unchanged(dst)
      ensures read == ReadCount(h, len, size) <= |h.Stream()|
      ensures pool.Valid() && Valid(pool.offset, h.Take(read)) && Owned(pool.ledger.inUse)
      ensures pool.repr !! repr && repr + pool.repr <= old(repr + pool.repr)
      ensures Traded(old(pool.ledger.inUse), old(data.elems), pool.ledger.inUse, data.elems)
      ensures Repaid(old(pool.ledger), old(data.elems), pool.ledger, data.elems)
      ensures Delivered(old(dst[..]), dst[..], h.Stream()[..read])
    {
      hide Balanced, Head.Spells, Distinct, Holds, Layout, Traded, Repaid, Linked, Pool.Valid, Overwrite, HeadLeft,
        History.Stream, History.Take;
      TakeNothing(h);
      ghost var cap := pool.offset;
      var allow := if len > size then size else len;
      read, fault := 0, false;
      TradedNothing(pool.ledger.inUse, data.elems);
      pool.NothingRepaid(data.elems);
      ReadableIff(cap, h);
      OverwriteNothing(dst[..], h.Stream());
      if allow < 0 {
        fault := Readable();
        return;
      }
      ghost var want := allow;
      while Readable() && allow != 0
        invariant 0 <= allow && read + allow == want && read <= |h.Stream()|
        invariant data.Valid() && (Readable() <==> h.Take(read).Stream() != [])
        invariant pool.Valid() && Valid(cap, h.Take(read)) && Owned(pool.ledger.inUse)
        invariant pool.repr !! repr && repr + pool.repr <= old(repr + pool.repr)
        invariant Traded(old(pool.ledger.inUse), old(data.elems), pool.ledger.inUse, data.elems)
        invariant Repaid(old(pool.ledger), old(data.elems), pool.ledger, data.elems)
        invariant dst[..] == Overwrite(old(dst[..]), 0, h.Stream()[..read])
        decreases allow
      {
        ghost var now := h.Take(read);
        TakeLeft(h, read);
        LastOrMore(cap, now);
        ghost var ledger1, elems1 := pool.ledger, data.elems;
        var ret, again := TakeOnce(pool, dst, read, allow, now);
        TradedAgain(old(pool.ledger.inUse), old(data.elems), ledger1.inUse, elems1, pool.ledger.inUse, data.elems);
        RepaidAgain(old(pool.ledger), old(data.elems), ledger1, elems1, pool.ledger, data.elems);
        TakeMore(h, read, ret);
        OverwriteAgain(old(dst[..]), h.Stream()[..read], now.Stream()[..ret]);
        allow := allow - ret;
        read := read + ret;
        if !again {
          break;
        }
        ReadableIff(cap, h.Take(read));
      }
      TakeLeft(h, read);
    }

    /** The loop of con_buf_read as it stands: an mbuf is asked for the whole
        `len`, whatever was read before it. */
    method TakeAsWritten(pool: Pool, dst: array<byte>, len: nat, size: int, ghost h: History) returns (read: nat)
      requires pool.Valid() && Valid(pool.offset, h) && Owned(pool.ledger.inUse)
      requires pool.repr !! repr && dst !in pool.repr && dst !in repr
      requires GreedyOf(pool.offset, h, len, Min(len, size)) <= dst.Length
      modifies pool.repr, repr, dst
      ensures read == GreedyOf(pool.offset, h, len, Min(len, size))
      ensures read <= |h.Stream()|
      ensures pool.Valid() && Valid(pool.offset, h.Take(read)) && Owned(pool.ledger.inUse)
      ensures pool.repr !! repr && repr + pool.repr <= old(repr + pool.repr)
      ensures Traded(old(pool.ledger.inUse), old(data.elems), pool.ledger.inUse, data.elems)
      ensures Repaid(old(pool.ledger), old(data.elems), pool.ledger, data.elems)
      ensures Delivered(old(dst[..]), dst[..], h.Stream()[..read])
    {
      hide Balanced, Head.Spells, Distinct, Holds, Layout, Traded, Repaid, Linked, Pool.Valid, Overwrite, GreedyOf,
        HeadLeft, Drains, History.Stream, History.Take;
      TakeNothing(h);
      ghost var cap := pool.offset;
      var allow := if len > size then size else len;
      read := 0;
      ghost var total := GreedyOf(cap, h, len, allow);
      TradedNothing(pool.ledger.inUse, data.elems);
      pool.NothingRepaid(data.elems);
      ReadableIff(cap, h);
      OverwriteNothing(dst[..], h.Stream());
      while Readable() && allow != 0
        invariant read <= |h.Stream()|
        invariant data.Valid() && (Readable() <==> h.Take(read).Stream() != [])
        invariant total == read + GreedyOf(cap, h.Take(read), len, allow)
        invariant pool.Valid() && Valid(cap, h.Take(read)) && Owned(pool.ledger.inUse)
        invariant pool.repr !! repr && repr + pool.repr <= old(repr + pool.repr)
        invariant Traded(old(pool.ledger.inUse), old(data.elems), pool.ledger.inUse, data.elems)
        invariant Repaid(old(pool.ledger), old(data.elems), pool.ledger, data.elems)
        invariant dst[..] == Overwrite(old(dst[..]), 0, h.Stream()[..read])
        decreases |h.Stream()| - read
      {
        ghost var now := h.Take(read);
        TakeLeft(h, read);
        GreedyTurn(cap, now, len, allow, Min(HeadLeft(cap, now.taken, |now.written|), len));
        ghost var ledger1, elems1 := pool.ledger, data.elems;
        var ret, again := TakeOnce(pool, dst, read, len, now);
        TradedAgain(old(pool.ledger.inUse), old(data.elems), ledger1.inUse, elems1, pool.ledger.inUse, data.elems);
        RepaidAgain(old(pool.ledger), old(data.elems), ledger1, elems1, pool.ledger, data.elems);
        TakeMore(h, read, ret);
        OverwriteAgain(old(dst[..]), h.Stream()[..read], now.Stream()[..ret]);
        allow := allow - ret;
        read := read + ret;
        if !again {
          return;
        }
        ReadableIff(cap, h.Take(read));
      }
      if !Readable() || allow == 0 {
        GreedyStops(cap, h.Take(read), len, allow);
      }
    }

    /** One turn of the loop of con_buf_peek, `want` bytes still asked for. */
    method PeekOnce(buf: Mbuf, dst: array<byte>, at: nat, want: nat, ghost i: nat, ghost cap: nat, ghost h: History)
      returns (read: nat)
      requires cap > 0 && Valid(cap, h) && dst !in repr
      requires i < |data.elems| == |view.segs| && buf == data.elems[i] && view.pos <= |view.segs[0]|
      requires at <= |h.Stream()| && h.Stream()[at..] == Rest(view, i)
      requires at + Min(want, |h.Stream()| - at) <= dst.Length
      modifies dst
      ensures read <= want && at + read <= |h.Stream()|
      ensures read < want ==> h.Stream()[at + read..] == Rest(view, i + 1)
      ensures h.Stream()[..at] + h.Stream()[at..][..read] == h.Stream()[..at + read]
      ensures dst[..] == Overwrite(old(dst[..]), at, h.Stream()[at..][..read])
    {
      hide Balanced, Head.Spells, Head.Valid, Distinct, Holds, Layout, Linked, Overwrite, Rest, History.Stream;
      MbufAt(i, cap);
      var tmp := ReadSize(buf);
      read := if tmp > want then want else tmp;
      PeekStep(view, i, h.Stream(), at, read);
      var _ := MbufPeek(buf, dst, at, read);
    }

    /** The loop of con_buf_peek (base/corvus.c:225-235). */
    method Peek(dst: array<byte>, len: nat, ghost cap: nat, ghost h: History) returns (ret: nat)
      requires cap > 0 && Valid(cap, h) && dst !in repr
      requires Min(len, |h.Stream()|) <= dst.Length
      modifies dst
      ensures ret == Min(len, |h.Stream()|)
      ensures Delivered(old(dst[..]), dst[..], h.Stream()[..ret])
    {
      hide Balanced, Head.Spells, Distinct, Holds, Layout, Linked, Overwrite, Rest, History.Stream;
      ret := 0;
      var left := len;
      LayoutShape(cap, h);
      SameLengths(cap);
      OverwriteNothing(dst[..], h.Stream());
      RestAll(view);
      RestEnd(view);
      ghost var i := 0;
      var buf := data.First();
      while buf != null
        invariant 0 <= i <= |data.elems| && buf == At(data.elems, i)
        invariant 0 <= left && ret + left == len && ret <= |h.Stream()|
        invariant h.Stream()[ret..] == Rest(view, i)
        invariant dst[..] == Overwrite(old(dst[..]), 0, h.Stream()[..ret])
        decreases |data.elems| - i
      {
        var read := PeekOnce(buf, dst, ret, left, i, cap, h);
        OverwriteAgain(old(dst[..]), h.Stream()[..ret], h.Stream()[ret..][..read]);
        ret := ret + read;
        left := left - read;
        if left == 0 {
          break;
        }
        data.NextAt(i);
        buf := buf.next;
        i := i + 1;
      }
    }

    /** connection_buf_free: every mbuf of the queue goes back to the pool. */
    method Release(pool: Pool)
      requires pool.Valid() && Linked(pool.offset) && Owned(pool.ledger.inUse)
      requires pool.repr !! repr
      modifies pool.repr, repr
      ensures pool.Valid() && Linked(pool.offset) && data.elems == []
      ensures pool.repr !! repr && repr + pool.repr <= old(repr + pool.repr)
      ensures this in repr && data in repr
      ensures Traded(old(pool.ledger.inUse), old(data.elems), pool.ledger.inUse, [])
      ensures Repaid(old(pool.ledger), old(data.elems), pool.ledger, [])
      ensures var n, k := |old(pool.freeq.elems)|, |old(data.elems)|; var j := |pool.freeq.elems| - n;
              && |pool.freeq.elems| == (if n + k < 11 then n + k else 11)
              && 0 <= j <= k && pool.freeq.elems[j..] == old(pool.freeq.elems)
              && (forall i :: 0 <= i < j ==> pool.freeq.elems[i] == old(data.elems)[j - 1 - i])
              && pool.freeBuffers == |pool.freeq.elems| && pool.totalBuffers == old(pool.totalBuffers) - (k - j)
    {
      hide Balanced, Head.Spells, Distinct, Holds, Traded, Repaid, Linked, Pool.Valid;
      TradedNothing(pool.ledger.inUse, data.elems);
      pool.NothingRepaid(data.elems);
      SameLengths(pool.offset);
      pool.Counts();
      while !data.Empty()
        invariant pool.Valid() && Linked(pool.offset) && Owned(pool.ledger.inUse) && data.Valid()
        invariant pool.repr !! repr && repr + pool.repr <= old(repr + pool.repr)
        invariant Traded(old(pool.ledger.inUse), old(data.elems), pool.ledger.inUse, data.elems)
        invariant Repaid(old(pool.ledger), old(data.elems), pool.ledger, data.elems)
        decreases |data.elems|
      {
        var buf := data.First();
        ghost var ledger1, elems1 := pool.ledger, data.elems;
        DropHead(buf, pool);
        TradedAgain(old(pool.ledger.inUse), old(data.elems), ledger1.inUse, elems1, pool.ledger.inUse, data.elems);
        RepaidAgain(old(pool.ledger), old(data.elems), ledger1, elems1, pool.ledger, data.elems);
        SameLengths(pool.offset);
      }
      pool.Counts();
      RepaidMeans(old(pool.ledger), old(data.elems), pool.ledger, data.elems);
    }

    lemma MbufFits(i: nat, cap: nat)
      requires Linked(cap) && i < |data.elems|
      ensures i < |view.segs| == |data.elems| == |areas| && data.elems[i].val.start.Length == cap
      ensures data.elems[i].val.last == |view.segs[i]| && data.elems[i].val.start == areas[i]
    {
      assert Holds(data.elems[i], areas[i], view.segs[i], PosAt(i), cap);
    }

    lemma MbufAt(i: nat, cap: nat)
      requires Linked(cap) && i < |data.elems|
      ensures var m := data.elems[i];
              && CursorsOk(m) && m.val.pos == PosAt(i) && Written(m) == view.segs[i]
              && ReadSize(m) == |view.segs[i]| - PosAt(i) >= 0
              && m.val.start in repr
    {
      assert Holds(data.elems[i], areas[i], view.segs[i], PosAt(i), cap);
    }
  }
}
