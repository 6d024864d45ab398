/** What every valid context has in memory: which mbuf lies where, what the
    mbufs hold, and what the counters count. */
module Accounting {
  import opened Sequences
  import opened Ledgers
  import opened Sums
  import opened TailQueue
  import opened SimpleQueue
  import opened Segments
  import opened Mbufs
  import opened ByteQueues
  import opened Corvus

  /** The mbufs of a connection, first to last. */
  ghost function MbufsOf(ctx: Context, c: Connection): seq<Mbuf>
    requires ctx.Valid() && c in ctx.infoOf
    reads ctx, ctx.pool, ctx.conns, ctx.Footprint()
  {
    ctx.MbufsAt(c)
  }

  ghost predicate InChain(ctx: Context, m: Mbuf, c: Connection)
    requires ctx.Valid()
    reads ctx, ctx.pool, ctx.conns, ctx.Footprint()
  {
    c in ctx.infoOf && m in MbufsOf(ctx, c)
  }

  /** No mbuf lies in the queues of two connections. */
  lemma ChainsAreDisjoint(ctx: Context, m: Mbuf, c: Connection, d: Connection)
    requires ctx.Valid() && InChain(ctx, m, c) && InChain(ctx, m, d)
    ensures c == d
  {
    hide Context.Connections, Context.Owners, Context.Accounted, Pool.Valid, ByteQueue.Valid, Layout, Balanced,
      Queue.Valid;
    var p, q := ctx.infoOf[c].val, ctx.infoOf[d].val;
    assert m in p.repr && m in q.repr;
  }

  /** Every mbuf ever allocated is in exactly one place: on the free list, in
      the queue of one connection, or released to the allocator. */
  lemma OnePlaceEach(ctx: Context, m: Mbuf)
    requires ctx.Valid() && m in ctx.pool.ledger.ever
    ensures var free, freed := m in ctx.pool.freeq.elems, ctx.pool.ledger.freed[m];
            || (free && freed == 0 && forall c :: c in ctx.infoOf ==> !InChain(ctx, m, c))
            || (!free && freed == 0 && exists c :: InChain(ctx, m, c))
            || (!free && freed == 1 && forall c :: c in ctx.infoOf ==> !InChain(ctx, m, c))
  {
    hide Context.Connections, Context.Infos, Context.Accounted, Head.Spells, ByteQueue.Valid, Layout, Balanced;
    var b := ctx.pool.ledger;
    OnePlace(b, m);
    if m in b.inUse {
      assert InChain(ctx, m, ctx.owner[m]);
    } else {
      forall c | c in ctx.infoOf
        ensures !InChain(ctx, m, c)
      {
        assert ctx.infoOf[c].val.Owned(b.inUse);
      }
    }
  }

  /** Holdings are the lengths of the queues in memory, in closed form. */
  lemma HoldingsInMemory(ctx: Context, c: Connection)
    requires ctx.Valid() && c in ctx.hist
    ensures var cap, h := ctx.pool.offset, ctx.hist[c];
            && c in Holdings(cap, ctx.hist)
            && Holdings(cap, ctx.hist)[c] == (|h.written| + cap - 1) / cap - h.taken / cap
            && Holdings(cap, ctx.hist)[c] == if c in ctx.infoOf then |MbufsOf(ctx, c)| else 0
  {
    hide Context.Infos, Context.Owners, Head.Spells, Queue.Valid, Balanced, Pool.Valid, ByteQueue.Valid;
    var cap, h := ctx.pool.offset, ctx.hist[c];
    ClosedForm(cap, h);
    NothingLaidOut(cap);
  }

  ghost function ChainLength(ctx: Context, c: Connection): nat
    requires ctx.Valid()
    reads ctx, ctx.pool, ctx.conns, ctx.Footprint()
  {
    if c in ctx.infoOf then |MbufsOf(ctx, c)| else 0
  }

  /** The lengths of the queues in memory. */
  ghost function ChainLengths(ctx: Context): map<Connection, nat>
    requires ctx.Valid()
    reads ctx, ctx.pool, ctx.conns, ctx.Footprint()
  {
    map c | c in ctx.hist :: ChainLength(ctx, c)
  }

  /** The conservation of buffers: the total is what is in use and what is free,
      in use are the mbufs of all queues together, and the free list is capped. */
  lemma BufferCounters(ctx: Context)
    requires ctx.Valid()
    ensures ctx.pool.totalBuffers == ctx.pool.buffers + ctx.pool.freeBuffers
    ensures ctx.pool.buffers == Sum(ChainLengths(ctx))
    ensures ctx.pool.freeBuffers == |ctx.pool.freeq.elems| <= RECYCLE_LENGTH + 1
  {
    hide Context.Connections, Context.Infos, Context.Streams, Context.Owners, Pool.Stocked, Sum, Layout,
      Head.Spells;
    var held := Holdings(ctx.pool.offset, ctx.hist);
    forall c | c in ctx.hist
      ensures c in held && held[c] == ChainLengths(ctx)[c]
    {
      HoldingsInMemory(ctx, c);
    }
    assert held == ChainLengths(ctx);
  }

  /** The counters of connections and con_infos are exact when no connection
      was recycled twice, and off by the number of such calls otherwise. */
  lemma ConnectionCounters(ctx: Context)
    requires ctx.Valid()
    ensures ctx.nConns == |ctx.hist| - ctx.twice && ctx.freeConns == |ctx.conns.elems| + ctx.twice
    ensures ctx.connInfo == |ctx.infoOf| && ctx.freeConnInfo == |ctx.freeInfoq.elems|
    ensures (ctx.nConns == |ctx.hist| && ctx.freeConns == |ctx.conns.elems|) <==> ctx.twice == 0
  {
  }

  /** The shape of every queue: all mbufs but the last are full, all but the
      first are unread and nonempty, none is both full and drained, and the
      first is read up to R mod cap. */
  lemma ShapeInMemory(ctx: Context, c: Connection, i: nat)
    requires ctx.Valid() && c in ctx.infoOf && i < |MbufsOf(ctx, c)|
    ensures var m, n := MbufsOf(ctx, c)[i], |MbufsOf(ctx, c)|;
            && m.val.start.Length == ctx.pool.offset && CursorsOk(m) && m.val.last > 0
            && (i < n - 1 ==> WriteSize(m) == 0)
            && m.val.pos == (if i == 0 then ctx.HistOf(c).taken % ctx.pool.offset else 0)
            && !CanRecycle(m)
  {
    hide Context.Infos, Context.Connections, Context.Owners, Context.Accounted, Head.Spells, Layout, Pool.Valid;
    var cap, h, q := ctx.pool.offset, ctx.hist[c], ctx.infoOf[c].val;
    LayoutShape(cap, h);
    ClosedForm(cap, h);
    q.MbufAt(i, cap);
    q.MbufFits(i, cap);
  }

  /** The unread bytes of some mbufs, one after the other. */
  ghost function UnreadBytes(ms: seq<Mbuf>): seq<byte>
    requires forall m :: m in ms ==> CursorsOk(m)
    reads ms, set m | m in ms :: m.val.start
  {
    if ms == [] then [] else Written(ms[0])[ms[0].val.pos..] + UnreadBytes(ms[1..])
  }

  /** The mbufs of a queue from its i-th on hold what is left from there on. */
  lemma {:induction false} UnreadFrom(q: ByteQueue, cap: nat, i: nat)
    requires q.Linked(cap) && i <= |q.data.elems|
    requires q.view.segs != [] ==> q.view.pos <= |q.view.segs[0]|
    ensures forall m :: m in q.data.elems[i..] ==> CursorsOk(m)
    ensures |q.data.elems| == |q.view.segs|
    ensures UnreadBytes(q.data.elems[i..]) == Rest(q.view, i)
    decreases |q.data.elems| - i
  {
    hide Head.Spells, Distinct, Holds;
    var ms := q.data.elems[i..];
    if i == |q.data.elems| {
      RestEnd(q.view);
    } else {
      UnreadFrom(q, cap, i + 1);
      q.MbufAt(i, cap);
      assert ms[1..] == q.data.elems[i + 1..] && ms == [ms[0]] + ms[1..];
      RestStep(q.view, i);
    }
  }

  /** The bytes in memory are the stream, and `data_size` counts them but for
      the drift. */
  lemma StreamInMemory(ctx: Context, c: Connection)
    requires ctx.Valid() && c in ctx.infoOf
    ensures forall m :: m in MbufsOf(ctx, c) ==> CursorsOk(m)
    ensures UnreadBytes(MbufsOf(ctx, c)) == ctx.HistOf(c).Stream()
    ensures c.val.dataSize == |UnreadBytes(MbufsOf(ctx, c))| - ctx.HistOf(c).drift
  {
    hide Context.Infos, Context.Owners, Context.Accounted, Head.Spells, Layout, Pool.Valid, ByteQueue.Linked;
    var cap, h, q := ctx.pool.offset, ctx.hist[c], ctx.infoOf[c].val;
    LayoutShape(cap, h);
    UnreadFrom(q, cap, 0);
    RestAll(q.view);
    assert q.data.elems[0..] == q.data.elems;
  }

  /** Mbuf by mbuf, the queue in memory is the chain that the history lays out. */
  lemma ContentsInMemory(ctx: Context, c: Connection, i: nat)
    requires ctx.Valid() && c in ctx.infoOf && i < |MbufsOf(ctx, c)|
    ensures c in ctx.hist && ctx.hist[c].Ok() && ctx.pool.offset > 0
    ensures var l, m := Layout(ctx.pool.offset, ctx.hist[c]), MbufsOf(ctx, c)[i];
            && |MbufsOf(ctx, c)| == |l.segs|
            && CursorsOk(m) && Written(m) == l.segs[i] && m.val.pos == if i == 0 then l.pos else 0
  {
    hide Context.Infos, Context.Connections, Context.Owners, Context.Accounted, Head.Spells, Layout, Pool.Valid,
      ByteQueue.Linked;
    ctx.infoOf[c].val.MbufAt(i, ctx.pool.offset);
  }

  /** Each byte in memory has its place: of the bytes written, number i lies in
      mbuf i / cap - R / cap of the queue, at offset i mod cap of its buffer. */
  lemma PlaceInMemory(ctx: Context, c: Connection, i: nat)
    requires ctx.Valid() && c in ctx.infoOf
    requires ctx.HistOf(c).taken <= i < |ctx.HistOf(c).written|
    ensures var k := i / ctx.pool.offset - ctx.HistOf(c).taken / ctx.pool.offset;
            && 0 <= k < |MbufsOf(ctx, c)| && i % ctx.pool.offset < MbufsOf(ctx, c)[k].val.start.Length
            && MbufsOf(ctx, c)[k].val.start[i % ctx.pool.offset] == ctx.HistOf(c).written[i]
  {
    hide Context.Sound, Context.Settled, Layout, MbufsOf;
    HasHistory(ctx, c);
    CountInMemory(ctx, c);
    LayoutAt(ctx.pool.offset, ctx.hist[c], i);
    ContentsInMemory(ctx, c, i / ctx.pool.offset - ctx.hist[c].taken / ctx.pool.offset);
  }

  lemma HasHistory(ctx: Context, c: Connection)
    requires ctx.Valid() && c in ctx.infoOf
    ensures c in ctx.hist && ctx.pool.offset > 0
  {
    hide Context.Owners, Context.Accounted, Context.Connections;
  }

  lemma CountInMemory(ctx: Context, c: Connection)
    requires ctx.Valid() && c in ctx.hist
    ensures ctx.hist[c].Ok() && ctx.pool.offset > 0 && (c in ctx.infoOf <==> ctx.hist[c].written != [])
    ensures c in ctx.infoOf ==> |MbufsOf(ctx, c)| == |Layout(ctx.pool.offset, ctx.hist[c]).segs|
  {
    hide Context.Infos, Context.Owners, Context.Accounted, Head.Spells, Layout, Pool.Valid, ByteQueue.Valid;
  }

  /** What was written and what was read decide the queue in memory: it does not
      matter into which calls they were cut, nor on which context, next to
      which other connections and with which free lists. */
  lemma SameInMemory(ctx: Context, c: Connection, ctx': Context, c': Connection)
    requires ctx.Valid() && c in ctx.hist && ctx'.Valid() && c' in ctx'.hist && ctx.pool.offset == ctx'.pool.offset
    requires ctx.hist[c].written == ctx'.hist[c'].written && ctx.hist[c].taken == ctx'.hist[c'].taken
    ensures c in ctx.infoOf <==> c' in ctx'.infoOf
    ensures c in ctx.infoOf ==> |MbufsOf(ctx, c)| == |MbufsOf(ctx', c')|
    ensures c in ctx.infoOf ==>
            forall i {:trigger MbufsOf(ctx, c)[i]} :: 0 <= i < |MbufsOf(ctx, c)| ==>
              var m, m' := MbufsOf(ctx, c)[i], MbufsOf(ctx', c')[i];
              && CursorsOk(m) && CursorsOk(m') && Written(m) == Written(m')
              && m.val.pos == m'.val.pos && m.val.last == m'.val.last
  {
    hide Context.Sound, Context.Settled, Layout, MbufsOf;
    var cap := ctx.pool.offset;
    CountInMemory(ctx, c);
    CountInMemory(ctx', c');
    LayoutIgnoresDrift(cap, ctx.hist[c], ctx'.hist[c'].drift);
    if c in ctx.infoOf {
      forall i | 0 <= i < |MbufsOf(ctx, c)|
        ensures var m, m' := MbufsOf(ctx, c)[i], MbufsOf(ctx', c')[i];
                && CursorsOk(m) && CursorsOk(m') && Written(m) == Written(m')
                && m.val.pos == m'.val.pos && |Written(m)| == m.val.last && |Written(m')| == m'.val.last
      {
        ContentsInMemory(ctx, c, i);
        ContentsInMemory(ctx', c', i);
      }
    }
  }
}
