/** base/corvus.c: connections that share one context. */
module Corvus {
  import opened Sequences
  import opened Ledgers
  import opened Sums
  import opened TailQueue
  import opened SimpleQueue
  import opened Segments
  import opened Mbufs
  import opened ByteQueues
  import opened AsWritten

  type ConInfo = Node<ByteQueue>

  datatype ConnFields = ConnFields(dataSize: int, info: Node?<ByteQueue>)

  type Connection = Entry<ConnFields>

  /** What `data_size` holds after history h. */
  ghost function SizeOf(h: History): int {
    |h.written| - h.taken - h.drift
  }

  /** The history after con_buf_write as it stands: when the last byte exactly
      fills an mbuf, `data_size` is not raised. */
  ghost function WrittenAsIs(cap: nat, h: History, bytes: seq<byte>): History {
    var h1 := h.Put(bytes);
    if bytes != [] && OnBoundary(cap, |h1.written|) then h1.(drift := h.drift + |bytes|) else h1
  }

  lemma UpdatedAgain<K, V>(m: map<K, V>, k: K, v: V, w: V)
    ensures m[k := v][k := w] == m[k := w]
  {
  }

  /** The size field catches up with the bytes written or read. */
  lemma Counted(h: History, bytes: seq<byte>, n: nat)
    ensures h.Put(bytes).(drift := h.drift + |bytes|).(drift := h.drift + |bytes| - |bytes|) == h.Put(bytes)
    ensures h.Take(n).(drift := h.drift - n).(drift := h.drift - n - (0 - n)) == h.Take(n)
    ensures SizeOf(h.Put(bytes)) == SizeOf(h) + |bytes| && SizeOf(h.Take(n)) == SizeOf(h) - n
    ensures h.Take(0) == h && h.Put(bytes).written == h.written + bytes && h.Take(n).written == h.written
    ensures h.Put(bytes).drift == h.Take(n).drift == h.drift
  {
  }

  /** Before the size field catches up. */
  lemma NotYetCounted(h: History, n: nat)
    requires h.Ok() && n <= |h.Stream()|
    ensures var h1 := h.Take(n).(drift := h.drift - n); h1.Ok() && SizeOf(h1) == SizeOf(h)
  {
  }

  /** The bytes delivered are those written first and not yet read. */
  lemma ReadIs(h: History, before: seq<byte>, after: seq<byte>, n: nat)
    requires h.Ok() && n <= |h.Stream()| && Delivered(before, after, h.Stream()[..n])
    ensures h.taken + n <= |h.written| && n <= |before| == |after| && h.Take(n).taken == h.taken + n
    ensures forall i {:trigger after[i]} :: 0 <= i < n ==> after[i] == h.written[h.taken + i]
    ensures forall i {:trigger after[i]} :: n <= i < |after| ==> after[i] == before[i]
  {
    DeliveredAt(before, after, h.Stream()[..n]);
  }

  lemma SizeWithin(h: History)
    requires h.Ok() && h.drift >= 0
    ensures SizeOf(h) <= |h.Stream()|
  {
  }

  lemma ReadNothing(h: History, len: nat)
    requires h == NOTHING
    ensures h.Stream() == [] && ReadCount(h, len, SizeOf(h)) == 0 && h.Take(0) == h && SizeOf(h) == 0 && h.written == []
  {
  }

  /** The write as it stands raises `data_size` by the length written exactly
      when it writes nothing or its last byte does not fill an mbuf. */
  lemma SizeRaisedIff(cap: nat, h: History, bytes: seq<byte>)
    ensures SizeOf(WrittenAsIs(cap, h, bytes)) ==
            SizeOf(h) + if bytes == [] || !OnBoundary(cap, |h.written| + |bytes|) then |bytes| else 0
    ensures WrittenAsIs(cap, h, bytes).written == h.written + bytes && WrittenAsIs(cap, h, bytes).drift >= h.drift
    ensures WrittenAsIs(cap, h, bytes).taken == h.taken
    ensures WrittenAsIs(cap, h, []) == h
  {
    PutNothing(h, bytes);
    PutNothing(h, []);
  }

  /** How many mbufs each connection holds after its history. */
  ghost function Holdings(cap: nat, hist: map<Connection, History>): map<Connection, nat>
    requires cap > 0
  {
    map c | c in hist && hist[c].Ok() :: |Layout(cap, hist[c]).segs|
  }

  ghost function InAll(cap: nat, hist: map<Connection, History>): nat
    requires cap > 0
  {
    Sum(Holdings(cap, hist))
  }

  lemma HoldingsUpdate(cap: nat, hist: map<Connection, History>, con: Connection, h: History)
    requires cap > 0 && h.Ok()
    ensures InAll(cap, hist[con := h]) ==
            InAll(cap, hist) + |Layout(cap, h).segs|
            - if con in hist && hist[con].Ok() then |Layout(cap, hist[con]).segs| else 0
  {
    hide Layout;
    SumUpdate(Holdings(cap, hist), con, |Layout(cap, h).segs|);
    assert Holdings(cap, hist[con := h]) == Holdings(cap, hist)[con := |Layout(cap, h).segs|];
  }

  lemma HoldingsWithout(cap: nat, hist: map<Connection, History>, con: Connection)
    requires cap > 0 && con in hist && hist[con].Ok()
    ensures InAll(cap, hist - {con}) == InAll(cap, hist) - |Layout(cap, hist[con]).segs|
  {
    hide Layout;
    assert Holdings(cap, hist - {con}) == Holdings(cap, hist) - {con};
    SumWithout(Holdings(cap, hist), con);
  }

  /** The length of the free list when a chain goes from `before` to `after`
      mbufs: a longer chain takes from it while it lasts, and a shorter one
      fills it up to 11. */
  ghost function FreeAfter(free: int, before: int, after: int): int {
    if after >= before then if free > after - before then free - (after - before) else 0
    else if free + (before - after) < 11 then free + (before - after) else 11
  }

  class Context {
    const pool: Pool
    const conns: Head<ConnFields>
    const freeInfoq: Queue<ByteQueue>
    var nConns: int
    var connInfo: int
    var freeConns: int
    var freeConnInfo: int

    ghost var hist: map<Connection, History>  // the live connections, and what each has been through
    ghost var infoOf: map<Connection, ConInfo>
    ghost var owner: map<Mbuf, Connection>    // for an mbuf in use, the connection that holds it
    ghost var infoLedger: Ledger<ConInfo>
    ghost var twice: int                      // how often a cached connection was recycled again
    ghost var admin: set<object>              // connections, con_infos and queue heads
    ghost var body: set<object>               // the queues of all con_infos

    ghost function InfoAt(c: Connection): Node?<ByteQueue>
      reads this
    {
      if c in infoOf then infoOf[c] else null
    }

    ghost function HistOf(c: Connection): History
      reads this
    {
      if c in hist then hist[c] else NOTHING
    }

    /** The mbufs of a connection, first to last. */
    ghost function MbufsAt(c: Connection): seq<Mbuf>
      reads `infoOf, if c in infoOf then {infoOf[c].val.data} else {}
    {
      if c in infoOf then infoOf[c].val.data.elems else []
    }

    ghost predicate LiveConnection(c: Connection)
      reads this, c
    {
      && c in hist && hist[c].Ok()
      && c.val == ConnFields(SizeOf(hist[c]), InfoAt(c))
      && c.next == null && c.prev == Cell.Nowhere
      && (c !in infoOf ==> hist[c] == NOTHING)
    }

    /** Live connections are outside the cache, with null links; cached ones
        hold no con_info.  The cache may still be a zeroed head. */
    ghost predicate Connections()
      reads this, admin
    {
      && conns in admin
      && (forall c :: c in hist ==> c in admin && c !in conns.elems && LiveConnection(c))
      && (forall c :: c in conns.elems ==> c in admin && c.val.info == null)
      && (conns.Valid() || conns.Zeroed())
    }

    /** The connection counters, while n connections are on their way from use
        to the cache.  Recycling a cached connection shifts both by one. */
    ghost predicate Tallied(n: nat)
      reads this, conns
    {
      nConns == |hist| + n - twice && freeConns == |conns.elems| + twice
    }

    ghost predicate Infos()
      reads this, admin
    {
      && freeInfoq in admin
      && Balanced(infoLedger)
      && (forall i :: i in freeInfoq.elems ==> i in admin)
      && freeInfoq.elems == infoLedger.free
      && freeInfoq.Valid()
      && (forall c :: c in infoOf ==>
            c in hist && infoOf[c] in infoLedger.inUse && infoOf[c] in infoLedger.ever && infoOf[c] in admin)
      && (forall c, d :: c in infoOf && d in infoOf && infoOf[c] == infoOf[d] ==> c == d)
      && connInfo == |infoLedger.inUse| == |infoOf|
      && freeConnInfo == |infoLedger.free|
    }

    /** No two queues share an object, and none shares one with the pool. */
    ghost predicate Apart()
      reads this, pool, body
    {
      && this !in pool.repr && this !in admin && this !in body
      && admin !! pool.repr && body !! pool.repr && body !! admin
      && (forall i :: i in infoLedger.ever ==>
            i.val in body && i.val in i.val.repr && i.val.data in i.val.repr && i.val.repr <= body)
      && (forall i, j :: i in infoLedger.ever && j in infoLedger.ever && i != j ==> i.val.repr !! j.val.repr)
    }

    /** Each connection's queue holds what its history has left. */
    ghost predicate Streams()
      requires Apart()
      reads this, pool, body
    {
      && pool.offset > 0
      && (forall c :: c in infoOf ==>
            c in hist && infoOf[c] in infoLedger.ever
            && infoOf[c].val.Holding(pool.offset, hist[c])
            && infoOf[c].val.Owned(pool.ledger.inUse))
    }

    /** Every mbuf in use lies in the queue of the one connection that owns it. */
    ghost predicate Owners()
      requires Apart()
      reads this, pool, body
    {
      forall m :: m in pool.ledger.inUse ==>
        m in owner && owner[m] in infoOf && infoOf[owner[m]] in infoLedger.ever
        && m in infoOf[owner[m]].val.data.elems
    }

    /** The mbufs in use are as many as the histories call for. */
    ghost predicate Accounted()
      reads this, pool
    {
      pool.offset > 0 && |pool.ledger.inUse| == InAll(pool.offset, hist)
    }

    ghost function Footprint(): set<object>
      reads this, pool
    {
      {this} + admin + body + pool.repr
    }

    ghost predicate Core()
      reads this, pool, Footprint()
    {
      && Apart() && pool.Valid() && Connections() && Infos() && Streams() && Owners() && Accounted()
    }

    ghost predicate Sound()
      reads this, pool, conns, Footprint()
    {
      Core() && Tallied(0)
    }

    /** A connection has a con_info exactly when something was written to it,
        and its chain holds no less than `data_size` counts. */
    ghost predicate Settled()
      reads this
    {
      forall c :: c in hist ==> (c in infoOf <==> hist[c].written != []) && hist[c].drift >= 0
    }

    /** The invariant between two calls. */
    ghost predicate Valid()
      reads this, pool, conns, Footprint()
      ensures Valid() ==> Sound() && Settled()
    {
      Sound() && Settled()
    }

    lemma SettledAt(con: Connection)
      requires Settled() && con in hist
      ensures (con in infoOf <==> hist[con].written != []) && hist[con].drift >= 0
    {
    }

    /** What a call on one connection has to see to. */
    twostate lemma SettledStep(new con: Connection)
      requires old(Settled()) && con in hist && hist == old(hist)[con := hist[con]]
      requires infoOf.Keys <= old(infoOf.Keys) + {con} && old(infoOf.Keys) <= infoOf.Keys
      requires (con in infoOf <==> hist[con].written != []) && hist[con].drift >= 0
      ensures Settled()
    {
    }

    /** context_new and context_init; `conns` is zeroed and never initialised. */
    constructor (bufferSize: nat)
      requires bufferSize > 0
      ensures Valid() && fresh(Footprint())
      ensures pool.offset == bufferSize && hist == map[] && infoOf == map[] && twice == 0 && conns.elems == []
    {
      hide Context.Sound, Balanced, Opened, Pool.Valid, Queue.Valid, Head.Zeroed;
      pool := new Pool(bufferSize);
      conns := new Head<ConnFields>.Zero();
      freeInfoq := new Queue<ByteQueue>.Zero();
      nConns, connInfo, freeConns, freeConnInfo := 0, 0, 0, 0;
      hist, infoOf, owner, infoLedger, twice := map[], map[], map[], Opened(), 0;
      body := {};
      new;
      freeInfoq.Init();
      admin := {conns, freeInfoq};
      NewIsSound();
    }

    lemma NewIsSound()
      requires hist == map[] && infoOf == map[] && infoLedger == Opened() && body == {} && admin == {conns, freeInfoq}
      requires nConns == connInfo == freeConns == freeConnInfo == twice == 0
      requires pool.Valid() && pool.ledger.inUse == {} && freeInfoq.Valid() && freeInfoq.elems == [] && conns.Zeroed()
      requires this !in pool.repr && conns !in pool.repr && freeInfoq !in pool.repr
      ensures Sound()
    {
      hide Balanced, Opened, Pool.Valid, Queue.Valid;
      assert Holdings(pool.offset, hist) == map[];
    }

    // ----- a step of one queue and the pool leaves everything else in place

    /** Since the old state, connections, con_infos and counters are as they
        were, and one history has a new value of the same `data_size`. */
    twostate predicate Undisturbed(con: Connection)
      reads *
    {
      && con in old(hist) && con in infoOf && con in hist
      && hist == old(hist)[con := hist[con]] && infoOf == old(infoOf) && infoLedger == old(infoLedger)
      && admin == old(admin) && twice == old(twice) && nConns == old(nConns) && connInfo == old(connInfo)
      && freeConns == old(freeConns) && freeConnInfo == old(freeConnInfo)
      && unchanged(old(admin))
      && hist[con].Ok() && SizeOf(hist[con]) == SizeOf(old(hist[con]))
    }

    /** Since the old state, only the pool and the queue of `con` have moved,
        and the queue holds what its new history leaves. */
    twostate predicate Moved(con: Connection)
      reads *
    {
      && con in old(infoOf) && con in hist
      && var q := old(infoOf[con]).val;
      && unchanged(old(body - q.repr))
      && body == old(body) + q.repr - pool.repr
      && owner == OwnerAfter(old(owner), con, q)
      && Exchanged(q, hist[con])
    }

    /** Since the old state, queue q and the pool have exchanged mbufs, and the
        queue holds what history h leaves. */
    twostate predicate Exchanged(q: ByteQueue, h: History)
      reads pool, pool.repr, q, q.repr
    {
      && pool.Valid() && q.Holding(pool.offset, h) && q.Owned(pool.ledger.inUse)
      && pool.repr !! q.repr
      && fresh(q.repr + pool.repr - old(q.repr + pool.repr))
      && Traded(old(pool.ledger.inUse), old(q.data.elems), pool.ledger.inUse, q.data.elems)
    }

    /** The owners once queue q belongs to `con`. */
    ghost function OwnerAfter(before: map<Mbuf, Connection>, con: Connection, q: ByteQueue): map<Mbuf, Connection>
      reads pool, q.data
    {
      map m | m in pool.ledger.inUse :: if m in q.data.elems then con else if m in before then before[m] else con
    }

    twostate predicate Stepped(con: Connection)
      reads *
    {
      old(Sound()) && Undisturbed(con) && Moved(con)
    }

    /** The other con_infos keep their queues, which the moves did not touch. */
    twostate lemma StillOthers(con: Connection)
      requires Stepped(con)
      ensures infoOf[con] in infoLedger.ever
      ensures forall j {:trigger j.val} :: j in infoLedger.ever && j != infoOf[con] ==>
        unchanged(j.val) && unchanged(j.val.repr) && j.val.repr !! infoOf[con].val.repr && j.val.repr !! pool.repr
      ensures forall c :: c in infoOf && c != con ==> infoOf[c] != infoOf[con]
    {
      hide Balanced, ByteQueue.Holding, Pool.Valid, Traded, Queue.Valid, Streams, Owners, Accounted, Connections;
    }

    twostate lemma StillApart(con: Connection)
      requires Stepped(con)
      ensures Apart()
    {
      hide Infos, ByteQueue.Holding, Pool.Valid, Traded, Streams, Owners, Accounted, Connections;
      StillOthers(con);
    }

    twostate lemma StillConnections(con: Connection)
      requires Stepped(con)
      ensures Connections() && Tallied(0)
    {
      hide Moved, Balanced, Head.Spells, Distinct, Layout, Queue.Valid, Infos, Pool.Valid, Streams, Owners,
        Accounted;
    }

    twostate lemma StillInfos(con: Connection)
      requires Stepped(con)
      ensures Infos()
    {
      hide Moved, Balanced, Head.Spells, Distinct, Layout, Queue.Valid, Pool.Valid, Streams, Owners, Accounted,
        Connections;
    }

    twostate lemma StillStreams(con: Connection)
      requires Stepped(con) && Apart()
      ensures Streams()
    {
      hide Infos, Tallied, ByteQueue.Holding, Pool.Valid, Owners, Accounted, Connections, OwnerAfter;
      StillOthers(con);
      forall c | c in infoOf && c != con
        ensures infoOf[c].val.Holding(pool.offset, hist[c]) && infoOf[c].val.Owned(pool.ledger.inUse)
      {
        var q := infoOf[c].val;
        assert unchanged(q) && unchanged(q.repr) && q.data in q.repr;
        assert old(q.Holding(pool.offset, hist[c]) && q.Owned(pool.ledger.inUse));
      }
    }

    twostate lemma StillOwners(con: Connection)
      requires Stepped(con) && Apart()
      ensures Owners()
    {
      hide Balanced, Head.Spells, Distinct, ByteQueue.Valid, Pool.Valid, Layout, Queue.Valid, Head.Valid, Infos,
        Tallied, Accounted, Connections;
      StillOthers(con);
      var q := infoOf[con].val;
      forall m | m in pool.ledger.inUse && m !in q.data.elems
        ensures m in owner && owner[m] in infoOf && m in infoOf[owner[m]].val.data.elems
      {
        assert m in old(pool.ledger.inUse) && m !in old(q.data.elems);
        var p := infoOf[old(owner[m])].val;
        assert old(owner[m]) != con && unchanged(p) && unchanged(p.repr) && p.data in p.repr;
      }
    }

    twostate lemma StillAccounted(con: Connection)
      requires Stepped(con)
      ensures Accounted()
    {
      hide Balanced, Head.Spells, Distinct, Pool.Valid, Layout, Queue.Valid, Head.Valid, ByteQueue.Valid, Owners,
        Apart, InAll;
      HoldingsUpdate(pool.offset, old(hist), con, hist[con]);
    }

    twostate lemma StillFresh(con: Connection)
      requires Stepped(con)
      ensures fresh(Footprint() - old(Footprint()))
    {
      hide Connections, Streams, Owners, Accounted, Pool.Valid, ByteQueue.Valid, Layout, Traded, Balanced,
        Queue.Valid;
    }

    twostate lemma StillPool(con: Connection)
      requires Stepped(con)
      ensures pool.Valid()
    {
    }

    twostate lemma StillSound(con: Connection)
      requires Stepped(con)
      ensures Sound() && fresh(Footprint() - old(Footprint()))
    {
      hide Footprint, Stepped, Apart, Connections, Infos, Streams, Owners, Accounted, Pool.Valid;
      StillApart(con);
      StillConnections(con);
      StillInfos(con);
      StillStreams(con);
      StillOwners(con);
      StillAccounted(con);
      StillPool(con);
      StillFresh(con);
    }

    /** What the invariant says about a connection that has a con_info. */
    lemma Reach(con: Connection)
      requires Sound() && con in infoOf
      ensures con in hist && con in admin && conns in admin && freeInfoq in admin
      ensures con.val == ConnFields(SizeOf(hist[con]), infoOf[con])
      ensures var q := infoOf[con].val;
              && pool.Valid() && q.Holding(pool.offset, hist[con]) && q.Owned(pool.ledger.inUse)
              && pool.repr !! q.repr && q.repr <= body && this !in body && this !in pool.repr
              && this !in admin && admin !! body && admin !! pool.repr && body !! pool.repr
    {
    }

    /** The books are brought up to date after an exchange. */
    ghost method Book(con: Connection, q: ByteQueue, h: History)
      modifies `hist, `body, `owner
      ensures hist == old(hist)[con := h] && hist[con] == h
      ensures body == old(body) + q.repr - pool.repr && owner == OwnerAfter(old(owner), con, q)
    {
      hist, body, owner := hist[con := h], body + q.repr - pool.repr, OwnerAfter(owner, con, q);
    }

    lemma Outside(o: object)
      requires o !in Footprint()
      ensures o !in body && o !in admin && o !in pool.repr && o != this
    {
    }

    // ----- writing

    /** The write loop on the queue of a connection.  `data_size` has not been
        raised when it ends, so the drift has grown by the bytes written. */
    method Append(con: Connection, bytes: seq<byte>) returns (early: bool)
      requires Sound() && con in infoOf && bytes != []
      modifies this, body, pool.repr
      ensures Sound() && fresh(Footprint() - old(Footprint()))
      ensures hist == old(hist[con := HistOf(con).Put(bytes).(drift := HistOf(con).drift + |bytes|)])
      ensures early <==> OnBoundary(pool.offset, |HistOf(con).written|)
      ensures infoOf == old(infoOf) && admin == old(admin) && twice == old(twice) && conns.elems == old(conns.elems)
      ensures freeInfoq.elems == old(freeInfoq.elems)
      ensures Lent(old(pool.ledger), old(MbufsAt(con)), pool.ledger, MbufsAt(con))
    {
      hide Context.Sound, Core, Tallied, Apart, Connections, Infos, Streams, Owners, Accounted, Exchanged, Lent,
        Footprint, Pool.Valid, ByteQueue.Holding, History.Put;
      Reach(con);
      PutNothing(hist[con], bytes);
      ghost var h1 := HistOf(con).Put(bytes).(drift := HistOf(con).drift + |bytes|);
      ghost var q := infoOf[con].val;
      early := AppendStep(con, bytes);
      Book(con, q, h1);
      assert Exchanged(q, h1) && unchanged(old(body - q.repr));
      assert Undisturbed(con);
      StillSound(con);
    }

    /** The loop, and what it has moved. */
    method AppendStep(con: Connection, bytes: seq<byte>) returns (early: bool)
      requires Sound() && con in infoOf && bytes != []
      modifies infoOf[con].val.repr, pool.repr
      ensures Exchanged(infoOf[con].val, HistOf(con).Put(bytes).(drift := HistOf(con).drift + |bytes|))
      ensures Lent(old(pool.ledger), old(MbufsAt(con)), pool.ledger, MbufsAt(con))
      ensures this !in infoOf[con].val.repr && this !in pool.repr
      ensures early <==> OnBoundary(pool.offset, |HistOf(con).Put(bytes).written|)
    {
      hide Context.Sound, Pool.Valid, ByteQueue.Valid, Layout, Traded, Lent;
      Reach(con);
      var q := con.val.info.val;
      ghost var h := hist[con];
      early := q.Put(pool, bytes, h);
      q.DriftIsNoMatter(pool.offset, h.Put(bytes), h.Put(bytes).(drift := h.drift + |bytes|));
    }

    // ----- reading

    /** The intended read loop on the queue of a connection; `data_size` has not
        been lowered when it ends. */
    method Extract(con: Connection, dst: array<byte>, len: nat) returns (read: nat, fault: bool)
      requires Sound() && con in infoOf && dst !in Footprint()
      requires ReadCount(HistOf(con), len, SizeOf(HistOf(con))) <= dst.Length
      modifies this, body, pool.repr, dst
      ensures Sound() && fresh(Footprint() - old(Footprint()))
      ensures fault <==> SizeOf(old(HistOf(con))) < 0 && old(HistOf(con)).Stream() != []
      ensures fault ==> read == 0 && unchanged(dst)
      ensures read == ReadCount(old(HistOf(con)), len, SizeOf(old(HistOf(con))))
      ensures hist == old(hist)[con := old(HistOf(con)).Take(read).(drift := old(HistOf(con)).drift - read)]
      ensures Delivered(old(dst[..]), dst[..], old(HistOf(con)).Stream()[..read])
      ensures infoOf == old(infoOf) && admin == old(admin) && twice == old(twice) && conns.elems == old(conns.elems)
      ensures freeInfoq.elems == old(freeInfoq.elems)
      ensures Repaid(old(pool.ledger), old(MbufsAt(con)), pool.ledger, MbufsAt(con))
    {
      hide Context.Sound, Core, Tallied, Apart, Connections, Infos, Streams, Owners, Accounted, Exchanged, Repaid,
        Footprint, Pool.Valid, ByteQueue.Holding, Delivered, ReadCount, SizeOf, History.Take, History.Stream,
        History.Ok;
      Reach(con);
      Outside(dst);
      read, fault := ExtractStep(con, dst, len);
      ghost var q, h := infoOf[con].val, HistOf(con);
      ghost var h1 := h.Take(read).(drift := h.drift - read);
      NotYetCounted(h, read);
      Book(con, q, h1);
      assert Exchanged(q, h1) && unchanged(old(body - q.repr));
      StillSound(con);
    }

    method ExtractStep(con: Connection, dst: array<byte>, len: nat) returns (read: nat, fault: bool)
      requires Sound() && con in infoOf && dst !in Footprint()
      requires ReadCount(HistOf(con), len, SizeOf(HistOf(con))) <= dst.Length
      modifies infoOf[con].val.repr, pool.repr, dst
      ensures Exchanged(infoOf[con].val, HistOf(con).Take(read).(drift := HistOf(con).drift - read))
      ensures Repaid(old(pool.ledger), old(MbufsAt(con)), pool.ledger, MbufsAt(con))
      ensures this !in infoOf[con].val.repr && this !in pool.repr
      ensures fault <==> SizeOf(HistOf(con)) < 0 && HistOf(con).Stream() != []
      ensures fault ==> read == 0 && unchanged(dst)
      ensures read == ReadCount(HistOf(con), len, SizeOf(HistOf(con))) <= |HistOf(con).Stream()|
      ensures Delivered(old(dst[..]), dst[..], HistOf(con).Stream()[..read])
    {
      hide Context.Sound, Pool.Valid, ByteQueue.Valid, Layout, Traded, Repaid, Delivered, ReadCount,
        History.Stream;
      Reach(con);
      var q := con.val.info.val;
      ghost var h := hist[con];
      read, fault := q.Take(pool, dst, len, con.val.dataSize, h);
      q.DriftIsNoMatter(pool.offset, h.Take(read), h.Take(read).(drift := h.drift - read));
    }

    /** The read loop as it stands. */
    method ExtractAsWritten(con: Connection, dst: array<byte>, len: nat) returns (read: nat)
      requires Sound() && con in infoOf && dst !in Footprint()
      requires GreedyOf(pool.offset, HistOf(con), len, Min(len, SizeOf(HistOf(con)))) <= dst.Length
      modifies this, body, pool.repr, dst
      ensures Sound() && fresh(Footprint() - old(Footprint()))
      ensures read == old(GreedyOf(pool.offset, HistOf(con), len, Min(len, SizeOf(HistOf(con)))))
      ensures hist == old(hist)[con := old(HistOf(con)).Take(read).(drift := old(HistOf(con)).drift - read)]
      ensures Delivered(old(dst[..]), dst[..], old(HistOf(con)).Stream()[..read])
      ensures infoOf == old(infoOf) && admin == old(admin) && twice == old(twice) && conns.elems == old(conns.elems)
      ensures freeInfoq.elems == old(freeInfoq.elems)
      ensures Repaid(old(pool.ledger), old(MbufsAt(con)), pool.ledger, MbufsAt(con))
    {
      hide Context.Sound, Core, Tallied, Apart, Connections, Infos, Streams, Owners, Accounted, Exchanged, Repaid,
        Footprint, Pool.Valid, ByteQueue.Holding, Delivered, GreedyOf, History.Take, History.Stream;
      Reach(con);
      Outside(dst);
      read := ExtractAsWrittenStep(con, dst, len);
      ghost var q, h := infoOf[con].val, HistOf(con);
      ghost var h1 := h.Take(read).(drift := h.drift - read);
      TakeFields(h, read);
      Book(con, q, h1);
      assert Exchanged(q, h1) && unchanged(old(body - q.repr));
      StillSound(con);
    }

    method ExtractAsWrittenStep(con: Connection, dst: array<byte>, len: nat) returns (read: nat)
      requires Sound() && con in infoOf && dst !in Footprint()
      requires GreedyOf(pool.offset, HistOf(con), len, Min(len, SizeOf(HistOf(con)))) <= dst.Length
      modifies infoOf[con].val.repr, pool.repr, dst
      ensures Exchanged(infoOf[con].val, HistOf(con).Take(read).(drift := HistOf(con).drift - read))
      ensures Repaid(old(pool.ledger), old(MbufsAt(con)), pool.ledger, MbufsAt(con))
      ensures this !in infoOf[con].val.repr && this !in pool.repr
      ensures read == GreedyOf(pool.offset, HistOf(con), len, Min(len, SizeOf(HistOf(con)))) <= |HistOf(con).Stream()|
      ensures Delivered(old(dst[..]), dst[..], HistOf(con).Stream()[..read])
    {
      hide Context.Sound, Pool.Valid, ByteQueue.Valid, Layout, Traded, Repaid, Delivered, GreedyOf, History.Stream;
      Reach(con);
      var q := con.val.info.val;
      ghost var h := hist[con];
      read := q.TakeAsWritten(pool, dst, len, con.val.dataSize, h);
      q.DriftIsNoMatter(pool.offset, h.Take(read), h.Take(read).(drift := h.drift - read));
    }

    // ----- data_size and con_info

    /** Since the old state, only the size field of `con` and the drift in its
        history have changed. */
    twostate predicate Redrifted(con: Connection)
      reads *
    {
      && con in old(hist) && con in hist && con in infoOf && infoOf == old(infoOf)
      && hist == old(hist)[con := old(HistOf(con)).(drift := HistOf(con).drift)]
      && unchanged(pool) && unchanged(old(body)) && unchanged(old(pool.repr)) && unchanged(old(admin - {con}))
      && con.val == old(con.val).(dataSize := SizeOf(HistOf(con))) && con.next == old(con.next) && con.prev == old(con.prev)
      && body == old(body) && infoLedger == old(infoLedger) && admin == old(admin) && owner == old(owner)
      && twice == old(twice) && nConns == old(nConns) && connInfo == old(connInfo)
      && freeConns == old(freeConns) && freeConnInfo == old(freeConnInfo)
    }

    twostate lemma RedriftedApart(con: Connection)
      requires old(Sound()) && Redrifted(con)
      ensures Apart() && pool.Valid()
    {
      hide Connections, Infos, Streams, Owners, Accounted, Pool.Valid;
    }

    twostate lemma RedriftedConnections(con: Connection)
      requires old(Sound()) && Redrifted(con)
      ensures Connections() && Tallied(0)
    {
      hide Infos, Streams, Owners, Accounted, Pool.Valid, Head.Spells, Apart;
    }

    twostate lemma RedriftedInfos(con: Connection)
      requires old(Sound()) && Redrifted(con)
      ensures Infos()
    {
      hide Connections, Streams, Owners, Accounted, Pool.Valid, Queue.Valid, Balanced, Apart;
    }

    twostate lemma RedriftedOwners(con: Connection)
      requires old(Sound()) && Redrifted(con) && Apart()
      ensures Owners()
    {
      hide Connections, Infos, Streams, Accounted, Pool.Valid;
    }

    twostate lemma RedriftedStreams(con: Connection)
      requires old(Sound()) && Redrifted(con) && Apart()
      ensures Streams()
    {
      hide Connections, Infos, Owners, Accounted, Pool.Valid, ByteQueue.Valid, Layout;
      forall c | c in infoOf
        ensures infoOf[c].val.Holding(pool.offset, old(hist[c])) && infoOf[c].val.Owned(pool.ledger.inUse)
      {
        var q := infoOf[c].val;
        assert unchanged(q) && unchanged(q.repr) && q.data in q.repr;
        assert old(q.Holding(pool.offset, hist[c]) && q.Owned(pool.ledger.inUse));
      }
      infoOf[con].val.DriftIsNoMatter(pool.offset, old(HistOf(con)), HistOf(con));
    }

    twostate lemma RedriftedAccounted(con: Connection)
      requires old(Sound()) && Redrifted(con)
      ensures Accounted()
    {
      hide Owners, Streams, Pool.Valid, ByteQueue.Valid, Layout, Balanced, Queue.Valid, Head.Spells, Apart, InAll;
      LayoutIgnoresDrift(pool.offset, old(HistOf(con)), HistOf(con).drift);
      HoldingsUpdate(pool.offset, old(hist), con, HistOf(con));
    }

    twostate lemma RedriftedSound(con: Connection)
      requires old(Sound()) && Redrifted(con)
      ensures Sound()
    {
      hide Redrifted, Apart, Connections, Infos, Streams, Owners, Accounted, Pool.Valid;
      RedriftedApart(con);
      RedriftedConnections(con);
      RedriftedInfos(con);
      RedriftedOwners(con);
      RedriftedStreams(con);
      RedriftedAccounted(con);
    }

    /** `con->data_size += n`. */
    method Resize(con: Connection, n: int, ghost h1: History)
      requires Sound() && con in infoOf
      requires h1 == HistOf(con).(drift := HistOf(con).drift - n)
      modifies `hist, con`val
      ensures Sound() && Footprint() == old(Footprint())
      ensures hist == old(hist)[con := h1]
    {
      hide Context.Sound, Pool.Valid, ByteQueue.Valid, Layout;
      Reach(con);
      con.val := con.val.(dataSize := con.val.dataSize + n);
      hist := hist[con := h1];
      RedriftedSound(con);
    }

    /** Since the old state, nothing but the con_info of `con` has changed in
        the connections and in the pool. */
    twostate predicate Waiting(con: Connection)
      reads *
    {
      && con in old(hist) && con !in old(infoOf) && con in infoOf
      && hist == old(hist) && owner == old(owner) && twice == old(twice)
      && nConns == old(nConns) && freeConns == old(freeConns)
      && con.next == old(con.next) && con.prev == old(con.prev)
      && unchanged(pool) && unchanged(old(pool.repr)) && unchanged(old(admin) - {con, freeInfoq})
    }

    /** Since the old state, `con` has been given a con_info with an empty
        queue, from the free list or from the allocator. */
    twostate predicate Equipped(con: Connection)
      reads *
    {
      && con in infoOf
      && var i := infoOf[con];
      && infoOf == old(infoOf)[con := i] && connInfo == old(connInfo) + 1
      && con.val == old(con.val).(info := i)
      && unchanged(old(body) - {i.val, i.val.data})
      && i.val.view == Chain([], 0) && i.val.Linked(pool.offset) && i.val.data.elems == []
      && i.val.repr == {i.val, i.val.data}
      && body == old(body) + {i.val, i.val.data} && admin == old(admin) + {i}
      && Issued(i)
    }

    /** Since the old state, con_info i has come off the free list, or is new. */
    twostate predicate Issued(new i: ConInfo)
      reads `infoLedger, `freeConnInfo, freeInfoq, freeInfoq.elems`next
    {
      && Balanced(old(infoLedger))
      && (if old(infoLedger.free) != []
          then i == old(infoLedger.free[0]) && infoLedger == Reused(old(infoLedger)) && freeConnInfo == old(freeConnInfo) - 1
          else i !in old(infoLedger.ever) && fresh({i, i.val, i.val.data}) && infoLedger == Allocated(old(infoLedger), i)
               && freeConnInfo == old(freeConnInfo))
      && freeInfoq.elems == infoLedger.free && freeInfoq.Valid()
    }

    twostate predicate Given(con: Connection)
      reads *
    {
      Waiting(con) && Equipped(con)
    }

    /** The other con_infos keep their queues, and those lie elsewhere. */
    twostate lemma GivenOthers(con: Connection)
      requires old(Sound()) && Given(con)
      ensures infoOf[con] in infoLedger.ever
      ensures infoOf[con] in old(admin) || fresh(infoOf[con])
      ensures {infoOf[con].val, infoOf[con].val.data} <= old(body) || fresh({infoOf[con].val, infoOf[con].val.data})
      ensures forall j {:trigger j.val} :: j in infoLedger.ever && j != infoOf[con] ==>
        && j in old(infoLedger.ever) && unchanged(j.val)
        && infoOf[con].val !in j.val.repr && infoOf[con].val.data !in j.val.repr
      ensures forall c :: c in old(infoOf) ==> infoOf[c] in old(infoLedger.ever) && infoOf[c] != infoOf[con]
    {
      hide Connections, Streams, Owners, Accounted, Pool.Valid, Balanced, Queue.Valid, ByteQueue.Linked, Reused,
        Allocated;
    }

    twostate lemma GivenApart(con: Connection)
      requires old(Sound()) && Given(con)
      ensures Apart() && pool.Valid()
    {
      hide Connections, Infos, Streams, Owners, Accounted, Pool.Valid, Issued, ByteQueue.Linked;
      GivenOthers(con);
    }

    twostate lemma GivenConnections(con: Connection)
      requires old(Sound()) && Given(con)
      ensures Connections() && Tallied(0)
    {
      hide Infos, Streams, Owners, Accounted, Pool.Valid, Head.Spells, Balanced, Reused, Allocated, Queue.Valid,
        ByteQueue.Linked;
    }

    twostate lemma GivenInfos(con: Connection)
      requires old(Sound()) && Given(con)
      ensures Infos()
    {
      hide Streams, Owners, Accounted, Pool.Valid, Queue.Valid, Balanced, Connections, ByteQueue.Linked, Apart,
        Reused, Allocated;
    }

    twostate lemma GivenOwners(con: Connection)
      requires old(Sound()) && Given(con) && Apart()
      ensures Owners()
    {
      hide Connections, Streams, Accounted, Pool.Valid, Balanced, Queue.Valid, ByteQueue.Linked, Reused, Allocated;
      GivenOthers(con);
    }

    twostate lemma GivenSelf(con: Connection)
      requires old(Sound()) && Given(con)
      ensures hist[con] == NOTHING && pool.offset > 0
      ensures infoOf[con].val.Holding(pool.offset, NOTHING) && infoOf[con].val.data.elems == []
    {
      hide Infos, Apart, Owners, Accounted, Pool.Valid, Balanced, Queue.Valid, ByteQueue.Linked, Reused, Allocated,
        Layout;
      infoOf[con].val.EmptyIsValid(pool.offset);
    }

    twostate lemma GivenStreams(con: Connection)
      requires old(Sound()) && Given(con) && Apart()
      ensures Streams()
    {
      hide Connections, Infos, Owners, Accounted, Pool.Valid, ByteQueue.Valid, Layout, Balanced, Queue.Valid,
        ByteQueue.Linked, Reused, Allocated;
      GivenOthers(con);
      GivenSelf(con);
    }

    twostate lemma GivenSound(con: Connection)
      requires old(Sound()) && Given(con)
      ensures Sound() && fresh(Footprint() - old(Footprint()))
    {
      hide Given, Footprint, Apart, Connections, Infos, Streams, Owners, Accounted, Pool.Valid;
      GivenApart(con);
      GivenConnections(con);
      GivenInfos(con);
      GivenOwners(con);
      GivenStreams(con);
      GivenRest(con);
    }

    twostate lemma GivenRest(con: Connection)
      requires old(Sound()) && Given(con)
      ensures Accounted() && fresh(Footprint() - old(Footprint()))
    {
      hide Connections, Streams, Owners, Pool.Valid, Balanced, Queue.Valid, ByteQueue.Linked, Reused, Allocated;
    }

    /** con_info_new, with `info` on the free list or from the allocator. */
    method ConInfoNew() returns (info: ConInfo)
      requires Balanced(infoLedger) && freeInfoq.elems == infoLedger.free && freeInfoq.Valid()
      requires freeInfoq !in body && this !in body
      requires freeInfoq.elems != [] ==> freeInfoq.elems[0].val in body && freeInfoq.elems[0].val.data in body
      modifies `infoLedger, `connInfo, `freeConnInfo, freeInfoq, body
      ensures info.val.view == Chain([], 0) && info.val.data.elems == [] && info.val.repr == {info.val, info.val.data}
      ensures forall cap :: info.val.Linked(cap)
      ensures unchanged(old(body) - {info.val, info.val.data})
      ensures connInfo == old(connInfo) + 1 && Issued(info)
      ensures if old(freeInfoq.elems) != []
              then info == old(freeInfoq.elems[0]) && freeInfoq.elems == old(freeInfoq.elems)[1..]
              else freeInfoq.elems == []
    {
      hide Balanced, Reused, Allocated, Queue.Valid, Head.Spells, Distinct;
      var first := freeInfoq.First();
      if first != null {
        info := first;
        freeInfoq.RemoveHead();
        freeConnInfo := freeConnInfo - 1;
        infoLedger := Reused(infoLedger);
      } else {
        var q := new ByteQueue();
        info := new Node<ByteQueue>(q);
        infoLedger := Allocated(infoLedger, info);
      }
      info.val.Init();
      connInfo := connInfo + 1;
    }

    /** A connection without con_info gets one (base/corvus.c:143-147). */
    method GiveInfo(con: Connection)
      requires Sound() && con in hist && con !in infoOf
      modifies `infoLedger, `connInfo, `freeConnInfo, `infoOf, `admin, `body, con`val, freeInfoq, body
      ensures Sound() && fresh(Footprint() - old(Footprint()))
      ensures con in infoOf && infoOf.Keys == old(infoOf.Keys) + {con} && conns.elems == old(conns.elems)
      ensures if old(freeInfoq.elems) != []
              then infoOf[con] == old(freeInfoq.elems[0]) && freeInfoq.elems == old(freeInfoq.elems)[1..]
              else freeInfoq.elems == []
      ensures MbufsAt(con) == [] && pool.ledger == old(pool.ledger)
    {
      hide Context.Sound, Equipped, Footprint, Pool.Valid;
      ReachCon(con);
      ReachFree();
      GiveInfoStep(con);
      GivenSound(con);
    }

    method GiveInfoStep(con: Connection)
      requires Sound() && con in hist && con !in infoOf
      modifies `infoLedger, `connInfo, `freeConnInfo, `infoOf, `admin, `body, con`val, freeInfoq, body
      ensures Equipped(con) && con in infoOf && infoOf.Keys == old(infoOf.Keys) + {con} && MbufsAt(con) == []
      ensures if old(freeInfoq.elems) != []
              then infoOf[con] == old(freeInfoq.elems[0]) && freeInfoq.elems == old(freeInfoq.elems)[1..]
              else freeInfoq.elems == []
    {
      hide Context.Sound, Issued, Balanced, Queue.Valid, ByteQueue.Linked, Pool.Valid;
      ReachCon(con);
      ReachFree();
      var info := ConInfoNew();
      Enlist(con, info);
    }

    /** `con->info=info`, and the books. */
    method Enlist(con: Connection, info: ConInfo)
      modifies `infoOf, `admin, `body, con`val
      ensures con.val == old(con.val).(info := info) && infoOf == old(infoOf)[con := info]
      ensures admin == old(admin) + {info} && body == old(body) + {info.val, info.val.data}
    {
      con.val := con.val.(info := info);
      infoOf, admin, body := infoOf[con := info], admin + {info}, body + {info.val, info.val.data};
    }

    // ----- new connections

    /** Since the old state, `con` has come out of the cache or from the
        allocator, and is live with nothing written. */
    twostate predicate Joined(new con: Connection)
      reads *
    {
      && con !in old(hist) && hist == old(hist)[con := NOTHING]
      && con !in old(infoOf) && infoOf == old(infoOf) && infoLedger == old(infoLedger) && owner == old(owner)
      && body == old(body) && admin == old(admin) + {con} && twice == old(twice)
      && nConns == old(nConns) + 1 && connInfo == old(connInfo) && freeConnInfo == old(freeConnInfo)
      && unchanged(pool) && unchanged(old(pool.repr)) && unchanged(old(body))
      && unchanged(old(admin) - {conns, con} - SetOf(old(conns.elems)))
      && Fetched(con)
    }

    /** `con` was the first cached connection, or is new; it is zeroed. */
    twostate predicate Fetched(new con: Connection)
      reads con, `freeConns, conns, conns.elems
    {
      && con.val == ConnFields(0, null) && con.next == null && con.prev == Cell.Nowhere
      && (conns.Valid() || conns.Zeroed())
      && freeConns == old(freeConns) + |conns.elems| - |old(conns.elems)|
      && (forall e :: e in conns.elems ==> e in old(conns.elems) && e.val == old(e.val) && e != con)
      && (con in old(conns.elems) || fresh(con))
    }

    twostate lemma JoinedApart(new con: Connection)
      requires old(Sound()) && Joined(con)
      ensures Apart() && pool.Valid()
    {
      hide Infos, Streams, Owners, Accounted, Pool.Valid, Head.Valid;
    }

    twostate lemma JoinedConnections(new con: Connection)
      requires old(Sound()) && Joined(con)
      ensures Connections() && Tallied(0)
    {
      hide Infos, Streams, Owners, Accounted, Pool.Valid, Head.Valid, Apart;
    }

    twostate lemma JoinedInfos(new con: Connection)
      requires old(Sound()) && Joined(con)
      ensures Infos()
    {
      hide Streams, Owners, Accounted, Pool.Valid, Queue.Valid, Balanced, Head.Valid;
    }

    twostate lemma JoinedOwners(new con: Connection)
      requires old(Sound()) && Joined(con) && Apart()
      ensures Owners()
    {
      hide Connections, Infos, Streams, Accounted, Pool.Valid, Head.Valid;
    }

    twostate lemma JoinedStreams(new con: Connection)
      requires old(Sound()) && Joined(con) && Apart()
      ensures Streams()
    {
      hide Connections, Infos, Owners, Accounted, Pool.Valid, ByteQueue.Valid, Layout, Head.Valid;
    }

    twostate lemma JoinedAccounted(new con: Connection)
      requires old(Sound()) && Joined(con)
      ensures Accounted()
    {
      hide Owners, Streams, Pool.Valid, ByteQueue.Valid, Layout, Balanced, Queue.Valid, Head.Valid, Apart, Infos,
        InAll;
      NothingLaidOut(pool.offset);
      HoldingsUpdate(pool.offset, old(hist), con, NOTHING);
    }

    twostate lemma JoinedFresh(new con: Connection)
      requires old(Sound()) && Joined(con)
      ensures fresh(Footprint() - old(Footprint()))
    {
      hide Infos, Owners, Streams, Accounted, Pool.Valid, Head.Valid;
    }

    twostate lemma JoinedSound(new con: Connection)
      requires old(Sound()) && Joined(con)
      ensures Sound() && fresh(Footprint() - old(Footprint()))
    {
      hide Joined, Footprint, Apart, Connections, Infos, Streams, Owners, Accounted, Pool.Valid;
      JoinedApart(con);
      JoinedConnections(con);
      JoinedInfos(con);
      JoinedOwners(con);
      JoinedStreams(con);
      JoinedAccounted(con);
      JoinedFresh(con);
    }

    /** context_connection_new, taking the first cached connection where the
        text passes its NULL `con` to TAILQ_REMOVE. */
    method ContextConnectionNew() returns (con: Connection)
      requires Valid()
      modifies `hist, `admin, `nConns, `freeConns, conns, conns.elems
      ensures Valid() && fresh(Footprint() - old(Footprint()))
      ensures con !in old(hist) && hist == old(hist)[con := NOTHING]
      ensures twice == old(twice)
      ensures if old(conns.elems) != [] then con == old(conns.elems[0]) && conns.elems == old(conns.elems)[1..]
              else fresh(con) && conns.elems == []
    {
      hide Fetched, Core, Head.Valid, Settled;
      ReachConns();
      con := FetchConnection();
      Admit(con);
      JoinedSound(con);
      SettledStep(con);
    }

    /** `ctx->mstats.conns++`, and the books. */
    method Admit(con: Connection)
      modifies `hist, `admin, `nConns
      ensures hist == old(hist)[con := NOTHING] && hist[con] == NOTHING
      ensures admin == old(admin) + {con} && nConns == old(nConns) + 1
    {
      nConns := nConns + 1;
      hist, admin := hist[con := NOTHING], admin + {con};
    }

    /** The choice between cache and allocator, and conn_init. */
    method FetchConnection() returns (con: Connection)
      requires conns.Valid() || conns.Zeroed()
      modifies `freeConns, conns, conns.elems
      ensures Fetched(con)
      ensures if old(conns.elems) != [] then con == old(conns.elems[0]) && conns.elems == old(conns.elems)[1..]
              else fresh(con) && conns.elems == []
    {
      hide Head.Spells, Distinct;
      if conns.First() != null {
        con := conns.First();
        conns.NoRepeats();
        DistinctTail(conns.elems);
        WithoutFirst(conns.elems);
        conns.Remove(con, 0);
        freeConns := freeConns - 1;
      } else {
        con := new Entry<ConnFields>(ConnFields(0, null));
      }
      assert con !in conns.elems;
      ConnInit(con);
    }

    /** conn_init: memset to zero.  The stale links of a cached entry go too. */
    method ConnInit(con: Connection)
      modifies con
      ensures con.val == ConnFields(0, null) && con.next == null && con.prev == Cell.Nowhere
    {
      con.val := ConnFields(0, null);
      con.next := null;
      con.prev := Cell.Nowhere;
    }

    lemma CacheInReach()
      requires Sound()
      ensures conns in Footprint() && this in Footprint()
      ensures forall c :: c in conns.elems ==> c in Footprint() && c !in hist
      ensures forall c :: c in hist ==> c in Footprint()
    {
      hide Core;
      ReachConns();
    }

    lemma CacheDistinct()
      requires Sound()
      ensures Distinct(conns.elems)
    {
      hide Apart, Infos, Streams, Owners, Accounted, Pool.Valid, Head.Spells;
      if conns.Valid() {
        conns.NoRepeats();
      }
    }

    /** Validity lies within the footprint. */
    lemma SelfContained()
      requires Sound()
      ensures {this, pool, conns} <= Footprint() && Footprint() == {this} + admin + body + pool.repr
    {
      hide Core;
      ReachConns();
    }

    /** A footprint that grew by new objects only still shares nothing with one
        that stayed as it was. */
    twostate lemma Beside(other: Context)
      requires old(Footprint()) !! old(other.Footprint()) && fresh(Footprint() - old(Footprint()))
      requires other.admin == old(other.admin) && other.body == old(other.body) && other.pool.repr == old(other.pool.repr)
      ensures Footprint() !! other.Footprint()
    {
    }

    /** What happens elsewhere leaves a context as it is. */
    twostate lemma Untouched()
      requires old(Valid()) && unchanged(this) && unchanged(pool) && unchanged(conns)
      requires unchanged(old(admin)) && unchanged(old(body)) && unchanged(old(pool.repr))
      ensures Valid() && Footprint() == old(Footprint())
    {
      hide Context.Sound;
      assert Footprint() == old(Footprint());
    }

    /** What the invariant says about the cache. */
    lemma ReachConns()
      requires Core()
      ensures conns in admin && (conns.Valid() || (conns.Zeroed() && conns.elems == []))
      ensures forall c :: c in conns.elems ==> c in admin && c !in hist && c !in infoOf
      ensures forall c :: c in hist ==> c in admin
      ensures infoOf.Keys <= hist.Keys
      ensures this !in admin && this !in body && this !in pool.repr
      ensures pool in pool.repr && admin !! body && admin !! pool.repr
    {
    }

    // ----- recycling

    /** Since the old state, the mbufs of `con` have gone back to the pool. */
    twostate predicate Emptied(con: Connection)
      reads *
    {
      && con in old(infoOf)
      && var q := old(infoOf[con]).val;
      && unchanged(old(body - q.repr))
      && body == old(body) + q.repr - pool.repr
      && Returned(q)
    }

    /** Since the old state, all mbufs of queue q have gone back to the pool. */
    twostate predicate Returned(q: ByteQueue)
      reads pool, pool.repr, q
    {
      && pool.Valid() && pool.repr !! q.repr && q in q.repr && q.data in q.repr
      && q.repr + pool.repr <= old(q.repr + pool.repr)
      && Traded(old(pool.ledger.inUse), old(q.data.elems), pool.ledger.inUse, [])
    }

    /** Since the old state, `con` has left the live connections and its
        con_info has joined the free list. */
    twostate predicate Dismissed(con: Connection)
      reads *
    {
      && con in old(hist) && con in old(infoOf) && Balanced(old(infoLedger)) && old(infoOf[con]) in old(infoLedger.inUse)
      && hist == old(hist) - {con} && infoOf == old(infoOf) - {con} && owner == old(owner)
      && admin == old(admin) && twice == old(twice) && nConns == old(nConns) && freeConns == old(freeConns)
      && connInfo == old(connInfo) - 1 && freeConnInfo == old(freeConnInfo) + 1
      && infoLedger == Queued(old(infoLedger), old(infoOf[con]))
      && freeInfoq.Valid() && freeInfoq.elems == infoLedger.free
      && unchanged(old(admin) - {freeInfoq} - old(infoLedger.ever))
    }

    twostate predicate Stripped(con: Connection)
      reads *
    {
      Dismissed(con) && Emptied(con)
    }

    /** The other con_infos keep their queues, which the moves did not touch. */
    twostate lemma StrippedOthers(con: Connection)
      requires old(Sound()) && Stripped(con)
      ensures infoLedger.ever == old(infoLedger.ever) && old(infoOf[con]) in infoLedger.ever
      ensures forall j {:trigger j.val} :: j in infoLedger.ever && j != old(infoOf[con]) ==>
        unchanged(j.val) && unchanged(j.val.repr)
      ensures forall c :: c in infoOf ==>
        c in old(infoOf) && infoOf[c] == old(infoOf[c]) && infoOf[c] != old(infoOf[con]) && infoOf[c] in infoLedger.ever
    {
      hide Connections, Streams, Owners, Accounted, Pool.Valid, Balanced, Queue.Valid, Queued, ByteQueue.Holding,
        Traded;
    }

    twostate lemma StrippedApart(con: Connection)
      requires old(Sound()) && Stripped(con)
      ensures Apart() && pool.Valid()
    {
      hide Connections, Infos, Streams, Owners, Accounted, Pool.Valid, Traded, Balanced, Queue.Valid, Queued;
      StrippedOthers(con);
      var q := old(infoOf[con]).val;
      forall j | j in infoLedger.ever && j != old(infoOf[con])
        ensures j.val in body && j.val in j.val.repr && j.val.data in j.val.repr && j.val.repr <= body
        ensures j.val.repr !! q.repr
      {
        assert j.val.repr == old(j.val.repr) && j.val.repr !! old(q.repr) && j.val.repr !! old(pool.repr);
      }
    }

    twostate lemma StrippedConnections(con: Connection)
      requires old(Sound()) && Stripped(con)
      ensures Connections() && Tallied(1)
      ensures con !in hist && con !in conns.elems && con in admin && con.next == null && con.prev == Cell.Nowhere
    {
      hide Emptied, Infos, Streams, Owners, Accounted, Pool.Valid, Head.Spells, Apart, Balanced, Queued,
        Queue.Valid;
    }

    twostate lemma StrippedInfos(con: Connection)
      requires old(Sound()) && Stripped(con)
      ensures Infos()
    {
      hide Emptied, Connections, Streams, Owners, Accounted, Pool.Valid, Queue.Valid, Balanced, Apart, Queued;
    }

    twostate lemma StrippedOwners(con: Connection)
      requires old(Sound()) && Stripped(con) && Apart()
      ensures Owners()
    {
      hide Connections, Infos, Accounted, Pool.Valid, Balanced, Queue.Valid, Queued, ByteQueue.Valid, Layout;
      StrippedOthers(con);
    }

    twostate lemma StrippedStreams(con: Connection)
      requires old(Sound()) && Stripped(con) && Apart()
      ensures Streams()
    {
      hide Connections, Infos, Owners, Accounted, Pool.Valid, ByteQueue.Holding, Balanced, Queue.Valid, Queued;
      StrippedOthers(con);
    }

    twostate lemma StrippedAccounted(con: Connection)
      requires old(Sound()) && Stripped(con)
      ensures Accounted()
    {
      hide Owners, Pool.Valid, ByteQueue.Valid, Layout, Balanced, Queue.Valid, Queued, Head.Spells, Apart, InAll;
      HoldingsWithout(pool.offset, old(hist), con);
    }

    twostate lemma StrippedCore(con: Connection)
      requires old(Sound()) && Stripped(con)
      ensures Core() && Tallied(1) && Footprint() <= old(Footprint())
      ensures con !in hist && con !in conns.elems && con in admin && con.next == null && con.prev == Cell.Nowhere
    {
      hide Stripped, Footprint, Apart, Connections, Infos, Streams, Owners, Accounted, Pool.Valid;
      StrippedApart(con);
      StrippedConnections(con);
      StrippedInfos(con);
      StrippedOwners(con);
      StrippedStreams(con);
      StrippedAccounted(con);
      StrippedFoot(con);
    }

    twostate lemma StrippedFoot(con: Connection)
      requires old(Sound()) && Stripped(con)
      ensures Footprint() <= old(Footprint())
    {
      hide Connections, Streams, Owners, Accounted, Pool.Valid, Traded, Balanced, Queue.Valid, Queued;
    }

    ghost function InfoSet(con: Connection): set<Node<ByteQueue>>
      reads this
    {
      if con in infoOf then {infoOf[con]} else {}
    }

    /** The con_info part of context_conn_recyle (base/corvus.c:118-125). */
    method RecycleInfo(con: Connection)
      requires Sound() && con in infoOf
      modifies `hist, `infoOf, `infoLedger, `connInfo, `freeConnInfo, `body
      modifies pool.repr, body, freeInfoq, freeInfoq.elems`next, InfoSet(con)`next
      ensures Core() && Tallied(1) && Footprint() <= old(Footprint())
      ensures con !in hist && con !in conns.elems && con in admin && con.next == null && con.prev == Cell.Nowhere
      ensures con.val == old(con.val)
      ensures hist == old(hist) - {con} && infoOf == old(infoOf) - {con} && conns.elems == old(conns.elems)
      ensures Repaid(old(pool.ledger), old(MbufsAt(con)), pool.ledger, [])
      ensures freeInfoq.elems == old(freeInfoq.elems) + [old(infoOf[con])]
    {
      hide Context.Sound, Core, Tallied, Emptied, Dismissed, Repaid, Footprint;
      RecycleInfoStep(con);
      StrippedCore(con);
    }

    method RecycleInfoStep(con: Connection)
      requires Sound() && con in infoOf
      modifies `hist, `infoOf, `infoLedger, `connInfo, `freeConnInfo, `body
      modifies pool.repr, body, freeInfoq, freeInfoq.elems`next, InfoSet(con)`next
      ensures Emptied(con) && Dismissed(con)
      ensures con.val == old(con.val)
      ensures hist == old(hist) - {con} && infoOf == old(infoOf) - {con} && conns.elems == old(conns.elems)
      ensures Repaid(old(pool.ledger), old(MbufsAt(con)), pool.ledger, [])
      ensures freeInfoq.elems == old(freeInfoq.elems) + [old(infoOf[con])]
    {
      hide Context.Sound, Core, Tallied, Apart, Connections, Infos, Streams, Owners, Accounted, Returned, Repaid,
        Footprint, MbufsAt, Balanced, Queued, Queue.Valid, Head.Valid, Pool.Valid, ByteQueue.Holding;
      Reach(con);
      ReachFree();
      ReachInfo(con);
      ghost var q := infoOf[con].val;
      FreeBuf(con);
      FileInfo(con, con.val.info, q);
      assert Returned(q) && unchanged(old(body - q.repr));
    }

    /** connection_buf_free, and what it leaves alone. */
    method FreeBuf(con: Connection)
      requires Sound() && con in infoOf
      modifies infoOf[con].val.repr, pool.repr
      ensures Returned(infoOf[con].val) && pool.repr <= old(infoOf[con].val.repr + pool.repr)
      ensures Repaid(old(pool.ledger), old(MbufsAt(con)), pool.ledger, [])
      ensures this !in infoOf[con].val.repr && this !in pool.repr
      ensures unchanged(old(admin)) && unchanged(old(body - infoOf[con].val.repr))
    {
      hide Context.Sound, Core, Returned, Repaid, MbufsAt, Pool.Valid, ByteQueue.Holding;
      Reach(con);
      ConnectionBufFree(con);
    }

    /** connection_buf_free: every mbuf of the connection goes back to the pool. */
    method ConnectionBufFree(con: Connection)
      requires pool.Valid() && con in infoOf && con in hist && con.val.info == infoOf[con]
      requires var q := infoOf[con].val;
               q.Holding(pool.offset, hist[con]) && q.Owned(pool.ledger.inUse) && pool.repr !! q.repr
               && this !in q.repr && this !in pool.repr && con !in q.repr && con !in pool.repr
      modifies infoOf[con].val.repr, pool.repr
      ensures Returned(infoOf[con].val) && pool.repr <= old(infoOf[con].val.repr + pool.repr)
      ensures Repaid(old(pool.ledger), old(MbufsAt(con)), pool.ledger, [])
      ensures this !in infoOf[con].val.repr && this !in pool.repr
    {
      hide Pool.Valid, ByteQueue.Valid, ByteQueue.Linked, Traded, Repaid;
      var info := con.val.info;
      info.val.ValidLinked(pool.offset, hist[con]);
      info.val.Release(pool);
    }

    /** STAILQ_INSERT_TAIL on the con_info free list; the connection is struck off. */
    method FileInfo(ghost con: Connection, info: ConInfo, ghost q: ByteQueue)
      requires Balanced(infoLedger) && info in infoLedger.inUse && info in infoLedger.ever
      requires freeInfoq.Valid() && freeInfoq.elems == infoLedger.free && info !in freeInfoq.elems
      requires this !in admin && forall i :: i in freeInfoq.elems ==> i in infoLedger.ever
      modifies `hist, `infoOf, `body, `connInfo, `infoLedger, `freeConnInfo, freeInfoq, info`next, freeInfoq.elems`next
      ensures unchanged(old(admin) - {freeInfoq} - old(infoLedger.ever))
      ensures infoLedger == Queued(old(infoLedger), info)
      ensures freeInfoq.Valid() && freeInfoq.elems == infoLedger.free
      ensures connInfo == old(connInfo) - 1 && freeConnInfo == old(freeConnInfo) + 1
      ensures hist == old(hist) - {con} && infoOf == old(infoOf) - {con} && body == old(body) + q.repr - pool.repr
    {
      hide Balanced, Queued, Queue.Valid;
      connInfo := connInfo - 1;
      freeInfoq.InsertTail(info);
      freeConnInfo := freeConnInfo + 1;
      infoLedger := Queued(infoLedger, info);
      hist, infoOf, body := hist - {con}, infoOf - {con}, body + q.repr - pool.repr;
    }

    /** Since the old state, `con` has moved to the front of the cache. */
    twostate predicate Shelved(con: Connection)
      reads *
    {
      && con in old(admin) && con !in old(hist)
      && hist == old(hist) && infoOf == old(infoOf) && infoLedger == old(infoLedger) && owner == old(owner)
      && body == old(body) && admin == old(admin) && connInfo == old(connInfo) && freeConnInfo == old(freeConnInfo)
      && unchanged(pool) && unchanged(old(pool.repr)) && unchanged(old(body))
      && unchanged(old(admin) - {conns, con} - SetOf(old(conns.elems)))
      && conns.Valid() && con.val.info == null
      && (forall e :: e in conns.elems && e != con ==> e in old(conns.elems) && e.val == old(e.val))
    }

    twostate lemma ShelvedConnections(con: Connection)
      requires old(Core()) && Shelved(con)
      ensures Connections()
    {
      hide Infos, Streams, Owners, Accounted, Pool.Valid, Head.Valid, Apart;
    }

    twostate lemma ShelvedQueues(con: Connection)
      requires old(Core()) && Shelved(con)
      ensures Apart() && pool.Valid() && Owners() && Streams()
    {
      hide Connections, Infos, Accounted, Pool.Valid, Head.Valid, ByteQueue.Valid, Layout;
    }

    twostate lemma ShelvedInfos(con: Connection)
      requires old(Core()) && Shelved(con)
      ensures Infos() && Accounted()
    {
      hide Streams, Owners, Pool.Valid, Queue.Valid, Balanced, Head.Valid, Holdings;
    }

    twostate lemma ShelvedCore(con: Connection)
      requires old(Core()) && Shelved(con)
      ensures Core() && Footprint() == old(Footprint())
    {
      hide Shelved, Apart, Connections, Infos, Streams, Owners, Accounted, Pool.Valid;
      ShelvedConnections(con);
      ShelvedQueues(con);
      ShelvedInfos(con);
      ShelvedFoot(con);
    }

    twostate lemma ShelvedFoot(con: Connection)
      requires old(Core()) && Shelved(con)
      ensures Footprint() == old(Footprint())
    {
      hide Connections, Infos, Accounted, Pool.Valid, Head.Valid, Streams, Owners;
    }

    /** `con->next.tqe_next!=NULL||con->next.tqe_prev!=NULL` */
    predicate HasLinks(con: Connection)
      reads con
    {
      con.next != null || con.prev != Cell.Nowhere
    }

    /** The link test tells cached connections from live ones. */
    lemma LinksTell(con: Connection)
      requires Core() && (con in hist || con in conns.elems)
      ensures HasLinks(con) <==> con in conns.elems
    {
      hide Apart, Infos, Streams, Owners, Accounted, Pool.Valid, Distinct;
      if con in conns.elems {
        var k :| 0 <= k < |conns.elems| && conns.elems[k] == con;
        assert con.prev == CellAt(conns, conns.elems, k);
      }
    }

    /** The TAILQ part of context_conn_recyle (base/corvus.c:126-134). */
    method Shelve(con: Connection)
      requires conns.Valid() || conns.Zeroed()
      requires HasLinks(con) <==> con in conns.elems
      modifies `nConns, `freeConns, con, conns, conns.elems
      ensures conns.Valid() && con.val == old(con.val).(info := null)
      ensures conns.elems == [con] + Minus(old(conns.elems), con)
      ensures forall e :: e in old(conns.elems) && e != con ==> e.val == old(e.val)
      ensures nConns == old(nConns) - 1 && freeConns == old(freeConns) + 1
    {
      hide Head.Spells, Head.Valid, Distinct, Minus;
      MinusCount(conns.elems, con);
      nConns := nConns - 1;
      if HasLinks(con) {
        ghost var k :| 0 <= k < |conns.elems| && conns.elems[k] == con;
        conns.NoRepeats();
        DistinctWithout(conns.elems, k);
        MinusAt(conns.elems, k);
        conns.Remove(con, k);
        con.next, con.prev := null, Cell.Nowhere;  // TAILQ_RESET
      } else {
        MinusAbsent(conns.elems, con);
      }
      assert conns.elems == Minus(old(conns.elems), con);
      assert forall i :: 0 <= i < |conns.elems| ==> conns.elems[i] in old(conns.elems);
      conns.InsertHead(con);
      con.val := con.val.(info := null);
      freeConns := freeConns + 1;
    }

    /** Shelve, with the invariant and the count of repeated recycling. */
    method ShelveStep(con: Connection)
      requires Core() && con in admin && con !in hist
      requires Tallied(if con in conns.elems then 0 else 1)
      requires HasLinks(con) <==> con in conns.elems
      modifies `nConns, `freeConns, `twice, con, conns, conns.elems
      ensures Sound() && Footprint() == old(Footprint())
      ensures con.val == old(con.val).(info := null)
      ensures twice == old(twice) + if con in old(conns.elems) then 1 else 0
      ensures conns.elems == [con] + Minus(old(conns.elems), con)
    {
      hide Core, Head.Valid, Distinct, Minus, Footprint;
      ReachConns();
      MinusCount(conns.elems, con);
      ghost var again := if con in conns.elems then 1 else 0;
      Shelve(con);
      twice := twice + again;
      ShelvedCore(con);
    }

    /** Since the old state, a connection without con_info has left the live
        ones, and nothing else has changed. */
    twostate predicate Unlisted(con: Connection)
      reads *
    {
      && con in old(hist) && con !in old(infoOf)
      && hist == old(hist) - {con} && infoOf == old(infoOf) && infoLedger == old(infoLedger) && owner == old(owner)
      && body == old(body) && admin == old(admin) && twice == old(twice) && nConns == old(nConns)
      && connInfo == old(connInfo) && freeConnInfo == old(freeConnInfo) && freeConns == old(freeConns)
      && unchanged(pool) && unchanged(old(pool.repr)) && unchanged(old(body)) && unchanged(old(admin))
    }

    twostate lemma UnlistedConnections(con: Connection)
      requires old(Sound()) && Unlisted(con)
      ensures Connections() && Tallied(1) && con in admin && con !in conns.elems && !HasLinks(con)
    {
      hide Infos, Streams, Owners, Accounted, Pool.Valid, Head.Spells, Apart;
    }

    twostate lemma UnlistedQueues(con: Connection)
      requires old(Sound()) && Unlisted(con)
      ensures Apart() && pool.Valid() && Owners() && Streams()
    {
      hide Connections, Accounted, Pool.Valid, Head.Valid, ByteQueue.Valid, Layout, Queue.Valid, Balanced;
    }

    twostate lemma UnlistedInfos(con: Connection)
      requires old(Sound()) && Unlisted(con)
      ensures Infos()
    {
      hide Connections, Streams, Owners, Accounted, Pool.Valid, Queue.Valid, Balanced, Apart;
    }

    twostate lemma UnlistedRest(con: Connection)
      requires old(Sound()) && Unlisted(con)
      ensures Accounted() && Footprint() == old(Footprint())
    {
      hide Infos, Streams, Owners, Pool.Valid, Head.Valid, Apart, Layout, InAll;
      NothingLaidOut(pool.offset);
      HoldingsWithout(pool.offset, old(hist), con);
    }

    /** A connection that never had a con_info leaves the live ones. */
    ghost method ListedOut(con: Connection)
      requires Sound() && con in hist && con !in infoOf
      modifies `hist
      ensures Core() && Tallied(1) && Footprint() == old(Footprint()) && hist == old(hist) - {con}
      ensures con in admin && con !in conns.elems && !HasLinks(con)
    {
      hide Apart, Connections, Infos, Streams, Owners, Accounted, Pool.Valid, Tallied;
      ReachConns();
      hist := hist - {con};
      UnlistedConnections(con);
      UnlistedQueues(con);
      UnlistedInfos(con);
      UnlistedRest(con);
    }

    /** context_conn_recyle.  A cached connection may be recycled again: the
        counters are then off by one more, and nothing else goes wrong. */
    method ContextConnRecycle(con: Connection)
      requires Valid() && (con in hist || con in conns.elems)
      modifies Footprint()
      ensures Valid() && Footprint() <= old(Footprint())
      ensures hist == old(hist) - {con} && infoOf == old(infoOf) - {con}
      ensures con.val == old(con.val).(info := null)
      ensures Turnover(|old(MbufsAt(con))|, 0)
      ensures |old(pool.freeq.elems)| <= |pool.freeq.elems|
      ensures pool.freeq.elems[|pool.freeq.elems| - |old(pool.freeq.elems)|..] == old(pool.freeq.elems)
      ensures var k := |old(MbufsAt(con))|;
              && pool.freeBuffers == |pool.freeq.elems|
              && pool.freeBuffers == (if old(pool.freeBuffers) + k < 11 then old(pool.freeBuffers) + k else 11)
              && pool.totalBuffers == old(pool.totalBuffers) - (old(pool.freeBuffers) + k - pool.freeBuffers)
      ensures Repaid(old(pool.ledger), old(MbufsAt(con)), pool.ledger, [])
      ensures freeInfoq.elems == old(freeInfoq.elems) + if con in old(infoOf) then [old(infoOf[con])] else []
      ensures twice == old(twice) + if con in old(hist) then 0 else 1
      ensures conns.elems == [con] + Minus(old(conns.elems), con)
    {
      hide Context.Sound, Core, Tallied, Settled, Head.Valid, Footprint, Turnover, Pool.Valid, Pool.Exact, MbufsAt,
        Repaid;
      CacheInReach();
      ReachPoolValid();
      pool.IsExact();
      Unequip(con);
      ShelveStep(con);
      ReachPoolValid();
      pool.IsExact();
      PoolRepaidAll(con);
      SettledWithout(con);
    }

    lemma NoChain(con: Connection)
      requires Sound()
      ensures con !in infoOf ==> Repaid(pool.ledger, MbufsAt(con), pool.ledger, [])
    {
      hide Repaid;
      ReachPoolValid();
      pool.NothingRepaid([]);
    }

    /** context_conn_recyle up to the counter of connections. */
    method Unequip(con: Connection)
      requires Sound() && (con in hist || con in conns.elems)
      modifies Footprint()
      ensures Core() && Tallied(if con in conns.elems then 0 else 1) && Footprint() <= old(Footprint())
      ensures hist == old(hist) - {con} && infoOf == old(infoOf) - {con}
      ensures con.val == old(con.val)
      ensures twice == old(twice) && conns.elems == old(conns.elems)
      ensures Repaid(old(pool.ledger), old(MbufsAt(con)), pool.ledger, [])
      ensures freeInfoq.elems == old(freeInfoq.elems) + if con in old(infoOf) then [old(infoOf[con])] else []
      ensures con in admin && (HasLinks(con) <==> con in conns.elems)
    {
      hide Core, Tallied, Head.Valid, MbufsAt, Repaid;
      ReachConns();
      LinksTell(con);
      ReachTag(con);
      NoChain(con);
      if con.val.info != null {
        ReachInfo(con);
        ReachFree();
        RecycleInfo(con);
      } else if con in hist {
        ListedOut(con);
      }
    }

    twostate lemma SettledWithout(con: Connection)
      requires old(Settled()) && hist == old(hist) - {con} && infoOf == old(infoOf) - {con}
      ensures Settled()
    {
    }

    lemma ReachTag(con: Connection)
      requires Core() && (con in hist || con in conns.elems)
      ensures con.val.info != null <==> con in infoOf
      ensures con in hist ==> con !in conns.elems
    {
    }

    // ----- the operations of corvus.h

    /** con_buf_write with its early `return` turned into leaving the loop, so
        that `data_size` is always raised. */
    method ConBufWrite(con: Connection, bytes: seq<byte>)
      requires Valid() && con in hist
      modifies Footprint()
      ensures Valid() && fresh(Footprint() - old(Footprint()))
      ensures hist == old(hist)[con := old(HistOf(con)).Put(bytes)]
      ensures con.val.dataSize == old(con.val.dataSize) + |bytes|
      ensures Turnover(MbufCount(pool.offset, old(HistOf(con))), MbufCount(pool.offset, HistOf(con)))
      ensures |pool.freeq.elems| <= |old(pool.freeq.elems)|
      ensures pool.freeq.elems == old(pool.freeq.elems)[|old(pool.freeq.elems)| - |pool.freeq.elems|..]
      ensures var cap, w, w' := pool.offset, |old(HistOf(con)).written|, |HistOf(con).written|;
              var k := (w' + cap - 1) / cap - (w + cap - 1) / cap;
              var j := if k < old(pool.freeBuffers) then k else old(pool.freeBuffers);
              && |MbufsAt(con)| == |old(MbufsAt(con))| + k && pool.totalBuffers == old(pool.totalBuffers) + k - j
              && pool.freeBuffers == |pool.freeq.elems| == old(pool.freeBuffers) - j
      ensures Lent(old(pool.ledger), old(MbufsAt(con)), pool.ledger, MbufsAt(con))
      ensures if bytes != [] && old(con.val.info) == null && old(freeInfoq.elems) != []
              then con.val.info == old(freeInfoq.elems[0]) && freeInfoq.elems == old(freeInfoq.elems)[1..]
              else freeInfoq.elems == old(freeInfoq.elems)
      ensures twice == old(twice) && conns.elems == old(conns.elems)
    {
      hide Context.Sound, Settled, Footprint, PoolIs, Turnover, MbufCount, MbufsAt, Lent, History.Put;
      PutNothing(hist[con], bytes);
      Counted(hist[con], bytes, 0);
      SettledAt(con);
      ReachSize(con);
      ReachPoolIs(con);
      LentNothing(pool.ledger, MbufsAt(con));
      if |bytes| != 0 {
        WriteAll(con, bytes);
      }
      ReachSize(con);
      ReachPoolIs(con);
      PoolDrawn(con);
      SettledStep(con);
    }

    /** The same for a nonempty argument. */
    method WriteAll(con: Connection, bytes: seq<byte>)
      requires Sound() && con in hist && bytes != []
      modifies Footprint()
      ensures Sound() && fresh(Footprint() - old(Footprint()))
      ensures hist == old(hist)[con := old(HistOf(con)).Put(bytes)]
      ensures infoOf.Keys == old(infoOf.Keys) + {con} && twice == old(twice) && conns.elems == old(conns.elems)
      ensures if old(con.val.info) == null && old(freeInfoq.elems) != []
              then infoOf[con] == old(freeInfoq.elems[0]) && freeInfoq.elems == old(freeInfoq.elems)[1..]
              else freeInfoq.elems == old(freeInfoq.elems)
      ensures Lent(old(pool.ledger), old(MbufsAt(con)), pool.ledger, MbufsAt(con))
    {
      hide Context.Sound, Lent, History.Put, Footprint;
      ReachConn(con);
      ghost var h := HistOf(con);
      Counted(h, bytes, 0);
      UpdatedAgain(hist, con, h.Put(bytes).(drift := h.drift + |bytes|), h.Put(bytes));
      var _ := AppendTo(con, bytes);
      ReachAgain(con);
      Resize(con, |bytes|, h.Put(bytes));
    }

    /** con_buf_write up to its last line, for a nonempty argument. */
    method AppendTo(con: Connection, bytes: seq<byte>) returns (early: bool)
      requires Sound() && con in hist && bytes != []
      modifies Footprint()
      ensures Sound() && fresh(Footprint() - old(Footprint()))
      ensures hist == old(hist[con := HistOf(con).Put(bytes).(drift := HistOf(con).drift + |bytes|)])
      ensures early <==> OnBoundary(pool.offset, |HistOf(con).written|)
      ensures con in infoOf && infoOf.Keys == old(infoOf.Keys) + {con}
      ensures twice == old(twice) && conns.elems == old(conns.elems)
      ensures if old(con.val.info) == null && old(freeInfoq.elems) != []
              then infoOf[con] == old(freeInfoq.elems[0]) && freeInfoq.elems == old(freeInfoq.elems)[1..]
              else freeInfoq.elems == old(freeInfoq.elems)
      ensures Lent(old(pool.ledger), old(MbufsAt(con)), pool.ledger, MbufsAt(con))
    {
      hide Context.Sound, Lent, History.Put;
      ReachConn(con);
      if con.val.info == null {
        GiveInfo(con);
      }
      early := Append(con, bytes);
    }

    /** con_buf_write as it stands: line 176 returns before line 188. */
    method ConBufWriteAsWritten(con: Connection, bytes: seq<byte>)
      requires Valid() && con in hist
      modifies Footprint()
      ensures Valid() && fresh(Footprint() - old(Footprint()))
      ensures hist == old(hist)[con := WrittenAsIs(pool.offset, old(HistOf(con)), bytes)]
      ensures con.val.dataSize == old(con.val.dataSize) +
              if bytes == [] || !OnBoundary(pool.offset, |old(HistOf(con)).written| + |bytes|) then |bytes| else 0
      ensures Turnover(MbufCount(pool.offset, old(HistOf(con))), MbufCount(pool.offset, HistOf(con)))
      ensures |pool.freeq.elems| <= |old(pool.freeq.elems)|
      ensures pool.freeq.elems == old(pool.freeq.elems)[|old(pool.freeq.elems)| - |pool.freeq.elems|..]
      ensures var cap, w, w' := pool.offset, |old(HistOf(con)).written|, |HistOf(con).written|;
              var k := (w' + cap - 1) / cap - (w + cap - 1) / cap;
              var j := if k < old(pool.freeBuffers) then k else old(pool.freeBuffers);
              && |MbufsAt(con)| == |old(MbufsAt(con))| + k && pool.totalBuffers == old(pool.totalBuffers) + k - j
              && pool.freeBuffers == |pool.freeq.elems| == old(pool.freeBuffers) - j
      ensures Lent(old(pool.ledger), old(MbufsAt(con)), pool.ledger, MbufsAt(con))
      ensures if bytes != [] && old(con.val.info) == null && old(freeInfoq.elems) != []
              then con.val.info == old(freeInfoq.elems[0]) && freeInfoq.elems == old(freeInfoq.elems)[1..]
              else freeInfoq.elems == old(freeInfoq.elems)
      ensures twice == old(twice) && conns.elems == old(conns.elems)
    {
      hide Context.Sound, Settled, Footprint, PoolIs, Turnover, MbufCount, MbufsAt, Lent, History.Put, WrittenAsIs,
        OnBoundary;
      SizeRaisedIff(pool.offset, hist[con], bytes);
      SettledAt(con);
      ReachSize(con);
      ReachPoolIs(con);
      LentNothing(pool.ledger, MbufsAt(con));
      if |bytes| != 0 {
        WriteSome(con, bytes);
      }
      ReachSize(con);
      ReachPoolIs(con);
      PoolDrawn(con);
      SettledStep(con);
    }

    /** The same for a nonempty argument. */
    method WriteSome(con: Connection, bytes: seq<byte>)
      requires Sound() && con in hist && bytes != []
      modifies Footprint()
      ensures Sound() && fresh(Footprint() - old(Footprint()))
      ensures hist == old(hist)[con := WrittenAsIs(pool.offset, old(HistOf(con)), bytes)]
      ensures infoOf.Keys == old(infoOf.Keys) + {con} && twice == old(twice) && conns.elems == old(conns.elems)
      ensures if old(con.val.info) == null && old(freeInfoq.elems) != []
              then infoOf[con] == old(freeInfoq.elems[0]) && freeInfoq.elems == old(freeInfoq.elems)[1..]
              else freeInfoq.elems == old(freeInfoq.elems)
      ensures Lent(old(pool.ledger), old(MbufsAt(con)), pool.ledger, MbufsAt(con))
    {
      hide Context.Sound, Lent, History.Put, OnBoundary, Footprint, History.Ok;
      ReachConn(con);
      ghost var h := HistOf(con);
      Counted(h, bytes, 0);
      UpdatedAgain(hist, con, h.Put(bytes).(drift := h.drift + |bytes|), h.Put(bytes));
      var early := AppendTo(con, bytes);
      if early {
        return;
      }
      ReachAgain(con);
      Resize(con, |bytes|, h.Put(bytes));
    }

    /** con_buf_read, asking each mbuf for what is still wanted, and returning 0
        where `info` is NULL, as con_buf_peek does.  A negative `data_size` would
        still become a negative length: `fault` says so. */
    method ConBufRead(con: Connection, dst: array<byte>, len: nat) returns (read: nat, fault: bool)
      requires Valid() && con in hist && dst !in Footprint()
      requires ReadCount(HistOf(con), len, SizeOf(HistOf(con))) <= dst.Length
      modifies Footprint(), dst
      ensures Valid() && fresh(Footprint() - old(Footprint()))
      ensures fault <==> old(con.val.dataSize) < 0 && old(HistOf(con)).Stream() != []
      ensures fault ==> hist == old(hist) && unchanged(dst)
      ensures read == ReadCount(old(HistOf(con)), len, old(con.val.dataSize))
      ensures hist == old(hist)[con := old(HistOf(con)).Take(read)] && con.val.dataSize == old(con.val.dataSize) - read
      ensures Delivered(old(dst[..]), dst[..], old(HistOf(con)).Stream()[..read])
      ensures old(HistOf(con)).taken + read <= |old(HistOf(con)).written| && read <= dst.Length
      ensures forall i :: 0 <= i < read ==> dst[i] == old(HistOf(con)).written[old(HistOf(con)).taken + i]
      ensures forall i :: read <= i < dst.Length ==> dst[i] == old(dst[i])
      ensures Turnover(MbufCount(pool.offset, old(HistOf(con))), MbufCount(pool.offset, HistOf(con)))
      ensures |old(pool.freeq.elems)| <= |pool.freeq.elems|
      ensures pool.freeq.elems[|pool.freeq.elems| - |old(pool.freeq.elems)|..] == old(pool.freeq.elems)
      ensures var k := HistOf(con).taken / pool.offset - old(HistOf(con)).taken / pool.offset;
              && |MbufsAt(con)| == |old(MbufsAt(con))| - k
              && pool.freeBuffers == |pool.freeq.elems|
              && pool.freeBuffers == (if old(pool.freeBuffers) + k < 11 then old(pool.freeBuffers) + k else 11)
              && pool.totalBuffers == old(pool.totalBuffers) - (old(pool.freeBuffers) + k - pool.freeBuffers)
      ensures Repaid(old(pool.ledger), old(MbufsAt(con)), pool.ledger, MbufsAt(con))
      ensures infoOf == old(infoOf) && freeInfoq.elems == old(freeInfoq.elems)
      ensures twice == old(twice) && conns.elems == old(conns.elems)
    {
      hide Context.Sound, Settled, Footprint, PoolIs, Turnover, MbufCount, MbufsAt, Repaid, Delivered,
        History.Stream, History.Take, ReadCount;
      ghost var h := HistOf(con);
      ReachConn(con);
      SettledAt(con);
      ReachPoolIs(con);
      if con.val.info == null {
        ReadNothing(h, len);
        DeliveredNothing(dst[..], h.Stream());
        ReachPoolValid();
        pool.NothingRepaid(MbufsAt(con));
        read, fault := 0, false;
      } else {
        read, fault := ReadAll(con, dst, len);
      }
      Counted(h, [], 0);
      Counted(h, [], read);
      ReadIs(h, old(dst[..]), dst[..], read);
      ReachSize(con);
      ReachPoolIs(con);
      PoolRepaid(con);
      PoolShrunk(con);
      SettledStep(con);
    }

    /** The same with a con_info at hand. */
    method ReadAll(con: Connection, dst: array<byte>, len: nat) returns (read: nat, fault: bool)
      requires Sound() && con in infoOf && con in hist && dst !in Footprint()
      requires ReadCount(HistOf(con), len, SizeOf(HistOf(con))) <= dst.Length
      modifies Footprint(), dst
      ensures Sound() && fresh(Footprint() - old(Footprint()))
      ensures fault <==> SizeOf(old(HistOf(con))) < 0 && old(HistOf(con)).Stream() != []
      ensures fault ==> read == 0 && unchanged(dst)
      ensures read == ReadCount(old(HistOf(con)), len, SizeOf(old(HistOf(con))))
      ensures hist == old(hist)[con := old(HistOf(con)).Take(read)]
      ensures Delivered(old(dst[..]), dst[..], old(HistOf(con)).Stream()[..read])
      ensures Repaid(old(pool.ledger), old(MbufsAt(con)), pool.ledger, MbufsAt(con))
      ensures infoOf == old(infoOf) && freeInfoq.elems == old(freeInfoq.elems)
      ensures twice == old(twice) && conns.elems == old(conns.elems)
    {
      hide Context.Sound, Footprint, Repaid, Delivered, History.Stream, History.Take, ReadCount;
      ReachConn(con);
      ghost var h := HistOf(con);
      read, fault := Extract(con, dst, len);
      Counted(h, [], read);
      UpdatedAgain(old(hist), con, h.Take(read).(drift := h.drift - read), h.Take(read));
      ReachAgain(con);
      Resize(con, 0 - read, h.Take(read));
    }

    /** con_buf_read as it stands.  It dereferences `info`, which is NULL exactly
        when nothing was ever written; `fault` stands for what happens then. */
    method ConBufReadAsWritten(con: Connection, dst: array<byte>, len: nat) returns (read: nat, fault: bool)
      requires Valid() && con in hist && dst !in Footprint()
      requires GreedyOf(pool.offset, HistOf(con), len, Min(len, SizeOf(HistOf(con)))) <= dst.Length
      modifies Footprint(), dst
      ensures Valid() && fresh(Footprint() - old(Footprint()))
      ensures fault <==> old(con.val.info) == null
      ensures fault <==> old(HistOf(con)).written == []
      ensures fault ==> unchanged(this) && unchanged(old(admin)) && unchanged(old(body)) && unchanged(old(pool.repr))
      ensures fault ==> unchanged(dst)
      ensures read == old(GreedyOf(pool.offset, HistOf(con), len, Min(len, con.val.dataSize)))
      ensures !fault ==> if old(ReadsExactly(pool.offset, HistOf(con), len, con.val.dataSize))
                         then read == Min(len, old(con.val.dataSize)) else read > Min(len, old(con.val.dataSize))
      ensures hist == old(hist)[con := old(HistOf(con)).Take(read)] && con.val.dataSize == old(con.val.dataSize) - read
      ensures Delivered(old(dst[..]), dst[..], old(HistOf(con)).Stream()[..read])
      ensures old(HistOf(con)).taken + read <= |old(HistOf(con)).written| && read <= dst.Length
      ensures forall i :: 0 <= i < read ==> dst[i] == old(HistOf(con)).written[old(HistOf(con)).taken + i]
      ensures forall i :: read <= i < dst.Length ==> dst[i] == old(dst[i])
      ensures Turnover(MbufCount(pool.offset, old(HistOf(con))), MbufCount(pool.offset, HistOf(con)))
      ensures |old(pool.freeq.elems)| <= |pool.freeq.elems|
      ensures pool.freeq.elems[|pool.freeq.elems| - |old(pool.freeq.elems)|..] == old(pool.freeq.elems)
      ensures var k := HistOf(con).taken / pool.offset - old(HistOf(con)).taken / pool.offset;
              && |MbufsAt(con)| == |old(MbufsAt(con))| - k
              && pool.freeBuffers == |pool.freeq.elems|
              && pool.freeBuffers == (if old(pool.freeBuffers) + k < 11 then old(pool.freeBuffers) + k else 11)
              && pool.totalBuffers == old(pool.totalBuffers) - (old(pool.freeBuffers) + k - pool.freeBuffers)
      ensures Repaid(old(pool.ledger), old(MbufsAt(con)), pool.ledger, MbufsAt(con))
      ensures infoOf == old(infoOf) && freeInfoq.elems == old(freeInfoq.elems)
      ensures twice == old(twice) && conns.elems == old(conns.elems)
    {
      hide Context.Sound, Settled, Footprint, PoolIs, Turnover, MbufCount, MbufsAt, Repaid, Delivered, GreedyOf,
        ReadsExactly, History.Stream, History.Take;
      ghost var h := HistOf(con);
      ReachConn(con);
      SettledAt(con);
      SizeWithin(h);
      ReachPoolIs(con);
      if con.val.info == null {
        ReadNothing(h, len);
        DeliveredNothing(dst[..], h.Stream());
        ReachPoolValid();
        pool.NothingRepaid(MbufsAt(con));
        read, fault := 0, true;
      } else {
        ReadAsWrittenIff(pool.offset, h, len, con.val.dataSize);
        fault := false;
        read := ReadSome(con, dst, len);
      }
      Counted(h, [], read);
      ReadIs(h, old(dst[..]), dst[..], read);
      ReachSize(con);
      ReachPoolIs(con);
      PoolRepaid(con);
      PoolShrunk(con);
      SettledStep(con);
    }

    /** The same with a con_info at hand. */
    method ReadSome(con: Connection, dst: array<byte>, len: nat) returns (read: nat)
      requires Sound() && con in infoOf && con in hist && dst !in Footprint()
      requires GreedyOf(pool.offset, HistOf(con), len, Min(len, SizeOf(HistOf(con)))) <= dst.Length
      modifies Footprint(), dst
      ensures Sound() && fresh(Footprint() - old(Footprint()))
      ensures read == old(GreedyOf(pool.offset, HistOf(con), len, Min(len, SizeOf(HistOf(con)))))
      ensures hist == old(hist)[con := old(HistOf(con)).Take(read)]
      ensures Delivered(old(dst[..]), dst[..], old(HistOf(con)).Stream()[..read])
      ensures Repaid(old(pool.ledger), old(MbufsAt(con)), pool.ledger, MbufsAt(con))
      ensures infoOf == old(infoOf) && freeInfoq.elems == old(freeInfoq.elems)
      ensures twice == old(twice) && conns.elems == old(conns.elems)
    {
      hide Context.Sound, Footprint, Repaid, Delivered, GreedyOf, History.Stream, History.Take;
      ReachConn(con);
      ghost var h := HistOf(con);
      read := ExtractAsWritten(con, dst, len);
      Counted(h, [], read);
      UpdatedAgain(old(hist), con, h.Take(read).(drift := h.drift - read), h.Take(read));
      ReachAgain(con);
      Resize(con, 0 - read, h.Take(read));
    }

    /** con_buf_peek */
    method ConBufPeek(con: Connection, dst: array<byte>, len: nat) returns (ret: nat)
      requires Valid() && con in hist
      requires dst !in Footprint() && Min(len, |HistOf(con).Stream()|) <= dst.Length
      modifies dst
      ensures Valid() && Footprint() == old(Footprint())
      ensures ret == Min(len, |HistOf(con).Stream()|)
      ensures Delivered(old(dst[..]), dst[..], HistOf(con).Stream()[..ret])
      ensures HistOf(con).taken + ret <= |HistOf(con).written| && ret <= dst.Length
      ensures forall i :: 0 <= i < ret ==> dst[i] == HistOf(con).written[HistOf(con).taken + i]
      ensures forall i :: ret <= i < dst.Length ==> dst[i] == old(dst[i])
    {
      hide Context.Sound, Delivered, History.Stream, ByteQueue.Valid, Pool.Valid;
      ReachConn(con);
      var info := con.val.info;
      if info == null {
        DeliveredNothing(dst[..], HistOf(con).Stream());
        ReadNothing(hist[con], len);
        ret := 0;
      } else {
        Reach(con);
        ret := info.val.Peek(dst, len, pool.offset, hist[con]);
      }
      ReadIs(HistOf(con), old(dst[..]), dst[..], ret);
    }

    /** What the invariant says about a live connection. */
    lemma ReachConn(con: Connection)
      requires Sound() && con in hist
      ensures this in Footprint() && admin + body + pool.repr <= Footprint()
      ensures hist[con].Ok() && (con.val.info != null <==> con in infoOf)
      ensures con.val.dataSize == SizeOf(hist[con])
      ensures con !in infoOf ==> hist[con] == NOTHING
      ensures con in admin && freeInfoq in admin && conns in admin && pool.offset > 0
      ensures this !in body && this !in admin && this !in pool.repr
    {
    }

    lemma ReachSize(con: Connection)
      requires Sound() && con in hist
      ensures con.val.dataSize == SizeOf(HistOf(con)) && con.val.info == InfoAt(con)
    {
    }

    lemma ReachAgain(con: Connection)
      requires Sound() && con in infoOf
      ensures this in Footprint() && con in Footprint() && con in hist
    {
    }

    /** context_connection_new as it stands: with a cached connection at hand it
        passes a NULL pointer to TAILQ_REMOVE, which dereferences it.  A null
        result stands for that fault. */
    method ContextConnectionNewAsWritten() returns (con: Entry?<ConnFields>)
      requires Valid()
      modifies `hist, `admin, `nConns, `freeConns, conns, conns.elems
      ensures con == null <==> old(conns.elems) != []
      ensures Valid() && fresh(Footprint() - old(Footprint())) && twice == old(twice)
      ensures con == null ==> hist == old(hist)
      ensures con != null ==> con !in old(hist) && hist == old(hist)[con := NOTHING]
    {
      hide Core;
      ReachConns();
      con := null;
      if conns.First() != null {
        return;
      }
      con := ContextConnectionNew();
    }

    /** context_free_content: 1 while connections are in use, else 0 with the
        free mbufs and con_infos released. */
    method ContextFreeContent() returns (code: int)
      requires Valid()
      modifies Footprint()
      ensures code == if old(nConns) != 0 then 1 else 0
      ensures code == 1 ==> Valid() && hist == old(hist) && pool.ledger == old(pool.ledger) && infoLedger == old(infoLedger)
      ensures code == 0 ==> pool.freeq.elems == [] && freeInfoq.elems == []
      ensures pool.ledger.ever == old(pool.ledger.ever) && infoLedger.ever == old(infoLedger.ever)
      ensures code == 0 && old(hist) == map[] ==>
                pool.ledger.freed == multiset(pool.ledger.ever) && infoLedger.freed == multiset(infoLedger.ever)
      ensures code == 0 ==>
                && pool.ledger.freed == old(pool.ledger.freed) + multiset(old(pool.freeq.elems))
                && infoLedger.freed == old(infoLedger.freed) + multiset(old(freeInfoq.elems))
                && pool.freeBuffers == 0 && pool.buffers == old(pool.buffers)
                && pool.totalBuffers == old(pool.totalBuffers)
      ensures nConns == old(nConns) && freeConns == old(freeConns) && connInfo == old(connInfo)
      ensures freeConnInfo == old(freeConnInfo)
    {
      hide Balanced, Drained, Head.Valid, Queue.Valid, Pool.Valid, Core;
      if nConns != 0 {
        return 1;
      }
      ReachFree();
      ReachPool();
      pool.Destroy();
      DrainInfos();
      if old(hist) == map[] {
        AllReleased(pool.ledger);
        AllReleased(infoLedger);
      }
      return 0;
    }

    /** The loop that frees the con_infos (base/corvus.c:46-51). */
    method DrainInfos()
      requires Balanced(infoLedger) && freeInfoq.Valid() && freeInfoq.elems == infoLedger.free
      modifies `infoLedger, freeInfoq
      ensures freeInfoq.elems == [] && infoLedger.free == [] && Balanced(infoLedger)
      ensures infoLedger.ever == old(infoLedger.ever) && infoLedger.inUse == old(infoLedger.inUse)
      ensures infoLedger.freed == old(infoLedger.freed) + multiset(old(freeInfoq.elems))
    {
      hide Balanced, Drained, Queue.Valid;
      while freeInfoq.First() != null
        invariant Balanced(infoLedger) && freeInfoq.Valid() && freeInfoq.elems == infoLedger.free
        invariant infoLedger.ever == old(infoLedger.ever) && infoLedger.inUse == old(infoLedger.inUse)
        decreases |freeInfoq.elems|
      {
        freeInfoq.RemoveHead();
        infoLedger := Drained(infoLedger);
      }
      AllDrained(old(infoLedger), infoLedger);
    }

    /** What the invariant says about the pool. */
    lemma ReachPool()
      requires Sound()
      ensures pool.Valid() && pool in pool.repr && freeInfoq !in pool.repr && this !in pool.repr && this !in admin
      ensures pool.freeq in pool.repr && forall m :: m in pool.freeq.elems ==> m in pool.repr
      ensures forall i :: i in freeInfoq.elems ==> i in admin && i !in pool.repr
      ensures nConns == |hist| - twice
      ensures hist == map[] ==> pool.ledger.inUse == {} && infoLedger.inUse == {}
    {
      hide Head.Spells, Balanced, Distinct, Owners, Streams;
      if hist == map[] {
        assert Holdings(pool.offset, hist) == map[];
        assert infoOf.Keys <= hist.Keys;
      }
    }

    /** What the counters of the pool and the length of a chain are. */
    ghost predicate PoolIs(con: Connection)
      reads `hist, `infoOf, pool, pool.freeq, if con in infoOf then {infoOf[con].val.data} else {}
    {
      pool.offset > 0 && con in hist && pool.Exact() && |MbufsAt(con)| == MbufCount(pool.offset, hist[con])
    }

    lemma ReachPoolIs(con: Connection)
      requires Sound() && con in hist
      ensures PoolIs(con)
    {
      hide Infos, Owners, Accounted, Apart, Head.Spells, Balanced, Queue.Valid, Layout, ByteQueue.Valid;
      ClosedForm(pool.offset, hist[con]);
      NothingLaidOut(pool.offset);
    }

    /** The chain of a connection, live or cached, is as long as its history says. */
    lemma ChainOf(con: Connection)
      requires Sound()
      ensures |MbufsAt(con)| == if con in hist then MbufCount(pool.offset, hist[con]) else 0
      ensures pool.freeBuffers == |pool.freeq.elems| <= 11
    {
      hide Context.Sound, MbufCount;
      ReachPoolValid();
      pool.IsExact();
      if con in hist {
        ReachPoolIs(con);
      } else {
        NoInfo(con);
      }
    }

    lemma NoInfo(con: Connection)
      requires Sound() && con !in hist
      ensures con !in infoOf
    {
    }

    /** Since the old state, one chain has gone from `before` to `after` mbufs. */
    twostate predicate Turnover(before: int, after: int)
      reads pool
    {
      && pool.freeBuffers == FreeAfter(old(pool.freeBuffers), before, after)
      && pool.totalBuffers - pool.freeBuffers == old(pool.totalBuffers) - old(pool.freeBuffers) + after - before
    }

    /** What mbufs drawn for `con` do to the pool. */
    twostate lemma PoolDrawn(con: Connection)
      requires old(PoolIs(con)) && PoolIs(con) && HistOf(con).taken == old(HistOf(con)).taken
      requires Lent(old(pool.ledger), old(MbufsAt(con)), pool.ledger, MbufsAt(con))
      ensures Turnover(MbufCount(pool.offset, old(HistOf(con))), MbufCount(pool.offset, HistOf(con)))
      ensures |pool.freeq.elems| <= |old(pool.freeq.elems)|
      ensures pool.freeq.elems == old(pool.freeq.elems)[|old(pool.freeq.elems)| - |pool.freeq.elems|..]
      ensures var cap, w, w' := pool.offset, |old(HistOf(con)).written|, |HistOf(con).written|;
              var k := (w' + cap - 1) / cap - (w + cap - 1) / cap;
              var j := if k < old(pool.freeBuffers) then k else old(pool.freeBuffers);
              && |MbufsAt(con)| == |old(MbufsAt(con))| + k && pool.totalBuffers == old(pool.totalBuffers) + k - j
              && pool.freeBuffers == |pool.freeq.elems| == old(pool.freeBuffers) - j
    {
      hide MbufCount, MbufsAt, Lent;
      CountsDiffer(pool.offset, old(HistOf(con)), HistOf(con));
      LentMeans(old(pool.ledger), old(MbufsAt(con)), pool.ledger, MbufsAt(con));
    }

    /** What mbufs that `con` gives back do to the pool. */
    twostate lemma PoolRepaid(con: Connection)
      requires old(PoolIs(con)) && PoolIs(con) && HistOf(con).written == old(HistOf(con)).written
      requires Repaid(old(pool.ledger), old(MbufsAt(con)), pool.ledger, MbufsAt(con))
      ensures |old(pool.freeq.elems)| <= |pool.freeq.elems|
      ensures pool.freeq.elems[|pool.freeq.elems| - |old(pool.freeq.elems)|..] == old(pool.freeq.elems)
      ensures var k := HistOf(con).taken / pool.offset - old(HistOf(con)).taken / pool.offset;
              && |MbufsAt(con)| == |old(MbufsAt(con))| - k
              && pool.freeBuffers == |pool.freeq.elems|
              && pool.freeBuffers == (if old(pool.freeBuffers) + k < 11 then old(pool.freeBuffers) + k else 11)
              && pool.totalBuffers == old(pool.totalBuffers) - (old(pool.freeBuffers) + k - pool.freeBuffers)
    {
      hide MbufCount, MbufsAt, Repaid, Turnover;
      CountsDiffer(pool.offset, old(HistOf(con)), HistOf(con));
      RepaidMeans(old(pool.ledger), old(MbufsAt(con)), pool.ledger, MbufsAt(con));
    }

    twostate lemma PoolShrunk(con: Connection)
      requires old(PoolIs(con)) && PoolIs(con)
      requires Repaid(old(pool.ledger), old(MbufsAt(con)), pool.ledger, MbufsAt(con))
      ensures Turnover(MbufCount(pool.offset, old(HistOf(con))), MbufCount(pool.offset, HistOf(con)))
    {
      hide MbufCount, MbufsAt, Repaid;
      RepaidMeans(old(pool.ledger), old(MbufsAt(con)), pool.ledger, MbufsAt(con));
    }

    /** What a recycled connection does to the pool. */
    twostate lemma PoolRepaidAll(con: Connection)
      requires old(pool.Exact()) && pool.Exact()
      requires Repaid(old(pool.ledger), old(MbufsAt(con)), pool.ledger, [])
      ensures Turnover(|old(MbufsAt(con))|, 0)
      ensures |old(pool.freeq.elems)| <= |pool.freeq.elems|
      ensures pool.freeq.elems[|pool.freeq.elems| - |old(pool.freeq.elems)|..] == old(pool.freeq.elems)
      ensures var k := |old(MbufsAt(con))|;
              && pool.freeBuffers == |pool.freeq.elems|
              && pool.freeBuffers == (if old(pool.freeBuffers) + k < 11 then old(pool.freeBuffers) + k else 11)
              && pool.totalBuffers == old(pool.totalBuffers) - (old(pool.freeBuffers) + k - pool.freeBuffers)
    {
      hide MbufsAt, Repaid;
      RepaidMeans(old(pool.ledger), old(MbufsAt(con)), pool.ledger, []);
    }

    lemma ReachPoolValid()
      requires Sound()
      ensures pool.Valid()
    {
    }

    /** What the invariant says about the con_info of a connection. */
    lemma ReachInfo(con: Connection)
      requires Sound() && con in infoOf
      ensures infoOf[con] in infoLedger.inUse && infoOf[con] in infoLedger.ever && infoOf[con] in admin
      ensures infoOf[con] !in freeInfoq.elems
      ensures forall i :: i in freeInfoq.elems ==> i in infoLedger.ever && i in admin
    {
      hide Apart, Connections, Streams, Owners, Accounted, Pool.Valid, Balanced;
      FreeAllocated(infoLedger);
    }

    /** What the invariant says about the con_info free list. */
    lemma ReachFree()
      requires Sound()
      ensures Balanced(infoLedger) && freeInfoq.elems == infoLedger.free && freeInfoq.Valid()
      ensures freeInfoq in admin && freeInfoq !in body && freeInfoq !in pool.repr
      ensures freeInfoq.elems != [] ==> freeInfoq.elems[0].val in body && freeInfoq.elems[0].val.data in body
    {
      hide Connections, Streams, Owners, Accounted, Pool.Valid, Queue.Valid;
      if freeInfoq.elems != [] {
        HeadAllocated(infoLedger);
      }
    }

    lemma ReachCon(con: Connection)
      requires Sound() && con in hist
      ensures con in admin && con.val == ConnFields(SizeOf(hist[con]), InfoAt(con)) && con !in body && con !in pool.repr
      ensures conns in admin && freeInfoq in admin
      ensures this !in admin && pool in pool.repr
      ensures admin !! body && admin !! pool.repr && body !! pool.repr && this !in body && this !in pool.repr
    {
    }
  }
}
