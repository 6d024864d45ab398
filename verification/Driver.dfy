/** Executing a run on a context: whatever the context already holds, live
    connections and free lists included, the answers are those of the run. */
module Driver {
  import opened Sequences
  import opened Segments
  import opened AsWritten
  import opened TailQueue
  import opened Mbufs
  import opened Corvus
  import opened Accounting
  import opened Runs

  /** The handles name the live connections of the run, each a different one,
      and none of them belongs to the others. */
  ghost predicate Matches(hist: map<Connection, History>, handles: seq<Connection>, slots: seq<Slot>,
                          others: map<Connection, History>)
  {
    && |handles| == |slots|
    && (forall i {:trigger slots[i]} {:trigger handles[i]} :: 0 <= i < |slots| && slots[i].Live? ==>
          handles[i] in hist && hist[handles[i]] == slots[i].h && handles[i] !in others)
    && (forall i, j {:trigger handles[i], handles[j]} :: 0 <= i < j < |slots| && slots[i].Live? && slots[j].Live? ==>
          handles[i] != handles[j])
    && (forall c {:trigger c in others} :: c in others ==> c in hist && hist[c] == others[c])
  }

  /** How many connections of a run are live. */
  ghost function LiveCount(slots: seq<Slot>): nat {
    if slots == [] then 0
    else LiveCount(slots[..|slots| - 1]) + if slots[|slots| - 1].Live? then 1 else 0
  }

  lemma LiveCountNew(slots: seq<Slot>, slot: Slot)
    ensures LiveCount(slots + [slot]) == LiveCount(slots) + if slot.Live? then 1 else 0
  {
    assert (slots + [slot])[..|slots|] == slots;
  }

  lemma {:induction false} LiveCountAt(slots: seq<Slot>, id: nat, slot: Slot)
    requires id < |slots| && slots[id].Live?
    ensures LiveCount(slots[id := slot]) == LiveCount(slots) - if slot.Live? then 0 else 1
    decreases |slots|
  {
    var n := |slots| - 1;
    if id == n {
      assert slots[id := slot][..n] == slots[..n];
    } else {
      LiveCountAt(slots[..n], id, slot);
      assert slots[id := slot][..n] == slots[..n][id := slot];
    }
  }

  lemma MatchesNew(hist: map<Connection, History>, handles: seq<Connection>, slots: seq<Slot>,
                   others: map<Connection, History>, con: Connection)
    requires Matches(hist, handles, slots, others) && con !in hist
    ensures Matches(hist[con := NOTHING], handles + [con], slots + [Live(NOTHING)], others)
  {
  }

  lemma MatchesSame(hist: map<Connection, History>, handles: seq<Connection>, slots: seq<Slot>,
                    others: map<Connection, History>, id: nat, h: History)
    requires Matches(hist, handles, slots, others) && id < |slots| && slots[id].Live?
    ensures Matches(hist[handles[id] := h], handles, slots[id := Live(h)], others)
  {
  }

  lemma MatchesGone(hist: map<Connection, History>, handles: seq<Connection>, slots: seq<Slot>,
                    others: map<Connection, History>, id: nat)
    requires Matches(hist, handles, slots, others) && id < |slots| && slots[id].Live?
    ensures Matches(hist - {handles[id]}, handles, slots[id := Gone], others)
  {
  }

  /** What Delivered left in the destination, read back. */
  lemma CopiedOut(before: seq<byte>, after: seq<byte>, bytes: seq<byte>)
    requires Delivered(before, after, bytes)
    ensures |bytes| <= |after| && after[..|bytes|] == bytes
  {
  }

  // ----- the cache

  ghost predicate InRange(handles: seq<Connection>, cache: seq<nat>) {
    forall i {:trigger cache[i]} :: 0 <= i < |cache| ==> cache[i] < |handles|
  }

  ghost function Picked(handles: seq<Connection>, cache: seq<nat>): (p: seq<Connection>)
    requires InRange(handles, cache)
    ensures |p| == |cache|
    ensures forall i {:trigger p[i]} {:trigger cache[i]} :: 0 <= i < |cache| ==> p[i] == handles[cache[i]]
  {
    seq(|cache|, i requires 0 <= i < |cache| => handles[cache[i]])
  }

  /** The cache of the context holds the recycled connections of the run, the
      latest in front, and then what is left of the cache it started with. */
  ghost predicate Cached(elems: seq<Connection>, handles: seq<Connection>, cache: seq<nat>, rest: seq<Connection>) {
    InRange(handles, cache) && elems == Picked(handles, cache) + rest
  }

  ghost function RestAfter(cache: seq<nat>, rest: seq<Connection>, op: Op): seq<Connection> {
    if op.New? && cache == [] && rest != [] then rest[1..] else rest
  }

  /** What a run leaves of the cache that the context started with. */
  ghost function RestRun(cache: seq<nat>, rest: seq<Connection>, ops: seq<Op>): seq<Connection>
    decreases |ops|
  {
    if ops == [] then rest else RestRun(CacheAfter(cache, ops[0]), RestAfter(cache, rest, ops[0]), ops[1..])
  }

  lemma CachedNew(elems: seq<Connection>, handles: seq<Connection>, cache: seq<nat>, rest: seq<Connection>,
                  con: Connection)
    requires Cached(elems, handles, cache, rest)
    ensures var elems' := if elems == [] then [] else elems[1..];
            Cached(elems', handles + [con], CacheAfter(cache, New), RestAfter(cache, rest, New))
  {
    if cache == [] {
      assert Picked(handles + [con], []) == [] == Picked(handles, []);
    } else {
      assert Picked(handles + [con], cache[1..]) == Picked(handles, cache)[1..];
    }
  }

  lemma CachedGone(elems: seq<Connection>, handles: seq<Connection>, cache: seq<nat>, rest: seq<Connection>, id: nat)
    requires Cached(elems, handles, cache, rest) && id < |handles| && handles[id] !in elems
    ensures Cached([handles[id]] + Minus(elems, handles[id]), handles, [id] + cache, rest)
  {
    hide Minus;
    MinusAbsent(elems, handles[id]);
    assert Picked(handles, [id] + cache) == [handles[id]] + Picked(handles, cache);
  }

  lemma CachedAgain(elems: seq<Connection>, handles: seq<Connection>, cache: seq<nat>, rest: seq<Connection>, id: nat)
    requires Cached(elems, handles, cache, rest) && Distinct(elems) && id in cache
    ensures id < |handles| && handles[id] in elems
    ensures Cached([handles[id]] + Minus(elems, handles[id]), handles, [id] + Minus(cache, id), rest)
  {
    hide Minus;
    var k :| 0 <= k < |cache| && cache[k] == id;
    assert elems[k] == handles[id];
    forall i | 0 <= i < |cache| && cache[i] != id
      ensures handles[cache[i]] != handles[id]
    {
      assert elems[i] == handles[cache[i]];
    }
    PickedMinus(handles, cache, rest, id);
    assert Picked(handles, [id] + Minus(cache, id)) == [handles[id]] + Picked(handles, Minus(cache, id));
  }

  lemma {:induction false} PickedMinus(handles: seq<Connection>, cache: seq<nat>, rest: seq<Connection>, id: nat)
    requires InRange(handles, cache) && id in cache && id < |handles|
    requires forall i {:trigger cache[i]} :: 0 <= i < |cache| && cache[i] != id ==> handles[cache[i]] != handles[id]
    ensures InRange(handles, Minus(cache, id))
    ensures Minus(Picked(handles, cache) + rest, handles[id]) == Picked(handles, Minus(cache, id)) + rest
  {
    var all, tail := Picked(handles, cache) + rest, cache[1..];
    assert all[1..] == Picked(handles, tail) + rest && all[0] == handles[cache[0]];
    if cache[0] == id {
    } else {
      PickedMinus(handles, tail, rest, id);
      assert Minus(cache, id) == [cache[0]] + Minus(tail, id);
      assert Picked(handles, Minus(cache, id)) == [handles[cache[0]]] + Picked(handles, Minus(tail, id));
    }
  }

  // ----- calls

  /** Since the old state, the pool has seen one call of a run. */
  twostate predicate PoolAfter(ctx: Context, slots: seq<Slot>, op: Op)
    requires Legal(ctx.pool.offset, slots, op)
    reads ctx.pool
  {
    var cap := ctx.pool.offset;
    && ctx.pool.freeBuffers == FreeOnce(cap, slots, op, old(ctx.pool.freeBuffers))
    && ctx.pool.totalBuffers - ctx.pool.freeBuffers - Held(cap, After(cap, slots, op)) ==
       old(ctx.pool.totalBuffers) - old(ctx.pool.freeBuffers) - Held(cap, slots)
  }

  /** A new connection. */
  method CallNew(ctx: Context, handles: seq<Connection>, ghost slots: seq<Slot>, ghost others: map<Connection, History>,
                 ghost cache: seq<nat>, ghost rest: seq<Connection>) returns (handles': seq<Connection>)
    requires ctx.Valid() && Matches(ctx.hist, handles, slots, others) && Cached(ctx.conns.elems, handles, cache, rest)
    modifies ctx.Footprint()
    ensures ctx.Valid() && fresh(ctx.Footprint() - old(ctx.Footprint())) && ctx.twice == old(ctx.twice)
    ensures Matches(ctx.hist, handles', After(ctx.pool.offset, slots, New), others)
    ensures Cached(ctx.conns.elems, handles', CacheAfter(cache, New), RestAfter(cache, rest, New))
    ensures |ctx.hist| - LiveCount(After(ctx.pool.offset, slots, New)) == |old(ctx.hist)| - LiveCount(slots)
    ensures PoolAfter(ctx, slots, New)
  {
    hide Context.Sound, Context.Settled, Matches, Cached, LiveCount, Held, FreeOnce, After, Legal, CacheAfter,
      RestAfter;
    ctx.CacheInReach();
    ctx.ReachPoolValid();
    NewHoldsNothing(ctx.pool.offset, slots, ctx.pool.freeBuffers);
    LiveCountNew(slots, Live(NOTHING));
    var con := ctx.ContextConnectionNew();
    MatchesNew(old(ctx.hist), handles, slots, others, con);
    CachedNew(old(ctx.conns.elems), handles, cache, rest, con);
    handles' := handles + [con];
  }

  /** A write of either kind. */
  method CallWrite(ctx: Context, con: Connection, data: seq<byte>, asIs: bool)
    requires ctx.Valid() && con in ctx.hist
    modifies ctx.Footprint()
    ensures ctx.Valid() && fresh(ctx.Footprint() - old(ctx.Footprint()))
    ensures ctx.twice == old(ctx.twice) && ctx.conns.elems == old(ctx.conns.elems)
    ensures var h := old(ctx.HistOf(con));
            ctx.hist == old(ctx.hist)[con := if asIs then WrittenAsIs(ctx.pool.offset, h, data) else h.Put(data)]
    ensures ctx.Turnover(MbufCount(ctx.pool.offset, old(ctx.HistOf(con))), MbufCount(ctx.pool.offset, ctx.HistOf(con)))
    ensures con.val.dataSize == SizeOf(ctx.HistOf(con))
  {
    hide Context.Sound, Context.Settled, Context.Turnover, Context.MbufsAt, Lent, History.Put, WrittenAsIs,
      MbufCount;
    ghost var h := ctx.HistOf(con);
    ctx.ReachConn(con);
    PutNothing(h, data);
    SizeRaisedIff(ctx.pool.offset, h, data);
    if asIs {
      ctx.ConBufWriteAsWritten(con, data);
    } else {
      ctx.ConBufWrite(con, data);
    }
    ctx.ReachSize(con);
  }

  /** A read of either kind. */
  method CallRead(ctx: Context, con: Connection, op: Op) returns (answer: Answer)
    requires ctx.Valid() && con in ctx.hist && (op.Read? || op.ReadAsIs?)
    requires Legal(ctx.pool.offset, [Live(ctx.HistOf(con))], op.(id := 0))
    modifies ctx.Footprint()
    ensures ctx.Valid() && fresh(ctx.Footprint() - old(ctx.Footprint()))
    ensures ctx.twice == old(ctx.twice) && ctx.conns.elems == old(ctx.conns.elems)
    ensures ctx.hist == old(ctx.hist)[con := Next(ctx.pool.offset, old(ctx.HistOf(con)), op)]
    ensures ctx.Turnover(MbufCount(ctx.pool.offset, old(ctx.HistOf(con))), MbufCount(ctx.pool.offset, ctx.HistOf(con)))
    ensures answer == Reply(ctx.pool.offset, old(ctx.HistOf(con)), op)
  {
    hide Context.Sound, Context.Settled, Context.MbufsAt, Repaid, Delivered, History.Take, History.Stream,
      ReadCount, ReadsExactly, MbufCount;
    ghost var h := ctx.HistOf(con);
    ctx.ReachConn(con);
    ReadWithin(h, op.len);
    var dst := new byte[if op.Read? then op.len else op.room];
    ghost var was := dst[..];
    var n, fault;
    if op.Read? {
      n, fault := ctx.ConBufRead(con, dst, op.len);
    } else {
      n, fault := ctx.ConBufReadAsWritten(con, dst, op.len);
    }
    Counted(h, [], n);
    CopiedOut(was, dst[..], h.Stream()[..n]);
    answer := if fault then Fault else Got(dst[..n]);
  }

  lemma ReadWithin(h: History, len: nat)
    ensures ReadCount(h, len, SizeOf(h)) <= len
  {
  }

  /** A call on the live connection con that performs op. */
  method CallOn(ctx: Context, con: Connection, op: Op) returns (answer: Answer)
    requires ctx.Valid() && con in ctx.hist && !op.New? && !op.Recycle? && !op.RecycleAgain?
    requires Legal(ctx.pool.offset, [Live(ctx.HistOf(con))], op.(id := 0))
    modifies ctx.Footprint()
    ensures ctx.Valid() && fresh(ctx.Footprint() - old(ctx.Footprint()))
    ensures ctx.twice == old(ctx.twice) && ctx.conns.elems == old(ctx.conns.elems)
    ensures ctx.hist == old(ctx.hist)[con := Next(ctx.pool.offset, old(ctx.HistOf(con)), op)]
    ensures ctx.Turnover(MbufCount(ctx.pool.offset, old(ctx.HistOf(con))), MbufCount(ctx.pool.offset, ctx.HistOf(con)))
    ensures answer == Reply(ctx.pool.offset, old(ctx.HistOf(con)), op)
  {
    hide Context.Sound, Context.Settled, Delivered, History.Put, History.Take, WrittenAsIs, History.Stream,
      ReadCount, MbufCount;
    answer := Silent;
    ctx.ReachConn(con);
    ctx.ChainOf(con);
    ghost var stream := ctx.HistOf(con).Stream();
    match op {
      case Write(_, data) => CallWrite(ctx, con, data, false);
      case WriteAsIs(_, data) => CallWrite(ctx, con, data, true);
      case Read(_, _) => answer := CallRead(ctx, con, op);
      case ReadAsIs(_, _, _) => answer := CallRead(ctx, con, op);
      case Peek(_, len) =>
        var dst := new byte[len];
        ghost var was := dst[..];
        var n := ctx.ConBufPeek(con, dst, len);
        CopiedOut(was, dst[..], stream[..n]);
        answer := Got(dst[..n]);
    }
  }

  /** A recycle of either kind. */
  method CallDrop(ctx: Context, con: Connection)
    requires ctx.Valid() && (con in ctx.hist || con in ctx.conns.elems)
    modifies ctx.Footprint()
    ensures ctx.Valid() && ctx.Footprint() <= old(ctx.Footprint())
    ensures ctx.hist == old(ctx.hist) - {con}
    ensures ctx.twice == old(ctx.twice) + if con in old(ctx.hist) then 0 else 1
    ensures ctx.conns.elems == [con] + Minus(old(ctx.conns.elems), con)
    ensures ctx.Turnover(if con in old(ctx.hist) then MbufCount(ctx.pool.offset, old(ctx.HistOf(con))) else 0, 0)
  {
    hide Context.Sound, Context.Settled, Context.Turnover, Context.MbufsAt, Repaid, MbufCount, Minus;
    ctx.ChainOf(con);
    ctx.ContextConnRecycle(con);
  }

  lemma MatchesAt(hist: map<Connection, History>, handles: seq<Connection>, slots: seq<Slot>,
                  others: map<Connection, History>, id: nat)
    requires Matches(hist, handles, slots, others) && id < |slots| && slots[id].Live?
    ensures id < |handles| && handles[id] in hist && hist[handles[id]] == slots[id].h
  {
  }

  lemma MatchesLengths(hist: map<Connection, History>, handles: seq<Connection>, slots: seq<Slot>,
                       others: map<Connection, History>)
    requires Matches(hist, handles, slots, others)
    ensures |handles| == |slots|
    ensures forall c :: c in others ==> c in hist && hist[c] == others[c]
  {
  }

  /** One call of a run. */
  method Call(ctx: Context, handles: seq<Connection>, op: Op, ghost slots: seq<Slot>,
              ghost others: map<Connection, History>, ghost cache: seq<nat>, ghost rest: seq<Connection>)
    returns (handles': seq<Connection>, answer: Answer)
    requires ctx.Valid() && Matches(ctx.hist, handles, slots, others) && Cached(ctx.conns.elems, handles, cache, rest)
    requires Legal(ctx.pool.offset, slots, op) && (op.RecycleAgain? ==> op.id in cache)
    modifies ctx.Footprint()
    ensures ctx.Valid() && fresh(ctx.Footprint() - old(ctx.Footprint()))
    ensures Matches(ctx.hist, handles', After(ctx.pool.offset, slots, op), others)
    ensures Cached(ctx.conns.elems, handles', CacheAfter(cache, op), RestAfter(cache, rest, op))
    ensures |ctx.hist| - LiveCount(After(ctx.pool.offset, slots, op)) == |old(ctx.hist)| - LiveCount(slots)
    ensures ctx.twice == old(ctx.twice) + if op.RecycleAgain? then 1 else 0
    ensures PoolAfter(ctx, slots, op)
    ensures answer == Said(ctx.pool.offset, slots, op)
  {
    hide Context.Sound, Context.Settled, Context.Footprint, Matches, Cached, LiveCount, Held, Next, PoolAfter;
    handles', answer := handles, Silent;
    if op.New? {
      handles' := CallNew(ctx, handles, slots, others, cache, rest);
    } else if op.Recycle? || op.RecycleAgain? {
      if op.Recycle? {
        NextIgnoresName(ctx.pool.offset, slots[op.id].h, op);
      }
      CallRecycle(ctx, handles, op, slots, others, cache, rest);
    } else {
      answer := CallLive(ctx, handles, op, slots, others);
    }
  }

  /** A call on a live connection. */
  method CallLive(ctx: Context, handles: seq<Connection>, op: Op, ghost slots: seq<Slot>,
                  ghost others: map<Connection, History>) returns (answer: Answer)
    requires ctx.Valid() && Matches(ctx.hist, handles, slots, others)
    requires !op.New? && !op.Recycle? && !op.RecycleAgain? && Legal(ctx.pool.offset, slots, op)
    modifies ctx.Footprint()
    ensures ctx.Valid() && fresh(ctx.Footprint() - old(ctx.Footprint()))
    ensures Matches(ctx.hist, handles, After(ctx.pool.offset, slots, op), others)
    ensures ctx.conns.elems == old(ctx.conns.elems) && ctx.twice == old(ctx.twice)
    ensures |ctx.hist| - LiveCount(After(ctx.pool.offset, slots, op)) == |old(ctx.hist)| - LiveCount(slots)
    ensures PoolAfter(ctx, slots, op)
    ensures answer == Said(ctx.pool.offset, slots, op)
  {
    hide Context.Sound, Context.Settled, Context.Footprint, Matches, Next, Reply, LiveCount, Held, MbufCount;
    MatchesLengths(ctx.hist, handles, slots, others);
    MatchesAt(ctx.hist, handles, slots, others, op.id);
    NextIgnoresName(ctx.pool.offset, slots[op.id].h, op);
    ghost var h1 := Next(ctx.pool.offset, slots[op.id].h, op);
    MatchesSame(ctx.hist, handles, slots, others, op.id, h1);
    LiveCountAt(slots, op.id, Live(h1));
    HeldAt(ctx.pool.offset, slots, op.id, Live(h1));
    answer := CallOn(ctx, handles[op.id], op);
  }

  /** Either kind of recycling. */
  method CallRecycle(ctx: Context, handles: seq<Connection>, op: Op, ghost slots: seq<Slot>,
                     ghost others: map<Connection, History>, ghost cache: seq<nat>, ghost rest: seq<Connection>)
    requires ctx.Valid() && Matches(ctx.hist, handles, slots, others) && Cached(ctx.conns.elems, handles, cache, rest)
    requires op.Recycle? || op.RecycleAgain?
    requires Legal(ctx.pool.offset, slots, op) && (op.RecycleAgain? ==> op.id in cache)
    modifies ctx.Footprint()
    ensures ctx.Valid() && fresh(ctx.Footprint() - old(ctx.Footprint()))
    ensures Matches(ctx.hist, handles, After(ctx.pool.offset, slots, op), others)
    ensures Cached(ctx.conns.elems, handles, CacheAfter(cache, op), rest)
    ensures |ctx.hist| - LiveCount(After(ctx.pool.offset, slots, op)) == |old(ctx.hist)| - LiveCount(slots)
    ensures ctx.twice == old(ctx.twice) + if op.RecycleAgain? then 1 else 0
    ensures PoolAfter(ctx, slots, op)
  {
    hide Context.Sound, Context.Settled, Context.Footprint, Matches, Cached, LiveCount, Held, Minus, Distinct;
    MatchesLengths(ctx.hist, handles, slots, others);
    ctx.CacheInReach();
    var con := handles[op.id];
    if op.RecycleAgain? {
      ctx.CacheDistinct();
      CachedAgain(ctx.conns.elems, handles, cache, rest, op.id);
      assert ctx.hist - {con} == ctx.hist;
    } else {
      MatchesAt(ctx.hist, handles, slots, others, op.id);
      CachedGone(ctx.conns.elems, handles, cache, rest, op.id);
      MatchesGone(ctx.hist, handles, slots, others, op.id);
      LiveCountAt(slots, op.id, Gone);
      SizeWithout(ctx.hist, con);
    }
    HeldAt(ctx.pool.offset, slots, op.id, Gone);
    CallDrop(ctx, con);
  }

  lemma SizeWithout<K, V>(m: map<K, V>, k: K)
    requires k in m
    ensures |m - {k}| == |m| - 1
  {
    assert (m - {k})[k := m[k]] == m;
  }

  lemma NextIgnoresName(cap: nat, h: History, op: Op)
    requires !op.New?
    ensures op.Recycle? ==> Reply(cap, h, op) == Silent
    ensures Reply(cap, h, op.(id := 0)) == Reply(cap, h, op) && Next(cap, h, op.(id := 0)) == Next(cap, h, op)
  {
  }

  /** Every interleaving: the answers are those of the run, whatever the context
      holds at the start, and connections that the run does not use keep their
      histories.  The cache holds what the run recycled, and the connection
      counters are off by the number of calls that recycled a cached one. */
  method Execute(ctx: Context, ops: seq<Op>) returns (answers: seq<Answer>, handles: seq<Connection>)
    requires ctx.Valid() && LegalRun(ctx.pool.offset, [], ops) && CacheLegal([], ops)
    modifies ctx.Footprint()
    ensures ctx.Valid() && fresh(ctx.Footprint() - old(ctx.Footprint()))
    ensures answers == Run(ctx.pool.offset, [], ops).answers
    ensures forall c :: c in old(ctx.hist) ==> c in ctx.hist && ctx.hist[c] == old(ctx.hist[c])
    ensures Matches(ctx.hist, handles, Run(ctx.pool.offset, [], ops).slots, old(ctx.hist))
    ensures Cached(ctx.conns.elems, handles, CacheRun([], ops), RestRun([], old(ctx.conns.elems), ops))
    ensures |ctx.hist| == |old(ctx.hist)| + LiveCount(Run(ctx.pool.offset, [], ops).slots)
    ensures ctx.twice == old(ctx.twice) + Agains(ops)
    ensures ctx.pool.freeBuffers == FreeRun(ctx.pool.offset, [], ops, old(ctx.pool.freeBuffers))
    ensures ctx.pool.totalBuffers - ctx.pool.freeBuffers ==
            old(ctx.pool.totalBuffers) - old(ctx.pool.freeBuffers) +
            Held(ctx.pool.offset, Run(ctx.pool.offset, [], ops).slots)
  {
    hide Context.Sound, Context.Settled, Matches, Cached, After, Said, Legal, LiveCount, Held, FreeOnce,
      CacheAfter, RestAfter;
    ghost var cap, others, before := ctx.pool.offset, ctx.hist, ctx.conns.elems;
    ghost var slots: seq<Slot>, cache: seq<nat>, left := [], [], before;
    handles := [];
    answers := [];
    MatchesNothing(others);
    CachedNothing(before);
    LiveCountNothing();
    NoneHeld(cap);
    for i := 0 to |ops|
      invariant ctx.Valid() && fresh(ctx.Footprint() - old(ctx.Footprint()))
      invariant Matches(ctx.hist, handles, slots, others) && Cached(ctx.conns.elems, handles, cache, left)
      invariant LegalRun(cap, slots, ops[i..]) && CacheLegal(cache, ops[i..])
      invariant Run(cap, [], ops).answers == answers + Run(cap, slots, ops[i..]).answers
      invariant Run(cap, [], ops).slots == Run(cap, slots, ops[i..]).slots
      invariant CacheRun([], ops) == CacheRun(cache, ops[i..])
      invariant RestRun([], before, ops) == RestRun(cache, left, ops[i..])
      invariant |ctx.hist| == |others| + LiveCount(slots)
      invariant FreeRun(cap, [], ops, old(ctx.pool.freeBuffers)) == FreeRun(cap, slots, ops[i..], ctx.pool.freeBuffers)
      invariant ctx.pool.totalBuffers - ctx.pool.freeBuffers - Held(cap, slots) ==
                old(ctx.pool.totalBuffers) - old(ctx.pool.freeBuffers)
      invariant old(ctx.twice) + Agains(ops) == ctx.twice + Agains(ops[i..])
    {
      ghost var rest := ops[i..];
      RunTurn(cap, slots, rest);
      assert rest[0] == ops[i] && rest[1..] == ops[i + 1..];
      var answer;
      ghost var slots', cache' := After(cap, slots, ops[i]), CacheAfter(cache, ops[i]);
      ghost var left' := RestAfter(cache, left, ops[i]);
      handles, answer := Call(ctx, handles, ops[i], slots, others, cache, left);
      Appended(answers, answer, Run(cap, slots', ops[i + 1..]).answers);
      answers := answers + [answer];
      slots, cache, left := slots', cache', left';
    }
    RunNothing(cap, slots, ops[|ops|..]);
    MatchesLengths(ctx.hist, handles, slots, others);
  }

  lemma CachedNothing(elems: seq<Connection>)
    ensures Cached(elems, [], [], elems)
  {
    assert Picked([], []) + elems == elems;
  }

  lemma NoneHeld(cap: nat)
    ensures Held(cap, []) == 0
  {
  }

  lemma LiveCountNothing()
    ensures LiveCount([]) == 0
  {
  }

  lemma MatchesNothing(others: map<Connection, History>)
    ensures Matches(others, [], [], others)
  {
  }

  lemma Appended(a: seq<Answer>, x: Answer, b: seq<Answer>)
    ensures a + ([x] + b) == (a + [x]) + b
  {
  }

  lemma RunNothing(cap: nat, slots: seq<Slot>, ops: seq<Op>)
    requires ops == []
    ensures LegalRun(cap, slots, ops) && Run(cap, slots, ops) == Outcome(slots, [])
  {
  }

  lemma RunTurn(cap: nat, slots: seq<Slot>, ops: seq<Op>)
    requires ops != [] && LegalRun(cap, slots, ops)
    ensures Legal(cap, slots, ops[0]) && LegalRun(cap, After(cap, slots, ops[0]), ops[1..])
    ensures Run(cap, slots, ops).slots == Run(cap, After(cap, slots, ops[0]), ops[1..]).slots
    ensures Run(cap, slots, ops).answers ==
            [Said(cap, slots, ops[0])] + Run(cap, After(cap, slots, ops[0]), ops[1..]).answers
  {
  }

  /** The same run on two contexts that share nothing, whatever their buffer
      sizes, free lists and other connections: the answers are the same, and
      those of byte sequences. */
  method ExecuteBoth(ctx: Context, ctx': Context, ops: seq<Op>) returns (answers: seq<Answer>, answers': seq<Answer>)
    requires ctx.Valid() && ctx'.Valid() && ctx.Footprint() !! ctx'.Footprint()
    requires FifoLegalRun([], ops) && CacheLegal([], ops)
    modifies ctx.Footprint(), ctx'.Footprint()
    ensures ctx.Valid() && ctx'.Valid() && ctx.Footprint() !! ctx'.Footprint()
    ensures answers == answers' == FifoRun([], ops)
  {
    hide Context.Sound, Context.Settled, Context.Footprint, Matches, Cached, Run, LegalRun, FifoRun, FifoLegalRun,
      LiveCount;
    ctx.SelfContained();
    ctx'.SelfContained();
    SameAnswers(ctx.pool.offset, ctx'.pool.offset, ops);
    var handles, handles';
    answers, handles := Execute(ctx, ops);
    ctx'.Untouched();
    ctx.Beside(ctx');
    ctx.SelfContained();
    label Second:
    answers', handles' := Execute(ctx', ops);
    ctx.Untouched@Second();
    ctx'.Beside@Second(ctx);
  }

  /** After a run, the mbufs that a live connection has in memory hold what was
      written to it and not read, and are as many as the closed form says; the
      first is read up to R mod cap, and `data_size` lacks the writes as they
      stand that exactly filled an mbuf. */
  lemma InMemoryAfterRun(ctx: Context, handles: seq<Connection>, others: map<Connection, History>, ops: seq<Op>, id: nat)
    requires ctx.Valid() && LegalRun(ctx.pool.offset, [], ops)
    requires var slots := Run(ctx.pool.offset, [], ops).slots;
             Matches(ctx.hist, handles, slots, others) && id < |slots| && slots[id].Live?
    ensures var answers, mine := Run(ctx.pool.offset, [], ops).answers, Mine(ops, id);
            && |answers| == |ops| && |AnswersOf(ops, answers, id)| == |mine|
            && var w, r, cap := WrittenIn(mine), ReadOut(mine, AnswersOf(ops, answers, id)), ctx.pool.offset;
            && |r| <= |w| && r == w[..|r|]
            && id < |handles| && handles[id] in ctx.hist && cap > 0
            && handles[id].val.dataSize == |w| - |r| - ExactFills(cap, 0, mine)
            && (handles[id] in ctx.infoOf <==> w != [])
            && (handles[id] in ctx.infoOf ==>
                  && |MbufsOf(ctx, handles[id])| == (|w| + cap - 1) / cap - |r| / cap
                  && (forall m :: m in MbufsOf(ctx, handles[id]) ==> CursorsOk(m))
                  && UnreadBytes(MbufsOf(ctx, handles[id])) == w[|r|..]
                  && (MbufsOf(ctx, handles[id]) != [] ==> MbufsOf(ctx, handles[id])[0].val.pos == |r| % cap))
  {
    hide Context.Sound, Context.Settled, Run, LegalRun, Mine, AnswersOf, ReadOut, WrittenIn, Layout, UnreadBytes,
      Matches, MbufsOf, ExactFills;
    var slots := Run(ctx.pool.offset, [], ops).slots;
    MatchesAt(ctx.hist, handles, slots, others, id);
    var c := handles[id];
    ctx.ReachConn(c);
    ctx.SettledAt(c);
    RunClosedForm(ctx.pool.offset, ops, id);
    HoldingsInMemory(ctx, c);
    if c in ctx.infoOf {
      StreamInMemory(ctx, c);
      if MbufsOf(ctx, c) != [] {
        ShapeInMemory(ctx, c, 0);
      }
    }
  }

  // ----- split calls

  /** Data written in pieces. */
  method WriteInPieces(ctx: Context, con: Connection, chunks: seq<seq<byte>>)
    requires ctx.Valid() && con in ctx.hist
    modifies ctx.Footprint()
    ensures ctx.Valid() && fresh(ctx.Footprint() - old(ctx.Footprint()))
    ensures ctx.hist == old(ctx.hist)[con := old(ctx.HistOf(con)).Put(Join(chunks))]
    ensures con.val.dataSize == old(con.val.dataSize) + |Join(chunks)|
  {
    hide Context.Sound, Context.Settled, History.Put, Join;
    ghost var h, now := ctx.HistOf(con), ctx.HistOf(con);
    ctx.ReachConn(con);
    WritesMerge(ctx.pool.offset, h, chunks);
    Counted(h, Join(chunks), 0);
    for i := 0 to |chunks|
      invariant ctx.Valid() && fresh(ctx.Footprint() - old(ctx.Footprint()))
      invariant ctx.hist == old(ctx.hist)[con := now] && con in ctx.hist && ctx.HistOf(con) == now
      invariant PutEach(now, chunks[i..]) == PutEach(h, chunks)
    {
      ghost var rest := chunks[i..];
      assert rest[0] == chunks[i] && rest[1..] == chunks[i + 1..];
      CallWrite(ctx, con, chunks[i], false);
      UpdatedAgain(old(ctx.hist), con, now, now.Put(chunks[i]));
      now := now.Put(chunks[i]);
    }
    ctx.ReachSize(con);
  }

  /** As many bytes as `lens` add up to, read in pieces. */
  method ReadInPieces(ctx: Context, con: Connection, lens: seq<nat>) returns (bytes: seq<byte>)
    requires ctx.Valid() && con in ctx.hist && con.val.dataSize >= 0
    modifies ctx.Footprint()
    ensures ctx.Valid() && fresh(ctx.Footprint() - old(ctx.Footprint()))
    ensures |bytes| == Min(Total(lens), old(con.val.dataSize)) <= |old(ctx.HistOf(con)).Stream()|
    ensures bytes == old(ctx.HistOf(con)).Stream()[..|bytes|]
    ensures ctx.hist == old(ctx.hist)[con := old(ctx.HistOf(con)).Take(|bytes|)]
  {
    hide Context.Sound, Context.Settled, History.Take, History.Stream, ReadCount, SizeOf, Next, Reply;
    ghost var h, now := ctx.HistOf(con), ctx.HistOf(con);
    ctx.ReachConn(con);
    ctx.SettledAt(con);
    bytes := [];
    TakeNothing(h);
    SizeWithin(h);
    ReadsMerge(ctx.pool.offset, h, lens);
    ReadsWhatCounts(h, Total(lens));
    for i := 0 to |lens|
      invariant ctx.Valid() && fresh(ctx.Footprint() - old(ctx.Footprint()))
      invariant ctx.hist == old(ctx.hist)[con := now] && con in ctx.hist && ctx.HistOf(con) == now
      invariant |bytes| <= SizeOf(h) && bytes == h.Stream()[..|bytes|] && now == h.Take(|bytes|)
      invariant TakeEach(now, lens[i..]) == TakeEach(h, lens)
    {
      ghost var rest := lens[i..];
      assert rest[0] == lens[i] && rest[1..] == lens[i + 1..];
      ReadTurn(ctx.pool.offset, h, |bytes|, lens[i]);
      var answer := CallRead(ctx, con, Read(0, lens[i]));
      UpdatedAgain(old(ctx.hist), con, now, now.Take(|answer.bytes|));
      now := now.Take(|answer.bytes|);
      bytes := bytes + answer.bytes;
    }
    TakeFields(h, |bytes|);
    TakeFields(h, ReadCount(h, Total(lens), SizeOf(h)));
  }

  /** One more read after k bytes were read. */
  lemma ReadTurn(cap: nat, h: History, k: nat, len: nat)
    requires h.Ok() && h.drift >= 0 && k <= SizeOf(h)
    ensures var now := h.Take(k);
            var n := ReadCount(now, len, SizeOf(now));
            && k + n <= SizeOf(h) && now.Take(n) == h.Take(k + n) && |now.Stream()[..n]| == n
            && Next(cap, now, Read(0, len)) == now.Take(n) && Reply(cap, now, Read(0, len)) == Got(now.Stream()[..n])
            && h.Stream()[..k] + now.Stream()[..n] == h.Stream()[..k + n]
  {
    Counted(h, [], k);
    var n := ReadCount(h.Take(k), len, SizeOf(h.Take(k)));
    TakeMore(h, k, n);
  }

  /** While `data_size` is not negative, a read returns min(len, data_size). */
  lemma ReadsWhatCounts(h: History, len: nat)
    requires h.Ok() && h.drift >= 0 && SizeOf(h) >= 0
    ensures ReadCount(h, len, SizeOf(h)) == Min(len, SizeOf(h)) <= |h.Stream()|
  {
  }

  /** One write and the same data in pieces, on two contexts: the queues in
      memory are the same, mbuf by mbuf. */
  method WriteBothWays(ctx: Context, con: Connection, ctx': Context, con': Connection, data: seq<byte>,
                       chunks: seq<seq<byte>>)
    requires ctx.Valid() && con in ctx.hist && ctx'.Valid() && con' in ctx'.hist && ctx.Footprint() !! ctx'.Footprint()
    requires ctx.pool.offset == ctx'.pool.offset && data == Join(chunks)
    requires ctx.hist[con].written == ctx'.hist[con'].written && ctx.hist[con].taken == ctx'.hist[con'].taken
    modifies ctx.Footprint(), ctx'.Footprint()
    ensures ctx.Valid() && ctx'.Valid()
    ensures con in ctx.infoOf <==> con' in ctx'.infoOf
    ensures con in ctx.infoOf ==> |MbufsOf(ctx, con)| == |MbufsOf(ctx', con')|
    ensures con in ctx.infoOf ==>
            forall i {:trigger MbufsOf(ctx, con)[i]} :: 0 <= i < |MbufsOf(ctx, con)| ==>
              var m, m' := MbufsOf(ctx, con)[i], MbufsOf(ctx', con')[i];
              && CursorsOk(m) && CursorsOk(m') && Written(m) == Written(m')
              && m.val.pos == m'.val.pos && m.val.last == m'.val.last
  {
    hide Context.Sound, Context.Settled, Context.Footprint, Join, MbufsOf;
    ctx.SelfContained();
    ctx'.SelfContained();
    ctx.ConBufWrite(con, data);
    ctx'.Untouched();
    ctx.Beside(ctx');
    ctx.SelfContained();
    label Second:
    WriteInPieces(ctx', con', chunks);
    ctx.Untouched@Second();
    ctx'.Beside@Second(ctx);
    SameInMemory(ctx, con, ctx', con');
  }

  /** A whole session on a new context: the calls of the run, then teardown.  It
      is refused unless as many connections are live as cached ones were recycled
      again; with no connection live it has then released every mbuf and
      con_info ever allocated, each once. */
  method Session(bufferSize: nat, ops: seq<Op>) returns (ctx: Context, answers: seq<Answer>, code: int)
    requires bufferSize > 0 && LegalRun(bufferSize, [], ops) && CacheLegal([], ops)
    ensures answers == Run(bufferSize, [], ops).answers
    ensures code == if LiveCount(Run(bufferSize, [], ops).slots) == Agains(ops) then 0 else 1
    ensures code == 0 && Agains(ops) == 0 ==> ctx.pool.ledger.freed == multiset(ctx.pool.ledger.ever)
    ensures code == 0 && Agains(ops) == 0 ==> ctx.infoLedger.freed == multiset(ctx.infoLedger.ever)
    ensures code == 0 ==> ctx.pool.freeq.elems == [] && ctx.freeInfoq.elems == []
  {
    hide Context.Sound, Context.Settled, LiveCount, Matches, Cached;
    ctx := new Context(bufferSize);
    var handles;
    answers, handles := Execute(ctx, ops);
    ctx.ReachPool();
    code := ctx.ContextFreeContent();
  }

  /** Two connections, one of them recycled twice: teardown goes ahead although
      the other is live. */
  lemma EarlyTeardownExample(cap: nat)
    ensures var ops := [New, New, Recycle(0), RecycleAgain(0)];
            && LegalRun(cap, [], ops) && CacheLegal([], ops)
            && LiveCount(Run(cap, [], ops).slots) == 1 == Agains(ops)
  {
    hide Run, LegalRun, LiveCount;
    var live := Live(NOTHING);
    var ops := [New, New, Recycle(0), RecycleAgain(0)];
    assert After(cap, [], New) == [live] && After(cap, [live], New) == [live, live];
    assert After(cap, [live, live], Recycle(0)) == [Gone, live] == After(cap, [Gone, live], RecycleAgain(0));
    assert [Recycle(0)] + [RecycleAgain(0)] == [Recycle(0), RecycleAgain(0)];
    assert [New] + [Recycle(0), RecycleAgain(0)] == [New, Recycle(0), RecycleAgain(0)];
    assert [RecycleAgain(0)] + [] == [RecycleAgain(0)] && [New] + [New, Recycle(0), RecycleAgain(0)] == ops;
    RunNothing(cap, [Gone, live], []);
    RunFrom(cap, [Gone, live], RecycleAgain(0), []);
    RunFrom(cap, [live, live], Recycle(0), [RecycleAgain(0)]);
    RunFrom(cap, [live], New, [Recycle(0), RecycleAgain(0)]);
    RunFrom(cap, [], New, [New, Recycle(0), RecycleAgain(0)]);
    LiveCountNothing();
    LiveCountNew([], Gone);
    LiveCountNew([Gone], live);
    assert [Gone] + [live] == [Gone, live] && [] + [Gone] == [Gone];
    assert ops[1..][1..][1..][1..] == [];
  }

  lemma RunFrom(cap: nat, slots: seq<Slot>, op: Op, ops: seq<Op>)
    requires Legal(cap, slots, op) && LegalRun(cap, After(cap, slots, op), ops)
    ensures LegalRun(cap, slots, [op] + ops)
    ensures Run(cap, slots, [op] + ops).slots == Run(cap, After(cap, slots, op), ops).slots
  {
    assert ([op] + ops)[1..] == ops;
  }
}
