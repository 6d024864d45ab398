/** The length-prefix framing of client.cc and server.cc: a 4-byte big-endian
    payload length, then the payload, cut into chunks by the network. */
module Framing {
  import opened Sequences
  import opened Segments
  import opened Corvus

  const HEADER_SIZE := 4
  const WORD_LIMIT := 0x1_0000_0000

  /** The bytes of htonl(n) in memory. */
  function Header(n: nat): (b: seq<byte>)
    requires n < WORD_LIMIT
    ensures |b| == HEADER_SIZE
  {
    [(n / 0x100_0000) as byte, (n / 0x1_0000 % 0x100) as byte, (n / 0x100 % 0x100) as byte, (n % 0x100) as byte]
  }

  /** ntohl of a word whose bytes in memory are b. */
  function Word(b: seq<byte>): (n: nat)
    requires |b| == HEADER_SIZE
    ensures n < WORD_LIMIT
  {
    b[0] as nat * 0x100_0000 + b[1] as nat * 0x1_0000 + b[2] as nat * 0x100 + b[3] as nat
  }

  lemma WordOfHeader(n: nat)
    requires n < WORD_LIMIT
    ensures Word(Header(n)) == n
  {
    assert n / 0x1_0000 == n / 0x100_0000 * 0x100 + n / 0x1_0000 % 0x100;
    assert n / 0x100 == n / 0x1_0000 * 0x100 + n / 0x100 % 0x100;
  }

  ghost function Frame(payload: seq<byte>): seq<byte>
    requires |payload| < WORD_LIMIT
  {
    Header(|payload|) + payload
  }

  /** What OnNewData compares `data_size` with: `payload_len` starts as zero, is
      filled by the peek, and the sum is kept in 32 bits. */
  ghost function Available(h: History): nat {
    (Word(Overwrite([0, 0, 0, 0], 0, h.Stream()[..Min(HEADER_SIZE, |h.Stream()|)])) + HEADER_SIZE) % WORD_LIMIT
  }

  /** The notification that a connection in state h gives rise to. */
  ghost function Announced(h: History): seq<nat> {
    if SizeOf(h) > HEADER_SIZE && SizeOf(h) >= Available(h) then [Available(h)] else []
  }

  /** The history after a chunk, with the write as intended or as it stands. */
  ghost function Fed(cap: nat, asIs: bool, h: History, chunk: seq<byte>): History {
    if asIs then WrittenAsIs(cap, h, chunk) else h.Put(chunk)
  }

  /** The notifications on each of a sequence of chunks. */
  ghost function Notes(cap: nat, asIs: bool, h: History, chunks: seq<seq<byte>>): seq<seq<nat>>
    decreases |chunks|
  {
    if chunks == [] then []
    else
      var h1 := Fed(cap, asIs, h, chunks[0]);
      [Announced(h1)] + Notes(cap, asIs, h1, chunks[1..])
  }

  ghost function FedAll(cap: nat, asIs: bool, h: History, chunks: seq<seq<byte>>): History
    decreases |chunks|
  {
    if chunks == [] then h else FedAll(cap, asIs, Fed(cap, asIs, h, chunks[0]), chunks[1..])
  }

  /** The intended writes of the chunks are one write of them all. */
  lemma {:induction false} FedAllIs(cap: nat, h: History, chunks: seq<seq<byte>>)
    ensures FedAll(cap, false, h, chunks) == h.Put(Join(chunks))
    decreases |chunks|
  {
    if chunks == [] {
      PutNothing(h, []);
    } else {
      FedAllIs(cap, h.Put(chunks[0]), chunks[1..]);
      assert h.written + chunks[0] + Join(chunks[1..]) == h.written + (chunks[0] + Join(chunks[1..]));
    }
  }

  /** No chunk ends where an mbuf ends, when n bytes came before. */
  ghost predicate OffBoundary(cap: nat, n: nat, chunks: seq<seq<byte>>)
    decreases |chunks|
  {
    chunks == [] ||
    (!OnBoundary(cap, n + |chunks[0]|) && OffBoundary(cap, n + |chunks[0]|, chunks[1..]))
  }

  lemma {:induction false} OffBoundaryIff(cap: nat, n: nat, chunks: seq<seq<byte>>)
    ensures OffBoundary(cap, n, chunks) <==>
            forall k :: 0 < k <= |chunks| ==> !OnBoundary(cap, n + |Join(chunks[..k])|)
    decreases |chunks|
  {
    if chunks == [] {
    } else {
      var m, rest := n + |chunks[0]|, chunks[1..];
      OffBoundaryIff(cap, m, rest);
      forall k | 0 < k <= |chunks|
        ensures n + |Join(chunks[..k])| == m + |Join(rest[..k - 1])|
      {
        assert chunks[..k][1..] == rest[..k - 1];
      }
      assert Join(rest[..0]) == [];
      if OffBoundary(cap, n, chunks) {
        forall k | 0 < k <= |chunks|
          ensures !OnBoundary(cap, n + |Join(chunks[..k])|)
        {
          if k > 1 {
            assert !OnBoundary(cap, m + |Join(rest[..k - 1])|);
          }
        }
      } else if OnBoundary(cap, m) {
        assert OnBoundary(cap, n + |Join(chunks[..1])|);
      } else {
        var k :| 0 < k <= |rest| && OnBoundary(cap, m + |Join(rest[..k])|);
        assert OnBoundary(cap, n + |Join(chunks[..k + 1])|);
      }
    }
  }

  /** The notification, byte by byte: the first four bytes of the stream are
      the length n, most significant byte first, and n + 4 in 32 bits is
      announced when more than four bytes and at least that many are counted. */
  lemma AnnouncedIs(n: nat, h: History)
    requires h.Ok() && h.drift >= 0
    requires |h.Stream()| >= 4 ==>
             var s := h.Stream();
             s[0] as int * 0x1000000 + s[1] as int * 0x10000 + s[2] as int * 0x100 + s[3] as int == n
    ensures var a := (n + 4) % 0x1_0000_0000;
            Announced(h) == if SizeOf(h) > 4 && SizeOf(h) >= a then [a] else []
  {
    if |h.Stream()| >= 4 {
      var b := h.Stream()[..4];
      assert Overwrite([0, 0, 0, 0], 0, b) == b;
    }
  }

  lemma FrameBytes(payload: seq<byte>)
    requires |payload| < WORD_LIMIT
    ensures var f := Frame(payload);
            && |f| == |payload| + 4 && f[4..] == payload
            && f[0] as int * 0x1000000 + f[1] as int * 0x10000 + f[2] as int * 0x100 + f[3] as int == |payload|
  {
    WordOfHeader(|payload|);
  }

  /** A first part of a frame with n bytes of payload, of which `drift` bytes are
      missing from `data_size`, is announced only if it is the whole of a
      nonempty frame. */
  lemma PartAnnounced(n: nat, h: History)
    requires n + 4 < 0x8000_0000
    requires h.Ok() && h.drift >= 0 && |h.Stream()| <= n + 4
    requires |h.Stream()| >= 4 ==>
             var s := h.Stream();
             s[0] as int * 0x1000000 + s[1] as int * 0x10000 + s[2] as int * 0x100 + s[3] as int == n
    ensures Announced(h) == if n > 0 && h.drift == 0 && |h.Stream()| == n + 4 then [n + 4] else []
  {
    hide Announced;
    AnnouncedIs(n, h);
    assert (n + 4) % 0x1_0000_0000 == n + 4;
  }

  /** Delivering a frame in nonempty chunks: nothing is announced before its
      last byte; the chunk that completes it announces payload_len + 4 exactly
      when the payload is nonempty and, with the write as it stands, no chunk
      ends where an mbuf ends. */
  lemma {:induction false} FrameNotes(cap: nat, asIs: bool, payload: seq<byte>, h: History, chunks: seq<seq<byte>>)
    requires |payload| + HEADER_SIZE < 0x8000_0000
    requires chunks != [] && forall i :: 0 <= i < |chunks| ==> chunks[i] != []
    requires h.Ok() && h.drift >= 0 && h.Stream() + Join(chunks) == Frame(payload)
    ensures var notes, last := Notes(cap, asIs, h, chunks), |chunks| - 1;
            && |notes| == |chunks|
            && (forall i :: 0 <= i < last ==> notes[i] == [])
            && notes[last] ==
               if |payload| > 0 && h.drift == 0 && (asIs ==> OffBoundary(cap, |h.written|, chunks))
               then [|payload| + HEADER_SIZE] else []
    decreases |chunks|
  {
    hide Fed, Announced, Frame, WrittenAsIs, OnBoundary, History.Stream;
    var h1, rest := Fed(cap, asIs, h, chunks[0]), chunks[1..];
    FedPart(cap, asIs, h, chunks[0]);
    Onwards(h.Stream(), chunks[0], Join(rest));
    FrameBytes(payload);
    StartsAlike(h1.Stream(), Frame(payload));
    PartAnnounced(|payload|, h1);
    if rest == [] {
      assert Join(rest) == [];
    } else {
      assert rest[0] != [] && Join(rest) == rest[0] + Join(rest[1..]);
      FrameNotes(cap, asIs, payload, h1, rest);
    }
  }

  lemma StartsAlike(s: seq<byte>, f: seq<byte>)
    requires s <= f
    ensures |s| <= |f| && (|s| == |f| <==> s == f)
    ensures |s| >= 4 ==> s[0] == f[0] && s[1] == f[1] && s[2] == f[2] && s[3] == f[3]
  {
  }

  lemma FedPart(cap: nat, asIs: bool, h: History, chunk: seq<byte>)
    requires h.Ok() && h.drift >= 0 && chunk != []
    ensures var h1 := Fed(cap, asIs, h, chunk);
            && h1.Ok() && h1.drift >= 0 && h1.written == h.written + chunk && h1.Stream() == h.Stream() + chunk
            && (h1.drift == 0 <==> h.drift == 0 && (asIs ==> !OnBoundary(cap, |h.written| + |chunk|)))
  {
  }

  lemma Onwards(a: seq<byte>, b: seq<byte>, c: seq<byte>)
    ensures (a + b) + c == a + (b + c) && a + b <= a + (b + c)
  {
  }

  /** k chunks without notification. */
  ghost function Silence(k: nat): seq<seq<nat>> {
    seq(k, _ => [])
  }

  /** A nonempty frame delivered to an empty connection, with the intended
      write: one notification, of payload_len + 4, on the last chunk. */
  lemma FrameOnce(cap: nat, payload: seq<byte>, h: History, chunks: seq<seq<byte>>)
    requires 0 < |payload| && |payload| + HEADER_SIZE < 0x8000_0000
    requires h.Ok() && h.Stream() == [] && h.drift == 0
    requires Join(chunks) == Frame(payload) && forall i :: 0 <= i < |chunks| ==> chunks[i] != []
    ensures chunks != []
    ensures Notes(cap, false, h, chunks) == Silence(|chunks| - 1) + [[|payload| + HEADER_SIZE]]
  {
    assert h.Stream() + Join(chunks) == Frame(payload);
    FrameNotes(cap, false, payload, h, chunks);
  }

  /** An incomplete frame is announced early exactly when more than four of its
      bytes are counted and its length field is within 4 of the end of the
      32-bit range, where the sum wraps. */
  lemma EarlyIff(h: History)
    requires h.Ok() && h.drift >= 0
    requires |h.Stream()| < HEADER_SIZE || |h.Stream()| < Word(h.Stream()[..HEADER_SIZE]) + HEADER_SIZE
    ensures SizeOf(h) > HEADER_SIZE ==> |h.Stream()| > HEADER_SIZE
    ensures Announced(h) != [] <==>
            SizeOf(h) > HEADER_SIZE && Word(h.Stream()[..HEADER_SIZE]) >= WORD_LIMIT - HEADER_SIZE
  {
    if SizeOf(h) > HEADER_SIZE {
      var b := h.Stream()[..HEADER_SIZE];
      assert Overwrite([0, 0, 0, 0], 0, b) == b;
    }
  }

  /** The largest length field and one byte of payload: three bytes are
      announced. */
  lemma EarlyExample(cap: nat, b: byte)
    ensures Notes(cap, false, NOTHING, [[0xFF, 0xFF, 0xFF, 0xFF, b]]) == [[3]]
  {
    var chunk: seq<byte> := [0xFF, 0xFF, 0xFF, 0xFF, b];
    var h := NOTHING.Put(chunk);
    assert h.written == chunk && h.Stream() == chunk;
    assert Overwrite([0, 0, 0, 0], 0, chunk[..4]) == chunk[..4];
    NotesLast(cap, false, NOTHING, chunk);
  }

  /** The length field is read most significant byte first. */
  lemma BigEndianExample(cap: nat, b: byte)
    ensures Notes(cap, false, NOTHING, [[0, 0, 0, 1, b]]) == [[5]]
  {
    var chunk: seq<byte> := [0, 0, 0, 1, b];
    var h := NOTHING.Put(chunk);
    assert h.written == chunk && h.Stream() == chunk;
    AnnouncedIs(1, h);
    NotesLast(cap, false, NOTHING, chunk);
  }

  /** A frame of 8 bytes that arrives at once in mbufs of 8: with the write as
      it stands it is never announced. */
  lemma SilentExample(payload: seq<byte>)
    requires |payload| == 4
    ensures Notes(8, true, NOTHING, [Frame(payload)]) == [[]]
  {
    var chunks := [Frame(payload)];
    assert chunks[1..] == [] && Join([]) == [];
    assert NOTHING.Stream() + Join(chunks) == Frame(payload);
    FrameNotes(8, true, payload, NOTHING, chunks);
    assert OnBoundary(8, 8);
  }

  lemma NotesLast(cap: nat, asIs: bool, h: History, chunk: seq<byte>)
    ensures Notes(cap, asIs, h, [chunk]) == [Announced(Fed(cap, asIs, h, chunk))]
  {
    assert [chunk][1..] == [];
  }

  // ----- after the frame

  /** A stream that begins with a whole frame of n bytes of payload: that frame
      is announced as soon as its bytes are counted, if one byte beyond the
      header is. */
  lemma PastAnnounced(n: nat, h: History)
    requires n + 4 < 0x8000_0000
    requires h.Ok() && h.drift >= 0 && |h.Stream()| >= n + 4
    requires var s := h.Stream();
             s[0] as int * 0x1000000 + s[1] as int * 0x10000 + s[2] as int * 0x100 + s[3] as int == n
    ensures Announced(h) == if SizeOf(h) > 4 && SizeOf(h) >= n + 4 then [n + 4] else []
  {
    hide Announced;
    AnnouncedIs(n, h);
    assert (n + 4) % 0x1_0000_0000 == n + 4;
  }

  /** The server never reads.  Once a whole frame has come, every later chunk
      announces that first frame again, and no other: in general when its bytes
      are counted by then. */
  lemma {:induction false} FrameAgain(cap: nat, asIs: bool, payload: seq<byte>, h: History, chunks: seq<seq<byte>>)
    requires |payload| + HEADER_SIZE < 0x8000_0000
    requires h.Ok() && h.drift >= 0 && Frame(payload) <= h.Stream()
    ensures var notes := Notes(cap, asIs, h, chunks);
            && |notes| == |chunks|
            && forall i {:trigger notes[i]} :: 0 <= i < |chunks| ==>
                 var size := SizeOf(FedAll(cap, asIs, h, chunks[..i + 1]));
                 notes[i] ==
                 if size > HEADER_SIZE && size >= |payload| + HEADER_SIZE then [|payload| + HEADER_SIZE] else []
    decreases |chunks|
  {
    hide Announced, Frame, WrittenAsIs, OnBoundary, History.Stream, SizeOf, Fed;
    if chunks == [] {
    } else {
      var h1, rest := Fed(cap, asIs, h, chunks[0]), chunks[1..];
      FedOn(cap, asIs, h, chunks[0]);
      FrameBytes(payload);
      StartsAlike(Frame(payload), h1.Stream());
      PastAnnounced(|payload|, h1);
      FrameAgain(cap, asIs, payload, h1, rest);
      forall i | 0 <= i < |chunks|
        ensures FedAll(cap, asIs, h, chunks[..i + 1]) == FedAll(cap, asIs, h1, rest[..i])
      {
        assert chunks[..i + 1][1..] == rest[..i];
      }
      assert FedAll(cap, asIs, h1, rest[..0]) == h1;
    }
  }

  lemma FedOn(cap: nat, asIs: bool, h: History, chunk: seq<byte>)
    requires h.Ok() && h.drift >= 0
    ensures var h1 := Fed(cap, asIs, h, chunk);
            h1.Ok() && h1.drift >= 0 && h1.Stream() == h.Stream() + chunk && (!asIs ==> h1.drift == h.drift)
  {
  }

  /** With the intended write, each of them announces it. */
  lemma {:induction false} FrameEachTime(cap: nat, payload: seq<byte>, h: History, chunks: seq<seq<byte>>)
    requires 0 < |payload| && |payload| + HEADER_SIZE < 0x8000_0000
    requires h.Ok() && h.drift == 0 && Frame(payload) <= h.Stream()
    ensures Notes(cap, false, h, chunks) == seq(|chunks|, _ => [|payload| + HEADER_SIZE])
    decreases |chunks|
  {
    hide Announced, Frame, Fed, History.Stream;
    if chunks == [] {
    } else {
      var h1 := Fed(cap, false, h, chunks[0]);
      FedOn(cap, false, h, chunks[0]);
      FrameBytes(payload);
      StartsAlike(Frame(payload), h1.Stream());
      PastAnnounced(|payload|, h1);
      CountedStream(h1);
      FrameEachTime(cap, payload, h1, chunks[1..]);
    }
  }

  lemma CountedStream(h: History)
    requires h.Ok() && h.drift == 0
    ensures SizeOf(h) == |h.Stream()|
  {
  }

  /** TcpClient of server.cc, as far as it handles received data. */
  class TcpClient {
    const context: Context
    const con: Connection
    const hasDelegate: bool
    var notified: seq<nat>  // the calls of NotifyDataAvailable
    var delivered: seq<nat> // the calls of delegate_->DataAvailable

    ghost predicate Valid()
      reads this, context, context.pool, context.conns, context.Footprint()
    {
      context.Valid() && con in context.hist && this !in context.Footprint()
    }

    constructor (context: Context, hasDelegate: bool)
      requires context.Valid()
      modifies context.Footprint()
      ensures Valid() && this.context == context && this.hasDelegate == hasDelegate
      ensures con !in old(context.hist) && context.hist == old(context.hist)[con := NOTHING]
      ensures context.twice == old(context.twice)
      ensures notified == [] && delivered == []
      ensures fresh(context.Footprint() - old(context.Footprint()))
    {
      hide Context.Sound, Context.Settled;
      context.CacheInReach();
      var c := context.ContextConnectionNew();
      this.context, this.hasDelegate, con := context, hasDelegate, c;
      notified, delivered := [], [];
    }

    lemma HistOk()
      requires Valid()
      ensures context.HistOf(con).Ok() && con in context.hist
    {
      context.ReachConn(con);
    }

    method NotifyDataAvailable(size: nat)
      modifies `notified, `delivered
      ensures notified == old(notified) + [size]
      ensures delivered == old(delivered) + if hasDelegate then [size] else []
    {
      notified := notified + [size];
      if hasDelegate {
        delivered := delivered + [size];
      }
    }

    /** The part of OnNewData after the write (server.cc:41-51). */
    method Examine()
      requires Valid()
      modifies `notified, `delivered
      ensures Valid() && context.Footprint() == old(context.Footprint()) && context.hist == old(context.hist)
      ensures notified == old(notified) + Announced(context.HistOf(con))
      ensures delivered == old(delivered) + if hasDelegate then Announced(context.HistOf(con)) else []
    {
      hide Context.Sound, Context.Settled, Delivered, Available, Word, Overwrite, History.Stream;
      ghost var h := context.HistOf(con);
      context.ReachSize(con);
      var dataSize := con.val.dataSize;
      if dataSize > HEADER_SIZE {
        var word := new byte[HEADER_SIZE](_ => 0);
        ghost var was := word[..];
        assert was == [0, 0, 0, 0];
        var n := context.ConBufPeek(con, word, HEADER_SIZE);
        AvailableIs(h, was, word[..]);
        var payloadLen := Word(word[..]);
        var available := (payloadLen + HEADER_SIZE) % WORD_LIMIT;
        if dataSize >= available {
          NotifyDataAvailable(available);
        }
      }
    }

    /** OnNewData with the intended write. */
    method OnNewData(data: seq<byte>)
      requires Valid()
      modifies `notified, `delivered, context.Footprint()
      ensures Valid() && fresh(context.Footprint() - old(context.Footprint()))
      ensures context.hist == old(context.hist)[con := old(context.HistOf(con)).Put(data)]
      ensures context.twice == old(context.twice)
      ensures notified == old(notified) + Announced(context.HistOf(con))
      ensures delivered == old(delivered) + if hasDelegate then Announced(context.HistOf(con)) else []
    {
      hide Context.Sound, Context.Settled, Announced, History.Put;
      context.ConBufWrite(con, data);
      Examine();
    }

    /** OnNewData on con_buf_write as it stands. */
    method OnNewDataAsWritten(data: seq<byte>)
      requires Valid()
      modifies `notified, `delivered, context.Footprint()
      ensures Valid() && fresh(context.Footprint() - old(context.Footprint()))
      ensures context.hist == old(context.hist)[con := WrittenAsIs(context.pool.offset, old(context.HistOf(con)), data)]
      ensures context.twice == old(context.twice)
      ensures notified == old(notified) + Announced(context.HistOf(con))
      ensures delivered == old(delivered) + if hasDelegate then Announced(context.HistOf(con)) else []
    {
      hide Context.Sound, Context.Settled, Announced, WrittenAsIs;
      context.ConBufWriteAsWritten(con, data);
      Examine();
    }

    /** One received chunk, and the notifications it brings. */
    method Feed(chunk: seq<byte>, asIs: bool) returns (note: seq<nat>)
      requires Valid()
      modifies `notified, `delivered, context.Footprint()
      ensures Valid() && fresh(context.Footprint() - old(context.Footprint()))
      ensures context.hist == old(context.hist)[con := Fed(context.pool.offset, asIs, old(context.HistOf(con)), chunk)]
      ensures context.twice == old(context.twice)
      ensures note == Announced(context.HistOf(con)) && notified == old(notified) + note
      ensures delivered == old(delivered) + if hasDelegate then note else []
    {
      hide Context.Sound, Context.Settled, Announced, WrittenAsIs, History.Put;
      var n := |notified|;
      if asIs {
        OnNewDataAsWritten(chunk);
      } else {
        OnNewData(chunk);
      }
      note := notified[n..];
    }

    /** The receive loop of TcpServer::Process on one connection: each received
        chunk goes to OnNewData.  The result lists the notifications that each
        chunk brought. */
    method Process(chunks: seq<seq<byte>>, asIs: bool) returns (notes: seq<seq<nat>>)
      requires Valid()
      modifies `notified, `delivered, context.Footprint()
      ensures Valid() && fresh(context.Footprint() - old(context.Footprint()))
      ensures notes == Notes(context.pool.offset, asIs, old(context.HistOf(con)), chunks)
      ensures context.hist == old(context.hist)[con := FedAll(context.pool.offset, asIs, old(context.HistOf(con)), chunks)]
      ensures context.twice == old(context.twice)
      ensures notified == old(notified) + Concat(notes)
      ensures delivered == old(delivered) + if hasDelegate then Concat(notes) else []
    {
      hide TcpClient.Valid, Announced, Fed, Concat;
      notes := [];
      ghost var cap, h, now := context.pool.offset, context.HistOf(con), context.HistOf(con);
      HistOk();
      ConcatNothing();
      for i := 0 to |chunks|
        invariant Valid() && fresh(context.Footprint() - old(context.Footprint()))
        invariant context.hist == old(context.hist)[con := now] && con in context.hist && context.HistOf(con) == now
        invariant context.twice == old(context.twice)
        invariant Notes(cap, asIs, h, chunks) == notes + Notes(cap, asIs, now, chunks[i..])
        invariant FedAll(cap, asIs, h, chunks) == FedAll(cap, asIs, now, chunks[i..])
        invariant notified == old(notified) + Concat(notes)
        invariant delivered == old(delivered) + if hasDelegate then Concat(notes) else []
      {
        ghost var rest := chunks[i..];
        assert rest[0] == chunks[i] && rest[1..] == chunks[i + 1..];
        var note := Feed(chunks[i], asIs);
        UpdatedAgain(old(context.hist), con, now, Fed(cap, asIs, now, chunks[i]));
        now := Fed(cap, asIs, now, chunks[i]);
        ConcatSnoc(notes, note);
        notes := notes + [note];
      }
    }
  }

  lemma ConcatNothing()
    ensures Concat([]) == []
  {
  }

  ghost function Concat(notes: seq<seq<nat>>): seq<nat> {
    if notes == [] then [] else Concat(notes[..|notes| - 1]) + notes[|notes| - 1]
  }

  lemma ConcatSnoc(notes: seq<seq<nat>>, last: seq<nat>)
    ensures Concat(notes + [last]) == Concat(notes) + last
  {
    assert (notes + [last])[..|notes|] == notes;
  }

  lemma AvailableIs(h: History, before: seq<byte>, word: seq<byte>)
    requires before == [0, 0, 0, 0] && Delivered(before, word, h.Stream()[..Min(HEADER_SIZE, |h.Stream()|)])
    ensures |word| == HEADER_SIZE && Available(h) == (Word(word) + HEADER_SIZE) % WORD_LIMIT
  {
  }

  lemma {:induction false} ConcatLast(k: nat, last: seq<nat>)
    ensures Concat(Silence(k) + [last]) == last
  {
    ConcatSnoc(Silence(k), last);
    if k == 0 {
    } else {
      ConcatLast(k - 1, []);
      assert Silence(k) == Silence(k - 1) + [[]];
    }
  }

  /** A nonempty frame received by a client whose stream is empty, in whatever
      chunks: the client is notified once, of the whole frame. */
  method ReceiveFrame(client: TcpClient, ghost payload: seq<byte>, chunks: seq<seq<byte>>)
    requires client.Valid()
    requires 0 < |payload| && |payload| + HEADER_SIZE < 0x8000_0000
    requires client.context.HistOf(client.con).Stream() == [] && client.context.HistOf(client.con).drift == 0
    requires Join(chunks) == Frame(payload) && forall i :: 0 <= i < |chunks| ==> chunks[i] != []
    modifies client`notified, client`delivered, client.context.Footprint()
    ensures client.Valid()
    ensures client.context.hist ==
            old(client.context.hist)[client.con := old(client.context.HistOf(client.con)).Put(Join(chunks))]
    ensures client.notified == old(client.notified) + [|payload| + 4]
    ensures client.delivered == old(client.delivered) + if client.hasDelegate then [|payload| + 4] else []
  {
    hide Context.Sound, Context.Settled, Notes, FedAll, Concat, History.Stream;
    client.HistOk();
    FrameOnce(client.context.pool.offset, payload, client.context.HistOf(client.con), chunks);
    FedAllIs(client.context.pool.offset, client.context.HistOf(client.con), chunks);
    var _ := client.Process(chunks, false);
    ConcatLast(|chunks| - 1, [|payload| + HEADER_SIZE]);
  }

  /** The frame construction in main of client.cc: the header is copied to the
      front of a buffer whose next bytes are the payload. */
  method BuildFrame(sendBuf: array<byte>, payloadLen: nat) returns (totalLen: nat)
    requires payloadLen + HEADER_SIZE <= sendBuf.Length && payloadLen + HEADER_SIZE < WORD_LIMIT
    modifies sendBuf
    ensures totalLen == payloadLen + 4
    ensures sendBuf[0] as int * 0x1000000 + sendBuf[1] as int * 0x10000 + sendBuf[2] as int * 0x100 + sendBuf[3] as int
            == payloadLen
    ensures sendBuf[4..] == old(sendBuf[4..])
    ensures sendBuf[..totalLen] == Frame(old(sendBuf[HEADER_SIZE..totalLen]))
    ensures sendBuf[totalLen..] == old(sendBuf[totalLen..])
  {
    totalLen := HEADER_SIZE + payloadLen;
    var header := Header(payloadLen);
    forall k | 0 <= k < HEADER_SIZE {
      sendBuf[k] := header[k];
    }
    WordOfHeader(payloadLen);
    assert sendBuf[..totalLen] == sendBuf[..HEADER_SIZE] + sendBuf[HEADER_SIZE..totalLen];
  }
}
