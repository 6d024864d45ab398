/** A chain of fixed-capacity buffers as a value: the written areas of its
    mbufs, head first, and the read offset of the head. */
module Segments {

  newtype byte = x: int | 0 <= x < 0x100

  ghost function Join(segs: seq<seq<byte>>): seq<byte> {
    if segs == [] then [] else segs[0] + Join(segs[1..])
  }

  /** Cut s into pieces of cap bytes; only the last piece may be shorter. */
  ghost function Split(cap: nat, s: seq<byte>): seq<seq<byte>>
    requires cap > 0
    decreases |s|
  {
    if s == [] then []
    else if |s| <= cap then [s]
    else [s[..cap]] + Split(cap, s[cap..])
  }

  /** Every piece but the last is full, and none is empty. */
  ghost predicate Full(cap: nat, segs: seq<seq<byte>>) {
    forall i {:trigger segs[i]} :: 0 <= i < |segs| ==>
      0 < |segs[i]| <= cap && (i < |segs| - 1 ==> |segs[i]| == cap)
  }

  datatype Chain = Chain(segs: seq<seq<byte>>, pos: nat)

  /** The unwritten shape invariant of a connection buffer. */
  ghost predicate Shape(cap: nat, c: Chain) {
    && Full(cap, c.segs)
    && c.pos < cap
    && (if c.segs == [] then c.pos == 0 else c.pos <= |c.segs[0]|)
  }

  /** The unread bytes of a chain. */
  ghost function Unread(c: Chain): seq<byte>
    requires c.segs == [] ==> c.pos == 0
    requires c.segs != [] ==> c.pos <= |c.segs[0]|
  {
    if c.segs == [] then [] else c.segs[0][c.pos..] + Join(c.segs[1..])
  }

  /** What happened to a connection since it got its con_info: all the bytes
      written, the number of bytes read, and the amount by which the bytes in
      the chain exceed the connection's `data_size`. */
  datatype History = History(written: seq<byte>, taken: nat, drift: int) {
    ghost predicate Ok() { taken <= |written| }

    /** The bytes written and not yet read. */
    ghost function Stream(): seq<byte> {
      if Ok() then written[taken..] else []
    }

    ghost function Put(data: seq<byte>): (h: History)
      ensures Ok() ==> h.Ok()
    {
      this.(written := written + data)
    }

    lemma PutMore(data: seq<byte>, a: nat, b: nat)
      requires a <= b <= |data|
      ensures Put(data[..a]).Put(data[a..][..b - a]) == Put(data[..b])
    {
      assert data[..a] + data[a..][..b - a] == data[..b];
    }

    ghost function Take(n: nat): (h: History)
      ensures taken + n <= |written| ==> h.Ok()
    {
      this.(taken := taken + n)
    }
  }

  lemma PutNothing(h: History, data: seq<byte>)
    ensures data == [] ==> h.Put(data) == h
    ensures h.Put(data).drift == h.drift && h.Put(data).written == h.written + data && h.Put(data).taken == h.taken
  {
    assert h.written + [] == h.written;
  }

  /** Writing appends to the stream, and reading removes from its front. */
  lemma StreamMoves(h: History, data: seq<byte>, n: nat)
    requires h.Ok() && n <= |h.Stream()|
    ensures h.Put(data).Stream() == h.Stream() + data
    ensures h.Take(n).Stream() == h.Stream()[n..]
  {
  }

  lemma PutAll(h: History, data: seq<byte>, was: History, at: nat)
    requires at <= |data| && was == h.Put(data[..at])
    ensures was.Put(data[at..]) == h.Put(data)
  {
    assert data[..at] + data[at..] == data;
    assert h.written + data[..at] + data[at..] == h.written + (data[..at] + data[at..]);
  }

  /** What a read of `len` is for, when `data_size` is `size`. */
  ghost function ReadCount(h: History, len: nat, size: int): (n: nat)
    ensures n <= |h.Stream()|
  {
    if size < 0 then 0 else Min(Min(len, size), |h.Stream()|)
  }

  lemma TakeFields(h: History, n: nat)
    requires h.Ok() && n <= |h.Stream()|
    ensures h.Take(n) == h.(taken := h.taken + n) && h.Take(n).Ok()
  {
  }

  lemma TakeNothing(h: History)
    ensures h.Take(0) == h
  {
  }

  lemma TakeLeft(h: History, a: nat)
    requires h.Ok() && a <= |h.Stream()|
    ensures h.Take(a).Ok() && |h.Take(a).Stream()| == |h.Stream()| - a
  {
  }

  lemma TakeMore(h: History, a: nat, b: nat)
    requires h.Ok() && a + b <= |h.Stream()|
    ensures h.Take(a).Ok() && b <= |h.Take(a).Stream()|
    ensures h.Take(a).Take(b) == h.Take(a + b) && h.Take(a + b).Ok()
    ensures h.Stream()[..a] + h.Take(a).Stream()[..b] == h.Stream()[..a + b]
  {
  }

  const NOTHING := History([], 0, 0)

  /** The position in the history at which the head mbuf starts. */
  ghost function Base(cap: nat, taken: nat): (b: nat)
    requires cap > 0
    ensures b <= taken && b + taken % cap == taken
  {
    taken - taken % cap
  }

  /** The only chain that a history can leave behind. */
  ghost function Layout(cap: nat, h: History): Chain
    requires cap > 0 && h.Ok()
  {
    Chain(Split(cap, h.written[Base(cap, h.taken)..]), h.taken % cap)
  }

  lemma NothingLaidOut(cap: nat)
    requires cap > 0
    ensures Layout(cap, NOTHING) == Chain([], 0)
  {
    DivModUnique(0, 0, 0, cap);
  }

  lemma LayoutIgnoresDrift(cap: nat, h: History, d: int)
    requires cap > 0 && h.Ok()
    ensures Layout(cap, h.(drift := d)) == Layout(cap, h)
  {
  }

  // ----- division with a fixed divisor

  lemma DivModStep(t: nat, k: nat, cap: nat)
    requires cap > 0 && t % cap + k <= cap
    ensures if t % cap + k < cap
            then (t + k) % cap == t % cap + k && (t + k) / cap == t / cap
            else (t + k) % cap == 0 && (t + k) / cap == t / cap + 1
  {
    var q, r := t / cap, t % cap;
    assert t + k == q * cap + (r + k);
    if r + k < cap {
      DivModUnique(t + k, q, r + k, cap);
    } else {
      assert t + k == (q + 1) * cap;
      DivModUnique(t + k, q + 1, 0, cap);
    }
  }

  lemma DivModUnique(t: nat, q: nat, r: nat, cap: nat)
    requires r < cap && t == q * cap + r
    ensures t / cap == q && t % cap == r
  {
    var d := t / cap - q;
    assert d * cap == r - t % cap;
    assert d > 0 ==> d * cap >= cap;
    assert d < 0 ==> d * cap + cap <= 0;
  }

  lemma ModLess(t: nat, cap: nat)
    requires 0 < cap <= t
    ensures t % cap == (t - cap) % cap && t / cap == (t - cap) / cap + 1
  {
    DivModUnique(t, (t - cap) / cap + 1, (t - cap) % cap, cap);
  }

  lemma ModSmall(t: nat, cap: nat)
    requires t < cap
    ensures t % cap == t && t / cap == 0
  {
    DivModUnique(t, 0, t, cap);
  }

  lemma ModShift(b: nat, x: nat, cap: nat)
    requires cap > 0 && b % cap == 0
    ensures (b + x) % cap == x % cap && (b + x) / cap == b / cap + x / cap
  {
    assert b == (b / cap) * cap && x == (x / cap) * cap + x % cap;
    DivModUnique(b + x, b / cap + x / cap, x % cap, cap);
  }

  lemma BaseIsMultiple(cap: nat, taken: nat)
    requires cap > 0
    ensures Base(cap, taken) % cap == 0 && Base(cap, taken) / cap == taken / cap
  {
    DivModUnique(Base(cap, taken), taken / cap, 0, cap);
  }

  lemma DivGrows(t: nat, n: nat, cap: nat)
    requires cap > 0
    ensures (t + n) / cap >= t / cap
  {
    BaseIsMultiple(cap, t);
    ModShift(Base(cap, t), t % cap + n, cap);
  }

  // ----- Join and Split

  lemma {:induction false} SplitJoin(cap: nat, s: seq<byte>)
    requires cap > 0
    ensures Join(Split(cap, s)) == s
    decreases |s|
  {
    if s == [] {
    } else if |s| <= cap {
      assert [s][1..] == [];
    } else {
      SplitJoin(cap, s[cap..]);
    }
  }

  lemma {:induction false} SplitFull(cap: nat, s: seq<byte>)
    requires cap > 0
    ensures Full(cap, Split(cap, s))
    decreases |s|
  {
    if |s| <= cap {
    } else {
      SplitFull(cap, s[cap..]);
      assert Split(cap, s[cap..]) != [];
    }
  }

  /** The shape decides the cut: two chains of the same bytes that both have
      the shape are the same chain. */
  lemma {:induction false} SplitUnique(cap: nat, segs: seq<seq<byte>>)
    requires cap > 0 && Full(cap, segs)
    ensures Split(cap, Join(segs)) == segs
  {
    if segs == [] {
    } else {
      var rest := segs[1..];
      SplitUnique(cap, rest);
      if rest == [] {
        assert segs == [segs[0]];
        assert Join(segs) == segs[0] + [] == segs[0];
      } else {
        assert |segs[0]| == cap && |rest[0]| > 0;
        assert Join(segs)[..cap] == segs[0] && Join(segs)[cap..] == Join(rest);
      }
    }
  }

  lemma {:induction false} SplitCount(cap: nat, s: seq<byte>)
    requires cap > 0
    ensures |Split(cap, s)| == (|s| + cap - 1) / cap
    decreases |s|
  {
    if s == [] {
      ModSmall(cap - 1, cap);
    } else if |s| <= cap {
      DivModUnique(|s| + cap - 1, 1, |s| - 1, cap);
    } else {
      SplitCount(cap, s[cap..]);
      ModLess(|s| + cap - 1, cap);
    }
  }

  /** The last piece is full exactly when the whole length divides by cap. */
  lemma {:induction false} LastFull(cap: nat, s: seq<byte>)
    requires cap > 0 && s != []
    ensures Split(cap, s) != []
    ensures var segs := Split(cap, s); |segs[|segs| - 1]| == cap <==> |s| % cap == 0
    decreases |s|
  {
    if |s| < cap {
      ModSmall(|s|, cap);
    } else if |s| == cap {
      ModLess(|s|, cap);
      ModSmall(0, cap);
    } else {
      ModLess(|s|, cap);
      var tail := s[cap..];
      LastFull(cap, tail);
      var rest := Split(cap, tail);
      assert Split(cap, s) == [s[..cap]] + rest;
    }
  }

  lemma {:induction false} LastFits(cap: nat, s: seq<byte>, more: seq<byte>)
    requires cap > 0 && s != []
    requires var segs := Split(cap, s); segs != [] && |segs[|segs| - 1]| + |more| <= cap
    ensures var segs := Split(cap, s); Split(cap, s + more) == segs[|segs| - 1 := segs[|segs| - 1] + more]
    decreases |s|
  {
    if |s| <= cap {
    } else {
      var rest := Split(cap, s[cap..]);
      assert Split(cap, s) == [s[..cap]] + rest;
      LastFits(cap, s[cap..], more);
      assert (s + more)[..cap] == s[..cap] && (s + more)[cap..] == s[cap..] + more;
    }
  }

  lemma {:induction false} LastStarts(cap: nat, s: seq<byte>, more: seq<byte>)
    requires cap > 0 && |s| % cap == 0 && 0 < |more| <= cap
    ensures Split(cap, s + more) == Split(cap, s) + [more]
    decreases |s|
  {
    if s == [] {
      assert s + more == more;
    } else if |s| < cap {
      ModSmall(|s|, cap);
    } else {
      ModLess(|s|, cap);
      LastStarts(cap, s[cap..], more);
      assert (s + more)[..cap] == s[..cap] && (s + more)[cap..] == s[cap..] + more;
      if |s| == cap {
        assert s[cap..] == [] && s[..cap] == s;
      }
    }
  }

  /** Byte j lies in piece j / cap, at offset j mod cap. */
  lemma {:induction false} SplitAt(cap: nat, s: seq<byte>, j: nat)
    requires cap > 0 && j < |s|
    ensures 0 <= j / cap < |Split(cap, s)| && j % cap < |Split(cap, s)[j / cap]|
    ensures Split(cap, s)[j / cap][j % cap] == s[j]
    decreases |s|
  {
    if j < cap {
      ModSmall(j, cap);
    } else {
      ModLess(j, cap);
      SplitAt(cap, s[cap..], j - cap);
      assert Split(cap, s) == [s[..cap]] + Split(cap, s[cap..]);
    }
  }

  /** Of the bytes written, number i lies in mbuf i / cap - R / cap, at offset
      i mod cap, once R bytes have been read. */
  lemma LayoutAt(cap: nat, h: History, i: nat)
    requires cap > 0 && h.Ok() && h.taken <= i < |h.written|
    ensures var segs, k := Layout(cap, h).segs, i / cap - h.taken / cap;
            0 <= k < |segs| && i % cap < |segs[k]| && segs[k][i % cap] == h.written[i]
  {
    var b := Base(cap, h.taken);
    BaseIsMultiple(cap, h.taken);
    ModShift(b, i - b, cap);
    SplitAt(cap, h.written[b..], i - b);
  }

  // ----- what a history leaves in the chain

  lemma LayoutShape(cap: nat, h: History)
    requires cap > 0 && h.Ok()
    ensures Shape(cap, Layout(cap, h))
    ensures Unread(Layout(cap, h)) == h.Stream()
  {
    var s := h.written[Base(cap, h.taken)..];
    SplitFull(cap, s);
    SplitJoin(cap, s);
    var c := Layout(cap, h);
    if c.segs != [] {
      assert Join(c.segs) == s && c.segs[0] == if |s| <= cap then s else s[..cap];
      assert Unread(c) == s[c.pos..];
    }
  }

  /** A chain with the shape is determined by its bytes: any history that
      accounts for its head position and its bytes lays it out. */
  lemma ShapeIsLayout(cap: nat, h: History, c: Chain)
    requires cap > 0 && h.Ok() && Shape(cap, c)
    requires c.pos == h.taken % cap && Join(c.segs) == h.written[Base(cap, h.taken)..]
    ensures c == Layout(cap, h)
  {
    SplitUnique(cap, c.segs);
  }

  /** Closed form: ceil(W / cap) - floor(R / cap) mbufs, head offset R mod cap. */
  lemma ClosedForm(cap: nat, h: History)
    requires cap > 0 && h.Ok()
    ensures |Layout(cap, h).segs| == (|h.written| + cap - 1) / cap - h.taken / cap
    ensures Layout(cap, h).pos == h.taken % cap
  {
    var b := Base(cap, h.taken);
    SplitCount(cap, h.written[b..]);
    BaseIsMultiple(cap, h.taken);
    ModShift(b, |h.written| - b + cap - 1, cap);
  }

  /** How many mbufs history h leaves. */
  ghost function MbufCount(cap: nat, h: History): int {
    if cap == 0 then 0 else (|h.written| + cap - 1) / cap - h.taken / cap
  }

  /** By how many mbufs two histories differ, of which one has been written to
      or read from beyond the other. */
  lemma CountsDiffer(cap: nat, h: History, h1: History)
    requires cap > 0
    ensures h1.taken == h.taken ==>
            MbufCount(cap, h1) - MbufCount(cap, h) == (|h1.written| + cap - 1) / cap - (|h.written| + cap - 1) / cap
    ensures h1.written == h.written ==>
            MbufCount(cap, h) - MbufCount(cap, h1) == h1.taken / cap - h.taken / cap
  {
  }

  /** `mhdr_readable` looks at the head alone, and that is enough. */
  lemma HeadDecides(cap: nat, h: History)
    requires cap > 0 && h.Ok()
    ensures var c := Layout(cap, h);
            (c.segs != [] && c.pos < |c.segs[0]|) <==> h.Stream() != []
  {
    LayoutShape(cap, h);
    var c := Layout(cap, h);
    if c.segs != [] && c.pos == |c.segs[0]| {
      assert |c.segs| == 1;
    }
  }

  /** The tail is full, or there is none, exactly when W divides by cap. */
  ghost predicate Closed(cap: nat, c: Chain) {
    c.segs == [] || |c.segs[|c.segs| - 1]| == cap
  }

  lemma BaseDivides(cap: nat, h: History)
    requires cap > 0 && h.Ok()
    ensures (|h.written| - Base(cap, h.taken)) % cap == 0 <==> |h.written| % cap == 0
  {
    var b := Base(cap, h.taken);
    BaseIsMultiple(cap, h.taken);
    ModShift(b, |h.written| - b, cap);
  }

  /** n bytes fill a whole number of mbufs. */
  ghost predicate OnBoundary(cap: nat, n: nat) {
    cap > 0 && n % cap == 0
  }

  lemma ClosedIff(cap: nat, h: History)
    requires cap > 0 && h.Ok()
    ensures Closed(cap, Layout(cap, h)) <==> OnBoundary(cap, |h.written|)
  {
    var s := h.written[Base(cap, h.taken)..];
    BaseDivides(cap, h);
    if s != [] {
      LastFull(cap, s);
    } else {
      ModSmall(0, cap);
    }
  }

  /** Bytes that fit go to the open tail. */
  lemma PutInTail(cap: nat, h: History, more: seq<byte>)
    requires cap > 0 && h.Ok() && !Closed(cap, Layout(cap, h))
    requires var segs := Layout(cap, h).segs; |segs[|segs| - 1]| + |more| <= cap
    ensures var c := Layout(cap, h);
            Layout(cap, h.Put(more)) == c.(segs := c.segs[|c.segs| - 1 := c.segs[|c.segs| - 1] + more])
  {
    var b := Base(cap, h.taken);
    var s := h.written[b..];
    assert h.Put(more).written[b..] == s + more;
    LastFits(cap, s, more);
  }

  /** With the tail full, bytes start a new mbuf. */
  lemma PutInNew(cap: nat, h: History, more: seq<byte>)
    requires cap > 0 && h.Ok() && Closed(cap, Layout(cap, h)) && 0 < |more| <= cap
    ensures var c := Layout(cap, h); Layout(cap, h.Put(more)) == c.(segs := c.segs + [more])
  {
    var b := Base(cap, h.taken);
    var s := h.written[b..];
    assert h.Put(more).written[b..] == s + more;
    ClosedIff(cap, h);
    BaseDivides(cap, h);
    LastStarts(cap, s, more);
  }

  /** The tail has room: it is the open tail of the layout, or an empty mbuf
      just added behind a full one. */
  ghost predicate OpenTail(cap: nat, h: History, c: Chain)
    requires cap > 0 && h.Ok()
  {
    var l := Layout(cap, h);
    if Closed(cap, l) then c == l.(segs := l.segs + [[]]) else c == l
  }

  lemma OpensTail(cap: nat, h: History, c: Chain)
    requires cap > 0 && h.Ok()
    requires var l := Layout(cap, h); c == if Closed(cap, l) then l.(segs := l.segs + [[]]) else l
    ensures OpenTail(cap, h, c)
  {
  }

  lemma OpenTailRoom(cap: nat, h: History, c: Chain)
    requires cap > 0 && h.Ok() && OpenTail(cap, h, c)
    ensures c.segs != [] && |c.segs[|c.segs| - 1]| < cap
  {
    LayoutShape(cap, h);
  }

  lemma FillOpenTail(cap: nat, h: History, c: Chain, piece: seq<byte>)
    requires cap > 0 && h.Ok() && OpenTail(cap, h, c) && piece != []
    requires c.segs != [] && |c.segs[|c.segs| - 1]| + |piece| <= cap
    ensures c.(segs := c.segs[|c.segs| - 1 := c.segs[|c.segs| - 1] + piece]) == Layout(cap, h.Put(piece))
  {
    var l := Layout(cap, h);
    if Closed(cap, l) {
      PutInNew(cap, h, piece);
      assert [] + piece == piece;
      assert c.segs[|c.segs| - 1 := [] + piece] == l.segs + [piece];
    } else {
      PutInTail(cap, h, piece);
    }
  }

  /** Reading k bytes of the head moves its offset, or drops it once it is
      both full and drained. */
  lemma TakeFromHead(cap: nat, h: History, k: nat)
    requires cap > 0 && h.Ok()
    requires var c := Layout(cap, h); c.segs != [] && c.pos + k <= |c.segs[0]|
    ensures h.Take(k).Ok()
    ensures var c := Layout(cap, h);
            Layout(cap, h.Take(k)) ==
            if c.pos + k == cap then Chain(c.segs[1..], 0) else c.(pos := c.pos + k)
  {
    LayoutShape(cap, h);
    var c := Layout(cap, h);
    var b := Base(cap, h.taken);
    var s := h.written[b..];
    assert c.segs[0] == if |s| <= cap then s else s[..cap];
    DivModStep(h.taken, k, cap);
    if c.pos + k == cap {
      assert Base(cap, h.taken + k) == b + cap;
      assert h.written[b + cap..] == s[cap..];
      if |s| == cap {
        assert Split(cap, s) == [s];
      }
    }
  }

  ghost function Min(a: int, b: int): int {
    if a < b then a else b
  }

  /** How many unread bytes the head mbuf holds. */
  ghost function HeadLeft(cap: nat, taken: nat, total: nat): (n: nat)
    requires cap > 0 && taken <= total
  {
    Min(cap - taken % cap, total - taken)
  }

  /** Reading n bytes of the head mbuf drains a full one. */
  ghost predicate Drains(cap: nat, taken: nat, n: nat)
    requires cap > 0
  {
    taken % cap + n == cap
  }

  /** If reading all of the head mbuf does not drain a full one, the head mbuf
      is the last. */
  lemma LastOrMore(cap: nat, h: History)
    requires cap > 0 && h.Ok()
    ensures var n := HeadLeft(cap, h.taken, |h.written|);
            n <= |h.Stream()| && (n < |h.Stream()| ==> Drains(cap, h.taken, n))
  {
  }

  lemma HeadHolds(cap: nat, h: History)
    requires cap > 0 && h.Ok() && h.Stream() != []
    ensures var c := Layout(cap, h);
            && c.segs != [] && c.pos == h.taken % cap < |c.segs[0]|
            && |c.segs[0]| - c.pos == HeadLeft(cap, h.taken, |h.written|) > 0
            && c.segs[0][c.pos..] == h.Stream()[..|c.segs[0]| - c.pos]
  {
    LayoutShape(cap, h);
    var s := h.written[Base(cap, h.taken)..];
    var c := Layout(cap, h);
    assert c.segs[0] == if |s| <= cap then s else s[..cap];
  }

  /** What is left of a chain from its i-th mbuf on. */
  ghost function Rest(c: Chain, i: nat): seq<byte>
    requires i <= |c.segs|
    requires c.segs == [] ==> c.pos == 0
    requires c.segs != [] ==> c.pos <= |c.segs[0]|
  {
    if i == 0 then Unread(c) else Join(c.segs[i..])
  }

  lemma RestStep(c: Chain, i: nat)
    requires i < |c.segs| && c.pos <= |c.segs[0]|
    ensures Rest(c, i) == c.segs[i][if i == 0 then c.pos else 0..] + Rest(c, i + 1)
  {
    assert c.segs[i..][1..] == c.segs[i + 1..];
  }

  lemma RestAll(c: Chain)
    requires c.segs == [] ==> c.pos == 0
    requires c.segs != [] ==> c.pos <= |c.segs[0]|
    ensures Rest(c, 0) == Unread(c)
  {
  }

  lemma RestEnd(c: Chain)
    requires c.segs == [] ==> c.pos == 0
    requires c.segs != [] ==> c.pos <= |c.segs[0]|
    ensures Rest(c, |c.segs|) == []
  {
  }

  /** Copying `read` bytes of the i-th mbuf continues the stream at `at`. */
  lemma PeekStep(c: Chain, i: nat, stream: seq<byte>, at: nat, read: nat)
    requires i < |c.segs| && c.pos <= |c.segs[0]| && at <= |stream| && stream[at..] == Rest(c, i)
    requires read <= |c.segs[i]| - if i == 0 then c.pos else 0
    ensures at + read <= |stream|
    ensures c.segs[i][if i == 0 then c.pos else 0..][..read] == stream[at..][..read]
    ensures stream[..at] + stream[at..][..read] == stream[..at + read]
    ensures read == |c.segs[i]| - (if i == 0 then c.pos else 0) ==> stream[at + read..] == Rest(c, i + 1)
  {
    RestStep(c, i);
    assert stream[at + read..] == stream[at..][read..];
  }
}
