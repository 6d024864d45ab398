/** Runs: any interleaving of operations over any number of connections that
    share one context, and the byte queues that they must look like. */
module Runs {
  import opened Sequences
  import opened Segments
  import opened AsWritten
  import opened Corvus

  /** Connections are named by the order of their creation.  RecycleAgain
      recycles one that has been recycled and not come back.  The last two are
      the write and the read as the text has them; the destination of that
      read holds `room` bytes. */
  datatype Op =
    | New
    | Write(id: nat, data: seq<byte>)
    | Read(id: nat, len: nat)
    | Peek(id: nat, len: nat)
    | Recycle(id: nat)
    | RecycleAgain(id: nat)
    | WriteAsIs(id: nat, data: seq<byte>)
    | ReadAsIs(id: nat, len: nat, room: nat)

  /** What a call hands back: the bytes copied out, as many as it returns, or a
      fault, after which the run goes on as if the call had not been made. */
  datatype Answer = Silent | Got(bytes: seq<byte>) | Fault

  datatype Slot = Gone | Live(h: History)

  datatype Outcome = Outcome(slots: seq<Slot>, answers: seq<Answer>)

  /** The intended operations and those of the text as it stands may be mixed. */
  ghost predicate Legal(cap: nat, slots: seq<Slot>, op: Op) {
    op.New? ||
    (op.id < |slots| &&
     if op.RecycleAgain? then slots[op.id].Gone?
     else slots[op.id].Live? && (op.ReadAsIs? ==> AsIsCount(cap, slots[op.id].h, op.len) <= op.room))
  }

  ghost function AsIsCount(cap: nat, h: History, len: nat): nat {
    GreedyOf(cap, h, len, Min(len, SizeOf(h)))
  }

  ghost function Next(cap: nat, h: History, op: Op): History {
    match op
    case Write(_, data) => h.Put(data)
    case Read(_, len) => h.Take(ReadCount(h, len, SizeOf(h)))
    case WriteAsIs(_, data) => WrittenAsIs(cap, h, data)
    case ReadAsIs(_, len, _) => h.Take(AsIsCount(cap, h, len))
    case _ => h
  }

  ghost function Reply(cap: nat, h: History, op: Op): Answer {
    match op
    case Read(_, len) =>
      if SizeOf(h) < 0 && h.Stream() != [] then Fault else Got(h.Stream()[..ReadCount(h, len, SizeOf(h))])
    case Peek(_, len) => Got(h.Stream()[..Min(len, |h.Stream()|)])
    case ReadAsIs(_, len, _) =>
      if h.written == [] then Fault else Got(h.Stream()[..AsIsCount(cap, h, len)])
    case _ => Silent
  }

  ghost function After(cap: nat, slots: seq<Slot>, op: Op): seq<Slot>
    requires Legal(cap, slots, op)
  {
    if op.New? then slots + [Live(NOTHING)]
    else if op.RecycleAgain? then slots
    else if op.Recycle? then slots[op.id := Gone]
    else slots[op.id := Live(Next(cap, slots[op.id].h, op))]
  }

  ghost function Said(cap: nat, slots: seq<Slot>, op: Op): Answer
    requires Legal(cap, slots, op)
  {
    if op.New? || op.RecycleAgain? then Silent else Reply(cap, slots[op.id].h, op)
  }

  ghost predicate LegalRun(cap: nat, slots: seq<Slot>, ops: seq<Op>)
    decreases |ops|
  {
    ops == [] || (Legal(cap, slots, ops[0]) && LegalRun(cap, After(cap, slots, ops[0]), ops[1..]))
  }

  ghost function Run(cap: nat, slots: seq<Slot>, ops: seq<Op>): Outcome
    requires LegalRun(cap, slots, ops)
    decreases |ops|
  {
    if ops == [] then Outcome(slots, [])
    else
      var rest := Run(cap, After(cap, slots, ops[0]), ops[1..]);
      Outcome(rest.slots, [Said(cap, slots, ops[0])] + rest.answers)
  }

  lemma NextOk(cap: nat, h: History, op: Op)
    requires h.Ok()
    ensures Next(cap, h, op).Ok()
  {
  }

  // ----- one connection at a time

  /** A call on connection id while it is live. */
  ghost predicate Names(op: Op, id: nat) {
    !op.New? && !op.RecycleAgain? && op.id == id
  }

  ghost function Mine(ops: seq<Op>, id: nat): seq<Op> {
    if ops == [] then []
    else (if Names(ops[0], id) then [ops[0]] else []) + Mine(ops[1..], id)
  }

  /** The answers to those calls. */
  ghost function AnswersOf(ops: seq<Op>, answers: seq<Answer>, id: nat): seq<Answer>
    requires |answers| == |ops|
  {
    if ops == [] then []
    else (if Names(ops[0], id) then [answers[0]] else []) + AnswersOf(ops[1..], answers[1..], id)
  }

  /** A connection on its own. */
  ghost function Solo(cap: nat, slot: Slot, ops: seq<Op>): (Slot, seq<Answer>)
    decreases |ops|
  {
    if ops == [] then (slot, [])
    else if slot.Gone? then (slot, [])
    else
      var next := if ops[0].Recycle? then Gone else Live(Next(cap, slot.h, ops[0]));
      var rest := Solo(cap, next, ops[1..]);
      (rest.0, [Reply(cap, slot.h, ops[0])] + rest.1)
  }

  lemma {:induction false} RunLengths(cap: nat, slots: seq<Slot>, ops: seq<Op>)
    requires LegalRun(cap, slots, ops)
    ensures |Run(cap, slots, ops).answers| == |ops| && |Run(cap, slots, ops).slots| >= |slots|
    decreases |ops|
  {
    if ops == [] {
    } else {
      RunLengths(cap, After(cap, slots, ops[0]), ops[1..]);
    }
  }

  /** Isolation: what the others do in between changes neither the answers a
      connection gets nor the history it ends with. */
  lemma {:induction false} Isolation(cap: nat, slots: seq<Slot>, ops: seq<Op>, id: nat)
    requires LegalRun(cap, slots, ops) && id < |slots|
    ensures var end := Run(cap, slots, ops);
            && |end.answers| == |ops| && |end.slots| >= |slots|
            && (end.slots[id], AnswersOf(ops, end.answers, id)) == Solo(cap, slots[id], Mine(ops, id))
    decreases |ops|
  {
    RunLengths(cap, slots, ops);
    if ops == [] {
    } else {
      var next := After(cap, slots, ops[0]);
      Isolation(cap, next, ops[1..], id);
      var end := Run(cap, slots, ops);
      assert end.answers[1..] == Run(cap, next, ops[1..]).answers;
      if Names(ops[0], id) {
        assert Mine(ops, id) == [ops[0]] + Mine(ops[1..], id);
        assert Mine(ops, id)[1..] == Mine(ops[1..], id);
      } else {
        assert Mine(ops, id) == Mine(ops[1..], id);
        assert AnswersOf(ops, end.answers, id) == AnswersOf(ops[1..], end.answers[1..], id);
      }
    }
  }

  // ----- the intended operations are byte queues

  datatype Bytes = NoQueue | Open(q: seq<byte>)

  predicate Intended(op: Op) {
    !op.WriteAsIs? && !op.ReadAsIs?
  }

  ghost predicate FifoLegal(queues: seq<Bytes>, op: Op) {
    Intended(op) &&
    (op.New? || (op.id < |queues| && if op.RecycleAgain? then queues[op.id].NoQueue? else queues[op.id].Open?))
  }

  ghost function FifoAfter(queues: seq<Bytes>, op: Op): seq<Bytes>
    requires FifoLegal(queues, op)
  {
    match op
    case New => queues + [Open([])]
    case Write(id, data) => queues[id := Open(queues[id].q + data)]
    case Read(id, len) => queues[id := Open(queues[id].q[Min(len, |queues[id].q|)..])]
    case Recycle(id) => queues[id := NoQueue]
    case _ => queues
  }

  ghost function FifoSaid(queues: seq<Bytes>, op: Op): Answer
    requires FifoLegal(queues, op)
  {
    match op
    case Read(id, len) => Got(queues[id].q[..Min(len, |queues[id].q|)])
    case Peek(id, len) => Got(queues[id].q[..Min(len, |queues[id].q|)])
    case _ => Silent
  }

  ghost predicate FifoLegalRun(queues: seq<Bytes>, ops: seq<Op>)
    decreases |ops|
  {
    ops == [] || (FifoLegal(queues, ops[0]) && FifoLegalRun(FifoAfter(queues, ops[0]), ops[1..]))
  }

  ghost function FifoRun(queues: seq<Bytes>, ops: seq<Op>): seq<Answer>
    requires FifoLegalRun(queues, ops)
    decreases |ops|
  {
    if ops == [] then []
    else [FifoSaid(queues, ops[0])] + FifoRun(FifoAfter(queues, ops[0]), ops[1..])
  }

  ghost function QueueOf(slot: Slot): Bytes {
    if slot.Gone? then NoQueue else Open(slot.h.Stream())
  }

  ghost function Queues(slots: seq<Slot>): seq<Bytes> {
    seq(|slots|, i requires 0 <= i < |slots| => QueueOf(slots[i]))
  }

  ghost predicate Clean(slots: seq<Slot>) {
    forall i {:trigger slots[i]} :: 0 <= i < |slots| && slots[i].Live? ==> slots[i].h.Ok() && slots[i].h.drift == 0
  }

  lemma OneIsFifo(cap: nat, slots: seq<Slot>, op: Op)
    requires Clean(slots) && FifoLegal(Queues(slots), op)
    ensures Legal(cap, slots, op) && Clean(After(cap, slots, op))
    ensures Queues(After(cap, slots, op)) == FifoAfter(Queues(slots), op)
    ensures Said(cap, slots, op) == FifoSaid(Queues(slots), op)
  {
    if !op.New? && !op.RecycleAgain? {
      var h := slots[op.id].h;
      match op {
        case Write(_, data) => StreamMoves(h, data, 0);
        case Read(_, len) => StreamMoves(h, [], Min(len, |h.Stream()|));
        case _ =>
      }
    }
    assert Queues(After(cap, slots, op)) == FifoAfter(Queues(slots), op);
  }

  /** Each connection is its own FIFO byte queue.  No buffer size and no free
      list occurs on the right-hand side. */
  lemma {:induction false} RunIsFifo(cap: nat, slots: seq<Slot>, ops: seq<Op>)
    requires Clean(slots) && FifoLegalRun(Queues(slots), ops)
    ensures LegalRun(cap, slots, ops)
    ensures Run(cap, slots, ops).answers == FifoRun(Queues(slots), ops)
    ensures Clean(Run(cap, slots, ops).slots)
    decreases |ops|
  {
    if ops == [] {
    } else {
      OneIsFifo(cap, slots, ops[0]);
      RunIsFifo(cap, After(cap, slots, ops[0]), ops[1..]);
    }
  }

  /** Answers do not depend on the buffer size either. */
  lemma SameAnswers(cap1: nat, cap2: nat, ops: seq<Op>)
    requires FifoLegalRun([], ops)
    ensures LegalRun(cap1, [], ops) && LegalRun(cap2, [], ops)
    ensures Run(cap1, [], ops).answers == Run(cap2, [], ops).answers == FifoRun([], ops)
  {
    assert Queues([]) == [];
    RunIsFifo(cap1, [], ops);
    RunIsFifo(cap2, [], ops);
  }

  /** The bytes that a read took out of the queue, and that a write put in. */
  ghost function OutOf(op: Op, answer: Answer): seq<byte> {
    if (op.Read? || op.ReadAsIs?) && answer.Got? then answer.bytes else []
  }

  ghost function InOf(op: Op): seq<byte> {
    if op.Write? || op.WriteAsIs? then op.data else []
  }

  ghost function ReadOut(ops: seq<Op>, answers: seq<Answer>): seq<byte>
    requires |answers| == |ops|
  {
    if ops == [] then [] else OutOf(ops[0], answers[0]) + ReadOut(ops[1..], answers[1..])
  }

  ghost function WrittenIn(ops: seq<Op>): seq<byte> {
    if ops == [] then [] else InOf(ops[0]) + WrittenIn(ops[1..])
  }

  ghost predicate NoRecycle(ops: seq<Op>) {
    forall i {:trigger ops[i]} :: 0 <= i < |ops| ==> !ops[i].Recycle? && !ops[i].New? && !ops[i].RecycleAgain?
  }

  lemma ConserveOne(cap: nat, h: History, op: Op)
    requires h.Ok() && !op.Recycle? && !op.New? && !op.RecycleAgain?
    ensures var out, next := OutOf(op, Reply(cap, h, op)), Next(cap, h, op);
            && next.Ok()
            && out + next.Stream() == h.Stream() + InOf(op)
            && next.written == h.written + InOf(op)
            && next.taken == h.taken + |out|
  {
    hide History.Stream, GreedyOf, SizeOf;
    match op {
      case Write(_, data) => PutConserves(h, Next(cap, h, op), data);
      case WriteAsIs(_, data) => PutConserves(h, Next(cap, h, op), data);
      case Read(_, len) => TakeConserves(h, ReadCount(h, len, SizeOf(h)));
      case ReadAsIs(_, len, _) =>
        TakeConserves(h, AsIsCount(cap, h, len));
        NothingToRead(h);
      case Peek(_, _) =>
        assert h.written + [] == h.written;
        PutConserves(h, h, []);
    }
  }

  lemma NothingToRead(h: History)
    ensures h.written == [] ==> h.Stream() == []
  {
  }

  lemma PutConserves(h: History, h1: History, data: seq<byte>)
    requires h.Ok() && h1.written == h.written + data && h1.taken == h.taken
    ensures h1.Ok() && [] + h1.Stream() == h.Stream() + data
  {
  }

  lemma TakeConserves(h: History, n: nat)
    requires h.Ok() && n <= |h.Stream()|
    ensures h.Take(n).Ok() && h.Stream()[..n] + h.Take(n).Stream() == h.Stream() + []
    ensures h.Take(n).written == h.written + [] && h.Take(n).taken == h.taken + |h.Stream()[..n]|
  {
  }

  lemma {:induction false} SoloStays(cap: nat, h: History, ops: seq<Op>)
    requires h.Ok() && NoRecycle(ops)
    ensures var (end, answers) := Solo(cap, Live(h), ops);
            |answers| == |ops| && end.Live? && end.h.Ok()
    decreases |ops|
  {
    if ops == [] {
    } else {
      NextOk(cap, h, ops[0]);
      SoloStays(cap, Next(cap, h, ops[0]), ops[1..]);
    }
  }

  lemma SoloTurn(cap: nat, h: History, ops: seq<Op>)
    requires h.Ok() && NoRecycle(ops) && ops != []
    ensures var (end, answers) := Solo(cap, Live(h), ops);
            var (last, rest) := Solo(cap, Live(Next(cap, h, ops[0])), ops[1..]);
            end == last && answers == [Reply(cap, h, ops[0])] + rest && answers[1..] == rest
  {
  }

  /** Conservation: what was read, then what is left, is what was there, then
      what was written; this holds of the text as it stands too. */
  lemma {:induction false} Conservation(cap: nat, h: History, ops: seq<Op>)
    requires h.Ok() && NoRecycle(ops)
    ensures var (end, answers) := Solo(cap, Live(h), ops);
            && |answers| == |ops| && end.Live?
            && ReadOut(ops, answers) + end.h.Stream() == h.Stream() + WrittenIn(ops)
            && end.h.written == h.written + WrittenIn(ops)
            && end.h.taken == h.taken + |ReadOut(ops, answers)|
    decreases |ops|
  {
    hide Solo, Next, Reply, OutOf, InOf, History.Stream;
    SoloStays(cap, h, ops);
    if ops == [] {
      SoloNothing(cap, h);
      assert h.Stream() + [] == [] + h.Stream() && h.written + [] == h.written;
    } else {
      var op, next, out := ops[0], Next(cap, h, ops[0]), OutOf(ops[0], Reply(cap, h, ops[0]));
      ConserveOne(cap, h, op);
      SoloTurn(cap, h, ops);
      Conservation(cap, next, ops[1..]);
      var end, answers := Solo(cap, Live(h), ops).0, Solo(cap, Live(h), ops).1;
      var more := WrittenIn(ops[1..]);
      Chained(out, ReadOut(ops[1..], answers[1..]), end.h.Stream(), next.Stream(), h.Stream(), InOf(op), more);
      Chained([], [], h.written + InOf(op) + more, h.written + InOf(op), h.written, InOf(op), more);
    }
  }

  lemma SoloNothing(cap: nat, h: History)
    ensures Solo(cap, Live(h), []) == (Live(h), [])
  {
  }

  lemma Chained(out: seq<byte>, read: seq<byte>, left: seq<byte>, mid: seq<byte>, was: seq<byte>, put: seq<byte>,
                more: seq<byte>)
    requires out + mid == was + put && read + left == mid + more
    ensures (out + read) + left == was + (put + more)
    ensures was + put + more == was + (put + more)
  {
    assert (out + read) + left == out + (read + left) == (out + mid) + more;
  }

  // ----- from the creation of a connection on

  /** A connection created during a run behaves as its own calls on an empty
      history. */
  lemma {:induction false} Birth(cap: nat, slots: seq<Slot>, ops: seq<Op>, id: nat)
    requires LegalRun(cap, slots, ops) && |slots| <= id < |Run(cap, slots, ops).slots|
    ensures var end := Run(cap, slots, ops);
            && |end.answers| == |ops|
            && (end.slots[id], AnswersOf(ops, end.answers, id)) == Solo(cap, Live(NOTHING), Mine(ops, id))
    decreases |ops|
  {
    RunLengths(cap, slots, ops);
    var next, end := After(cap, slots, ops[0]), Run(cap, slots, ops);
    assert end.answers[1..] == Run(cap, next, ops[1..]).answers;
    assert Mine(ops, id) == Mine(ops[1..], id);
    assert AnswersOf(ops, end.answers, id) == AnswersOf(ops[1..], end.answers[1..], id);
    if ops[0].New? && |slots| == id {
      Isolation(cap, next, ops[1..], id);
    } else {
      Birth(cap, next, ops[1..], id);
    }
  }

  lemma {:induction false} MineHasNoNew(ops: seq<Op>, id: nat)
    ensures forall i {:trigger Mine(ops, id)[i]} :: 0 <= i < |Mine(ops, id)| ==>
              !Mine(ops, id)[i].New? && !Mine(ops, id)[i].RecycleAgain?
  {
    if ops == [] {
    } else {
      MineHasNoNew(ops[1..], id);
    }
  }

  lemma {:induction false} LiveToTheEnd(cap: nat, slot: Slot, ops: seq<Op>)
    requires Solo(cap, slot, ops).0.Live?
    requires forall i {:trigger ops[i]} :: 0 <= i < |ops| ==> !ops[i].New? && !ops[i].RecycleAgain?
    ensures slot.Live? && NoRecycle(ops)
    decreases |ops|
  {
    if ops == [] || slot.Gone? {
    } else {
      var next := if ops[0].Recycle? then Gone else Live(Next(cap, slot.h, ops[0]));
      LiveToTheEnd(cap, next, ops[1..]);
      assert ops == [ops[0]] + ops[1..];
    }
  }

  /** The closed form over any run: with W bytes written and R read since its
      creation, a connection that is live at the end has the stream that lies
      between, in ceil(W / cap) - floor(R / cap) mbufs, the first of which has
      been read up to R mod cap; `data_size` lacks the exactly filling writes. */
  lemma RunClosedForm(cap: nat, ops: seq<Op>, id: nat)
    requires cap > 0 && LegalRun(cap, [], ops)
    requires id < |Run(cap, [], ops).slots| && Run(cap, [], ops).slots[id].Live?
    ensures var end, mine := Run(cap, [], ops), Mine(ops, id);
            && |end.answers| == |ops|
            && var mineSaid, h := AnswersOf(ops, end.answers, id), end.slots[id].h;
            && |mineSaid| == |mine|
            && var w, r := WrittenIn(mine), ReadOut(mine, mineSaid);
            && h.Ok() && h.written == w && r + h.Stream() == w
            && |Layout(cap, h).segs| == (|w| + cap - 1) / cap - |r| / cap
            && Layout(cap, h).pos == h.taken % cap == |r| % cap
            && h.drift == ExactFills(cap, 0, mine)
  {
    hide Run, LegalRun, Mine, AnswersOf, Solo, Layout, ReadOut, WrittenIn, NoRecycle, ExactFills;
    var end, mine := Run(cap, [], ops), Mine(ops, id);
    Birth(cap, [], ops, id);
    MineHasNoNew(ops, id);
    LiveToTheEnd(cap, Live(NOTHING), mine);
    SoloStays(cap, NOTHING, mine);
    Conservation(cap, NOTHING, mine);
    Drift(cap, NOTHING, mine);
    assert [] + WrittenIn(mine) == WrittenIn(mine);
    ClosedForm(cap, end.slots[id].h);
  }

  // ----- the drift of data_size in the text as it stands

  /** The summed lengths of the writes among these calls whose last byte exactly
      fills an mbuf, when `n` bytes were written before. */
  ghost function ExactFills(cap: nat, n: nat, ops: seq<Op>): nat
    decreases |ops|
  {
    if ops == [] then 0
    else
      var m := n + |InOf(ops[0])|;
      (if ops[0].WriteAsIs? && m > n && OnBoundary(cap, m) then m - n else 0) + ExactFills(cap, m, ops[1..])
  }

  /** On every run, the bytes in the chain exceed `data_size` by the lengths of
      the exactly filling writes; reads never change that difference. */
  lemma {:induction false} Drift(cap: nat, h: History, ops: seq<Op>)
    requires h.Ok() && NoRecycle(ops)
    ensures var end := Solo(cap, Live(h), ops).0;
            && end.Live? && end.h.Ok()
            && end.h.drift == h.drift + ExactFills(cap, |h.written|, ops)
            && |end.h.Stream()| - SizeOf(end.h) == end.h.drift
    decreases |ops|
  {
    if ops == [] {
    } else {
      ConserveOne(cap, h, ops[0]);
      Drift(cap, Next(cap, h, ops[0]), ops[1..]);
    }
  }

  /** Four bytes written to empty mbufs of 4 are not counted: a read as it
      stands then returns nothing, although all four are there. */
  lemma UncountedExample(data: seq<byte>)
    requires |data| == 4
    ensures var h := WrittenAsIs(4, NOTHING, data);
            h.Stream() == data && SizeOf(h) == 0 && AsIsCount(4, h, 4) == 0
  {
    assert NOTHING.written + data == data;
  }

  // ----- faults of the text as it stands

  /** The read as it stands faults exactly when nothing was written to the
      connection since it was created. */
  lemma FaultIff(cap: nat, ops: seq<Op>, op: Op)
    requires NoRecycle(ops) && op.ReadAsIs?
    ensures var end := Solo(cap, Live(NOTHING), ops).0;
            end.Live? && (Reply(cap, end.h, op) == Fault <==> WrittenIn(ops) == [])
  {
    Conservation(cap, NOTHING, ops);
    assert NOTHING.written + WrittenIn(ops) == WrittenIn(ops);
  }

  /** A connection read before its first byte has come: the text faults. */
  lemma FaultExample(cap: nat, len: nat)
    ensures var ops := [New, ReadAsIs(0, len, 0)];
            LegalRun(cap, [], ops) && Run(cap, [], ops).answers == [Silent, Fault]
  {
    var ops := [New, ReadAsIs(0, len, 0)];
    var slots := [Live(NOTHING)];
    assert After(cap, [], New) == slots && ops[1..] == [ReadAsIs(0, len, 0)] && ops[1..][1..] == [];
    assert After(cap, slots, ops[1]) == slots;
    assert Run(cap, slots, ops[1..]).answers == [Fault] + Run(cap, slots, []).answers;
  }

  /** Four bytes that are not counted, one that is, and a read as it stands of
      three: `data_size` is then below zero, and an intended read of the two
      bytes left passes a negative length on. */
  lemma NegativeExample(data: seq<byte>)
    requires |data| == 5
    ensures var h := WrittenAsIs(4, WrittenAsIs(4, NOTHING, data[..4]), data[4..]);
            && SizeOf(h) == 1 && AsIsCount(4, h, 3) == 3
            && SizeOf(h.Take(3)) == -2 && Reply(4, h.Take(3), Read(0, 2)) == Fault
  {
    hide Greedy;
    assert NOTHING.written + data[..4] + data[4..] == data;
    BeyondSizeExample(data);
  }

  // ----- the cache of recycled connections

  /** Which of the connections of a run are cached, the latest in front. */
  ghost function CacheAfter(cache: seq<nat>, op: Op): seq<nat> {
    match op
    case New => if cache == [] then [] else cache[1..]
    case Recycle(id) => [id] + cache
    case RecycleAgain(id) => [id] + Minus(cache, id)
    case _ => cache
  }

  /** Only cached connections are recycled again. */
  ghost predicate CacheLegal(cache: seq<nat>, ops: seq<Op>)
    decreases |ops|
  {
    ops == [] || ((ops[0].RecycleAgain? ==> ops[0].id in cache) && CacheLegal(CacheAfter(cache, ops[0]), ops[1..]))
  }

  ghost function CacheRun(cache: seq<nat>, ops: seq<Op>): seq<nat>
    decreases |ops|
  {
    if ops == [] then cache else CacheRun(CacheAfter(cache, ops[0]), ops[1..])
  }

  /** How many calls of a run recycle a cached connection. */
  ghost function Agains(ops: seq<Op>): nat {
    if ops == [] then 0 else (if ops[0].RecycleAgain? then 1 else 0) + Agains(ops[1..])
  }

  // ----- the free list of mbufs

  /** How many mbufs a connection of the run holds. */
  ghost function HeldBy(cap: nat, slot: Slot): int {
    if slot.Gone? then 0 else MbufCount(cap, slot.h)
  }

  ghost function Held(cap: nat, slots: seq<Slot>): int {
    if slots == [] then 0 else Held(cap, slots[..|slots| - 1]) + HeldBy(cap, slots[|slots| - 1])
  }

  ghost function FreeOnce(cap: nat, slots: seq<Slot>, op: Op, free: int): int
    requires Legal(cap, slots, op)
  {
    if op.New? then free else FreeAfter(free, HeldBy(cap, slots[op.id]), HeldBy(cap, After(cap, slots, op)[op.id]))
  }

  /** The length of the free list after a run. */
  ghost function FreeRun(cap: nat, slots: seq<Slot>, ops: seq<Op>, free: int): int
    requires LegalRun(cap, slots, ops)
    decreases |ops|
  {
    if ops == [] then free
    else FreeRun(cap, After(cap, slots, ops[0]), ops[1..], FreeOnce(cap, slots, ops[0], free))
  }

  lemma HeldNew(cap: nat, slots: seq<Slot>, slot: Slot)
    ensures Held(cap, slots + [slot]) == Held(cap, slots) + HeldBy(cap, slot)
  {
    assert (slots + [slot])[..|slots|] == slots;
  }

  lemma {:induction false} HeldAt(cap: nat, slots: seq<Slot>, id: nat, slot: Slot)
    requires id < |slots|
    ensures Held(cap, slots[id := slot]) == Held(cap, slots) - HeldBy(cap, slots[id]) + HeldBy(cap, slot)
    decreases |slots|
  {
    var n := |slots| - 1;
    if id == n {
      assert slots[id := slot][..n] == slots[..n];
    } else {
      HeldAt(cap, slots[..n], id, slot);
      assert slots[id := slot][..n] == slots[..n][id := slot];
    }
  }

  lemma NewHoldsNothing(cap: nat, slots: seq<Slot>, free: int)
    requires cap > 0
    ensures Legal(cap, slots, New) && After(cap, slots, New) == slots + [Live(NOTHING)]
    ensures FreeOnce(cap, slots, New, free) == free && Held(cap, After(cap, slots, New)) == Held(cap, slots)
  {
    ModSmall(cap - 1, cap);
    ModSmall(0, cap);
    HeldNew(cap, slots, Live(NOTHING));
  }

  // ----- segmentation

  ghost function PutEach(h: History, chunks: seq<seq<byte>>): History
    decreases |chunks|
  {
    if chunks == [] then h else PutEach(h.Put(chunks[0]), chunks[1..])
  }

  ghost function TakeEach(h: History, lens: seq<nat>): History
    decreases |lens|
  {
    if lens == [] then h else TakeEach(h.Take(ReadCount(h, lens[0], SizeOf(h))), lens[1..])
  }

  ghost function Total(lens: seq<nat>): nat {
    if lens == [] then 0 else lens[0] + Total(lens[1..])
  }

  /** Any split of the same data into writes ends in the same chain. */
  lemma {:induction false} WritesMerge(cap: nat, h: History, chunks: seq<seq<byte>>)
    requires cap > 0 && h.Ok()
    ensures PutEach(h, chunks) == h.Put(Join(chunks)) && PutEach(h, chunks).Ok()
    ensures Layout(cap, PutEach(h, chunks)) == Layout(cap, h.Put(Join(chunks)))
    decreases |chunks|
  {
    if chunks == [] {
      PutNothing(h, []);
    } else {
      WritesMerge(cap, h.Put(chunks[0]), chunks[1..]);
      assert h.written + chunks[0] + Join(chunks[1..]) == h.written + (chunks[0] + Join(chunks[1..]));
    }
  }

  /** Any split of the same total into reads ends in the same chain. */
  lemma {:induction false} ReadsMerge(cap: nat, h: History, lens: seq<nat>)
    requires cap > 0 && h.Ok()
    ensures var n := ReadCount(h, Total(lens), SizeOf(h));
            && TakeEach(h, lens) == h.Take(n) && TakeEach(h, lens).Ok()
            && Layout(cap, TakeEach(h, lens)) == Layout(cap, h.Take(n))
    decreases |lens|
  {
    if lens == [] {
      TakeNothing(h);
    } else {
      var n := ReadCount(h, lens[0], SizeOf(h));
      TakeLeft(h, n);
      ReadsMerge(cap, h.Take(n), lens[1..]);
    }
  }
}
