/** The read loop of con_buf_read as the text has it: every mbuf is asked for
    the whole `len` (base/corvus.c:202), not for what is still wanted. */
module AsWritten {
  import opened Segments

  /** The count that loop returns, with `allow` still to read when an mbuf
      queue of `total` bytes has given up `taken` of them. */
  ghost function Greedy(cap: nat, taken: nat, total: nat, len: nat, allow: int): (n: nat)
    requires cap > 0 && taken <= total
    ensures n <= total - taken
    decreases total - taken
  {
    if taken == total || allow == 0 then 0
    else
      var ret := Min(HeadLeft(cap, taken, total), len);
      if Drains(cap, taken, ret) then ret + Greedy(cap, taken + ret, total, len, allow - ret) else ret
  }

  ghost function GreedyOf(cap: nat, h: History, len: nat, allow: int): (n: nat)
    ensures n <= |h.Stream()|
  {
    if cap == 0 || !h.Ok() then 0 else Greedy(cap, h.taken, |h.written|, len, allow)
  }

  lemma GreedyStops(cap: nat, h: History, len: nat, allow: int)
    requires cap > 0 && h.Ok() && (h.Stream() == [] || allow == 0)
    ensures GreedyOf(cap, h, len, allow) == 0
  {
  }

  lemma GreedyTurn(cap: nat, h: History, len: nat, allow: int, ret: nat)
    requires cap > 0 && h.Ok() && h.Stream() != [] && allow != 0
    requires ret == Min(HeadLeft(cap, h.taken, |h.written|), len)
    ensures h.Take(ret).Ok()
    ensures GreedyOf(cap, h, len, allow) ==
            ret + if Drains(cap, h.taken, ret) then GreedyOf(cap, h.Take(ret), len, allow - ret) else 0
  {
  }

  /** A read that starts on an mbuf boundary returns what is wanted exactly
      when that is a whole number of mbufs. */
  lemma {:induction false} FromBoundary(cap: nat, taken: nat, total: nat, len: nat, allow: nat)
    requires cap > 0 && taken % cap == 0 && 0 < allow < len && allow < total - taken
    ensures Greedy(cap, taken, total, len, allow) >= allow
    ensures Greedy(cap, taken, total, len, allow) == allow <==> allow % cap == 0
    decreases allow
  {
    if allow < cap {
      ModSmall(allow, cap);
    } else {
      ModLess(allow, cap);
      DivModStep(taken, cap, cap);
      if allow == cap {
        ModSmall(0, cap);
      } else {
        FromBoundary(cap, taken + cap, total, len, allow - cap);
      }
    }
  }

  /** When len covers the whole stream, the loop returns the whole stream. */
  lemma {:induction false} AllOfIt(cap: nat, taken: nat, total: nat, len: nat)
    requires cap > 0 && taken <= total && len >= total - taken
    ensures Greedy(cap, taken, total, len, total - taken) == total - taken
    decreases total - taken
  {
    if taken == total {
    } else {
      var ret := Min(HeadLeft(cap, taken, total), len);
      if taken % cap + ret == cap {
        AllOfIt(cap, taken + ret, total, len);
      }
    }
  }

  /** When the loop returns what was asked for, in numbers known before the
      call: `data_size` is not negative, and the least of `len` and `data_size`
      is nothing, or the whole stream, or a length that lies within the head
      mbuf, or one that ends on an mbuf boundary. */
  ghost predicate Exact(cap: nat, taken: nat, total: nat, len: nat, size: int)
    requires cap > 0 && taken <= total
  {
    var asked := Min(len, size);
    size >= 0 &&
    (asked == 0 || asked == total - taken || len <= Min(HeadLeft(cap, taken, total), size) || (taken + asked) % cap == 0)
  }

  /** For any `data_size` that the stream covers, the loop returns
      min(len, data_size) under that condition, and else more. */
  lemma ReturnsWhatWasAsked(cap: nat, taken: nat, total: nat, len: nat, size: int)
    requires cap > 0 && size <= total - taken && taken <= total
    ensures var n, asked := Greedy(cap, taken, total, len, Min(len, size)), Min(len, size);
            if Exact(cap, taken, total, len, size) then n == asked else n > asked
  {
    var asked := Min(len, size);
    if asked == total - taken {
      AllOfIt(cap, taken, total, len);
    } else if 0 < asked {
      if asked > HeadLeft(cap, taken, total) {
        BeyondHead(cap, taken, total, len, asked);
      } else {
        WithinHead(cap, taken, total, len, asked);
      }
    }
  }

  lemma BeyondHead(cap: nat, taken: nat, total: nat, len: nat, asked: nat)
    requires cap > 0 && taken <= total && HeadLeft(cap, taken, total) < asked < total - taken && asked <= len
    ensures var n := Greedy(cap, taken, total, len, asked);
            n >= asked && (n == asked <==> (taken + asked) % cap == 0)
  {
    var left := HeadLeft(cap, taken, total);
    DivModStep(taken, left, cap);
    FromBoundary(cap, taken + left, total, len, asked - left);
    ModShift(taken + left, asked - left, cap);
    assert taken + asked == (taken + left) + (asked - left);
  }

  lemma WithinHead(cap: nat, taken: nat, total: nat, len: nat, asked: nat)
    requires cap > 0 && taken <= total && asked <= len
    requires 0 < asked <= HeadLeft(cap, taken, total) && asked < total - taken
    ensures var n := Greedy(cap, taken, total, len, asked);
            n >= asked && (n == asked <==> len == asked || (taken + asked) % cap == 0)
  {
    DivModStep(taken, asked, cap);
  }

  /** From an mbuf boundary, with a length of at least one mbuf: exactly what is
      wanted if that is a whole number of mbufs, else everything. */
  lemma {:induction false} BoundaryIs(cap: nat, taken: nat, total: nat, len: nat, allow: int)
    requires cap > 0 && taken % cap == 0 && taken <= total && len >= cap && allow <= total - taken
    ensures Greedy(cap, taken, total, len, allow) ==
            if allow == 0 then 0 else if allow > 0 && allow % cap == 0 then allow else total - taken
    decreases total - taken
  {
    if taken == total || allow == 0 {
    } else if total - taken < cap {
      if allow > 0 {
        ModSmall(allow, cap);
      }
    } else {
      DivModStep(taken, cap, cap);
      BoundaryIs(cap, taken + cap, total, len, allow - cap);
      if allow >= cap {
        ModLess(allow, cap);
      } else if allow > 0 {
        ModSmall(allow, cap);
      }
      ModSmall(0, cap);
    }
  }

  /** The count in closed form.  A length below what is left in the head mbuf is
      read as it is.  Otherwise the head is read, and then, unless that was the
      whole stream or all that was wanted: with a length below one mbuf, one
      more piece of that length; with a longer one exactly what was wanted if
      that ends on an mbuf boundary, and everything if it does not. */
  lemma GreedyIs(cap: nat, taken: nat, total: nat, len: nat, allow: int)
    requires cap > 0 && taken <= total && allow <= total - taken
    ensures var size, room := total - taken, cap - taken % cap;
            var left := if room < size then room else size;
            Greedy(cap, taken, total, len, allow) ==
            if size == 0 || allow == 0 then 0
            else if len < left then len
            else if left == size || allow == left then left
            else if len < cap then left + if len < size - left then len else size - left
            else if allow > left && (taken + allow) % cap == 0 then allow
            else size
  {
    var size, left := total - taken, HeadLeft(cap, taken, total);
    if size != 0 && allow != 0 && len >= left && left < size && allow != left {
      DivModStep(taken, left, cap);
      if len < cap {
        ModSmall(0, cap);
      } else {
        BoundaryIs(cap, taken + left, total, len, allow - left);
        if allow > left {
          ModShift(taken + left, allow - left, cap);
          assert taken + allow == (taken + left) + (allow - left);
        }
      }
    }
  }

  /** The condition again, of a history and the chain that it lays out. */
  ghost predicate ReadsExactly(cap: nat, h: History, len: nat, size: int)
  {
    && cap > 0 && h.Ok()
    && var c, asked := Layout(cap, h), Min(len, size);
       var head := if c.segs == [] then 0 else |c.segs[0]| - c.pos;
       size >= 0 &&
       (asked == 0 || asked == |h.Stream()| || len <= Min(head, size) || OnBoundary(cap, h.taken + asked))
  }

  /** The read as it stands returns min(len, data_size) exactly when that is
      nothing, or the whole stream, or lies within the head mbuf with
      `len` not above `data_size`, or ends on an mbuf boundary; in every other
      case it returns, and copies, more. */
  lemma ReadAsWrittenIff(cap: nat, h: History, len: nat, size: int)
    requires cap > 0 && h.Ok() && size <= |h.Stream()|
    ensures var n, asked := GreedyOf(cap, h, len, Min(len, size)), Min(len, size);
            if ReadsExactly(cap, h, len, size) then n == asked else n > asked
  {
    hide Greedy;
    ReturnsWhatWasAsked(cap, h.taken, |h.written|, len, size);
    LayoutShape(cap, h);
    if h.Stream() != [] {
      HeadHolds(cap, h);
    }
  }

  /** Asked for 5 of 12 bytes that lie in mbufs of 4, the read as it stands
      returns more. */
  lemma OverreadExample(data: seq<byte>)
    requires |data| == 12
    ensures GreedyOf(4, History(data, 0, 0), 5, 5) > 5
  {
    hide Greedy;
    ReturnsWhatWasAsked(4, 0, 12, 5, 5);
  }

  /** Four of five bytes are not counted, `data_size` is 1, and all five lie in
      mbufs of 4: asked for 3, within the head mbuf, the read as it stands
      returns 3 and leaves `data_size` at -2. */
  lemma BeyondSizeExample(data: seq<byte>)
    requires |data| == 5
    ensures GreedyOf(4, History(data, 0, 4), 3, 1) == 3
  {
    hide Greedy;
    GreedyTurn(4, History(data, 0, 4), 3, 1, 3);
  }
}
