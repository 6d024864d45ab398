/** Sequence edits, used to say what queue operations do. */
module Sequences {

  ghost predicate Distinct<T>(s: seq<T>) {
    forall i, j :: 0 <= i < j < |s| ==> s[i] != s[j]
  }

  ghost function Without<T>(s: seq<T>, k: nat): seq<T>
    requires k < |s|
  {
    s[..k] + s[k + 1..]
  }

  lemma {:induction false} DistinctOnce<T>(s: seq<T>)
    requires Distinct(s)
    ensures multiset(s) == multiset(SetOf(s))
  {
    if s == [] {
    } else {
      DistinctTail(s);
      DistinctOnce(s[1..]);
      assert s == [s[0]] + s[1..] && SetOf(s) == {s[0]} + SetOf(s[1..]);
    }
  }

  /** The sequence without the first occurrence of x, if it has one. */
  ghost function Minus<T>(s: seq<T>, x: T): seq<T> {
    if s == [] then [] else if s[0] == x then s[1..] else [s[0]] + Minus(s[1..], x)
  }

  lemma {:induction false} MinusAbsent<T>(s: seq<T>, x: T)
    requires x !in s
    ensures Minus(s, x) == s
  {
    if s == [] {
    } else {
      MinusAbsent(s[1..], x);
    }
  }

  lemma {:induction false} MinusAt<T>(s: seq<T>, k: nat)
    requires Distinct(s) && k < |s|
    ensures Minus(s, s[k]) == Without(s, k)
  {
    hide Distinct;
    if k == 0 {
    } else {
      DistinctTail(s);
      DistinctFrom(s, k);
      MinusAt(s[1..], k - 1);
      assert Without(s, k) == [s[0]] + Without(s[1..], k - 1);
    }
  }

  lemma {:induction false} MinusCount<T>(s: seq<T>, x: T)
    ensures |Minus(s, x)| == |s| - if x in s then 1 else 0
    ensures forall y :: y in Minus(s, x) ==> y in s
  {
    if s == [] {
    } else {
      MinusCount(s[1..], x);
    }
  }

  ghost function Insert<T>(s: seq<T>, k: nat, x: T): seq<T>
    requires k <= |s|
  {
    s[..k] + [x] + s[k..]
  }

  ghost function Reverse<T>(s: seq<T>): (r: seq<T>)
    ensures |r| == |s|
  {
    seq(|s|, i requires 0 <= i < |s| => s[|s| - 1 - i])
  }

  lemma ReverseOne<T>(s: seq<T>)
    ensures Reverse(s[..0]) == [] && (s != [] ==> Reverse(s[..1]) == [s[0]])
  {
  }

  lemma ReverseBoth<T>(a: seq<T>, b: seq<T>)
    ensures Reverse(a + b) == Reverse(b) + Reverse(a)
  {
  }

  lemma ReverseAt<T>(s: seq<T>)
    ensures forall i {:trigger Reverse(s)[i]} :: 0 <= i < |s| ==> Reverse(s)[i] == s[|s| - 1 - i]
  {
  }

  /** The sequence s with `piece` copied over it at offset `at`. */
  ghost function Overwrite<T>(s: seq<T>, at: nat, piece: seq<T>): seq<T>
    requires at + |piece| <= |s|
  {
    s[..at] + piece + s[at + |piece|..]
  }

  /** The bytes were copied to the front of a large enough destination, and
      nothing behind them changed. */
  ghost predicate Delivered<T>(before: seq<T>, after: seq<T>, bytes: seq<T>) {
    |bytes| <= |before| && after == Overwrite(before, 0, bytes)
  }

  /** Overwrite, index by index. */
  lemma OverwriteAt<T>(s: seq<T>, at: nat, piece: seq<T>)
    requires at + |piece| <= |s|
    ensures var r := Overwrite(s, at, piece);
            && |r| == |s|
            && (forall i {:trigger piece[i]} :: 0 <= i < |piece| ==> r[at + i] == piece[i])
            && (forall i {:trigger r[i]} :: 0 <= i < |s| && !(at <= i < at + |piece|) ==> r[i] == s[i])
  {
  }

  lemma DeliveredAt<T>(before: seq<T>, after: seq<T>, bytes: seq<T>)
    requires Delivered(before, after, bytes)
    ensures |bytes| <= |before| == |after|
    ensures forall i {:trigger after[i]} :: 0 <= i < |after| ==> after[i] == if i < |bytes| then bytes[i] else before[i]
  {
  }

  lemma PiecesInRow<T>(s: seq<T>, m: nat, n: nat)
    requires m + n <= |s|
    ensures s[..m] + s[m..][..n] == s[..m + n] && s[..m] + s[m..][..n] <= s && s[m..][n..] == s[m + n..]
  {
  }

  ghost function SetOf<T>(s: seq<T>): set<T> {
    set x | x in s
  }

  lemma DistinctNil<T>()
    ensures Distinct<T>([])
  {
  }

  lemma DistinctCons<T>(x: T, s: seq<T>)
    requires Distinct(s) && x !in s
    ensures Distinct([x] + s)
  {
  }

  lemma DistinctSnoc<T>(s: seq<T>, x: T)
    requires Distinct(s) && x !in s
    ensures Distinct(s + [x])
  {
  }

  lemma DistinctTail<T>(s: seq<T>)
    requires Distinct(s) && s != []
    ensures Distinct(s[1..]) && s[0] !in s[1..]
  {
  }

  lemma DistinctFrom<T>(s: seq<T>, k: nat)
    requires Distinct(s) && k < |s|
    ensures forall i {:trigger s[i]} :: 0 <= i < |s| && i != k ==> s[i] != s[k]
  {
  }

  lemma InsertDistinct<T>(s: seq<T>, k: nat, x: T)
    requires k <= |s| && Distinct(s) && x !in s
    ensures Distinct(Insert(s, k, x))
  {
  }

  lemma DistinctWithout<T>(s: seq<T>, k: nat)
    requires Distinct(s) && k < |s|
    ensures s[k] !in Without(s, k) && |Without(s, k)| == |s| - 1
    ensures forall x :: x in Without(s, k) ==> x in s
  {
  }

  lemma WithoutFirst<T>(s: seq<T>)
    requires s != []
    ensures Without(s, 0) == s[1..]
  {
  }

  lemma OverwriteNothing<T>(s: seq<T>, p: seq<T>)
    ensures Overwrite(s, 0, p[..0]) == s
  {
  }

  lemma OverwriteAgain<T>(s: seq<T>, p: seq<T>, q: seq<T>)
    requires |p| + |q| <= |s|
    ensures Overwrite(Overwrite(s, 0, p), |p|, q) == Overwrite(s, 0, p + q)
  {
  }

  lemma DeliveredNothing<T>(s: seq<T>, p: seq<T>)
    ensures Delivered(s, s, p[..0])
  {
    OverwriteNothing(s, p);
  }
}
