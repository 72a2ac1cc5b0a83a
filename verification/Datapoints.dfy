/**
 Datapoints and sequences of datapoints: the vocabulary every other module is stated in.

 A timestamp is a 64-bit integer; sums of timestamps and durations are mathematical integers.
 Values are real numbers plus one NaN.
 */
module Datapoints {

  const INT64_MIN: int := -0x8000_0000_0000_0000
  const INT64_MAX: int := 0x7FFF_FFFF_FFFF_FFFF

  type Timestamp = t: int | INT64_MIN <= t <= INT64_MAX

  datatype Value = NaN | Num(x: real)

  datatype Datapoint = Datapoint(timestamp: Timestamp, value: Value, duration: nat)

  type Points = seq<Datapoint>

  /** The first instant a point no longer covers; a point of duration zero covers one tick. */
  function EndOf(p: Datapoint): int {
    p.timestamp + if p.duration != 0 then p.duration else 1
  }

  /** Where a read goes on after having emitted `out`. */
  function NextAfter(next: int, out: Points): int {
    if out == [] then next else EndOf(out[|out| - 1])
  }

  function Min(a: int, b: int): int {
    if a <= b then a else b
  }

  function Max(a: int, b: int): int {
    if a <= b then b else a
  }

  /** The first `n` elements, or all of them when there are fewer. */
  function Take<T>(s: seq<T>, n: nat): seq<T> {
    if n < |s| then s[..n] else s
  }

  ghost predicate Ordered(s: Points) {
    forall i, j :: 0 <= i < j < |s| ==> s[i].timestamp <= s[j].timestamp
  }

  ghost predicate StrictlyOrdered(s: Points) {
    forall i, j :: 0 <= i < j < |s| ==> s[i].timestamp < s[j].timestamp
  }

  /** No point starts before an earlier one has ended. */
  ghost predicate NonOverlapping(s: Points) {
    forall i, j :: 0 <= i < j < |s| ==> EndOf(s[i]) <= s[j].timestamp
  }

  /** Every point of `a` is earlier than every point of `b`. */
  ghost predicate Before(a: Points, b: Points) {
    forall i, j :: 0 <= i < |a| && 0 <= j < |b| ==> a[i].timestamp < b[j].timestamp
  }

  ghost predicate AllBelow(s: Points, t: int) {
    forall i :: 0 <= i < |s| ==> s[i].timestamp < t
  }

  ghost predicate AllAtLeast(s: Points, t: int) {
    forall i :: 0 <= i < |s| ==> s[i].timestamp >= t
  }

  /** The points at one timestamp, in the order they stand in `s`. */
  function AtTime(s: Points, t: int): Points {
    if s == [] then [] else (if s[0].timestamp == t then [s[0]] else []) + AtTime(s[1..], t)
  }

  /** The points of `s` in the half-open window [lo, hi). */
  function Window(s: Points, lo: int, hi: int): Points {
    if s == [] then [] else (if lo <= s[0].timestamp < hi then [s[0]] else []) + Window(s[1..], lo, hi)
  }

  /** std::lower_bound: how many leading points are earlier than `t`. */
  function LowerBound(s: Points, t: int): (k: nat)
    ensures k <= |s|
    ensures forall j :: 0 <= j < k ==> s[j].timestamp < t
    ensures k < |s| ==> s[k].timestamp >= t
  {
    if s == [] || s[0].timestamp >= t then 0 else 1 + LowerBound(s[1..], t)
  }

  /** std::upper_bound from `from` on: the first position whose point is later than `t`. */
  function UpperBound(s: Points, from: nat, t: int): (k: nat)
    requires from <= |s|
    ensures from <= k <= |s|
    ensures forall j :: from <= j < k ==> s[j].timestamp <= t
    ensures k < |s| ==> s[k].timestamp > t
    decreases |s| - from
  {
    if from == |s| || s[from].timestamp > t then from else UpperBound(s, from + 1, t)
  }

  lemma {:induction false} UpperBoundFrom(s: Points, from: nat, from': nat, t: int)
    requires from <= from' <= |s| && from' <= UpperBound(s, from, t)
    ensures UpperBound(s, from', t) == UpperBound(s, from, t)
    decreases from' - from
  {
    if from < from' {
      UpperBoundFrom(s, from + 1, from', t);
    }
  }

  /** The points of a batch that are kept: NaN values are not. */
  function Kept(batch: Points): Points {
    if batch == [] then []
    else (if batch[0].value.NaN? then [] else [batch[0]]) + Kept(batch[1..])
  }

  /** What the sorted flag is computed from: each kept point against the one before it in its batch. */
  predicate InOrder(s: Points) {
    |s| <= 1 || (s[0].timestamp <= s[1].timestamp && InOrder(s[1..]))
  }

  lemma {:induction false} EmptyLeft<T>(b: seq<T>)
    ensures [] + b == b
  {
  }

  lemma {:induction false} Assoc<T>(a: seq<T>, b: seq<T>, c: seq<T>)
    ensures (a + b) + c == a + (b + c)
  {
  }

  /** A point moves from the front of what is left to the end of what is done. */
  lemma {:induction false} Shift(before: Points, out: Points, p: Datapoint, rest: Points)
    ensures (before + out) + [p] == before + (out + [p])
    ensures out + ([p] + rest) == (out + [p]) + rest
  {
  }

  // ---- AtTime ----

  lemma {:induction false} AtTimeConcat(a: Points, b: Points, t: int)
    ensures AtTime(a + b, t) == AtTime(a, t) + AtTime(b, t)
  {
    if a == [] {
      EmptyLeft(b);
      EmptyLeft(AtTime(b, t));
    } else {
      assert (a + b)[1..] == a[1..] + b;
      AtTimeConcat(a[1..], b, t);
      Assoc(if a[0].timestamp == t then [a[0]] else [], AtTime(a[1..], t), AtTime(b, t));
    }
  }

  lemma {:induction false} AtTimeSplit(s: Points, c: nat, d: nat, t: int)
    requires c <= d <= |s|
    ensures AtTime(s[c..], t) == AtTime(s[c..d], t) + AtTime(s[d..], t)
  {
    assert s[c..] == s[c..d] + s[d..];
    AtTimeConcat(s[c..d], s[d..], t);
  }

  lemma {:induction false} AtTimeNone(s: Points, t: int)
    requires forall i :: 0 <= i < |s| ==> s[i].timestamp != t
    ensures AtTime(s, t) == []
  {
    if s != [] {
      AtTimeNone(s[1..], t);
    }
  }

  lemma {:induction false} AtTimeAll(s: Points, t: int)
    requires forall i :: 0 <= i < |s| ==> s[i].timestamp == t
    ensures AtTime(s, t) == s
  {
    if s != [] {
      AtTimeAll(s[1..], t);
    }
  }

  lemma {:induction false} AtTimeMember(s: Points, t: int)
    ensures forall p :: p in AtTime(s, t) <==> p in s && p.timestamp == t
  {
    if s != [] {
      AtTimeMember(s[1..], t);
    }
  }

  /** Two ordered sequences that agree at every timestamp are the same sequence. */
  lemma {:induction false} OrderedUnique(a: Points, b: Points)
    requires Ordered(a) && Ordered(b)
    requires forall t: int :: AtTime(a, t) == AtTime(b, t)
    ensures a == b
  {
    BothEmpty(a, b);
    if a != [] {
      SameHead(a, b);
      forall t: int ensures AtTime(a[1..], t) == AtTime(b[1..], t) {
        assert AtTime(a, t) == AtTime(b, t);
        assert AtTime(a, t)[|AtTime(a, t)| - |AtTime(a[1..], t)|..] == AtTime(a[1..], t);
        assert AtTime(b, t)[|AtTime(b, t)| - |AtTime(b[1..], t)|..] == AtTime(b[1..], t);
      }
      OrderedUnique(a[1..], b[1..]);
    }
  }

  lemma {:induction false} BothEmpty(a: Points, b: Points)
    requires forall t: int :: AtTime(a, t) == AtTime(b, t)
    ensures a == [] <==> b == []
  {
    if a != [] {
      AtTimeMember(b, a[0].timestamp);
      assert a[0] in AtTime(a, a[0].timestamp);
    }
    if b != [] {
      AtTimeMember(a, b[0].timestamp);
      assert b[0] in AtTime(b, b[0].timestamp);
    }
  }

  lemma {:induction false} SameHead(a: Points, b: Points)
    requires Ordered(a) && Ordered(b) && a != [] && b != []
    requires forall t: int :: AtTime(a, t) == AtTime(b, t)
    ensures a[0] == b[0]
  {
    var ta, tb := a[0].timestamp, b[0].timestamp;
    assert a[0] in AtTime(b, ta) by { assert AtTime(a, ta) == AtTime(b, ta); }
    assert b[0] in AtTime(a, tb) by { assert AtTime(a, tb) == AtTime(b, tb); }
    AtTimeMember(b, ta);
    AtTimeMember(a, tb);
    assert AtTime(a, ta)[0] == a[0];
  }

  // ---- Window ----

  lemma {:induction false} WindowConcat(a: Points, b: Points, lo: int, hi: int)
    ensures Window(a + b, lo, hi) == Window(a, lo, hi) + Window(b, lo, hi)
  {
    if a == [] {
      EmptyLeft(b);
      EmptyLeft(Window(b, lo, hi));
    } else {
      assert (a + b)[1..] == a[1..] + b;
      WindowConcat(a[1..], b, lo, hi);
    }
  }

  lemma {:induction false} WindowNone(s: Points, lo: int, hi: int)
    requires forall i :: 0 <= i < |s| ==> !(lo <= s[i].timestamp < hi)
    ensures Window(s, lo, hi) == []
  {
    if s != [] {
      WindowNone(s[1..], lo, hi);
    }
  }

  lemma {:induction false} WindowAll(s: Points, lo: int, hi: int)
    requires forall i :: 0 <= i < |s| ==> lo <= s[i].timestamp < hi
    ensures Window(s, lo, hi) == s
  {
    if s != [] {
      WindowAll(s[1..], lo, hi);
    }
  }

  lemma {:induction false} WindowMember(s: Points, lo: int, hi: int)
    ensures forall p :: p in Window(s, lo, hi) <==> p in s && lo <= p.timestamp < hi
  {
    if s != [] {
      WindowMember(s[1..], lo, hi);
    }
  }

  /** Points that do not overlap do not overlap in any window. */
  lemma {:induction false} WindowDisjoint(s: Points, lo: int, hi: int)
    requires NonOverlapping(s)
    ensures NonOverlapping(Window(s, lo, hi))
  {
    if s != [] {
      var rest := s[1..];
      assert forall i :: 0 <= i < |rest| ==> rest[i] == s[i + 1];
      WindowDisjoint(rest, lo, hi);
      WindowMember(rest, lo, hi);
      var w := Window(rest, lo, hi);
      forall j | 0 <= j < |w| ensures EndOf(s[0]) <= w[j].timestamp {
        assert w[j] in rest;
      }
    }
  }

  /** Raising the lower edge of a window filters it again. */
  lemma {:induction false} WindowOfWindow(s: Points, lo: int, lo': int, hi: int)
    requires lo <= lo'
    ensures Window(Window(s, lo, hi), lo', hi) == Window(s, lo', hi)
  {
    if s != [] {
      WindowOfWindow(s[1..], lo, lo', hi);
      var head := if lo <= s[0].timestamp < hi then [s[0]] else [];
      WindowConcat(head, Window(s[1..], lo, hi), lo', hi);
      if head == [] {
        assert Window(head, lo', hi) == [];
      } else {
        assert head[1..] == [];
        assert Window(head, lo', hi) == if lo' <= s[0].timestamp < hi then [s[0]] else [];
      }
    }
  }

  /** What is left of a non-overlapping sequence after its first `k` points. */
  lemma {:induction false} WindowDrop(w: Points, k: nat, hi: int)
    requires NonOverlapping(w) && 1 <= k <= |w|
    requires forall i :: 0 <= i < |w| ==> w[i].timestamp < hi
    ensures Window(w, EndOf(w[k - 1]), hi) == w[k..]
  {
    var next := EndOf(w[k - 1]);
    assert w == w[..k] + w[k..];
    WindowConcat(w[..k], w[k..], next, hi);
    WindowNone(w[..k], next, hi) by {
      forall i | 0 <= i < k ensures w[i].timestamp < next {
        assert i < k - 1 ==> EndOf(w[i]) <= w[k - 1].timestamp;
      }
    }
    WindowAll(w[k..], next, hi);
  }

  /** What is left of a non-overlapping window once its first `k` points have been emitted. */
  lemma {:induction false} WindowResume(s: Points, lo: int, hi: int, k: nat)
    requires NonOverlapping(Window(s, lo, hi)) && 1 <= k <= |Window(s, lo, hi)|
    ensures Window(s, EndOf(Window(s, lo, hi)[k - 1]), hi) == Window(s, lo, hi)[k..]
  {
    var w := Window(s, lo, hi);
    WindowMember(s, lo, hi);
    assert forall i :: 0 <= i < |w| ==> w[i] in w;
    WindowDrop(w, k, hi);
    WindowOfWindow(s, lo, EndOf(w[k - 1]), hi);
  }

  // ---- Order ----

  lemma {:induction false} InOrderIsOrdered(s: Points)
    ensures InOrder(s) <==> Ordered(s)
  {
    if |s| > 1 {
      var rest := s[1..];
      InOrderIsOrdered(rest);
      if s[0].timestamp <= s[1].timestamp && Ordered(rest) {
        forall i, j | 0 <= i < j < |s| ensures s[i].timestamp <= s[j].timestamp {
          assert rest[0] == s[1] && rest[j - 1] == s[j];
          if i > 0 {
            assert rest[i - 1] == s[i];
          }
        }
      }
      if Ordered(s) {
        assert forall i :: 0 <= i < |rest| ==> rest[i] == s[i + 1];
      }
    }
  }

  lemma {:induction false} OrderedConcat(a: Points, b: Points)
    ensures Ordered(a + b) <==>
      (Ordered(a) && Ordered(b) && (a != [] && b != [] ==> a[|a| - 1].timestamp <= b[0].timestamp))
  {
    var s := a + b;
    assert forall i :: 0 <= i < |a| ==> s[i] == a[i];
    assert forall i :: 0 <= i < |b| ==> s[|a| + i] == b[i];
    if Ordered(a) && Ordered(b) && (a != [] && b != [] ==> a[|a| - 1].timestamp <= b[0].timestamp) {
      forall i, j | 0 <= i < j < |s| ensures s[i].timestamp <= s[j].timestamp {
        if i < |a| <= j {
          assert a[i].timestamp <= a[|a| - 1].timestamp <= b[0].timestamp <= b[j - |a|].timestamp;
        } else if i >= |a| {
          assert s[i] == b[i - |a|] && s[j] == b[j - |a|];
        }
      }
    }
  }
}
