/**
 Positional files: a dense file stores one value per slot, a constant file only a count.

 Both answer a read by position. They align the start of the window to a multiple of the duration
 counted from time zero and give one point per value from there on. The results about windows say
 exactly when that is the window of the points the file stands for, whatever its slots hold.
 */
module PositionalFiles {
  import opened Numbers
  import opened Datapoints
  import opened Reads
  import opened CppDivision

  /** Points one duration apart from `t` on, each lasting that long. */
  predicate OnGrid(pts: Points, t: int, dur: nat) {
    pts == [] || (pts[0].timestamp == t && pts[0].duration == dur && OnGrid(pts[1..], t + dur, dur))
  }

  function Values(pts: Points): (vs: seq<Value>)
    ensures |vs| == |pts|
  {
    seq(|pts|, i requires 0 <= i < |pts| => pts[i].value)
  }

  function Repeat(v: Value, n: nat): (vs: seq<Value>)
    ensures |vs| == n
  {
    seq(n, _ => v)
  }

  predicate NoNaN(vs: seq<Value>) {
    forall i :: 0 <= i < |vs| ==> vs[i].Num?
  }

  /**
   What a loop over the values of a file emits: a NaN gives no point and does not move the clock.
   The clock stays a 64-bit integer in every read; see `DenseFile.Read`.
   */
  function Emit(vs: seq<Value>, t: int, dur: nat): Points {
    if vs == [] || !(INT64_MIN <= t <= INT64_MAX) then []
    else if vs[0].NaN? then Emit(vs[1..], t, dur)
    else [Datapoint(t, vs[0], dur)] + Emit(vs[1..], t + dur, dur)
  }

  /** What the slots stand for: each has its own time, whether or not those before it are filled. */
  function Meaning(vs: seq<Value>, t: int, dur: nat): Points {
    if vs == [] || !(INT64_MIN <= t <= INT64_MAX) then []
    else (if vs[0].NaN? then [] else [Datapoint(t, vs[0], dur)]) + Meaning(vs[1..], t + dur, dur)
  }

  /** All times of `n` slots are 64-bit integers. */
  predicate InRange(t: int, n: nat, dur: nat)
    decreases n
  {
    n == 0 || (INT64_MIN <= t <= INT64_MAX && InRange(t + dur, n - 1, dur))
  }

  /** No value stands behind a NaN. */
  predicate OnlyTrailing(vs: seq<Value>) {
    vs == [] || (if vs[0].NaN? then AllNaN(vs) else OnlyTrailing(vs[1..]))
  }

  predicate AllNaN(vs: seq<Value>) {
    vs == [] || (vs[0].NaN? && AllNaN(vs[1..]))
  }

  // ---- What is emitted ----

  lemma {:induction false} EmitOnGrid(vs: seq<Value>, t: int, dur: nat)
    ensures OnGrid(Emit(vs, t, dur), t, dur)
    ensures |Emit(vs, t, dur)| <= |vs|
  {
    if vs == [] || !(INT64_MIN <= t <= INT64_MAX) {
    } else if vs[0].NaN? {
      EmitOnGrid(vs[1..], t, dur);
    } else {
      EmitOnGrid(vs[1..], t + dur, dur);
      assert Emit(vs, t, dur)[1..] == Emit(vs[1..], t + dur, dur);
    }
  }

  lemma {:induction false} ValuesRest(pts: Points)
    requires pts != []
    ensures Values(pts)[1..] == Values(pts[1..]) && Values(pts)[0] == pts[0].value
  {
  }

  /** Emitting the values of some points gives the points back exactly when they are on the grid. */
  lemma {:induction false} EmitExact(pts: Points, t: int, dur: nat)
    requires NoNaN(Values(pts))
    ensures Emit(Values(pts), t, dur) == pts <==> OnGrid(pts, t, dur)
  {
    EmitOnGrid(Values(pts), t, dur);
    if OnGrid(pts, t, dur) {
      EmitGrid(pts, t, dur);
    }
  }

  lemma {:induction false} EmitGrid(pts: Points, t: int, dur: nat)
    requires NoNaN(Values(pts)) && OnGrid(pts, t, dur)
    ensures Emit(Values(pts), t, dur) == pts
  {
    if pts != [] {
      ValuesRest(pts);
      assert Values(pts)[0].Num?;
      assert NoNaN(Values(pts[1..]));
      EmitGrid(pts[1..], t + dur, dur);
    }
  }

  /** As many points as values means that no value was skipped. */
  lemma {:induction false} EmitInjective(vs: seq<Value>, t: int, dur: nat)
    requires |Emit(vs, t, dur)| == |vs|
    ensures Values(Emit(vs, t, dur)) == vs
  {
    if vs != [] {
      var rest := vs[1..];
      if !(INT64_MIN <= t <= INT64_MAX) {
        assert false;
      }
      if vs[0].NaN? {
        EmitOnGrid(rest, t, dur);
        assert false;
      }
      assert Emit(vs, t, dur)[1..] == Emit(rest, t + dur, dur);
      EmitInjective(rest, t + dur, dur);
      ValuesRest(Emit(vs, t, dur));
      assert Values(Emit(vs, t, dur)) == [vs[0]] + rest;
    }
  }

  /** As many values as points give the points back exactly when they are on the grid and the values are theirs. */
  lemma {:induction false} EmitBack(vs: seq<Value>, pts: Points, t: int, dur: nat)
    requires |vs| == |pts| && NoNaN(Values(pts))
    ensures Emit(vs, t, dur) == pts <==> OnGrid(pts, t, dur) && vs == Values(pts)
  {
    if Emit(vs, t, dur) == pts {
      EmitOnGrid(vs, t, dur);
      EmitInjective(vs, t, dur);
    }
    if OnGrid(pts, t, dur) && vs == Values(pts) {
      EmitGrid(pts, t, dur);
    }
  }

  /**
   Padding in front of a value moves it to an earlier time: the slots are read back right if and only
   if no value stands behind a NaN.
   */
  lemma {:induction false} PaddingExact(vs: seq<Value>, t: int, dur: Pos)
    requires InRange(t, |vs|, dur)
    ensures Emit(vs, t, dur) == Meaning(vs, t, dur) <==> OnlyTrailing(vs)
  {
    if vs != [] {
      var rest := vs[1..];
      if vs[0].NaN? {
        MeaningLater(rest, t + dur, dur);
        EmitOnGrid(rest, t, dur);
        EmptyLeft(Meaning(rest, t + dur, dur));
        InRangeShorter(t, |vs|, |rest|, dur);
        EmitsNothing(rest, t, dur);
      } else {
        PaddingExact(rest, t + dur, dur);
        assert Emit(vs, t, dur)[1..] == Emit(rest, t + dur, dur);
        assert Meaning(vs, t, dur)[1..] == Meaning(rest, t + dur, dur);
      }
    }
  }

  lemma {:induction false} MeaningLater(vs: seq<Value>, t: int, dur: nat)
    requires InRange(t, |vs|, dur)
    ensures Meaning(vs, t, dur) == [] <==> AllNaN(vs)
    ensures Meaning(vs, t, dur) != [] ==> Meaning(vs, t, dur)[0].timestamp >= t
  {
    if vs != [] {
      MeaningLater(vs[1..], t + dur, dur);
    }
  }

  // ---- One window ----

  datatype ReadResult = Got(points: Points) | Failed

  /** Elements `a` to `b`, as far as there are any; a read that meets the end of a file is short. */
  function Cut<T>(s: seq<T>, a: nat, b: nat): seq<T> {
    if s == [] || b == 0 then []
    else if a == 0 then [s[0]] + Cut(s[1..], 0, b - 1)
    else Cut(s[1..], a - 1, b - 1)
  }

  function DenseRead(min: int, max: int, dur: Pos, slots: seq<Value>, lo: int, end: int): ReadResult {
    var next := AlignUp(lo, dur);
    if max < next then Got([])
    else
      var off, n := TDiv(next - min, dur), TDiv(Min(max, end) - next, dur);
      if off < 0 || n < 0 then Failed else Got(Emit(Cut(slots, off, off + n), next, dur))
  }

  /** A negative count is a loop that wraps around and runs past every buffer. */
  function ConstantRead(max: int, dur: Pos, value: real, lo: int, end: int): ReadResult {
    var next := AlignUp(lo, dur);
    if max < next then Got([])
    else
      var n := TDiv(Min(max, end) - next, dur);
      if n < 0 then Failed else Got(Emit(Repeat(Num(value), n), next, dur))
  }

  /** When a positional read of a file from `min` to `max` is right, for a window that meets the file. */
  predicate ReadsRight(min: int, max: int, dur: Pos, lo: int, end: int) {
    if lo < min then AlignUp(lo, dur) == min && (end >= max || end % dur == 0)
    else if lo >= 0 || lo % dur == 0 then end >= max || end <= AlignUp(lo, dur) || end % dur == 0
    else lo > max - dur
  }

  function Clamp(x: int, n: nat): (c: nat)
    ensures c <= n
  {
    if x < 0 then 0 else if x > n then n else x
  }

  lemma {:induction false} GridBound(pts: Points, m: int, dur: Pos, x: int)
    requires OnGrid(pts, m * dur, dur)
    ensures LowerBound(pts, x) == Clamp(Ceil(x, dur) - m, |pts|)
  {
    if pts != [] {
      CeilCompare(x, m, dur);
      assert (m + 1) * dur == m * dur + dur;
      GridBound(pts[1..], m + 1, dur, x);
    }
  }

  lemma {:induction false} GridStrict(pts: Points, t: int, dur: Pos)
    requires OnGrid(pts, t, dur)
    ensures StrictlyOrdered(pts) && NonOverlapping(pts) && AllAtLeast(pts, t)
  {
    if pts != [] {
      var rest := pts[1..];
      GridStrict(rest, t + dur, dur);
      assert forall i :: 1 <= i < |pts| ==> pts[i] == rest[i - 1];
    }
  }

  lemma {:induction false} CutIsSlice<T>(s: seq<T>, a: nat, b: nat)
    requires a <= b <= |s|
    ensures Cut(s, a, b) == s[a..b]
  {
    if b > 0 {
      CutIsSlice(s[1..], if a == 0 then 0 else a - 1, b - 1);
    }
  }

  /** A window of ordered points is a stretch of them. */
  lemma {:induction false} WindowIsCut(pts: Points, lo: int, hi: int)
    requires InOrder(pts) && lo <= hi
    ensures LowerBound(pts, lo) <= LowerBound(pts, hi)
    ensures Window(pts, lo, hi) == Cut(pts, LowerBound(pts, lo), LowerBound(pts, hi))
  {
    if pts != [] {
      var rest := pts[1..];
      WindowIsCut(rest, lo, hi);
      EmptyLeft(Window(rest, lo, hi));
      if pts[0].timestamp >= hi {
        assert LowerBound(rest, hi) == 0;
      } else if pts[0].timestamp >= lo {
        assert LowerBound(rest, lo) == 0;
      }
    }
  }

  // ---- Exactly which windows are right ----

  /** How many durations lie between an aligned start and the end of what is read. */
  function Count(m: int, n: nat, q: int, b: int, s: int): int {
    if b > m + n || (b == m + n && s == 0) then m + n - q else if s == 0 || b <= q then b - q else b - q - 1
  }

  lemma {:induction false} CountIs(m: int, n: nat, q: int, end: int, dur: Pos)
    requires q <= m + n
    ensures TDiv(Min((m + n) * dur, end) - q * dur, dur) == Count(m, n, q, Ceil(end, dur), Short(end, dur))
  {
    var b, s := Ceil(end, dur), Short(end, dur);
    CeilSpec(end, dur);
    CeilCompare(end, m + n, dur);
    if end < (m + n) * dur {
      assert b * dur - s - q * dur == (b - q) * dur - s;
      TDivCut(b - q, s, dur);
    } else {
      assert (m + n) * dur - q * dur == (m + n - q) * dur;
      TDivCut(m + n - q, 0, dur);
    }
  }

  /** The points read from slot `q - m` on are the window's: the same question about indices. */
  ghost predicate SliceRight(m: int, n: nat, q: int, a: int, b: int, s: int) {
    var from, to := Clamp(a - m, n), Clamp(b - m, n);
    if q > m + n then from == to
    else
      var k := Count(m, n, q, b, s);
      q >= m && k >= 0 && ((q - m == from && q - m + k == to) || (k == 0 && from == to))
  }

  /** `ReadsRight` in whole durations. */
  ghost predicate QuotientsRight(m: int, n: nat, q: int, a: int, r: int, b: int, s: int) {
    if a < m || (a == m && r > 0) then q == m && (b > m + n || (b == m + n && s == 0) || s == 0)
    else if a > 0 || (a == 0 && r == 0) || r == 0 then b > m + n || (b == m + n && s == 0) || b <= q || s == 0
    else a >= m + n
  }

  lemma {:induction false} SlicesByQuotients(m: int, n: Pos, q: int, a: int, r: int, b: int, s: int)
    requires r >= 0 && s >= 0 && q == if a > 0 || r == 0 then a else a + 1
    requires a <= m + n && b > m && (a < b || (a == b && s < r))
    ensures SliceRight(m, n, q, a, b, s) <==> QuotientsRight(m, n, q, a, r, b, s)
  {
  }

  /** Which multiple of the duration a read starts from. */
  function StartAt(lo: int, dur: Pos): int {
    if lo >= 0 || Short(lo, dur) == 0 then Ceil(lo, dur) else Ceil(lo, dur) + 1
  }

  lemma {:induction false} RightByQuotients(m: int, n: Pos, dur: Pos, lo: int, end: int)
    requires lo <= (m + n) * dur && m * dur < end && lo < end
    ensures ReadsRight(m * dur, (m + n) * dur, dur, lo, end)
      <==> SliceRight(m, n, StartAt(lo, dur), Ceil(lo, dur), Ceil(end, dur), Short(end, dur))
  {
    var a, r, b, s, q := Ceil(lo, dur), Short(lo, dur), Ceil(end, dur), Short(end, dur), StartAt(lo, dur);
    LowerEdge(m, n, dur, lo);
    AlignExact(lo, dur);
    UpperEdge(m, n, q, dur, lo, end);
    SlicesByQuotients(m, n, q, a, r, b, s);
  }

  lemma {:induction false} LowerEdge(m: int, n: nat, dur: Pos, lo: int)
    ensures var a, r := Ceil(lo, dur), Short(lo, dur);
      && (lo <= (m + n) * dur <==> a <= m + n)
      && (lo < m * dur <==> a < m || (a == m && r > 0))
      && (lo > (m + n) * dur - dur <==> a >= m + n)
      && (lo >= 0 <==> a > 0 || (a == 0 && r == 0))
      && (lo % dur == 0 <==> r == 0)
      && (AlignUp(lo, dur) == m * dur <==> StartAt(lo, dur) == m)
  {
    CeilCompare(lo, m + n, dur);
    CeilCompare(lo, m, dur);
    CeilCompare(lo, m + n - 1, dur);
    CeilCompare(lo, 0, dur);
    OneLess(m + n, dur);
    ShortIsRemainder(lo, dur);
    StartsAtMultiple(m, dur, lo);
  }

  lemma {:induction false} OneLess(k: int, dur: nat)
    ensures (k - 1) * dur == k * dur - dur
  {
  }

  lemma {:induction false} StartsAtMultiple(m: int, dur: Pos, lo: int)
    ensures AlignUp(lo, dur) == m * dur <==> StartAt(lo, dur) == m
  {
    AlignExact(lo, dur);
    MultipleCompare(m, StartAt(lo, dur), dur);
    MultipleCompare(StartAt(lo, dur), m, dur);
  }

  lemma {:induction false} UpperEdge(m: int, n: nat, q: int, dur: Pos, lo: int, end: int)
    requires m * dur < end && lo < end
    ensures var a, r, b, s := Ceil(lo, dur), Short(lo, dur), Ceil(end, dur), Short(end, dur);
      && b > m && (a < b || (a == b && s < r))
      && (end >= (m + n) * dur <==> b > m + n || (b == m + n && s == 0))
      && (end <= q * dur <==> b <= q)
      && (end % dur == 0 <==> s == 0)
  {
    CeilCompare(end, m, dur);
    CeilCompare(end, m + n, dur);
    CeilCompare(end, q, dur);
    CeilSpec(lo, dur);
    CeilSpec(end, dur);
    if Ceil(lo, dur) > Ceil(end, dur) {
      Gap(Ceil(lo, dur), Ceil(end, dur), dur);
    }
    ShortIsRemainder(end, dur);
  }

  lemma {:induction false} GridWindow(pts: Points, m: int, dur: Pos, lo: int, end: int)
    requires OnGrid(pts, m * dur, dur) && lo <= end
    ensures var from, to := Clamp(Ceil(lo, dur) - m, |pts|), Clamp(Ceil(end, dur) - m, |pts|);
      from <= to && Window(pts, lo, end) == Cut(pts, from, to)
  {
    GridStrict(pts, m * dur, dur);
    InOrderIsOrdered(pts);
    WindowIsCut(pts, lo, end);
    GridBound(pts, m, dur, lo);
    GridBound(pts, m, dur, end);
  }

  /** A dense file answers a window like this, whatever is in its slots. */
  function SlotRead(slots: seq<Value>, m: int, n: nat, dur: Pos, lo: int, end: int): ReadResult {
    var q := StartAt(lo, dur);
    if q > m + n then Got([])
    else
      var k := Count(m, n, q, Ceil(end, dur), Short(end, dur));
      if q < m || k < 0 then Failed else Got(Emit(Cut(slots, q - m, q - m + k), q * dur, dur))
  }

  /** Where a read starts, whether that is behind the file, and how far it goes. */
  lemma {:induction false} ReadEdges(m: int, n: nat, dur: Pos, lo: int, end: int)
    ensures var q := StartAt(lo, dur);
      && AlignUp(lo, dur) == q * dur
      && ((m + n) * dur < q * dur <==> q > m + n)
      && TDiv(q * dur - m * dur, dur) == q - m
      && (q <= m + n ==>
          TDiv(Min((m + n) * dur, end) - q * dur, dur) == Count(m, n, q, Ceil(end, dur), Short(end, dur)))
  {
    var q := StartAt(lo, dur);
    AlignExact(lo, dur);
    MultipleCompare(m + n, q, dur);
    FromStart(q, m, dur);
    if q <= m + n {
      CountIs(m, n, q, end, dur);
    }
  }

  lemma {:induction false} MultipleCompare(a: int, b: int, dur: Pos)
    ensures a * dur < b * dur <==> a < b
  {
    if a < b {
      Gap(b, a, dur);
    } else if b < a {
      Gap(a, b, dur);
    }
  }

  lemma {:induction false} FromStart(q: int, m: int, dur: Pos)
    ensures TDiv(q * dur - m * dur, dur) == q - m && TMod(q * dur - m * dur, dur) == 0
  {
    assert q * dur - m * dur == (q - m) * dur;
    TDivExact(q - m, dur);
  }

  lemma {:induction false} DenseSlots(slots: seq<Value>, m: int, n: nat, dur: Pos, lo: int, end: int)
    ensures DenseRead(m * dur, (m + n) * dur, dur, slots, lo, end) == SlotRead(slots, m, n, dur, lo, end)
  {
    ReadEdges(m, n, dur, lo, end);
  }

  /** No read gives slots from outside the window. */
  lemma {:induction false} WithinWindow(m: int, n: Pos, dur: Pos, lo: int, end: int)
    requires lo <= (m + n) * dur && m * dur < end && lo < end
    ensures var q, k := StartAt(lo, dur), Count(m, n, StartAt(lo, dur), Ceil(end, dur), Short(end, dur));
      m <= q <= m + n && k > 0 ==>
        Clamp(Ceil(lo, dur) - m, n) <= q - m && q - m + k <= Clamp(Ceil(end, dur) - m, n)
  {
  }

  /** The slots of the points in a window hold their values. */
  ghost predicate SlotsHold(slots: seq<Value>, pts: Points, lo: int, end: int)
    requires |slots| >= |pts|
  {
    forall i :: 0 <= i < |pts| && lo <= pts[i].timestamp < end ==> slots[i] == pts[i].value
  }

  lemma {:induction false} GridTime(pts: Points, t: int, dur: nat, i: nat)
    requires OnGrid(pts, t, dur) && i < |pts|
    ensures pts[i].timestamp == t + i * dur
  {
    if i > 0 {
      GridTime(pts[1..], t + dur, dur, i - 1);
      assert t + dur + (i - 1) * dur == t + i * dur;
    }
  }

  lemma {:induction false} InWindow(pts: Points, m: int, dur: Pos, lo: int, end: int, i: nat)
    requires OnGrid(pts, m * dur, dur) && i < |pts| && lo <= end
    ensures lo <= pts[i].timestamp < end <==>
      Clamp(Ceil(lo, dur) - m, |pts|) <= i < Clamp(Ceil(end, dur) - m, |pts|)
  {
    GridTime(pts, m * dur, dur, i);
    AtMultiple(m, i, dur);
    EdgeAt(lo, m, i, |pts|, dur);
    EdgeAt(end, m, i, |pts|, dur);
  }

  lemma {:induction false} AtMultiple(m: int, i: nat, dur: nat)
    ensures m * dur + i * dur == (m + i) * dur
  {
  }

  lemma {:induction false} EdgeAt(x: int, m: int, i: nat, n: nat, dur: Pos)
    requires i < n
    ensures x <= (m + i) * dur <==> Clamp(Ceil(x, dur) - m, n) <= i
  {
    CeilCompare(x, m + i, dur);
  }

  /** The slots of the window, as a stretch of them. */
  lemma {:induction false} SlotsHoldIn(slots: seq<Value>, pts: Points, m: int, dur: Pos, lo: int, end: int)
    requires OnGrid(pts, m * dur, dur) && lo <= end && |slots| >= |pts|
    ensures var from, to := Clamp(Ceil(lo, dur) - m, |pts|), Clamp(Ceil(end, dur) - m, |pts|);
      from <= to && (SlotsHold(slots, pts, lo, end) <==> slots[from..to] == Values(pts)[from..to])
  {
    var from, to := Clamp(Ceil(lo, dur) - m, |pts|), Clamp(Ceil(end, dur) - m, |pts|);
    GridWindow(pts, m, dur, lo, end);
    forall i: nat | i < |pts| ensures lo <= pts[i].timestamp < end <==> from <= i < to {
      InWindow(pts, m, dur, lo, end, i);
    }
    if slots[from..to] == Values(pts)[from..to] {
      forall i | 0 <= i < |pts| && lo <= pts[i].timestamp < end ensures slots[i] == pts[i].value {
        assert slots[from..to][i - from] == Values(pts)[from..to][i - from];
      }
    }
  }

  lemma {:induction false} GridSlice(pts: Points, m: int, dur: nat, a: nat, b: nat)
    requires OnGrid(pts, m * dur, dur) && a <= b <= |pts|
    ensures OnGrid(pts[a..b], (m + a) * dur, dur)
  {
    var front, mid, back := pts[..a], pts[a..b], pts[b..];
    assert pts == front + (mid + back);
    AtMultiple(m, a, dur);
    GridConcat(front, mid + back, m * dur, dur);
    GridConcat(mid, back, (m + a) * dur, dur);
  }

  /** Slots `a` to `b` read as points `a` to `b` if and only if they hold their values. */
  lemma {:induction false} SliceExact(slots: seq<Value>, pts: Points, m: int, dur: Pos, a: nat, b: nat)
    requires OnGrid(pts, m * dur, dur) && NoNaN(Values(pts)) && a <= b <= |pts| <= |slots|
    ensures Emit(Cut(slots, a, b), (m + a) * dur, dur) == Cut(pts, a, b) <==> slots[a..b] == Values(pts)[a..b]
  {
    CutIsSlice(slots, a, b);
    CutIsSlice(pts, a, b);
    GridSlice(pts, m, dur, a, b);
    assert Values(pts[a..b]) == Values(pts)[a..b];
    EmitBack(slots[a..b], pts[a..b], (m + a) * dur, dur);
  }

  /** What is read from inside the window is all of it, or less. */
  lemma {:induction false} SlotReadRight(slots: seq<Value>, pts: Points, m: int, dur: Pos, at: int, k: nat, from: nat, to: nat)
    requires OnGrid(pts, m * dur, dur) && NoNaN(Values(pts)) && |slots| >= |pts|
    requires from <= to <= |pts| && m <= at && (k > 0 ==> from <= at - m && at - m + k <= to)
    ensures Emit(Cut(slots, at - m, at - m + k), at * dur, dur) == Cut(pts, from, to)
      <==> (if k > 0 then at - m == from && at - m + k == to else from == to) && slots[from..to] == Values(pts)[from..to]
  {
    var vs := Cut(slots, at - m, at - m + k);
    CutIsSlice(pts, from, to);
    if k == 0 {
      EmitOnGrid(vs, at * dur, dur);
      CutLength(slots, at - m, at - m);
    } else {
      CutIsSlice(slots, at - m, at - m + k);
      EmitOnGrid(vs, at * dur, dur);
      if at - m == from && at - m + k == to {
        SliceExact(slots, pts, m, dur, from, to);
      }
    }
  }

  lemma {:induction false} CutLength<T>(s: seq<T>, a: nat, b: nat)
    requires a <= b
    ensures |Cut(s, a, b)| <= b - a
  {
    if s != [] && b > 0 {
      CutLength(s[1..], if a == 0 then 0 else a - 1, b - 1);
    }
  }

  /**
   A dense file with an aligned start reads a window that meets it right if and only if `ReadsRight`, and
   the slots of the window hold the values of its points.
   */
  lemma {:induction false} DenseWindowExact(slots: seq<Value>, pts: Points, m: int, dur: Pos, lo: int, end: int)
    requires pts != [] && OnGrid(pts, m * dur, dur) && NoNaN(Values(pts)) && |slots| >= |pts|
    requires lo <= (m + |pts|) * dur && m * dur < end && lo < end
    ensures DenseRead(m * dur, (m + |pts|) * dur, dur, slots, lo, end) == Got(Window(pts, lo, end))
      <==> ReadsRight(m * dur, (m + |pts|) * dur, dur, lo, end) && SlotsHold(slots, pts, lo, end)
  {
    var n, q := |pts|, StartAt(lo, dur);
    var from, to := Clamp(Ceil(lo, dur) - m, n), Clamp(Ceil(end, dur) - m, n);
    DenseSlots(slots, m, n, dur, lo, end);
    RightByQuotients(m, n, dur, lo, end);
    GridWindow(pts, m, dur, lo, end);
    SlotsHoldIn(slots, pts, m, dur, lo, end);
    WithinWindow(m, n, dur, lo, end);
    if q > m + n {
      CutIsSlice(pts, from, to);
    } else {
      var k := Count(m, n, q, Ceil(end, dur), Short(end, dur));
      if m <= q && k >= 0 {
        SlotReadRight(slots, pts, m, dur, q, k, from, to);
      }
    }
  }

  predicate AllEqual(pts: Points, v: Value) {
    forall i :: 0 <= i < |pts| ==> pts[i].value == v
  }

  /** What is read from before the file's own start is not in any window that reaches the file. */
  lemma {:induction false} PhantomPoints(pts: Points, t: int, dur: nat, vs: seq<Value>, next: int, lo: int, end: int)
    requires pts != [] && OnGrid(pts, t, dur) && lo < t < end && next < t
    ensures Emit(vs, next, dur) != Window(pts, lo, end)
  {
    EmitOnGrid(vs, next, dur);
    assert Window(pts, lo, end)[0] == pts[0];
  }

  /** A constant file answers a window like a dense one with its value in all slots, unless it starts before itself. */
  lemma {:induction false} ConstantAsDense(value: real, m: int, n: Pos, dur: Pos, lo: int, end: int)
    requires lo <= (m + n) * dur && m * dur < end && lo < end
    ensures var q, k := StartAt(lo, dur), Count(m, n, StartAt(lo, dur), Ceil(end, dur), Short(end, dur));
      ConstantRead((m + n) * dur, dur, value, lo, end) ==
        if q < m && k >= 0 then Got(Emit(Repeat(Num(value), k), q * dur, dur))
        else SlotRead(Repeat(Num(value), n), m, n, dur, lo, end)
  {
    var q := StartAt(lo, dur);
    ReadEdges(m, n, dur, lo, end);
    WithinWindow(m, n, dur, lo, end);
    var k := Count(m, n, q, Ceil(end, dur), Short(end, dur));
    if m <= q <= m + n && k >= 0 {
      CutIsSlice(Repeat(Num(value), n), q - m, q - m + k);
      assert Repeat(Num(value), n)[q - m..q - m + k] == Repeat(Num(value), k);
    }
  }

  /** A constant file whose start is aligned reads a window right if and only if `ReadsRight`. */
  lemma {:induction false} ConstantWindowExact(pts: Points, m: int, dur: Pos, value: real, lo: int, end: int)
    requires pts != [] && OnGrid(pts, m * dur, dur) && AllEqual(pts, Num(value))
    requires lo <= (m + |pts|) * dur && m * dur < end && lo < end
    ensures ConstantRead((m + |pts|) * dur, dur, value, lo, end) == Got(Window(pts, lo, end))
      <==> ReadsRight(m * dur, (m + |pts|) * dur, dur, lo, end)
  {
    var q, n := StartAt(lo, dur), |pts|;
    ConstantAsDense(value, m, n, dur, lo, end);
    DenseSlots(Repeat(Num(value), n), m, n, dur, lo, end);
    DenseWindowExact(Repeat(Num(value), n), pts, m, dur, lo, end);
    var k := Count(m, n, q, Ceil(end, dur), Short(end, dur));
    if q < m && k >= 0 {
      CeilCompare(lo, m, dur);
      MultipleCompare(q, m, dur);
      PhantomPoints(pts, m * dur, dur, Repeat(Num(value), k), q * dur, lo, end);
    }
  }

  // ---- The clock of a read ----

  lemma {:induction false} InRangeShorter(t: int, n: nat, k: nat, dur: nat)
    requires InRange(t, n, dur) && k <= n
    ensures InRange(t, k, dur)
    decreases n
  {
    if k > 0 {
      InRangeShorter(t + dur, n - 1, k - 1, dur);
    }
  }

  lemma {:induction false} StartsLater(t: int, dur: Pos)
    ensures AlignUp(t, dur) >= t
  {
    AlignExact(t, dur);
    CeilSpec(t, dur);
    assert (Ceil(t, dur) + 1) * dur == Ceil(t, dur) * dur + dur;
  }

  /** The clock of a read stays below its end. */
  lemma {:induction false} CountInRange(next: int, end: int, dur: Pos, n: nat)
    requires INT64_MIN <= next && end <= INT64_MAX && n == TDiv(end - next, dur)
    ensures InRange(next, n, dur)
  {
    if n > 0 {
      if end - next < 0 {
        FloorPositive(next - end, dur);
      }
      FloorPositive(end - next, dur);
      StepsInRange(next, n, dur);
    }
  }

  lemma {:induction false} FloorPositive(x: int, dur: Pos)
    ensures x >= 0 ==> x / dur >= 0 && (x / dur) * dur <= x
  {
  }

  lemma {:induction false} StepsInRange(t: int, n: nat, dur: Pos)
    requires INT64_MIN <= t && t + n * dur <= INT64_MAX + dur
    ensures InRange(t, n, dur)
    decreases n
  {
    if n > 0 {
      assert n * dur == (n - 1) * dur + dur;
      assert (n - 1) * dur >= 0;
      StepsInRange(t + dur, n - 1, dur);
    }
  }

  lemma {:induction false} EmitsNothing(vs: seq<Value>, t: int, dur: nat)
    requires InRange(t, |vs|, dur)
    ensures Emit(vs, t, dur) == [] <==> AllNaN(vs)
  {
    if vs != [] && vs[0].NaN? {
      InRangeShorter(t, |vs|, |vs| - 1, dur);
      EmitsNothing(vs[1..], t, dur);
    }
  }

  // ---- A start that is not aligned ----

  lemma {:induction false} BetweenMultiples(min: int, dur: Pos, i: nat, c: int)
    requires min % dur != 0
    ensures min + i * dur != c * dur
  {
    if min + i * dur == c * dur {
      assert min == (c - i) * dur;
      FloorUnique(min, c - i, 0, dur);
    }
  }

  /** A read gives points at multiples of the duration, and the file stands for none of those. */
  lemma {:induction false} UnalignedEmit(vs: seq<Value>, pts: Points, min: int, dur: Pos, lo: int, end: int)
    requires OnGrid(pts, min, dur) && min % dur != 0
    ensures Emit(vs, AlignUp(lo, dur), dur) == Window(pts, lo, end)
      <==> Emit(vs, AlignUp(lo, dur), dur) == [] && Window(pts, lo, end) == []
  {
    var out, w := Emit(vs, AlignUp(lo, dur), dur), Window(pts, lo, end);
    if out == w && w != [] {
      EmitOnGrid(vs, AlignUp(lo, dur), dur);
      AlignExact(lo, dur);
      WindowMember(pts, lo, end);
      assert w[0] in w;
      var i :| 0 <= i < |pts| && pts[i] == w[0];
      GridTime(pts, min, dur, i);
      BetweenMultiples(min, dur, i, StartAt(lo, dur));
    }
  }

  /** Such a dense file reads right only windows without points, and those if and only if no value is read. */
  lemma {:induction false} UnalignedDenseWindow(slots: seq<Value>, pts: Points, min: int, dur: Pos, lo: int, end: int)
    requires OnGrid(pts, min, dur) && min % dur != 0 && INT64_MIN <= lo && end <= INT64_MAX
    ensures var max, next := min + |pts| * dur, AlignUp(lo, dur);
      var off, n := TDiv(next - min, dur), TDiv(Min(max, end) - next, dur);
      DenseRead(min, max, dur, slots, lo, end) == Got(Window(pts, lo, end))
      <==> Window(pts, lo, end) == [] && (max < next || (off >= 0 && n >= 0 && AllNaN(Cut(slots, off, off + n))))
  {
    var max, next := min + |pts| * dur, AlignUp(lo, dur);
    var off, n := TDiv(next - min, dur), TDiv(Min(max, end) - next, dur);
    StartsLater(lo, dur);
    if max >= next && off >= 0 && n >= 0 {
      var vs := Cut(slots, off, off + n);
      UnalignedEmit(vs, pts, min, dur, lo, end);
      CutLength(slots, off, off + n);
      CountInRange(next, Min(max, end), dur, n);
      InRangeShorter(next, n, |vs|, dur);
      EmitsNothing(vs, next, dur);
    }
  }

  /** And such a constant file, if and only if the window ends before the next multiple, or the file does. */
  lemma {:induction false} UnalignedConstantWindow(pts: Points, min: int, dur: Pos, value: real, lo: int, end: int)
    requires OnGrid(pts, min, dur) && min % dur != 0 && INT64_MIN <= lo && end <= INT64_MAX
    ensures var max, next := min + |pts| * dur, AlignUp(lo, dur);
      ConstantRead(max, dur, value, lo, end) == Got(Window(pts, lo, end))
      <==> Window(pts, lo, end) == [] && (max < next || TDiv(Min(max, end) - next, dur) == 0)
  {
    var max, next := min + |pts| * dur, AlignUp(lo, dur);
    var n := TDiv(Min(max, end) - next, dur);
    StartsLater(lo, dur);
    if max >= next && n >= 0 {
      UnalignedEmit(Repeat(Num(value), n), pts, min, dur, lo, end);
      CountInRange(next, Min(max, end), dur, n);
      EmitsNothing(Repeat(Num(value), n), next, dur);
    }
  }

  // ---- The whole file ----

  /** What a new dense file returns when it is read from its start to its end. */
  lemma {:induction false} WholeDenseRead(min: int, dur: Pos, slots: seq<Value>, n: nat, end: int)
    requires AlignUp(min, dur) == min && end >= min + n * dur
    ensures DenseRead(min, min + n * dur, dur, slots, min, end) == Got(Emit(Cut(slots, 0, n), min, dur))
  {
    TDivExact(n, dur);
    TDivExact(0, dur);
    assert n * dur >= 0;
  }

  lemma {:induction false} GridConcat(a: Points, b: Points, t: int, dur: nat)
    ensures OnGrid(a + b, t, dur) <==> OnGrid(a, t, dur) && OnGrid(b, t + |a| * dur, dur)
  {
    if a == [] {
      EmptyLeft(b);
    } else {
      assert (a + b)[1..] == a[1..] + b;
      assert t + |a| * dur == (t + dur) + |a[1..]| * dur;
      GridConcat(a[1..], b, t + dur, dur);
    }
  }

  lemma {:induction false} ValuesConcat(a: Points, b: Points)
    ensures Values(a + b) == Values(a) + Values(b)
  {
  }
}
