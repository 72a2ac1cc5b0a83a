/**
 Rewriting a sparse file in a positional format.

 The tests that allow it, what each conversion writes, and exactly when the new file still reads as
 the old one did.
 */
module Conversions {
  import opened Numbers
  import opened Datapoints
  import opened LogView
  import opened Reads
  import opened FileWrites
  import opened CppDivision
  import opened PositionalFiles
  import opened DenseFiles
  import opened SparseFiles
  import FileNames

  const MIN_DENSE: nat := 32
  const MIN_CONSTANT: nat := 32
  const MAX_PADDING: nat := 256

  // ---- The two tests ----

  /** Each point has the duration and starts a whole number of durations, not too many, after the one before. */
  predicate DenseFrom(pts: Points, last: int, dur: Pos) {
    pts == [] ||
    (&& pts[0].duration == dur
     && TDiv(pts[0].timestamp - last, dur) <= MAX_PADDING
     && TMod(pts[0].timestamp - last, dur) == 0
     && DenseFrom(pts[1..], pts[0].timestamp, dur))
  }

  function DurationOf(pts: Points): (dur: nat)
    ensures dur >= 1
  {
    if pts != [] && pts[0].duration != 0 then pts[0].duration else 1
  }

  predicate Dense(pts: Points) {
    |pts| >= MIN_DENSE && DenseFrom(pts, pts[0].timestamp, DurationOf(pts))
  }

  method IsDense(pts: Points) returns (dense: bool)
    ensures dense <==> Dense(pts)
  {
    if |pts| < MIN_DENSE {
      return false;
    }
    var dur := if pts[0].duration != 0 then pts[0].duration else 1;
    var lastTimestamp: int := pts[0].timestamp;
    var it := pts;
    while it != []
      invariant Dense(pts) <==> DenseFrom(it, lastTimestamp, dur)
      decreases |it|
    {
      var delta := it[0].timestamp - lastTimestamp;
      if it[0].duration != dur || TDiv(delta, dur) > MAX_PADDING || TMod(delta, dur) != 0 {
        return false;
      }
      lastTimestamp := it[0].timestamp;
      it := it[1..];
    }
    return true;
  }

  /** How the source compares values is a parameter: a number is close to itself and a NaN to nothing. */
  ghost predicate Comparison(almostEquals: (Value, Value) -> bool) {
    && (forall x: real :: almostEquals(Num(x), Num(x)))
    && (forall w: Value :: !almostEquals(NaN, w) && !almostEquals(w, NaN))
  }

  predicate Constant(pts: Points, almostEquals: (Value, Value) -> bool) {
    |pts| >= MIN_CONSTANT && forall i :: 0 <= i < |pts| ==> almostEquals(pts[i].value, pts[0].value)
  }

  method IsConstant(pts: Points, almostEquals: (Value, Value) -> bool) returns (constant: bool)
    ensures constant <==> Constant(pts, almostEquals)
  {
    if |pts| < MIN_CONSTANT {
      return false;
    }
    var i := 0;
    while i < |pts| && almostEquals(pts[i].value, pts[0].value)
      invariant 0 <= i <= |pts|
      invariant forall j :: 0 <= j < i ==> almostEquals(pts[j].value, pts[0].value)
    {
      i := i + 1;
    }
    return i == |pts|;
  }

  /** All values are one and the same. */
  predicate Flat(pts: Points) {
    forall i :: 0 <= i < |pts| ==> pts[i].value == pts[0].value
  }

  /** What the test lets pass as dense but not constant has different values. */
  lemma {:induction false} NotConstantNotFlat(pts: Points, almostEquals: (Value, Value) -> bool)
    requires Comparison(almostEquals) && Dense(pts) && NoNaN(Values(pts)) && !Constant(pts, almostEquals)
    ensures !Flat(pts)
  {
    var x := Values(pts)[0].x;
    assert almostEquals(Num(x), Num(x));
  }

  // ---- What density means ----

  /** Which slot a point belongs to, counted from the first point. */
  function SlotOf(pts: Points, i: nat): int
    requires i < |pts|
  {
    TDiv(pts[i].timestamp - pts[0].timestamp, DurationOf(pts))
  }

  lemma {:induction false} DenseStep(pts: Points, last: int, dur: Pos, i: nat)
    requires DenseFrom(pts, last, dur) && i < |pts|
    ensures var before := if i == 0 then last else pts[i - 1].timestamp;
      && pts[i].duration == dur
      && TDiv(pts[i].timestamp - before, dur) <= MAX_PADDING
      && TMod(pts[i].timestamp - before, dur) == 0
  {
    if i > 0 {
      DenseStep(pts[1..], pts[0].timestamp, dur, i - 1);
    }
  }

  lemma {:induction false} SlotStep(at: int, delta: int, slot: int, d: Pos)
    requires at == slot * d && delta >= 0 && TMod(delta, d) == 0 && TDiv(delta, d) <= MAX_PADDING
    ensures at + delta == TDiv(at + delta, d) * d && 0 <= TDiv(at + delta, d) - slot <= MAX_PADDING
  {
    var c := slot + TDiv(delta, d);
    TModZero(delta, d);
    assert c * d == slot * d + TDiv(delta, d) * d;
    TDivExact(c, d);
  }

  /**
   Every point of a dense buffer sits at a whole slot, and slots never fall and never jump by more
   than the padding allows.
   */
  lemma {:induction false} DensePositions(pts: Points, i: nat)
    requires Dense(pts) && Ordered(pts) && i < |pts|
    ensures pts[i].duration == DurationOf(pts) && pts[0].duration == DurationOf(pts)
    ensures pts[i].timestamp == pts[0].timestamp + SlotOf(pts, i) * DurationOf(pts)
    ensures SlotOf(pts, 0) == 0
    ensures i > 0 ==> 0 <= SlotOf(pts, i) - SlotOf(pts, i - 1) <= MAX_PADDING
  {
    var dur := DurationOf(pts);
    TDivExact(0, dur);
    DenseStep(pts, pts[0].timestamp, dur, 0);
    DenseStep(pts, pts[0].timestamp, dur, i);
    if i > 0 {
      DensePositions(pts, i - 1);
      SlotStep(pts[i - 1].timestamp - pts[0].timestamp, pts[i].timestamp - pts[i - 1].timestamp, SlotOf(pts, i - 1), dur);
    }
  }

  /** Density as a statement about slots. */
  ghost predicate AtSlots(pts: Points) {
    forall i: nat :: i < |pts| ==> AtSlot(pts, i)
  }

  predicate AtSlot(pts: Points, i: nat)
    requires i < |pts|
  {
    && pts[i].duration == DurationOf(pts)
    && pts[i].timestamp == pts[0].timestamp + SlotOf(pts, i) * DurationOf(pts)
    && (i > 0 ==> 0 <= SlotOf(pts, i) - SlotOf(pts, i - 1) <= MAX_PADDING)
  }

  lemma {:induction false} DenseFromSlots(pts: Points, i: nat)
    requires AtSlots(pts) && i <= |pts| && pts != []
    ensures DenseFrom(pts[i..], if i == 0 then pts[0].timestamp else pts[i - 1].timestamp, DurationOf(pts))
    decreases |pts| - i
  {
    if i < |pts| {
      var dur := DurationOf(pts);
      DenseFromSlots(pts, i + 1);
      assert pts[i..][1..] == pts[i + 1..];
      assert AtSlot(pts, i);
      if i == 0 {
        TDivExact(0, dur);
      } else {
        assert AtSlot(pts, i - 1);
        FromStart(SlotOf(pts, i), SlotOf(pts, i - 1), dur);
      }
    }
  }

  /** An ordered buffer passes the test if and only if it is long enough and all its points are at slots. */
  lemma {:induction false} DenseExactly(pts: Points)
    requires Ordered(pts)
    ensures Dense(pts) <==> |pts| >= MIN_DENSE && AtSlots(pts)
  {
    if Dense(pts) {
      forall i: nat | i < |pts| ensures AtSlot(pts, i) {
        DensePositions(pts, i);
      }
    }
    if |pts| >= MIN_DENSE && AtSlots(pts) {
      DenseFromSlots(pts, 0);
      assert pts[0..] == pts;
    }
  }

  /** So an image of the buffer needs at most 1 + (n - 1) * 256 slots. */
  lemma {:induction false} DenseImageBound(pts: Points, i: nat)
    requires Dense(pts) && Ordered(pts) && i < |pts|
    ensures 0 <= SlotOf(pts, i) <= i * MAX_PADDING
  {
    DensePositions(pts, i);
    if i > 0 {
      DenseImageBound(pts, i - 1);
    }
  }

  // ---- The whole file ----

  /**
   The dense file a conversion writes: all points before the last instant there is. `beyond` is the value
   that stands in the read buffer behind the points that were read.
   */
  function DenseOf(min: int, dur: Pos, pts: Points, beyond: Value): DenseWriteResult {
    DenseWrite(DenseState(min, []), dur, pts, CountBefore(pts, |pts|, INT64_MAX), beyond)
  }

  /** What is then in the file: as many zeros as its start has durations, and the values one point on. */
  function Image(m: nat, pts: Points, beyond: Value): (slots: seq<Value>)
    ensures |slots| == m + |pts|
  {
    Repeat(Num(0.0), m) + NextValues(pts, |pts|, beyond)
  }

  lemma {:induction false} AllCounted(pts: Points, maxTimestamp: int)
    requires AllBelow(pts, maxTimestamp)
    ensures CountBefore(pts, |pts|, maxTimestamp) == |pts|
  {
    if pts != [] {
      AllCounted(pts[1..], maxTimestamp);
    }
  }

  lemma {:induction false} DenseOfIs(min: int, dur: Pos, pts: Points, beyond: Value)
    requires pts != [] && pts[0].timestamp == min && AllBelow(pts, INT64_MAX)
    ensures DenseOf(min, dur, pts, beyond) ==
      if TDiv(min, dur) < 0 then SeekFailed
      else Stored(DenseState(min + |pts| * dur, Image(TDiv(min, dur), pts, beyond)), |pts|)
  {
    AllCounted(pts, INT64_MAX);
    EmptyLeft(NextValues(pts, |pts|, beyond));
    assert Repeat(NaN, 0) == [];
    if TDiv(min, dur) >= 0 {
      OverlayEmpty(TDiv(min, dur), NextValues(pts, |pts|, beyond));
    }
  }

  lemma {:induction false} OverlayEmpty(off: nat, vs: seq<Value>)
    ensures Overlay([], off, vs) == Repeat(Num(0.0), off) + vs
  {
    var none: seq<Value> := [];
    assert none[Min(off + |vs|, 0)..] == [];
    assert vs + none == vs;
    if off == 0 {
      assert Repeat(Num(0.0), 0) == none;
    }
  }

  lemma {:induction false} AlignedExactly(min: int, dur: Pos)
    ensures AlignUp(min, dur) == min <==> min % dur == 0
    ensures min % dur == 0 ==> min == (min / dur) * dur && TDiv(min, dur) == min / dur
  {
    if AlignUp(min, dur) == min {
      if TMod(min, dur) != 0 {
        TDivExact(TDiv(min, dur) + 1, dur);
      }
      TModZero(min, dur);
      FloorUnique(min, TDiv(min, dur), 0, dur);
    }
    if min % dur == 0 {
      TDivExact(min / dur, dur);
    }
  }

  /**
   When what is in the file is what was to go there, for a file whose start is `m` durations after zero. With
   one zero in front the values, each one further on, are back in place, and only the first is lost.
   */
  ghost predicate ValuesKept(m: int, pts: Points, beyond: Value) {
    if m == 0 then AllEqual(pts, beyond)
    else if m == 1 then pts != [] ==> pts[0].value == Num(0.0)
    else m >= 2 && AllEqual(pts, Num(0.0))
  }

  lemma {:induction false} ImageAt(m: nat, pts: Points, beyond: Value, i: nat)
    requires i < |pts|
    ensures Image(m, pts, beyond)[..|pts|][i] == if i < m then Num(0.0) else ValueBehind(pts, i - m, beyond)
  {
  }

  /** With more zeros in front, every value is an earlier one, and so zero. */
  lemma {:induction false} ZerosSpread(m: nat, pts: Points, beyond: Value, i: nat)
    requires m >= 2 && i < |pts| && Image(m, pts, beyond)[..|pts|] == Values(pts)
    ensures pts[i].value == Num(0.0)
    decreases i
  {
    ImageAt(m, pts, beyond, i);
    assert Values(pts)[i] == pts[i].value;
    if i >= m {
      ZerosSpread(m, pts, beyond, i - m + 1);
    }
  }

  lemma {:induction false} ImageExact(m: nat, pts: Points, beyond: Value)
    ensures Image(m, pts, beyond)[..|pts|] == Values(pts) <==> ValuesKept(m, pts, beyond)
  {
    var front := Image(m, pts, beyond)[..|pts|];
    forall i | 0 <= i < |pts| ensures front[i] == if i < m then Num(0.0) else ValueBehind(pts, i - m, beyond) {
      ImageAt(m, pts, beyond, i);
    }
    if m == 0 {
      assert front == NextValues(pts, |pts|, beyond);
      NextValuesExact(pts, beyond);
    } else if m == 1 {
      assert pts != [] ==> front[0] == Num(0.0) && Values(pts)[0] == pts[0].value;
    } else if front == Values(pts) {
      forall i | 0 <= i < |pts| ensures pts[i].value == Num(0.0) {
        ZerosSpread(m, pts, beyond, i);
      }
    }
  }

  /** A start that is not aligned gives every point another time. */
  lemma {:induction false} UnalignedIsWrong(pts: Points, min: int, max: int, dur: Pos, slots: seq<Value>, end: int)
    requires AlignUp(min, dur) != min && pts != [] && pts[0].timestamp == min
    ensures DenseRead(min, max, dur, slots, min, end) != Got(pts)
    ensures forall v: real :: ConstantRead(max, dur, v, min, end) != Got(pts)
  {
    var next := AlignUp(min, dur);
    var off, n := TDiv(next - min, dur), TDiv(Min(max, end) - next, dur);
    if off >= 0 && n >= 0 {
      EmitOnGrid(Cut(slots, off, off + n), next, dur);
    }
    if n >= 0 {
      forall v: real ensures Emit(Repeat(Num(v), n), next, dur) != pts {
        EmitOnGrid(Repeat(Num(v), n), next, dur);
      }
    }
  }

  /**
   The dense file a conversion writes gives the points back if and only if their start is aligned, they have
   no gaps, and `ValuesKept`.
   */
  lemma {:induction false} DenseFullExact(pts: Points, min: int, dur: Pos, beyond: Value, end: int)
    requires pts != [] && NoNaN(Values(pts)) && AllBelow(pts, INT64_MAX)
    requires pts[0].timestamp == min && end >= min + |pts| * dur
    ensures ReadDense(DenseOf(min, dur, pts, beyond), min, dur, min, end) == Got(pts)
      <==> min % dur == 0 && OnGrid(pts, min, dur) && ValuesKept(min / dur, pts, beyond)
  {
    DenseOfIs(min, dur, pts, beyond);
    AlignedExactly(min, dur);
    if AlignUp(min, dur) == min && min >= 0 {
      ImageReads(pts, min, dur, beyond, end);
    } else if AlignUp(min, dur) == min {
      Gap(0, min / dur, dur);
    } else if TDiv(min, dur) >= 0 {
      UnalignedIsWrong(pts, min, min + |pts| * dur, dur, Image(TDiv(min, dur), pts, beyond), end);
    }
  }

  lemma {:induction false} ImageReads(pts: Points, min: int, dur: Pos, beyond: Value, end: int)
    requires NoNaN(Values(pts)) && min >= 0 && AlignUp(min, dur) == min && end >= min + |pts| * dur
    ensures DenseRead(min, min + |pts| * dur, dur, Image(min / dur, pts, beyond), min, end) == Got(pts)
      <==> OnGrid(pts, min, dur) && ValuesKept(min / dur, pts, beyond)
  {
    var slots := Image(min / dur, pts, beyond);
    WholeDenseRead(min, dur, slots, |pts|, end);
    CutIsSlice(slots, 0, |pts|);
    assert slots[0..|pts|] == slots[..|pts|];
    EmitBack(slots[..|pts|], pts, min, dur);
    ImageExact(min / dur, pts, beyond);
  }

  /** A constant file holds no values to compare with: every point is given back with the first one's. */
  lemma {:induction false} ConstantFullExact(pts: Points, min: int, dur: Pos, value: real, end: int)
    requires pts != [] && pts[0].timestamp == min && end >= min + |pts| * dur
    ensures ConstantRead(min + |pts| * dur, dur, value, min, end) == Got(pts)
      <==> min % dur == 0 && OnGrid(pts, min, dur) && AllEqual(pts, Num(value))
  {
    var n := |pts|;
    assert n * dur >= 0;
    AlignedExactly(min, dur);
    if AlignUp(min, dur) == min {
      TDivExact(n, dur);
      RepeatExact(pts, min, dur, value);
    } else {
      UnalignedIsWrong(pts, min, min + n * dur, dur, [], end);
    }
  }

  lemma {:induction false} RepeatExact(pts: Points, t: int, dur: nat, value: real)
    ensures Emit(Repeat(Num(value), |pts|), t, dur) == pts <==> OnGrid(pts, t, dur) && AllEqual(pts, Num(value))
  {
    var vs := Repeat(Num(value), |pts|);
    if Emit(vs, t, dur) == pts {
      EmitOnGrid(vs, t, dur);
      EmitInjective(vs, t, dur);
      forall i | 0 <= i < |pts| ensures pts[i].value == Num(value) {
        assert Values(pts)[i] == vs[i];
      }
    }
    if OnGrid(pts, t, dur) && AllEqual(pts, Num(value)) {
      assert Values(pts) == vs;
      EmitGrid(pts, t, dur);
    }
  }

  // ---- From the sparse file ----

  lemma {:induction false} TakeRunCap(s: Points, next: int, end: int, cap: nat, cap': nat)
    requires cap <= cap'
    ensures TakeRun(s, next, end, cap) == Take(TakeRun(s, next, end, cap'), cap)
  {
    if s == [] || s[0].timestamp < next || s[0].timestamp >= end || cap == 0 {
    } else {
      TakeRunCap(s[1..], EndOf(s[0]), end, cap - 1, cap' - 1);
      assert TakeRun(s, next, end, cap')[1..] == TakeRun(s[1..], EndOf(s[0]), end, cap' - 1);
    }
  }

  /** A conversion reads the file with the buffer of an ordinary read: what does not fit is not converted. */
  lemma {:induction false} BufferLimits(view: Points, next: int, end: int, cap: nat)
    ensures var full := ReadView(view, next, end, |view|);
      ReadView(view, next, end, cap) == Take(full, cap)
  {
    var s := view[LowerBound(view, next)..];
    if cap <= |view| {
      TakeRunCap(s, next, end, cap, |view|);
    } else {
      TakeRunCap(s, next, end, |view|, cap);
      assert |TakeRun(s, next, end, cap)| <= |s| <= |view|;
    }
  }

  lemma {:induction false} CountWithin(min: int, n: nat, to: int, next: int, dur: Pos)
    requires next >= min && to <= min + n * dur
    ensures TDiv(to - next, dur) <= n
  {
    var k := TDiv(to - next, dur);
    if k > n {
      Gap(k, n, dur);
      if to - next >= 0 {
        FloorPositive(to - next, dur);
      } else {
        FloorPositive(next - to, dur);
      }
      assert false;
    }
  }

  /** A dense file never returns more points than were written to it when it is read from its start. */
  lemma {:induction false} DenseReadLength(min: int, dur: Pos, slots: seq<Value>, n: nat, end: int)
    ensures var r := DenseRead(min, min + n * dur, dur, slots, min, end); r.Got? ==> |r.points| <= n
  {
    var next := AlignUp(min, dur);
    var to := Min(min + n * dur, end);
    StartsLater(min, dur);
    CountWithin(min, n, to, next, dur);
    var k := TDiv(to - next, dur);
    if min + n * dur >= next && k >= 0 && TDiv(next - min, dur) >= 0 {
      var off := TDiv(next - min, dur);
      CutLength(slots, off, off + k);
      EmitOnGrid(Cut(slots, off, off + k), next, dur);
    }
  }

  /**
   The dense conversion of a sparse file reads from start to end as the sparse file did if and only if its
   start is aligned, it has no gaps, its values are kept, and it fits the buffer it was read with.
   */
  lemma {:induction false} DenseConversionExact(view: Points, bufferSize: nat, beyond: Value)
    requires var pts := ReadView(view, INT64_MIN, INT64_MAX, bufferSize);
      Dense(pts) && NoNaN(Values(pts))
    ensures var pts, full := ReadView(view, INT64_MIN, INT64_MAX, bufferSize), ReadView(view, INT64_MIN, INT64_MAX, |view|);
      var min, dur := pts[0].timestamp, DurationOf(pts);
      var back := ReadDense(DenseOf(min, dur, pts, beyond), min, dur, min, min + |pts| * dur);
      back == Got(full) <==>
        min % dur == 0 && OnGrid(full, min, dur) && ValuesKept(min / dur, pts, beyond) && |full| <= bufferSize
  {
    var pts, full := ReadView(view, INT64_MIN, INT64_MAX, bufferSize), ReadView(view, INT64_MIN, INT64_MAX, |view|);
    var min, dur := pts[0].timestamp, DurationOf(pts);
    BufferLimits(view, INT64_MIN, INT64_MAX, bufferSize);
    ReadViewContinues(view, INT64_MIN, INT64_MAX, bufferSize);
    ContinuesMeans(pts, INT64_MIN, INT64_MAX);
    DenseFullExact(pts, min, dur, beyond, min + |pts| * dur);
    DenseOfIs(min, dur, pts, beyond);
    if TDiv(min, dur) >= 0 {
      DenseReadLength(min, dur, Image(TDiv(min, dur), pts, beyond), |pts|, min + |pts| * dur);
    }
  }

  /**
   The optimizer makes dense files only of values that are not all alike. Then, whatever stands behind the
   points, the file is kept if and only if it starts one duration after time zero, with a zero, has no gaps
   and fits the buffer.
   */
  lemma {:induction false} DenseBranchExact(view: Points, bufferSize: nat, beyond: Value)
    requires var pts := ReadView(view, INT64_MIN, INT64_MAX, bufferSize);
      Dense(pts) && !Flat(pts) && NoNaN(Values(pts))
    ensures var pts, full := ReadView(view, INT64_MIN, INT64_MAX, bufferSize), ReadView(view, INT64_MIN, INT64_MAX, |view|);
      var min, dur := pts[0].timestamp, DurationOf(pts);
      var back := ReadDense(DenseOf(min, dur, pts, beyond), min, dur, min, min + |pts| * dur);
      back == Got(full) <==>
        min == dur && pts[0].value == Num(0.0) && OnGrid(full, min, dur) && |full| <= bufferSize
  {
    var pts := ReadView(view, INT64_MIN, INT64_MAX, bufferSize);
    var min, dur := pts[0].timestamp, DurationOf(pts);
    DenseConversionExact(view, bufferSize, beyond);
    OneDuration(min, dur);
  }

  lemma {:induction false} OneDuration(min: int, dur: Pos)
    ensures min % dur == 0 && min / dur == 1 <==> min == dur
  {
    FloorUnique(dur, 1, 0, dur);
    assert min == (min / dur) * dur + min % dur;
  }

  /** What is read from a whole file starts where the file does, if that is where its log starts. */
  lemma {:induction false} ReadStartsAtMin(f: FileState, limit: nat, bufferSize: nat)
    requires FileOk(f, limit) && f.log[0].timestamp == f.min
    ensures var pts := ReadView(View(Take(f.log, limit)), INT64_MIN, INT64_MAX, bufferSize);
      pts != [] ==> pts[0].timestamp == f.min
  {
    var view := View(f.log);
    ViewIsFold(f.log);
    CurrentMapPicks(f.log, f.min);
    AtTimeMember(f.log, f.min);
    assert f.log[0] in AtTime(f.log, f.min);
    ViewMember(f.log);
    ViewOk(f, limit);
    var first := Pick(AtTime(f.log, f.min));
    assert first in view && first.timestamp == f.min;
    assert view[0].timestamp == f.min;
    assert view[LowerBound(view, INT64_MIN)..] == view;
  }

  /** The constant conversion too: the start need only be aligned, but all values have to be the first one. */
  lemma {:induction false} ConstantConversionExact(view: Points, bufferSize: nat)
    requires var pts := ReadView(view, INT64_MIN, INT64_MAX, bufferSize);
      Dense(pts) && pts[0].value.Num?
    ensures var pts, full := ReadView(view, INT64_MIN, INT64_MAX, bufferSize), ReadView(view, INT64_MIN, INT64_MAX, |view|);
      var min, dur, value := pts[0].timestamp, DurationOf(pts), pts[0].value.x;
      var back := ConstantRead(min + |pts| * dur, dur, value, min, min + |pts| * dur);
      back == Got(full) <==> min % dur == 0 && OnGrid(full, min, dur) && AllEqual(full, Num(value)) && |full| <= bufferSize
  {
    var pts, full := ReadView(view, INT64_MIN, INT64_MAX, bufferSize), ReadView(view, INT64_MIN, INT64_MAX, |view|);
    var min, dur, value := pts[0].timestamp, DurationOf(pts), pts[0].value.x;
    BufferLimits(view, INT64_MIN, INT64_MAX, bufferSize);
    ConstantFullExact(pts, min, dur, value, min + |pts| * dur);
    ConstantReadLength(min, dur, value, |pts|, min + |pts| * dur);
  }

  lemma {:induction false} ConstantReadLength(min: int, dur: Pos, value: real, n: nat, end: int)
    ensures var r := ConstantRead(min + n * dur, dur, value, min, end); r.Got? ==> |r.points| <= n
  {
    var next := AlignUp(min, dur);
    StartsLater(min, dur);
    CountWithin(min, n, Min(min + n * dur, end), next, dur);
    var k := TDiv(Min(min + n * dur, end) - next, dur);
    if min + n * dur >= next && k >= 0 {
      EmitOnGrid(Repeat(Num(value), k), next, dur);
    }
  }

  // ---- Windows ----

  /** No positional read gives a point at or after the file's max. */
  lemma {:induction false} EmittedBelow(vs: seq<Value>, next: int, to: int, dur: Pos)
    requires TDiv(to - next, dur) >= 0 && |vs| <= TDiv(to - next, dur)
    ensures AllBelow(Emit(vs, next, dur), to)
  {
    var out, k := Emit(vs, next, dur), TDiv(to - next, dur);
    EmitOnGrid(vs, next, dur);
    GridBelow(out, next, dur);
    if out != [] {
      CountFits(next, to, dur);
      if k > |out| {
        Gap(k, |out|, dur);
      }
    }
  }

  lemma {:induction false} CountFits(next: int, to: int, dur: Pos)
    requires TDiv(to - next, dur) >= 1
    ensures TDiv(to - next, dur) * dur <= to - next
  {
    if to - next >= 0 {
      FloorPositive(to - next, dur);
    } else {
      FloorPositive(next - to, dur);
      assert false;
    }
  }

  lemma {:induction false} GridBelow(pts: Points, t: int, dur: Pos)
    requires OnGrid(pts, t, dur)
    ensures AllBelow(pts, t + |pts| * dur)
  {
    if pts != [] {
      var rest := pts[1..];
      GridBelow(rest, t + dur, dur);
      assert t + |pts| * dur == (t + dur) + |rest| * dur;
      assert |rest| * dur >= 0;
      forall i | 0 <= i < |pts| ensures pts[i].timestamp < t + |pts| * dur {
        if i > 0 {
          assert pts[i] == rest[i - 1];
        }
      }
    }
  }

  lemma {:induction false} GridTake(pts: Points, t: int, dur: nat, n: nat)
    requires OnGrid(pts, t, dur)
    ensures OnGrid(Take(pts, n), t, dur)
  {
    if n < |pts| {
      assert pts == pts[..n] + pts[n..];
      GridConcat(pts[..n], pts[n..], t, dur);
    }
  }

  /** What was not converted is missed by a window if and only if it reaches beyond the file's max. */
  lemma {:induction false} BeyondCap(view: Points, m: int, dur: Pos, cap: nat, lo: int, end: int)
    requires OnGrid(view, m * dur, dur) && cap < |view| && lo <= (m + cap) * dur
    ensures end <= (m + cap) * dur ==> Window(view, lo, end) == Window(Take(view, cap), lo, end)
    ensures end > (m + cap) * dur ==> !AllBelow(Window(view, lo, end), (m + cap) * dur)
  {
    var a, b := view[..cap], view[cap..];
    assert view == a + b;
    GridConcat(a, b, m * dur, dur);
    assert m * dur + |a| * dur == (m + cap) * dur;
    WindowConcat(a, b, lo, end);
    GridStrict(b, (m + cap) * dur, dur);
    if end <= (m + cap) * dur {
      WindowNone(b, lo, end);
      assert Window(a, lo, end) + [] == Window(a, lo, end);
    } else {
      WindowMember(view, lo, end);
      assert view[cap] == b[0] && view[cap] in view;
      var w := Window(view, lo, end);
      assert view[cap] in w;
      var i :| 0 <= i < |w| && w[i] == view[cap];
    }
  }

  /** A window of what was converted is the window of the whole view if and only if it stays in the file. */
  predicate Reaches(m: int, dur: nat, cap: nat, n: nat, end: int) {
    n <= cap || end <= (m + cap) * dur
  }

  lemma {:induction false} CappedWindow(view: Points, m: int, dur: Pos, cap: nat, lo: int, end: int, out: Points)
    requires OnGrid(view, m * dur, dur) && lo <= (m + |Take(view, cap)|) * dur
    requires AllBelow(out, (m + |Take(view, cap)|) * dur)
    ensures out == Window(view, lo, end) <==>
      out == Window(Take(view, cap), lo, end) && Reaches(m, dur, cap, |view|, end)
  {
    if cap < |view| {
      BeyondCap(view, m, dur, cap, lo, end);
    }
  }

  /**
   A dense file converted from points on the grid, with a read buffer for `cap` of them, reads a window
   that meets the file as the sparse file did if and only if the file does not start before zero,
   `ReadsRight`, the slots of the window hold its values, and it does not reach beyond what was converted.
   */
  lemma {:induction false} DenseConversionWindow(view: Points, m: int, dur: Pos, cap: nat, beyond: Value, lo: int, end: int)
    requires cap >= 1 && view != [] && OnGrid(view, m * dur, dur) && NoNaN(Values(view)) && AllBelow(view, INT64_MAX)
    requires lo <= (m + |Take(view, cap)|) * dur && m * dur < end && lo < end
    ensures var pts := Take(view, cap);
      var back := ReadDense(DenseOf(m * dur, dur, pts, beyond), m * dur, dur, lo, end);
      back == Got(ReadView(view, lo, end, |view|))
      <==> (&& m >= 0 && ReadsRight(m * dur, (m + |pts|) * dur, dur, lo, end)
            && SlotsHold(Image(m, pts, beyond), pts, lo, end) && Reaches(m, dur, cap, |view|, end))
  {
    var pts := Take(view, cap);
    GridTake(view, m * dur, dur, cap);
    DenseOfIs(m * dur, dur, pts, beyond);
    TDivExact(m, dur);
    GridReadsWindow(view, m * dur, dur, lo, end);
    if m >= 0 {
      ImageWindow(view, m, dur, cap, beyond, lo, end);
    }
  }

  lemma {:induction false} ImageWindow(view: Points, m: nat, dur: Pos, cap: nat, beyond: Value, lo: int, end: int)
    requires cap >= 1 && view != [] && OnGrid(view, m * dur, dur) && NoNaN(Values(view))
    requires lo <= (m + |Take(view, cap)|) * dur && m * dur < end && lo < end
    ensures var pts := Take(view, cap);
      var slots := Image(m, pts, beyond);
      DenseRead(m * dur, m * dur + |pts| * dur, dur, slots, lo, end) == Got(Window(view, lo, end))
      <==> (&& ReadsRight(m * dur, (m + |pts|) * dur, dur, lo, end)
            && SlotsHold(slots, pts, lo, end) && Reaches(m, dur, cap, |view|, end))
  {
    var pts := Take(view, cap);
    var slots, max := Image(m, pts, beyond), (m + |pts|) * dur;
    assert m * dur + |pts| * dur == max;
    assert forall i :: 0 <= i < |pts| ==> Values(pts)[i] == Values(view)[i];
    GridTake(view, m * dur, dur, cap);
    DenseWindowExact(slots, pts, m, dur, lo, end);
    var r := DenseRead(m * dur, max, dur, slots, lo, end);
    if r.Got? {
      DenseBelow(m * dur, max, dur, slots, lo, end);
      CappedWindow(view, m, dur, cap, lo, end, r.points);
    }
  }

  lemma {:induction false} DenseBelow(min: int, max: int, dur: Pos, slots: seq<Value>, lo: int, end: int)
    ensures var r := DenseRead(min, max, dur, slots, lo, end); r.Got? ==> AllBelow(r.points, max)
  {
    var next := AlignUp(lo, dur);
    var off, n := TDiv(next - min, dur), TDiv(Min(max, end) - next, dur);
    if max >= next && off >= 0 && n >= 0 {
      CutLength(slots, off, off + n);
      EmittedBelow(Cut(slots, off, off + n), next, Min(max, end), dur);
    }
  }

  lemma {:induction false} ConstantBelow(max: int, dur: Pos, value: real, lo: int, end: int)
    ensures var r := ConstantRead(max, dur, value, lo, end); r.Got? ==> AllBelow(r.points, max)
  {
    var next := AlignUp(lo, dur);
    var n := TDiv(Min(max, end) - next, dur);
    if max >= next && n >= 0 {
      EmittedBelow(Repeat(Num(value), n), next, Min(max, end), dur);
    }
  }

  lemma {:induction false} GridReadsWindow(view: Points, t: int, dur: Pos, lo: int, end: int)
    requires OnGrid(view, t, dur)
    ensures ReadView(view, lo, end, |view|) == Window(view, lo, end)
  {
    GridStrict(view, t, dur);
    WindowDisjoint(view, lo, end);
    ReadViewIsWindow(view, lo, end, |view|);
    WindowLength(view, lo, end);
  }

  /** The same for the constant conversion of a file with any aligned start. */
  lemma {:induction false} ConstantConversionWindow(view: Points, m: int, dur: Pos, value: real, cap: nat, lo: int, end: int)
    requires cap >= 1 && view != [] && OnGrid(view, m * dur, dur) && AllEqual(view, Num(value))
    requires lo <= (m + |Take(view, cap)|) * dur && m * dur < end && lo < end
    ensures var pts := Take(view, cap);
      var back := ConstantRead((m + |pts|) * dur, dur, value, lo, end);
      back == Got(ReadView(view, lo, end, |view|))
      <==> ReadsRight(m * dur, (m + |pts|) * dur, dur, lo, end) && Reaches(m, dur, cap, |view|, end)
  {
    var pts := Take(view, cap);
    GridTake(view, m * dur, dur, cap);
    GridReadsWindow(view, m * dur, dur, lo, end);
    ConstantWindowExact(pts, m, dur, value, lo, end);
    var r := ConstantRead((m + |pts|) * dur, dur, value, lo, end);
    if r.Got? {
      ConstantBelow((m + |pts|) * dur, dur, value, lo, end);
      CappedWindow(view, m, dur, cap, lo, end, r.points);
    }
  }

  // ---- The conversions themselves ----

  datatype Conversion = Left | Threw | ToDense(dense: DenseFile, status: Status) | ToConstant(constant: ConstantFile)

  /** The files of the directory by name, with the values a dense one holds. */
  type Disk = map<string, seq<Value>>

  function DensePath(min: int, pts: Points): string
    requires pts != []
  {
    FileNames.PrintDense(FileNames.DenseName(min, pts[0].duration))
  }

  function ConstantPath(min: int, pts: Points): string
    requires pts != []
  {
    FileNames.PrintConstant(FileNames.ConstantName(min, pts[0].duration, 0, pts[0].value))
  }

  /** What became of the points read from a file that starts at `min`. */
  ghost predicate Converted(r: Conversion, min: int, pts: Points, beyond: Value,
                            almostEquals: (Value, Value) -> bool, disk: Disk)
    reads match r
      case ToDense(file, _) => {file as object}
      case ToConstant(file) => {file as object}
      case _ => {}
  {
    match r
    case Left => !Dense(pts)
    case Threw => (
      && Dense(pts)
      && if Constant(pts, almostEquals)
         then CountBefore(pts, |pts|, INT64_MAX) > 0 && ConstantPath(min, pts) !in disk
         else DensePath(min, pts) !in disk)
    case ToDense(file, status) => (
      && Dense(pts) && !Constant(pts, almostEquals) && DensePath(min, pts) in disk
      && file.minTimestamp == min && file.duration == DurationOf(pts)
      && WrittenTo(file, status, min, pts, beyond, disk[DensePath(min, pts)]))
    case ToConstant(file) => (
      && Dense(pts) && Constant(pts, almostEquals)
      && (CountBefore(pts, |pts|, INT64_MAX) > 0 ==> ConstantPath(min, pts) in disk)
      && file.Valid() && file.minTimestamp == min && file.duration == DurationOf(pts)
      && Num(file.value) == pts[0].value && file.count == CountBefore(pts, |pts|, INT64_MAX))
  }

  /** The dense write to what was found under the new file's name; over an empty file it is `DenseOf`. */
  ghost predicate WrittenTo(file: DenseFile, status: Status, min: int, pts: Points, beyond: Value, slots: seq<Value>)
    reads file
  {
    var dur, k := DurationOf(pts), CountBefore(pts, |pts|, INT64_MAX);
    match DenseWrite(DenseState(min + |slots| * dur, slots), dur, pts, k, beyond)
    case Stored(f, _) => status == Fine && file.State() == f
    case SeekFailed => status == Broken
  }

  /** The write of a constant file renames it, which throws when the file is not there under its old name. */
  method ConvertSparseToConstant(min: int, pts: Points, ghost beyond: Value, almostEquals: (Value, Value) -> bool, disk: Disk)
    returns (r: Conversion)
    requires Comparison(almostEquals) && Dense(pts) && Constant(pts, almostEquals)
    ensures r.Threw? || r.ToConstant?
    ensures r.ToConstant? ==> fresh(r.constant)
    ensures Converted(r, min, pts, beyond, almostEquals, disk)
  {
    DenseStep(pts, pts[0].timestamp, DurationOf(pts), 0);
    assert almostEquals(pts[0].value, pts[0].value);
    var file := new ConstantFile(min, pts[0].duration, 0, pts[0].value.x);
    var written := file.Write(pts, |pts|, INT64_MAX);
    if written > 0 && ConstantPath(min, pts) !in disk {
      return Threw;
    }
    return ToConstant(file);
  }

  /** The constructor of a dense file asks for the size of the file, which throws when it is not there. */
  method ConvertSparseToDense(min: int, pts: Points, beyond: Value, ghost almostEquals: (Value, Value) -> bool, disk: Disk)
    returns (r: Conversion)
    requires Dense(pts) && !Constant(pts, almostEquals)
    ensures r.Threw? || r.ToDense?
    ensures r.ToDense? ==> fresh(r.dense)
    ensures Converted(r, min, pts, beyond, almostEquals, disk)
  {
    DenseStep(pts, pts[0].timestamp, DurationOf(pts), 0);
    if DensePath(min, pts) !in disk {
      return Threw;
    }
    var file := new DenseFile(min, pts[0].duration, disk[DensePath(min, pts)]);
    var written, status := file.Write(pts, |pts|, INT64_MAX, beyond);
    return ToDense(file, status);
  }

  /** Read the whole file with a buffer of the size an ordinary read has. */
  method ReadAll(sparse: SparseFile, limit: nat, bufferSize: nat) returns (pts: Points)
    ensures pts == ReadView(View(Take(sparse.log, limit)), INT64_MIN, INT64_MAX, bufferSize)
  {
    var buffer := new Datapoint[bufferSize];
    var op := new ReadOperation(INT64_MIN, INT64_MAX, buffer);
    sparse.Read(op, limit);
    EmptyLeft(ReadView(View(Take(sparse.log, limit)), INT64_MIN, INT64_MAX, bufferSize));
    pts := buffer[..op.cursor];
  }

  /** Convert a sparse file that has grown too big, if the tests allow it; `beyond` is the value left behind the points read. */
  method HandleSparseFileTooBig(sparse: SparseFile, limit: nat, bufferSize: nat, beyond: Value,
                                almostEquals: (Value, Value) -> bool, disk: Disk) returns (r: Conversion)
    requires Comparison(almostEquals)
    ensures var pts := ReadView(View(Take(sparse.log, limit)), INT64_MIN, INT64_MAX, bufferSize);
      Converted(r, sparse.minTimestamp, pts, beyond, almostEquals, disk)
  {
    var pts := ReadAll(sparse, limit, bufferSize);
    var dense := IsDense(pts);
    if !dense {
      return Left;
    }
    var constant := IsConstant(pts, almostEquals);
    if constant {
      r := ConvertSparseToConstant(sparse.minTimestamp, pts, beyond, almostEquals, disk);
    } else {
      r := ConvertSparseToDense(sparse.minTimestamp, pts, beyond, almostEquals, disk);
    }
  }

  /** In a directory of sparse files neither name is there, whatever the points. */
  lemma {:induction false} NamesAreNew(min: int, pts: Points, disk: Disk)
    requires pts != [] && FileNames.Int64(min) && FileNames.Int64(pts[0].duration)
    requires forall name :: name in disk ==> FileNames.ParseSparse(name, FileNames.NUL).Some?
    ensures DensePath(min, pts) !in disk && ConstantPath(min, pts) !in disk
  {
    var dense := FileNames.DenseName(min, pts[0].duration);
    var constant := FileNames.ConstantName(min, pts[0].duration, 0, pts[0].value);
    var strtod: string -> (Value, nat) := _ => (NaN, 0);
    FileNames.DenseRoundTrip(dense);
    FileNames.FormatsExclusive(FileNames.PrintDense(dense), FileNames.NUL, strtod);
    FileNames.ConstantNameLost(constant, FileNames.NUL, strtod);
  }

  /** As written every conversion in a directory of sparse files throws. */
  lemma {:induction false} EveryConversionThrows(r: Conversion, min: int, pts: Points, beyond: Value,
                                                 almostEquals: (Value, Value) -> bool, disk: Disk)
    requires Dense(pts) && AllBelow(pts, INT64_MAX) && FileNames.Int64(min) && FileNames.Int64(pts[0].duration)
    requires forall name :: name in disk ==> FileNames.ParseSparse(name, FileNames.NUL).Some?
    requires Converted(r, min, pts, beyond, almostEquals, disk)
    ensures r == Threw
  {
    NamesAreNew(min, pts, disk);
    AllCounted(pts, INT64_MAX);
  }
}
