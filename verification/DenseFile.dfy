/**
 Dense and constant files as the objects they are.

 A call that would fail (a seek before the start of the file, a vector of negative length) is
 reported as `Broken`; a read that would run past the end of its buffer is stopped there and
 reported as `Overrun`, because these two files never ask how much space is left.

 The iterator over buffered points has its two increments swapped: `it++` gives the position it has
 moved to. A dense write fills its slots through it, so each slot gets the value of the next point.
 */
module DenseFiles {
  import opened Numbers
  import opened Datapoints
  import opened Reads
  import opened CppDivision
  import opened PositionalFiles
  import GatherSlots

  const MAX_NAN_GAP: nat := 256

  datatype Status = Fine | Broken | Overrun

  /** How many points from the front are before the bound; the bound itself is excluded. */
  function CountBefore(pts: Points, maxPoints: nat, maxTimestamp: int): (k: nat)
    ensures k <= |pts|
  {
    if pts == [] || pts[0].timestamp >= maxTimestamp || maxPoints == 0 then 0
    else 1 + CountBefore(pts[1..], maxPoints - 1, maxTimestamp)
  }

  /** A sparse write takes the points up to and including its bound; a dense write stops one tick short of it. */
  lemma {:induction false} BoundIsExcluded(pts: Points, maxPoints: nat, maxTimestamp: int)
    ensures CountBefore(pts, maxPoints, maxTimestamp) == GatherSlots.WritableFrom(pts, 0, maxPoints, maxTimestamp - 1)
  {
    if pts != [] {
      UpperBoundShift(pts, 0, maxTimestamp - 1);
      if pts[0].timestamp < maxTimestamp && maxPoints > 0 {
        BoundIsExcluded(pts[1..], maxPoints - 1, maxTimestamp);
      }
    }
  }

  lemma {:induction false} UpperBoundShift(pts: Points, from: nat, t: int)
    requires from < |pts|
    ensures UpperBound(pts, from + 1, t) == UpperBound(pts[1..], from, t) + 1
    decreases |pts| - from
  {
    if from + 1 < |pts| && pts[from + 1].timestamp <= t {
      UpperBoundShift(pts, from + 1, t);
    }
  }

  method WritableDatapoints(pts: Points, maxPoints: nat, maxTimestamp: int) returns (writable: nat)
    ensures writable == CountBefore(pts, maxPoints, maxTimestamp)
  {
    writable := 0;
    var it := pts;
    while it != [] && it[0].timestamp < maxTimestamp && writable < maxPoints
      invariant writable <= maxPoints
      invariant CountBefore(pts, maxPoints, maxTimestamp) == writable + CountBefore(it, maxPoints - writable, maxTimestamp)
      decreases |it|
    {
      writable := writable + 1;
      it := it[1..];
    }
  }

  // ---- What a dense write does ----

  datatype DenseState = DenseState(max: int, slots: seq<Value>)

  datatype DenseWriteResult = Stored(file: DenseState, written: nat) | SeekFailed

  /** Writing at a position: what lies between the old end and it reads as zeros. */
  function Overlay(slots: seq<Value>, off: nat, vs: seq<Value>): seq<Value> {
    if off > |slots| then slots + Repeat(Num(0.0), off - |slots|) + vs
    else slots[..off] + vs + slots[Min(off + |vs|, |slots|)..]
  }

  /** Slot by slot: the new values where they were written, the old ones elsewhere, zeros in between. */
  lemma {:induction false} OverlaySlots(slots: seq<Value>, off: nat, vs: seq<Value>, i: nat)
    ensures i < |Overlay(slots, off, vs)| <==> i < off + |vs| || i < |slots|
    ensures i < off + |vs| || i < |slots| ==>
      (Overlay(slots, off, vs)[i] ==
        if off <= i < off + |vs| then vs[i - off] else if i < |slots| then slots[i] else Num(0.0))
  {
    if off > |slots| {
      PartsAt(slots, Repeat(Num(0.0), off - |slots|), vs, i);
    } else {
      PartsAt(slots[..off], vs, slots[Min(off + |vs|, |slots|)..], i);
    }
  }

  lemma {:induction false} PartsAt(a: seq<Value>, b: seq<Value>, c: seq<Value>, i: nat)
    ensures i < |a| + |b| + |c| ==>
      ((a + b + c)[i] == if i < |a| then a[i] else if i < |a| + |b| then b[i - |a|] else c[i - |a| - |b|])
  {
  }

  /** How many NaNs go in front of a point at `t`. */
  function Padding(max: int, dur: Pos, t: int): nat {
    if t > max then (t - max) / dur else 0
  }

  /** What `*it++` reads at position `i`: the point behind it, or what stands behind the buffer. */
  function ValueBehind(pts: Points, i: nat, beyond: Value): Value {
    if i + 1 < |pts| then pts[i + 1].value else beyond
  }

  /** The values a write of `k` points stores: not theirs, but those one further on. */
  function NextValues(pts: Points, k: nat, beyond: Value): (vs: seq<Value>)
    ensures |vs| == k
  {
    seq(k, i requires 0 <= i < k => ValueBehind(pts, i, beyond))
  }

  /** They are the points' own values if and only if all of these are alike, and so is what stands behind. */
  lemma {:induction false} NextValuesExact(pts: Points, beyond: Value)
    ensures NextValues(pts, |pts|, beyond) == Values(pts) <==> AllEqual(pts, beyond)
  {
    var next := NextValues(pts, |pts|, beyond);
    if next == Values(pts) {
      forall i | 0 <= i < |pts| ensures pts[i].value == beyond {
        SameToTheEnd(pts, beyond, i);
      }
    }
  }

  lemma {:induction false} SameToTheEnd(pts: Points, beyond: Value, i: nat)
    requires i < |pts| && NextValues(pts, |pts|, beyond) == Values(pts)
    ensures pts[i].value == beyond
    decreases |pts| - i
  {
    assert NextValues(pts, |pts|, beyond)[i] == Values(pts)[i];
    if i + 1 < |pts| {
      SameToTheEnd(pts, beyond, i + 1);
    }
  }

  /** `beyond` is the value behind the last point of the buffer. */
  function DenseWrite(f: DenseState, dur: Pos, pts: Points, k: nat, beyond: Value): DenseWriteResult
    requires k <= |pts|
  {
    if k == 0 || Padding(f.max, dur, pts[0].timestamp) > MAX_NAN_GAP then Stored(f, 0)
    else
      var nans := Padding(f.max, dur, pts[0].timestamp);
      var off := TDiv(Min(pts[0].timestamp, f.max), dur);
      if off < 0 then SeekFailed
      else Stored(DenseState(f.max + (nans + k) * dur, Overlay(f.slots, off, Repeat(NaN, nans) + NextValues(pts, k, beyond))), k)
  }

  class DenseFile {
    const minTimestamp: int
    const duration: nat
    var maxTimestamp: int
    var slots: seq<Value>

    /** A file that is on disk with these slots; its max follows from its size. */
    constructor (min: int, dur: nat, slots: seq<Value>)
      ensures State() == DenseState(min + |slots| * dur, slots) && minTimestamp == min && duration == dur
    {
      minTimestamp, duration, maxTimestamp, this.slots := min, dur, min + |slots| * dur, slots;
    }

    function State(): DenseState
      reads this
    {
      DenseState(maxTimestamp, slots)
    }

    /** Put values for the writable points at the slot of the first, with NaNs in front to fill a gap. */
    method Write(pts: Points, maxPoints: nat, maxTimestamp: int, beyond: Value) returns (written: nat, status: Status)
      requires duration >= 1
      modifies this
      ensures var k := CountBefore(pts, maxPoints, maxTimestamp);
        match DenseWrite(old(State()), duration, pts, k, beyond)
        case Stored(file, n) => State() == file && written == n && status == Fine
        case SeekFailed => State() == old(State()) && status == Broken
    {
      var k := WritableDatapoints(pts, maxPoints, maxTimestamp);
      written, status := 0, Fine;
      if k == 0 {
        return;
      }
      var numNans: nat := 0;
      if pts[0].timestamp > this.maxTimestamp {
        numNans := (pts[0].timestamp - this.maxTimestamp) / duration;
      }
      if numNans > MAX_NAN_GAP {
        return;
      }
      var values := FillSlots(numNans, pts, k, beyond);
      var offset := TDiv(Min(pts[0].timestamp, this.maxTimestamp), duration);
      if offset < 0 {
        return 0, Broken;
      }
      slots := Overlay(slots, offset, values[..]);
      this.maxTimestamp := this.maxTimestamp + (numNans + k) * duration;
      written := k;
    }

    /** Read the slots of the window; a NaN is skipped without moving the clock. */
    method Read(op: ReadOperation) returns (status: Status)
      requires duration >= 1 && op.Valid() && INT64_MIN <= op.nextTime && op.endTime <= INT64_MAX
      modifies op, op.buffer
      ensures op.Valid()
      ensures match DenseRead(minTimestamp, maxTimestamp, duration, slots, old(op.nextTime), op.endTime)
        case Failed => status == Broken && op.Emitted() == old(op.Emitted())
        case Got(out) => (
          && Took(op.Emitted(), old(op.Emitted()), out, old(op.SpaceLeft()), status)
          && (status == Fine ==> op.nextTime == NextAfter(AlignUp(old(op.nextTime), duration), out)))
    {
      StartsLater(op.nextTime, duration);
      op.nextTime := AlignUp(op.nextTime, duration);
      ghost var before := op.Emitted();
      assert before + [] == before;
      if maxTimestamp < op.nextTime {
        return Fine;
      }
      var offset := TDiv(op.nextTime - minTimestamp, duration);
      var count := TDiv(Min(maxTimestamp, op.endTime) - op.nextTime, duration);
      if offset < 0 || count < 0 {
        return Broken;
      }
      var values := Cut(slots, offset, offset + count);
      CutLength(slots, offset, offset + count);
      CountInRange(op.nextTime, Min(maxTimestamp, op.endTime), duration, count);
      InRangeShorter(op.nextTime, count, |values|, duration);
      status := EmitAll(values, duration, op);
    }
  }

  /** The value array of a write: first the NaNs, then what the stepping iterator gives. */
  method FillSlots(numNans: nat, pts: Points, k: nat, beyond: Value) returns (values: array<Value>)
    requires k <= |pts|
    ensures fresh(values) && values[..] == Repeat(NaN, numNans) + NextValues(pts, k, beyond)
  {
    values := new Value[numNans + k];
    for i := 0 to numNans
      invariant forall j :: 0 <= j < i ==> values[j] == NaN
    {
      values[i] := NaN;
    }
    var it: nat := 0;
    for i := numNans to numNans + k
      invariant it == i - numNans
      invariant forall j :: 0 <= j < numNans ==> values[j] == NaN
      invariant forall j :: numNans <= j < i ==> values[j] == ValueBehind(pts, j - numNans, beyond)
    {
      it := it + 1;
      values[i] := if it < |pts| then pts[it].value else beyond;
    }
  }

  /** What is in the buffer afterwards: everything, or as much as there was room for. */
  ghost predicate Took(after: Points, before: Points, out: Points, space: nat, status: Status) {
    && status == (if |out| <= space then Fine else Overrun)
    && after == before + Take(out, space)
  }

  /** Emit values one duration apart. */
  method EmitAll(values: seq<Value>, dur: Pos, op: ReadOperation) returns (status: Status)
    requires op.Valid() && InRange(op.nextTime, |values|, dur)
    modifies op, op.buffer
    ensures op.Valid()
    ensures Took(op.Emitted(), old(op.Emitted()), Emit(values, old(op.nextTime), dur), old(op.SpaceLeft()), status)
    ensures status == Fine ==> op.nextTime == NextAfter(old(op.nextTime), Emit(values, old(op.nextTime), dur))
  {
    var it := values;
    ghost var before, next0, space := op.Emitted(), op.nextTime, op.SpaceLeft();
    ghost var all := Emit(values, next0, dur);
    ghost var out: Points := [];
    EmptyLeft(all);
    assert before + [] == before;
    while it != []
      invariant op.Valid() && InRange(op.nextTime, |it|, dur)
      invariant op.Emitted() == before + out && op.SpaceLeft() == space - |out|
      invariant op.nextTime == NextAfter(next0, out)
      invariant out + Emit(it, op.nextTime, dur) == all
      decreases |it|
    {
      if it[0].NaN? {
        InRangeShorter(op.nextTime, |it|, |it| - 1, dur);
      } else {
        if op.SpaceLeft() == 0 {
          assert Take(all, space) == out;
          return Overrun;
        }
        var p := Datapoint(op.nextTime, it[0], dur);
        Shift(before, out, p, Emit(it[1..], op.nextTime + dur, dur));
        op.Append(p);
        out := out + [p];
      }
      it := it[1..];
    }
    assert out + [] == out;
    return Fine;
  }

  /** A constant file: its points are one value, one duration apart. */
  class ConstantFile {
    const minTimestamp: int
    const duration: nat
    const value: real
    var count: nat
    var maxTimestamp: int

    constructor (min: int, dur: nat, count: nat, value: real)
      ensures minTimestamp == min && duration == dur && this.value == value && this.count == count && Valid()
    {
      minTimestamp, duration, this.value, this.count, maxTimestamp := min, dur, value, count, min + count * dur;
    }

    predicate Valid()
      reads this
    {
      maxTimestamp == minTimestamp + count * duration
    }

    /** Only counts the points: neither their values nor their times are looked at. */
    method Write(pts: Points, maxPoints: nat, maxTimestamp: int) returns (written: nat)
      requires Valid()
      modifies this
      ensures Valid() && written == CountBefore(pts, maxPoints, maxTimestamp)
      ensures count == old(count) + written
    {
      written := WritableDatapoints(pts, maxPoints, maxTimestamp);
      if written == 0 {
        return;
      }
      count := count + written;
      this.maxTimestamp := minTimestamp + count * duration;
    }

    method Read(op: ReadOperation) returns (status: Status)
      requires duration >= 1 && op.Valid() && INT64_MIN <= op.nextTime && op.endTime <= INT64_MAX
      modifies op, op.buffer
      ensures op.Valid()
      ensures match ConstantRead(maxTimestamp, duration, value, old(op.nextTime), op.endTime)
        case Failed => status == Broken && op.Emitted() == old(op.Emitted())
        case Got(out) => (
          && Took(op.Emitted(), old(op.Emitted()), out, old(op.SpaceLeft()), status)
          && (status == Fine ==> op.nextTime == NextAfter(AlignUp(old(op.nextTime), duration), out)))
    {
      StartsLater(op.nextTime, duration);
      op.nextTime := AlignUp(op.nextTime, duration);
      ghost var before := op.Emitted();
      assert before + [] == before;
      if maxTimestamp < op.nextTime {
        return Fine;
      }
      var count := TDiv(Min(maxTimestamp, op.endTime) - op.nextTime, duration);
      if count < 0 {
        return Broken;
      }
      CountInRange(op.nextTime, Min(maxTimestamp, op.endTime), duration, count);
      status := EmitAll(Repeat(Num(value), count), duration, op);
    }
  }

  // ---- Adding to a dense file ----

  /** Nothing but possibly the last value is a NaN. */
  ghost predicate NoNaNBefore(vs: seq<Value>) {
    forall i :: 0 <= i < |vs| - 1 ==> vs[i].Num?
  }

  lemma {:induction false} AllNaNMeans(vs: seq<Value>)
    ensures AllNaN(vs) <==> forall i :: 0 <= i < |vs| ==> vs[i].NaN?
  {
    if vs != [] {
      AllNaNMeans(vs[1..]);
      assert forall i :: 0 < i < |vs| ==> vs[i] == vs[1..][i - 1];
    }
  }

  /** Values, then NaNs, then values: nothing stands behind a NaN only if there is none, or nothing else. */
  lemma {:induction false} PaddingTrails(vs: seq<Value>, g: nat, more: seq<Value>)
    requires NoNaN(vs) && NoNaNBefore(more) && more != []
    ensures OnlyTrailing(vs + (Repeat(NaN, g) + more)) <==> g == 0 || more == [NaN]
  {
    var tail := Repeat(NaN, g) + more;
    if vs != [] {
      PaddingTrails(vs[1..], g, more);
      assert (vs + tail)[1..] == vs[1..] + tail;
    } else {
      EmptyLeft(tail);
      if g == 0 {
        assert Repeat(NaN, 0) == [];
        EmptyLeft(more);
        LastMayTrail(more);
      } else {
        AllNaNMeans(tail);
        assert tail[g] == more[0];
      }
    }
  }

  lemma {:induction false} LastMayTrail(vs: seq<Value>)
    requires NoNaNBefore(vs)
    ensures OnlyTrailing(vs)
  {
    if vs != [] {
      LastMayTrail(vs[1..]);
    }
  }

  /**
   Adding points behind a dense file that starts at zero and is in step with its max puts the values
   behind the file's own and its padding. The slots are read back at their own times if and only if no
   padding was needed, or there is nothing but padding. The points added are another matter: see
   `AppendExact`.
   */
  lemma {:induction false} AppendPads(vs: seq<Value>, dur: Pos, pts: Points, beyond: Value)
    requires NoNaN(vs) && NoNaN(Values(pts)) && pts != [] && pts[0].timestamp >= |vs| * dur
    requires Padding(|vs| * dur, dur, pts[0].timestamp) <= MAX_NAN_GAP
    requires InRange(0, |vs| + (Padding(|vs| * dur, dur, pts[0].timestamp) + |pts|), dur)
    ensures var g := Padding(|vs| * dur, dur, pts[0].timestamp);
      var slots := vs + (Repeat(NaN, g) + NextValues(pts, |pts|, beyond));
      && DenseWrite(DenseState(|vs| * dur, vs), dur, pts, |pts|, beyond) == Stored(DenseState(|slots| * dur, slots), |pts|)
      && (Emit(slots, 0, dur) == Meaning(slots, 0, dur) <==> g == 0 || (|pts| == 1 && beyond.NaN?))
  {
    var g, next := Padding(|vs| * dur, dur, pts[0].timestamp), NextValues(pts, |pts|, beyond);
    PadsBehind(vs, dur, pts, beyond);
    assert NoNaNBefore(next) && (next == [NaN] <==> |pts| == 1 && beyond.NaN?) by {
      assert forall i :: 0 <= i < |pts| - 1 ==> next[i] == Values(pts)[i + 1];
      assert |pts| == 1 ==> next == [beyond] && [beyond][0] == beyond;
      assert next == [NaN] ==> next[0] == NaN;
    }
    PaddingTrails(vs, g, next);
    PaddingExact(vs + (Repeat(NaN, g) + next), 0, dur);
  }

  lemma {:induction false} PadsBehind(vs: seq<Value>, dur: Pos, pts: Points, beyond: Value)
    requires pts != [] && pts[0].timestamp >= |vs| * dur
    requires Padding(|vs| * dur, dur, pts[0].timestamp) <= MAX_NAN_GAP
    ensures var slots := vs + (Repeat(NaN, Padding(|vs| * dur, dur, pts[0].timestamp)) + NextValues(pts, |pts|, beyond));
      DenseWrite(DenseState(|vs| * dur, vs), dur, pts, |pts|, beyond) == Stored(DenseState(|slots| * dur, slots), |pts|)
  {
    var g := Padding(|vs| * dur, dur, pts[0].timestamp);
    var more := Repeat(NaN, g) + NextValues(pts, |pts|, beyond);
    TDivExact(|vs|, dur);
    OverlayBehind(vs, more);
    assert |vs| * dur + (g + |pts|) * dur == |vs + more| * dur;
  }

  function ReadDense(written: DenseWriteResult, min: int, dur: Pos, lo: int, end: int): ReadResult {
    match written
    case Stored(f, _) => DenseRead(min, f.max, dur, f.slots, lo, end)
    case SeekFailed => Failed
  }

  /** Reading from the start of a file that begins at zero gives points on the grid, whatever is in it. */
  lemma {:induction false} ReadsOnGrid(max: int, dur: Pos, slots: seq<Value>, end: int)
    ensures var r := DenseRead(0, max, dur, slots, 0, end); r.Got? ==> OnGrid(r.points, 0, dur)
  {
    var off, n := TDiv(0, dur), TDiv(Min(max, end) - 0, dur);
    ZeroIsAligned(dur);
    if off >= 0 && n >= 0 {
      EmitOnGrid(Cut(slots, off, off + n), 0, dur);
    }
  }

  lemma {:induction false} OverlayBehind(vs: seq<Value>, more: seq<Value>)
    ensures Overlay(vs, |vs|, more) == vs + more
  {
    assert vs[..|vs|] == vs;
    assert vs[|vs|..] == [];
    assert (vs + more) + [] == vs + more;
  }

  /** Points that go on where the file ends put their values behind the file's, without padding. */
  lemma {:induction false} AppendOnGrid(stored: Points, dur: Pos, pts: Points, beyond: Value)
    requires pts != [] && OnGrid(pts, |stored| * dur, dur)
    ensures DenseWrite(DenseState(|stored| * dur, Values(stored)), dur, pts, |pts|, beyond)
      == Stored(DenseState(|stored + pts| * dur, Values(stored) + NextValues(pts, |pts|, beyond)), |pts|)
  {
    var vs, next := Values(stored), NextValues(pts, |pts|, beyond);
    TDivExact(|stored|, dur);
    assert Repeat(NaN, 0) == [];
    EmptyLeft(next);
    OverlayBehind(vs, next);
    assert |stored| * dur + (0 + |pts|) * dur == |stored + pts| * dur;
  }

  lemma {:induction false} SameTail(a: seq<Value>, b: seq<Value>, c: seq<Value>)
    ensures a + b == a + c <==> b == c
  {
    if a + b == a + c {
      assert b == (a + b)[|a|..] && c == (a + c)[|a|..];
    }
  }

  /**
   Whatever points are added to a dense file of points from time zero on: reading the whole file gives
   back the old points and the new if and only if the new ones go on exactly where the old ones end,
   without gaps, and all have the one value that also stands behind them in the buffer.
   */
  lemma {:induction false} AppendExact(stored: Points, dur: Pos, pts: Points, beyond: Value, end: int)
    requires OnGrid(stored, 0, dur) && NoNaN(Values(stored)) && NoNaN(Values(pts)) && pts != []
    requires end >= |stored + pts| * dur
    ensures ReadDense(DenseWrite(DenseState(|stored| * dur, Values(stored)), dur, pts, |pts|, beyond), 0, dur, 0, end)
        == Got(stored + pts)
      <==> OnGrid(pts, |stored| * dur, dur) && AllEqual(pts, beyond)
  {
    var r := DenseWrite(DenseState(|stored| * dur, Values(stored)), dur, pts, |pts|, beyond);
    GridConcat(stored, pts, 0, dur);
    if OnGrid(pts, |stored| * dur, dur) {
      var vs := Values(stored) + NextValues(pts, |pts|, beyond);
      AppendOnGrid(stored, dur, pts, beyond);
      ReadsAll(vs, dur, end);
      ValuesConcat(stored, pts);
      EmitBack(vs, stored + pts, 0, dur);
      SameTail(Values(stored), NextValues(pts, |pts|, beyond), Values(pts));
      NextValuesExact(pts, beyond);
    } else if r.Stored? {
      ReadsOnGrid(r.file.max, dur, r.file.slots, end);
    }
  }

  lemma {:induction false} ReadsAll(vs: seq<Value>, dur: Pos, end: int)
    requires end >= |vs| * dur
    ensures DenseRead(0, |vs| * dur, dur, vs, 0, end) == Got(Emit(vs, 0, dur))
  {
    ZeroIsAligned(dur);
    WholeDenseRead(0, dur, vs, |vs|, end);
    CutIsSlice(vs, 0, |vs|);
    assert vs[0..|vs|] == vs;
  }
}
