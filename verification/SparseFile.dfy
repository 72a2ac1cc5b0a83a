/**
 A sparse file as the object it is, and the write in progress it is handed.
 */
module SparseFiles {
  import opened Numbers
  import opened Datapoints
  import opened Outcomes
  import opened LogView
  import opened Reads
  import opened FileWrites
  import opened GatherSlots
  import opened WriteBuffers

  const DATAPOINT_SIZE: nat := 24

  /** The size in bytes beyond which a file is queued for conversion. */
  const OPTIMIZE_SIZE: nat := 0x1000

  /** A write in progress: a cursor into the buffer and the limits of the file being tried. */
  class WriteOperation {
    const buffer: WriteBuffer
    var cursor: nat
    var maxWritableDatapoints: nat
    var maxWritableTimestamp: int

    constructor (buffer: WriteBuffer)
      ensures this.buffer == buffer && cursor == 0
    {
      this.buffer, cursor, maxWritableDatapoints, maxWritableTimestamp := buffer, 0, 0, INT64_MAX;
    }

    /** The buffer is flagged as sorted before a write starts and stays as it is. */
    ghost predicate Valid()
      reads this, buffer, buffer.Chunks()
    {
      buffer.Valid() && buffer.sorted && cursor <= |buffer.contents|
    }

    method Complete() returns (complete: bool)
      requires Valid()
      ensures complete <==> cursor == |buffer.contents|
    {
      complete := cursor == buffer.numDatapoints;
    }

    /**
     Gather the points from the cursor on that both limits allow, and read them back from the slots of
     the vector. When the slots do not hold what a writer may use, the source would write memory that is
     not its own.
     */
    method Gather() returns (ending: Outcome<()>, taken: Points, writable: nat)
      requires Valid()
      modifies buffer`contents, buffer`sorted, buffer.Chunks()
      ensures Valid() && buffer.contents == old(buffer.contents)
      ensures buffer.contents != [] ==>
        ending == VectorOutcome(buffer.contents, cursor, maxWritableTimestamp, maxWritableDatapoints, buffer.perAlloc)
      ensures ending.Returned? ==>
        && writable == Writable(buffer.contents, cursor, maxWritableTimestamp, maxWritableDatapoints)
        && taken == buffer.contents[cursor..cursor + writable]
    {
      var iov;
      ghost var segs;
      ending, iov, writable, segs := buffer.GetIOVector(cursor, maxWritableDatapoints, maxWritableTimestamp);
      taken := [];
      if ending.IsFailure() {
        return;
      }
      ending, taken := UseVector(iov, writable, segs);
    }

    /** Read the points back from a vector that has been built. */
    method UseVector(iov: IoVector, writable: nat, ghost segs: seq<Segment>) returns (ending: Outcome<()>, taken: Points)
      requires Valid() && SplitsAt(buffer.contents, maxWritableTimestamp)
      requires buffer.Gathers(segs, iov, writable, cursor, maxWritableDatapoints, maxWritableTimestamp)
      ensures ending ==
        VectorOutcome(buffer.contents, cursor, maxWritableTimestamp, maxWritableDatapoints, buffer.perAlloc)
      ensures ending.Returned? ==>
        && writable == Writable(buffer.contents, cursor, maxWritableTimestamp, maxWritableDatapoints)
        && taken == buffer.contents[cursor..cursor + writable]
    {
      VectorHolds(buffer.contents, cursor, maxWritableTimestamp, maxWritableDatapoints, buffer.perAlloc, segs, iov, writable);
      ending, taken := ReadSlots(iov, segs, buffer.contents[cursor..cursor + writable]);
    }

    /** What a writer finds in the slots. */
    method ReadSlots(iov: IoVector, ghost segs: seq<Segment>, ghost want: Points) returns (ending: Outcome<()>, taken: Points)
      requires buffer.Valid() && buffer.PiecesFit(segs) && buffer.Gathered(segs) == want
      requires AllSet(iov) ==> Holds(iov, segs)
      ensures ending == if AllSet(iov) then Returned(()) else Corrupts
      ensures ending.Returned? ==> taken == want
    {
      if !AllSet(iov) {
        return Corrupts, [];
      }
      SlotListIs(iov, segs);
      taken := buffer.Collect(SlotList(iov), want);
      ending := Returned(());
    }
  }

  /** All slots are set exactly when they are right, and then they hold what was gathered. */
  lemma {:induction false} VectorHolds(pts: Points, pos: nat, bound: int, maxPoints: nat, n: Pos,
                                       segs: seq<Segment>, iov: IoVector, writable: nat)
    requires pos <= |pts| && writable == WritableFrom(pts, pos, maxPoints, bound) && segs == Pieces(pos, pos + writable, n)
    requires iov == Filled(segs, IovCount(pos, UpperBound(pts, 0, bound), maxPoints, n))
    ensures AllSet(iov) <==> SlotsRight(pos, UpperBound(pts, 0, bound), maxPoints, n)
    ensures AllSet(iov) ==> Holds(iov, segs)
    ensures SplitsAt(pts, bound) ==> writable == Writable(pts, pos, bound, maxPoints)
  {
    IntactExactly(pos, UpperBound(pts, 0, bound), maxPoints, n);
    if SplitsAt(pts, bound) {
      WritableAgrees(pts, pos, bound, maxPoints);
    }
  }

  class SparseFile {
    var minTimestamp: int
    var maxTimestamp: int
    var log: Points
    var optimized: bool

    constructor (min: int, max: int)
      ensures State() == FileState(min, max, []) && !optimized
    {
      minTimestamp, maxTimestamp, log, optimized := min, max, [], false;
    }

    function State(): FileState
      reads this
    {
      FileState(minTimestamp, maxTimestamp, log)
    }

    /** How many records the size limit leaves room for, counted in bytes as the source does. */
    method RemainingWritableDatapoints(maxBytes: nat) returns (n: nat)
      ensures n == Room(State(), maxBytes / DATAPOINT_SIZE)
    {
      var fileSize := DATAPOINT_SIZE * |log|;
      if fileSize < maxBytes {
        n := (maxBytes - fileSize) / DATAPOINT_SIZE;
      } else {
        n := 0;
      }
    }

    /**
     Sort what can be read of the log, find the first point of the window and copy one point per
     timestamp until the window, the space or the overlap-free run ends.
     */
    method Read(op: ReadOperation, limit: nat)
      requires op.Valid()
      modifies op, op.buffer
      ensures op.Valid()
      ensures op.Emitted() == old(op.Emitted())
        + ReadView(View(Take(log, limit)), old(op.nextTime), op.endTime, old(op.SpaceLeft()))
      ensures op.nextTime == NextAfter(old(op.nextTime),
          ReadView(View(Take(log, limit)), old(op.nextTime), op.endTime, old(op.SpaceLeft())))
    {
      var points := StableSort(Take(log, limit));
      StableSortSpec(Take(log, limit));
      var it := LowerBound(points, op.nextTime);
      DedupFromLowerBound(points, op.nextTime);
      EmitWindow(points[it..], op);
    }

    /** The max after writing, before it is compared with the old one. */
    method BufferMax(op: WriteOperation) returns (bufferMax: int)
      requires op.Valid()
      ensures Max(maxTimestamp, bufferMax) == Raised(maxTimestamp, op.buffer.contents, op.cursor, op.maxWritableTimestamp)
    {
      bufferMax := maxTimestamp;
      for i := op.cursor to op.buffer.numDatapoints
        invariant bufferMax == RaisedSoFar(maxTimestamp, op.buffer.contents, op.cursor, i, op.maxWritableTimestamp)
      {
        var p := op.buffer.ValueAt(i);
        if p.timestamp > bufferMax {
          bufferMax := Min(p.timestamp, op.maxWritableTimestamp);
        }
      }
    }

    /**
     Append what both limits allow, and raise the max to what the running maximum over the buffer has
     come to, cut at the bound. A write whose gather vector cannot be built or used ends here. A file that
     has grown too big is queued for conversion once.
     */
    method Write(op: WriteOperation) returns (ending: Outcome<()>, written: nat, queued: bool)
      requires op.Valid() && op.cursor < |op.buffer.contents|
      modifies this, op.buffer`contents, op.buffer`sorted, op.buffer.Chunks()
      ensures op.Valid() && op.buffer.contents == old(op.buffer.contents)
      ensures ending ==
        VectorOutcome(op.buffer.contents, op.cursor, op.maxWritableTimestamp, op.maxWritableDatapoints, op.buffer.perAlloc)
      ensures ending.Returned? ==>
        && written == Writable(op.buffer.contents, op.cursor, op.maxWritableTimestamp, op.maxWritableDatapoints)
        && State() == Grown(old(State()), op.buffer.contents, op.cursor, op.maxWritableTimestamp, written)
      ensures ending.IsFailure() ==> State() == old(State())
      ensures queued <==> ending.Returned? && !old(optimized) && DATAPOINT_SIZE * |log| > OPTIMIZE_SIZE
      ensures optimized <==> old(optimized) || queued
    {
      var bufferMax := BufferMax(op);
      var taken: Points;
      queued := false;
      ending, taken, written := op.Gather();
      if ending.IsFailure() {
        return;
      }
      Extend(taken, bufferMax, op.buffer.contents, op.cursor, op.maxWritableTimestamp, written);
      queued := !optimized && DATAPOINT_SIZE * |log| > OPTIMIZE_SIZE;
      optimized := optimized || queued;
    }

    method Extend(taken: Points, bufferMax: int, ghost pts: Points, ghost c: nat, ghost bound: int, ghost k: nat)
      requires c + k <= |pts| && taken == pts[c..c + k]
      requires Max(maxTimestamp, bufferMax) == Raised(maxTimestamp, pts, c, bound)
      modifies this`log, this`maxTimestamp
      ensures State() == Grown(old(State()), pts, c, bound, k)
    {
      log := log + taken;
      if bufferMax > maxTimestamp {
        maxTimestamp := bufferMax;
      }
    }
  }

  /**
   Copy points into the read until the window, the space or the overlap-free run ends. The iterator
   is the sequence of points it still has in front of it.
   */
  method EmitWindow(points: Points, op: ReadOperation)
    requires op.Valid()
    modifies op, op.buffer
    ensures op.Valid()
    ensures var out := TakeRun(Dedup(points), old(op.nextTime), op.endTime, old(op.SpaceLeft()));
      op.Emitted() == old(op.Emitted()) + out && op.nextTime == NextAfter(old(op.nextTime), out)
  {
    var it := points;
    ghost var before, next0 := op.Emitted(), op.nextTime;
    ghost var all := TakeRun(Dedup(points), next0, op.endTime, op.SpaceLeft());
    ghost var out: Points := [];
    EmptyLeft(all);
    assert before + [] == before;
    while it != [] && it[0].timestamp >= op.nextTime && it[0].timestamp < op.endTime
          && op.SpaceLeft() > 0 && !op.Complete()
      invariant op.Valid()
      invariant op.Emitted() == before + out
      invariant op.nextTime == NextAfter(next0, out)
      invariant out + TakeRun(Dedup(it), op.nextTime, op.endTime, op.SpaceLeft()) == all
      decreases |it|
    {
      var next, p := ChoosePoint(it);
      TakeRunCons(p, Dedup(next), op.nextTime, op.endTime, op.SpaceLeft());
      op.Append(p);
      Shift(before, out, p, TakeRun(Dedup(next), op.nextTime, op.endTime, op.SpaceLeft()));
      out := out + [p];
      it := next;
    }
    RunOver(it, op.nextTime, op.endTime, op.SpaceLeft());
    assert out + [] == out;
  }

  /** The point that a run of equal timestamps now holds, and the points behind the run. */
  method ChoosePoint(it: Points) returns (next: Points, p: Datapoint)
    requires it != []
    ensures |next| < |it| && p.timestamp == it[0].timestamp
    ensures Dedup(it) == [p] + Dedup(next)
  {
    var n := NextTimestamp(it);
    var chosen := LastWithFirstDuration(it, n);
    p := it[chosen];
    next := it[n..];
    assert p in it[..n];
  }

  /** Scan forward to the first point with another timestamp. */
  method NextTimestamp(it: Points) returns (n: nat)
    requires it != []
    ensures n == RunLength(it)
  {
    n := 1;
    while n < |it| && it[n].timestamp == it[0].timestamp
      invariant 1 <= n <= |it|
      invariant forall j :: 0 <= j < n ==> it[j].timestamp == it[0].timestamp
    {
      n := n + 1;
    }
    RunLengthIs(it, n);
  }

  lemma {:induction false} RunLengthIs(it: Points, n: nat)
    requires 1 <= n <= |it|
    requires forall j :: 0 <= j < n ==> it[j].timestamp == it[0].timestamp
    requires n < |it| ==> it[n].timestamp != it[0].timestamp
    ensures RunLength(it) == n
  {
    if n > 1 {
      RunLengthIs(it[1..], n - 1);
    }
  }

  /** Scan backwards for the last point that has the first one's duration. */
  method LastWithFirstDuration(it: Points, n: nat) returns (i: nat)
    requires 1 <= n <= |it|
    ensures i < n && it[i] == Pick(it[..n])
  {
    i := n - 1;
    while i != 0 && it[i].duration != it[0].duration
      invariant i < n
      invariant Pick(it[..i + 1]) == Pick(it[..n])
    {
      assert it[..i + 1][..i] == it[..i];
      i := i - 1;
    }
  }

  lemma {:induction false} SplitAtBound(points: Points, t: int)
    requires Ordered(points)
    ensures var k := LowerBound(points, t);
      && points == points[..k] + points[k..]
      && Ordered(points[..k]) && AllBelow(points[..k], t)
      && Ordered(points[k..]) && AllAtLeast(points[k..], t)
  {
    var k := LowerBound(points, t);
    forall i | 0 <= i < |points| - k ensures points[k..][i].timestamp >= t {
      assert points[k].timestamp <= points[k + i].timestamp;
    }
  }

  lemma {:induction false} DedupFromLowerBound(points: Points, t: int)
    requires Ordered(points)
    ensures Dedup(points[LowerBound(points, t)..]) == Dedup(points)[LowerBound(Dedup(points), t)..]
  {
    var k := LowerBound(points, t);
    SplitAtBound(points, t);
    DedupOfParts(points[..k], points[k..], t);
  }

  lemma {:induction false} DedupOfParts(a: Points, b: Points, t: int)
    requires Ordered(a) && AllBelow(a, t) && Ordered(b) && AllAtLeast(b, t)
    ensures Dedup(b) == Dedup(a + b)[LowerBound(Dedup(a + b), t)..]
  {
    DedupConcat(a, b);
    DedupBelow(a, t);
    DedupAtLeast(b, t);
    BoundAt(Dedup(a), Dedup(b), t);
  }

  lemma {:induction false} DedupBelow(s: Points, t: int)
    requires Ordered(s) && AllBelow(s, t)
    ensures AllBelow(Dedup(s), t)
  {
    DedupStrictlyOrdered(s);
    forall i | 0 <= i < |Dedup(s)| ensures Dedup(s)[i].timestamp < t {
      assert Dedup(s)[i] in s;
    }
  }

  lemma {:induction false} DedupAtLeast(s: Points, t: int)
    requires Ordered(s) && AllAtLeast(s, t)
    ensures AllAtLeast(Dedup(s), t)
  {
    DedupStrictlyOrdered(s);
    forall i | 0 <= i < |Dedup(s)| ensures Dedup(s)[i].timestamp >= t {
      assert Dedup(s)[i] in s;
    }
  }

  lemma {:induction false} BoundAt(a: Points, b: Points, t: int)
    requires AllBelow(a, t) && AllAtLeast(b, t)
    ensures LowerBound(a + b, t) == |a| && (a + b)[|a|..] == b
  {
    if a == [] {
      EmptyLeft(b);
    } else {
      var rest := a[1..];
      BoundAt(rest, b, t);
      assert (a + b)[1..] == rest + b;
      assert (a + b)[|a|..] == b;
    }
  }

  lemma {:induction false} TakeRunCons(p: Datapoint, rest: Points, at: int, end: int, cap: nat)
    requires at <= p.timestamp < end && cap > 0
    ensures TakeRun([p] + rest, at, end, cap) == [p] + TakeRun(rest, EndOf(p), end, cap - 1)
  {
    assert ([p] + rest)[1..] == rest;
  }

  /** When the loop ends the run has nothing more to give. */
  lemma {:induction false} RunOver(it: Points, at: int, end: int, cap: nat)
    requires it == [] || it[0].timestamp < at || it[0].timestamp >= end || cap == 0 || at >= end
    ensures TakeRun(Dedup(it), at, end, cap) == []
  {
    if it != [] {
      assert Pick(it[..RunLength(it)]) in it[..RunLength(it)];
      assert Dedup(it)[0].timestamp == it[0].timestamp;
    }
  }

  /** Counting from the cursor and counting from the start agree. */
  lemma {:induction false} WritableAgrees(pts: Points, c: nat, bound: int, room: nat)
    requires c <= |pts| && SplitsAt(pts, bound)
    ensures WritableFrom(pts, c, room, bound) == Writable(pts, c, bound, room)
  {
    if c <= UpperBound(pts, 0, bound) {
      UpperBoundFrom(pts, 0, c, bound);
    }
  }
}
