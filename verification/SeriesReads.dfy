/**
 Reading a series in chunks: disk first, then the write buffer, as often as it takes.

 `SeriesRead` is what one call with a bounded buffer returns, `Chunks` what the loop hands to its
 callback; both are about calls whose search for a file ends. `ChunkedRead` is the loop as written,
 where it may not. `CursorsExactly` says which reads return, and `DiskReadExact` which of them return
 every point of their window.
 */
module SeriesReads {
  import opened Datapoints
  import opened Reads
  import opened FileList
  import opened FileSearch
  import opened Outcomes

  /** One call: what the files add, then what the ordered write buffer adds. */
  function SeriesRead(fs: Views, buf: Points, next: int, end: int, cap: nat): (out: Points)
    ensures |out| <= cap
  {
    var disk := ReadDirectory(fs, next, end, cap);
    disk + TakeGreedy(buf, NextAfter(next, disk), end, cap - |disk|)
  }

  /** Where the next call goes on: a read that left space is over. */
  function ResumeAt(next: int, end: int, cap: nat, out: Points): int {
    if |out| < cap then end else NextAfter(next, out)
  }

  lemma {:induction false} SeriesReadContinues(fs: Views, buf: Points, next: int, end: int, cap: nat)
    ensures Continues(SeriesRead(fs, buf, next, end, cap), next, end)
  {
    var disk := ReadDirectory(fs, next, end, cap);
    ReadFilesContinues(fs[Found(Mins(fs), next, |fs|)..], next, end, cap);
    TakeGreedyContinues(buf, NextAfter(next, disk), end, cap - |disk|);
    ContinuesConcat(disk, TakeGreedy(buf, NextAfter(next, disk), end, cap - |disk|), next, end);
  }

  /** A read that returned something has moved its cursor forward. */
  lemma {:induction false} ContinuesAdvances(out: Points, next: int, end: int)
    requires Continues(out, next, end) && out != []
    ensures next < NextAfter(next, out) && next < end
  {
    ContinuesMeans(out, next, end);
    assert next <= out[|out| - 1].timestamp < end;
  }

  lemma {:induction false} ReadAdvances(fs: Views, buf: Points, next: int, end: int, cap: nat)
    ensures var out := SeriesRead(fs, buf, next, end, cap); out != [] ==> next < ResumeAt(next, end, cap, out)
  {
    SeriesReadContinues(fs, buf, next, end, cap);
    if SeriesRead(fs, buf, next, end, cap) != [] {
      ContinuesAdvances(SeriesRead(fs, buf, next, end, cap), next, end);
    }
  }

  /** The buffers handed to the callback, in order. The cursor grows, so there are finitely many. */
  function Chunks(fs: Views, buf: Points, next: int, end: int, cap: nat): seq<Points>
    decreases end - next
  {
    var out := SeriesRead(fs, buf, next, end, cap);
    if next >= end || out == [] then []
    else
      ReadAdvances(fs, buf, next, end, cap);
      [out] + Chunks(fs, buf, ResumeAt(next, end, cap, out), end, cap)
  }

  function Flatten(chunks: seq<Points>): Points {
    if chunks == [] then [] else chunks[0] + Flatten(chunks[1..])
  }

  /** What a read is worth: the window on disk, then what the buffer has beyond it. */
  function Whole(fs: Views, buf: Points, next: int, end: int): Points {
    var disk := Window(AllPoints(fs), next, end);
    disk + TakeGreedy(buf, NextAfter(next, disk), end, |buf|)
  }

  // ---- One call ----

  lemma {:induction false} GreedyEnough(buf: Points, next: int, end: int, cap: nat)
    requires cap >= |buf|
    ensures TakeGreedy(buf, next, end, cap) == TakeGreedy(buf, next, end, |buf|)
    decreases |buf|
  {
    if buf != [] && next < end {
      var rest := buf[1..];
      if next <= buf[0].timestamp < end {
        GreedyEnough(rest, EndOf(buf[0]), end, cap - 1);
      } else {
        GreedyEnough(rest, next, end, cap);
        GreedyEnough(rest, next, end, |buf|);
      }
    }
  }

  // ---- All chunks ----

  /** A call that fills its buffer from disk leaves the rest of the window for the next call. */
  lemma {:induction false} FullFromDisk(fs: Views, buf: Points, next: int, end: int, cap: nat)
    requires Partitioned(fs) && cap >= 1 && NonOverlapping(Window(AllPoints(fs), next, end))
    requires cap <= |Window(AllPoints(fs), next, end)|
    ensures var disk, out := Window(AllPoints(fs), next, end), SeriesRead(fs, buf, next, end, cap);
      && out == disk[..cap]
      && Window(AllPoints(fs), NextAfter(next, out), end) == disk[cap..]
      && Whole(fs, buf, next, end) == out + Whole(fs, buf, NextAfter(next, out), end)
  {
    var disk := Window(AllPoints(fs), next, end);
    ReadDirectoryIsWindow(fs, next, end, cap);
    assert Take(disk, cap) == disk[..cap] && disk[..cap] + [] == disk[..cap];
    WindowResume(AllPoints(fs), next, end, cap);
    SplitAt(disk, cap, next);
    Assoc(disk[..cap], disk[cap..], TakeGreedy(buf, NextAfter(next, disk), end, |buf|));
  }

  lemma {:induction false} SplitAt(s: Points, k: nat, next: int)
    requires 1 <= k <= |s|
    ensures s == s[..k] + s[k..] && NextAfter(next, s[..k]) == EndOf(s[k - 1])
    ensures NextAfter(next, s) == NextAfter(NextAfter(next, s[..k]), s[k..])
  {
  }

  /** A greedy read that fills up goes on from where it stopped as if it had never stopped. */
  lemma {:induction false} GreedyFill(buf: Points, at: int, end: int, room: nat)
    requires Ordered(buf) && room >= 1 && |TakeGreedy(buf, at, end, room)| == room
    ensures var g := TakeGreedy(buf, at, end, room);
      && at < NextAfter(at, g)
      && TakeGreedy(buf, at, end, |buf|) == g + TakeGreedy(buf, NextAfter(at, g), end, |buf|)
  {
    TakeGreedyContinues(buf, at, end, room);
    ContinuesAdvances(TakeGreedy(buf, at, end, room), at, end);
    TakeGreedyResume(buf, at, end, room, |buf| + room);
    GreedyEnough(buf, at, end, |buf| + room);
  }

  /** A call that reaches past the disk leaves only the buffer, from where it stopped. */
  lemma {:induction false} FullFromBuffer(fs: Views, buf: Points, next: int, end: int, cap: nat)
    requires Partitioned(fs) && Ordered(buf) && NonOverlapping(Window(AllPoints(fs), next, end))
    requires var disk := Window(AllPoints(fs), next, end); |disk| < cap && |SeriesRead(fs, buf, next, end, cap)| == cap
    ensures var out := SeriesRead(fs, buf, next, end, cap);
      && Window(AllPoints(fs), NextAfter(next, out), end) == []
      && Whole(fs, buf, next, end) == out + Whole(fs, buf, NextAfter(next, out), end)
  {
    var disk := Window(AllPoints(fs), next, end);
    ReadDirectoryIsWindow(fs, next, end, cap);
    var at, room := NextAfter(next, disk), cap - |disk|;
    var g := TakeGreedy(buf, at, end, room);
    GreedyFill(buf, at, end, room);
    NextOfConcat(disk, g, next);
    NothingLeft(AllPoints(fs), next, NextAfter(at, g), end);
    EmptyLeft(TakeGreedy(buf, NextAfter(at, g), end, |buf|));
    Assoc(disk, g, TakeGreedy(buf, NextAfter(at, g), end, |buf|));
  }

  lemma {:induction false} NextOfConcat(a: Points, b: Points, next: int)
    requires b != []
    ensures NextAfter(next, a + b) == NextAfter(NextAfter(next, a), b)
  {
  }

  lemma {:induction false} NothingLeft(s: Points, next: int, next': int, end: int)
    requires NonOverlapping(Window(s, next, end)) && NextAfter(next, Window(s, next, end)) <= next'
    ensures Window(s, next', end) == []
  {
    var w := Window(s, next, end);
    WindowContinues(s, next, end);
    ContinuesConcat(w, [], next, end);
    WindowOfWindow(s, next, next', end);
    forall i | 0 <= i < |w| ensures w[i].timestamp < next' {
      assert i < |w| - 1 ==> EndOf(w[i]) <= w[|w| - 1].timestamp;
    }
    WindowNone(w, next', end);
  }

  /** A call that leaves space has returned everything. */
  lemma {:induction false} LastChunk(fs: Views, buf: Points, next: int, end: int, cap: nat)
    requires Partitioned(fs) && NonOverlapping(Window(AllPoints(fs), next, end))
    requires |SeriesRead(fs, buf, next, end, cap)| < cap
    ensures SeriesRead(fs, buf, next, end, cap) == Whole(fs, buf, next, end)
  {
    var disk := Window(AllPoints(fs), next, end);
    ReadDirectoryIsWindow(fs, next, end, cap);
    var at, room := NextAfter(next, disk), cap - |disk|;
    if room < |buf| {
      TakeGreedyRoom(buf, at, end, room, |buf|);
    } else {
      GreedyEnough(buf, at, end, room);
    }
  }

  /** Whatever the buffer size, the chunks together are the whole. */
  lemma {:induction false} ChunkedReadIsWhole(fs: Views, buf: Points, next: int, end: int, cap: nat)
    requires Partitioned(fs) && Ordered(buf) && cap >= 1
    requires NonOverlapping(Window(AllPoints(fs), next, end))
    ensures Flatten(Chunks(fs, buf, next, end, cap)) == Whole(fs, buf, next, end)
    decreases end - next
  {
    var out := SeriesRead(fs, buf, next, end, cap);
    if next >= end {
      WindowNone(AllPoints(fs), next, end);
    } else if |out| < cap {
      LastChunk(fs, buf, next, end, cap);
      assert Chunks(fs, buf, end, end, cap) == [];
    } else {
      var next' := NextAfter(next, out);
      ReadAdvances(fs, buf, next, end, cap);
      NextWindow(fs, buf, next, end, cap);
      ChunkedReadIsWhole(fs, buf, next', end, cap);
    }
  }

  lemma {:induction false} NextWindow(fs: Views, buf: Points, next: int, end: int, cap: nat)
    requires Partitioned(fs) && Ordered(buf) && cap >= 1
    requires NonOverlapping(Window(AllPoints(fs), next, end))
    requires |SeriesRead(fs, buf, next, end, cap)| == cap
    ensures var out := SeriesRead(fs, buf, next, end, cap);
      && NonOverlapping(Window(AllPoints(fs), NextAfter(next, out), end))
      && Whole(fs, buf, next, end) == out + Whole(fs, buf, NextAfter(next, out), end)
  {
    if cap <= |Window(AllPoints(fs), next, end)| {
      FullFromDisk(fs, buf, next, end, cap);
    } else {
      FullFromBuffer(fs, buf, next, end, cap);
    }
  }

  /** Whatever is read, no point overlaps another, and all are in the window. */
  lemma {:induction false} ChunksContinue(fs: Views, buf: Points, next: int, end: int, cap: nat)
    ensures Continues(Flatten(Chunks(fs, buf, next, end, cap)), next, end)
    decreases end - next
  {
    var out := SeriesRead(fs, buf, next, end, cap);
    if next < end && out != [] {
      ReadAdvances(fs, buf, next, end, cap);
      SeriesReadContinues(fs, buf, next, end, cap);
      var next' := ResumeAt(next, end, cap, out);
      ChunksContinue(fs, buf, next', end, cap);
      if |out| < cap {
        assert Chunks(fs, buf, end, end, cap) == [];
      }
      ContinuesConcat(out, Flatten(Chunks(fs, buf, next', end, cap)), next, end);
    }
  }

  // ---- As written ----

  /** The loop as written: each call searches for a first file, from the time it has reached. */
  function ChunkedRead(fs: Views, buf: Points, next: int, end: int, cap: nat): Outcome<seq<Points>>
    decreases end - next
  {
    if next >= end then Returned([])
    else if !Halts(Mins(fs), next, |fs|) then Hangs
    else
      var out := SeriesRead(fs, buf, next, end, cap);
      if out == [] then Returned([])
      else
        ReadAdvances(fs, buf, next, end, cap);
        var more :- ChunkedRead(fs, buf, ResumeAt(next, end, cap, out), end, cap);
        Returned([out] + more)
  }

  /** Every search of the loop ends. */
  predicate ReadReturns(fs: Views, buf: Points, next: int, end: int, cap: nat)
    decreases end - next
  {
    next >= end ||
    (Halts(Mins(fs), next, |fs|) &&
     var out := SeriesRead(fs, buf, next, end, cap);
     out == [] ||
     (ReadAdvances(fs, buf, next, end, cap); ReadReturns(fs, buf, ResumeAt(next, end, cap, out), end, cap)))
  }

  lemma {:induction false} ChunkedReadReturns(fs: Views, buf: Points, next: int, end: int, cap: nat)
    ensures ChunkedRead(fs, buf, next, end, cap) ==
      if ReadReturns(fs, buf, next, end, cap) then Returned(Chunks(fs, buf, next, end, cap)) else Hangs
    decreases end - next
  {
    var out := SeriesRead(fs, buf, next, end, cap);
    if next < end && out != [] {
      ReadAdvances(fs, buf, next, end, cap);
      ChunkedReadReturns(fs, buf, ResumeAt(next, end, cap, out), end, cap);
    }
  }

  /** What the callback gets, all chunks together. */
  function ReadOutcome(fs: Views, buf: Points, next: int, end: int, cap: nat): Outcome<Points> {
    var chunks :- ChunkedRead(fs, buf, next, end, cap);
    Returned(Flatten(chunks))
  }

  lemma {:induction false} ReadOutcomeIs(fs: Views, buf: Points, next: int, end: int, cap: nat)
    ensures ReadOutcome(fs, buf, next, end, cap) ==
      if ReadReturns(fs, buf, next, end, cap) then Returned(Flatten(Chunks(fs, buf, next, end, cap))) else Hangs
  {
    ChunkedReadReturns(fs, buf, next, end, cap);
  }

  /**
   The times from which the loop searches when it is to return the points `w`: the start, and the end
   of each full buffer.
   */
  function Cursors(w: Points, next: int, end: int, cap: nat): seq<int>
    requires cap >= 1
    decreases |w|
  {
    if next >= end then []
    else [next] + if |w| < cap then [] else Cursors(w[cap..], EndOf(w[cap - 1]), end, cap)
  }

  predicate AllHalt(mins: seq<int>, cursors: seq<int>) {
    cursors == [] || (Halts(mins, cursors[0], |mins|) && AllHalt(mins, cursors[1..]))
  }

  /** A read without overlaps on disk returns if and only if the search ends from each of its cursors. */
  lemma {:induction false} CursorsExactly(fs: Views, buf: Points, next: int, end: int, cap: nat)
    requires Partitioned(fs) && Ordered(buf) && cap >= 1
    requires NonOverlapping(Window(AllPoints(fs), next, end))
    ensures ReadReturns(fs, buf, next, end, cap)
      <==> AllHalt(Mins(fs), Cursors(Whole(fs, buf, next, end), next, end, cap))
    decreases end - next
  {
    if next < end {
      var out, w := SeriesRead(fs, buf, next, end, cap), Whole(fs, buf, next, end);
      if |out| < cap {
        LastChunk(fs, buf, next, end, cap);
        OneCursor(Mins(fs), next);
        assert ReadReturns(fs, buf, end, end, cap);
      } else {
        var next' := NextAfter(next, out);
        ReadAdvances(fs, buf, next, end, cap);
        NextWindow(fs, buf, next, end, cap);
        FrontOf(out, Whole(fs, buf, next', end));
        CursorsExactly(fs, buf, next', end, cap);
        MoreCursors(Mins(fs), next, Cursors(Whole(fs, buf, next', end), next', end, cap));
      }
    }
  }

  lemma {:induction false} FrontOf(a: Points, b: Points)
    requires a != []
    ensures (a + b)[|a|..] == b && (a + b)[|a| - 1] == a[|a| - 1]
  {
  }

  lemma {:induction false} OneCursor(mins: seq<int>, c: int)
    ensures AllHalt(mins, [c]) <==> Halts(mins, c, |mins|)
    ensures [c] + [] == [c]
  {
    assert [c][1..] == [];
  }

  lemma {:induction false} MoreCursors(mins: seq<int>, c: int, rest: seq<int>)
    ensures AllHalt(mins, [c] + rest) <==> Halts(mins, c, |mins|) && AllHalt(mins, rest)
  {
    assert ([c] + rest)[1..] == rest;
  }

  /** With at most two files every read returns. */
  lemma {:induction false} FewFilesReturn(fs: Views, buf: Points, next: int, end: int, cap: nat)
    requires |fs| <= 2
    ensures ReadReturns(fs, buf, next, end, cap)
    decreases end - next
  {
    var out := SeriesRead(fs, buf, next, end, cap);
    if next < end && out != [] {
      ReadAdvances(fs, buf, next, end, cap);
      FewFilesReturn(fs, buf, ResumeAt(next, end, cap, out), end, cap);
    }
  }

  /**
   For every buffer size: a chunked read without overlaps on disk returns the whole if and only if the
   search ends from each of its cursors; otherwise it never returns.
   */
  lemma {:induction false} ChunkedReadExact(fs: Views, buf: Points, next: int, end: int, cap: nat)
    requires Partitioned(fs) && Ordered(buf) && cap >= 1
    requires NonOverlapping(Window(AllPoints(fs), next, end))
    ensures var w := Whole(fs, buf, next, end);
      ReadOutcome(fs, buf, next, end, cap) == if AllHalt(Mins(fs), Cursors(w, next, end, cap)) then Returned(w) else Hangs
  {
    ReadOutcomeIs(fs, buf, next, end, cap);
    CursorsExactly(fs, buf, next, end, cap);
    ChunkedReadIsWhole(fs, buf, next, end, cap);
  }

  /** A buffer with room to spare searches once: the read returns the whole if and only if that search ends. */
  lemma {:induction false} OneCallExact(fs: Views, buf: Points, next: int, end: int, cap: nat)
    requires Partitioned(fs) && Ordered(buf) && cap > |AllPoints(fs)| + |buf|
    requires NonOverlapping(Window(AllPoints(fs), next, end))
    ensures ReadOutcome(fs, buf, next, end, cap) ==
      if next >= end || Halts(Mins(fs), next, |fs|) then Returned(Whole(fs, buf, next, end)) else Hangs
  {
    WindowLength(AllPoints(fs), next, end);
    ChunkedReadExact(fs, buf, next, end, cap);
    OneCursor(Mins(fs), next);
  }

  /**
   A read in chunks and a read in one come to the same if and only if the chunked one returns, or both
   hang at the start.
   */
  lemma {:induction false} ChunkSizeExact(fs: Views, buf: Points, next: int, end: int, cap: nat, big: nat)
    requires Partitioned(fs) && Ordered(buf) && cap >= 1 && big > |AllPoints(fs)| + |buf|
    requires NonOverlapping(Window(AllPoints(fs), next, end))
    ensures ReadOutcome(fs, buf, next, end, cap) == ReadOutcome(fs, buf, next, end, big)
      <==> AllHalt(Mins(fs), Cursors(Whole(fs, buf, next, end), next, end, cap)) || !Halts(Mins(fs), next, |fs|)
  {
    OneCallExact(fs, buf, next, end, big);
    ChunkedReadExact(fs, buf, next, end, cap);
    if next < end {
      var w := Whole(fs, buf, next, end);
      MoreCursors(Mins(fs), next, if |w| < cap then [] else Cursors(w[cap..], EndOf(w[cap - 1]), end, cap));
    }
  }

  /**
   With every size of buffer: a chunked read of flushed data returns exactly the points of its
   window if and only if it returns and they do not overlap.
   */
  lemma {:induction false} DiskReadExact(fs: Views, next: int, end: int, cap: nat)
    requires Partitioned(fs) && cap >= 1
    ensures ReadOutcome(fs, [], next, end, cap) == Returned(Window(AllPoints(fs), next, end))
      <==> ReadReturns(fs, [], next, end, cap) && NonOverlapping(Window(AllPoints(fs), next, end))
  {
    ReadOutcomeIs(fs, [], next, end, cap);
    ChunksExact(fs, next, end, cap);
  }

  lemma {:induction false} ChunksExact(fs: Views, next: int, end: int, cap: nat)
    requires Partitioned(fs) && cap >= 1
    ensures Flatten(Chunks(fs, [], next, end, cap)) == Window(AllPoints(fs), next, end)
      <==> NonOverlapping(Window(AllPoints(fs), next, end))
  {
    ChunksContinue(fs, [], next, end, cap);
    ContinuesMeans(Flatten(Chunks(fs, [], next, end, cap)), next, end);
    if NonOverlapping(Window(AllPoints(fs), next, end)) {
      ChunkedReadIsWhole(fs, [], next, end, cap);
      NoBuffer(fs, next, end);
    }
  }

  lemma {:induction false} NoBuffer(fs: Views, next: int, end: int)
    ensures Whole(fs, [], next, end) == Window(AllPoints(fs), next, end)
  {
  }

  /** Three files with one point each. */
  function ThreeFiles(): Views {
    [FileView(0, 0, [Datapoint(0, Num(1.0), 1)]),
     FileView(100, 100, [Datapoint(100, Num(2.0), 1)]),
     FileView(200, 200, [Datapoint(200, Num(3.0), 1)])]
  }

  lemma {:induction false} AllPointsOf(a: FileView, b: FileView, c: FileView)
    ensures AllPoints([a, b, c]) == a.points + (b.points + c.points)
    ensures Partitioned([a, b, c]) <==>
      ViewOk(a) && ViewOk(b) && ViewOk(c) && AllBelow(a.points, b.min) && AllBelow(b.points, c.min)
  {
    assert [a, b, c][1..] == [b, c] && [b, c][1..] == [c] && [c][1..] == [];
    assert c.points + [] == c.points;
    assert AllPoints([c]) == c.points;
    assert Partitioned([c]) <==> ViewOk(c);
    assert Partitioned([b, c]) <==> ViewOk(b) && AllBelow(b.points, c.min) && ViewOk(c);
  }

  lemma {:induction false} ThreeFilesAre(fs: Views, end: int)
    requires fs == ThreeFiles() && end > 200
    ensures Partitioned(fs) && Mins(fs) == [0, 100, 200]
    ensures Window(AllPoints(fs), 0, end)
      == [Datapoint(0, Num(1.0), 1), Datapoint(100, Num(2.0), 1), Datapoint(200, Num(3.0), 1)]
    ensures |AllPoints(fs)| == 3
  {
    AllPointsOf(fs[0], fs[1], fs[2]);
    assert fs == [fs[0], fs[1], fs[2]];
    WindowAll(AllPoints(fs), 0, end);
  }

  /** The third cursor of a read of them with a buffer of one is 101. */
  lemma {:induction false} ThirdCursor(w: Points, end: int)
    requires |w| == 3 && EndOf(w[0]) == 1 && EndOf(w[1]) == 101 && end > 200
    ensures !AllHalt([0, 100, 200], Cursors(w, 0, end, 1))
  {
    var w1 := w[1..];
    var c2 := Cursors(w1[1..], 101, end, 1);
    assert Cursors(w1, 1, end, 1) == [1] + c2;
    assert c2[0] == 101 && !Halts([0, 100, 200], 101, 3);
    MoreCursors([0, 100, 200], 0, Cursors(w1, 1, end, 1));
    MoreCursors([0, 100, 200], 1, c2);
  }

  /** One large buffer reads all of them; with a buffer of one the read hangs on its way. */
  lemma {:induction false} SmallBufferHangs(fs: Views, end: int, big: nat)
    requires fs == ThreeFiles() && end > 200 && big > 3
    ensures ReadOutcome(fs, [], 0, end, big) == Returned(AllPoints(fs))
    ensures ReadOutcome(fs, [], 0, end, 1) == Hangs
  {
    ThreeFilesAre(fs, end);
    NoBuffer(fs, 0, end);
    OneCallExact(fs, [], 0, end, big);
    WindowAll(AllPoints(fs), 0, end);
    ThirdCursor(Whole(fs, [], 0, end), end);
    ChunkedReadExact(fs, [], 0, end, 1);
  }

  /** A file whose second point overlaps its first. */
  function OverlappingFile(): FileView {
    FileView(0, 20, [Datapoint(0, Num(1.0), 10), Datapoint(5, Num(2.0), 1), Datapoint(20, Num(3.0), 1)])
  }

  lemma {:induction false} OneFileRead(f: FileView, next: int, end: int, cap: nat)
    requires f.min < end && next <= f.max && next < end && cap > 0
    ensures SeriesRead([f], [], next, end, cap) == ReadView(f.points, next, end, cap)
  {
    var out := ReadView(f.points, next, end, cap);
    assert [f][0..] == [f] && [f][1..] == [];
    assert ReadFiles([f], next, end, cap) == out + ReadFiles([], NextAfter(next, out), end, cap - |out|);
  }

  /** A buffer of three stops at the overlap with space left, so the read is over. */
  lemma {:induction false} BigBufferStops()
    ensures Flatten(Chunks([OverlappingFile()], [], 0, 100, 3)) == OverlappingFile().points[..1]
  {
    var f := OverlappingFile();
    OverlapLosesLaterPoints();
    OneFileRead(f, 0, 100, 3);
    assert Chunks([f], [], 100, 100, 3) == [];
  }

  /** A buffer of one is full at the overlap, and the next call steps over it. */
  lemma {:induction false} SmallBufferSteps()
    ensures |Chunks([OverlappingFile()], [], 0, 100, 1)| >= 2
  {
    var f := OverlappingFile();
    var view, p, r := f.points, f.points[0], f.points[2];
    OneFileRead(f, 0, 100, 1);
    OneFileRead(f, 10, 100, 1);
    assert view[LowerBound(view, 0)..] == view;
    assert TakeRun(view, 0, 100, 1) == [p] + TakeRun(view[1..], 10, 100, 0);
    assert view[1..][1..] == [r] && LowerBound(view, 10) == 2 && view[2..] == [r];
    assert TakeRun([r], 10, 100, 1) == [r] + TakeRun([r][1..], 21, 100, 0);
    assert Chunks([f], [], 0, 100, 1)[1..] == Chunks([f], [], 10, 100, 1);
  }

  /** With an overlap, how much a read returns depends on the size of its buffer. */
  lemma {:induction false} OverlapShowsBufferSize()
    ensures |Flatten(Chunks([OverlappingFile()], [], 0, 100, 3))| < |Chunks([OverlappingFile()], [], 0, 100, 1)|
  {
    BigBufferStops();
    SmallBufferSteps();
  }

  // ---- A buffer of newer points ----

  /** When disk and buffer do not overlap, the whole is the window of both. */
  lemma {:induction false} WholeIsWindow(fs: Views, buf: Points, next: int, end: int)
    requires Partitioned(fs) && Ordered(buf)
    requires NonOverlapping(Window(AllPoints(fs) + buf, next, end))
    ensures Whole(fs, buf, next, end) == Window(AllPoints(fs) + buf, next, end)
    ensures NonOverlapping(Window(AllPoints(fs), next, end))
  {
    var disk, fresher := Window(AllPoints(fs), next, end), Window(buf, next, end);
    WindowConcat(AllPoints(fs), buf, next, end);
    WindowContinues(AllPoints(fs) + buf, next, end);
    ContinuesConcat(disk, fresher, next, end);
    ContinuesMeans(disk, next, end);
    WindowLength(buf, next, end);
    TakeGreedyIsWindow(buf, next, NextAfter(next, disk), end, |buf|);
  }
}
