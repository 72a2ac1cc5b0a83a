/**
 Sparse files on values: what a directory write makes of a list of them.

 The buffer's points are spread over the files from the located one on. Each file takes what lies
 before the next file's min and fits under the size limit; a new file is inserted where no existing
 file can take the current point. `Directory.dfy` proves its loop against `WriteFiles`.
 */
module FileWrites {
  import opened Numbers
  import opened Datapoints
  import opened LogView
  import opened FileSearch
  import FileList

  /** One sparse file: its log and the two timestamps its name carries. */
  datatype FileState = FileState(min: int, max: int, log: Points)

  type Files = seq<FileState>

  function Mins(fs: Files): seq<int> {
    seq(|fs|, i requires 0 <= i < |fs| => fs[i].min)
  }

  /** Every log, one file after the other. */
  function Concat(fs: Files): Points {
    if fs == [] then [] else fs[0].log + Concat(fs[1..])
  }

  /** How many more points fit under a size limit of `limit` points. */
  function Room(f: FileState, limit: nat): nat {
    if |f.log| < limit then limit - |f.log| else 0
  }

  // ---- The invariant ----

  ghost predicate FileOk(f: FileState, limit: nat) {
    && 1 <= |f.log| <= limit
    && forall i :: 0 <= i < |f.log| ==> f.min <= f.log[i].timestamp <= f.max
  }

  /** Each file holds its own stretch of time: at or after its min, before the next file's. */
  ghost predicate Separate(fs: Files, limit: nat) {
    fs == [] ||
    (&& FileOk(fs[0], limit)
     && (|fs| > 1 ==> AllBelow(fs[0].log, fs[1].min))
     && Separate(fs[1..], limit))
  }

  lemma {:induction false} SeparateOrder(fs: Files, limit: nat)
    requires Separate(fs, limit)
    ensures Increasing(Mins(fs))
    ensures fs != [] ==> AllAtLeast(Concat(fs), fs[0].min)
  {
    if fs != [] {
      var rest := fs[1..];
      SeparateOrder(rest, limit);
      if rest != [] {
        assert fs[0].min <= fs[0].log[0].timestamp < rest[0].min;
        FileList.IncreasingCons(fs[0].min, Mins(rest));
      }
      assert Mins(fs) == [fs[0].min] + Mins(rest);
    }
  }

  lemma {:induction false} SeparateFrom(fs: Files, i: nat, limit: nat)
    requires i <= |fs| && Separate(fs, limit)
    ensures Separate(fs[i..], limit)
  {
    if i > 0 {
      SeparateFrom(fs[1..], i - 1, limit);
      assert fs[1..][i - 1..] == fs[i..];
    }
  }

  lemma {:induction false} ConcatCons(f: FileState, rest: Files)
    ensures Concat([f] + rest) == f.log + Concat(rest)
  {
    assert ([f] + rest)[1..] == rest;
  }

  lemma {:induction false} ConcatConcat(a: Files, b: Files)
    ensures Concat(a + b) == Concat(a) + Concat(b)
  {
    if a == [] {
      EmptyLeft(b);
      EmptyLeft(Concat(b));
    } else {
      assert (a + b)[1..] == a[1..] + b;
      ConcatConcat(a[1..], b);
      Assoc(a[0].log, Concat(a[1..]), Concat(b));
    }
  }

  lemma {:induction false} ConcatSplit(fs: Files, i: nat)
    requires i <= |fs|
    ensures Concat(fs) == Concat(fs[..i]) + Concat(fs[i..])
  {
    assert fs == fs[..i] + fs[i..];
    ConcatConcat(fs[..i], fs[i..]);
  }

  // ---- The files as a reader sees them ----

  /** A reader sees the current points of as much of the log as the size limit lets it read. */
  function ViewOf(f: FileState, limit: nat): FileList.FileView {
    FileList.FileView(f.min, f.max, View(Take(f.log, limit)))
  }

  function ViewsOf(fs: Files, limit: nat): FileList.Views {
    seq(|fs|, i requires 0 <= i < |fs| => ViewOf(fs[i], limit))
  }

  lemma {:induction false} MinsOfViews(states: Files, limit: nat)
    ensures FileList.Mins(ViewsOf(states, limit)) == Mins(states)
  {
  }

  lemma {:induction false} ViewOk(f: FileState, limit: nat)
    requires FileOk(f, limit)
    ensures ViewOf(f, limit).points == View(f.log) && FileList.ViewOk(ViewOf(f, limit))
  {
    ViewMember(f.log);
    ViewIsFold(f.log);
    ViewNotEmpty(f.log);
    var v := View(f.log);
    forall i | 0 <= i < |v| ensures f.min <= v[i].timestamp <= f.max {
      assert v[i] in f.log;
    }
  }

  lemma {:induction false} ViewNotEmpty(log: Points)
    requires log != []
    ensures View(log) != []
  {
    StableSortSpec(log);
  }

  lemma {:induction false} ViewBelow(log: Points, t: int)
    requires AllBelow(log, t)
    ensures AllBelow(View(log), t)
  {
    ViewMember(log);
    var v := View(log);
    forall i | 0 <= i < |v| ensures v[i].timestamp < t {
      assert v[i] in log;
    }
  }

  /** Separate files, read one by one, show the current points of all their logs together. */
  lemma {:induction false} ViewsShowLog(fs: Files, limit: nat)
    requires Separate(fs, limit)
    ensures FileList.Partitioned(ViewsOf(fs, limit))
    ensures FileList.AllPoints(ViewsOf(fs, limit)) == View(Concat(fs))
  {
    if fs != [] {
      var vs, rest := ViewsOf(fs, limit), fs[1..];
      ViewsShowLog(rest, limit);
      assert vs[1..] == ViewsOf(rest, limit);
      ViewOk(fs[0], limit);
      SeparateOrder(rest, limit);
      ViewConcat(fs[0].log, Concat(rest));
      if rest != [] {
        ViewBelow(fs[0].log, rest[0].min);
      }
    }
  }

  // ---- Writing ----

  /** The last timestamp the first file may take: just before the next file's min. */
  function Bound(fs: Files): int
    requires fs != []
  {
    if |fs| == 1 then INT64_MAX else fs[1].min - 1
  }

  /** The last timestamp a file inserted in front of `fs` may take. */
  function NewBound(fs: Files): int {
    if fs == [] then INT64_MAX else fs[0].min - 1
  }

  /** How many points from the cursor on are within both limits. */
  function Writable(pts: Points, cursor: nat, bound: int, room: nat): (k: nat)
    requires cursor <= |pts|
    ensures cursor + k <= |pts| && k <= room
  {
    Min(UpperBound(pts, cursor, bound) - cursor, room)
  }

  /** The local maximum after the points up to `i`; it can only differ from the old max upwards or be the bound. */
  function RaisedSoFar(max: int, pts: Points, c: nat, i: nat, bound: int): int
    requires c <= i <= |pts|
    decreases i
  {
    if i == c then max
    else
      var m := RaisedSoFar(max, pts, c, i - 1, bound);
      if pts[i - 1].timestamp > m then Min(pts[i - 1].timestamp, bound) else m
  }

  /** Over ordered points the maximum taken is the last point's, cut at the bound. */
  lemma {:induction false} RaisedOver(max: int, pts: Points, c: nat, i: nat, bound: int)
    requires c < i <= |pts| && Ordered(pts)
    ensures Max(max, RaisedSoFar(max, pts, c, i, bound)) == Max(max, Min(pts[i - 1].timestamp, bound))
    ensures bound >= max ==> RaisedSoFar(max, pts, c, i, bound) >= max
    ensures bound < max ==> RaisedSoFar(max, pts, c, i, bound) <= max
    decreases i
  {
    if c + 1 < i {
      RaisedOver(max, pts, c, i - 1, bound);
      assert pts[i - 2].timestamp <= pts[i - 1].timestamp;
    } else {
      assert RaisedSoFar(max, pts, c, c, bound) == max;
    }
  }

  /** The new max: never lowered, raised to what the running maximum has come to behind the last buffered point. */
  function Raised(max: int, pts: Points, cursor: nat, bound: int): int
    requires cursor <= |pts|
  {
    Max(max, RaisedSoFar(max, pts, cursor, |pts|, bound))
  }

  /** Over ordered points that is the last one's timestamp, or the bound. */
  lemma {:induction false} RaisedOrdered(max: int, pts: Points, cursor: nat, bound: int)
    requires cursor < |pts| && Ordered(pts)
    ensures Raised(max, pts, cursor, bound) == Max(max, Min(pts[|pts| - 1].timestamp, bound))
  {
    RaisedOver(max, pts, cursor, |pts|, bound);
  }

  function Grown(f: FileState, pts: Points, cursor: nat, bound: int, k: nat): FileState
    requires cursor + k <= |pts|
  {
    FileState(f.min, Raised(f.max, pts, cursor, bound), f.log + pts[cursor..cursor + k])
  }

  function NewFile(pts: Points, cursor: nat, bound: int, k: nat): FileState
    requires cursor < |pts| && cursor + k <= |pts|
  {
    FileState(pts[cursor].timestamp, Raised(pts[cursor].timestamp, pts, cursor, bound), pts[cursor..cursor + k])
  }

  /** The first file is passed over: it is full, or the current point belongs to a later one. */
  predicate Skips(fs: Files, p: Datapoint, limit: nat) {
    fs != [] && (Room(fs[0], limit) == 0 || Bound(fs) < p.timestamp)
  }

  /** The first file has room for the current point and does not start after it. */
  predicate Takes(fs: Files, p: Datapoint, limit: nat) {
    fs != [] && !Skips(fs, p, limit) && p.timestamp >= fs[0].min
  }

  /** One pass through the write loop: the file left behind, the files ahead, the new cursor. */
  datatype Move = Move(behind: FileState, ahead: Files, cursor: nat)

  function Next(fs: Files, pts: Points, c: nat, limit: Pos): (m: Move)
    requires c < |pts|
    ensures c <= m.cursor <= |pts|
    ensures m.cursor > c || |m.ahead| < |fs|
    ensures |m.ahead| <= |fs|
  {
    if Skips(fs, pts[c], limit) then Move(fs[0], fs[1..], c)
    else if Takes(fs, pts[c], limit) then
      var k := Writable(pts, c, Bound(fs), Room(fs[0], limit));
      Move(Grown(fs[0], pts, c, Bound(fs), k), fs[1..], c + k)
    else
      var k := Writable(pts, c, NewBound(fs), limit);
      Move(NewFile(pts, c, NewBound(fs), k), fs, c + k)
  }

  /** The files as a write leaves them, from the file and the point it has reached. */
  function WriteFiles(fs: Files, pts: Points, c: nat, limit: Pos): Files
    requires c <= |pts|
    decreases |pts| - c + |fs|
  {
    if c == |pts| then fs
    else
      var m := Next(fs, pts, c, limit);
      [m.behind] + WriteFiles(m.ahead, pts, m.cursor, limit)
  }

  /** A file that takes the current point takes at least that one. */
  lemma {:induction false} NextTakes(fs: Files, pts: Points, c: nat, limit: Pos)
    requires c < |pts| && Takes(fs, pts[c], limit)
    ensures var k := Writable(pts, c, Bound(fs), Room(fs[0], limit));
      k >= 1 && Next(fs, pts, c, limit) == Move(Grown(fs[0], pts, c, Bound(fs), k), fs[1..], c + k)
  {
  }

  /** So does a new file. */
  lemma {:induction false} NextNew(fs: Files, pts: Points, c: nat, limit: Pos)
    requires c < |pts| && !Skips(fs, pts[c], limit) && !Takes(fs, pts[c], limit)
    ensures var k := Writable(pts, c, NewBound(fs), limit);
      k >= 1 && Next(fs, pts, c, limit) == Move(NewFile(pts, c, NewBound(fs), k), fs, c + k)
  {
  }

  lemma {:induction false} GrownFromNothing(pts: Points, c: nat, bound: int, k: nat)
    requires c < |pts| && c + k <= |pts|
    ensures Grown(FileState(pts[c].timestamp, pts[c].timestamp, []), pts, c, bound, k) == NewFile(pts, c, bound, k)
  {
    EmptyLeft(pts[c..c + k]);
  }

  function WriteDirectory(fs: Files, pts: Points, limit: Pos): Files {
    if pts == [] then fs
    else
      var i := Located(Mins(fs), pts[0].timestamp);
      fs[..i] + WriteFiles(fs[i..], pts, 0, limit)
  }

  // ---- Conservation ----

  /** One file's share of a write keeps the count. */
  lemma {:induction false} ShareConserves(log: Points, pts: Points, c: nat, d: nat, rest: Points)
    requires c <= d <= |pts|
    ensures multiset(log + pts[c..d]) + multiset(rest) + multiset(pts[d..])
      == multiset(log + rest) + multiset(pts[c..])
  {
    assert pts[c..] == pts[c..d] + pts[d..];
  }

  lemma {:induction false} NextConserves(fs: Files, pts: Points, c: nat, limit: Pos)
    requires c < |pts|
    ensures var m := Next(fs, pts, c, limit);
      multiset(m.behind.log) + multiset(Concat(m.ahead)) + multiset(pts[m.cursor..])
        == multiset(Concat(fs)) + multiset(pts[c..])
  {
    var d := Next(fs, pts, c, limit).cursor;
    if Skips(fs, pts[c], limit) {
    } else if Takes(fs, pts[c], limit) {
      ShareConserves(fs[0].log, pts, c, d, Concat(fs[1..]));
    } else {
      ShareConserves([], pts, c, d, Concat(fs));
      EmptyLeft(pts[c..d]);
      EmptyLeft(Concat(fs));
    }
  }

  /** Every buffered point is stored exactly once, and nothing stored is lost. */
  lemma {:induction false} WriteFilesConserves(fs: Files, pts: Points, c: nat, limit: Pos)
    requires c <= |pts|
    ensures multiset(Concat(WriteFiles(fs, pts, c, limit))) == multiset(Concat(fs)) + multiset(pts[c..])
    decreases |pts| - c + |fs|
  {
    if c < |pts| {
      var m := Next(fs, pts, c, limit);
      NextConserves(fs, pts, c, limit);
      WriteFilesConserves(m.ahead, pts, m.cursor, limit);
      ConcatCons(m.behind, WriteFiles(m.ahead, pts, m.cursor, limit));
    }
  }

  // ---- The files together act as one log ----

  /** Points up to a bound come before every file that starts after it. */
  lemma {:induction false} TakenThenRest(taken: Points, rest: Files, t: int, limit: nat)
    requires Separate(rest, limit)
    requires rest != [] ==> AllBelow(taken, rest[0].min)
    ensures AtTime(taken, t) == [] || AtTime(Concat(rest), t) == []
  {
    SeparateOrder(rest, limit);
    if rest != [] {
      if t < rest[0].min {
        AtTimeNone(Concat(rest), t);
      } else {
        AtTimeNone(taken, t);
      }
    }
  }

  lemma {:induction false} Swap(a: Points, b: Points, c: Points)
    requires a == [] || b == []
    ensures a + (b + c) == b + (a + c)
  {
  }

  /** The points a pass writes go between the old points at their timestamp and the points still to come. */
  lemma {:induction false} TakenAtTime(pts: Points, c: nat, d: nat, ahead: Files, limit: nat, t: int)
    requires Separate(ahead, limit) && c <= d <= |pts|
    requires forall j :: c <= j < d ==> pts[j].timestamp <= NewBound(ahead)
    ensures AtTime(pts[c..d], t) + (AtTime(Concat(ahead), t) + AtTime(pts[d..], t))
      == AtTime(Concat(ahead), t) + AtTime(pts[c..], t)
  {
    AtTimeSplit(pts, c, d, t);
    TakenThenRest(pts[c..d], ahead, t, limit);
    Swap(AtTime(pts[c..d], t), AtTime(Concat(ahead), t), AtTime(pts[d..], t));
  }

  lemma {:induction false} NextAtTime(fs: Files, pts: Points, c: nat, limit: Pos, t: int)
    requires Separate(fs, limit) && c < |pts|
    ensures var m := Next(fs, pts, c, limit);
      && Separate(m.ahead, limit)
      && AtTime(m.behind.log, t) + (AtTime(Concat(m.ahead), t) + AtTime(pts[m.cursor..], t))
        == AtTime(Concat(fs), t) + AtTime(pts[c..], t)
  {
    var m := Next(fs, pts, c, limit);
    if Skips(fs, pts[c], limit) {
      HeadAtTime(fs, [], AtTime(pts[c..], t), t);
      assert fs[0].log + [] == fs[0].log;
    } else if Takes(fs, pts[c], limit) {
      GrownAtTime(fs, pts, c, m.cursor, limit, t);
    } else {
      TakenAtTime(pts, c, m.cursor, fs, limit, t);
    }
  }

  lemma {:induction false} GrownAtTime(fs: Files, pts: Points, c: nat, d: nat, limit: nat, t: int)
    requires fs != [] && Separate(fs[1..], limit) && c <= d <= |pts|
    requires forall j :: c <= j < d ==> pts[j].timestamp <= NewBound(fs[1..])
    ensures AtTime(fs[0].log + pts[c..d], t) + (AtTime(Concat(fs[1..]), t) + AtTime(pts[d..], t))
      == AtTime(Concat(fs), t) + AtTime(pts[c..], t)
  {
    TakenAtTime(pts, c, d, fs[1..], limit, t);
    HeadAtTime(fs, pts[c..d], AtTime(pts[d..], t), t);
    Assoc(AtTime(fs[0].log, t), AtTime(Concat(fs[1..]), t), AtTime(pts[c..], t));
    AtTimeConcat(fs[0].log, Concat(fs[1..]), t);
  }

  lemma {:induction false} HeadAtTime(fs: Files, taken: Points, later: Points, t: int)
    requires fs != []
    ensures AtTime(fs[0].log + taken, t) + (AtTime(Concat(fs[1..]), t) + later)
      == AtTime(fs[0].log, t) + (AtTime(taken, t) + (AtTime(Concat(fs[1..]), t) + later))
    ensures taken == [] ==>
      AtTime(fs[0].log + taken, t) + (AtTime(Concat(fs[1..]), t) + later) == AtTime(Concat(fs), t) + later
  {
    AtTimeConcat(fs[0].log, taken, t);
    AtTimeConcat(fs[0].log, Concat(fs[1..]), t);
    Assoc(AtTime(fs[0].log, t), AtTime(taken, t), AtTime(Concat(fs[1..]), t) + later);
    Assoc(AtTime(fs[0].log, t), AtTime(Concat(fs[1..]), t), later);
    EmptyLeft(AtTime(Concat(fs[1..]), t) + later);
  }

  /** Per timestamp, the stored order is the old order followed by the buffer's order. */
  lemma {:induction false} WriteFilesAtTime(fs: Files, pts: Points, c: nat, limit: Pos, t: int)
    requires Separate(fs, limit) && c <= |pts|
    ensures AtTime(Concat(WriteFiles(fs, pts, c, limit)), t) == AtTime(Concat(fs), t) + AtTime(pts[c..], t)
    decreases |pts| - c + |fs|
  {
    if c < |pts| {
      var m := Next(fs, pts, c, limit);
      NextAtTime(fs, pts, c, limit, t);
      WriteFilesAtTime(m.ahead, pts, m.cursor, limit, t);
      ConcatCons(m.behind, WriteFiles(m.ahead, pts, m.cursor, limit));
      AtTimeConcat(m.behind.log, Concat(WriteFiles(m.ahead, pts, m.cursor, limit)), t);
    }
  }

  /** A write to separate files is a write to one log, whether or not the limit binds. */
  lemma {:induction false} WriteIsAppend(fs: Files, pts: Points, limit: Pos)
    requires Separate(fs, limit)
    ensures forall t: int :: AtTime(Concat(WriteDirectory(fs, pts, limit)), t) == AtTime(Concat(fs) + pts, t)
    ensures View(Concat(WriteDirectory(fs, pts, limit))) == View(Concat(fs) + pts)
  {
    forall t: int
      ensures AtTime(Concat(WriteDirectory(fs, pts, limit)), t) == AtTime(Concat(fs) + pts, t)
    {
      AtTimeConcat(Concat(fs), pts, t);
      if pts != [] {
        WrittenAtTime(fs, pts, limit, Located(Mins(fs), pts[0].timestamp), t);
      }
    }
    ViewUnique(Concat(WriteDirectory(fs, pts, limit)), Concat(fs) + pts);
  }

  lemma {:induction false} WrittenAtTime(fs: Files, pts: Points, limit: Pos, i: nat, t: int)
    requires Separate(fs, limit) && i <= |fs|
    ensures AtTime(Concat(fs[..i] + WriteFiles(fs[i..], pts, 0, limit)), t) == AtTime(Concat(fs), t) + AtTime(pts, t)
  {
    var written := WriteFiles(fs[i..], pts, 0, limit);
    assert pts[0..] == pts;
    SeparateFrom(fs, i, limit);
    WriteFilesAtTime(fs[i..], pts, 0, limit, t);
    ConcatSplit(fs, i);
    ConcatConcat(fs[..i], written);
    AtTimeConcat(Concat(fs[..i]), Concat(written), t);
    AtTimeConcat(Concat(fs[..i]), Concat(fs[i..]), t);
    Assoc(AtTime(Concat(fs[..i]), t), AtTime(Concat(fs[i..]), t), AtTime(pts, t));
  }

  // ---- Where the points went ----

  /**
   `after` is `before` with points `c` and onwards dealt out in order: each old file keeps its log and
   its min and has the next stretch of points, possibly none, appended; each new file is a next
   stretch by itself and starts at its first point.
   */
  ghost predicate Distributes(before: Files, after: Files, pts: Points, c: nat)
    decreases |after|, 1
  {
    if after == [] then before == [] && c == |pts|
    else GrowsFirst(before, after, pts, c) || AddsFirst(before, after, pts, c)
  }

  ghost predicate GrowsFirst(before: Files, after: Files, pts: Points, c: nat)
    requires after != []
    decreases |after|, 0
  {
    && before != [] && before[0].min == after[0].min && |before[0].log| <= |after[0].log|
    && var d := c + |after[0].log| - |before[0].log|;
       d <= |pts| && after[0].log == before[0].log + pts[c..d] && Distributes(before[1..], after[1..], pts, d)
  }

  ghost predicate AddsFirst(before: Files, after: Files, pts: Points, c: nat)
    requires after != []
    decreases |after|, 0
  {
    var d := c + |after[0].log|;
    && c < d <= |pts| && after[0].log == pts[c..d] && after[0].min == pts[c].timestamp
    && Distributes(before, after[1..], pts, d)
  }

  lemma {:induction false} NothingDealt(fs: Files, pts: Points)
    ensures Distributes(fs, fs, pts, |pts|)
    decreases |fs|
  {
    if fs != [] {
      NothingDealt(fs[1..], pts);
      KeptAsIs(fs[0].log, pts, |pts|);
      assert GrowsFirst(fs, fs, pts, |pts|);
    }
  }

  lemma {:induction false} KeptAsIs(log: Points, pts: Points, c: nat)
    requires c <= |pts|
    ensures log == log + pts[c..c]
  {
  }

  lemma {:induction false} NextDistributes(fs: Files, pts: Points, c: nat, limit: Pos, rest: Files)
    requires c < |pts|
    requires Distributes(Next(fs, pts, c, limit).ahead, rest, pts, Next(fs, pts, c, limit).cursor)
    ensures Distributes(fs, [Next(fs, pts, c, limit).behind] + rest, pts, c)
  {
    var after := [Next(fs, pts, c, limit).behind] + rest;
    assert after[1..] == rest;
    if Skips(fs, pts[c], limit) {
      KeptAsIs(fs[0].log, pts, c);
      assert GrowsFirst(fs, after, pts, c);
    } else if Takes(fs, pts[c], limit) {
      NextTakes(fs, pts, c, limit);
      assert GrowsFirst(fs, after, pts, c);
    } else {
      NextNew(fs, pts, c, limit);
      assert AddsFirst(fs, after, pts, c);
    }
  }

  lemma {:induction false} WriteFilesDistributes(fs: Files, pts: Points, c: nat, limit: Pos)
    requires c <= |pts|
    ensures Distributes(fs, WriteFiles(fs, pts, c, limit), pts, c)
    decreases |pts| - c + |fs|
  {
    if c == |pts| {
      NothingDealt(fs, pts);
    } else {
      var m := Next(fs, pts, c, limit);
      WriteFilesDistributes(m.ahead, pts, m.cursor, limit);
      NextDistributes(fs, pts, c, limit, WriteFiles(m.ahead, pts, m.cursor, limit));
    }
  }

  lemma {:induction false} PrefixUntouched(fs: Files, i: nat, written: Files, pts: Points)
    requires i <= |fs| && Distributes(fs[i..], written, pts, 0)
    ensures Distributes(fs, fs[..i] + written, pts, 0)
    decreases i
  {
    if i == 0 {
      EmptyLeft(written);
      assert fs[..0] == [] && fs[0..] == fs;
    } else {
      var after := fs[..i] + written;
      assert fs[1..][i - 1..] == fs[i..];
      PrefixUntouched(fs[1..], i - 1, written, pts);
      assert after[1..] == fs[1..][..i - 1] + written;
      KeptAsIs(fs[0].log, pts, 0);
      assert GrowsFirst(fs, after, pts, 0);
    }
  }

  /** A file starts at the timestamp of the first point written to it. */
  ghost predicate StartAtFirst(fs: Files) {
    fs == [] || (fs[0].log != [] && fs[0].log[0].timestamp == fs[0].min && StartAtFirst(fs[1..]))
  }

  lemma {:induction false} DistributesKeepsStart(before: Files, after: Files, pts: Points, c: nat)
    requires Distributes(before, after, pts, c) && StartAtFirst(before)
    ensures StartAtFirst(after)
    decreases |after|
  {
    if after != [] {
      if GrowsFirst(before, after, pts, c) {
        DistributesKeepsStart(before[1..], after[1..], pts, c + |after[0].log| - |before[0].log|);
      } else {
        DistributesKeepsStart(before, after[1..], pts, c + |after[0].log|);
      }
    }
  }
}
