/**
 Exactly when a directory write keeps the files separate in time.

 A write can only go wrong where the size limit binds: a full file is passed over before its min is
 compared with the current point, and what does not fit in a file goes to a new file behind it.
 `KeepsSeparate` is a condition on the files and points before the write, and
 `WriteKeepsSeparateExactly` shows it to be necessary and sufficient.
 */
module FileOrder {
  import opened Numbers
  import opened Datapoints
  import opened FileSearch
  import opened FileWrites

  /** Cut into pieces of `limit` points, the points from `c` to `d` share no timestamp across a cut. */
  predicate ChunksCleanly(pts: Points, c: nat, d: nat, limit: Pos)
    requires c <= d <= |pts|
    decreases d - c
  {
    d - c <= limit ||
    (pts[c + limit - 1].timestamp < pts[c + limit].timestamp && ChunksCleanly(pts, c + limit, d, limit))
  }

  /** Everything stored in `log` and every point from `c` to `d` is earlier than `t`. */
  ghost predicate Older(log: Points, pts: Points, c: nat, d: nat, t: int)
    requires c <= d <= |pts|
  {
    AllBelow(log, t) && forall j :: c <= j < d ==> pts[j].timestamp < t
  }

  /**
   The points from `c` to `here` belong to the first file; those from `d` on no longer fit and must
   be newer than all it then holds. The next file must not be full, for it would be passed over.
   */
  ghost predicate OverflowIsNewer(fs: Files, pts: Points, c: nat, d: nat, here: nat, limit: Pos)
    requires fs != [] && c <= d <= here <= |pts|
  {
    d == here ||
    (&& Older(fs[0].log, pts, c, d, pts[d].timestamp)
     && (|fs| > 1 ==> Room(fs[1], limit) > 0)
     && ChunksCleanly(pts, d, here, limit))
  }

  /** Where the first file's share of the points ends, within its bound and its room. */
  function ShareEnd(fs: Files, pts: Points, c: nat, limit: nat): (d: nat)
    requires fs != [] && c <= |pts|
    ensures c <= d <= UpperBound(pts, c, Bound(fs))
  {
    c + Writable(pts, c, Bound(fs), Room(fs[0], limit))
  }

  /** Each file in turn can take what belongs to it, or holds only older points. */
  ghost predicate Settles(fs: Files, pts: Points, c: nat, limit: Pos)
    requires c <= |pts|
    decreases |fs|
  {
    if fs == [] then ChunksCleanly(pts, c, |pts|, limit)
    else
      var here := UpperBound(pts, c, Bound(fs));
      OverflowIsNewer(fs, pts, c, ShareEnd(fs, pts, c, limit), here, limit) && Settles(fs[1..], pts, here, limit)
  }

  /** The whole condition: points older than the first file need that file to have room. */
  ghost predicate KeepsSeparate(fs: Files, pts: Points, limit: Pos) {
    if pts == [] || fs == [] then Settles(fs, pts, 0, limit)
    else if pts[0].timestamp < fs[0].min then
      var n := UpperBound(pts, 0, NewBound(fs));
      Room(fs[0], limit) > 0 && ChunksCleanly(pts, 0, n, limit) && Settles(fs, pts, n, limit)
    else Settles(fs[Located(Mins(fs), pts[0].timestamp)..], pts, 0, limit)
  }

  // ---- New files ----

  /** The file made of the points from `c` to `d`. */
  function ChunkFile(pts: Points, c: nat, d: nat, top: int): FileState
    requires c < d <= |pts|
  {
    FileState(pts[c].timestamp, Max(pts[c].timestamp, top), pts[c..d])
  }

  /** The files made of points that no existing file takes. */
  function ChunkFiles(pts: Points, c: nat, d: nat, top: int, limit: Pos): Files
    requires c < d <= |pts|
    decreases d - c
  {
    if d - c <= limit then [ChunkFile(pts, c, d, top)]
    else [ChunkFile(pts, c, c + limit, top)] + ChunkFiles(pts, c + limit, d, top, limit)
  }

  lemma {:induction false} SeparateCons(f: FileState, rest: Files, limit: nat)
    ensures Separate([f] + rest, limit) <==>
      FileOk(f, limit) && (rest != [] ==> AllBelow(f.log, rest[0].min)) && Separate(rest, limit)
  {
    assert ([f] + rest)[1..] == rest;
  }

  /** Each new file is well formed, and ends before the next begins exactly when the cut is clean. */
  ghost predicate ChunksOk(pts: Points, c: nat, d: nat, top: int, limit: Pos)
    requires c < d <= |pts|
    decreases d - c
  {
    if d - c <= limit then FileOk(ChunkFile(pts, c, d, top), limit)
    else
      var f, e := ChunkFile(pts, c, c + limit, top), c + limit;
      && FileOk(f, limit)
      && (AllBelow(f.log, pts[e].timestamp) <==> pts[e - 1].timestamp < pts[e].timestamp)
      && ChunksOk(pts, e, d, top, limit)
  }

  lemma {:induction false} ChunkFileOk(pts: Points, c: nat, d: nat, top: int, limit: nat)
    requires c < d <= |pts| && d - c <= limit && Ordered(pts)
    requires forall j :: c <= j < d ==> pts[j].timestamp <= top
    ensures FileOk(ChunkFile(pts, c, d, top), limit)
    ensures d < |pts| ==>
      (AllBelow(ChunkFile(pts, c, d, top).log, pts[d].timestamp) <==> pts[d - 1].timestamp < pts[d].timestamp)
  {
    var f := ChunkFile(pts, c, d, top);
    forall i | 0 <= i < |f.log| ensures f.min <= f.log[i].timestamp <= f.max && f.log[i].timestamp <= pts[d - 1].timestamp {
      assert f.log[i] == pts[c + i];
    }
    assert f.log[d - 1 - c] == pts[d - 1];
  }

  lemma {:induction false} OrderedChunksOk(pts: Points, c: nat, d: nat, top: int, limit: Pos)
    requires c < d <= |pts| && Ordered(pts)
    requires forall j :: c <= j < d ==> pts[j].timestamp <= top
    ensures ChunksOk(pts, c, d, top, limit)
    decreases d - c
  {
    if d - c <= limit {
      ChunkFileOk(pts, c, d, top, limit);
    } else {
      ChunkFileOk(pts, c, c + limit, top, limit);
      OrderedChunksOk(pts, c + limit, d, top, limit);
    }
  }

  lemma {:induction false} ChunkFilesSeparate(pts: Points, c: nat, d: nat, top: int, tail: Files, limit: Pos)
    requires c < d <= |pts| && ChunksOk(pts, c, d, top, limit)
    requires tail != [] ==> forall j :: c <= j < d ==> pts[j].timestamp < tail[0].min
    ensures ChunkFiles(pts, c, d, top, limit)[0].min == pts[c].timestamp
    ensures Separate(ChunkFiles(pts, c, d, top, limit) + tail, limit)
      <==> ChunksCleanly(pts, c, d, limit) && Separate(tail, limit)
    decreases d - c
  {
    if d - c <= limit {
      SeparateCons(ChunkFile(pts, c, d, top), tail, limit);
    } else {
      ChunkFilesSeparate(pts, c + limit, d, top, tail, limit);
      SeparateBeforeRun(ChunkFile(pts, c, c + limit, top), ChunkFiles(pts, c + limit, d, top, limit), tail, limit);
    }
  }

  lemma {:induction false} SeparateBeforeRun(f: FileState, run: Files, tail: Files, limit: nat)
    requires run != []
    ensures Separate(([f] + run) + tail, limit) <==>
      FileOk(f, limit) && AllBelow(f.log, run[0].min) && Separate(run + tail, limit)
  {
    Assoc([f], run, tail);
    SeparateCons(f, run + tail, limit);
  }

  /** Points up to the bound of a new file become new files, and the write goes on behind them. */
  lemma {:induction false} NewRun(fs: Files, pts: Points, c: nat, d: nat, top: int, limit: Pos)
    requires c < d <= |pts| && d == UpperBound(pts, c, NewBound(fs)) && Ordered(pts)
    requires top == Min(pts[|pts| - 1].timestamp, NewBound(fs))
    requires fs != [] ==> Room(fs[0], limit) > 0 && NewBound(fs) <= Bound(fs)
    ensures WriteFiles(fs, pts, c, limit) == ChunkFiles(pts, c, d, top, limit) + WriteFiles(fs, pts, d, limit)
    decreases d - c
  {
    if d - c <= limit {
      NextIsChunk(fs, pts, c, d, top, limit);
      WriteAfterChunk(fs, pts, c, d, top, limit);
    } else {
      var e := c + limit;
      NextIsChunk(fs, pts, c, e, top, limit);
      WriteAfterChunk(fs, pts, c, e, top, limit);
      UpperBoundFrom(pts, c, e, NewBound(fs));
      NewRun(fs, pts, e, d, top, limit);
      Assoc([ChunkFile(pts, c, e, top)], ChunkFiles(pts, e, d, top, limit), WriteFiles(fs, pts, d, limit));
    }
  }

  lemma {:induction false} WriteAfterChunk(fs: Files, pts: Points, c: nat, e: nat, top: int, limit: Pos)
    requires c < e <= |pts| && Next(fs, pts, c, limit) == Move(ChunkFile(pts, c, e, top), fs, e)
    ensures WriteFiles(fs, pts, c, limit) == [ChunkFile(pts, c, e, top)] + WriteFiles(fs, pts, e, limit)
  {
  }

  lemma {:induction false} NextIsChunk(fs: Files, pts: Points, c: nat, e: nat, top: int, limit: Pos)
    requires c < |pts| && c < UpperBound(pts, c, NewBound(fs)) && Ordered(pts)
    requires e == Min(UpperBound(pts, c, NewBound(fs)), c + limit)
    requires top == Min(pts[|pts| - 1].timestamp, NewBound(fs))
    requires fs != [] ==> Room(fs[0], limit) > 0 && NewBound(fs) <= Bound(fs)
    ensures Next(fs, pts, c, limit) == Move(ChunkFile(pts, c, e, top), fs, e)
  {
    RaisedOrdered(pts[c].timestamp, pts, c, NewBound(fs));
  }

  // ---- A full file that should have come later ----

  /** Passing over a full file that starts after the current point leaves the files out of order. */
  lemma {:induction false} FullFileBreaks(fs: Files, pts: Points, c: nat, limit: Pos)
    requires fs != [] && Separate(fs, limit)
    requires c < |pts| && pts[c].timestamp < fs[0].min && Room(fs[0], limit) == 0
    ensures !Separate(WriteFiles(fs, pts, c, limit), limit)
    decreases |fs|
  {
    var rest := fs[1..];
    var written := WriteFiles(rest, pts, c, limit);
    SeparateCons(fs[0], written, limit);
    assert fs[0].min <= fs[0].log[0].timestamp;
    if rest != [] && Room(rest[0], limit) == 0 {
      FullFileBreaks(rest, pts, c, limit);
    } else {
      if rest != [] {
        NextMin(rest, limit);
      }
      assert written[0].min == pts[c].timestamp;
    }
  }

  lemma {:induction false} NextMin(fs: Files, limit: nat)
    requires fs != [] && Separate(fs, limit)
    ensures NewBound(fs) <= Bound(fs)
    ensures |fs| > 1 ==> fs[0].min < fs[1].min
  {
    assert fs[0].min <= fs[0].log[0].timestamp;
  }

  // ---- One file at a time ----

  /** The first file as the write leaves it, when the points from `c` to `d` go to it. */
  function Head(fs: Files, pts: Points, c: nat, d: nat): FileState
    requires fs != [] && c <= d <= |pts|
  {
    if c == d then fs[0] else Grown(fs[0], pts, c, Bound(fs), d - c)
  }

  /** Whether passed over or written to, the first file gets its share and the write moves on. */
  lemma {:induction false} NextIsHead(fs: Files, pts: Points, c: nat, limit: Pos)
    requires fs != [] && c < |pts| && pts[c].timestamp >= fs[0].min
    ensures var d := ShareEnd(fs, pts, c, limit); Next(fs, pts, c, limit) == Move(Head(fs, pts, c, d), fs[1..], d)
  {
  }

  lemma {:induction false} HeadOk(fs: Files, pts: Points, c: nat, d: nat, limit: nat)
    requires fs != [] && FileOk(fs[0], limit) && Ordered(pts)
    requires c < |pts| && pts[c].timestamp >= fs[0].min
    requires c <= d <= UpperBound(pts, c, Bound(fs)) && d - c <= Room(fs[0], limit)
    ensures FileOk(Head(fs, pts, c, d), limit) && Head(fs, pts, c, d).min == fs[0].min
    ensures forall t: int :: AllBelow(Head(fs, pts, c, d).log, t) <==> Older(fs[0].log, pts, c, d, t)
  {
    if c < d {
      var f, n := Head(fs, pts, c, d), |fs[0].log|;
      RaisedOrdered(fs[0].max, pts, c, Bound(fs));
      assert forall i :: 0 <= i < n ==> f.log[i] == fs[0].log[i];
      assert forall j :: c <= j < d ==> f.log[n + j - c] == pts[j];
      forall i | 0 <= i < |f.log| ensures f.min <= f.log[i].timestamp <= f.max {
        assert i >= n ==> f.log[i] == pts[c + i - n];
      }
      forall t: int ensures AllBelow(f.log, t) <==> Older(fs[0].log, pts, c, d, t) {
        if Older(fs[0].log, pts, c, d, t) {
          forall i | 0 <= i < |f.log| ensures f.log[i].timestamp < t {
            assert i >= n ==> f.log[i] == pts[c + i - n];
          }
        }
      }
    }
  }

  /** What a file cannot hold goes to new files, unless the next file is full. */
  lemma {:induction false} OverflowExact(head: FileState, rest: Files, pts: Points, d: nat, here: nat, limit: Pos)
    requires FileOk(head, limit) && Separate(rest, limit)
    requires Ordered(pts) && d < here <= |pts| && here == UpperBound(pts, d, NewBound(rest))
    requires rest != [] ==>
      WriteFiles(rest, pts, here, limit) != [] && WriteFiles(rest, pts, here, limit)[0].min == rest[0].min
    requires rest == [] ==> here == |pts|
    ensures Separate([head] + WriteFiles(rest, pts, d, limit), limit) <==>
      (&& AllBelow(head.log, pts[d].timestamp)
       && (rest != [] ==> Room(rest[0], limit) > 0)
       && ChunksCleanly(pts, d, here, limit)
       && Separate(WriteFiles(rest, pts, here, limit), limit))
  {
    SeparateCons(head, WriteFiles(rest, pts, d, limit), limit);
    if rest != [] && Room(rest[0], limit) == 0 {
      FullFileBreaks(rest, pts, d, limit);
    } else {
      if rest != [] {
        NextMin(rest, limit);
      }
      var top := Min(pts[|pts| - 1].timestamp, NewBound(rest));
      forall j | d <= j < here ensures pts[j].timestamp <= top {
        assert j < |pts| - 1 ==> pts[j].timestamp <= pts[|pts| - 1].timestamp;
      }
      NewRun(rest, pts, d, here, top, limit);
      OrderedChunksOk(pts, d, here, top, limit);
      ChunkFilesSeparate(pts, d, here, top, WriteFiles(rest, pts, here, limit), limit);
    }
  }

  /** From the located file on, the write keeps the files separate exactly when every file settles. */
  lemma {:induction false} SettlesExactly(fs: Files, pts: Points, c: nat, limit: Pos)
    requires Separate(fs, limit) && Ordered(pts) && c <= |pts|
    requires fs != [] && c < |pts| ==> pts[c].timestamp >= fs[0].min
    ensures Separate(WriteFiles(fs, pts, c, limit), limit) <==> Settles(fs, pts, c, limit)
    ensures fs != [] ==> WriteFiles(fs, pts, c, limit) != [] && WriteFiles(fs, pts, c, limit)[0].min == fs[0].min
    decreases |fs|
  {
    if c == |pts| {
      SettlesAtEnd(fs, pts, limit);
    } else if fs == [] {
      var top := Min(pts[|pts| - 1].timestamp, INT64_MAX);
      forall j | c <= j < |pts| ensures pts[j].timestamp <= top {
        assert j < |pts| - 1 ==> pts[j].timestamp <= pts[|pts| - 1].timestamp;
      }
      NewRun(fs, pts, c, |pts|, top, limit);
      OrderedChunksOk(pts, c, |pts|, top, limit);
      ChunkFilesSeparate(pts, c, |pts|, top, [], limit);
    } else {
      var here, d := UpperBound(pts, c, Bound(fs)), ShareEnd(fs, pts, c, limit);
      NextIsHead(fs, pts, c, limit);
      HeadOk(fs, pts, c, d, limit);
      SettlesExactly(fs[1..], pts, here, limit);
      StepExact(fs, pts, c, d, here, limit);
    }
  }

  lemma {:induction false} SettlesAtEnd(fs: Files, pts: Points, limit: Pos)
    ensures Settles(fs, pts, |pts|, limit)
    decreases |fs|
  {
    if fs != [] {
      SettlesAtEnd(fs[1..], pts, limit);
    }
  }

  lemma {:induction false} StepExact(fs: Files, pts: Points, c: nat, d: nat, here: nat, limit: Pos)
    requires fs != [] && Separate(fs, limit) && Ordered(pts)
    requires c < |pts| && pts[c].timestamp >= fs[0].min
    requires here == UpperBound(pts, c, Bound(fs)) && d == ShareEnd(fs, pts, c, limit)
    requires Separate(WriteFiles(fs[1..], pts, here, limit), limit) <==> Settles(fs[1..], pts, here, limit)
    requires |fs| > 1 ==>
      WriteFiles(fs[1..], pts, here, limit) != [] && WriteFiles(fs[1..], pts, here, limit)[0].min == fs[1].min
    ensures Separate([Head(fs, pts, c, d)] + WriteFiles(fs[1..], pts, d, limit), limit) <==>
      OverflowIsNewer(fs, pts, c, d, here, limit) && Settles(fs[1..], pts, here, limit)
  {
    HeadOk(fs, pts, c, d, limit);
    if d == here {
      SeparateCons(Head(fs, pts, c, d), WriteFiles(fs[1..], pts, d, limit), limit);
    } else {
      UpperBoundFrom(pts, c, d, Bound(fs));
      OverflowExact(Head(fs, pts, c, d), fs[1..], pts, d, here, limit);
    }
  }

  // ---- The whole directory ----

  /** Files before the located one are left alone and stay in order. */
  lemma {:induction false} PrefixStays(fs: Files, i: nat, written: Files, limit: nat)
    requires Separate(fs, limit) && i < |fs| && written != [] && written[0].min == fs[i].min
    ensures Separate(fs[..i] + written, limit) <==> Separate(written, limit)
  {
    if i == 0 {
      EmptyLeft(written);
      assert fs[..0] == [];
    } else {
      var rest := fs[1..][..i - 1] + written;
      PrefixStays(fs[1..], i - 1, written, limit);
      assert fs[..i] + written == [fs[0]] + rest;
      assert rest[0].min == fs[1].min;
      SeparateCons(fs[0], rest, limit);
    }
  }

  /** A write keeps separate files separate if and only if `KeepsSeparate` holds of them and the points. */
  lemma {:induction false} WriteKeepsSeparateExactly(fs: Files, pts: Points, limit: Pos)
    requires Separate(fs, limit) && Ordered(pts)
    ensures Separate(WriteDirectory(fs, pts, limit), limit) <==> KeepsSeparate(fs, pts, limit)
  {
    if pts == [] {
      SettlesAtEnd(fs, pts, limit);
    } else if fs == [] {
      SettlesExactly(fs, pts, 0, limit);
      EmptyLeft(WriteFiles(fs, pts, 0, limit));
    } else {
      SeparateOrder(fs, limit);
      var i := Located(Mins(fs), pts[0].timestamp);
      if pts[0].timestamp < fs[0].min {
        assert Mins(fs)[0] > pts[0].timestamp;
        OlderThanAll(fs, pts, limit);
        EmptyLeft(WriteFiles(fs, pts, 0, limit));
        assert fs[..0] == [] && fs[0..] == fs;
      } else {
        assert Mins(fs)[0] <= pts[0].timestamp;
        assert Mins(fs)[i] <= pts[0].timestamp;
        SeparateFrom(fs, i, limit);
        SettlesExactly(fs[i..], pts, 0, limit);
        PrefixStays(fs, i, WriteFiles(fs[i..], pts, 0, limit), limit);
      }
    }
  }

  lemma {:induction false} OlderThanAll(fs: Files, pts: Points, limit: Pos)
    requires fs != [] && Separate(fs, limit) && Ordered(pts)
    requires pts != [] && pts[0].timestamp < fs[0].min
    ensures Separate(WriteFiles(fs, pts, 0, limit), limit) <==> KeepsSeparate(fs, pts, limit)
  {
    var n := UpperBound(pts, 0, NewBound(fs));
    if Room(fs[0], limit) == 0 {
      FullFileBreaks(fs, pts, 0, limit);
    } else {
      var top := Min(pts[|pts| - 1].timestamp, NewBound(fs));
      forall j | 0 <= j < n ensures pts[j].timestamp <= top {
        assert j < |pts| - 1 ==> pts[j].timestamp <= pts[|pts| - 1].timestamp;
      }
      NextMin(fs, limit);
      NewRun(fs, pts, 0, n, top, limit);
      OrderedChunksOk(pts, 0, n, top, limit);
      SettlesExactly(fs, pts, n, limit);
      ChunkFilesSeparate(pts, 0, n, top, WriteFiles(fs, pts, n, limit), limit);
    }
  }

  // ---- Two conditions that are easy to see ----

  /** Every file has room for the whole buffer. */
  ghost predicate NoLimitBinds(fs: Files, pts: Points, limit: nat) {
    |pts| <= limit && forall i :: 0 <= i < |fs| ==> |fs[i].log| + |pts| <= limit
  }

  /** The buffer is newer than everything stored and repeats no timestamp. */
  ghost predicate AllNewer(fs: Files, pts: Points) {
    StrictlyOrdered(pts) && Before(Concat(fs), pts)
  }

  lemma {:induction false} RoomySettles(fs: Files, pts: Points, c: nat, limit: Pos)
    requires c <= |pts| && NoLimitBinds(fs, pts, limit)
    ensures Settles(fs, pts, c, limit)
    decreases |fs|
  {
    if fs != [] {
      assert |fs[0].log| + |pts| <= limit;
      RoomySettles(fs[1..], pts, UpperBound(pts, c, Bound(fs)), limit);
    }
  }

  lemma {:induction false} StrictChunksCleanly(pts: Points, c: nat, d: nat, limit: Pos)
    requires c <= d <= |pts| && StrictlyOrdered(pts)
    ensures ChunksCleanly(pts, c, d, limit)
    decreases d - c
  {
    if d - c > limit {
      StrictChunksCleanly(pts, c + limit, d, limit);
    }
  }

  /** A write that meets no size limit keeps the files separate. */
  lemma {:induction false} RoomyWriteKeeps(fs: Files, pts: Points, limit: Pos)
    requires Separate(fs, limit) && Ordered(pts) && NoLimitBinds(fs, pts, limit)
    ensures Separate(WriteDirectory(fs, pts, limit), limit)
  {
    WriteKeepsSeparateExactly(fs, pts, limit);
    if pts == [] || fs == [] {
      RoomySettles(fs, pts, 0, limit);
    } else if pts[0].timestamp < fs[0].min {
      assert |fs[0].log| + |pts| <= limit;
      RoomySettles(fs, pts, UpperBound(pts, 0, NewBound(fs)), limit);
    } else {
      RoomySettles(fs[Located(Mins(fs), pts[0].timestamp)..], pts, 0, limit);
    }
  }

  /** So does a write of points newer than all stored ones, even where the limit binds. */
  lemma {:induction false} NewerWriteKeeps(fs: Files, pts: Points, limit: Pos)
    requires Separate(fs, limit) && AllNewer(fs, pts)
    ensures Separate(WriteDirectory(fs, pts, limit), limit)
  {
    WriteKeepsSeparateExactly(fs, pts, limit);
    if fs == [] || pts == [] {
      if pts == [] {
        SettlesAtEnd(fs, pts, limit);
      } else {
        StrictChunksCleanly(pts, 0, |pts|, limit);
      }
    } else {
      SeparateIsLoose(fs, limit);
      LooseLast(fs, pts, limit);
      NewerSettles(fs[|fs| - 1..], pts, limit);
    }
  }

  lemma {:induction false} NewerSettles(fs: Files, pts: Points, limit: Pos)
    requires |fs| == 1 && StrictlyOrdered(pts) && pts != []
    requires AllBelow(fs[0].log, pts[0].timestamp)
    ensures Settles(fs, pts, 0, limit)
  {
    var d := ShareEnd(fs, pts, 0, limit);
    StrictChunksCleanly(pts, d, |pts|, limit);
    assert UpperBound(pts, 0, Bound(fs)) == |pts|;
    SettlesAtEnd(fs[1..], pts, limit);
    if d < |pts| {
      forall i | 0 <= i < |fs[0].log| ensures fs[0].log[i].timestamp < pts[d].timestamp {
        assert pts[0].timestamp <= pts[d].timestamp;
      }
    }
  }

  // ---- Repeated timestamps ----

  ghost predicate AllAtMost(s: Points, t: int) {
    forall i :: 0 <= i < |s| ==> s[i].timestamp <= t
  }

  /**
   The looser order that is left when a timestamp is cut in two: nothing is stored after the next file's
   min, but points at that min may stand in both files.
   */
  ghost predicate LooselySeparate(fs: Files, limit: nat) {
    fs == [] ||
    (&& FileOk(fs[0], limit)
     && (|fs| > 1 ==> AllAtMost(fs[0].log, fs[1].min))
     && LooselySeparate(fs[1..], limit))
  }

  /** The buffer is in order and newer than everything stored. */
  ghost predicate InOrderAndNewer(fs: Files, pts: Points) {
    Ordered(pts) && Before(Concat(fs), pts)
  }

  lemma {:induction false} SeparateIsLoose(fs: Files, limit: nat)
    requires Separate(fs, limit)
    ensures LooselySeparate(fs, limit)
  {
    if fs != [] {
      SeparateIsLoose(fs[1..], limit);
    }
  }

  lemma {:induction false} LooseOrder(fs: Files, limit: nat)
    requires LooselySeparate(fs, limit)
    ensures NonDecreasing(Mins(fs))
  {
    if fs != [] {
      var rest := fs[1..];
      LooseOrder(rest, limit);
      assert fs[0].min <= fs[0].log[0].timestamp;
      forall i, j | 0 <= i < j < |fs| ensures Mins(fs)[i] <= Mins(fs)[j] {
        assert Mins(rest)[0] <= Mins(rest)[j - 1];
        if i > 0 {
          assert Mins(rest)[i - 1] <= Mins(rest)[j - 1];
        }
      }
    }
  }

  lemma {:induction false} LooseCons(f: FileState, rest: Files, limit: nat)
    ensures LooselySeparate([f] + rest, limit) <==>
      FileOk(f, limit) && (rest != [] ==> AllAtMost(f.log, rest[0].min)) && LooselySeparate(rest, limit)
  {
    assert ([f] + rest)[1..] == rest;
  }

  /** New files made of ordered points are loosely separate, wherever they are cut. */
  lemma {:induction false} ChunkFilesLoose(pts: Points, c: nat, d: nat, top: int, limit: Pos)
    requires c < d <= |pts| && Ordered(pts) && ChunksOk(pts, c, d, top, limit)
    ensures ChunkFiles(pts, c, d, top, limit)[0].min == pts[c].timestamp
    ensures LooselySeparate(ChunkFiles(pts, c, d, top, limit), limit)
    decreases d - c
  {
    if d - c > limit {
      var f, e := ChunkFile(pts, c, c + limit, top), c + limit;
      ChunkFilesLoose(pts, e, d, top, limit);
      ChunkAtMost(pts, c, e, top);
      LooseCons(f, ChunkFiles(pts, e, d, top, limit), limit);
    } else {
      LooseCons(ChunkFile(pts, c, d, top), [], limit);
      assert [ChunkFile(pts, c, d, top)] + [] == [ChunkFile(pts, c, d, top)];
    }
  }

  lemma {:induction false} ChunkAtMost(pts: Points, c: nat, e: nat, top: int)
    requires c < e < |pts| && Ordered(pts)
    ensures AllAtMost(ChunkFile(pts, c, e, top).log, pts[e].timestamp)
  {
    var f := ChunkFile(pts, c, e, top);
    forall i | 0 <= i < |f.log| ensures f.log[i].timestamp <= pts[e].timestamp {
      assert f.log[i] == pts[c + i];
    }
  }

  /** Points from `c` on that no file takes: new files at the end. */
  lemma {:induction false} EndRunLoose(pts: Points, c: nat, limit: Pos)
    requires c < |pts| && Ordered(pts)
    ensures LooselySeparate(WriteFiles([], pts, c, limit), limit)
    ensures WriteFiles([], pts, c, limit) != [] && WriteFiles([], pts, c, limit)[0].min == pts[c].timestamp
  {
    var top := Min(pts[|pts| - 1].timestamp, INT64_MAX);
    forall j | c <= j < |pts| ensures pts[j].timestamp <= top {
      assert j < |pts| - 1 ==> pts[j].timestamp <= pts[|pts| - 1].timestamp;
    }
    NewRun([], pts, c, |pts|, top, limit);
    OrderedChunksOk(pts, c, |pts|, top, limit);
    ChunkFilesLoose(pts, c, |pts|, top, limit);
    assert ChunkFiles(pts, c, |pts|, top, limit) + [] == ChunkFiles(pts, c, |pts|, top, limit);
  }

  lemma {:induction false} HeadAtMost(f: FileState, pts: Points, d: nat, t: int)
    requires d <= |pts| && Ordered(pts) && AllAtMost(f.log, t)
    requires forall j :: 0 <= j < d ==> pts[j].timestamp <= t
    ensures AllAtMost(Head([f], pts, 0, d).log, t)
  {
    var head, n := Head([f], pts, 0, d), |f.log|;
    forall i | 0 <= i < |head.log| ensures head.log[i].timestamp <= t {
      assert head.log[i] == if i < n then f.log[i] else pts[i - n];
    }
  }

  /** The last file, and what newer points make of it. */
  lemma {:induction false} LastLoose(f: FileState, pts: Points, limit: Pos)
    requires FileOk(f, limit) && Ordered(pts) && pts != [] && AllBelow(f.log, pts[0].timestamp)
    ensures LooselySeparate(WriteFiles([f], pts, 0, limit), limit)
    ensures WriteFiles([f], pts, 0, limit) != [] && WriteFiles([f], pts, 0, limit)[0].min == f.min
  {
    var fs, d := [f], ShareEnd([f], pts, 0, limit);
    assert f.min <= f.log[0].timestamp < pts[0].timestamp;
    assert fs[1..] == [];
    NextIsHead(fs, pts, 0, limit);
    HeadOk(fs, pts, 0, d, limit);
    if d < |pts| {
      EndRunLoose(pts, d, limit);
      forall i | 0 <= i < |f.log| ensures f.log[i].timestamp <= pts[d].timestamp {
        assert pts[0].timestamp <= pts[d].timestamp;
      }
      HeadAtMost(f, pts, d, pts[d].timestamp);
    }
    LooseCons(Head(fs, pts, 0, d), WriteFiles([], pts, d, limit), limit);
  }

  lemma {:induction false} LoosePrefix(fs: Files, i: nat, written: Files, limit: nat)
    requires LooselySeparate(fs, limit) && i < |fs| && written != [] && written[0].min == fs[i].min
    requires LooselySeparate(written, limit)
    ensures LooselySeparate(fs[..i] + written, limit)
  {
    if i == 0 {
      EmptyLeft(written);
      assert fs[..0] == [];
    } else {
      var rest := fs[1..][..i - 1] + written;
      LoosePrefix(fs[1..], i - 1, written, limit);
      assert fs[..i] + written == [fs[0]] + rest;
      assert rest[0].min == fs[1].min;
      LooseCons(fs[0], rest, limit);
    }
  }

  lemma {:induction false} LooseStored(fs: Files, i: nat, t: int, limit: nat)
    requires i < |fs| && LooselySeparate(fs, limit) && AllBelow(Concat(fs), t)
    ensures AllBelow(fs[i].log, t) && FileOk(fs[i], limit)
  {
    var rest := Concat(fs[1..]);
    if i > 0 {
      assert forall j :: 0 <= j < |rest| ==> rest[j] == Concat(fs)[|fs[0].log| + j];
      LooseStored(fs[1..], i - 1, t, limit);
    } else {
      assert forall j :: 0 <= j < |fs[0].log| ==> fs[0].log[j] == Concat(fs)[j];
    }
  }

  /** All files start before a newer point, and so the last of them is the located one. */
  lemma {:induction false} LooseLast(fs: Files, pts: Points, limit: nat)
    requires fs != [] && LooselySeparate(fs, limit) && pts != [] && Before(Concat(fs), pts)
    ensures Located(Mins(fs), pts[0].timestamp) == |fs| - 1
    ensures forall i :: 0 <= i < |fs| ==> Mins(fs)[i] < pts[0].timestamp
    ensures AllBelow(fs[|fs| - 1].log, pts[0].timestamp) && FileOk(fs[|fs| - 1], limit)
  {
    forall i | 0 <= i < |fs| ensures Mins(fs)[i] < pts[0].timestamp {
      LooseStored(fs, i, pts[0].timestamp, limit);
      assert fs[i].min <= fs[i].log[0].timestamp;
    }
    LooseStored(fs, |fs| - 1, pts[0].timestamp, limit);
    assert CountAtMost(Mins(fs), pts[0].timestamp) == |fs|;
  }

  /** Newer points keep the looser order, with repeats and with limits that bind. */
  lemma {:induction false} NewerWriteLoose(fs: Files, pts: Points, limit: Pos)
    requires LooselySeparate(fs, limit) && InOrderAndNewer(fs, pts)
    ensures LooselySeparate(WriteDirectory(fs, pts, limit), limit)
  {
    if pts != [] {
      if fs == [] {
        EndRunLoose(pts, 0, limit);
        EmptyLeft(WriteFiles(fs, pts, 0, limit));
        assert fs[0..] == [] && fs[..0] == [];
      } else {
        var last := |fs| - 1;
        LooseLast(fs, pts, limit);
        assert fs[last..] == [fs[last]];
        LastLoose(fs[last], pts, limit);
        LoosePrefix(fs, last, WriteFiles(fs[last..], pts, 0, limit), limit);
      }
    }
  }
}
