/**
 What a directory write comes to as the code is written.

 The search for the first file may never return, and a gather vector may not hold the pieces it
 should. `DirectoryWriteExact` says when neither happens; then the files are those of
 `FileWrites.WriteDirectory`.
 */
module WriteOutcomes {
  import opened Numbers
  import opened Datapoints
  import opened LogView
  import opened Outcomes
  import opened FileSearch
  import opened FileWrites
  import opened FileOrder
  import opened GatherSlots

  // ---- The vectors ----

  /** One pass of the write loop; `n` points make one allocation. */
  function PassOutcome(fs: Files, pts: Points, c: nat, limit: nat, n: Pos): Outcome<()>
    requires c < |pts|
  {
    if Skips(fs, pts[c], limit) then Returned(())
    else if Takes(fs, pts[c], limit) then VectorOutcome(pts, c, Bound(fs), Room(fs[0], limit), n)
    else VectorOutcome(pts, c, NewBound(fs), limit, n)
  }

  /** The write loop as written, from the file and the point it has reached. */
  function WriteFrom(fs: Files, pts: Points, c: nat, limit: Pos, n: Pos): Outcome<Files>
    requires c <= |pts|
    decreases |pts| - c + |fs|
  {
    if c == |pts| then Returned(fs)
    else
      var _ :- PassOutcome(fs, pts, c, limit, n);
      var m := Next(fs, pts, c, limit);
      var r := WriteFrom(m.ahead, pts, m.cursor, limit, n);
      if r.Returned? then Returned([m.behind] + r.value) else r
  }

  /** Every vector of the loop holds its pieces. */
  predicate AllGather(fs: Files, pts: Points, c: nat, limit: Pos, n: Pos)
    requires c <= |pts|
    decreases |pts| - c + |fs|
  {
    c == |pts| ||
    (PassOutcome(fs, pts, c, limit, n).Returned? &&
     var m := Next(fs, pts, c, limit); AllGather(m.ahead, pts, m.cursor, limit, n))
  }

  lemma {:induction false} PassEnds(fs: Files, pts: Points, c: nat, limit: nat, n: Pos)
    requires c < |pts|
    ensures var r := PassOutcome(fs, pts, c, limit, n); r.Returned? || r.Corrupts? || (r.Undefined? && !Ordered(pts))
  {
    if Ordered(pts) {
      OrderedSplits(pts, NewBound(fs));
      if fs != [] {
        OrderedSplits(pts, Bound(fs));
      }
    }
  }

  lemma {:induction false} WriteFromStep(fs: Files, pts: Points, c: nat, limit: Pos, n: Pos)
    requires c < |pts|
    ensures var p, m := PassOutcome(fs, pts, c, limit, n), Next(fs, pts, c, limit);
      WriteFrom(fs, pts, c, limit, n) ==
        if p.IsFailure() then p.PropagateFailure()
        else
          var rest := WriteFrom(m.ahead, pts, m.cursor, limit, n);
          if rest.IsFailure() then rest else Returned([m.behind] + rest.value)
  {
  }

  /** If all of them do, the write returns and the files are as `WriteFiles` says. */
  lemma {:induction false} WriteFromExact(fs: Files, pts: Points, c: nat, limit: Pos, n: Pos)
    requires c <= |pts|
    ensures var r := WriteFrom(fs, pts, c, limit, n);
      if AllGather(fs, pts, c, limit, n) then r == Returned(WriteFiles(fs, pts, c, limit))
      else r.Corrupts? || (r.Undefined? && !Ordered(pts))
    decreases |pts| - c + |fs|
  {
    if c < |pts| {
      var m := Next(fs, pts, c, limit);
      PassEnds(fs, pts, c, limit, n);
      WriteFromStep(fs, pts, c, limit, n);
      WriteFromExact(m.ahead, pts, m.cursor, limit, n);
    }
  }

  /** The cursors a write reaches, each with the limits of the file it writes there, in plain numbers. */
  predicate CursorsEarly(fs: Files, pts: Points, c: nat, limit: Pos, n: Pos)
    requires c <= |pts|
    decreases |pts| - c + |fs|
  {
    c == |pts| ||
    (&& (if Skips(fs, pts[c], limit) then true
         else if Takes(fs, pts[c], limit) then
           SplitsAt(pts, Bound(fs)) && StartsEarly(c, UpperBound(pts, 0, Bound(fs)), Room(fs[0], limit), n)
         else SplitsAt(pts, NewBound(fs)) && StartsEarly(c, UpperBound(pts, 0, NewBound(fs)), limit, n))
     && var m := Next(fs, pts, c, limit); CursorsEarly(m.ahead, pts, m.cursor, limit, n))
  }

  /**
   All vectors are right if and only if every cursor at which something is written is in the first
   allocation, no slot is cut off, and no point up to a bound stands behind one after it.
   */
  lemma {:induction false} CursorsExactly(fs: Files, pts: Points, c: nat, limit: Pos, n: Pos)
    requires c <= |pts|
    ensures AllGather(fs, pts, c, limit, n) <==> CursorsEarly(fs, pts, c, limit, n)
    decreases |pts| - c + |fs|
  {
    if c < |pts| {
      var m := Next(fs, pts, c, limit);
      CursorsExactly(m.ahead, pts, m.cursor, limit, n);
      if fs != [] {
        SlotsRightExactly(c, UpperBound(pts, 0, Bound(fs)), Room(fs[0], limit), n);
      }
      SlotsRightExactly(c, UpperBound(pts, 0, NewBound(fs)), limit, n);
    }
  }

  // ---- Two conditions that are easy to see ----

  /** A buffer that fits one allocation is always gathered right. */
  lemma {:induction false} SmallBufferGathers(fs: Files, pts: Points, c: nat, limit: Pos, n: Pos)
    requires c <= |pts| <= n && Ordered(pts)
    ensures CursorsEarly(fs, pts, c, limit, n)
    decreases |pts| - c + |fs|
  {
    if c < |pts| {
      var m := Next(fs, pts, c, limit);
      SmallBufferGathers(m.ahead, pts, m.cursor, limit, n);
      if fs != [] {
        OrderedSplits(pts, Bound(fs));
        OneAllocation(c, UpperBound(pts, 0, Bound(fs)), Room(fs[0], limit), n);
      }
      OrderedSplits(pts, NewBound(fs));
      OneAllocation(c, UpperBound(pts, 0, NewBound(fs)), limit, n);
    }
  }

  lemma {:induction false} OneAllocation(pos: nat, endPos: nat, maxPoints: nat, n: Pos)
    requires endPos <= n
    ensures StartsEarly(pos, endPos, maxPoints, n)
  {
    if pos < endPos && maxPoints >= 1 {
      CeilIs(n, 1, 0, n);
      CeilDivMonotone(endPos, n, n);
      CeilDivPred(maxPoints, n);
    }
  }

  /** A write that still has points to store once it is past the first allocation always goes wrong. */
  lemma {:induction false} LateCursorCorrupts(fs: Files, pts: Points, c: nat, limit: Pos, n: Pos)
    requires n <= c < |pts| && Ordered(pts)
    ensures WriteFrom(fs, pts, c, limit, n) == Corrupts
    decreases |fs|
  {
    if Skips(fs, pts[c], limit) {
      LateCursorCorrupts(fs[1..], pts, c, limit, n);
      assert Next(fs, pts, c, limit) == Move(fs[0], fs[1..], c);
    } else if Takes(fs, pts[c], limit) {
      BoundReached(pts, c, Bound(fs));
      OrderedSplits(pts, Bound(fs));
      SlotsRightExactly(c, UpperBound(pts, 0, Bound(fs)), Room(fs[0], limit), n);
    } else {
      BoundReached(pts, c, NewBound(fs));
      OrderedSplits(pts, NewBound(fs));
      SlotsRightExactly(c, UpperBound(pts, 0, NewBound(fs)), limit, n);
    }
  }

  lemma {:induction false} BoundReached(pts: Points, c: nat, t: int)
    requires Ordered(pts) && c < |pts| && pts[c].timestamp <= t
    ensures c < UpperBound(pts, 0, t)
  {
    forall j | 0 <= j <= c ensures pts[j].timestamp <= t {
      assert j < c ==> pts[j].timestamp <= pts[c].timestamp;
    }
    ReachedFrom(pts, 0, c, t);
  }

  lemma {:induction false} ReachedFrom(pts: Points, from: nat, c: nat, t: int)
    requires from <= c < |pts| && forall j :: from <= j <= c ==> pts[j].timestamp <= t
    ensures c < UpperBound(pts, from, t)
    decreases c - from
  {
    if from < c {
      ReachedFrom(pts, from + 1, c, t);
    }
  }

  // ---- The whole directory ----

  /** Locate the first file by the search as written, and write from there on. */
  function DirectoryWrite(fs: Files, pts: Points, limit: Pos, n: Pos): Outcome<Files> {
    if pts == [] then Returned(fs)
    else if !Halts(Mins(fs), pts[0].timestamp, |fs|) then Hangs
    else
      var i := Found(Mins(fs), pts[0].timestamp, |fs|);
      var r := WriteFrom(fs[i..], pts, 0, limit, n);
      if r.Returned? then Returned(fs[..i] + r.value) else r
  }

  /** The write returns: its search ends, and every cursor it reaches is early enough. */
  predicate WriteReturns(fs: Files, pts: Points, limit: Pos, n: Pos) {
    pts == [] ||
    (&& Halts(Mins(fs), pts[0].timestamp, |fs|)
     && CursorsEarly(fs[Found(Mins(fs), pts[0].timestamp, |fs|)..], pts, 0, limit, n))
  }

  /** A write returns if and only if `WriteReturns`, and then the files are as `WriteFiles` leaves them. */
  lemma {:induction false} DirectoryWriteReturns(fs: Files, pts: Points, limit: Pos, n: Pos)
    requires pts != []
    ensures var i, r := Found(Mins(fs), pts[0].timestamp, |fs|), DirectoryWrite(fs, pts, limit, n);
      if !Halts(Mins(fs), pts[0].timestamp, |fs|) then r == Hangs
      else if CursorsEarly(fs[i..], pts, 0, limit, n) then r == Returned(fs[..i] + WriteFiles(fs[i..], pts, 0, limit))
      else r.Corrupts? || (r.Undefined? && !Ordered(pts))
  {
    var i := Found(Mins(fs), pts[0].timestamp, |fs|);
    WriteFromExact(fs[i..], pts, 0, limit, n);
    CursorsExactly(fs[i..], pts, 0, limit, n);
  }

  /** Over files in strict order it is the write from the last file that starts early enough. */
  lemma {:induction false} DirectoryWriteExact(fs: Files, pts: Points, limit: Pos, n: Pos)
    requires Increasing(Mins(fs))
    ensures DirectoryWrite(fs, pts, limit, n) == Returned(WriteDirectory(fs, pts, limit)) <==> WriteReturns(fs, pts, limit, n)
    ensures DirectoryWrite(fs, pts, limit, n).Returned? <==> WriteReturns(fs, pts, limit, n)
  {
    if pts != [] {
      DirectoryWriteReturns(fs, pts, limit, n);
      if Halts(Mins(fs), pts[0].timestamp, |fs|) {
        FoundIsLocated(Mins(fs), pts[0].timestamp);
      }
    }
  }

  // ---- What a write that returns has done ----

  /** Nothing is lost and nothing stored twice. */
  lemma {:induction false} ReturnedConserves(fs: Files, pts: Points, limit: Pos, n: Pos)
    requires DirectoryWrite(fs, pts, limit, n).Returned?
    ensures multiset(Concat(DirectoryWrite(fs, pts, limit, n).value)) == multiset(Concat(fs)) + multiset(pts)
  {
    if pts != [] {
      DirectoryWriteReturns(fs, pts, limit, n);
      var i := Found(Mins(fs), pts[0].timestamp, |fs|);
      assert pts[0..] == pts;
      WriteFilesConserves(fs[i..], pts, 0, limit);
      ConcatSplit(fs, i);
      ConcatConcat(fs[..i], WriteFiles(fs[i..], pts, 0, limit));
    }
  }

  /** The points are dealt out in order over the old files and new ones. */
  lemma {:induction false} ReturnedDistributes(fs: Files, pts: Points, limit: Pos, n: Pos)
    requires DirectoryWrite(fs, pts, limit, n).Returned?
    ensures Distributes(fs, DirectoryWrite(fs, pts, limit, n).value, pts, 0)
  {
    if pts != [] {
      DirectoryWriteReturns(fs, pts, limit, n);
      var i := Found(Mins(fs), pts[0].timestamp, |fs|);
      WriteFilesDistributes(fs[i..], pts, 0, limit);
      PrefixUntouched(fs, i, WriteFiles(fs[i..], pts, 0, limit), pts);
    } else {
      NothingDealt(fs, pts);
    }
  }

  /** Files that keep apart in time act as one log to which the buffer is appended. */
  lemma {:induction false} ReturnedIsAppend(fs: Files, pts: Points, limit: Pos, n: Pos)
    requires Separate(fs, limit)
    ensures var r := DirectoryWrite(fs, pts, limit, n);
      r.Returned? ==>
        && View(Concat(r.value)) == View(Concat(fs) + pts)
        && forall t: int :: AtTime(Concat(r.value), t) == AtTime(Concat(fs) + pts, t)
  {
    SeparateOrder(fs, limit);
    DirectoryWriteExact(fs, pts, limit, n);
    WriteIsAppend(fs, pts, limit);
  }

  /** As written a directory write returns with files that keep apart if and only if it returns and `KeepsSeparate` holds. */
  lemma {:induction false} ReturnedSeparateExactly(fs: Files, pts: Points, limit: Pos, n: Pos)
    requires Separate(fs, limit) && Ordered(pts)
    ensures (var r := DirectoryWrite(fs, pts, limit, n); r.Returned? && Separate(r.value, limit))
      <==> WriteReturns(fs, pts, limit, n) && KeepsSeparate(fs, pts, limit)
  {
    SeparateOrder(fs, limit);
    DirectoryWriteExact(fs, pts, limit, n);
    WriteKeepsSeparateExactly(fs, pts, limit);
  }

  // ---- Newer points ----

  /** The search for a newer point finds the last file, or never ends. */
  lemma {:induction false} NewerSearch(fs: Files, pts: Points, limit: nat)
    requires LooselySeparate(fs, limit) && Before(Concat(fs), pts) && pts != []
    ensures Halts(Mins(fs), pts[0].timestamp, |fs|) <==> |fs| <= 2
    ensures fs != [] && |fs| <= 2 ==> Found(Mins(fs), pts[0].timestamp, |fs|) == |fs| - 1
  {
    LooseOrder(fs, limit);
    if fs != [] {
      LooseLast(fs, pts, limit);
      if |fs| >= 3 {
        NewestNeverFound(Mins(fs), pts[0].timestamp);
        SearchExact(Mins(fs), pts[0].timestamp);
      }
    }
  }

  /** How many of `count` newer points the last file takes. */
  function LastTakes(fs: Files, count: nat, limit: nat): (d: nat)
    ensures d <= count
  {
    if fs == [] then 0 else Min(Room(fs[|fs| - 1], limit), count)
  }

  /** Where the last of the new files begins, when those from `d` on go to new files. */
  function LastStart(d: nat, count: nat, limit: Pos): nat
    requires d < count
  {
    d + (count - 1 - d) / limit * limit
  }

  /**
   What a caller can check of a buffer of newer points: it fits in the last file, or the last new file
   begins in the first allocation and the buffer has no more allocations than a full file.
   */
  predicate NewerGathers(fs: Files, count: nat, limit: Pos, n: Pos) {
    var d := LastTakes(fs, count, limit);
    d == count || (LastStart(d, count, limit) < n && CeilDiv(count, n) <= CeilDiv(limit, n))
  }

  lemma {:induction false} LastStartStep(d: nat, count: nat, limit: Pos)
    requires d < count
    ensures d <= LastStart(d, count, limit)
    ensures LastStart(d, count, limit) == if d + limit < count then LastStart(d + limit, count, limit) else d
  {
    if d + limit < count {
      assert count - 1 - d == (count - 1 - (d + limit)) + limit;
      CeilShift(1, count - 1 - (d + limit), limit);
      assert (1 + (count - 1 - (d + limit)) / limit) * limit == limit + (count - 1 - (d + limit)) / limit * limit;
    } else {
      DivModUnique(0, count - 1 - d, limit);
    }
  }

  lemma {:induction false} NoBoundAtEnd(pts: Points, c: nat)
    requires c <= |pts|
    ensures UpperBound(pts, c, INT64_MAX) == |pts| && SplitsAt(pts, INT64_MAX)
  {
  }

  /** One new file behind all others. */
  lemma {:induction false} NewAtEnd(pts: Points, c: nat, limit: Pos, n: Pos)
    requires c < |pts|
    ensures CursorsEarly([], pts, c, limit, n) <==>
      && StartsEarly(c, |pts|, limit, n)
      && (c + limit < |pts| ==> CursorsEarly([], pts, c + limit, limit, n))
  {
    NoBoundAtEnd(pts, 0);
    NoBoundAtEnd(pts, c);
  }

  lemma {:induction false} NewFilesGather(pts: Points, c: nat, limit: Pos, n: Pos)
    requires c < |pts|
    ensures CursorsEarly([], pts, c, limit, n)
      <==> LastStart(c, |pts|, limit) < n && CeilDiv(|pts|, n) <= CeilDiv(limit, n)
    decreases |pts| - c
  {
    NewAtEnd(pts, c, limit, n);
    LastStartStep(c, |pts|, limit);
    if c + limit < |pts| {
      NewFilesGather(pts, c + limit, limit, n);
    } else {
      CeilDivMonotone(|pts|, c + limit, n);
      if c >= n {
        assert LastStart(c, |pts|, limit) >= n;
      }
    }
  }

  lemma {:induction false} StartIsEarly(endPos: nat, maxPoints: nat, n: Pos)
    ensures StartsEarly(0, endPos, maxPoints, n)
  {
  }

  lemma {:induction false} LastFileGathers(f: FileState, pts: Points, limit: Pos, n: Pos)
    requires pts != [] && f.min <= pts[0].timestamp
    ensures CursorsEarly([f], pts, 0, limit, n) <==> NewerGathers([f], |pts|, limit, n)
  {
    var d := LastTakes([f], |pts|, limit);
    NoBoundAtEnd(pts, 0);
    StartIsEarly(|pts|, d, n);
    StartIsEarly(|pts|, Room(f, limit), n);
    assert [f][1..] == [];
    assert Next([f], pts, 0, limit).ahead == [] && Next([f], pts, 0, limit).cursor == d;
    if d < |pts| {
      NewFilesGather(pts, d, limit, n);
    }
  }

  /** A write of newer points returns if and only if there are at most two files and `NewerGathers`. */
  lemma {:induction false} NewerReturns(fs: Files, pts: Points, limit: Pos, n: Pos)
    requires LooselySeparate(fs, limit) && InOrderAndNewer(fs, pts) && pts != []
    ensures WriteReturns(fs, pts, limit, n) <==> |fs| <= 2 && NewerGathers(fs, |pts|, limit, n)
    ensures var r := DirectoryWrite(fs, pts, limit, n);
      if |fs| >= 3 then r == Hangs
      else if NewerGathers(fs, |pts|, limit, n) then r == Returned(WriteDirectory(fs, pts, limit))
      else r == Corrupts
  {
    NewerSearch(fs, pts, limit);
    DirectoryWriteReturns(fs, pts, limit, n);
    if fs == [] {
      NewFilesGather(pts, 0, limit, n);
      assert fs[0..] == [];
    } else if |fs| <= 2 {
      LooseLast(fs, pts, limit);
      var last := fs[|fs| - 1];
      assert last.min <= last.log[0].timestamp;
      assert fs[|fs| - 1..] == [last];
      LastFileGathers(last, pts, limit, n);
    }
  }

  /**
   Points newer than everything stored are written, and the files keep apart, if and only if there are
   at most two files and `NewerGathers`. With a third file the write never returns.
   */
  lemma {:induction false} NewerWriteExact(fs: Files, pts: Points, limit: Pos, n: Pos)
    requires Separate(fs, limit) && AllNewer(fs, pts) && pts != []
    ensures (var r := DirectoryWrite(fs, pts, limit, n); r.Returned? && Separate(r.value, limit))
      <==> |fs| <= 2 && NewerGathers(fs, |pts|, limit, n)
    ensures |fs| >= 3 ==> DirectoryWrite(fs, pts, limit, n) == Hangs
  {
    SeparateIsLoose(fs, limit);
    NewerReturns(fs, pts, limit, n);
    NewerWriteKeeps(fs, pts, limit);
  }

  /** With repeats in the buffer the looser order is kept, on the same condition. */
  lemma {:induction false} NewerLooseExact(fs: Files, pts: Points, limit: Pos, n: Pos)
    requires LooselySeparate(fs, limit) && InOrderAndNewer(fs, pts) && pts != []
    ensures (var r := DirectoryWrite(fs, pts, limit, n); r.Returned? && LooselySeparate(r.value, limit))
      <==> |fs| <= 2 && NewerGathers(fs, |pts|, limit, n)
  {
    NewerReturns(fs, pts, limit, n);
    NewerWriteLoose(fs, pts, limit);
  }

  /** A write that meets no size limit keeps the files apart if and only if it returns. */
  lemma {:induction false} RoomyWriteExact(fs: Files, pts: Points, limit: Pos, n: Pos)
    requires Separate(fs, limit) && Ordered(pts) && NoLimitBinds(fs, pts, limit)
    ensures (var r := DirectoryWrite(fs, pts, limit, n); r.Returned? && Separate(r.value, limit))
      <==> WriteReturns(fs, pts, limit, n)
  {
    RoomyWriteKeeps(fs, pts, limit);
    SeparateOrder(fs, limit);
    DirectoryWriteExact(fs, pts, limit, n);
  }

  /** No write takes a file away. */
  lemma {:induction false} NeverFewer(before: Files, after: Files, pts: Points, c: nat)
    requires Distributes(before, after, pts, c)
    ensures |after| >= |before|
    decreases |after|
  {
    if after != [] {
      if GrowsFirst(before, after, pts, c) {
        NeverFewer(before[1..], after[1..], pts, c + |after[0].log| - |before[0].log|);
      } else {
        NeverFewer(before, after[1..], pts, c + |after[0].log|);
      }
    }
  }
}
