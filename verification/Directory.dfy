/**
 The directory of one series: its sparse files in order of their min timestamps.

 Each method is the source's loop over the files, proved against the functions of `FileList.dfy` and
 `WriteOutcomes.dfy`. The search for the first file can run forever, and a gather vector can be wrong;
 a call that comes to that is ended there and reports it.
 */
module Directories {
  import opened Numbers
  import opened Datapoints
  import opened Reads
  import opened Outcomes
  import opened FileSearch
  import FileList
  import opened FileWrites
  import opened GatherSlots
  import opened WriteOutcomes
  import opened WriteBuffers
  import opened SparseFiles

  /** The files' states, one by one. */
  ghost predicate Match(files: seq<SparseFile>, states: Files)
    reads files
  {
    |files| == |states| && forall i :: 0 <= i < |files| ==> files[i].State() == states[i]
  }

  ghost predicate Distinct(files: seq<SparseFile>) {
    forall i, j :: 0 <= i < j < |files| ==> files[i] != files[j]
  }

  /** A new file put at any position keeps files and states in step. */
  lemma {:induction false} InsertKeeps(files: seq<SparseFile>, states: Files, i: nat, file: SparseFile)
    requires Match(files, states) && Distinct(files) && i <= |files| && file !in files
    ensures Match(files[..i] + [file] + files[i..], states[..i] + [file.State()] + states[i..])
    ensures Distinct(files[..i] + [file] + files[i..])
  {
    var after := files[..i] + [file] + files[i..];
    forall j | 0 <= j < |after|
      ensures after[j] == if j < i then files[j] else if j == i then file else files[j - 1]
    {
    }
  }

  /** A pass at position `i` has left one file behind it and come to the files and the cursor of its move. */
  ghost predicate OnePass(before: Files, after: Files, i: nat, m: Move, cursor: nat)
    requires i <= |before|
  {
    && i < |after| && after[..i + 1] == before[..i] + [m.behind] && after[i + 1..] == m.ahead
    && cursor == m.cursor
  }

  class DatapointDirectory {
    var files: seq<SparseFile>
    ghost var states: Files
    ghost var repr: set<SparseFile>
    const maxFileSize: nat

    constructor (maxFileSize: nat)
      ensures Valid() && states == [] && repr == {} && this.maxFileSize == maxFileSize
    {
      files, states, repr, this.maxFileSize := [], [], {}, maxFileSize;
    }

    ghost predicate Valid()
      reads this, repr
    {
      && (forall i :: 0 <= i < |files| ==> files[i] in repr)
      && Match(files, states) && Distinct(files)
    }

    /** The size limit in points. */
    function Limit(): nat {
      maxFileSize / DATAPOINT_SIZE
    }

    /**
     The search as written, with its hang made visible: `None` stands for the run that never
     returns. The test inside the second branch is the only line the source does not have.
     */
    method FindFirstPotentialFile(ts: int) returns (found: Option<nat>)
      requires Valid() && NonDecreasing(Mins(states))
      ensures found.None? <==> !Halts(Mins(states), ts, |states|)
      ensures found.Some? ==> found.value == Found(Mins(states), ts, |states|)
    {
      ghost var mins := Mins(states);
      var left: nat, middle: nat, right: nat := 0, 0, |files|;
      while left < right
        invariant Searching(mins, ts, left, middle, right)
        decreases right, right - left
      {
        ghost var last := middle;
        middle := (right - left) / 2;
        assert files[middle].State().min == mins[middle];
        if files[middle].minTimestamp > ts {
          GoRight(mins, ts, last, right);
          right := middle;
        } else if files[middle].minTimestamp < ts {
          GoLeft(mins, ts, last, right);
          if right >= 3 {
            return None;
          }
          left := middle + 1;
        } else {
          Hit(mins, ts, last, right);
          return Some(middle);
        }
      }
      Left(mins, ts, left, middle, right);
      return Some(middle);
    }

    /** Locate the first file, then read on from file to file until the window or the space ends. */
    method Read(op: ReadOperation) returns (hung: bool)
      requires Valid() && NonDecreasing(Mins(states)) && op.Valid()
      modifies op, op.buffer
      ensures op.Valid()
      ensures hung <==> !Halts(Mins(states), old(op.nextTime), |states|)
      ensures hung ==> op.Emitted() == old(op.Emitted()) && op.nextTime == old(op.nextTime)
      ensures !hung ==>
        var out := FileList.ReadDirectory(ViewsOf(states, Limit()), old(op.nextTime), op.endTime, old(op.SpaceLeft()));
        op.Emitted() == old(op.Emitted()) + out && op.nextTime == NextAfter(old(op.nextTime), out)
    {
      var found := FindFirstPotentialFile(op.nextTime);
      if found.None? {
        return true;
      }
      hung := false;
      MinsOfViews(states, Limit());
      ShowsFrom(files, states, found.value, Limit());
      Walk(files[found.value..], ViewsOf(states, Limit())[found.value..], op, Limit());
    }

    /** Spread the buffer over the files from the located one on, inserting new files where needed. */
    method Write(op: WriteOperation) returns (ending: Outcome<()>)
      requires Valid() && NonDecreasing(Mins(states)) && maxFileSize >= DATAPOINT_SIZE
      requires op.Valid() && op.cursor == 0 && op.buffer.contents != []
      modifies this, repr, op, op.buffer`contents, op.buffer`sorted, op.buffer.Chunks()
      ensures Valid() && fresh(repr - old(repr))
      ensures op.Valid() && op.buffer.contents == old(op.buffer.contents)
      ensures var r := DirectoryWrite(old(states), op.buffer.contents, Limit(), op.buffer.perAlloc);
        ending == r.Ending() && match r
          case Returned(written) => states == written
          case Hangs => states == old(states)
          case _ => true
    {
      var first := op.buffer.ValueAt(0);
      var found := FindFirstPotentialFile(first.timestamp);
      if found.None? {
        return Hangs;
      }
      WriteFromExact(states[found.value..], op.buffer.contents, 0, Limit(), op.buffer.perAlloc);
      ending := WriteFrom(found.value, op);
    }

    /** The write loop from the file at position `start` on. */
    method WriteFrom(start: nat, op: WriteOperation) returns (ending: Outcome<()>)
      requires Valid() && start <= |files| && maxFileSize >= DATAPOINT_SIZE && op.Valid()
      modifies this, repr, op, op.buffer`contents, op.buffer`sorted, op.buffer.Chunks()
      ensures Valid() && fresh(repr - old(repr))
      ensures op.Valid() && op.buffer.contents == old(op.buffer.contents)
      ensures ending ==
        WriteOutcomes.WriteFrom(old(states)[start..], op.buffer.contents, old(op.cursor), Limit(), op.buffer.perAlloc).Ending()
      ensures ending.Returned? ==>
        states == old(states)[..start] + WriteFiles(old(states)[start..], op.buffer.contents, old(op.cursor), Limit())
    {
      ghost var pts, n := op.buffer.contents, op.buffer.perAlloc;
      ghost var target := states[..start] + WriteFiles(states[start..], pts, op.cursor, Limit());
      ghost var willEnd := WriteOutcomes.WriteFrom(states[start..], pts, op.cursor, Limit(), n).Ending();
      var i := start;
      while op.cursor < op.buffer.numDatapoints
        invariant Valid() && i <= |files| && op.Valid() && op.buffer.contents == pts
        invariant fresh(repr - old(repr))
        invariant states[..i] + WriteFiles(states[i..], pts, op.cursor, Limit()) == target
        invariant WriteOutcomes.WriteFrom(states[i..], pts, op.cursor, Limit(), n).Ending() == willEnd
        decreases |pts| - op.cursor + |states| - i
      {
        ghost var before, c := states, op.cursor;
        ending := Pass(i, op);
        if ending.IsFailure() {
          WriteFromStep(before[i..], pts, c, Limit(), n);
          return;
        }
        PassStep(before, states, i, pts, c, Limit(), n);
        i := i + 1;
      }
      LoopEnd(states, i, pts, op.cursor, Limit(), n);
      ending := Returned(());
    }

    /** One pass of the loop leaves one file behind: the one at the iterator, or a new one put there. */
    method Pass(i: nat, op: WriteOperation) returns (ending: Outcome<()>)
      requires Valid() && i <= |files| && maxFileSize >= DATAPOINT_SIZE
      requires op.Valid() && op.cursor < |op.buffer.contents|
      modifies this, repr, op, op.buffer`contents, op.buffer`sorted, op.buffer.Chunks()
      ensures Valid() && op.Valid() && op.buffer.contents == old(op.buffer.contents)
      ensures fresh(repr - old(repr))
      ensures ending ==
        PassOutcome(old(states)[i..], op.buffer.contents, old(op.cursor), Limit(), op.buffer.perAlloc)
      ensures ending.Returned? ==>
        OnePass(old(states), states, i, Next(old(states)[i..], op.buffer.contents, old(op.cursor), Limit()), op.cursor)
    {
      var attempt := NeedsNew;
      if i < |files| {
        attempt := TryAt(i, op);
      }
      if attempt.NeedsNew? {
        ending := InsertAt(i, op);
      } else {
        ending := if attempt.Broken? then attempt.ending else Returned(());
      }
    }

    /** Try the file at the iterator. */
    method TryAt(i: nat, op: WriteOperation) returns (attempt: Attempt)
      requires Valid() && i < |files| && maxFileSize >= DATAPOINT_SIZE
      requires op.Valid() && op.cursor < |op.buffer.contents|
      modifies this`states, files[i], op, op.buffer`contents, op.buffer`sorted, op.buffer.Chunks()
      ensures Valid() && op.Valid() && op.buffer.contents == old(op.buffer.contents)
      ensures var p := op.buffer.contents[old(op.cursor)];
        attempt.NeedsNew? <==> !Skips(old(states)[i..], p, Limit()) && !Takes(old(states)[i..], p, Limit())
      ensures !attempt.NeedsNew? ==>
        attempt.Agrees(PassOutcome(old(states)[i..], op.buffer.contents, old(op.cursor), Limit(), op.buffer.perAlloc))
      ensures attempt.NeedsNew? || attempt.Broken? ==> states == old(states) && op.cursor == old(op.cursor)
      ensures attempt.Passed? || attempt.Wrote? ==>
        OnePass(old(states), states, i, Next(old(states)[i..], op.buffer.contents, old(op.cursor), Limit()), op.cursor)
    {
      var nextMin := None;
      if i + 1 < |files| {
        assert files[i + 1].State() == states[i + 1];
        nextMin := Some(files[i + 1].minTimestamp);
      }
      assert files[i].State() == states[i] == states[i..][0];
      attempt := TryFile(files[i], nextMin, states[i..], op, maxFileSize);
      UpdateParts(states, i, files[i].State());
      states := states[i := files[i].State()];
    }

    /** Put a new file in front of the iterator, once it has been written to. */
    method InsertAt(i: nat, op: WriteOperation) returns (ending: Outcome<()>)
      requires Valid() && i <= |files| && maxFileSize >= DATAPOINT_SIZE
      requires op.Valid() && op.cursor < |op.buffer.contents|
      requires var p := op.buffer.contents[op.cursor];
        !Skips(states[i..], p, Limit()) && !Takes(states[i..], p, Limit())
      modifies this`states, this`files, this`repr, op, op.buffer`contents, op.buffer`sorted, op.buffer.Chunks()
      ensures Valid() && op.Valid() && op.buffer.contents == old(op.buffer.contents)
      ensures fresh(repr - old(repr))
      ensures ending ==
        PassOutcome(old(states)[i..], op.buffer.contents, old(op.cursor), Limit(), op.buffer.perAlloc)
      ensures ending.Returned? ==>
        OnePass(old(states), states, i, Next(old(states)[i..], op.buffer.contents, old(op.cursor), Limit()), op.cursor)
    {
      var bound := INT64_MAX;
      if i < |files| {
        assert files[i].State() == states[i] == states[i..][0];
        bound := files[i].minTimestamp - 1;
      }
      var file;
      ending, file := CreateFile(bound, states[i..], op, maxFileSize);
      if ending.IsFailure() {
        return;
      }
      UpdateParts(states, i, file.State());
      Insert(i, file);
    }

    method Insert(i: nat, file: SparseFile)
      requires Valid() && i <= |files| && file !in repr
      modifies this`states, this`files, this`repr
      ensures Valid() && |files| == |old(files)| + 1 && repr == old(repr) + {file}
      ensures states == old(states)[..i] + [file.State()] + old(states)[i..]
    {
      InsertKeeps(files, states, i, file);
      files := files[..i] + [file] + files[i..];
      states := states[..i] + [file.State()] + states[i..];
      repr := repr + {file};
    }
  }

  lemma {:induction false} LoopEnd(states: Files, i: nat, pts: Points, c: nat, limit: Pos, n: Pos)
    requires i <= |states| && c == |pts|
    ensures states[..i] + WriteFiles(states[i..], pts, c, limit) == states
    ensures WriteOutcomes.WriteFrom(states[i..], pts, c, limit, n).Ending() == Returned(())
  {
  }

  lemma {:induction false} PassStep(before: Files, after: Files, i: nat, pts: Points, c: nat, limit: Pos, n: Pos)
    requires c < |pts| && i <= |before| && i < |after|
    requires PassOutcome(before[i..], pts, c, limit, n).Returned?
    requires OnePass(before, after, i, Next(before[i..], pts, c, limit), Next(before[i..], pts, c, limit).cursor)
    ensures var m := Next(before[i..], pts, c, limit);
      && after[..i + 1] + WriteFiles(after[i + 1..], pts, m.cursor, limit) == before[..i] + WriteFiles(before[i..], pts, c, limit)
      && WriteOutcomes.WriteFrom(after[i + 1..], pts, m.cursor, limit, n).Ending()
        == WriteOutcomes.WriteFrom(before[i..], pts, c, limit, n).Ending()
      && |pts| - m.cursor + |after| - (i + 1) < |pts| - c + |before| - i
  {
    var m := Next(before[i..], pts, c, limit);
    Assoc(before[..i], [m.behind], WriteFiles(m.ahead, pts, m.cursor, limit));
  }

  /** Assigning to or inserting at a position leaves the parts before and behind it as they are. */
  lemma {:induction false} UpdateParts(s: Files, i: nat, x: FileState)
    requires i <= |s|
    ensures (s[..i] + [x] + s[i..])[..i + 1] == s[..i] + [x] && (s[..i] + [x] + s[i..])[i + 1..] == s[i..]
    ensures i < |s| ==> s[i := x][..i + 1] == s[..i] + [x] && s[i := x][i + 1..] == s[i..][1..]
  {
  }

  datatype Attempt = Passed | Wrote | NeedsNew | Broken(ending: Outcome<()>) {

    /** Whether it ended as the pass does. */
    predicate Agrees(outcome: Outcome<()>) {
      if Broken? then ending == outcome && outcome.IsFailure() else outcome.Returned?
    }
  }

  /** Try one existing file: pass it over, write to it, or find that it starts in the future. */
  method TryFile(file: SparseFile, nextMin: Option<int>, ghost fs: Files, op: WriteOperation, maxBytes: nat)
    returns (attempt: Attempt)
    requires fs != [] && file.State() == fs[0] && maxBytes >= DATAPOINT_SIZE
    requires nextMin == if |fs| > 1 then Some(fs[1].min) else None
    requires op.Valid() && op.cursor < |op.buffer.contents|
    modifies file, op, op.buffer`contents, op.buffer`sorted, op.buffer.Chunks()
    ensures op.Valid() && op.buffer.contents == old(op.buffer.contents)
    ensures attempt.Passed? <==> Skips(fs, op.buffer.contents[old(op.cursor)], maxBytes / DATAPOINT_SIZE)
    ensures attempt.Wrote? || attempt.Broken? <==> Takes(fs, op.buffer.contents[old(op.cursor)], maxBytes / DATAPOINT_SIZE)
    ensures !attempt.NeedsNew? ==>
      attempt.Agrees(PassOutcome(fs, op.buffer.contents, old(op.cursor), maxBytes / DATAPOINT_SIZE, op.buffer.perAlloc))
    ensures attempt.NeedsNew? || attempt.Broken? ==> file.State() == fs[0] && op.cursor == old(op.cursor)
    ensures attempt.Passed? || attempt.Wrote? ==>
      Next(fs, op.buffer.contents, old(op.cursor), maxBytes / DATAPOINT_SIZE) == Move(file.State(), fs[1..], op.cursor)
  {
    op.maxWritableDatapoints := file.RemainingWritableDatapoints(maxBytes);
    if op.maxWritableDatapoints == 0 {
      return Passed;
    }
    op.maxWritableTimestamp := match nextMin case Some(m) => m - 1 case None => INT64_MAX;
    var p := op.buffer.ValueAt(op.cursor);
    if op.maxWritableTimestamp < p.timestamp {
      return Passed;
    }
    if p.timestamp >= file.minTimestamp {
      var ending, written := WriteTo(file, fs, op, maxBytes / DATAPOINT_SIZE);
      if ending.IsFailure() {
        return Broken(ending);
      }
      op.cursor := op.cursor + written;
      if written > 0 {
        return Wrote;
      }
    }
    return NeedsNew;
  }

  /** A file that takes the current point is left as one pass of the loop leaves it. */
  method WriteTo(file: SparseFile, ghost fs: Files, op: WriteOperation, ghost limit: Pos)
    returns (ending: Outcome<()>, written: nat)
    requires fs != [] && file.State() == fs[0]
    requires op.Valid() && op.cursor < |op.buffer.contents| && Takes(fs, op.buffer.contents[op.cursor], limit)
    requires op.maxWritableDatapoints == Room(fs[0], limit) && op.maxWritableTimestamp == Bound(fs)
    modifies file, op.buffer`contents, op.buffer`sorted, op.buffer.Chunks()
    ensures op.Valid() && op.buffer.contents == old(op.buffer.contents)
    ensures ending == PassOutcome(fs, op.buffer.contents, op.cursor, limit, op.buffer.perAlloc)
    ensures ending.Returned? ==>
      written >= 1 && Next(fs, op.buffer.contents, op.cursor, limit) == Move(file.State(), fs[1..], op.cursor + written)
    ensures ending.IsFailure() ==> file.State() == fs[0]
  {
    NextTakes(fs, op.buffer.contents, op.cursor, limit);
    var queued;
    ending, written, queued := file.Write(op);
  }

  /** Create a file for the current point and write to it up to the next file's min. */
  method CreateFile(bound: int, ghost fs: Files, op: WriteOperation, maxBytes: nat)
    returns (ending: Outcome<()>, file: SparseFile)
    requires bound == NewBound(fs) && maxBytes >= DATAPOINT_SIZE
    requires op.Valid() && op.cursor < |op.buffer.contents|
    requires var p := op.buffer.contents[op.cursor];
      !Skips(fs, p, maxBytes / DATAPOINT_SIZE) && !Takes(fs, p, maxBytes / DATAPOINT_SIZE)
    modifies op, op.buffer`contents, op.buffer`sorted, op.buffer.Chunks()
    ensures fresh(file) && op.Valid() && op.buffer.contents == old(op.buffer.contents)
    ensures ending ==
      PassOutcome(fs, op.buffer.contents, old(op.cursor), maxBytes / DATAPOINT_SIZE, op.buffer.perAlloc)
    ensures ending.Returned? ==>
      Next(fs, op.buffer.contents, old(op.cursor), maxBytes / DATAPOINT_SIZE) == Move(file.State(), fs, op.cursor)
  {
    op.maxWritableTimestamp := bound;
    op.maxWritableDatapoints := maxBytes / DATAPOINT_SIZE;
    var p := op.buffer.ValueAt(op.cursor);
    file := new SparseFile(p.timestamp, p.timestamp);
    var written;
    ending, written := WriteNew(file, fs, op, maxBytes / DATAPOINT_SIZE);
    if ending.Returned? {
      op.cursor := op.cursor + written;
    }
  }

  /** A file created for the current point is left as one pass of the loop leaves it. */
  method WriteNew(file: SparseFile, ghost fs: Files, op: WriteOperation, ghost limit: Pos)
    returns (ending: Outcome<()>, written: nat)
    requires op.Valid() && op.cursor < |op.buffer.contents|
    requires var p := op.buffer.contents[op.cursor];
      && !Skips(fs, p, limit) && !Takes(fs, p, limit)
      && file.State() == FileState(p.timestamp, p.timestamp, [])
    requires op.maxWritableDatapoints == limit && op.maxWritableTimestamp == NewBound(fs)
    modifies file, op.buffer`contents, op.buffer`sorted, op.buffer.Chunks()
    ensures op.Valid() && op.buffer.contents == old(op.buffer.contents)
    ensures ending == PassOutcome(fs, op.buffer.contents, op.cursor, limit, op.buffer.perAlloc)
    ensures ending.Returned? ==> Next(fs, op.buffer.contents, op.cursor, limit) == Move(file.State(), fs, op.cursor + written)
  {
    NextNew(fs, op.buffer.contents, op.cursor, limit);
    var queued;
    ending, written, queued := file.Write(op);
    if ending.Returned? {
      GrownFromNothing(op.buffer.contents, op.cursor, NewBound(fs), written);
    }
  }

  ghost predicate Shows(files: seq<SparseFile>, views: FileList.Views, limit: nat)
    reads files
  {
    |files| == |views| && forall i :: 0 <= i < |files| ==> ViewOf(files[i].State(), limit) == views[i]
  }

  lemma {:induction false} ShowsFrom(files: seq<SparseFile>, states: Files, i: nat, limit: nat)
    requires Match(files, states) && i <= |files|
    ensures Shows(files[i..], ViewsOf(states, limit)[i..], limit)
  {
  }

  /** Pass over files that end before the cursor. */
  method SkipOldFiles(start: seq<SparseFile>, ghost views: FileList.Views, op: ReadOperation, limit: nat)
    returns (ahead: seq<SparseFile>, ghost rest: FileList.Views)
    requires Shows(start, views, limit) && op.Valid()
    ensures Shows(ahead, rest, limit) && |ahead| <= |start|
    ensures forall f :: f in ahead ==> f in start
    ensures ahead != [] ==> rest[0].max >= op.nextTime
    ensures FileList.ReadFiles(rest, op.nextTime, op.endTime, op.SpaceLeft())
      == FileList.ReadFiles(views, op.nextTime, op.endTime, op.SpaceLeft())
  {
    ahead, rest := start, views;
    while ahead != [] && ahead[0].maxTimestamp < op.nextTime
      invariant Shows(ahead, rest, limit) && |ahead| <= |start|
      invariant forall f :: f in ahead ==> f in start
      invariant FileList.ReadFiles(rest, op.nextTime, op.endTime, op.SpaceLeft())
        == FileList.ReadFiles(views, op.nextTime, op.endTime, op.SpaceLeft())
      decreases |ahead|
    {
      assert ahead[0].State().max == rest[0].max;
      ahead, rest := ahead[1..], rest[1..];
    }
    assert ahead != [] ==> ahead[0].State().max == rest[0].max;
  }

  /** The loop over the files from the located one on. */
  method Walk(start: seq<SparseFile>, ghost views: FileList.Views, op: ReadOperation, limit: nat)
    requires Shows(start, views, limit) && op.Valid()
    modifies op, op.buffer
    ensures op.Valid()
    ensures var out := FileList.ReadFiles(views, old(op.nextTime), op.endTime, old(op.SpaceLeft()));
      op.Emitted() == old(op.Emitted()) + out && op.nextTime == NextAfter(old(op.nextTime), out)
  {
    var ahead := start;
    ghost var rest := views;
    ghost var before, next0 := op.Emitted(), op.nextTime;
    ghost var all := FileList.ReadFiles(views, op.nextTime, op.endTime, op.SpaceLeft());
    ghost var out: Points := [];
    EmptyLeft(all);
    assert before + [] == before;
    while op.SpaceLeft() > 0 && !op.Complete()
      invariant op.Valid() && Shows(ahead, rest, limit)
      invariant op.Emitted() == before + out && op.nextTime == NextAfter(next0, out)
      invariant out + FileList.ReadFiles(rest, op.nextTime, op.endTime, op.SpaceLeft()) == all
      decreases |ahead|
    {
      ghost var at := op.nextTime;
      var done;
      ghost var behind, one;
      done, ahead, behind, one := WalkStep(ahead, rest, op, limit);
      if done {
        assert out + [] == out;
        return;
      }
      ReadMore(before, out, one, FileList.ReadFiles(behind, op.nextTime, op.endTime, op.SpaceLeft()), next0);
      out := out + one;
      rest := behind;
    }
    assert out + [] == out;
  }

  /** Read one file; the walk goes on behind it. */
  method ReadFile(file: SparseFile, ghost views: FileList.Views, op: ReadOperation, limit: nat) returns (ghost one: Points)
    requires op.Valid() && op.SpaceLeft() > 0 && !op.Complete()
    requires views != [] && ViewOf(file.State(), limit) == views[0]
    requires views[0].max >= op.nextTime && views[0].min < op.endTime
    modifies op, op.buffer
    ensures op.Valid()
    ensures op.Emitted() == old(op.Emitted()) + one && op.nextTime == NextAfter(old(op.nextTime), one)
    ensures FileList.ReadFiles(views, old(op.nextTime), op.endTime, old(op.SpaceLeft()))
      == one + FileList.ReadFiles(views[1..], op.nextTime, op.endTime, op.SpaceLeft())
  {
    one := ReadView(views[0].points, op.nextTime, op.endTime, op.SpaceLeft());
    FileList.ReadFilesStep(views, op.nextTime, op.endTime, op.SpaceLeft());
    ghost var before := op.Emitted();
    file.Read(op, limit);
    assert |op.Emitted()| == |before| + |one|;
  }

  /** One round of the loop: find the next file that may have data, and read it. */
  method WalkStep(start: seq<SparseFile>, ghost views: FileList.Views, op: ReadOperation, limit: nat)
    returns (done: bool, ahead: seq<SparseFile>, ghost behind: FileList.Views, ghost one: Points)
    requires Shows(start, views, limit) && op.Valid() && op.SpaceLeft() > 0 && !op.Complete()
    modifies op, op.buffer
    ensures op.Valid()
    ensures done ==> op.Emitted() == old(op.Emitted()) && op.nextTime == old(op.nextTime)
    ensures done ==> FileList.ReadFiles(views, old(op.nextTime), op.endTime, old(op.SpaceLeft())) == []
    ensures !done ==> |ahead| < |start| && Shows(ahead, behind, limit)
    ensures !done ==> op.Emitted() == old(op.Emitted()) + one && op.nextTime == NextAfter(old(op.nextTime), one)
    ensures !done ==>
      FileList.ReadFiles(views, old(op.nextTime), op.endTime, old(op.SpaceLeft()))
        == one + FileList.ReadFiles(behind, op.nextTime, op.endTime, op.SpaceLeft())
  {
    ghost var rest;
    ahead, rest := SkipOldFiles(start, views, op, limit);
    if ahead != [] {
      assert ahead[0].State().min == rest[0].min;
    }
    if ahead == [] || ahead[0].minTimestamp >= op.endTime {
      return true, ahead, rest, [];
    }
    one := ReadFile(ahead[0], rest, op, limit);
    done, ahead, behind := false, ahead[1..], rest[1..];
  }

  lemma {:induction false} ReadMore(before: Points, out: Points, one: Points, rest: Points, next: int)
    ensures (before + out) + one == before + (out + one)
    ensures out + (one + rest) == (out + one) + rest
    ensures NextAfter(NextAfter(next, out), one) == NextAfter(next, out + one)
  {
  }
}
