/**
 One series with its directory and write buffer, and the database's chunk loop over it.

 The methods are the source's; each is proved to come to what the outcomes of `History` say, and to do
 one step of `History.Do` when it returns.
 */
module SeriesStore {
  import opened Numbers
  import opened Datapoints
  import opened LogView
  import opened Reads
  import opened FileSearch
  import opened Outcomes
  import FileList
  import opened FileWrites
  import opened WriteOutcomes
  import opened SeriesReads
  import opened History
  import opened WriteBuffers
  import opened SparseFiles
  import opened Directories

  class Series {
    const key: string
    const dir: DatapointDirectory
    const buffer: WriteBuffer

    constructor (key: string, maxFileSize: nat, perAlloc: nat, sortWorks: Points -> bool)
      requires maxFileSize >= DATAPOINT_SIZE && perAlloc >= 1
      ensures Valid() && Abstract() == EMPTY
      ensures this.key == key && dir.maxFileSize == maxFileSize
      ensures buffer.perAlloc == perAlloc && buffer.sortWorks == sortWorks
      ensures fresh(dir) && fresh(buffer)
    {
      this.key := key;
      dir := new DatapointDirectory(maxFileSize);
      buffer := new WriteBuffer(perAlloc, sortWorks);
    }

    ghost predicate Valid()
      reads this, dir, dir.repr, buffer, buffer.Chunks()
    {
      && dir.Valid() && buffer.Valid() && dir.maxFileSize >= DATAPOINT_SIZE
      && (buffer.contents == [] ==> buffer.sorted)
    }

    /** The state the rest of the project reasons about. */
    ghost function Abstract(): State
      reads dir, buffer
    {
      State(dir.states, buffer.contents, buffer.sorted)
    }

    method Write(batch: Points)
      requires Valid()
      modifies buffer, buffer.Chunks()
      ensures Valid() && fresh(buffer.Chunks() - old(buffer.Chunks()))
      ensures Abstract() == Do(old(Abstract()), Append(batch), dir.Limit())
    {
      KeptNothing(buffer.contents, Kept(batch));
      buffer.Append(batch);
    }

    /** Disk first, then the points of the buffer that go on from there; a read with space left is over. */
    method Read(op: ReadOperation) returns (ending: Outcome<()>)
      requires Valid() && NonDecreasing(Mins(dir.states)) && op.Valid() && op.buffer !in buffer.Chunks()
      modifies op, op.buffer, buffer`contents, buffer`sorted, buffer.Chunks()
      ensures Valid() && op.Valid() && op.buffer !in buffer.Chunks()
      ensures var r := CallOutcome(old(Abstract()), old(op.nextTime), op.endTime, old(op.SpaceLeft()), dir.Limit(), buffer.sortWorks);
        && ending == r.Ending()
        && (r.Returned? ==>
            && Abstract() == Do(old(Abstract()), Sort, dir.Limit())
            && op.Emitted() == old(op.Emitted()) + r.value
            && op.nextTime == ResumeAt(old(op.nextTime), op.endTime, old(op.SpaceLeft()), r.value))
        && (r.Hangs? ==> Abstract() == old(Abstract()))
    {
      ghost var before, next0, space0 := op.Emitted(), op.nextTime, op.SpaceLeft();
      ghost var views, pts := ViewsOf(dir.states, dir.Limit()), Buffered(Abstract());
      var hung := dir.Read(op);
      if hung {
        return Hangs;
      }
      ghost var emitted, next1, space1 := op.Emitted(), op.nextTime, op.SpaceLeft();
      ending := ReadBuffer(op);
      if ending.Returned? {
        ReadJoins(views, pts, before, next0, op.endTime, space0, emitted, next1, space1, op.Emitted(), op.nextTime);
      }
    }

    /** The part of a read that comes from the write buffer. */
    method ReadBuffer(op: ReadOperation) returns (ending: Outcome<()>)
      requires Valid() && op.Valid() && op.buffer !in buffer.Chunks()
      modifies op, op.buffer, buffer`contents, buffer`sorted, buffer.Chunks()
      ensures Valid() && op.Valid()
      ensures ending == SortOutcome(old(Abstract()), buffer.sortWorks).Ending()
      ensures ending.Returned? ==>
        var out := TakeGreedy(Buffered(old(Abstract())), old(op.nextTime), op.endTime, old(op.SpaceLeft()));
        && Abstract() == Do(old(Abstract()), Sort, dir.Limit())
        && op.Emitted() == old(op.Emitted()) + out
        && op.nextTime == if |out| < old(op.SpaceLeft()) then op.endTime else NextAfter(old(op.nextTime), out)
    {
      SortKeepsEmpty(Abstract());
      ending := buffer.EnsureSorted();
      if ending.IsFailure() {
        return;
      }
      AppendBuffered(op);
    }

    method AppendBuffered(op: ReadOperation)
      requires Valid() && op.Valid() && op.buffer !in buffer.Chunks()
      modifies op, op.buffer
      ensures Valid() && op.Valid()
      ensures var out := TakeGreedy(buffer.contents, old(op.nextTime), op.endTime, old(op.SpaceLeft()));
        && op.Emitted() == old(op.Emitted()) + out
        && op.nextTime == if |out| < old(op.SpaceLeft()) then op.endTime else NextAfter(old(op.nextTime), out)
    {
      var pts := buffer.ReadAll();
      AppendFrom(pts, op);
      if op.SpaceLeft() > 0 {
        op.nextTime := op.endTime;
      }
    }

    /** Sort if need be, spread the buffer over the files and empty it. */
    method FlushBufferedDatapoints() returns (ending: Outcome<()>)
      requires Valid() && NonDecreasing(Mins(dir.states))
      modifies dir, dir.repr, buffer, buffer.Chunks()
      ensures Valid() && fresh(dir.repr - old(dir.repr))
      ensures var r := FlushOutcome(old(Abstract()), dir.Limit(), buffer.perAlloc, buffer.sortWorks);
        ending == r.Ending() && (r.Returned? ==> Abstract() == r.value)
      ensures ending == Hangs ==> Abstract() == Do(old(Abstract()), Sort, dir.Limit())
    {
      ghost var was := Abstract();
      SortKeepsEmpty(was);
      var empty := buffer.IsEmpty();
      if empty {
        return Returned(());
      }
      ending := buffer.EnsureSorted();
      if ending.IsFailure() {
        return;
      }
      assert Abstract() == State(was.files, Buffered(was), true);
      ending := WriteAndClear();
    }

    method WriteAndClear() returns (ending: Outcome<()>)
      requires Valid() && NonDecreasing(Mins(dir.states))
      requires buffer.sorted && buffer.contents != []
      modifies dir, dir.repr, buffer, buffer.Chunks()
      ensures Valid() && fresh(dir.repr - old(dir.repr))
      ensures var r := DirectoryWrite(old(dir.states), old(buffer.contents), dir.Limit(), buffer.perAlloc);
        ending == r.Ending() && (r.Returned? ==> Abstract() == State(r.value, [], true))
      ensures ending == Hangs ==> Abstract() == old(Abstract())
    {
      ending := WriteSorted();
      if ending.Returned? {
        buffer.Clear();
      }
    }

    /** Hand the sorted buffer to the directory. */
    method WriteSorted() returns (ending: Outcome<()>)
      requires Valid() && NonDecreasing(Mins(dir.states))
      requires buffer.sorted && buffer.contents != []
      modifies dir, dir.repr, buffer`contents, buffer`sorted, buffer.Chunks()
      ensures Valid() && fresh(dir.repr - old(dir.repr))
      ensures buffer.contents == old(buffer.contents) && buffer.sorted
      ensures var r := DirectoryWrite(old(dir.states), buffer.contents, dir.Limit(), buffer.perAlloc);
        ending == r.Ending() && (r.Returned? ==> dir.states == r.value)
      ensures ending == Hangs ==> dir.states == old(dir.states)
    {
      var op := new WriteOperation(buffer);
      ending := dir.Write(op);
    }
  }

  lemma {:induction false} SortKeepsEmpty(s: State)
    ensures Buffered(s) == [] ==> s.buf == []
  {
    StableSortSpec(s.buf);
  }

  /** What the files add and what the buffer adds are together what the series adds. */
  lemma {:induction false} ReadJoins(views: FileList.Views, pts: Points, before: Points, next: int, end: int, space: nat,
                                     emitted: Points, next1: int, space1: nat, emitted2: Points, next2: int)
    requires var disk := FileList.ReadDirectory(views, next, end, space);
      emitted == before + disk && next1 == NextAfter(next, disk) && space1 == space - |disk|
    requires var more := TakeGreedy(pts, next1, end, space1);
      emitted2 == emitted + more && next2 == if |more| < space1 then end else NextAfter(next1, more)
    ensures var out := SeriesRead(views, pts, next, end, space);
      emitted2 == before + out && next2 == ResumeAt(next, end, space, out)
  {
  }

  lemma {:induction false} KeptNothing(a: Points, b: Points)
    ensures a + b == [] ==> a == [] && InOrder(b)
  {
  }

  /** The loop over the write buffer: points outside what is left of the window are skipped. */
  method AppendFrom(points: Points, op: ReadOperation)
    requires op.Valid()
    modifies op, op.buffer
    ensures op.Valid()
    ensures var out := TakeGreedy(points, old(op.nextTime), op.endTime, old(op.SpaceLeft()));
      && op.Emitted() == old(op.Emitted()) + out && op.nextTime == NextAfter(old(op.nextTime), out)
      && op.SpaceLeft() == old(op.SpaceLeft()) - |out|
  {
    var it := points;
    ghost var before, next0, space0 := op.Emitted(), op.nextTime, op.SpaceLeft();
    ghost var all := TakeGreedy(points, op.nextTime, op.endTime, op.SpaceLeft());
    ghost var out: Points := [];
    EmptyLeft(all);
    assert before + [] == before;
    while it != []
      invariant op.Valid()
      invariant op.Emitted() == before + out && op.nextTime == NextAfter(next0, out)
      invariant op.SpaceLeft() == space0 - |out|
      invariant out + TakeGreedy(it, op.nextTime, op.endTime, op.SpaceLeft()) == all
      decreases |it|
    {
      if op.Complete() || op.SpaceLeft() == 0 {
        break;
      }
      var p := it[0];
      if p.timestamp >= op.nextTime && p.timestamp < op.endTime {
        op.Append(p);
        Shift(before, out, p, TakeGreedy(it[1..], op.nextTime, op.endTime, op.SpaceLeft()));
        out := out + [p];
      }
      it := it[1..];
    }
    assert TakeGreedy(it, op.nextTime, op.endTime, op.SpaceLeft()) == [];
    assert out + [] == out;
  }

  /** One round of the database's loop: fill the buffer, hand it on and clear it. */
  method ReadChunk(series: Series, op: ReadOperation) returns (ending: Outcome<()>, chunk: Points)
    requires series.Valid() && NonDecreasing(Mins(series.dir.states))
    requires op.Valid() && op.Emitted() == [] && op.buffer !in series.buffer.Chunks()
    modifies op, op.buffer, series.buffer`contents, series.buffer`sorted, series.buffer.Chunks()
    ensures series.Valid() && op.Valid() && op.Emitted() == [] && op.buffer !in series.buffer.Chunks()
    ensures var r := CallOutcome(old(series.Abstract()), old(op.nextTime), op.endTime, op.buffer.Length, series.dir.Limit(),
        series.buffer.sortWorks);
      && ending == r.Ending()
      && (r.Returned? ==>
          && chunk == r.value && op.nextTime == ResumeAt(old(op.nextTime), op.endTime, op.buffer.Length, chunk)
          && series.Abstract() == Do(old(series.Abstract()), Sort, series.dir.Limit()))
      && (r.Hangs? ==> series.Abstract() == old(series.Abstract()))
  {
    ghost var r := CallOutcome(series.Abstract(), op.nextTime, op.endTime, op.buffer.Length, series.dir.Limit(),
      series.buffer.sortWorks);
    assert op.SpaceLeft() == op.buffer.Length;
    ending := series.Read(op);
    chunk := op.buffer[..op.cursor];
    if r.Returned? {
      EmptyLeft(r.value);
      assert chunk == op.Emitted() == r.value;
    }
    op.ClearBuffer();
  }

  /** The read, one call and then the rest. */
  lemma {:induction false} ChunkedStep(s: State, next: int, end: int, cap: nat, limit: Pos, works: Points -> bool)
    requires next < end
    ensures var call, r := CallOutcome(s, next, end, cap, limit, works), ReadChunked(s, next, end, cap, limit, works);
      if call.IsFailure() then r == call.PropagateFailure()
      else if call.value == [] then r == Returned([])
      else
        && next < ResumeAt(next, end, cap, call.value)
        && var more := ReadChunked(Do(s, Sort, limit), ResumeAt(next, end, cap, call.value), end, cap, limit, works);
           r == if more.IsFailure() then more else Returned([call.value] + more.value)
  {
    MinsOfViews(s.files, limit);
    SortOnce(s, limit);
    ReadAdvances(ViewsOf(s.files, limit), Buffered(s), next, end, cap);
  }

  /** The chunks handed on so far, and what is still to come. */
  function Joined(chunks: seq<Points>, more: Outcome<seq<Points>>): Outcome<seq<Points>> {
    var rest :- more;
    Returned(chunks + rest)
  }

  lemma {:induction false} JoinedStep(chunks: seq<Points>, chunk: Points, more: Outcome<seq<Points>>)
    ensures Joined(chunks, if more.IsFailure() then more else Returned([chunk] + more.value)) == Joined(chunks + [chunk], more)
    ensures Joined(chunks, Returned([])) == Returned(chunks)
    ensures Joined([], more) == more
  {
    if more.Returned? {
      Assoc(chunks, [chunk], more.value);
      EmptyLeft(more.value);
    }
    assert chunks + [] == chunks;
  }

  /** Read a window chunk by chunk, handing each full or last buffer on. */
  method DatabaseRead(series: Series, start: int, end: int, bufferSize: nat) returns (ending: Outcome<()>, chunks: seq<Points>)
    requires series.Valid() && NonDecreasing(Mins(series.dir.states))
    modifies series.buffer`contents, series.buffer`sorted, series.buffer.Chunks()
    ensures series.Valid()
    ensures var r := ReadChunked(old(series.Abstract()), start, end, bufferSize, series.dir.Limit(), series.buffer.sortWorks);
      ending == r.Ending() && (r.Returned? ==> chunks == r.value)
    ensures ending.Returned? || ending.Hangs? ==>
      series.Abstract() == old(series.Abstract()) || series.Abstract() == Do(old(series.Abstract()), Sort, series.dir.Limit())
  {
    var buffer := new Datapoint[bufferSize];
    var op := new ReadOperation(start, end, buffer);
    ending, chunks := ReadChunks(series, op);
  }

  /** The loop. */
  method ReadChunks(series: Series, op: ReadOperation) returns (ending: Outcome<()>, chunks: seq<Points>)
    requires series.Valid() && NonDecreasing(Mins(series.dir.states))
    requires op.Valid() && op.Emitted() == [] && op.buffer !in series.buffer.Chunks()
    modifies op, op.buffer, series.buffer`contents, series.buffer`sorted, series.buffer.Chunks()
    ensures series.Valid()
    ensures var r := ReadChunked(old(series.Abstract()), old(op.nextTime), op.endTime, op.buffer.Length, series.dir.Limit(),
        series.buffer.sortWorks);
      ending == r.Ending() && (r.Returned? ==> chunks == r.value)
    ensures ending.Returned? || ending.Hangs? ==>
      series.Abstract() == old(series.Abstract()) || series.Abstract() == Do(old(series.Abstract()), Sort, series.dir.Limit())
  {
    chunks := [];
    ghost var end, size, limit, works := op.endTime, op.buffer.Length, series.dir.Limit(), series.buffer.sortWorks;
    ghost var s0 := series.Abstract();
    ghost var all := ReadChunked(s0, op.nextTime, end, size, limit, works);
    SortOnce(s0, limit);
    JoinedStep([], [], all);
    while !op.Complete()
      invariant series.Valid() && op.Valid() && op.Emitted() == [] && op.buffer !in series.buffer.Chunks()
      invariant series.Abstract() == s0 || series.Abstract() == Do(s0, Sort, limit)
      invariant Joined(chunks, ReadChunked(series.Abstract(), op.nextTime, end, size, limit, works)) == all
      decreases end - op.nextTime
    {
      ghost var s, next := series.Abstract(), op.nextTime;
      ChunkedStep(s, next, end, size, limit, works);
      var chunk;
      ending, chunk := ReadChunk(series, op);
      if ending.IsFailure() {
        return;
      }
      if chunk == [] {
        JoinedStep(chunks, chunk, all);
        return;
      }
      JoinedStep(chunks, chunk, ReadChunked(series.Abstract(), op.nextTime, end, size, limit, works));
      chunks := chunks + [chunk];
    }
    JoinedStep(chunks, [], all);
    ending := Returned(());
  }
}
