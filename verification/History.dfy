/**
 A series over its whole life: client writes, flushes and reads, and what a read then returns.

 `SpecifiesEveryRun` ties every reachable state to the history of accepted points, in the order
 they arrived. It is about steps that return; `RunOutcome` is the run as written, whose flushes may hang
 or corrupt memory, and whose sorts of an unsorted buffer are for the library to define. From both
 follow the promises of the storage engine, each with its exact condition: a read returns what the
 history says, and flushing the write buffer, before a read or in the middle of it, does not change what
 newer points look like.
 */
module History {
  import opened Numbers
  import opened Datapoints
  import opened LogView
  import opened FileWrites
  import opened FileOrder
  import opened FileSearch
  import opened Outcomes
  import opened WriteOutcomes
  import Reads
  import FileList
  import opened SeriesReads

  /** The files on disk, the write buffer in arrival or sorted order, and its sorted flag. */
  datatype State = State(files: Files, buf: Points, sorted: bool)

  /** A client write of one batch, the sort a read may cause, or a flush. */
  datatype Op = Append(batch: Points) | Sort | Flush

  /** The buffer as a flush or read uses it. */
  function Buffered(s: State): Points {
    if s.sorted then s.buf else StableSort(s.buf)
  }

  function Do(s: State, op: Op, limit: Pos): State {
    match op
    case Append(batch) => State(s.files, s.buf + Kept(batch), s.sorted && InOrder(Kept(batch)))
    case Sort => State(s.files, Buffered(s), true)
    case Flush => State(WriteDirectory(s.files, Buffered(s), limit), [], true)
  }

  /** The two places where the code relies on its callers. */
  ghost predicate Allowed(s: State, op: Op, limit: Pos) {
    match op
    case Append(batch) => JoinsUp(s, Kept(batch))
    case Sort => true
    case Flush => KeepsSeparate(s.files, Buffered(s), limit)
  }

  /** A batch in order must not start before the end of a buffer that is flagged as sorted. */
  predicate JoinsUp(s: State, kept: Points) {
    s.sorted && InOrder(kept) && s.buf != [] && kept != [] ==>
      s.buf[|s.buf| - 1].timestamp <= kept[0].timestamp
  }

  ghost predicate FlagHonest(s: State) {
    s.sorted ==> Ordered(s.buf)
  }

  /** The state after a history of accepted points. */
  ghost predicate Holds(s: State, history: Points, limit: nat) {
    && Separate(s.files, limit)
    && FlagHonest(s)
    && forall t: int :: AtTime(Concat(s.files) + s.buf, t) == AtTime(history, t)
  }

  // ---- The sorted flag ----

  /** An append leaves the flag honest if and only if the batch joins up with the buffer. */
  lemma {:induction false} AppendHonestExactly(s: State, batch: Points, limit: Pos)
    requires FlagHonest(s)
    ensures FlagHonest(Do(s, Append(batch), limit)) <==> JoinsUp(s, Kept(batch))
  {
    InOrderIsOrdered(Kept(batch));
    OrderedConcat(s.buf, Kept(batch));
  }

  /** Two batches that are fine by themselves, and a flag that is wrong. */
  lemma {:induction false} FlagCanLie()
    ensures var s := Do(Do(State([], [], true), Append([Datapoint(10, Num(1.0), 1)]), 1), Append([Datapoint(5, Num(2.0), 1)]), 1);
      s.sorted && !Ordered(s.buf)
  {
    var p, q := Datapoint(10, Num(1.0), 1), Datapoint(5, Num(2.0), 1);
    var s0 := State([], [], true);
    var s1 := Do(s0, Append([p]), 1);
    assert Kept([p]) == [p] && Kept([q]) == [q];
    assert s1.buf == [p];
    var s2 := Do(s1, Append([q]), 1);
    assert s2.buf[0] == p && s2.buf[1] == q;
  }

  // ---- Every step ----

  lemma {:induction false} BufferedSpec(s: State)
    ensures |Buffered(s)| == |s.buf| && (FlagHonest(s) ==> Ordered(Buffered(s)))
    ensures forall t: int :: AtTime(Buffered(s), t) == AtTime(s.buf, t)
  {
    StableSortSpec(s.buf);
  }

  /** An allowed step keeps the state in step with the history. */
  lemma {:induction false} StepHolds(s: State, op: Op, history: Points, limit: Pos)
    requires Holds(s, history, limit) && Allowed(s, op, limit)
    ensures Holds(Do(s, op, limit), if op.Append? then history + Kept(op.batch) else history, limit)
  {
    BufferedSpec(s);
    var disk := Concat(s.files);
    match op
    case Append(batch) =>
      AppendHonestExactly(s, batch, limit);
      forall t: int ensures AtTime(disk + (s.buf + Kept(batch)), t) == AtTime(history + Kept(batch), t) {
        Assoc(disk, s.buf, Kept(batch));
        AtTimeConcat(disk + s.buf, Kept(batch), t);
        AtTimeConcat(history, Kept(batch), t);
        assert AtTime(disk + s.buf, t) == AtTime(history, t);
      }
    case Sort =>
      forall t: int ensures AtTime(disk + Buffered(s), t) == AtTime(history, t) {
        SameAtTime(disk, s.buf, Buffered(s), t);
        assert AtTime(disk + s.buf, t) == AtTime(history, t);
      }
    case Flush =>
      WriteKeepsSeparateExactly(s.files, Buffered(s), limit);
      WriteIsAppend(s.files, Buffered(s), limit);
      var written := Concat(WriteDirectory(s.files, Buffered(s), limit));
      forall t: int ensures AtTime(written + [], t) == AtTime(history, t) {
        assert written + [] == written;
        SameAtTime(disk, s.buf, Buffered(s), t);
        assert AtTime(written, t) == AtTime(disk + Buffered(s), t);
        assert AtTime(disk + s.buf, t) == AtTime(history, t);
      }
  }

  lemma {:induction false} SameAtTime(disk: Points, a: Points, b: Points, t: int)
    requires AtTime(a, t) == AtTime(b, t)
    ensures AtTime(disk + a, t) == AtTime(disk + b, t)
  {
    AtTimeConcat(disk, a, t);
    AtTimeConcat(disk, b, t);
  }

  // ---- Every run ----

  function Run(s: State, ops: seq<Op>, limit: Pos): State
    decreases |ops|
  {
    if ops == [] then s else Do(Run(s, ops[..|ops| - 1], limit), ops[|ops| - 1], limit)
  }

  ghost predicate AllowedRun(s: State, ops: seq<Op>, limit: Pos)
    decreases |ops|
  {
    ops == [] ||
    (AllowedRun(s, ops[..|ops| - 1], limit) && Allowed(Run(s, ops[..|ops| - 1], limit), ops[|ops| - 1], limit))
  }

  /** The accepted points of a run, in arrival order. */
  function Accepted(ops: seq<Op>): Points
    decreases |ops|
  {
    if ops == [] then []
    else
      var op := ops[|ops| - 1];
      Accepted(ops[..|ops| - 1]) + if op.Append? then Kept(op.batch) else []
  }

  const EMPTY := State([], [], true)

  /** Every run from an empty series holds exactly the points it has accepted. */
  lemma {:induction false} SpecifiesEveryRun(ops: seq<Op>, limit: Pos)
    requires AllowedRun(EMPTY, ops, limit)
    ensures Holds(Run(EMPTY, ops, limit), Accepted(ops), limit)
    decreases |ops|
  {
    if ops != [] {
      var front, op := ops[..|ops| - 1], ops[|ops| - 1];
      SpecifiesEveryRun(front, limit);
      StepHolds(Run(EMPTY, front, limit), op, Accepted(front), limit);
      if !op.Append? {
        assert Accepted(ops) == Accepted(front);
      }
    }
  }

  // ---- Runs as written ----

  /**
   A buffer flagged as unsorted is handed to std::stable_sort, over iterators that are not what it asks
   for. `works` says which buffers the library puts in order all the same.
   */
  predicate SortsWell(s: State, works: Points -> bool) {
    s.sorted || works(s.buf)
  }

  /** The sort a read or flush begins with. */
  function SortOutcome(s: State, works: Points -> bool): Outcome<State> {
    if SortsWell(s, works) then Returned(State(s.files, Buffered(s), true)) else Undefined
  }

  /** A flush as written; an empty buffer is left alone. */
  function FlushOutcome(s: State, limit: Pos, n: Pos, works: Points -> bool): Outcome<State> {
    if s.buf == [] then Returned(State(s.files, [], true))
    else
      var t :- SortOutcome(s, works);
      var files :- DirectoryWrite(t.files, t.buf, limit, n);
      Returned(State(files, [], true))
  }

  function StepOutcome(s: State, op: Op, limit: Pos, n: Pos, works: Points -> bool): Outcome<State> {
    match op
    case Append(_) => Returned(Do(s, op, limit))
    case Sort => SortOutcome(s, works)
    case Flush => FlushOutcome(s, limit, n, works)
  }

  /** A run as written, for as long as its files are in the order of their mins when one is searched for. */
  function RunOutcome(s: State, ops: seq<Op>, limit: Pos, n: Pos, works: Points -> bool): Outcome<State>
    decreases |ops|
  {
    if ops == [] then Returned(s)
    else
      var r := RunOutcome(s, ops[..|ops| - 1], limit, n, works);
      if r.Returned? then StepOutcome(r.value, ops[|ops| - 1], limit, n, works) else r
  }

  predicate FlushReturns(s: State, limit: Pos, n: Pos, works: Points -> bool) {
    s.buf == [] || (SortsWell(s, works) && WriteReturns(s.files, Buffered(s), limit, n))
  }

  /** Every sort of the run is one the library can do, and every flush returns. */
  predicate RunReturns(s: State, ops: seq<Op>, limit: Pos, n: Pos, works: Points -> bool)
    decreases |ops|
  {
    ops == [] ||
    var t := Run(s, ops[..|ops| - 1], limit);
    && RunReturns(s, ops[..|ops| - 1], limit, n, works)
    && (match ops[|ops| - 1]
        case Append(_) => true
        case Sort => SortsWell(t, works)
        case Flush => FlushReturns(t, limit, n, works))
  }

  lemma {:induction false} FlushOutcomeExact(s: State, limit: Pos, n: Pos, works: Points -> bool)
    requires Separate(s.files, limit)
    ensures FlushOutcome(s, limit, n, works) == Returned(Do(s, Flush, limit)) <==> FlushReturns(s, limit, n, works)
    ensures FlushOutcome(s, limit, n, works).Returned? <==> FlushReturns(s, limit, n, works)
  {
    SeparateOrder(s.files, limit);
    if s.buf == [] {
      BufferedSpec(s);
    } else {
      DirectoryWriteExact(s.files, Buffered(s), limit, n);
    }
  }

  /** An allowed run comes to the state of `Run` if and only if all its sorts and flushes return. */
  lemma {:induction false} RunOutcomeExact(ops: seq<Op>, limit: Pos, n: Pos, works: Points -> bool)
    requires AllowedRun(EMPTY, ops, limit)
    ensures RunOutcome(EMPTY, ops, limit, n, works) == Returned(Run(EMPTY, ops, limit)) <==> RunReturns(EMPTY, ops, limit, n, works)
    ensures RunOutcome(EMPTY, ops, limit, n, works).Returned? <==> RunReturns(EMPTY, ops, limit, n, works)
    decreases |ops|
  {
    if ops != [] {
      var front := ops[..|ops| - 1];
      RunOutcomeExact(front, limit, n, works);
      SpecifiesEveryRun(front, limit);
      FlushOutcomeExact(Run(EMPTY, front, limit), limit, n, works);
    }
  }

  /** What an allowed run has come to if it has returned is in step with the accepted points. */
  lemma {:induction false} EveryRunAsWritten(ops: seq<Op>, limit: Pos, n: Pos, works: Points -> bool)
    requires AllowedRun(EMPTY, ops, limit)
    ensures (var r := RunOutcome(EMPTY, ops, limit, n, works); r.Returned? && Holds(r.value, Accepted(ops), limit))
      <==> RunReturns(EMPTY, ops, limit, n, works)
  {
    RunOutcomeExact(ops, limit, n, works);
    SpecifiesEveryRun(ops, limit);
  }

  // ---- Runs that are not allowed ----

  lemma {:induction false} SortedFlush(s: State, limit: Pos, n: Pos, works: Points -> bool)
    requires s.buf != [] && SortsWell(s, works)
    ensures var r := DirectoryWrite(s.files, Buffered(s), limit, n);
      FlushOutcome(s, limit, n, works) == if r.Returned? then Returned(State(r.value, [], true)) else r.PropagateFailure()
  {
  }

  lemma {:induction false} FlushConserves(s: State, limit: Pos, n: Pos, works: Points -> bool)
    requires s.buf != [] && FlushOutcome(s, limit, n, works).Returned?
    ensures var t := FlushOutcome(s, limit, n, works).value;
      && t.buf == [] && multiset(Concat(t.files)) == multiset(Concat(s.files)) + multiset(Buffered(s))
      && (StartAtFirst(s.files) ==> StartAtFirst(t.files))
  {
    SortedFlush(s, limit, n, works);
    var files := DirectoryWrite(s.files, Buffered(s), limit, n).value;
    ReturnedConserves(s.files, Buffered(s), limit, n);
    ReturnedDistributes(s.files, Buffered(s), limit, n);
    if StartAtFirst(s.files) {
      DistributesKeepsStart(s.files, files, Buffered(s), 0);
    }
  }

  lemma {:induction false} StepConserves(s: State, op: Op, limit: Pos, n: Pos, works: Points -> bool)
    requires StepOutcome(s, op, limit, n, works).Returned?
    ensures var t := StepOutcome(s, op, limit, n, works).value;
      && multiset(Concat(t.files)) + multiset(t.buf)
        == multiset(Concat(s.files)) + multiset(s.buf) + multiset(if op.Append? then Kept(op.batch) else [])
      && (StartAtFirst(s.files) ==> StartAtFirst(t.files))
  {
    StableSortSpec(s.buf);
    if op.Flush? && s.buf != [] {
      FlushConserves(s, limit, n, works);
    }
  }

  /**
   Whatever the batches, a run that has returned holds each accepted point exactly once, and each file
   starts at the first point written to it.
   */
  lemma {:induction false} EveryRunConserves(ops: seq<Op>, limit: Pos, n: Pos, works: Points -> bool)
    requires RunOutcome(EMPTY, ops, limit, n, works).Returned?
    ensures var s := RunOutcome(EMPTY, ops, limit, n, works).value;
      multiset(Concat(s.files)) + multiset(s.buf) == multiset(Accepted(ops)) && StartAtFirst(s.files)
    decreases |ops|
  {
    if ops != [] {
      var front, op := ops[..|ops| - 1], ops[|ops| - 1];
      EveryRunConserves(front, limit, n, works);
      StepConserves(RunOutcome(EMPTY, front, limit, n, works).value, op, limit, n, works);
      assert multiset(Accepted(ops)) == multiset(Accepted(front)) + multiset(if op.Append? then Kept(op.batch) else []);
    }
  }

  // ---- The third file ----

  /** No run ever has fewer files than before. */
  lemma {:induction false} FilesNeverFewer(s: State, ops: seq<Op>, limit: Pos, n: Pos, works: Points -> bool)
    requires RunOutcome(s, ops, limit, n, works).Returned?
    ensures |RunOutcome(s, ops, limit, n, works).value.files| >= |s.files|
    decreases |ops|
  {
    if ops != [] {
      var front := ops[..|ops| - 1];
      FilesNeverFewer(s, front, limit, n, works);
      var t := RunOutcome(s, front, limit, n, works).value;
      if ops[|ops| - 1].Flush? && t.buf != [] {
        ReturnedDistributes(t.files, Buffered(t), limit, n);
        NeverFewer(t.files, DirectoryWrite(t.files, Buffered(t), limit, n).value, Buffered(t), 0);
      }
    }
  }

  /**
   A flush of newer points returns if and only if the library can sort the buffer, there are at most two
   files, and the buffer fits in the last of them or `NewerGathers`. It hangs as soon as there are three.
   */
  lemma {:induction false} NewerFlushExact(s: State, limit: Pos, n: Pos, works: Points -> bool)
    requires LooselySeparate(s.files, limit) && InOrderAndNewer(s.files, Buffered(s)) && s.buf != []
    ensures FlushOutcome(s, limit, n, works) ==
      if !SortsWell(s, works) then Undefined
      else if |s.files| >= 3 then Hangs
      else if NewerGathers(s.files, |s.buf|, limit, n) then Returned(Do(s, Flush, limit))
      else Corrupts
  {
    assert |Buffered(s)| == |s.buf| by {
      BufferedSpec(s);
    }
    if SortsWell(s, works) {
      SortedFlush(s, limit, n, works);
      NewerReturns(s.files, Buffered(s), limit, n);
    }
  }

  /** Once there is a third file no flush of newer points ever returns again, on any run from there. */
  lemma {:induction false} ThirdFileIsFinal(s: State, ops: seq<Op>, limit: Pos, n: Pos, works: Points -> bool)
    requires |s.files| >= 3 && RunOutcome(s, ops, limit, n, works).Returned?
    requires var t := RunOutcome(s, ops, limit, n, works).value;
      LooselySeparate(t.files, limit) && InOrderAndNewer(t.files, Buffered(t)) && t.buf != []
    ensures var t := RunOutcome(s, ops, limit, n, works).value;
      FlushOutcome(t, limit, n, works) == if SortsWell(t, works) then Hangs else Undefined
  {
    FilesNeverFewer(s, ops, limit, n, works);
    NewerFlushExact(RunOutcome(s, ops, limit, n, works).value, limit, n, works);
  }

  // ---- What a read returns ----

  /** The buffers a read hands to the callback; its first call sorts the buffer, behind its search for a file. */
  function ReadChunked(s: State, start: int, end: int, cap: nat, limit: nat, works: Points -> bool): Outcome<seq<Points>> {
    if start < end && Halts(Mins(s.files), start, |s.files|) && !SortsWell(s, works) then Undefined
    else ChunkedRead(ViewsOf(s.files, limit), Buffered(s), start, end, cap)
  }

  /** What the database hands to the callback for a window, all chunks together. */
  function Read(s: State, start: int, end: int, cap: nat, limit: nat, works: Points -> bool): Outcome<Points> {
    var chunks :- ReadChunked(s, start, end, cap, limit, works);
    Returned(Flatten(chunks))
  }

  /** The library can sort the buffer, if it has to, and every search of the read ends. */
  predicate ReadEnds(s: State, start: int, end: int, cap: nat, limit: nat, works: Points -> bool) {
    && (start < end ==> SortsWell(s, works))
    && ReadReturns(ViewsOf(s.files, limit), Buffered(s), start, end, cap)
  }

  lemma {:induction false} ReadIs(s: State, start: int, end: int, cap: nat, limit: nat, works: Points -> bool)
    ensures Read(s, start, end, cap, limit, works).Returned? <==> ReadEnds(s, start, end, cap, limit, works)
    ensures ReadEnds(s, start, end, cap, limit, works) ==>
      Read(s, start, end, cap, limit, works) == Returned(Flatten(Chunks(ViewsOf(s.files, limit), Buffered(s), start, end, cap)))
  {
    MinsOfViews(s.files, limit);
    ChunkedReadReturns(ViewsOf(s.files, limit), Buffered(s), start, end, cap);
  }

  /** A run from an empty series and then a read. */
  function RunThenRead(ops: seq<Op>, start: int, end: int, cap: nat, limit: Pos, n: Pos, works: Points -> bool): Outcome<Points> {
    var s :- RunOutcome(EMPTY, ops, limit, n, works);
    Read(s, start, end, cap, limit, works)
  }

  lemma {:induction false} RunThenReadIs(ops: seq<Op>, start: int, end: int, cap: nat, limit: Pos, n: Pos, works: Points -> bool)
    ensures var r := RunOutcome(EMPTY, ops, limit, n, works);
      RunThenRead(ops, start, end, cap, limit, n, works) ==
        if r.Returned? then Read(r.value, start, end, cap, limit, works) else r.PropagateFailure()
  {
  }

  /** A flush and then a read. */
  function FlushThenRead(s: State, start: int, end: int, cap: nat, limit: Pos, n: Pos, works: Points -> bool): Outcome<Points> {
    var t :- FlushOutcome(s, limit, n, works);
    Read(t, start, end, cap, limit, works)
  }

  /** Newer points without repeats extend the view as they are. */
  lemma {:induction false} NewerExtendsView(s: State, limit: nat)
    requires Separate(s.files, limit) && AllNewer(s.files, Buffered(s))
    ensures View(Concat(s.files) + Buffered(s)) == View(Concat(s.files)) + Buffered(s)
  {
    ViewConcat(Concat(s.files), Buffered(s));
    ViewStrict(Buffered(s));
  }

  /** What files and buffer show. */
  function Shown(s: State): Points {
    View(Concat(s.files) + Buffered(s))
  }

  /** A read of disk and buffer gives what they show, if and only if it ends and nothing overlaps. */
  lemma {:induction false} ReadBeforeFlush(s: State, start: int, end: int, cap: nat, limit: Pos, works: Points -> bool)
    requires cap >= 1 && Separate(s.files, limit) && AllNewer(s.files, Buffered(s))
    ensures Read(s, start, end, cap, limit, works) == Returned(Window(Shown(s), start, end))
      <==> ReadEnds(s, start, end, cap, limit, works) && NonOverlapping(Window(Shown(s), start, end))
  {
    ReadIs(s, start, end, cap, limit, works);
    ChunksBeforeFlush(s, start, end, cap, limit);
  }

  lemma {:induction false} ChunksBeforeFlush(s: State, start: int, end: int, cap: nat, limit: Pos)
    requires cap >= 1 && Separate(s.files, limit) && AllNewer(s.files, Buffered(s))
    ensures Flatten(Chunks(ViewsOf(s.files, limit), Buffered(s), start, end, cap)) == Window(Shown(s), start, end)
      <==> NonOverlapping(Window(Shown(s), start, end))
  {
    var vs, buf := ViewsOf(s.files, limit), Buffered(s);
    ViewsShowLog(s.files, limit);
    NewerExtendsView(s, limit);
    ChunksContinue(vs, buf, start, end, cap);
    Reads.ContinuesMeans(Flatten(Chunks(vs, buf, start, end, cap)), start, end);
    if NonOverlapping(Window(FileList.AllPoints(vs) + buf, start, end)) {
      WholeIsWindow(vs, buf, start, end);
      ChunkedReadIsWhole(vs, buf, start, end, cap);
    }
  }

  /** Files and buffer show the current points of the history. */
  lemma {:induction false} ShowsHistory(s: State, history: Points, limit: nat)
    requires Holds(s, history, limit)
    ensures Shown(s) == View(history)
  {
    BufferedSpec(s);
    var disk := Concat(s.files);
    forall t: int ensures AtTime(disk + Buffered(s), t) == AtTime(history, t) {
      SameAtTime(disk, s.buf, Buffered(s), t);
      assert AtTime(disk + s.buf, t) == AtTime(history, t);
    }
    ViewUnique(disk + Buffered(s), history);
  }

  /**
   After any allowed run whose buffer is empty or newer than the files, for every window and every read
   buffer size: the read returns exactly the current points of all accepted writes, if and only if the
   run's sorts and flushes and the read's own sort and searches return, and the points do not overlap in
   the window.
   */
  lemma {:induction false} ReadIsHistory(ops: seq<Op>, start: int, end: int, cap: nat, limit: Pos, n: Pos, works: Points -> bool)
    requires cap >= 1 && AllowedRun(EMPTY, ops, limit)
    requires AllNewer(Run(EMPTY, ops, limit).files, Buffered(Run(EMPTY, ops, limit)))
    ensures RunThenRead(ops, start, end, cap, limit, n, works) == Returned(Window(View(Accepted(ops)), start, end))
      <==> (&& RunReturns(EMPTY, ops, limit, n, works)
            && ReadEnds(Run(EMPTY, ops, limit), start, end, cap, limit, works)
            && NonOverlapping(Window(View(Accepted(ops)), start, end)))
  {
    var s, w := Run(EMPTY, ops, limit), Window(View(Accepted(ops)), start, end);
    assert Read(s, start, end, cap, limit, works) == Returned(w)
      <==> ReadEnds(s, start, end, cap, limit, works) && NonOverlapping(w) by {
      SpecifiesEveryRun(ops, limit);
      ShowsHistory(s, Accepted(ops), limit);
      ReadBeforeFlush(s, start, end, cap, limit, works);
    }
    RunOutcomeExact(ops, limit, n, works);
    RunThenReadIs(ops, start, end, cap, limit, n, works);
  }

  // ---- Flush transparency ----

  /** A flush of newer points changes nothing of what is shown, and leaves files that are apart. */
  lemma {:induction false} FlushShows(s: State, limit: Pos)
    requires Separate(s.files, limit) && AllNewer(s.files, Buffered(s))
    ensures var t := Do(s, Flush, limit);
      Separate(t.files, limit) && AllNewer(t.files, Buffered(t)) && Shown(t) == Shown(s)
  {
    var t := Do(s, Flush, limit);
    NewerWriteKeeps(s.files, Buffered(s), limit);
    WriteIsAppend(s.files, Buffered(s), limit);
    BufferedSpec(t);
    assert Concat(t.files) + [] == Concat(t.files);
  }

  /** The flush and the read after it give what was shown before, if and only if both return and nothing overlaps. */
  lemma {:induction false} ReadAfterFlush(s: State, start: int, end: int, cap: nat, limit: Pos, n: Pos, works: Points -> bool)
    requires cap >= 1 && Separate(s.files, limit) && AllNewer(s.files, Buffered(s))
    ensures FlushThenRead(s, start, end, cap, limit, n, works) == Returned(Window(Shown(s), start, end))
      <==> (&& FlushReturns(s, limit, n, works)
            && ReadEnds(Do(s, Flush, limit), start, end, cap, limit, works)
            && NonOverlapping(Window(Shown(s), start, end)))
  {
    FlushOutcomeExact(s, limit, n, works);
    FlushShows(s, limit);
    ReadBeforeFlush(Do(s, Flush, limit), start, end, cap, limit, works);
  }

  /**
   Flushing a buffer newer than all stored points changes no read of points that do not overlap, and
   no read buffer size does, if and only if the flush returns and the read after it does. Both reads
   are the window of files and buffer.
   */
  lemma {:induction false} FlushTransparent(s: State, start: int, end: int, cap: nat, cap': nat, limit: Pos, n: Pos,
                                            works: Points -> bool)
    requires cap >= 1 && cap' >= 1
    requires Separate(s.files, limit) && AllNewer(s.files, Buffered(s))
    requires NonOverlapping(Window(Shown(s), start, end)) && ReadEnds(s, start, end, cap, limit, works)
    ensures Read(s, start, end, cap, limit, works) == Returned(Window(Shown(s), start, end))
    ensures Read(s, start, end, cap, limit, works) == FlushThenRead(s, start, end, cap', limit, n, works)
      <==> FlushReturns(s, limit, n, works) && ReadEnds(Do(s, Flush, limit), start, end, cap', limit, works)
  {
    ReadBeforeFlush(s, start, end, cap, limit, works);
    ReadAfterFlush(s, start, end, cap', limit, n, works);
  }

  /** What holds of a series with few files and one allocation: nothing it does can hang or corrupt. */
  ghost predicate Small(s: State, limit: Pos, n: nat) {
    |s.files| <= 2 && |WriteDirectory(s.files, Buffered(s), limit)| <= 2 && |Buffered(s)| <= n
  }

  lemma {:induction false} SmallFlushReturns(s: State, limit: Pos, n: Pos, works: Points -> bool)
    requires Separate(s.files, limit) && AllNewer(s.files, Buffered(s))
    requires Small(s, limit, n) && SortsWell(s, works)
    ensures FlushReturns(s, limit, n, works)
  {
    if Buffered(s) != [] {
      SeparateIsLoose(s.files, limit);
      NewerSearch(s.files, Buffered(s), limit);
      SmallBufferGathers(s.files[Found(Mins(s.files), Buffered(s)[0].timestamp, |s.files|)..], Buffered(s), 0, limit, n);
    }
  }

  /** With at most two files, a buffer that fits one allocation and a sort that works, it always is. */
  lemma {:induction false} FewFilesTransparent(s: State, start: int, end: int, cap: nat, cap': nat, limit: Pos, n: Pos,
                                               works: Points -> bool)
    requires cap >= 1 && cap' >= 1
    requires Separate(s.files, limit) && AllNewer(s.files, Buffered(s))
    requires NonOverlapping(Window(Shown(s), start, end))
    requires Small(s, limit, n) && SortsWell(s, works)
    ensures Read(s, start, end, cap, limit, works) == FlushThenRead(s, start, end, cap', limit, n, works)
      == Returned(Window(Shown(s), start, end))
  {
    var t := Do(s, Flush, limit);
    assert ReadEnds(s, start, end, cap, limit, works) by {
      FewFilesReturn(ViewsOf(s.files, limit), Buffered(s), start, end, cap);
    }
    assert FlushReturns(s, limit, n, works) && ReadEnds(t, start, end, cap', limit, works) by {
      SmallFlushReturns(s, limit, n, works);
      FewFilesReturn(ViewsOf(t.files, limit), Buffered(t), start, end, cap');
    }
    FlushTransparent(s, start, end, cap, cap', limit, n, works);
  }

  // ---- Flushes between the chunks of a read ----

  /** One call of a read: search and files first, then the sort, then the buffer. */
  function CallOutcome(s: State, next: int, end: int, cap: nat, limit: nat, works: Points -> bool): Outcome<Points> {
    if !Halts(Mins(s.files), next, |s.files|) then Hangs
    else if !SortsWell(s, works) then Undefined
    else Returned(SeriesRead(ViewsOf(s.files, limit), Buffered(s), next, end, cap))
  }

  function MaybeFlush(s: State, flushes: seq<bool>, limit: Pos, n: Pos, works: Points -> bool): Outcome<State> {
    if flushes != [] && flushes[0] then FlushOutcome(s, limit, n, works) else Returned(s)
  }

  function Rest(flushes: seq<bool>): seq<bool> {
    if flushes == [] then [] else flushes[1..]
  }

  /** One chunk, and the state it leaves. */
  datatype Chunk = Chunk(after: State, out: Points)

  function NextChunk(s: State, flushes: seq<bool>, next: int, end: int, cap: nat, limit: Pos, n: Pos,
                     works: Points -> bool): Outcome<Chunk>
  {
    var t :- MaybeFlush(s, flushes, limit, n, works);
    var out :- CallOutcome(t, next, end, cap, limit, works);
    Returned(Chunk(Do(t, Sort, limit), out))
  }

  lemma {:induction false} ChunkAdvances(s: State, flushes: seq<bool>, next: int, end: int, cap: nat, limit: Pos, n: Pos,
                                         works: Points -> bool)
    ensures var c := NextChunk(s, flushes, next, end, cap, limit, n, works);
      c.Returned? && c.value.out != [] ==> next < ResumeAt(next, end, cap, c.value.out)
  {
    var t := MaybeFlush(s, flushes, limit, n, works);
    if t.Returned? {
      ReadAdvances(ViewsOf(t.value.files, limit), Buffered(t.value), next, end, cap);
    }
  }

  /** A read whose chunks are tasks of their own: `flushes` says before which of them the buffer is flushed. */
  function FlushingRead(s: State, flushes: seq<bool>, next: int, end: int, cap: nat, limit: Pos, n: Pos,
                        works: Points -> bool): Outcome<Points>
    decreases end - next
  {
    if next >= end then Returned([])
    else
      var c :- NextChunk(s, flushes, next, end, cap, limit, n, works);
      if c.out == [] then Returned([])
      else
        ChunkAdvances(s, flushes, next, end, cap, limit, n, works);
        var more :- FlushingRead(c.after, Rest(flushes), ResumeAt(next, end, cap, c.out), end, cap, limit, n, works);
        Returned(c.out + more)
  }

  lemma {:induction false} SortOnce(s: State, limit: Pos)
    ensures Do(Do(s, Sort, limit), Sort, limit) == Do(s, Sort, limit)
    ensures Buffered(Do(s, Sort, limit)) == Buffered(s)
  {
  }

  /** Without flushes it is the read. */
  lemma {:induction false} PlainRead(s: State, next: int, end: int, cap: nat, limit: Pos, n: Pos, works: Points -> bool)
    ensures FlushingRead(s, [], next, end, cap, limit, n, works) == Read(s, next, end, cap, limit, works)
    decreases end - next
  {
    var views, pts := ViewsOf(s.files, limit), Buffered(s);
    MinsOfViews(s.files, limit);
    if next < end && CallOutcome(s, next, end, cap, limit, works).Returned? {
      var out := SeriesRead(views, pts, next, end, cap);
      if out != [] {
        ReadAdvances(views, pts, next, end, cap);
        SortOnce(s, limit);
        PlainRead(Do(s, Sort, limit), ResumeAt(next, end, cap, out), end, cap, limit, n, works);
        PlainChunk(views, pts, next, end, cap);
      }
    }
  }

  lemma {:induction false} PlainChunk(views: FileList.Views, pts: Points, next: int, end: int, cap: nat)
    requires next < end && Halts(FileList.Mins(views), next, |views|) && SeriesRead(views, pts, next, end, cap) != []
    ensures var out := SeriesRead(views, pts, next, end, cap);
      var more := ChunkedRead(views, pts, ResumeAt(next, end, cap, out), end, cap);
      var all := ChunkedRead(views, pts, next, end, cap);
      if more.IsFailure() then all == more else all.Returned? && Flatten(all.value) == out + Flatten(more.value)
  {
  }

  /** One chunk is the front of the window of what is shown, and leaves the rest of it. */
  lemma {:induction false} ChunkOfShown(s: State, next: int, end: int, cap: nat, limit: Pos)
    requires cap >= 1 && next < end && Separate(s.files, limit) && AllNewer(s.files, Buffered(s))
    requires NonOverlapping(Window(Shown(s), next, end))
    ensures var out := SeriesRead(ViewsOf(s.files, limit), Buffered(s), next, end, cap);
      if |out| < cap then out == Window(Shown(s), next, end)
      else
        && Window(Shown(s), next, end) == out + Window(Shown(s), NextAfter(next, out), end)
        && NonOverlapping(Window(Shown(s), NextAfter(next, out), end))
  {
    var vs, buf := ViewsOf(s.files, limit), Buffered(s);
    var out := SeriesRead(vs, buf, next, end, cap);
    ViewsShowLog(s.files, limit);
    NewerExtendsView(s, limit);
    WholeIsWindow(vs, buf, next, end);
    if |out| < cap {
      LastChunk(vs, buf, next, end, cap);
    } else {
      var next' := NextAfter(next, out);
      NextWindow(vs, buf, next, end, cap);
      ReadAdvances(vs, buf, next, end, cap);
      WindowOfWindow(Shown(s), next, next', end);
      WindowDisjoint(Window(Shown(s), next, end), next', end);
      WholeIsWindow(vs, buf, next', end);
    }
  }

  /** The state the next chunk is read from. */
  function MaybeFlushed(s: State, flushes: seq<bool>, limit: Pos): State {
    if flushes != [] && flushes[0] then Do(s, Flush, limit) else s
  }

  lemma {:induction false} NextChunkIs(s: State, flushes: seq<bool>, next: int, end: int, cap: nat, limit: Pos, n: Pos,
                                       works: Points -> bool)
    requires Separate(s.files, limit)
    requires NextChunk(s, flushes, next, end, cap, limit, n, works).Returned?
    ensures var t := Do(MaybeFlushed(s, flushes, limit), Sort, limit);
      NextChunk(s, flushes, next, end, cap, limit, n, works).value
        == Chunk(t, SeriesRead(ViewsOf(t.files, limit), Buffered(t), next, end, cap))
  {
    FlushOutcomeExact(s, limit, n, works);
    SortOnce(MaybeFlushed(s, flushes, limit), limit);
  }

  lemma {:induction false} FlushingStep(s: State, flushes: seq<bool>, next: int, end: int, cap: nat, limit: Pos, n: Pos,
                                        works: Points -> bool)
    requires next < end
    requires FlushingRead(s, flushes, next, end, cap, limit, n, works).Returned?
    ensures NextChunk(s, flushes, next, end, cap, limit, n, works).Returned?
    ensures var r, c := FlushingRead(s, flushes, next, end, cap, limit, n, works),
        NextChunk(s, flushes, next, end, cap, limit, n, works).value;
      if c.out == [] then r.value == []
      else
        var more := FlushingRead(c.after, Rest(flushes), ResumeAt(next, end, cap, c.out), end, cap, limit, n, works);
        more.Returned? && r.value == c.out + more.value
  {
  }

  /** Whenever newer points are flushed in between, a read that returns hands on the same points. */
  lemma {:induction false} FlushingReadShows(s: State, flushes: seq<bool>, next: int, end: int, cap: nat, limit: Pos, n: Pos,
                                             works: Points -> bool)
    requires cap >= 1 && Separate(s.files, limit) && AllNewer(s.files, Buffered(s))
    requires NonOverlapping(Window(Shown(s), next, end))
    requires FlushingRead(s, flushes, next, end, cap, limit, n, works).Returned?
    ensures FlushingRead(s, flushes, next, end, cap, limit, n, works).value == Window(Shown(s), next, end)
    decreases end - next
  {
    if next >= end {
      WindowNone(Shown(s), next, end);
    } else {
      var t := Do(MaybeFlushed(s, flushes, limit), Sort, limit);
      var out := SeriesRead(ViewsOf(t.files, limit), Buffered(t), next, end, cap);
      var next' := ResumeAt(next, end, cap, out);
      assert Separate(t.files, limit) && AllNewer(t.files, Buffered(t)) && Shown(t) == Shown(s) by {
        FlushShows(s, limit);
        SortOnce(MaybeFlushed(s, flushes, limit), limit);
      }
      FlushingStep(s, flushes, next, end, cap, limit, n, works);
      NextChunkIs(s, flushes, next, end, cap, limit, n, works);
      ChunkOfShown(t, next, end, cap, limit);
      if out != [] {
        ReadAdvances(ViewsOf(t.files, limit), Buffered(t), next, end, cap);
        if |out| < cap {
          WindowNone(Shown(t), end, end);
          assert out + [] == out;
        }
        FlushingReadShows(t, Rest(flushes), next', end, cap, limit, n, works);
      }
    }
  }

  lemma {:induction false} SmallChunkReturns(s: State, flushes: seq<bool>, next: int, end: int, cap: nat, limit: Pos, n: Pos,
                                             works: Points -> bool)
    requires Separate(s.files, limit) && AllNewer(s.files, Buffered(s))
    requires Small(s, limit, n) && SortsWell(s, works)
    ensures NextChunk(s, flushes, next, end, cap, limit, n, works).Returned?
    ensures Small(Do(MaybeFlushed(s, flushes, limit), Sort, limit), limit, n)
  {
    SmallFlushReturns(s, limit, n, works);
    FlushOutcomeExact(s, limit, n, works);
    SortOnce(MaybeFlushed(s, flushes, limit), limit);
    BufferedSpec(Do(s, Flush, limit));
  }

  /** A small series always returns, whenever it is flushed during the read. */
  lemma {:induction false} SmallFlushingRead(s: State, flushes: seq<bool>, next: int, end: int, cap: nat, limit: Pos, n: Pos,
                                             works: Points -> bool)
    requires Separate(s.files, limit) && AllNewer(s.files, Buffered(s))
    requires Small(s, limit, n) && SortsWell(s, works)
    ensures FlushingRead(s, flushes, next, end, cap, limit, n, works).Returned?
    decreases end - next
  {
    if next < end {
      SmallChunkReturns(s, flushes, next, end, cap, limit, n, works);
      NextChunkIs(s, flushes, next, end, cap, limit, n, works);
      FlushShows(s, limit);
      SortOnce(MaybeFlushed(s, flushes, limit), limit);
      ChunkAdvances(s, flushes, next, end, cap, limit, n, works);
      var c := NextChunk(s, flushes, next, end, cap, limit, n, works).value;
      if c.out != [] {
        SmallFlushingRead(c.after, Rest(flushes), ResumeAt(next, end, cap, c.out), end, cap, limit, n, works);
      }
    }
  }
}
