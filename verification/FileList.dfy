/**
 What a directory read returns.

 To a reader a file is its two timestamps and the points it currently holds. A read locates a
 first file and walks on from there; `Directory.dfy` proves its loop against `ReadFiles`.
 */
module FileList {
  import opened Datapoints
  import opened Reads
  import opened FileSearch
  import opened Outcomes

  datatype FileView = FileView(min: int, max: int, points: Points)

  type Views = seq<FileView>

  function Mins(fs: Views): seq<int> {
    seq(|fs|, i requires 0 <= i < |fs| => fs[i].min)
  }

  /** The points of all files, one file after the other. */
  function AllPoints(fs: Views): Points {
    if fs == [] then [] else fs[0].points + AllPoints(fs[1..])
  }

  ghost predicate ViewOk(f: FileView) {
    && f.points != [] && StrictlyOrdered(f.points)
    && forall i :: 0 <= i < |f.points| ==> f.min <= f.points[i].timestamp <= f.max
  }

  /** Each file holds its own stretch of time: at or after its min, before the next file's. */
  ghost predicate Partitioned(fs: Views) {
    fs == [] || (ViewOk(fs[0]) && (|fs| > 1 ==> AllBelow(fs[0].points, fs[1].min)) && Partitioned(fs[1..]))
  }

  lemma {:induction false} PartitionedOrder(fs: Views)
    requires Partitioned(fs)
    ensures Increasing(Mins(fs))
    ensures fs != [] ==> AllAtLeast(AllPoints(fs), fs[0].min)
  {
    if fs != [] {
      var rest := fs[1..];
      PartitionedOrder(rest);
      if rest != [] {
        assert fs[0].min <= fs[0].points[0].timestamp < rest[0].min;
        IncreasingCons(fs[0].min, Mins(rest));
      }
      assert Mins(fs) == [fs[0].min] + Mins(rest);
    }
  }

  lemma {:induction false} IncreasingCons(m: int, mins: seq<int>)
    requires Increasing(mins) && (mins != [] ==> m < mins[0])
    ensures Increasing([m] + mins)
  {
    forall j | 0 <= j < |mins| ensures m < mins[j] {
      assert j > 0 ==> mins[0] < mins[j];
    }
  }

  lemma {:induction false} PartitionedFrom(fs: Views, i: nat)
    requires i <= |fs| && Partitioned(fs)
    ensures Partitioned(fs[i..])
  {
    if i > 0 {
      PartitionedFrom(fs[1..], i - 1);
      assert fs[1..][i - 1..] == fs[i..];
    }
  }

  // ---- Reading ----

  /** The walk over the files, from the first one given. */
  function ReadFiles(fs: Views, next: int, end: int, cap: nat): (out: Points)
    ensures |out| <= cap
  {
    if cap == 0 || next >= end || fs == [] then []
    else if fs[0].max < next then ReadFiles(fs[1..], next, end, cap)
    else if fs[0].min >= end then []
    else
      var out := ReadView(fs[0].points, next, end, cap);
      out + ReadFiles(fs[1..], NextAfter(next, out), end, cap - |out|)
  }

  lemma {:induction false} ReadFilesStep(fs: Views, next: int, end: int, cap: nat)
    requires fs != [] && cap > 0 && next < end && fs[0].max >= next && fs[0].min < end
    ensures var out := ReadView(fs[0].points, next, end, cap);
      ReadFiles(fs, next, end, cap) == out + ReadFiles(fs[1..], NextAfter(next, out), end, cap - |out|)
  {
  }

  /** A directory read whose search ends: walk from the file it returns. */
  function ReadDirectory(fs: Views, next: int, end: int, cap: nat): (out: Points)
    ensures |out| <= cap
  {
    ReadFiles(fs[Found(Mins(fs), next, |fs|)..], next, end, cap)
  }

  lemma {:induction false} ReadFilesContinues(fs: Views, next: int, end: int, cap: nat)
    ensures Continues(ReadFiles(fs, next, end, cap), next, end)
  {
    if cap == 0 || next >= end || fs == [] {
    } else if fs[0].max < next {
      ReadFilesContinues(fs[1..], next, end, cap);
    } else if fs[0].min >= end {
    } else {
      var out := ReadView(fs[0].points, next, end, cap);
      ReadViewContinues(fs[0].points, next, end, cap);
      ReadFilesContinues(fs[1..], NextAfter(next, out), end, cap - |out|);
      ContinuesConcat(out, ReadFiles(fs[1..], NextAfter(next, out), end, cap - |out|), next, end);
    }
  }

  /** Walking the files returns the first points of the window, when the window's do not overlap. */
  lemma {:induction false} ReadFilesIsWindow(fs: Views, lo: int, next: int, end: int, cap: nat)
    requires Partitioned(fs) && lo <= next
    requires Continues(Window(AllPoints(fs), lo, end), next, end)
    ensures ReadFiles(fs, next, end, cap) == Take(Window(AllPoints(fs), lo, end), cap)
    decreases |fs|
  {
    if cap == 0 || fs == [] {
    } else if next >= end {
    } else if fs[0].min >= end {
      PartitionedOrder(fs);
      WindowNone(AllPoints(fs), lo, end);
      assert fs[0].min <= fs[0].points[0].timestamp <= fs[0].max;
    } else if fs[0].max < next {
      OldHead(fs, lo, next, end);
      ReadFilesIsWindow(fs[1..], lo, next, end, cap);
    } else {
      var w0, w1 := Window(fs[0].points, lo, end), Window(AllPoints(fs[1..]), lo, end);
      HeadWindow(fs, lo, next, end);
      if |w0| < cap {
        ReadFilesIsWindow(fs[1..], lo, NextAfter(next, w0), end, cap - |w0|);
      }
      ReadOneFile(fs[0].points, lo, next, end, cap);
      ReadHead(fs, next, end, cap, w0, w1);
    }
  }

  /** A first file that ends before the cursor has nothing left in the window. */
  lemma {:induction false} OldHead(fs: Views, lo: int, next: int, end: int)
    requires fs != [] && ViewOk(fs[0]) && fs[0].max < next && lo <= next
    requires Continues(Window(AllPoints(fs), lo, end), next, end)
    ensures Window(AllPoints(fs), lo, end) == Window(AllPoints(fs[1..]), lo, end)
  {
    WindowConcat(fs[0].points, AllPoints(fs[1..]), lo, end);
    ContinuesConcat(Window(fs[0].points, lo, end), Window(AllPoints(fs[1..]), lo, end), next, end);
    WindowNarrow(fs[0].points, lo, next, end);
    WindowNone(fs[0].points, next, end);
  }

  lemma {:induction false} HeadWindow(fs: Views, lo: int, next: int, end: int)
    requires fs != [] && Continues(Window(AllPoints(fs), lo, end), next, end)
    ensures var w0, w1 := Window(fs[0].points, lo, end), Window(AllPoints(fs[1..]), lo, end);
      && Window(AllPoints(fs), lo, end) == w0 + w1
      && Continues(w0, next, end) && next <= NextAfter(next, w0) && Continues(w1, NextAfter(next, w0), end)
  {
    WindowConcat(fs[0].points, AllPoints(fs[1..]), lo, end);
    ContinuesConcat(Window(fs[0].points, lo, end), Window(AllPoints(fs[1..]), lo, end), next, end);
  }

  /** One file's contribution followed by the rest of the walk. */
  lemma {:induction false} ReadHead(fs: Views, next: int, end: int, cap: nat, w0: Points, w1: Points)
    requires fs != [] && next < end && cap > 0 && fs[0].min < end && next <= fs[0].max
    requires ReadView(fs[0].points, next, end, cap) == Take(w0, cap)
    requires |w0| < cap ==>
      ReadFiles(fs[1..], NextAfter(next, w0), end, cap - |w0|) == Take(w1, cap - |w0|)
    ensures ReadFiles(fs, next, end, cap) == Take(w0 + w1, cap)
  {
    if |w0| < cap {
      TakeOfBoth(w0, w1, cap);
    } else {
      TakeOfBoth(w0, w1, cap);
    }
  }

  lemma {:induction false} ReadOneFile(points: Points, lo: int, next: int, end: int, cap: nat)
    requires StrictlyOrdered(points) && lo <= next
    requires Continues(Window(points, lo, end), next, end)
    ensures ReadView(points, next, end, cap) == Take(Window(points, lo, end), cap)
  {
    WindowNarrow(points, lo, next, end);
    ContinuesMeans(Window(points, lo, end), next, end);
    ReadViewIsWindow(points, next, end, cap);
  }

  lemma {:induction false} TakeOfBoth(a: Points, b: Points, n: nat)
    ensures if |a| <= n then Take(a, n) == a && Take(a + b, n) == a + Take(b, n - |a|)
      else Take(a, n) == a[..n] && Take(a + b, n) == a[..n]
  {
  }

  /** A window all of whose points start at or after `next` may as well begin there. */
  lemma {:induction false} WindowNarrow(s: Points, lo: int, next: int, end: int)
    requires lo <= next && Continues(Window(s, lo, end), next, end)
    ensures Window(s, next, end) == Window(s, lo, end)
  {
    WindowOfWindow(s, lo, next, end);
    ContinuesMeans(Window(s, lo, end), next, end);
    WindowAll(Window(s, lo, end), next, end);
  }

  /** Files that end before the window begins can be left out. */
  lemma {:induction false} SkipOldFiles(fs: Views, i: nat, next: int, end: int)
    requires Partitioned(fs) && i <= |fs|
    requires i == 0 || (i < |fs| && fs[i].min <= next)
    ensures Window(AllPoints(fs), next, end) == Window(AllPoints(fs[i..]), next, end)
  {
    if i > 0 {
      var rest := fs[1..];
      assert rest[i - 1..] == fs[i..];
      SecondMin(fs, i);
      SkipFirst(fs, next, end);
      SkipOldFiles(rest, i - 1, next, end);
    } else {
      assert fs[0..] == fs;
    }
  }

  lemma {:induction false} SecondMin(fs: Views, i: nat)
    requires Partitioned(fs) && 0 < i < |fs|
    ensures fs[1].min <= fs[i].min && AllBelow(fs[0].points, fs[1].min)
  {
    PartitionedOrder(fs);
    assert Mins(fs)[1] <= Mins(fs)[i];
  }

  lemma {:induction false} SkipFirst(fs: Views, next: int, end: int)
    requires |fs| > 1 && AllBelow(fs[0].points, fs[1].min) && fs[1].min <= next
    ensures Window(AllPoints(fs), next, end) == Window(AllPoints(fs[1..]), next, end)
  {
    WindowConcat(fs[0].points, AllPoints(fs[1..]), next, end);
    WindowNone(fs[0].points, next, end);
    EmptyLeft(Window(AllPoints(fs[1..]), next, end));
  }

  /** A directory read returns the first points of the window, when those do not overlap. */
  lemma {:induction false} ReadDirectoryIsWindow(fs: Views, next: int, end: int, cap: nat)
    requires Partitioned(fs)
    requires NonOverlapping(Window(AllPoints(fs), next, end))
    ensures ReadDirectory(fs, next, end, cap) == Take(Window(AllPoints(fs), next, end), cap)
  {
    var i := Found(Mins(fs), next, |fs|);
    FoundStarts(Mins(fs), next, |fs|);
    SkipOldFiles(fs, i, next, end);
    PartitionedFrom(fs, i);
    WindowContinues(AllPoints(fs[i..]), next, end);
    ReadFilesIsWindow(fs[i..], next, next, end, cap);
  }

  /** A directory read as written. */
  function DirectoryRead(fs: Views, next: int, end: int, cap: nat): Outcome<Points> {
    if Halts(Mins(fs), next, |fs|) then Returned(ReadDirectory(fs, next, end, cap)) else Hangs
  }

  /** It returns the first points of a window without overlaps if and only if its search returns. */
  lemma {:induction false} DirectoryReadExact(fs: Views, next: int, end: int, cap: nat)
    requires Partitioned(fs)
    requires NonOverlapping(Window(AllPoints(fs), next, end))
    ensures DirectoryRead(fs, next, end, cap) == Returned(Take(Window(AllPoints(fs), next, end), cap))
      <==> Halts(Mins(fs), next, |fs|)
  {
    ReadDirectoryIsWindow(fs, next, end, cap);
  }
}
