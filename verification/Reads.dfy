/**
 A read in progress, and what one source of points contributes to it.

 A read has a cursor in time (`next`), an end and a bounded buffer. A file emits points until the
 first one that starts before the previous one has ended; the write buffer skips such points and
 goes on.
 */
module Reads {
  import opened Datapoints

  /** The state of one read call, kept between chunks. */
  class ReadOperation {
    var nextTime: int
    const endTime: int
    const buffer: array<Datapoint>
    var cursor: nat

    constructor (start: int, end: int, buffer: array<Datapoint>)
      ensures Valid() && nextTime == start && endTime == end && this.buffer == buffer
      ensures Emitted() == []
    {
      this.nextTime, this.endTime, this.buffer, this.cursor := start, end, buffer, 0;
    }

    ghost predicate Valid()
      reads this
    {
      cursor <= buffer.Length
    }

    /** The points read since the buffer was last cleared. */
    ghost function Emitted(): Points
      requires Valid()
      reads this, buffer
    {
      buffer[..cursor]
    }

    function SpaceLeft(): nat
      requires Valid()
      reads this
    {
      buffer.Length - cursor
    }

    predicate Complete()
      reads this
    {
      nextTime >= endTime
    }

    method Append(p: Datapoint)
      requires Valid() && SpaceLeft() > 0
      modifies this, buffer
      ensures Valid() && Emitted() == old(Emitted()) + [p]
      ensures nextTime == EndOf(p) && SpaceLeft() == old(SpaceLeft()) - 1
    {
      buffer[cursor] := p;
      Advance();
    }

    method Advance()
      requires Valid() && SpaceLeft() > 0
      modifies this
      ensures Valid() && cursor == old(cursor) + 1 && nextTime == EndOf(buffer[old(cursor)])
    {
      nextTime := EndOf(buffer[cursor]);
      cursor := cursor + 1;
    }

    method ClearBuffer()
      modifies this
      ensures Valid() && Emitted() == [] && nextTime == old(nextTime)
    {
      cursor := 0;
    }
  }

  /** Emit from the front of `s` until a point starts too early or too late, or space runs out. */
  function TakeRun(s: Points, next: int, end: int, cap: nat): (out: Points)
    ensures |out| <= cap && |out| <= |s|
  {
    if s == [] || s[0].timestamp < next || s[0].timestamp >= end || cap == 0 then []
    else [s[0]] + TakeRun(s[1..], EndOf(s[0]), end, cap - 1)
  }

  /** What a file whose current points are `view` adds to a read. */
  function ReadView(view: Points, next: int, end: int, cap: nat): (out: Points)
    ensures |out| <= cap && |out| <= |view|
  {
    TakeRun(view[LowerBound(view, next)..], next, end, cap)
  }

  /** What a buffer adds to a read: every point that starts late enough when it is reached. */
  function TakeGreedy(s: Points, next: int, end: int, cap: nat): (out: Points)
    ensures |out| <= cap && |out| <= |s|
  {
    if s == [] || cap == 0 || next >= end then []
    else if next <= s[0].timestamp < end then [s[0]] + TakeGreedy(s[1..], EndOf(s[0]), end, cap - 1)
    else TakeGreedy(s[1..], next, end, cap)
  }

  // ---- Emitted points never overlap ----

  /** A legal continuation of a read from `next`: each point starts where the one before has ended. */
  ghost predicate Continues(out: Points, next: int, end: int) {
    out == [] || (next <= out[0].timestamp < end && Continues(out[1..], EndOf(out[0]), end))
  }

  ghost predicate Inside(s: Points, lo: int, hi: int) {
    forall i :: 0 <= i < |s| ==> lo <= s[i].timestamp < hi
  }

  /** The same in one breath: inside the window and free of overlaps. */
  lemma {:induction false} ContinuesMeans(out: Points, next: int, end: int)
    ensures Continues(out, next, end) <==> NonOverlapping(out) && Inside(out, next, end)
  {
    if out != [] {
      var rest := out[1..];
      ContinuesMeans(rest, EndOf(out[0]), end);
      assert forall i :: 1 <= i < |out| ==> out[i] == rest[i - 1];
    }
  }

  lemma {:induction false} ContinuesConcat(a: Points, b: Points, next: int, end: int)
    ensures Continues(a + b, next, end) <==> Continues(a, next, end) && Continues(b, NextAfter(next, a), end)
    ensures Continues(a, next, end) ==> NextAfter(next, a) >= next
  {
    if a == [] {
      assert a + b == b;
    } else {
      assert (a + b)[1..] == a[1..] + b;
      ContinuesConcat(a[1..], b, EndOf(a[0]), end);
      assert NextAfter(EndOf(a[0]), a[1..]) == NextAfter(next, a);
    }
  }

  lemma {:induction false} TakeRunContinues(s: Points, next: int, end: int, cap: nat)
    ensures Continues(TakeRun(s, next, end, cap), next, end)
  {
    if !(s == [] || s[0].timestamp < next || s[0].timestamp >= end || cap == 0) {
      TakeRunContinues(s[1..], EndOf(s[0]), end, cap - 1);
    }
  }

  lemma {:induction false} TakeGreedyContinues(s: Points, next: int, end: int, cap: nat)
    ensures Continues(TakeGreedy(s, next, end, cap), next, end)
  {
    if s == [] || cap == 0 || next >= end {
    } else if next <= s[0].timestamp < end {
      TakeGreedyContinues(s[1..], EndOf(s[0]), end, cap - 1);
    } else {
      TakeGreedyContinues(s[1..], next, end, cap);
    }
  }

  lemma {:induction false} ReadViewContinues(view: Points, next: int, end: int, cap: nat)
    ensures Continues(ReadView(view, next, end, cap), next, end)
  {
    TakeRunContinues(view[LowerBound(view, next)..], next, end, cap);
  }

  // ---- One file ----

  /** Over points that do not overlap inside the window, a run is the window itself. */
  lemma {:induction false} TakeRunIsWindow(s: Points, lo: int, next: int, end: int, cap: nat)
    requires StrictlyOrdered(s) && AllAtLeast(s, lo) && lo <= next
    requires Continues(Window(s, lo, end), next, end)
    ensures TakeRun(s, next, end, cap) == Take(Window(s, lo, end), cap)
  {
    if s == [] || cap == 0 {
    } else if s[0].timestamp >= end {
      WindowNone(s, lo, end);
    } else {
      var p, rest := s[0], s[1..];
      assert Window(s, lo, end) == [p] + Window(rest, lo, end);
      assert Window(s, lo, end)[1..] == Window(rest, lo, end);
      TakeRunIsWindow(rest, lo, EndOf(p), end, cap - 1);
    }
  }

  lemma {:induction false} WindowContinues(s: Points, lo: int, hi: int)
    requires NonOverlapping(Window(s, lo, hi))
    ensures Continues(Window(s, lo, hi), lo, hi)
  {
    var w := Window(s, lo, hi);
    WindowMember(s, lo, hi);
    assert forall i :: 0 <= i < |w| ==> w[i] in w;
    ContinuesMeans(w, lo, hi);
  }

  lemma {:induction false} WindowFromLowerBound(s: Points, lo: int, hi: int)
    ensures Window(s[LowerBound(s, lo)..], lo, hi) == Window(s, lo, hi)
  {
    var k := LowerBound(s, lo);
    assert s == s[..k] + s[k..];
    WindowConcat(s[..k], s[k..], lo, hi);
    WindowNone(s[..k], lo, hi);
  }

  /** A file read returns the first points of the window, when those in the window do not overlap. */
  lemma {:induction false} ReadViewIsWindow(view: Points, next: int, end: int, cap: nat)
    requires StrictlyOrdered(view) && NonOverlapping(Window(view, next, end))
    ensures ReadView(view, next, end, cap) == Take(Window(view, next, end), cap)
  {
    var s := view[LowerBound(view, next)..];
    WindowFromLowerBound(view, next, end);
    WindowContinues(view, next, end);
    forall i | 0 <= i < |s| ensures s[i].timestamp >= next {
      assert i > 0 ==> s[0].timestamp < s[i].timestamp;
    }
    TakeRunIsWindow(s, next, next, end, cap);
  }

  /** Exactly when the window's points do not overlap, an unbounded file read returns all of them. */
  lemma {:induction false} ReadViewComplete(view: Points, next: int, end: int)
    requires StrictlyOrdered(view)
    ensures ReadView(view, next, end, |view|) == Window(view, next, end)
      <==> NonOverlapping(Window(view, next, end))
  {
    ReadViewContinues(view, next, end, |view|);
    ContinuesMeans(ReadView(view, next, end, |view|), next, end);
    if NonOverlapping(Window(view, next, end)) {
      ReadViewIsWindow(view, next, end, |view|);
      WindowLength(view, next, end);
    }
  }

  lemma {:induction false} WindowLength(s: Points, lo: int, hi: int)
    ensures |Window(s, lo, hi)| <= |s|
  {
    if s != [] {
      WindowLength(s[1..], lo, hi);
    }
  }

  /** The read stops for good at an overlap: a later point that overlaps nothing is lost. */
  lemma {:induction false} OverlapLosesLaterPoints()
    ensures var view := [Datapoint(0, Num(1.0), 10), Datapoint(5, Num(2.0), 1), Datapoint(20, Num(3.0), 1)];
      ReadView(view, 0, 100, 3) == view[..1]
  {
    var view := [Datapoint(0, Num(1.0), 10), Datapoint(5, Num(2.0), 1), Datapoint(20, Num(3.0), 1)];
    assert view[LowerBound(view, 0)..] == view;
    assert TakeRun(view[1..], 10, 100, 2) == [];
  }

  // ---- The write buffer ----

  /** Points that start before the cursor add nothing. */
  lemma {:induction false} TakeGreedySkips(a: Points, b: Points, next: int, end: int, cap: nat)
    requires AllBelow(a, next)
    ensures TakeGreedy(a + b, next, end, cap) == TakeGreedy(b, next, end, cap)
  {
    if a == [] {
      assert a + b == b;
    } else {
      assert (a + b)[1..] == a[1..] + b;
      TakeGreedySkips(a[1..], b, next, end, cap);
    }
  }

  /** With at least as much room as it can use, a greedy read does not depend on the room. */
  lemma {:induction false} TakeGreedyRoom(s: Points, next: int, end: int, cap: nat, cap': nat)
    requires cap < cap' && |TakeGreedy(s, next, end, cap)| < cap
    ensures TakeGreedy(s, next, end, cap) == TakeGreedy(s, next, end, cap')
  {
    if s == [] || cap == 0 || next >= end {
    } else if next <= s[0].timestamp < end {
      TakeGreedyRoom(s[1..], EndOf(s[0]), end, cap - 1, cap' - 1);
    } else {
      TakeGreedyRoom(s[1..], next, end, cap, cap');
    }
  }

  /** A greedy read that fills up can be resumed from the start of the same ordered buffer. */
  lemma {:induction false} TakeGreedyResume(s: Points, next: int, end: int, cap: nat, total: nat)
    requires Ordered(s) && 1 <= cap <= total && |TakeGreedy(s, next, end, cap)| == cap
    ensures var a := TakeGreedy(s, next, end, cap);
      TakeGreedy(s, next, end, total) == a + TakeGreedy(s, NextAfter(next, a), end, total - cap)
  {
    var a := TakeGreedy(s, next, end, cap);
    var next' := NextAfter(next, a);
    var p, rest := s[0], s[1..];
    TakenIsLater(s, next, end, cap);
    TakeGreedySkips([p], rest, next', end, total - cap);
    assert s == [p] + rest;
    if next <= p.timestamp < end {
      var a' := TakeGreedy(rest, EndOf(p), end, cap - 1);
      assert a == [p] + a';
      if cap > 1 {
        TakeGreedyResume(rest, EndOf(p), end, cap - 1, total - 1);
        assert next' == NextAfter(EndOf(p), a');
        Assoc([p], a', TakeGreedy(rest, next', end, total - cap));
      } else {
        assert a == [p];
      }
    } else {
      TakeGreedyResume(rest, next, end, cap, total);
    }
  }

  /** The first point of an ordered buffer starts before the cursor that reading it leaves. */
  lemma {:induction false} TakenIsLater(s: Points, next: int, end: int, cap: nat)
    requires Ordered(s) && TakeGreedy(s, next, end, cap) != []
    ensures s != [] && s[0].timestamp < NextAfter(next, TakeGreedy(s, next, end, cap))
  {
    var a := TakeGreedy(s, next, end, cap);
    TakeGreedyMember(s, next, end, cap);
    assert a[|a| - 1] in s;
  }

  lemma {:induction false} TakeGreedyMember(s: Points, next: int, end: int, cap: nat)
    ensures forall p :: p in TakeGreedy(s, next, end, cap) ==> p in s
  {
    if s == [] || cap == 0 || next >= end {
    } else if next <= s[0].timestamp < end {
      TakeGreedyMember(s[1..], EndOf(s[0]), end, cap - 1);
    } else {
      TakeGreedyMember(s[1..], next, end, cap);
    }
  }

  /** Over points that do not overlap, the greedy read too is the window. */
  lemma {:induction false} TakeGreedyIsWindow(s: Points, lo: int, next: int, end: int, cap: nat)
    requires lo <= next
    requires Ordered(s) && Continues(Window(s, lo, end), next, end)
    ensures TakeGreedy(s, next, end, cap) == Take(Window(s, lo, end), cap)
  {
    if s == [] || cap == 0 {
    } else {
      var p, rest := s[0], s[1..];
      if lo <= p.timestamp < end {
        assert Window(s, lo, end) == [p] + Window(rest, lo, end);
        assert Window(s, lo, end)[1..] == Window(rest, lo, end);
        TakeGreedyIsWindow(rest, lo, EndOf(p), end, cap - 1);
      } else {
        assert Window(s, lo, end) == Window(rest, lo, end);
        TakeGreedyIsWindow(rest, lo, next, end, cap);
      }
    }
  }
}
