/**
 The search that finds the file to start from.

 The loop keeps `left`, `middle` and `right`, but computes `middle` without adding `left`. It is
 modelled line by line as a step function over those three numbers. The results say exactly when
 the loop ever exits, and that whenever it does exit it has found what its comment promises.
 */
module FileSearch {

  datatype SearchState = SearchState(left: nat, middle: nat, right: nat, exited: bool)

  ghost predicate NonDecreasing(mins: seq<int>) {
    forall i, j :: 0 <= i < j < |mins| ==> mins[i] <= mins[j]
  }

  ghost predicate Increasing(mins: seq<int>) {
    forall i, j :: 0 <= i < j < |mins| ==> mins[i] < mins[j]
  }

  function Start(mins: seq<int>): SearchState {
    SearchState(0, 0, |mins|, false)
  }

  /** One pass through the loop as written. */
  function Step(mins: seq<int>, ts: int, s: SearchState): (s': SearchState)
    requires s.right <= |mins|
    ensures s'.right <= |mins|
  {
    if s.exited || s.left >= s.right then s.(exited := true)
    else
      var middle := (s.right - s.left) / 2;
      if mins[middle] > ts then SearchState(s.left, middle, middle, false)
      else if mins[middle] < ts then SearchState(middle + 1, middle, s.right, false)
      else SearchState(s.left, middle, s.right, true)
  }

  function Iterate(mins: seq<int>, ts: int, s: SearchState, n: nat): (s': SearchState)
    requires s.right <= |mins|
    ensures s'.right <= |mins|
    decreases n
  {
    if n == 0 then s else Iterate(mins, ts, Step(mins, ts, s), n - 1)
  }

  /** After `n` passes the loop has been left, and the search returned file number `i`. */
  ghost predicate ExitsWith(mins: seq<int>, ts: int, n: nat, i: nat) {
    var s := Iterate(mins, ts, Start(mins), n); s.exited && s.middle == i
  }

  ghost predicate Exits(mins: seq<int>, ts: int) {
    exists n: nat, i: nat :: ExitsWith(mins, ts, n, i)
  }

  /**
   What the caller can check: halving the number of files, every probe is newer than `ts` until one
   is equal to it or at most two files are left.
   */
  predicate Halts(mins: seq<int>, ts: int, right: nat)
    requires right <= |mins|
  {
    right <= 2 || mins[right / 2] == ts || (mins[right / 2] > ts && Halts(mins, ts, right / 2))
  }

  /** The file a search that ends returns: the first probe equal to `ts`, or where the last one left it. */
  function Found(mins: seq<int>, ts: int, right: nat): (i: nat)
    requires right <= |mins|
    ensures i < |mins| || mins == []
  {
    if right <= 1 then 0
    else if mins[right / 2] > ts then Found(mins, ts, right / 2)
    else right / 2
  }

  /** How many leading files start at or before `ts`. */
  function CountAtMost(mins: seq<int>, ts: int): (k: nat)
    ensures k <= |mins|
    ensures forall j :: 0 <= j < k ==> mins[j] <= ts
    ensures k < |mins| ==> mins[k] > ts
  {
    if mins == [] || mins[0] > ts then 0 else 1 + CountAtMost(mins[1..], ts)
  }

  /** The last file with min <= ts, as the comment promises; the first file when there is none. */
  function Located(mins: seq<int>, ts: int): (i: nat)
    ensures i <= |mins| && (mins != [] ==> i < |mins|)
  {
    if CountAtMost(mins, ts) == 0 then 0 else CountAtMost(mins, ts) - 1
  }

  // ---- A loop that turned left too early never ends ----

  ghost predicate Stuck(mins: seq<int>, ts: int, s: SearchState) {
    && !s.exited && 3 <= s.right <= |mins|
    && s.left <= s.right / 2 + 1
    && mins[s.right / 2] < ts
  }

  lemma {:induction false} StuckForever(mins: seq<int>, ts: int, s: SearchState, n: nat)
    requires NonDecreasing(mins) && Stuck(mins, ts, s)
    ensures !Iterate(mins, ts, s, n).exited
    decreases n
  {
    if n > 0 {
      var middle := (s.right - s.left) / 2;
      assert mins[middle] <= mins[s.right / 2];
      StuckForever(mins, ts, Step(mins, ts, s), n - 1);
    }
  }

  lemma {:induction false} IterateAdd(mins: seq<int>, ts: int, s: SearchState, m: nat, n: nat)
    requires s.right <= |mins|
    ensures Iterate(mins, ts, s, m + n) == Iterate(mins, ts, Iterate(mins, ts, s, m), n)
    decreases m
  {
    if m > 0 {
      IterateAdd(mins, ts, Step(mins, ts, s), m - 1, n);
    }
  }

  lemma {:induction false} ExitedStays(mins: seq<int>, ts: int, s: SearchState, n: nat)
    requires s.right <= |mins| && s.exited
    ensures Iterate(mins, ts, s, n) == s
    decreases n
  {
    if n > 0 {
      ExitedStays(mins, ts, Step(mins, ts, s), n - 1);
    }
  }

  lemma {:induction false} ExitsOnce(mins: seq<int>, ts: int, s: SearchState, m: nat, n: nat)
    requires s.right <= |mins|
    requires Iterate(mins, ts, s, m).exited
    ensures Iterate(mins, ts, s, n).exited ==> Iterate(mins, ts, s, n) == Iterate(mins, ts, s, m)
  {
    if n <= m {
      IterateAdd(mins, ts, s, n, m - n);
      if Iterate(mins, ts, s, n).exited {
        ExitedStays(mins, ts, Iterate(mins, ts, s, n), m - n);
      }
    } else {
      IterateAdd(mins, ts, s, m, n - m);
      ExitedStays(mins, ts, Iterate(mins, ts, s, m), n - m);
    }
  }

  /** While only newer probes have been seen, `left` is still zero. */
  lemma {:induction false} FromTheLeft(mins: seq<int>, ts: int, s: SearchState)
    returns (n: nat)
    requires NonDecreasing(mins) && s.left == 0 && s.right <= |mins| && !s.exited
    requires s.middle == if s.right < |mins| then s.right else 0
    ensures Halts(mins, ts, s.right) ==>
      Iterate(mins, ts, s, n).exited && Iterate(mins, ts, s, n).middle == Found(mins, ts, s.right)
    ensures !Halts(mins, ts, s.right) ==> forall k: nat :: !Iterate(mins, ts, s, k).exited
    decreases s.right
  {
    var s1 := Step(mins, ts, s);
    if s.right == 0 {
      n := 1;
      assert Iterate(mins, ts, s, 1) == s1;
    } else if mins[s.right / 2] > ts {
      var n' := FromTheLeft(mins, ts, s1);
      n := n' + 1;
      if !Halts(mins, ts, s.right) {
        NeverIfLater(mins, ts, s);
      }
    } else {
      n := 2;
      assert Iterate(mins, ts, s, 2) == Iterate(mins, ts, s1, 1) == Step(mins, ts, s1);
      if mins[s.right / 2] < ts && s.right > 2 {
        forall k: nat ensures !Iterate(mins, ts, s1, k).exited {
          StuckForever(mins, ts, s1, k);
        }
        NeverIfLater(mins, ts, s);
      }
    }
  }

  lemma {:induction false} NeverIfLater(mins: seq<int>, ts: int, s: SearchState)
    requires s.right <= |mins| && !s.exited
    requires forall k: nat :: !Iterate(mins, ts, Step(mins, ts, s), k).exited
    ensures forall k: nat :: !Iterate(mins, ts, s, k).exited
  {
    forall k: nat ensures !Iterate(mins, ts, s, k).exited {
      if k > 0 {
        assert !Iterate(mins, ts, Step(mins, ts, s), k - 1).exited;
      }
    }
  }

  /**
   Over any ordered list, repeats included, the search returns if and only if `Halts`, and then it
   returns the file `Found`.
   */
  lemma {:induction false} SearchExact(mins: seq<int>, ts: int)
    requires NonDecreasing(mins)
    ensures Exits(mins, ts) <==> Halts(mins, ts, |mins|)
    ensures forall n: nat, i: nat :: ExitsWith(mins, ts, n, i) ==> i == Found(mins, ts, |mins|)
  {
    var m := FromTheLeft(mins, ts, Start(mins));
    if Halts(mins, ts, |mins|) {
      assert ExitsWith(mins, ts, m, Found(mins, ts, |mins|));
      forall n: nat, i: nat | ExitsWith(mins, ts, n, i) ensures i == Found(mins, ts, |mins|) {
        ExitsOnce(mins, ts, Start(mins), m, n);
      }
    }
  }

  // ---- What it returns ----

  lemma {:induction false} FoundPosition(mins: seq<int>, ts: int, right: nat)
    requires NonDecreasing(mins) && right <= |mins| && Halts(mins, ts, right)
    requires right < |mins| ==> mins[right] > ts
    ensures var i := Found(mins, ts, right);
      && (mins != [] && i > 0 ==> mins[i] <= ts)
      && (i + 1 < |mins| ==> mins[i + 1] >= ts)
      && (i + 1 < |mins| && mins[i + 1] == ts ==> mins[i] == ts)
    decreases right
  {
    if right > 1 && mins[right / 2] > ts {
      FoundPosition(mins, ts, right / 2);
    }
  }

  /** Whether or not the search ends, it is the first file or one that starts early enough. */
  lemma {:induction false} FoundStarts(mins: seq<int>, ts: int, right: nat)
    requires right <= |mins|
    ensures Found(mins, ts, right) == 0 || mins[Found(mins, ts, right)] <= ts
    decreases right
  {
    if right > 1 && mins[right / 2] > ts {
      FoundStarts(mins, ts, right / 2);
    }
  }

  /**
   It is the last file that starts at or before `ts`, as the comment promises, unless the file behind
   it starts at `ts` too: then it is some file that starts there, not the last.
   */
  lemma {:induction false} FoundExactly(mins: seq<int>, ts: int)
    requires NonDecreasing(mins) && mins != [] && Halts(mins, ts, |mins|)
    ensures var i := Found(mins, ts, |mins|);
      && (i == Located(mins, ts) <==> (i + 1 < |mins| ==> mins[i + 1] != ts))
      && (i != Located(mins, ts) ==> mins[i] == ts)
  {
    var i, k := Found(mins, ts, |mins|), CountAtMost(mins, ts);
    FoundPosition(mins, ts, |mins|);
    if i + 1 < |mins| && mins[i + 1] == ts {
      assert k > i + 1;
    } else if k == 0 {
      assert i == 0;
    } else {
      assert k == i + 1 || i == 0;
    }
  }

  lemma {:induction false} FoundIsLocated(mins: seq<int>, ts: int)
    requires Increasing(mins) && Halts(mins, ts, |mins|)
    ensures Found(mins, ts, |mins|) == Located(mins, ts)
  {
    if mins != [] {
      FoundExactly(mins, ts);
      var i := Found(mins, ts, |mins|);
      FoundPosition(mins, ts, |mins|);
      if i + 1 < |mins| {
        assert mins[i] < mins[i + 1];
      }
    }
  }

  /** Files that start at the same time: which of them is found depends on how many there are. */
  lemma {:induction false} EqualMinsFoundEarly()
    ensures Exits([5, 5, 5, 9], 5) && Found([5, 5, 5, 9], 5, 4) == 2 && Located([5, 5, 5, 9], 5) == 2
    ensures Exits([5, 5, 5], 5) && Found([5, 5, 5], 5, 3) == 1 && Located([5, 5, 5], 5) == 2
  {
    SearchExact([5, 5, 5, 9], 5);
    SearchExact([5, 5, 5], 5);
    assert CountAtMost([5, 5, 5], 5) == 3;
  }

  // ---- When it returns, without its loop ----

  /** The probes made while three files or more are in view. */
  predicate IsProbe(i: nat, n: nat) {
    n >= 3 && (i == n / 2 || IsProbe(i, n / 2))
  }

  /** The smallest of them: always the second or the third file. */
  function LastProbe(n: nat): (i: nat)
    requires n >= 3
    ensures 1 <= i <= 2 && i <= n / 2
  {
    if n / 2 <= 2 then n / 2 else LastProbe(n / 2)
  }

  lemma {:induction false} ProbeBound(i: nat, n: nat)
    requires IsProbe(i, n)
    ensures i <= n / 2
  {
    if i != n / 2 {
      ProbeBound(i, n / 2);
    }
  }

  lemma {:induction false} HaltsByProbes(mins: seq<int>, ts: int, right: nat)
    requires NonDecreasing(mins) && 3 <= right <= |mins|
    ensures Halts(mins, ts, right) <==>
      ts < mins[LastProbe(right)] || exists i: nat :: IsProbe(i, right) && i < |mins| && mins[i] == ts
    decreases right
  {
    var m := right / 2;
    assert IsProbe(m, right);
    if mins[m] > ts {
      if m >= 3 {
        HaltsByProbes(mins, ts, m);
        forall i: nat | IsProbe(i, right) && mins[m] != ts && i != m ensures IsProbe(i, m) {
        }
      }
    } else if mins[m] < ts {
      assert mins[LastProbe(right)] <= mins[m];
      forall i: nat | IsProbe(i, right) ensures i < |mins| && mins[i] < ts {
        ProbeBound(i, right);
        assert mins[i] <= mins[m];
      }
    }
  }

  /**
   The search returns if and only if there are at most two files, or the time is earlier than the
   last probe, the second or third file, or it is exactly where a probed file starts.
   */
  lemma {:induction false} HaltsExactly(mins: seq<int>, ts: int)
    requires NonDecreasing(mins)
    ensures Exits(mins, ts) <==>
      |mins| <= 2 || ts < mins[LastProbe(|mins|)]
      || exists i: nat :: IsProbe(i, |mins|) && i < |mins| && mins[i] == ts
  {
    SearchExact(mins, ts);
    if |mins| >= 3 {
      HaltsByProbes(mins, ts, |mins|);
    }
  }

  /** With three files or more, looking for a time newer than all of them never ends. */
  lemma {:induction false} NewestNeverFound(mins: seq<int>, ts: int)
    requires NonDecreasing(mins) && |mins| >= 3
    requires forall i :: 0 <= i < |mins| ==> mins[i] < ts
    ensures !Exits(mins, ts)
  {
    SearchExact(mins, ts);
  }

  /** The smallest failing case. */
  lemma {:induction false} ThreeFilesHang()
    ensures !Exits([0, 100, 200], 250)
  {
    SearchExact([0, 100, 200], 250);
  }

  // ---- The loop's invariant ----

  /** Between two passes: still at the left edge with only newer probes seen, or about to leave. */
  ghost predicate Searching(mins: seq<int>, ts: int, left: nat, middle: nat, right: nat) {
    && right <= |mins|
    && if left == 0 then
         && (Halts(mins, ts, |mins|) <==> Halts(mins, ts, right))
         && Found(mins, ts, |mins|) == Found(mins, ts, right)
         && middle == if right < |mins| then right else 0
       else left >= right && Halts(mins, ts, |mins|) && middle == Found(mins, ts, |mins|)
  }

  lemma {:induction false} GoRight(mins: seq<int>, ts: int, middle: nat, right: nat)
    requires Searching(mins, ts, 0, middle, right) && right > 0 && mins[right / 2] > ts
    ensures Searching(mins, ts, 0, right / 2, right / 2)
  {
  }

  lemma {:induction false} GoLeft(mins: seq<int>, ts: int, middle: nat, right: nat)
    requires Searching(mins, ts, 0, middle, right) && right > 0 && mins[right / 2] < ts
    ensures right >= 3 ==> !Halts(mins, ts, |mins|)
    ensures right < 3 ==> Searching(mins, ts, right / 2 + 1, right / 2, right)
  {
  }

  lemma {:induction false} Hit(mins: seq<int>, ts: int, middle: nat, right: nat)
    requires Searching(mins, ts, 0, middle, right) && right > 0 && mins[right / 2] == ts
    ensures Halts(mins, ts, |mins|) && Found(mins, ts, |mins|) == right / 2
  {
  }

  lemma {:induction false} Left(mins: seq<int>, ts: int, left: nat, middle: nat, right: nat)
    requires Searching(mins, ts, left, middle, right) && left >= right
    ensures Halts(mins, ts, |mins|) && Found(mins, ts, |mins|) == middle
  {
  }
}
