/**
 What an append-only log of datapoints means.

 A sparse file is a log in write order, with repeats. The value a timestamp has now is the last
 one written with the duration that was written first. `CurrentMap` says so by folding the log;
 `View` computes it the way a read does, by a stable sort and a scan of each run of equal
 timestamps. `ViewIsFold` proves the two agree.
 */
module LogView {
  import opened Datapoints

  // ---- The stable sort (std::stable_sort) ----

  function Insert(s: Points, p: Datapoint): Points {
    if s == [] || s[|s| - 1].timestamp <= p.timestamp then s + [p]
    else Insert(s[..|s| - 1], p) + [s[|s| - 1]]
  }

  /** Insertion sort by timestamp; a later point goes behind the earlier ones it ties with. */
  function StableSort(s: Points): Points {
    if s == [] then [] else Insert(StableSort(s[..|s| - 1]), s[|s| - 1])
  }

  lemma {:induction false} InsertMultiset(s: Points, p: Datapoint)
    ensures multiset(Insert(s, p)) == multiset(s) + multiset{p}
  {
    if s != [] && s[|s| - 1].timestamp > p.timestamp {
      assert s == s[..|s| - 1] + [s[|s| - 1]];
      InsertMultiset(s[..|s| - 1], p);
    }
  }

  lemma {:induction false} InsertOrdered(s: Points, p: Datapoint)
    requires Ordered(s)
    ensures Ordered(Insert(s, p))
  {
    if s != [] && s[|s| - 1].timestamp > p.timestamp {
      var front, last := s[..|s| - 1], s[|s| - 1];
      InsertOrdered(front, p);
      InsertMultiset(front, p);
      var r := Insert(front, p);
      forall i | 0 <= i < |r| ensures r[i].timestamp <= last.timestamp {
        assert r[i] in multiset(r);
        assert r[i] in front || r[i] == p;
      }
    }
  }

  lemma {:induction false} InsertAtTime(s: Points, p: Datapoint, t: int)
    ensures AtTime(Insert(s, p), t) == AtTime(s, t) + AtTime([p], t)
  {
    if s == [] || s[|s| - 1].timestamp <= p.timestamp {
      AtTimeConcat(s, [p], t);
    } else {
      var front, last := s[..|s| - 1], s[|s| - 1];
      assert s == front + [last];
      InsertAtTime(front, p, t);
      AtTimeConcat(Insert(front, p), [last], t);
      AtTimeConcat(front, [last], t);
      assert AtTime([last], t) == [] || AtTime([p], t) == [];
    }
  }

  /** The sort orders its input, loses nothing and keeps ties in their original order. */
  lemma {:induction false} StableSortSpec(s: Points)
    ensures Ordered(StableSort(s))
    ensures multiset(StableSort(s)) == multiset(s)
    ensures |StableSort(s)| == |s|
    ensures forall t: int :: AtTime(StableSort(s), t) == AtTime(s, t)
  {
    if s != [] {
      var front, last := s[..|s| - 1], s[|s| - 1];
      assert s == front + [last];
      StableSortSpec(front);
      InsertOrdered(StableSort(front), last);
      InsertMultiset(StableSort(front), last);
      forall t: int ensures AtTime(StableSort(s), t) == AtTime(s, t) {
        InsertAtTime(StableSort(front), last, t);
        AtTimeConcat(front, [last], t);
      }
    }
    assert |StableSort(s)| == |multiset(StableSort(s))| == |multiset(s)| == |s|;
  }

  /** Sorting is determined by the order of the points at each timestamp. */
  lemma {:induction false} StableSortUnique(a: Points, b: Points)
    requires forall t: int :: AtTime(a, t) == AtTime(b, t)
    ensures StableSort(a) == StableSort(b)
  {
    StableSortSpec(a);
    StableSortSpec(b);
    forall t: int ensures AtTime(StableSort(a), t) == AtTime(StableSort(b), t) {
      assert AtTime(a, t) == AtTime(b, t);
    }
    OrderedUnique(StableSort(a), StableSort(b));
  }

  lemma {:induction false} StableSortOrdered(s: Points)
    requires Ordered(s)
    ensures StableSort(s) == s
  {
    StableSortSpec(s);
    OrderedUnique(StableSort(s), s);
  }

  // ---- One run of equal timestamps ----

  /** How many leading points share the first point's timestamp. */
  function RunLength(s: Points): (k: nat)
    requires s != []
    ensures 1 <= k <= |s|
    ensures forall j :: 0 <= j < k ==> s[j].timestamp == s[0].timestamp
    ensures k < |s| ==> s[k].timestamp != s[0].timestamp
  {
    if |s| == 1 || s[1].timestamp != s[0].timestamp then 1 else 1 + RunLength(s[1..])
  }

  /** The last point of a run that has the run's first duration, found by scanning backwards. */
  function Pick(run: Points): (p: Datapoint)
    requires run != []
    ensures p in run && p.duration == run[0].duration
  {
    var last := run[|run| - 1];
    if |run| == 1 || last.duration == run[0].duration then last else Pick(run[..|run| - 1])
  }

  /** One point for each run of an ordered sequence. */
  function Dedup(s: Points): Points {
    if s == [] then [] else [Pick(s[..RunLength(s)])] + Dedup(s[RunLength(s)..])
  }

  /** The points a log currently holds, in time order. */
  function View(log: Points): Points {
    Dedup(StableSort(log))
  }

  /** Everything after the first run of an ordered sequence is later. */
  lemma {:induction false} AfterFirstRun(s: Points)
    requires s != [] && Ordered(s)
    ensures forall j :: RunLength(s) <= j < |s| ==> s[j].timestamp > s[0].timestamp
  {
    var k := RunLength(s);
    forall j | k <= j < |s| ensures s[j].timestamp > s[0].timestamp {
      assert s[0].timestamp <= s[k].timestamp <= s[j].timestamp;
    }
  }

  /** The first run of an ordered sequence is everything at its timestamp. */
  lemma {:induction false} FirstRun(s: Points, t: int)
    requires s != [] && Ordered(s)
    ensures AtTime(s, t) == if t == s[0].timestamp then s[..RunLength(s)] else AtTime(s[RunLength(s)..], t)
    ensures t == s[0].timestamp ==> AtTime(s[RunLength(s)..], t) == []
  {
    var k := RunLength(s);
    assert s == s[..k] + s[k..];
    AtTimeConcat(s[..k], s[k..], t);
    if t == s[0].timestamp {
      AfterFirstRun(s);
      AtTimeAll(s[..k], t);
      AtTimeNone(s[k..], t);
    } else {
      AtTimeNone(s[..k], t);
    }
  }

  lemma {:induction false} DedupStrictlyOrdered(s: Points)
    requires Ordered(s)
    ensures StrictlyOrdered(Dedup(s))
    ensures forall p :: p in Dedup(s) ==> p in s
  {
    if s != [] {
      var k := RunLength(s);
      AfterFirstRun(s);
      DedupStrictlyOrdered(s[k..]);
      var p, rest := Pick(s[..k]), Dedup(s[k..]);
      assert p in s[..k];
      forall j | 0 <= j < |rest| ensures p.timestamp < rest[j].timestamp {
        assert rest[j] in s[k..];
      }
    }
  }

  /** Exactly one point per timestamp survives: the pick of that timestamp's run. */
  lemma {:induction false} DedupPicks(s: Points, t: int)
    requires Ordered(s)
    ensures AtTime(Dedup(s), t) == if AtTime(s, t) == [] then [] else [Pick(AtTime(s, t))]
  {
    if s != [] {
      var k := RunLength(s);
      FirstRun(s, t);
      DedupPicks(s[k..], t);
      var p := Pick(s[..k]);
      assert p in s[..k];
      assert Dedup(s)[1..] == Dedup(s[k..]);
    }
  }

  lemma {:induction false} DedupStep(a: Points, b: Points)
    requires a != [] && RunLength(a + b) == RunLength(a)
    ensures Dedup(a + b) == [Pick(a[..RunLength(a)])] + Dedup(a[RunLength(a)..] + b)
  {
    var k := RunLength(a);
    assert (a + b)[..k] == a[..k];
    assert (a + b)[k..] == a[k..] + b;
  }

  /** Runs never straddle a point in time, so deduplication splits there. */
  lemma {:induction false} DedupConcat(a: Points, b: Points)
    requires Before(a, b)
    ensures Dedup(a + b) == Dedup(a) + Dedup(b)
  {
    if a == [] {
      EmptyLeft(b);
      EmptyLeft(Dedup(b));
    } else {
      var rest := a[RunLength(a)..];
      RunLengthPrefix(a, b);
      DedupStep(a, b);
      BeforeSuffix(a, b, RunLength(a));
      DedupConcat(rest, b);
      Assoc([Pick(a[..RunLength(a)])], Dedup(rest), Dedup(b));
    }
  }

  lemma {:induction false} BeforeSuffix(a: Points, b: Points, k: nat)
    requires Before(a, b) && k <= |a|
    ensures Before(a[k..], b)
  {
  }

  lemma {:induction false} RunLengthPrefix(a: Points, b: Points)
    requires a != [] && Before(a, b)
    ensures RunLength(a + b) == RunLength(a)
  {
    if |a| == 1 {
    } else if a[1].timestamp == a[0].timestamp {
      assert (a + b)[1..] == a[1..] + b;
      RunLengthPrefix(a[1..], b);
    }
  }

  lemma {:induction false} DedupStrict(s: Points)
    requires StrictlyOrdered(s)
    ensures Dedup(s) == s
  {
    if s != [] {
      assert RunLength(s) == 1;
      assert s == [s[0]] + s[1..];
      DedupStrict(s[1..]);
    }
  }

  // ---- The meaning of a log ----

  /** The effect of writing one more point: the first write fixes a timestamp's duration. */
  function Apply(m: map<int, Datapoint>, p: Datapoint): map<int, Datapoint> {
    if p.timestamp !in m || m[p.timestamp].duration == p.duration then m[p.timestamp := p] else m
  }

  /** What each timestamp holds after the whole log has been written. */
  function CurrentMap(log: Points): map<int, Datapoint> {
    if log == [] then map[] else Apply(CurrentMap(log[..|log| - 1]), log[|log| - 1])
  }

  lemma {:induction false} CurrentMapPicks(log: Points, t: int)
    ensures t in CurrentMap(log) <==> AtTime(log, t) != []
    ensures t in CurrentMap(log) ==> CurrentMap(log)[t] == Pick(AtTime(log, t))
  {
    if log != [] {
      var front, p := log[..|log| - 1], log[|log| - 1];
      assert log == front + [p];
      CurrentMapPicks(front, t);
      CurrentMapPicks(front, p.timestamp);
      AtTimeConcat(front, [p], t);
      var run := AtTime(front, t);
      if p.timestamp == t {
        assert AtTime(log, t) == run + [p];
        assert (run + [p])[..|run|] == run;
      } else {
        assert AtTime(log, t) == run;
      }
    }
  }

  /** A view is the log's current map, listed in strictly increasing time order. */
  lemma {:induction false} ViewIsFold(log: Points)
    ensures StrictlyOrdered(View(log))
    ensures forall p :: p in View(log) <==> p.timestamp in CurrentMap(log) && CurrentMap(log)[p.timestamp] == p
  {
    StableSortSpec(log);
    DedupStrictlyOrdered(StableSort(log));
    forall p: Datapoint
      ensures p in View(log) <==> p.timestamp in CurrentMap(log) && CurrentMap(log)[p.timestamp] == p
    {
      var t := p.timestamp;
      CurrentMapPicks(log, t);
      AtTimeMember(View(log), t);
      DedupPicks(StableSort(log), t);
    }
  }

  /** Only the order of the writes at each timestamp matters. */
  lemma {:induction false} ViewUnique(a: Points, b: Points)
    requires forall t: int :: AtTime(a, t) == AtTime(b, t)
    ensures View(a) == View(b)
  {
    StableSortUnique(a, b);
  }

  lemma {:induction false} ViewMember(log: Points)
    ensures forall p :: p in View(log) ==> p in log
  {
    StableSortSpec(log);
    DedupStrictlyOrdered(StableSort(log));
    forall p | p in View(log) ensures p in log {
      assert p in StableSort(log);
      assert p in multiset(StableSort(log));
    }
  }

  /** Logs over successive stretches of time can be viewed one by one. */
  lemma {:induction false} ViewConcat(a: Points, b: Points)
    requires Before(a, b)
    ensures View(a + b) == View(a) + View(b)
  {
    StableSortSpec(a);
    StableSortSpec(b);
    StableSortSpec(a + b);
    var sa, sb := StableSort(a), StableSort(b);
    forall i, j | 0 <= i < |sa| && 0 <= j < |sb| ensures sa[i].timestamp < sb[j].timestamp {
      assert sa[i] in multiset(a) && sb[j] in multiset(b);
      assert sa[i] in a && sb[j] in b;
    }
    forall t: int ensures AtTime(StableSort(a + b), t) == AtTime(sa + sb, t) {
      AtTimeConcat(a, b, t);
      AtTimeConcat(sa, sb, t);
    }
    OrderedUnique(StableSort(a + b), sa + sb);
    DedupConcat(sa, sb);
  }

  /** A log written in strictly increasing time order is its own view. */
  lemma {:induction false} ViewStrict(log: Points)
    requires StrictlyOrdered(log)
    ensures View(log) == log
  {
    StableSortOrdered(log);
    DedupStrict(log);
  }

  /** The duration written first sticks: a repeat with another duration changes nothing. */
  lemma {:induction false} OtherDurationIgnored(log: Points, p: Datapoint)
    requires AtTime(log, p.timestamp) != [] && AtTime(log, p.timestamp)[0].duration != p.duration
    ensures View(log + [p]) == View(log)
  {
    var t := p.timestamp;
    CurrentMapPicks(log, t);
    assert (log + [p])[..|log|] == log;
    assert CurrentMap(log + [p]) == CurrentMap(log);
    ViewIsFold(log);
    ViewIsFold(log + [p]);
    StrictUnique(View(log + [p]), View(log));
  }

  lemma {:induction false} StrictUnique(a: Points, b: Points)
    requires StrictlyOrdered(a) && StrictlyOrdered(b)
    requires forall p :: p in a <==> p in b
    ensures a == b
  {
    forall t: int ensures AtTime(a, t) == AtTime(b, t) {
      AtTimeMember(a, t);
      AtTimeMember(b, t);
      AtMostOne(a, t);
      AtMostOne(b, t);
      var x, y := AtTime(a, t), AtTime(b, t);
      if x != [] {
        assert x[0] in y;
      }
      if y != [] {
        assert y[0] in x;
      }
    }
    OrderedUnique(a, b);
  }

  lemma {:induction false} AtMostOne(s: Points, t: int)
    requires StrictlyOrdered(s)
    ensures |AtTime(s, t)| <= 1
  {
    if s != [] {
      if s[0].timestamp == t {
        AtTimeNone(s[1..], t);
      } else {
        AtMostOne(s[1..], t);
      }
    }
  }
}
