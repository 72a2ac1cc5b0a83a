/**
 The in-memory write buffer: fixed-size allocations that together hold one sequence of points.

 Point number i lives in allocation i / n at offset i % n. Every method is proved against the plain
 sequence `contents`.

 The buffer is sorted by std::stable_sort over iterators whose prefix steps return the position before
 the step, which is not what the library asks of an iterator. Which buffers it sorts all the same depends
 on the library: that is the parameter `sortWorks`.
 */
module WriteBuffers {
  import opened Numbers
  import opened Datapoints
  import opened LogView
  import opened Outcomes
  import opened GatherSlots

  class WriteBuffer {
    ghost var contents: Points
    const perAlloc: nat
    const sortWorks: Points -> bool
    var allocs: seq<array<Datapoint>>
    var numDatapoints: nat
    var sorted: bool

    ghost function Chunks(): set<object>
      reads this
    {
      set a | a in allocs
    }

    ghost predicate Valid()
      reads this, Chunks()
    {
      && perAlloc >= 1
      && numDatapoints == |contents|
      && |allocs| == CeilDiv(numDatapoints, perAlloc)
      && (forall c :: 0 <= c < |allocs| ==> allocs[c].Length == perAlloc)
      && (forall c, d :: 0 <= c < d < |allocs| ==> allocs[c] != allocs[d])
      && (forall c, o :: 0 <= c < |allocs| && 0 <= o < perAlloc && c * perAlloc + o < numDatapoints ==>
          allocs[c][o] == contents[c * perAlloc + o])
    }

    constructor (perAlloc: nat, sortWorks: Points -> bool)
      requires perAlloc >= 1
      ensures Valid() && contents == [] && sorted && allocs == []
      ensures this.perAlloc == perAlloc && this.sortWorks == sortWorks
    {
      this.perAlloc, this.sortWorks := perAlloc, sortWorks;
      allocs, numDatapoints, sorted, contents := [], 0, true, [];
    }

    /** Indexing through the allocations is indexing the sequence. */
    method ValueAt(i: nat) returns (p: Datapoint)
      requires Valid() && i < numDatapoints
      ensures p == contents[i]
    {
      InSomePiece(i, numDatapoints, perAlloc);
      DivMod(i, perAlloc);
      p := allocs[i / perAlloc][i % perAlloc];
    }

    /** The slot for the next point, in a new allocation when the last one is full. */
    method GetNextDatapoint() returns (alloc: array<Datapoint>, offset: nat)
      requires Valid()
      modifies this`allocs
      ensures numDatapoints % perAlloc == offset < perAlloc && numDatapoints / perAlloc < |allocs|
      ensures alloc == allocs[numDatapoints / perAlloc]
      ensures |allocs| == CeilDiv(numDatapoints + 1, perAlloc)
      ensures old(allocs) <= allocs && fresh(Chunks() - old(Chunks()))
      ensures forall c :: 0 <= c < |allocs| ==> allocs[c].Length == perAlloc
      ensures forall c, d :: 0 <= c < d < |allocs| ==> allocs[c] != allocs[d]
      ensures forall c, o :: 0 <= c < |allocs| && 0 <= o < perAlloc && c * perAlloc + o < numDatapoints ==>
          allocs[c][o] == contents[c * perAlloc + o]
    {
      var allocIndex := numDatapoints / perAlloc;
      offset := numDatapoints % perAlloc;
      DivMod(numDatapoints, perAlloc);
      NextPiece(numDatapoints, perAlloc);
      if allocIndex == |allocs| {
        var ptr := new Datapoint[perAlloc];
        allocs := allocs + [ptr];
        forall c, o | 0 <= c < |allocs| && 0 <= o < perAlloc && c * perAlloc + o < numDatapoints
          ensures allocs[c][o] == contents[c * perAlloc + o]
        {
          DivModUnique(c, o, perAlloc);
          DivMonotone(c * perAlloc + o, numDatapoints, perAlloc);
          InSomePiece(c * perAlloc + o, numDatapoints, perAlloc);
        }
      }
      alloc := allocs[allocIndex];
    }

    /** Write one point to the next slot and count it. */
    method Store(p: Datapoint)
      requires Valid()
      modifies this`allocs, this`numDatapoints, this`contents, Chunks()
      ensures Valid() && contents == old(contents) + [p]
      ensures fresh(Chunks() - old(Chunks()))
    {
      var alloc, offset := GetNextDatapoint();
      alloc[offset] := p;
      ghost var k := numDatapoints;
      forall c, o | 0 <= c < |allocs| && 0 <= o < perAlloc && c * perAlloc + o < k + 1
        ensures allocs[c][o] == (contents + [p])[c * perAlloc + o]
      {
        DivModUnique(c, o, perAlloc);
        DivMod(k, perAlloc);
      }
      numDatapoints := numDatapoints + 1;
      contents := contents + [p];
    }

    /** Keep the points of a client write, and note whether they came in order. */
    method Append(batch: seq<Datapoint>)
      requires Valid()
      modifies this, Chunks()
      ensures Valid() && contents == old(contents) + Kept(batch)
      ensures sorted == (old(sorted) && InOrder(Kept(batch)))
      ensures fresh(Chunks() - old(Chunks()))
    {
      var previous: Points := [];
      assert contents == old(contents) + Kept(batch[..0]);
      for i := 0 to |batch|
        invariant Valid() && contents == old(contents) + Kept(batch[..i])
        invariant sorted == (old(sorted) && InOrder(Kept(batch[..i])))
        invariant previous == LastOf(Kept(batch[..i]))
        invariant fresh(Chunks() - old(Chunks()))
      {
        var p := batch[i];
        OneMore(old(contents), batch, i);
        if p.value.NaN? {
          continue;
        }
        Store(p);
        if sorted && previous != [] && p.timestamp < previous[0].timestamp {
          sorted := false;
        }
        previous := [p];
      }
      assert batch[..|batch|] == batch;
    }

    method IsEmpty() returns (empty: bool)
      requires Valid()
      ensures empty <==> contents == []
    {
      empty := numDatapoints == 0;
    }

    /** All points, read one by one through the allocations. */
    method ReadAll() returns (pts: Points)
      requires Valid()
      ensures pts == contents
    {
      pts := [];
      for i := 0 to numDatapoints
        invariant pts == contents[..i]
      {
        var p := ValueAt(i);
        pts := pts + [p];
      }
    }

    /** Assigning through the allocations assigns one element of the sequence. */
    method SetAt(i: nat, p: Datapoint)
      requires Valid() && i < numDatapoints
      modifies this`contents, Chunks()
      ensures Valid() && contents == old(contents)[i := p]
    {
      InSomePiece(i, numDatapoints, perAlloc);
      DivMod(i, perAlloc);
      var alloc := allocs[i / perAlloc];
      alloc[i % perAlloc] := p;
      contents := contents[i := p];
      forall c, o | 0 <= c < |allocs| && 0 <= o < perAlloc && c * perAlloc + o < numDatapoints
        ensures allocs[c][o] == contents[c * perAlloc + o]
      {
        DivModUnique(c, o, perAlloc);
      }
    }

    /** Stable sort in place, if the library sorts this buffer at all. */
    method Sort() returns (ending: Outcome<()>)
      requires Valid()
      modifies this`contents, this`sorted, Chunks()
      ensures Valid()
      ensures ending == if sortWorks(old(contents)) then Returned(()) else Undefined
      ensures ending.Returned? ==> contents == StableSort(old(contents)) && sorted
    {
      var pts := ReadAll();
      if !sortWorks(pts) {
        return Undefined;
      }
      StableSortSpec(pts);
      Assign(pts, StableSort(pts));
      sorted := true;
      ending := Returned(());
    }

    /** Put other points in the place of all points. */
    method Assign(ghost pts: Points, s: Points)
      requires Valid() && pts == contents && |s| == |pts|
      modifies this`contents, Chunks()
      ensures Valid() && contents == s
    {
      for i := 0 to numDatapoints
        invariant Valid() && contents == s[..i] + pts[i..]
      {
        SetAt(i, s[i]);
        SpliceStep(s, pts, i);
      }
      assert s[..numDatapoints] + pts[numDatapoints..] == s;
    }

    method EnsureSorted() returns (ending: Outcome<()>)
      requires Valid()
      modifies this`contents, this`sorted, Chunks()
      ensures Valid()
      ensures ending == if old(sorted) || sortWorks(old(contents)) then Returned(()) else Undefined
      ensures ending.Returned? ==> sorted && contents == if old(sorted) then old(contents) else StableSort(old(contents))
    {
      ending := Returned(());
      if !sorted {
        ending := Sort();
      }
    }

    method Clear()
      requires Valid()
      modifies this
      ensures Valid() && contents == [] && sorted && allocs == []
    {
      allocs, numDatapoints, sorted, contents := [], 0, true, [];
    }

    /** The points a list of pieces stands for. */
    ghost function Gathered(segs: seq<Segment>): Points
      requires Valid() && PiecesFit(segs)
      reads this, Chunks()
    {
      if segs == [] then []
      else Gathered(segs[..|segs| - 1]) + Piece(segs[|segs| - 1])
    }

    ghost function Piece(seg: Segment): Points
      requires Valid() && PiecesFit([seg])
      reads this, Chunks()
    {
      assert [seg][0] == seg;
      allocs[seg.alloc][seg.offset..seg.offset + seg.len]
    }

    ghost predicate PiecesFit(segs: seq<Segment>)
      reads this
    {
      forall j :: 0 <= j < |segs| ==> segs[j].alloc < |allocs| && segs[j].offset + segs[j].len <= perAlloc
    }

    /**
     The pieces hold exactly the points from `pos` on that both limits allow, in order, one piece per
     allocation touched, none across an allocation; the vector has each at its allocation's slot.
     */
    ghost predicate Gathers(segs: seq<Segment>, iov: IoVector, writable: nat, pos: nat, maxPoints: nat, maxTimestamp: int)
      requires Valid()
      reads this, Chunks()
    {
      && writable == WritableFrom(contents, pos, maxPoints, maxTimestamp)
      && pos + writable <= |contents|
      && segs == Pieces(pos, pos + writable, perAlloc)
      && PiecesFit(segs) && Gathered(segs) == contents[pos..pos + writable]
      && iov == Filled(segs, IovCount(pos, UpperBound(contents, 0, maxTimestamp), maxPoints, perAlloc))
    }

    lemma {:induction false} EmptyGather(pos: nat, maxPoints: nat, maxTimestamp: int)
      requires Valid() && UpperBound(contents, 0, maxTimestamp) <= pos <= |contents|
      ensures Gathers([], Empty(0), 0, pos, maxPoints, maxTimestamp)
    {
    }

    /**
     Split the points from `pos` on, up to both limits, into one piece per allocation touched, and
     store each at the slot numbered by its allocation.
     */
    method GetIOVector(pos: nat, maxPoints: nat, maxTimestamp: int)
      returns (ending: Outcome<()>, iov: IoVector, writable: nat, ghost segs: seq<Segment>)
      requires Valid() && pos <= numDatapoints
      modifies this`contents, this`sorted, Chunks()
      ensures Valid()
      ensures var pts := if old(sorted) then old(contents) else StableSort(old(contents));
        ending == if pts == [] || ((old(sorted) || sortWorks(old(contents))) && SplitsAt(pts, maxTimestamp))
                  then Returned(()) else Undefined
      ensures old(sorted) ==> sorted && contents == old(contents)
      ensures ending.Returned? ==>
        && contents == (if old(sorted) then old(contents) else StableSort(old(contents)))
        && Gathers(segs, iov, writable, pos, maxPoints, maxTimestamp)
    {
      ending, segs, iov, writable := Returned(()), [], Empty(0), 0;
      if numDatapoints == 0 {
        EmptyGather(pos, maxPoints, maxTimestamp);
        return;
      }
      StableSortSpec(contents);
      ending := EnsureSorted();
      if ending.IsFailure() {
        return;
      }
      ending, iov, writable, segs := GatherSorted(pos, maxPoints, maxTimestamp);
    }

    method GatherSorted(pos: nat, maxPoints: nat, maxTimestamp: int)
      returns (ending: Outcome<()>, iov: IoVector, writable: nat, ghost segs: seq<Segment>)
      requires Valid() && pos <= numDatapoints
      ensures ending == if SplitsAt(contents, maxTimestamp) then Returned(()) else Undefined
      ensures ending.Returned? ==> Gathers(segs, iov, writable, pos, maxPoints, maxTimestamp)
    {
      ending, iov, writable, segs := Returned(()), Empty(0), 0, [];
      var pts := ReadAll();
      if !SplitsAt(pts, maxTimestamp) {
        return Undefined, iov, writable, segs;
      }
      var endPos := UpperBound(pts, 0, maxTimestamp);
      if endPos <= pos {
        EmptyGather(pos, maxPoints, maxTimestamp);
        return;
      }
      iov, writable, segs := GatherUpTo(pos, endPos, maxPoints, maxTimestamp);
    }

    /** The vector for a stretch that is not empty. */
    method GatherUpTo(pos: nat, endPos: nat, maxPoints: nat, ghost maxTimestamp: int)
      returns (iov: IoVector, writable: nat, ghost segs: seq<Segment>)
      requires Valid() && pos < endPos == UpperBound(contents, 0, maxTimestamp)
      ensures Gathers(segs, iov, writable, pos, maxPoints, maxTimestamp)
    {
      var iovCount := CountSlots(pos, endPos, maxPoints, perAlloc);
      iov, segs, writable := CollectPieces(pos, endPos, maxPoints, perAlloc, iovCount);
      PiecesGather(pos, pos + writable);
    }

    /** How many slots to allocate; never more than there will be pieces. */
    static method CountSlots(pos: nat, endPos: nat, maxPoints: nat, perAlloc: Pos) returns (iovCount: nat)
      requires pos < endPos
      ensures iovCount == IovCount(pos, endPos, maxPoints, perAlloc)
      ensures iovCount <= Touched(pos, Share(pos, endPos, maxPoints), perAlloc)
    {
      var allocIndex := pos / perAlloc;
      var lastAllocIndex := (endPos - 1) / perAlloc;
      var maxIovecs := maxPoints / perAlloc;
      if maxPoints % perAlloc != 0 {
        maxIovecs := maxIovecs + 1;
      }
      DivMonotone(pos, endPos - 1, perAlloc);
      NeverTooMany(pos, endPos, maxPoints, perAlloc);
      iovCount := Min(maxIovecs, lastAllocIndex - allocIndex + 1);
    }

    /** The points of all pieces, read through the allocations. */
    method Collect(segs: seq<Segment>, ghost want: Points) returns (pts: Points)
      requires Valid() && PiecesFit(segs) && Gathered(segs) == want
      ensures pts == want
    {
      pts := [];
      for j := 0 to |segs|
        invariant PiecesFit(segs[..j]) && pts == Gathered(segs[..j])
      {
        assert segs[..j + 1][..j] == segs[..j];
        pts := pts + allocs[segs[j].alloc][segs[j].offset..segs[j].offset + segs[j].len];
      }
      assert segs[..|segs|] == segs;
    }

    /** Pieces that cover a stretch of positions gather exactly its points. */
    lemma {:induction false} CoversGathers(segs: seq<Segment>, from: nat, to: nat)
      requires Valid() && from <= to <= numDatapoints && Covers(segs, from, to, perAlloc)
      ensures PiecesFit(segs) && Gathered(segs) == contents[from..to]
    {
      if segs != [] {
        var front, seg := segs[..|segs| - 1], segs[|segs| - 1];
        CoversGathers(front, from, to - seg.len);
        PieceInBuffer(seg, to);
        PieceIsSlice(seg, to - seg.len);
        SliceJoin(contents, from, to - seg.len, to);
        assert segs == front + [seg];
        GatheredSnoc(front, seg);
      }
    }

    lemma {:induction false} PiecesGather(from: nat, to: nat)
      requires Valid() && from <= to <= numDatapoints
      ensures PiecesFit(Pieces(from, to, perAlloc)) && Gathered(Pieces(from, to, perAlloc)) == contents[from..to]
    {
      PiecesCover([], from, from, to, perAlloc);
      EmptyLeft(Pieces(from, to, perAlloc));
      CoversGathers(Pieces(from, to, perAlloc), from, to);
    }

    lemma {:induction false} PieceInBuffer(seg: Segment, to: nat)
      requires Valid() && 1 <= seg.len <= to <= numDatapoints && seg.offset + seg.len <= perAlloc
      requires seg.alloc * perAlloc + seg.offset + seg.len == to
      ensures PiecesFit([seg])
    {
      DivModUnique(seg.alloc, seg.offset, perAlloc);
      InSomePiece(to - seg.len, numDatapoints, perAlloc);
    }

    lemma {:induction false} GatheredSnoc(segs: seq<Segment>, seg: Segment)
      requires Valid() && PiecesFit(segs) && PiecesFit([seg])
      ensures PiecesFit(segs + [seg]) && Gathered(segs + [seg]) == Gathered(segs) + Piece(seg)
    {
      assert [seg][0] == seg;
      assert (segs + [seg])[..|segs|] == segs;
    }

    /** A piece within one allocation is a slice of the sequence. */
    lemma {:induction false} PieceIsSlice(seg: Segment, i: nat)
      requires Valid() && PiecesFit([seg])
      requires i == seg.alloc * perAlloc + seg.offset && i + seg.len <= numDatapoints
      ensures Piece(seg) == contents[i..i + seg.len]
    {
      assert [seg][0] == seg;
      var a := allocs[seg.alloc];
      forall o | seg.offset <= o < seg.offset + seg.len
        ensures a[o] == contents[i + o - seg.offset]
      {
        assert seg.alloc * perAlloc + o < numDatapoints;
      }
    }
  }

  // ---- The filter and the flag, one point at a time ----

  lemma {:induction false} SliceJoin(s: Points, a: nat, b: nat, c: nat)
    requires a <= b <= c <= |s|
    ensures s[a..b] + s[b..c] == s[a..c]
  {
  }

  lemma {:induction false} SpliceStep(s: Points, pts: Points, i: nat)
    requires |s| == |pts| && i < |s|
    ensures (s[..i] + pts[i..])[i := s[i]] == s[..i + 1] + pts[i + 1..]
  {
  }

  function LastOf(s: Points): Points {
    if s == [] then [] else [s[|s| - 1]]
  }

  /**
   A batch loses its NaNs and nothing else: what is kept stands at increasing places of the batch, and
   only places that hold a NaN are left out.
   */
  lemma {:induction false} KeptSpec(batch: Points) returns (at: seq<nat>)
    ensures |at| == |Kept(batch)|
    ensures forall i, j :: 0 <= i < j < |at| ==> at[i] < at[j]
    ensures forall i :: 0 <= i < |at| ==> at[i] < |batch| && batch[at[i]] == Kept(batch)[i]
    ensures forall k: nat :: k < |batch| ==> (k in at <==> !batch[k].value.NaN?)
    decreases |batch|
  {
    if batch == [] {
      at := [];
    } else {
      var last := |batch| - 1;
      at := KeptSpec(batch[..last]);
      KeptSnoc(batch, last);
      assert batch[..last + 1] == batch;
      ghost var before := at;
      if batch[last].value.Num? {
        at := at + [last];
      }
      forall k: nat | k < |batch| ensures k in at <==> !batch[k].value.NaN? {
        assert k in at <==> k in before || (k == last && batch[last].value.Num?);
        assert k < last ==> batch[..last][k] == batch[k];
      }
    }
  }

  lemma {:induction false} KeptConcat(a: Points, b: Points)
    ensures Kept(a + b) == Kept(a) + Kept(b)
  {
    if a == [] {
      EmptyLeft(b);
      EmptyLeft(Kept(b));
    } else {
      assert (a + b)[1..] == a[1..] + b;
      KeptConcat(a[1..], b);
    }
  }

  lemma {:induction false} KeptSnoc(batch: Points, i: nat)
    requires i < |batch|
    ensures Kept(batch[..i + 1]) == if batch[i].value.NaN? then Kept(batch[..i]) else Kept(batch[..i]) + [batch[i]]
  {
    assert batch[..i + 1] == batch[..i] + [batch[i]];
    KeptConcat(batch[..i], [batch[i]]);
    assert Kept([batch[i]]) == if batch[i].value.NaN? then [] else [batch[i]];
  }

  /** What one more point of a batch does to what is kept, to its order and to the buffer. */
  lemma {:induction false} OneMore(buf: Points, batch: Points, i: nat)
    requires i < |batch|
    ensures var p, kept, kept' := batch[i], Kept(batch[..i]), Kept(batch[..i + 1]);
      if p.value.NaN? then kept' == kept
      else
        && kept' == kept + [p] && buf + kept' == (buf + kept) + [p]
        && LastOf(kept') == [p]
        && (InOrder(kept') <==> InOrder(kept) && (LastOf(kept) != [] ==> LastOf(kept)[0].timestamp <= p.timestamp))
  {
    KeptSnoc(batch, i);
    InOrderSnoc(Kept(batch[..i]), batch[i]);
    Assoc(buf, Kept(batch[..i]), [batch[i]]);
  }

  lemma {:induction false} InOrderSnoc(s: Points, p: Datapoint)
    ensures InOrder(s + [p]) <==> InOrder(s) && (s != [] ==> s[|s| - 1].timestamp <= p.timestamp)
  {
    InOrderIsOrdered(s + [p]);
    InOrderIsOrdered(s);
    OrderedConcat(s, [p]);
  }
}
