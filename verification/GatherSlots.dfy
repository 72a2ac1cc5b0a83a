/**
 The gather vector: which pieces of the write buffer go into it, and into which of its slots.

 A write takes a stretch of positions, one piece per allocation it touches. The source stores each
 piece at the slot with its allocation's number and announces a number of slots that it computes
 beforehand; a writer then takes those slots in order. `SlotsRightExactly` says when it finds the
 pieces there.
 */
module GatherSlots {
  import opened Numbers
  import opened Datapoints
  import opened Outcomes
  import opened CppDivision

  // ---- Allocations ----

  /** How many pieces of size `n` it takes to hold `k` points. */
  function CeilDiv(k: nat, n: Pos): nat {
    k / n + if k % n == 0 then 0 else 1
  }

  /** Quotient and remainder are the only way to write `i`. */
  lemma {:induction false} DivModUnique(c: nat, o: nat, n: nat)
    requires o < n
    ensures c * n + o >= 0 && (c * n + o) / n == c && (c * n + o) % n == o
  {
    FloorUnique(c * n + o, c, o, n);
  }

  lemma {:induction false} DivMod(i: nat, n: Pos)
    ensures i == (i / n) * n + i % n && 0 <= i % n < n
  {
  }

  /** A larger position is not in an earlier piece. */
  lemma {:induction false} DivMonotone(i: nat, j: nat, n: Pos)
    requires i <= j
    ensures i / n <= j / n
  {
    DivMod(i, n);
    DivMod(j, n);
    if i / n > j / n {
      Gap(i / n, j / n, n);
    }
  }

  /** Positions below the total lie in one of the pieces. */
  lemma {:induction false} InSomePiece(i: nat, k: nat, n: Pos)
    requires i < k
    ensures i / n < CeilDiv(k, n)
  {
    DivMonotone(i, k, n);
    DivMod(i, n);
    DivMod(k, n);
    if i / n == k / n {
      assert i % n < k % n;
    }
  }

  lemma {:induction false} SuccPiece(q: nat, r: nat, k: nat, n: nat)
    requires k == q * n + r && r + 1 == n
    ensures k + 1 == (q + 1) * n + 0
  {
  }

  lemma {:induction false} CeilIs(k: nat, q: nat, r: nat, n: Pos)
    requires r < n && k == q * n + r
    ensures CeilDiv(k, n) == if r == 0 then q else q + 1
  {
    DivModUnique(q, r, n);
  }

  /** The next point is in the last piece, or starts a new one. */
  lemma {:induction false} NextPiece(k: nat, n: Pos)
    ensures k / n <= CeilDiv(k, n)
    ensures CeilDiv(k + 1, n) == k / n + 1
  {
    var q, r := k / n, k % n;
    DivMod(k, n);
    CeilIs(k, q, r, n);
    if r + 1 < n {
      CeilIs(k + 1, q, r + 1, n);
    } else {
      SuccPiece(q, r, k, n);
      CeilIs(k + 1, q + 1, 0, n);
    }
  }

  lemma {:induction false} CeilDivPred(k: nat, n: Pos)
    requires k >= 1
    ensures (k - 1) / n + 1 == CeilDiv(k, n)
  {
    NextPiece(k - 1, n);
  }

  lemma {:induction false} CeilDivMonotone(j: nat, k: nat, n: Pos)
    requires j <= k
    ensures CeilDiv(j, n) <= CeilDiv(k, n)
  {
    if j >= 1 {
      CeilDivPred(j, n);
      CeilDivPred(k, n);
      DivMonotone(j - 1, k - 1, n);
    }
  }

  /** A piece ends in its allocation; if it fills it, the next position starts the next one. */
  lemma {:induction false} PieceEnd(c: nat, o: nat, len: nat, n: nat)
    requires o < n && 1 <= len <= n - o
    ensures c * n + o + len - 1 >= 0 && (c * n + o + len - 1) / n == c
    ensures o + len == n ==> (c * n + o + len) / n == c + 1
  {
    DivModUnique(c, o + len - 1, n);
    if o + len == n {
      SuccPiece(c, o + len - 1, c * n + o + len - 1, n);
      DivModUnique(c + 1, 0, n);
    }
  }

  // ---- Pieces ----

  /** One piece of the buffer handed to a gather write: within one allocation. */
  datatype Segment = Segment(alloc: nat, offset: nat, len: nat)

  /** How many allocations `k` points from position `pos` on touch. */
  function Touched(pos: nat, k: nat, n: Pos): int {
    if k == 0 then 0 else (pos + k - 1) / n - pos / n + 1
  }

  /** How many positions from `pos` on are before `endPos` and within the limit. */
  function Share(pos: nat, endPos: nat, maxPoints: nat): nat {
    if endPos <= pos then 0 else Min(endPos - pos, maxPoints)
  }

  /** How many points from `pos` on are within both limits. */
  function WritableFrom(pts: Points, pos: nat, maxPoints: nat, maxTimestamp: int): nat {
    Share(pos, UpperBound(pts, 0, maxTimestamp), maxPoints)
  }

  /** The piece that begins at position `i`: to the end of its allocation or of the stretch. */
  function PieceAt(i: nat, end: nat, n: Pos): (seg: Segment)
    requires i < end
    ensures 1 <= seg.len <= end - i && seg.offset + seg.len <= n
  {
    Segment(i / n, i % n, Min(end - i, n - i % n))
  }

  /** The positions from `i` to `end`, cut at the ends of allocations. */
  function Pieces(i: nat, end: nat, n: Pos): (segs: seq<Segment>)
    ensures segs == [] <==> i >= end
    decreases end - i
  {
    if i >= end then []
    else
      var seg := PieceAt(i, end, n);
      [seg] + Pieces(i + seg.len, end, n)
  }

  /** The pieces lie end to end over the positions from `from` to `to`, none across an allocation. */
  ghost predicate Covers(segs: seq<Segment>, from: int, to: int, n: nat) {
    if segs == [] then from == to
    else
      var seg := segs[|segs| - 1];
      && seg.len >= 1 && seg.offset + seg.len <= n && from <= to - seg.len
      && seg.alloc * n + seg.offset + seg.len == to
      && Covers(segs[..|segs| - 1], from, to - seg.len, n)
  }

  lemma {:induction false} CoversSnoc(segs: seq<Segment>, seg: Segment, from: nat, to: nat, n: nat)
    requires from <= to && Covers(segs, from, to, n)
    requires seg.len >= 1 && seg.offset + seg.len <= n && seg.alloc * n + seg.offset == to
    ensures Covers(segs + [seg], from, to + seg.len, n)
  {
    assert (segs + [seg])[..|segs|] == segs;
  }

  lemma {:induction false} PiecesStep(i: nat, end: nat, n: Pos)
    requires i < end
    ensures var seg := PieceAt(i, end, n);
      1 <= seg.len <= end - i && Pieces(i, end, n) == [seg] + Pieces(i + seg.len, end, n)
  {
  }

  /** Pieces put behind others that end where they begin. */
  lemma {:induction false} PiecesCover(segs: seq<Segment>, from: nat, i: nat, end: nat, n: Pos)
    requires from <= i <= end && Covers(segs, from, i, n)
    ensures Covers(segs + Pieces(i, end, n), from, end, n)
    decreases end - i
  {
    if i < end {
      var seg := PieceAt(i, end, n);
      PiecesStep(i, end, n);
      DivMod(i, n);
      CoversSnoc(segs, seg, from, i, n);
      PiecesCover(segs + [seg], from, i + seg.len, end, n);
      Assoc(segs, [seg], Pieces(i + seg.len, end, n));
    } else {
      assert segs + [] == segs;
    }
  }

  /** The piece behind one that does not end the stretch is in the next allocation. */
  lemma {:induction false} NextAllocation(i: nat, end: nat, n: Pos)
    requires i < end
    ensures var next := i + PieceAt(i, end, n).len;
      && (next < end ==> next / n == i / n + 1)
      && Touched(i, end - i, n) == 1 + Touched(next, end - next, n)
  {
    DivMod(i, n);
    PieceEnd(i / n, i % n, PieceAt(i, end, n).len, n);
  }

  /** One piece per allocation touched, each in the next allocation. */
  lemma {:induction false} PiecesAre(i: nat, end: nat, n: Pos)
    requires i <= end
    ensures |Pieces(i, end, n)| == Touched(i, end - i, n)
    ensures forall j :: 0 <= j < |Pieces(i, end, n)| ==> Pieces(i, end, n)[j].alloc == i / n + j
    decreases end - i
  {
    if i < end {
      var seg := PieceAt(i, end, n);
      var rest := Pieces(i + seg.len, end, n);
      PiecesAre(i + seg.len, end, n);
      NextAllocation(i, end, n);
      PiecesStep(i, end, n);
      forall j | 0 <= j < |Pieces(i, end, n)| ensures Pieces(i, end, n)[j].alloc == i / n + j {
        if j > 0 {
          assert Pieces(i, end, n)[j] == rest[j - 1];
        }
      }
    }
  }

  // ---- The vector ----

  /** The slots that were announced, and whether a piece was stored outside of them. */
  datatype IoVector = IoVector(slots: seq<Option<Segment>>, overrun: bool)

  function Empty(count: nat): IoVector {
    IoVector(seq(count, _ => None), false)
  }

  /** A piece goes to the slot with its allocation's number. */
  function Store(v: IoVector, seg: Segment): IoVector {
    if seg.alloc < |v.slots| then v.(slots := v.slots[seg.alloc := Some(seg)]) else v.(overrun := true)
  }

  function Filled(segs: seq<Segment>, count: nat): IoVector {
    if segs == [] then Empty(count) else Store(Filled(segs[..|segs| - 1], count), segs[|segs| - 1])
  }

  /** What a writer relies on: slot number j holds piece number j, none is missing, none went elsewhere. */
  predicate Holds(v: IoVector, segs: seq<Segment>) {
    !v.overrun && |v.slots| == |segs| && forall j :: 0 <= j < |segs| ==> v.slots[j] == Some(segs[j])
  }

  /** What a writer can tell by itself: no store went astray and no slot is empty. */
  predicate AllSet(v: IoVector) {
    !v.overrun && forall s :: 0 <= s < |v.slots| ==> v.slots[s].Some?
  }

  lemma {:induction false} FilledSnoc(segs: seq<Segment>, seg: Segment, count: nat)
    ensures Filled(segs + [seg], count) == Store(Filled(segs, count), seg)
  {
    assert (segs + [seg])[..|segs|] == segs;
  }

  /** Pieces in successive allocations from `a` on fill the slots from `a` on. */
  lemma {:induction false} FilledIs(segs: seq<Segment>, count: nat, a: nat)
    requires forall j :: 0 <= j < |segs| ==> segs[j].alloc == a + j
    ensures var v := Filled(segs, count);
      && |v.slots| == count && (v.overrun <==> segs != [] && a + |segs| > count)
      && forall s :: 0 <= s < count ==> v.slots[s] == if a <= s < a + |segs| then Some(segs[s - a]) else None
  {
    if segs != [] {
      FilledIs(segs[..|segs| - 1], count, a);
    }
  }

  /** So the vector is right if and only if there are as many slots as pieces and the first allocation is number zero. */
  lemma {:induction false} HoldsExactly(segs: seq<Segment>, count: nat, a: nat)
    requires forall j :: 0 <= j < |segs| ==> segs[j].alloc == a + j
    ensures Holds(Filled(segs, count), segs) <==> count == |segs| && (segs != [] ==> a == 0)
  {
    FilledIs(segs, count, a);
    if segs != [] && count == |segs| && a > 0 {
      assert Filled(segs, count).overrun;
    }
  }

  /** That is enough: the vector is right if and only if all slots are set. */
  lemma {:induction false} AllSetIsRight(segs: seq<Segment>, count: nat, a: nat)
    requires forall j :: 0 <= j < |segs| ==> segs[j].alloc == a + j
    ensures Holds(Filled(segs, count), segs) <==> AllSet(Filled(segs, count))
  {
    FilledIs(segs, count, a);
    HoldsExactly(segs, count, a);
    var v := Filled(segs, count);
    if AllSet(v) {
      if count > 0 {
        assert v.slots[0].Some? && v.slots[count - 1].Some?;
      }
    }
  }

  /** The number of slots the source allocates and announces. */
  function IovCount(pos: nat, endPos: nat, maxPoints: nat, n: Pos): nat {
    if endPos <= pos then 0
    else Max(0, Min(CeilDiv(maxPoints, n), (endPos - 1) / n - pos / n + 1))
  }

  lemma {:induction false} CeilShift(q: nat, k: nat, n: Pos)
    ensures q * n + k >= 0 && (q * n + k) / n == q + k / n
  {
    DivMod(k, n);
    assert q * n + k == (q + k / n) * n + k % n;
    DivModUnique(q + k / n, k % n, n);
  }

  lemma {:induction false} TouchedByOffset(pos: nat, k: nat, n: Pos)
    requires k >= 1
    ensures Touched(pos, k, n) == CeilDiv(pos % n + k, n)
  {
    DivMod(pos, n);
    CeilShift(pos / n, pos % n + k - 1, n);
    CeilDivPred(pos % n + k, n);
  }

  /** Both counts in terms of where in its allocation the write begins. */
  lemma {:induction false} IovCountIs(pos: nat, endPos: nat, maxPoints: nat, n: Pos)
    requires pos < endPos
    ensures IovCount(pos, endPos, maxPoints, n) == Min(CeilDiv(maxPoints, n), CeilDiv(pos % n + (endPos - pos), n))
  {
    TouchedByOffset(pos, endPos - pos, n);
  }

  lemma {:induction false} TouchedIs(pos: nat, endPos: nat, maxPoints: nat, n: Pos)
    requires pos < endPos && maxPoints > 0
    ensures Touched(pos, Share(pos, endPos, maxPoints), n)
      == Min(CeilDiv(pos % n + maxPoints, n), CeilDiv(pos % n + (endPos - pos), n))
  {
    TouchedByOffset(pos, Share(pos, endPos, maxPoints), n);
    if endPos - pos <= maxPoints {
      CeilDivMonotone(pos % n + (endPos - pos), pos % n + maxPoints, n);
    } else {
      CeilDivMonotone(pos % n + maxPoints, pos % n + (endPos - pos), n);
    }
  }

  /**
   There are never more slots than pieces. There are as many if and only if the limit, counted as if
   the write began at the start of an allocation, cuts none off.
   */
  lemma {:induction false} SlotCountExactly(pos: nat, endPos: nat, maxPoints: nat, n: Pos)
    requires pos < endPos && maxPoints > 0
    ensures var o := pos % n;
      && IovCount(pos, endPos, maxPoints, n) <= Touched(pos, Share(pos, endPos, maxPoints), n)
      && (IovCount(pos, endPos, maxPoints, n) == Touched(pos, Share(pos, endPos, maxPoints), n) <==>
          CeilDiv(o + (endPos - pos), n) <= CeilDiv(maxPoints, n) || CeilDiv(o + maxPoints, n) == CeilDiv(maxPoints, n))
  {
    IovCountIs(pos, endPos, maxPoints, n);
    TouchedIs(pos, endPos, maxPoints, n);
    CeilDivMonotone(maxPoints, pos % n + maxPoints, n);
  }

  lemma {:induction false} NeverTooMany(pos: nat, endPos: nat, maxPoints: nat, n: Pos)
    requires pos < endPos
    ensures IovCount(pos, endPos, maxPoints, n) <= Touched(pos, Share(pos, endPos, maxPoints), n)
  {
    if maxPoints > 0 {
      SlotCountExactly(pos, endPos, maxPoints, n);
    } else {
      IovCountIs(pos, endPos, maxPoints, n);
      DivModUnique(0, 0, n);
    }
  }

  // ---- Where the source stores the pieces ----

  /** As written the vector holds the pieces of a write from `pos` on. */
  predicate SlotsRight(pos: nat, endPos: nat, maxPoints: nat, n: Pos) {
    var segs := Pieces(pos, pos + Share(pos, endPos, maxPoints), n);
    Holds(Filled(segs, IovCount(pos, endPos, maxPoints, n)), segs)
  }

  /** What a caller can check: the write starts in the first allocation and the limit cuts no slot off. */
  predicate StartsEarly(pos: nat, endPos: nat, maxPoints: nat, n: Pos) {
    || endPos <= pos || maxPoints == 0
    || (pos < n && (CeilDiv(endPos, n) <= CeilDiv(maxPoints, n) || CeilDiv(pos + maxPoints, n) == CeilDiv(maxPoints, n)))
  }

  lemma {:induction false} FirstAllocation(pos: nat, n: Pos)
    ensures pos / n == 0 <==> pos < n
    ensures pos < n ==> pos % n == pos
  {
    if pos < n {
      DivModUnique(0, pos, n);
    } else {
      DivMonotone(n, pos, n);
      DivModUnique(1, 0, n);
    }
  }

  lemma {:induction false} RightByCount(pos: nat, endPos: nat, maxPoints: nat, n: Pos)
    ensures var segs := Pieces(pos, pos + Share(pos, endPos, maxPoints), n);
      SlotsRight(pos, endPos, maxPoints, n) <==>
        IovCount(pos, endPos, maxPoints, n) == |segs| && (segs != [] ==> pos / n == 0)
  {
    var segs := Pieces(pos, pos + Share(pos, endPos, maxPoints), n);
    PiecesAre(pos, pos + Share(pos, endPos, maxPoints), n);
    HoldsExactly(segs, IovCount(pos, endPos, maxPoints, n), pos / n);
  }

  /**
   As written the vector is right if and only if nothing is written, or the write starts in the first
   allocation and the limit, counted from zero, does not cut the slots short.
   */
  lemma {:induction false} SlotsRightExactly(pos: nat, endPos: nat, maxPoints: nat, n: Pos)
    ensures SlotsRight(pos, endPos, maxPoints, n) <==> StartsEarly(pos, endPos, maxPoints, n)
  {
    RightByCount(pos, endPos, maxPoints, n);
    PiecesAre(pos, pos + Share(pos, endPos, maxPoints), n);
    if endPos > pos {
      if maxPoints > 0 {
        FirstAllocation(pos, n);
        SlotCountExactly(pos, endPos, maxPoints, n);
      } else {
        IovCountIs(pos, endPos, maxPoints, n);
        DivModUnique(0, 0, n);
      }
    }
  }

  /** A write that starts at the beginning of the buffer is always right. */
  lemma {:induction false} SlotsRightAtStart(endPos: nat, maxPoints: nat, n: Pos)
    ensures SlotsRight(0, endPos, maxPoints, n)
  {
    SlotsRightExactly(0, endPos, maxPoints, n);
  }

  /**
   Ten points per allocation: ten points from position 5 on need two slots and get one; five from
   position 10 on go to a slot that is not there.
   */
  lemma {:induction false} SlotsCutShort()
    ensures !SlotsRight(5, 15, 10, 10) && !SlotsRight(10, 15, 10, 10)
  {
    SlotsRightExactly(5, 15, 10, 10);
    SlotsRightExactly(10, 15, 10, 10);
  }

  // ---- What a gather comes to ----

  /** What std::upper_bound asks of its range: the points up to `t` stand in front of those after it. */
  predicate SplitsAt(pts: Points, t: int) {
    forall i :: UpperBound(pts, 0, t) <= i < |pts| ==> pts[i].timestamp > t
  }

  lemma {:induction false} OrderedSplits(pts: Points, t: int)
    requires Ordered(pts)
    ensures SplitsAt(pts, t)
  {
  }

  /** Building the vector and using it: it needs the end of the stretch, and the slots where a writer looks. */
  function VectorOutcome(pts: Points, pos: nat, bound: int, maxPoints: nat, n: Pos): Outcome<()> {
    if !SplitsAt(pts, bound) then Undefined
    else if !SlotsRight(pos, UpperBound(pts, 0, bound), maxPoints, n) then Corrupts
    else Returned(())
  }

  // ---- The loop ----

  /** One piece: to the end of the allocation, of the buffer's share or of the limit. */
  method TakePiece(i: nat, endPos: nat, left: nat, perAlloc: Pos) returns (seg: Segment)
    requires i < endPos && left > 0
    ensures 1 <= seg.len <= left && i + seg.len <= endPos
    ensures seg == PieceAt(i, i + Min(endPos - i, left), perAlloc)
  {
    var allocIndex, allocOffset := i / perAlloc, i % perAlloc;
    var allocUsable := Min(endPos - i, Min(perAlloc - allocOffset, left));
    seg := Segment(allocIndex, allocOffset, allocUsable);
  }

  /** What is left of the stretch at `i`. */
  lemma {:induction false} ShareLeft(pos: nat, i: nat, endPos: nat, maxPoints: nat)
    requires pos <= i <= pos + Share(pos, endPos, maxPoints) && pos <= endPos
    ensures i <= endPos && i - pos <= maxPoints
    ensures i + Min(endPos - i, maxPoints - (i - pos)) == pos + Share(pos, endPos, maxPoints)
  {
  }

  lemma {:induction false} OnePiece(segs: seq<Segment>, i: nat, end: nat, n: Pos, count: nat)
    requires i < end
    ensures var seg := PieceAt(i, end, n);
      && segs + Pieces(i, end, n) == (segs + [seg]) + Pieces(i + seg.len, end, n)
      && Filled(segs + [seg], count) == Store(Filled(segs, count), seg)
  {
    var seg := PieceAt(i, end, n);
    PiecesStep(i, end, n);
    FilledSnoc(segs, seg, count);
    Assoc(segs, [seg], Pieces(i + seg.len, end, n));
  }

  /** The loop that fills the vector; `segs` are the pieces it has stored. */
  method CollectPieces(pos: nat, endPos: nat, maxPoints: nat, perAlloc: Pos, iovCount: nat)
    returns (iov: IoVector, ghost segs: seq<Segment>, writable: nat)
    requires pos <= endPos
    ensures writable == Share(pos, endPos, maxPoints)
    ensures segs == Pieces(pos, pos + writable, perAlloc) && iov == Filled(segs, iovCount)
  {
    var i, left: nat := pos, maxPoints;
    segs, iov := [], Empty(iovCount);
    ghost var end := pos + Share(pos, endPos, maxPoints);
    EmptyLeft(Pieces(pos, end, perAlloc));
    while i < endPos && left > 0
      invariant pos <= i <= end && left == maxPoints - (i - pos)
      invariant segs + Pieces(i, end, perAlloc) == Pieces(pos, end, perAlloc)
      invariant iov == Filled(segs, iovCount)
      decreases end - i
    {
      ShareLeft(pos, i, endPos, maxPoints);
      var seg := TakePiece(i, endPos, left, perAlloc);
      OnePiece(segs, i, end, perAlloc, iovCount);
      segs := segs + [seg];
      iov := Store(iov, seg);
      i := i + seg.len;
      left := left - seg.len;
    }
    ShareLeft(pos, i, endPos, maxPoints);
    assert segs + [] == segs;
    writable := i - pos;
  }

  /** What a writer reads: the slots in order. */
  function SlotList(iov: IoVector): seq<Segment>
    requires AllSet(iov)
  {
    seq(|iov.slots|, s requires 0 <= s < |iov.slots| => iov.slots[s].value)
  }

  lemma {:induction false} SlotListIs(iov: IoVector, segs: seq<Segment>)
    requires AllSet(iov) && Holds(iov, segs)
    ensures SlotList(iov) == segs
  {
  }

  /** A write whose vector is right finds its pieces there, and can only proceed if it is. */
  lemma {:induction false} IntactExactly(pos: nat, endPos: nat, maxPoints: nat, n: Pos)
    ensures SlotsRight(pos, endPos, maxPoints, n) <==>
      AllSet(Filled(Pieces(pos, pos + Share(pos, endPos, maxPoints), n), IovCount(pos, endPos, maxPoints, n)))
  {
    var k := Share(pos, endPos, maxPoints);
    PiecesAre(pos, pos + k, n);
    AllSetIsRight(Pieces(pos, pos + k, n), IovCount(pos, endPos, maxPoints, n), pos / n);
  }
}
