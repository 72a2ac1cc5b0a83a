/**
 Reading and writing arrays of fixed-size records through a file descriptor.

 A call that succeeds moves at most as many bytes as its answer says. `WriteValues` is right under
 any partial writes. `ReadValues` keeps only whole records of each call but does not go back for the
 bytes it drops; `ReadExact` says exactly which runs still return the front of the file.
 */
module FileValues {
  import opened Numbers
  import opened Datapoints
  import opened FileIO
  import opened CppDivision

  /** What one read call returns: never more than was asked for, nor than there is. */
  function Moves(answer: nat, want: nat, left: nat): (n: nat)
    ensures n <= want && n <= left && n <= answer
  {
    if answer <= want && answer <= left then answer else if want <= left then want else left
  }

  /** The bytes of the whole records among `n` bytes. */
  function Whole(n: nat, size: Pos): (k: nat)
    ensures k <= n
  {
    if n < size then 0 else size + Whole(n - size, size)
  }

  lemma {:induction false} WholeIs(n: nat, size: Pos)
    ensures Whole(n, size) == n - n % size
  {
    if n >= size {
      WholeIs(n - size, size);
      assert n == (n / size) * size + n % size;
      FloorUnique(n - size, n / size - 1, n % size, size);
    }
  }

  /** A reader: its position in the file, and how many bytes of records it has kept. */
  datatype Reader = Reader(pos: nat, kept: nat)

  /** Where reading up to `want` bytes of a file of `length` bytes stands after some calls. */
  function After(length: nat, want: nat, size: Pos, calls: seq<nat>): (r: Reader)
    ensures r.kept <= r.pos <= length && r.kept <= want
  {
    if calls == [] then Reader(0, 0)
    else
      var r := After(length, want, size, calls[..|calls| - 1]);
      var n := Moves(calls[|calls| - 1], want - r.kept, length - r.pos);
      Reader(r.pos + n, r.kept + Whole(n, size))
  }

  /** Where in the file byte number `k` of the result comes from. */
  function Origin(k: nat, length: nat, want: nat, size: Pos, calls: seq<nat>): (at: nat)
    requires k < After(length, want, size, calls).kept
    ensures k <= at < length
  {
    var front := calls[..|calls| - 1];
    var r := After(length, want, size, front);
    if k < r.kept then Origin(k, length, want, size, front) else r.pos + (k - r.kept)
  }

  /** Until the last call that brought a record, every call moved whole records only. */
  predicate WholeRecords(length: nat, want: nat, size: Pos, calls: seq<nat>) {
    calls == [] ||
    var front := calls[..|calls| - 1];
    var r := After(length, want, size, front);
    && WholeRecords(length, want, size, front)
    && (After(length, want, size, calls).kept > r.kept ==> r.pos == r.kept)
  }

  /** The buffer holds what the calls made so far have brought. */
  ghost predicate Holds(buffer: seq<byte>, file: seq<byte>, want: nat, size: Pos, calls: seq<nat>) {
    && |buffer| == After(|file|, want, size, calls).kept
    && forall k :: 0 <= k < |buffer| ==> buffer[k] == file[Origin(k, |file|, want, size, calls)]
  }

  /** Read up to `want` bytes of records; `calls` are the calls that were made and not interrupted. */
  method ReadValues(file: seq<byte>, size: Pos, want: nat, answers: seq<Answer>)
    returns (buffer: seq<byte>, status: Status, used: nat, ghost calls: seq<nat>)
    ensures used <= |answers| && calls == Successes(answers[..used])
    ensures Holds(buffer, file, want, size, calls)
    ensures status == Waiting ==> used == |answers|
    ensures status == Error ==> used < |answers| && answers[used].Failed? && |buffer| < want
    ensures status == Done && |buffer| < want ==> calls != []
    ensures status == Done && |buffer| < want ==>
      After(|file|, want, size, calls) == After(|file|, want, size, calls[..|calls| - 1])
  {
    buffer, used, calls := [], 0, [];
    var pos: nat := 0;
    while |buffer| < want
      invariant used <= |answers| && calls == Successes(answers[..used])
      invariant Holds(buffer, file, want, size, calls) && pos == After(|file|, want, size, calls).pos
      decreases |answers| - used
    {
      if used == |answers| {
        return buffer, Waiting, used, calls;
      }
      var answer := answers[used];
      if answer.Failed? {
        return buffer, Error, used, calls;
      }
      SuccessesSnoc(answers, used);
      used := used + 1;
      if answer.Moved? {
        var n := Moves(answer.n, want - |buffer|, |file| - pos);
        OneCall(buffer, file, want, size, calls, answer.n);
        calls := calls + [answer.n];
        WholeIs(n, size);
        buffer := buffer + file[pos..pos + (n - n % size)];
        pos := pos + n;
        if n == 0 {
          return buffer, Done, used, calls;
        }
      }
    }
    status := Done;
  }

  lemma {:induction false} OneCall(buffer: seq<byte>, file: seq<byte>, want: nat, size: Pos, calls: seq<nat>, answer: nat)
    requires Holds(buffer, file, want, size, calls)
    ensures var r := After(|file|, want, size, calls); var n := Moves(answer, want - |buffer|, |file| - r.pos);
      && After(|file|, want, size, calls + [answer]) == Reader(r.pos + n, r.kept + Whole(n, size))
      && Holds(buffer + file[r.pos..r.pos + Whole(n, size)], file, want, size, calls + [answer])
  {
    var next := calls + [answer];
    assert next[..|next| - 1] == calls;
    var r := After(|file|, want, size, calls);
    var n := Moves(answer, want - |buffer|, |file| - r.pos);
    forall k | 0 <= k < |buffer| + Whole(n, size)
      ensures (buffer + file[r.pos..r.pos + Whole(n, size)])[k] == file[Origin(k, |file|, want, size, next)]
    {
    }
  }

  /** The calls that were neither interrupted nor failed. */
  function Successes(answers: seq<Answer>): seq<nat> {
    if answers == [] then []
    else Successes(answers[..|answers| - 1]) + if answers[|answers| - 1].Moved? then [answers[|answers| - 1].n] else []
  }

  lemma {:induction false} SuccessesSnoc(answers: seq<Answer>, k: nat)
    requires k < |answers|
    ensures Successes(answers[..k + 1]) == Successes(answers[..k]) + if answers[k].Moved? then [answers[k].n] else []
  {
    assert answers[..k + 1][..k] == answers[..k];
  }

  ghost predicate InPlace(length: nat, want: nat, size: Pos, calls: seq<nat>) {
    forall k: nat :: k < After(length, want, size, calls).kept ==> Origin(k, length, want, size, calls) == k
  }

  /** Every byte comes from its own place if and only if no record is cut in two before more is read. */
  lemma {:induction false} InPlaceExactly(length: nat, want: nat, size: Pos, calls: seq<nat>)
    ensures InPlace(length, want, size, calls) <==> WholeRecords(length, want, size, calls)
  {
    if calls != [] {
      var front := calls[..|calls| - 1];
      var r, r' := After(length, want, size, front), After(length, want, size, calls);
      InPlaceExactly(length, want, size, front);
      if InPlace(length, want, size, calls) {
        forall k: nat | k < r.kept ensures Origin(k, length, want, size, front) == k {
          assert Origin(k, length, want, size, calls) == k;
        }
        assert InPlace(length, want, size, front);
        if r'.kept > r.kept {
          assert Origin(r.kept, length, want, size, calls) == r.kept;
        }
      }
      if WholeRecords(length, want, size, calls) {
        forall k: nat | k < r'.kept ensures Origin(k, length, want, size, calls) == k {
          if k < r.kept {
            assert Origin(k, length, want, size, front) == k;
          }
        }
      }
    }
  }

  ghost predicate ReadsFront(file: seq<byte>, want: nat, size: Pos, calls: seq<nat>) {
    forall k: nat :: k < After(|file|, want, size, calls).kept ==> file[Origin(k, |file|, want, size, calls)] == file[k]
  }

  function OneAt(length: nat, k: nat): (file: seq<byte>)
    ensures |file| == length && forall i :: 0 <= i < length ==> file[i] == if i == k then 1 else 0
  {
    seq(length, i => if i == k then 1 else 0)
  }

  /** Whatever the file holds, its front is read, if and only if no record is cut in two before more is read. */
  lemma {:induction false} ReadExact(length: nat, want: nat, size: Pos, calls: seq<nat>)
    ensures (forall file: seq<byte> | |file| == length :: ReadsFront(file, want, size, calls))
      <==> WholeRecords(length, want, size, calls)
  {
    InPlaceExactly(length, want, size, calls);
    if WholeRecords(length, want, size, calls) {
      forall file: seq<byte> | |file| == length ensures ReadsFront(file, want, size, calls) {
      }
    } else {
      var k: nat :| k < After(length, want, size, calls).kept && Origin(k, length, want, size, calls) != k;
      var file := OneAt(length, k);
      assert file[Origin(k, |file|, want, size, calls)] != file[k];
      assert !ReadsFront(file, want, size, calls);
    }
  }

  /** Writing goes on where the last call stopped: the file gets all bytes, or exactly as many as the calls were good for. */
  method WriteValues(file: File, data: seq<byte>, answers: seq<Answer>) returns (status: Status, used: nat, left: seq<byte>)
    modifies file
    ensures file.bytes + left == old(file.bytes) + data && used <= |answers|
    ensures status == Done <==> left == []
    ensures status == Waiting ==> used == |answers|
    ensures status == Error ==> used < |answers| && answers[used] == Failed
    ensures Failed !in answers[..used]
    ensures left != [] ==> Budget(answers[..used]) + |left| == |data|
    ensures status == Waiting ==> Budget(answers) < |data|
  {
    left, used := data, 0;
    while left != []
      invariant used <= |answers| && Failed !in answers[..used]
      invariant left != [] ==> Budget(answers[..used]) + |left| == |data|
      invariant file.bytes + left == old(file.bytes) + data
      decreases |answers| - used
    {
      if used == |answers| {
        assert answers[..used] == answers;
        return Waiting, used, left;
      }
      BudgetSnoc(answers, used);
      if answers[used].Failed? {
        return Error, used, left;
      }
      if answers[used].Moved? {
        ghost var before := file.bytes;
        var written := file.Writev(left, answers[used].n);
        WrittenPart(before, left, written);
        left := left[written..];
      }
      used := used + 1;
    }
    status := Done;
  }

  lemma {:induction false} WrittenPart(before: seq<byte>, data: seq<byte>, n: nat)
    requires n <= |data|
    ensures (before + data[..n]) + data[n..] == before + data
  {
  }
}
