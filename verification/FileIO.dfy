/**
 Gather writes under partial writes.

 The operating system is a list of answers: each call is interrupted, fails, or moves as many bytes
 as its answer says, but never more than are left. A loop that runs out of answers is still waiting.
 */
module FileIO {

  newtype byte = x: int | 0 <= x < 0x100

  datatype Answer = Interrupted | Failed | Moved(n: nat)

  datatype Status = Done | Error | Waiting

  /** A stretch of memory, by position and length. */
  datatype Iovec = Iovec(base: nat, len: nat)

  predicate InMemory(mem: seq<byte>, iov: seq<Iovec>) {
    forall i :: 0 <= i < |iov| ==> iov[i].base + iov[i].len <= |mem|
  }

  /** The bytes a gather vector stands for. */
  function Bytes(mem: seq<byte>, iov: seq<Iovec>): seq<byte>
    requires InMemory(mem, iov)
  {
    if iov == [] then []
    else mem[iov[0].base..iov[0].base + iov[0].len] + Bytes(mem, iov[1..])
  }

  /** How many bytes a list of answers is good for. */
  function Budget(answers: seq<Answer>): nat {
    if answers == [] then 0
    else Budget(answers[..|answers| - 1]) + if answers[|answers| - 1].Moved? then answers[|answers| - 1].n else 0
  }

  class File {
    var bytes: seq<byte>

    constructor ()
      ensures bytes == []
    {
      bytes := [];
    }

    /** One writev call: the first `n` bytes of `data` go to the file, or all of it. */
    method Writev(data: seq<byte>, n: nat) returns (written: nat)
      modifies this
      ensures written == (if n <= |data| then n else |data|)
      ensures bytes == old(bytes) + data[..written]
    {
      written := if n <= |data| then n else |data|;
      bytes := bytes + data[..written];
    }
  }

  lemma {:induction false} BytesHead(mem: seq<byte>, iov: seq<Iovec>)
    requires InMemory(mem, iov) && iov != []
    ensures InMemory(mem, iov[1..]) && |Bytes(mem, iov)| == iov[0].len + |Bytes(mem, iov[1..])|
    ensures Bytes(mem, iov)[iov[0].len..] == Bytes(mem, iov[1..])
  {
  }

  /** Moving the base of the first piece drops bytes from the front. */
  lemma {:induction false} BytesTrim(mem: seq<byte>, iov: seq<Iovec>, k: nat)
    requires InMemory(mem, iov) && iov != [] && k <= iov[0].len
    ensures var trimmed := [Iovec(iov[0].base + k, iov[0].len - k)] + iov[1..];
      InMemory(mem, trimmed) && Bytes(mem, trimmed) == Bytes(mem, iov)[k..]
  {
    var trimmed := [Iovec(iov[0].base + k, iov[0].len - k)] + iov[1..];
    assert trimmed[1..] == iov[1..];
    assert forall i :: 1 <= i < |trimmed| ==> trimmed[i] == iov[i];
  }

  /** No call has succeeded yet. */
  ghost predicate NoneMoved(answers: seq<Answer>) {
    forall i :: 0 <= i < |answers| ==> !answers[i].Moved?
  }

  lemma {:induction false} BudgetSnoc(answers: seq<Answer>, k: nat)
    requires k < |answers|
    ensures Budget(answers[..k + 1]) == Budget(answers[..k]) + if answers[k].Moved? then answers[k].n else 0
  {
    assert answers[..k + 1][..k] == answers[..k];
  }

  /** One successful call: some bytes move from the front of the vector to the end of the file. */
  method WriteSome(file: File, mem: seq<byte>, iov: array<Iovec>, start: nat, n: nat) returns (first: nat)
    requires start < iov.Length && InMemory(mem, iov[start..])
    modifies file, iov
    ensures start <= first <= iov.Length && InMemory(mem, iov[first..])
    ensures file.bytes + Bytes(mem, iov[first..]) == old(file.bytes + Bytes(mem, iov[start..]))
    ensures if n < |old(Bytes(mem, iov[start..]))| then |Bytes(mem, iov[first..])| == |old(Bytes(mem, iov[start..]))| - n
      else first == iov.Length
  {
    var data := Bytes(mem, iov[start..]);
    ghost var before := file.bytes;
    var written := file.Writev(data, n);
    assert before + data == file.bytes + data[written..];
    first := AdvanceVector(mem, iov, start, written);
  }

  /**
   Write the whole vector, whatever the partial writes. `iov` is advanced in place, as in the
   source. Whenever the loop stops, what is in the file and what is left of the vector together are
   the original bytes; `Done` means nothing is left. It can only be left waiting while the answers
   are not good for all bytes.
   */
  method WriteVector(file: File, mem: seq<byte>, iov: array<Iovec>, answers: seq<Answer>)
    returns (status: Status, used: nat, first: nat)
    requires InMemory(mem, iov[..])
    modifies file, iov
    ensures first <= iov.Length && InMemory(mem, iov[first..]) && used <= |answers|
    ensures file.bytes + Bytes(mem, iov[first..]) == old(file.bytes) + old(Bytes(mem, iov[..]))
    ensures status == Done <==> first == iov.Length
    ensures status == Done ==> file.bytes == old(file.bytes) + old(Bytes(mem, iov[..]))
    ensures status == Waiting ==> used == |answers|
    ensures status == Error ==> used < |answers| && answers[used] == Failed
    ensures Failed !in answers[..used]
    ensures first < iov.Length ==> Budget(answers[..used]) + |Bytes(mem, iov[first..])| == |old(Bytes(mem, iov[..]))|
    ensures status == Waiting ==> Budget(answers) < |old(Bytes(mem, iov[..]))| || NoneMoved(answers)
  {
    used, first := 0, 0;
    assert iov[0..] == iov[..];
    ghost var all := Bytes(mem, iov[..]);
    while first < iov.Length
      invariant first <= iov.Length && used <= |answers|
      invariant InMemory(mem, iov[first..])
      invariant file.bytes + Bytes(mem, iov[first..]) == old(file.bytes) + all
      invariant Failed !in answers[..used]
      invariant first < iov.Length ==> Budget(answers[..used]) + |Bytes(mem, iov[first..])| == |all|
      invariant first < iov.Length ==> NoneMoved(answers[..used]) || |Bytes(mem, iov[first..])| > 0
      decreases |answers| - used
    {
      if used == |answers| {
        assert answers[..used] == answers;
        return Waiting, used, first;
      }
      var answer := answers[used];
      BudgetSnoc(answers, used);
      if answer.Failed? {
        return Error, used, first;
      }
      if answer.Moved? {
        first := WriteSome(file, mem, iov, first, answer.n);
      }
      used := used + 1;
    }
    status := Done;
    assert iov[first..] == [];
  }

  /** Skip the pieces that were written completely and trim the one that was written in part. */
  method AdvanceVector(mem: seq<byte>, iov: array<Iovec>, start: nat, count: nat) returns (first: nat)
    requires start <= iov.Length && InMemory(mem, iov[start..]) && count <= |Bytes(mem, iov[start..])|
    modifies iov
    ensures start <= first <= iov.Length && InMemory(mem, iov[first..])
    ensures Bytes(mem, iov[first..]) == old(Bytes(mem, iov[start..]))[count..]
    ensures count == |old(Bytes(mem, iov[start..]))| ==> first == iov.Length
  {
    var written := count;
    first := start;
    ghost var data := Bytes(mem, iov[start..]);
    while first < iov.Length && iov[first].len <= written
      invariant start <= first <= iov.Length && 0 <= written <= count
      invariant InMemory(mem, iov[first..]) && written <= |Bytes(mem, iov[first..])|
      invariant Bytes(mem, iov[first..])[written..] == data[count..]
      invariant iov[..] == old(iov[..])
    {
      BytesHead(mem, iov[first..]);
      assert iov[first..][1..] == iov[first + 1..];
      written := written - iov[first].len;
      first := first + 1;
    }
    if first < iov.Length && written > 0 {
      ghost var rest := iov[first..];
      BytesTrim(mem, rest, written);
      iov[first] := Iovec(iov[first].base + written, iov[first].len - written);
      assert iov[first..] == [Iovec(rest[0].base + written, rest[0].len - written)] + rest[1..];
    } else {
      assert first == iov.Length ==> iov[first..] == [];
    }
  }
}
