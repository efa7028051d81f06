/**
 Memories and edits of them. An edit puts bytes at an address; where edits overlap, the last one counts. What a
 flash session does to the memory is compared with the list of its edits.
 */
module EditLog {
  import opened Bytes

  type Memory = nat -> Byte

  /** Bytes of the client, and bytes that were read back to be kept. */
  datatype Edit = Sent(address: nat, bytes: seq<Byte>) | Kept(address: nat, bytes: seq<Byte>)

  function Program(m: Memory, address: nat, page: seq<Byte>): Memory {
    (x: nat) => if address <= x < address + |page| then page[x - address] else m(x)
  }

  predicate Covers(e: Edit, x: nat) {
    e.address <= x < e.address + |e.bytes|
  }

  /** A byte of a memory after some edits. */
  function Applied(m: Memory, log: seq<Edit>, x: nat): Byte {
    if log == [] then m(x)
    else
      var last := log[|log| - 1];
      if Covers(last, x) then last.bytes[x - last.address] else Applied(m, log[..|log| - 1], x)
  }

  lemma AppliedNext(m: Memory, log: seq<Edit>, e: Edit, x: nat)
    ensures Applied(m, log + [e], x) == if Covers(e, x) then e.bytes[x - e.address] else Applied(m, log, x)
  {
    assert (log + [e])[..|log|] == log;
  }

  /** Programming the first edit leaves the rest to apply. */
  lemma {:induction false} ProgramFirst(m: Memory, e: Edit, log: seq<Edit>, x: nat)
    ensures Applied(Program(m, e.address, e.bytes), log, x) == Applied(m, [e] + log, x)
  {
    if log == [] {
      assert [e] + log == [e];
    } else {
      var front := log[..|log| - 1];
      ProgramFirst(m, e, front, x);
      assert ([e] + log)[..|log|] == [e] + front;
    }
  }

  /** Edits only depend on the memory at the place. */
  lemma {:induction false} AppliedTo(m: Memory, n: Memory, log: seq<Edit>, x: nat)
    requires m(x) == n(x)
    ensures Applied(m, log, x) == Applied(n, log, x)
  {
    if log == [] {
    } else {
      AppliedTo(m, n, log[..|log| - 1], x);
    }
  }

  ghost predicate Uncovered(log: seq<Edit>, x: nat) {
    forall i :: 0 <= i < |log| ==> !Covers(log[i], x)
  }

  lemma {:induction false} AppliedUncovered(m: Memory, log: seq<Edit>, x: nat)
    requires Uncovered(log, x)
    ensures Applied(m, log, x) == m(x)
  {
    if log == [] {
    } else {
      AppliedUncovered(m, log[..|log| - 1], x);
    }
  }

  /** An edit that no later edit covers at a place. */
  ghost predicate IsLast(log: seq<Edit>, i: nat, x: nat) {
    i < |log| && Covers(log[i], x) && Uncovered(log[i + 1..], x)
  }

  lemma LastIfUncovered(log: seq<Edit>, i: nat, x: nat)
    requires i < |log| && Covers(log[i], x)
    requires forall j :: i < j < |log| ==> !Covers(log[j], x)
    ensures IsLast(log, i, x)
  {
  }

  /** The last edit of a place decides. */
  lemma {:induction false} AppliedLast(m: Memory, log: seq<Edit>, i: nat, x: nat)
    requires IsLast(log, i, x)
    ensures Applied(m, log, x) == log[i].bytes[x - log[i].address]
  {
    var n := |log| - 1;
    if i == n {
    } else {
      assert log[n] == log[i + 1..][n - i - 1];
      assert Uncovered(log[..n][i + 1..], x) by {
        assert log[..n][i + 1..] == log[i + 1..][..n - i - 1];
      }
      AppliedLast(m, log[..n], i, x);
    }
  }

  /** A place that some edit covers has a last edit. */
  lemma {:induction false} HasLast(log: seq<Edit>, x: nat) returns (i: nat)
    requires !Uncovered(log, x)
    ensures IsLast(log, i, x)
  {
    var n := |log| - 1;
    if Covers(log[n], x) {
      i := n;
    } else {
      i := HasLast(log[..n], x);
      assert log[i + 1..] == log[..n][i + 1..] + [log[n]];
    }
  }

  lemma NothingBehindLast(log: seq<Edit>, i: nat, j: nat, x: nat)
    requires IsLast(log, i, x) && i < j < |log|
    ensures !Covers(log[j], x)
  {
    assert log[i + 1..][j - i - 1] == log[j];
  }

  lemma LastIsUnique(log: seq<Edit>, i: nat, j: nat, x: nat)
    requires IsLast(log, i, x) && IsLast(log, j, x)
    ensures i == j
  {
    if i < j {
      NothingBehindLast(log, i, j, x);
    } else if j < i {
      NothingBehindLast(log, j, i, x);
    }
  }

  /** Bytes added to the last edit are one more edit. */
  lemma GrownEdit(m: Memory, log: seq<Edit>, e: Edit, bytes: seq<Byte>, x: nat)
    ensures Applied(m, log + [e.(bytes := e.bytes + bytes)], x) ==
            Applied(m, log + [e] + [Kept(e.address + |e.bytes|, bytes)], x)
  {
    AppliedNext(m, log, e.(bytes := e.bytes + bytes), x);
    AppliedNext(m, log + [e], Kept(e.address + |e.bytes|, bytes), x);
    AppliedNext(m, log, e, x);
  }

  // ---- Edits that agree on a byte ----

  ghost predicate Agree(log: seq<Edit>, x: nat, byte: Byte) {
    forall i :: 0 <= i < |log| && Covers(log[i], x) ==> log[i].bytes[x - log[i].address] == byte
  }

  lemma AgreeNext(log: seq<Edit>, e: Edit, x: nat, byte: Byte)
    ensures Agree(log + [e], x, byte) <==> Agree(log, x, byte) && Agree([e], x, byte)
  {
    if Agree(log + [e], x, byte) {
      assert (log + [e])[|log|] == e;
      forall i | 0 <= i < |log| ensures (log + [e])[i] == log[i] {
      }
    }
  }

  lemma AgreeFirst(e: Edit, log: seq<Edit>, x: nat, byte: Byte)
    requires Agree([e] + log, x, byte)
    ensures Agree(log, x, byte) && Agree([e], x, byte)
  {
    assert ([e] + log)[0] == e;
    forall i | 0 <= i < |log| ensures ([e] + log)[i + 1] == log[i] {
    }
  }

  lemma GrownAgrees(log: seq<Edit>, e: Edit, bytes: seq<Byte>, x: nat, byte: Byte)
    requires Agree(log + [e], x, byte) && Agree([Kept(e.address + |e.bytes|, bytes)], x, byte)
    ensures Agree(log + [e.(bytes := e.bytes + bytes)], x, byte)
  {
    AgreeNext(log, e, x, byte);
    AgreeNext(log, e.(bytes := e.bytes + bytes), x, byte);
    var tail := Kept(e.address + |e.bytes|, bytes);
    assert [e][0] == e && [tail][0] == tail;
  }

  lemma AgreeApplied(m: Memory, e: Edit, x: nat)
    requires Agree([e], x, m(x))
    ensures Applied(m, [e], x) == m(x)
  {
    AppliedNext(m, [], e, x);
    assert [] + [e] == [e] && [e][0] == e;
  }

  /** An edit that agrees with what a place holds. */
  lemma AgreedNext(m: Memory, log: seq<Edit>, e: Edit, x: nat, byte: Byte)
    requires Agree([e], x, byte)
    ensures Applied(m, log + [e], x) == if Covers(e, x) then byte else Applied(m, log, x)
  {
    AppliedNext(m, log, e, x);
    assert [e][0] == e;
  }

  lemma AgreedOnly(m: Memory, e: Edit, x: nat, byte: Byte)
    requires Agree([e], x, byte)
    ensures Applied(m, [e], x) == if Covers(e, x) then byte else m(x)
  {
    AgreedNext(m, [], e, x, byte);
    assert [] + [e] == [e];
  }
}
