/** Writing a command into the legacy ring: with one copy when it does not reach the end of the ring,
    DWORD by DWORD across the wrap otherwise. Space accounting and TAIL are not part of it. */
module QueueCommands {
  import opened Common
  import opened Cyclic

  /** The position after count DWORDs. */
  function After(n: nat, at: nat, count: nat): (r: nat)
    requires at < n && count <= n
    ensures r < n
  {
    if at + count < n then at + count else at + count - n
  }

  /** The ring after data was written from a position on, one DWORD after the other. */
  function Written(ring: seq<U32>, at: nat, data: seq<U32>): (r: seq<U32>)
    requires at < |ring| && |data| <= |ring|
    ensures |r| == |ring|
  {
    if data == [] then ring
    else Written(ring, at, data[..|data| - 1])[After(|ring|, at, |data| - 1) := data[|data| - 1]]
  }

  /** Short of the end of the ring that is one copy. */
  lemma {:induction false} WrittenWithoutWrap(ring: seq<U32>, at: nat, data: seq<U32>)
    requires at + |data| <= |ring| && at < |ring|
    ensures Written(ring, at, data) == ring[..at] + data + ring[at + |data|..]
  {
    if data != [] {
      var init := data[..|data| - 1];
      WrittenWithoutWrap(ring, at, init);
      assert After(|ring|, at, |init|) == at + |init|;
      assert data == init + [data[|data| - 1]];
    }
  }

  /** Whether or not it wraps, the command is read back whole and in order. */
  lemma {:induction false} WrittenReadsBack(ring: seq<U32>, at: nat, data: seq<U32>)
    requires at < |ring| && |data| < |ring|
    ensures Seg(Written(ring, at, data), at, After(|ring|, at, |data|)) == data
  {
    if data != [] {
      var init, last := data[..|data| - 1], data[|data| - 1];
      var hi := After(|ring|, at, |init|);
      WrittenReadsBack(ring, at, init);
      assert Next(|ring|, hi) == After(|ring|, at, |data|);
      SegPush(Written(ring, at, init), at, hi, last);
      assert data == init + [last];
    }
  }

  /** Entry by entry: what lies outside the written stretch is as it was. */
  lemma {:induction false} WrittenAt(ring: seq<U32>, at: nat, data: seq<U32>, k: nat)
    requires at < |ring| && |data| <= |ring| && k < |ring|
    ensures var offset := if at <= k then k - at else |ring| - at + k;
            Written(ring, at, data)[k] == if offset < |data| then data[offset] else ring[k]
  {
    if data != [] {
      WrittenAt(ring, at, data[..|data| - 1], k);
    }
  }

  class RingBuffer {
    const base: array<U32>
    var position: nat

    constructor (memory: array<U32>)
      requires memory.Length > 0
      ensures base == memory && position == 0
    {
      base := memory;
      position := 0;
    }

    ghost predicate Valid()
      reads this
    {
      position < base.Length
    }

    method Write(data: U32)
      requires Valid()
      modifies this`position, base
      ensures Valid() && base[..] == old(base[..])[old(position) := data]
      ensures position == Next(base.Length, old(position))
    {
      base[position] := data;
      position := Next(base.Length, position);
    }

    /** Both paths write the same ring. */
    method Put(data: seq<U32>)
      requires Valid() && |data| <= base.Length
      modifies this`position, base
      ensures Valid() && base[..] == Written(old(base[..]), old(position), data)
      ensures position == After(base.Length, old(position), |data|)
    {
      ghost var ring, at := base[..], position;
      if base.Length - position >= |data| {
        WrittenWithoutWrap(ring, at, data);
        forall i | 0 <= i < |data| {
          base[position + i] := data[i];
        }
        position := if position + |data| == base.Length then 0 else position + |data|;
      } else {
        for i := 0 to |data|
          invariant Valid() && base[..] == Written(ring, at, data[..i])
          invariant position == After(base.Length, at, i)
        {
          assert data[..i + 1][..i] == data[..i];
          Write(data[i]);
        }
        assert data[..|data|] == data;
      }
    }
  }
}
