/** The GPU command ring: one producer that writes, pads with MI_NOOP at the wrap and publishes
    TAIL, against a GPU that advances HEAD on its own at any moment.

    The GPU's steps are interleaved by calling GpuRun between all steps of the producer. What the
    GPU has read so far is kept in the ghost field fetched, what was submitted in the ghost log. */
module GpuRing {
  import opened Common
  import opened Cyclic

  const MI_NOOP: U32 := 0

  datatype Status = Ok | NoMemory | TimedOut | IoError

  /** One successful submission: MI_NOOPs that close the ring before a wrap, the DWORDs of the
      caller, and the MI_NOOP that aligns TAIL. */
  datatype Submission = Submission(lead: nat, data: seq<U32>, trail: nat)

  function Noops(n: nat): (r: seq<U32>)
    ensures |r| == n && forall k :: 0 <= k < n ==> r[k] == MI_NOOP
  {
    if n == 0 then [] else Noops(n - 1) + [MI_NOOP]
  }

  function Render(s: Submission): seq<U32> {
    Noops(s.lead) + s.data + Noops(s.trail)
  }

  /** Everything the GPU has been asked to fetch, in order. */
  function Stream(log: seq<Submission>): seq<U32> {
    if log == [] then [] else Stream(log[..|log| - 1]) + Render(log[|log| - 1])
  }

  /** The arrays of a log, concatenated without any padding. */
  function Commands(log: seq<Submission>): seq<U32> {
    if log == [] then [] else Commands(log[..|log| - 1]) + log[|log| - 1].data
  }

  function Arrays(log: seq<Submission>): (r: seq<seq<U32>>)
    ensures |r| == |log|
  {
    seq(|log|, i requires 0 <= i < |log| => log[i].data)
  }

  /** The jobs whose submission was accepted, in order. */
  function Accepted(jobs: seq<seq<U32>>, statuses: seq<Status>): seq<seq<U32>>
    requires |statuses| <= |jobs|
  {
    if statuses == [] then []
    else
      var n := |statuses| - 1;
      Accepted(jobs, statuses[..n]) + if statuses[n] == Ok then [jobs[n]] else []
  }

  lemma AcceptedNext(jobs: seq<seq<U32>>, statuses: seq<Status>)
    requires |statuses| < |jobs|
    ensures forall st :: Accepted(jobs, statuses + [st])
                         == Accepted(jobs, statuses) + if st == Ok then [jobs[|statuses|]] else []
  {
    forall st: Status
      ensures Accepted(jobs, statuses + [st]) == Accepted(jobs, statuses) + if st == Ok then [jobs[|statuses|]] else []
    {
      assert (statuses + [st])[..|statuses|] == statuses;
    }
  }

  function WithoutNoops(s: seq<U32>): seq<U32> {
    if s == [] then []
    else WithoutNoops(s[..|s| - 1]) + if s[|s| - 1] == MI_NOOP then [] else [s[|s| - 1]]
  }

  /** The bytes begin() reserves, in the uint32 arithmetic of the source. */
  function BytesNeeded(dwords: nat): nat {
    (dwords + 2) * 4 % 0x1_0000_0000
  }

  /** begin() writes MI_NOOP from pos to the end of the ring. */
  function NoopFill(mem: seq<U32>, pos: nat): (r: seq<U32>)
    requires pos <= |mem|
    ensures |r| == |mem|
  {
    mem[..pos] + Noops(|mem| - pos)
  }

  // ---------- laws of the layout ----------

  lemma {:induction false} WithoutNoopsConcat(a: seq<U32>, b: seq<U32>)
    ensures WithoutNoops(a + b) == WithoutNoops(a) + WithoutNoops(b)
  {
    if b == [] {
      assert a + b == a;
    } else {
      assert (a + b)[..|a + b| - 1] == a + b[..|b| - 1];
      WithoutNoopsConcat(a, b[..|b| - 1]);
    }
  }

  lemma {:induction false} WithoutNoopsOfNoops(n: nat)
    ensures WithoutNoops(Noops(n)) == []
  {
    if n > 0 {
      assert Noops(n)[..n - 1] == Noops(n - 1);
      WithoutNoopsOfNoops(n - 1);
    }
  }

  lemma WithoutNoopsRender(s: Submission)
    ensures WithoutNoops(Render(s)) == WithoutNoops(s.data)
  {
    WithoutNoopsConcat(Noops(s.lead) + s.data, Noops(s.trail));
    WithoutNoopsConcat(Noops(s.lead), s.data);
    WithoutNoopsOfNoops(s.lead);
    WithoutNoopsOfNoops(s.trail);
    assert [] + WithoutNoops(s.data) + [] == WithoutNoops(s.data);
  }

  /** Between the submitted arrays the stream holds nothing but MI_NOOP. */
  lemma {:induction false} StreamIsCommandsAndNoops(log: seq<Submission>)
    ensures WithoutNoops(Stream(log)) == WithoutNoops(Commands(log))
  {
    if log != [] {
      var init, last := log[..|log| - 1], log[|log| - 1];
      StreamIsCommandsAndNoops(init);
      WithoutNoopsRender(last);
      WithoutNoopsConcat(Stream(init), Render(last));
      WithoutNoopsConcat(Commands(init), last.data);
    }
  }

  /** At any moment of a run the GPU has read a beginning of what was submitted. */
  lemma FetchedCommandsAreAPrefix(log: seq<Submission>, fetched: seq<U32>)
    requires fetched <= Stream(log)
    ensures WithoutNoops(fetched) <= WithoutNoops(Commands(log))
  {
    assert Stream(log) == fetched + Stream(log)[|fetched|..];
    WithoutNoopsConcat(fetched, Stream(log)[|fetched|..]);
    StreamIsCommandsAndNoops(log);
  }

  lemma ArraysSnoc(log: seq<Submission>, s: Submission)
    ensures Arrays(log + [s]) == Arrays(log) + [s.data]
  {
  }

  lemma AppendNext(before: seq<U32>, s: seq<U32>, i: nat)
    requires i <= |s|
    ensures before + s[..0] == before
    ensures if i == |s| then s[..i] == s else before + s[..i] + [s[i]] == before + s[..i + 1]
  {
  }

  lemma NextParity(n: nat, i: nat)
    requires i < n && n % 2 == 0
    ensures Next(n, i) % 2 == 1 - i % 2
  {
    assert i == i / 2 * 2 + i % 2;
  }

  lemma RenderWithTrail(lead: nat, data: seq<U32>)
    ensures Render(Submission(lead, data, 0)) == Noops(lead) + data
    ensures Render(Submission(lead, data, 1)) == Noops(lead) + data + [MI_NOOP]
  {
    assert Noops(1) == [MI_NOOP];
  }

  lemma StreamSnoc(log: seq<Submission>, s: Submission)
    ensures Stream(log + [s]) == Stream(log) + Render(s)
  {
    assert (log + [s])[..|log|] == log;
  }

  // ---------- the conditions of the submission theorem, and why they are the right ones ----------

  /** The fill at the wrap happens before the wait. It leaves the unread part of the ring alone
      exactly when HEAD is not ahead of pos, or what is unread beyond pos is MI_NOOP already. */
  lemma NoopFillKeepsUnreadIff(mem: seq<U32>, head: nat, pos: nat)
    requires head < |mem| && pos < |mem|
    ensures Seg(NoopFill(mem, pos), head, pos) == Seg(mem, head, pos)
            <==> head <= pos || forall k :: head <= k < |mem| ==> mem[k] == MI_NOOP
  {
    var filled := NoopFill(mem, pos);
    assert filled[..pos] == mem[..pos];
    if head > pos {
      assert filled[head..] == Noops(|mem| - head);
      assert Seg(filled, head, pos)[..|mem| - head] == filled[head..];
      assert Seg(mem, head, pos)[..|mem| - head] == mem[head..];
      assert mem[head..] == filled[head..] <==> forall k :: head <= k < |mem| ==> mem[k] == MI_NOOP by {
        assert forall k :: head <= k < |mem| ==> mem[k] == mem[head..][k - head];
      }
    } else {
      assert filled[head..pos] == mem[head..pos];
    }
  }

  /** An array as it is published: with the MI_NOOP that makes its end even. */
  function Aligned(data: seq<U32>): (r: seq<U32>)
    ensures |r| == |data| + |data| % 2
  {
    data + Noops(|data| % 2)
  }

  /** The ring after a wrap at pos, with the aligned array at its start. */
  function AfterWrap(mem: seq<U32>, pos: nat, data: seq<U32>): (r: seq<U32>)
    requires pos <= |mem| && |data| + 2 <= |mem|
    ensures |r| == |mem|
  {
    Aligned(data) + NoopFill(mem, pos)[|Aligned(data)|..]
  }

  /** With the GPU idle at the wrap (HEAD == TAIL == pos), writing an array at the start of the ring
      and publishing its end makes the GPU read the padding and then the array exactly when the
      reservation ends at or before the old position. */
  lemma IdleWrapReadsBackIff(mem: seq<U32>, pos: nat, data: seq<U32>)
    requires 0 < pos < |mem| && pos % 2 == 0 && |mem| % 2 == 0 && |data| + 2 <= |mem|
    ensures Seg(AfterWrap(mem, pos, data), pos, |Aligned(data)|) == Noops(|mem| - pos) + Aligned(data)
            <==> |data| + 2 <= pos
  {
    var all := Aligned(data);
    var written := AfterWrap(mem, pos, data);
    AlignedEnds(|data|, pos);
    if |all| < pos {
      assert written[pos..] == Noops(|mem| - pos);
      assert written[..|all|] == all;
    } else {
      assert |Seg(written, pos, |all|)| < |mem| - pos + |all|;
    }
  }

  lemma AlignedEnds(n: nat, pos: nat)
    requires pos % 2 == 0 && pos > 0
    ensures n + n % 2 < pos <==> n + 2 <= pos
  {
  }

  /** A submission that is lost: the ring is idle at DWORD 600 of 1024 and takes 599 DWORDs. They pass
      the size check, the ring wraps, and the aligned end is 600 again, so HEAD == TAIL still reads as
      idle and the GPU never fetches anything, although the array ends before the old position. */
  lemma IdleWrapLoses(mem: seq<U32>, data: seq<U32>)
    requires |mem| == 1024 && |data| == 599
    ensures BytesNeeded(|data|) <= 4 * |mem| - 64 && 4 * 600 + BytesNeeded(|data|) > 4 * |mem| - 64
    ensures |data| < 600 && |Aligned(data)| == 600
    ensures Seg(AfterWrap(mem, 600, data), 600, |Aligned(data)|) == []
  {
  }

  /** The reservation is the true number of bytes only while it fits 32 bits; a count of 2^30
      passes the size check with a reservation of 8 bytes. */
  lemma BytesNeededExactIff(dwords: nat)
    requires dwords < 0x1_0000_0000
    ensures BytesNeeded(dwords) == (dwords + 2) * 4 <==> dwords < 0x4000_0000 - 2
    ensures BytesNeeded(0x4000_0000) == 8
  {
  }

  // ---------- how HEAD gets ahead of pos ----------

  /** The ring between two submissions, as a value. */
  datatype State = State(mem: seq<U32>, pos: nat, head: nat, tail: nat)

  function Place(mem: seq<U32>, at: nat, data: seq<U32>): (r: seq<U32>)
    requires at + |data| <= |mem|
    ensures |r| == |mem|
  {
    mem[..at] + data + mem[at + |data|..]
  }

  lemma PlaceTwice(mem: seq<U32>, at: nat, a: seq<U32>, b: seq<U32>)
    requires at + |a| + |b| <= |mem|
    ensures Place(Place(mem, at, a), at + |a|, b) == Place(mem, at, a + b)
  {
  }

  lemma PlaceNext(mem: seq<U32>, at: nat, a: seq<U32>, i: nat)
    requires i < |a| && at + |a| <= |mem|
    ensures Place(mem, at, a[..i])[at + i := a[i]] == Place(mem, at, a[..i + 1])
  {
  }

  lemma PlaceNone(mem: seq<U32>, at: nat)
    requires at <= |mem|
    ensures Place(mem, at, []) == mem
  {
  }

  /** The parts of a submission put together: the array, then the MI_NOOP that aligns its end. */
  lemma Composed(s: State, data: seq<U32>, mem: seq<U32>)
    requires Fits(s, data) && mem == if Wraps(s, data) then NoopFill(s.mem, s.pos) else s.mem
    ensures var end := Start(s, data) + |data|;
            && end + 1 < |mem| == |s.mem|
            && AfterSubmit(s, data)
               == State(Place(Place(mem, Start(s, data), data), end, Noops(end % 2)),
                        end + end % 2, s.head, end + end % 2)
  {
    hide Place, NoopFill, Noops, Seg;
    var end := Start(s, data) + |data|;
    PlaceTwice(mem, Start(s, data), data, Noops(end % 2));
  }

  predicate Wraps(s: State, data: seq<U32>) {
    4 * s.pos + (|data| + 2) * 4 > 4 * |s.mem| - 64
  }

  function Start(s: State, data: seq<U32>): nat {
    if Wraps(s, data) then 0 else s.pos
  }

  /** The size check passes without a wrap of its 32 bits. */
  predicate Fits(s: State, data: seq<U32>) {
    s.pos < |s.mem| && (|data| + 2) * 4 <= 4 * |s.mem| - 64
  }

  /** Both waits succeed with HEAD where it is. */
  predicate CanSubmit(s: State, data: seq<U32>) {
    && Fits(s, data)
    && (Wraps(s, data) ==> s.head == s.tail || s.head < s.pos)
    && (s.head == s.tail || s.head < Start(s, data) || Start(s, data) + |data| + 2 <= s.head)
  }

  /** What a successful submission leaves, apart from how far HEAD moved meanwhile. */
  function AfterSubmit(s: State, data: seq<U32>): State
    requires Fits(s, data)
  {
    var mem := if Wraps(s, data) then NoopFill(s.mem, s.pos) else s.mem;
    var start := Start(s, data);
    var all := data + Noops((start + |data|) % 2);
    State(Place(mem, start, all), start + |all|, s.head, start + |all|)
  }

  lemma Submitted(s: State, data: seq<U32>, k: nat)
    requires Fits(s, data) && s.pos % 2 == 0 && |data| % 2 == 0 && k < |s.mem|
    ensures var s', start := AfterSubmit(s, data), Start(s, data);
            && |s'.mem| == |s.mem| && s'.pos == s'.tail == start + |data| < |s.mem| && s'.head == s.head
            && (start <= k < start + |data| ==> s'.mem[k] == data[k - start])
            && (start + |data| <= k && (Wraps(s, data) ==> k < s.pos) ==> s'.mem[k] == s.mem[k])
            && (k < start ==> s'.mem[k] == s.mem[k])
  {
    assert Noops(0) == [];
  }

  /** HEAD moves on. */
  predicate Fetches(s: State, s': State) {
    s' == s.(head := s'.head) && Ring.Forward(s.head, s'.head, s.tail)
  }

  /** A submission of at most half of the usable ring while the GPU stands still. */
  predicate Submits(s: State, data: seq<U32>, s': State) {
    CanSubmit(s, data) && 2 * (|data| + 2) * 4 <= 4 * |s.mem| - 64 && s' == AfterSubmit(s, data)
  }

  /** Reservations of at most half of the ring do not keep HEAD behind pos. From an empty ring of 1024
      DWORDs: three submissions of 300, the GPU reads 890 DWORDs, then 300 (which wraps), 300 and 280.
      TAIL is now at 880, behind HEAD at 890, and a submission of 200 has to wrap: its MI_NOOPs
      overwrite the commands from 890 on, which the GPU has not read. */
  lemma HeadGetsAhead(mem: seq<U32>, a: seq<U32>, b: seq<U32>, c: seq<U32>, d: seq<U32>, e: seq<U32>, f: seq<U32>)
    returns (s1: State, s2: State, s3: State, s4: State, s5: State, s6: State, s7: State)
    requires |mem| == 1024 && |a| == |b| == |c| == |d| == |e| == 300 && |f| == 280 && c[290] != MI_NOOP
    ensures Submits(State(mem, 0, 0, 0), a, s1) && Submits(s1, b, s2) && Submits(s2, c, s3) && Fetches(s3, s4)
    ensures Submits(s4, d, s5) && Submits(s5, e, s6) && Submits(s6, f, s7)
    ensures s7.pos == s7.tail == 880 && s7.head == 890 && |s7.mem| == 1024
    ensures 4 * s7.pos + BytesNeeded(200) > 4 * 1024 - 64
    ensures Seg(NoopFill(s7.mem, 880), 890, 880) != Seg(s7.mem, 890, 880)
  {
    hide Submits, NoopFill, Seg;
    s1, s2, s3 := ThreeSubmissions(State(mem, 0, 0, 0), a, b, c);
    s4 := s3.(head := 890);
    s5, s6, s7 := AroundTheEnd(s4, d, e, f);
    UnreadOverwritten(s7.mem);
  }

  lemma ThreeSubmissions(s0: State, a: seq<U32>, b: seq<U32>, c: seq<U32>) returns (s1: State, s2: State, s3: State)
    requires |s0.mem| == 1024 && s0.pos == s0.head == s0.tail == 0 && |a| == |b| == |c| == 300
    ensures Submits(s0, a, s1) && Submits(s1, b, s2) && Submits(s2, c, s3)
    ensures |s3.mem| == 1024 && s3.pos == s3.tail == 900 && s3.head == 0 && s3.mem[890] == c[290]
  {
    hide AfterSubmit;
    Submitted(s0, a, 890);
    s1 := AfterSubmit(s0, a);
    Submitted(s1, b, 890);
    s2 := AfterSubmit(s1, b);
    Submitted(s2, c, 890);
    s3 := AfterSubmit(s2, c);
  }

  lemma AroundTheEnd(s4: State, d: seq<U32>, e: seq<U32>, f: seq<U32>) returns (s5: State, s6: State, s7: State)
    requires |s4.mem| == 1024 && s4.pos == s4.tail == 900 && s4.head == 890 && |d| == |e| == 300 && |f| == 280
    ensures Submits(s4, d, s5) && Submits(s5, e, s6) && Submits(s6, f, s7)
    ensures |s7.mem| == 1024 && s7.pos == s7.tail == 880 && s7.head == 890 && s7.mem[890] == s4.mem[890]
  {
    hide AfterSubmit;
    Submitted(s4, d, 890);
    s5 := AfterSubmit(s4, d);
    Submitted(s5, e, 890);
    s6 := AfterSubmit(s5, e);
    Submitted(s6, f, 890);
    s7 := AfterSubmit(s6, f);
  }

  lemma UnreadOverwritten(mem: seq<U32>)
    requires |mem| == 1024 && mem[890] != MI_NOOP
    ensures Seg(NoopFill(mem, 880), 890, 880) != Seg(mem, 890, 880)
  {
    NoopFillKeepsUnreadIff(mem, 890, 880);
  }

  // ---------- one GPU fetch, on values ----------

  lemma FetchedEntry(mem: seq<U32>, head: nat, tail: nat, pos: nat, pending: seq<U32>)
    requires head < |mem| && tail < |mem| && pos < |mem| && head != tail
    ensures Seg(mem, head, tail) == [mem[head]] + Seg(mem, Next(|mem|, head), tail)
    ensures Seg(mem, head, pos) == Seg(mem, head, tail) + pending
            ==> Seg(mem, Next(|mem|, head), pos) == Seg(mem, Next(|mem|, head), tail) + pending
  {
    SegPop(mem, head, tail);
    if Seg(mem, head, pos) == Seg(mem, head, tail) + pending {
      assert |Seg(mem, head, pos)| > 0;
      SegPop(mem, head, pos);
      var rest := Seg(mem, Next(|mem|, head), tail);
      ConsAppend(mem[head], rest, pending);
      ConsInjective(mem[head], Seg(mem, Next(|mem|, head), pos), rest + pending);
    }
  }

  lemma EmittedEntry(mem: seq<U32>, head: nat, tail: nat, pos: nat, pending: seq<U32>, value: U32)
    requires head < |mem| && tail < |mem| && pos < |mem| && |Seg(mem, head, pos)| + 1 < |mem|
    requires Seg(mem, head, pos) == Seg(mem, head, tail) + pending
    ensures Seg(mem[pos := value], head, tail) == Seg(mem, head, tail)
    ensures Seg(mem[pos := value], head, Next(|mem|, pos)) == Seg(mem, head, tail) + (pending + [value])
  {
    SegPush(mem, head, pos, value);
    SegFrame(mem, head, tail, pos, value);
  }

  lemma NoopOutsideUnread(mem: seq<U32>, head: nat, tail: nat, at: nat)
    requires head < |mem| && tail <= at < |mem|
    requires head <= tail || forall k :: head <= k < |mem| ==> mem[k] == MI_NOOP
    ensures Seg(mem[at := MI_NOOP], head, tail) == Seg(mem, head, tail)
  {
    if head > tail && at >= head {
      assert mem[at := MI_NOOP] == mem;
    } else {
      SegFrame(mem, head, tail, at, MI_NOOP);
    }
  }

  lemma NoopsCloseTheRing(mem: seq<U32>, head: nat, tail: nat)
    requires 0 < head <= tail < |mem| && forall k :: tail <= k < |mem| ==> mem[k] == MI_NOOP
    ensures Seg(mem, head, 0) == Seg(mem, head, tail) + Noops(|mem| - tail)
  {
    assert mem[head..] == mem[head..tail] + Noops(|mem| - tail);
  }

  /** All offsets in the ring are multiples of four; they are kept here in DWORDs, and turned into
      bytes (times four) where the source compares bytes. */
  class Ring {
    const base: array<U32>
    var pos: nat
    var emitStart: nat
    var emitCount: nat
    var emitReserved: nat
    // the GPU's registers
    var head: nat
    var tail: nat
    // written since TAIL was last published
    ghost var pending: seq<U32>
    // everything published so far, as DWORDs and as submissions, and what the GPU read of it
    ghost var stream: seq<U32>
    ghost var log: seq<Submission>
    ghost var fetched: seq<U32>

    /** More than the 64-byte margin, at most the 2 MB the HEAD mask covers, and an even number of
        DWORDs. The real size is a power of two, so the source's `& (size - 1)` is `% size`. */
    ghost predicate Geometry() {
      base.Length % 2 == 0 && 32 <= base.Length <= 0x8_0000
    }

    ghost predicate InRing()
      reads this
    {
      Geometry() && head < base.Length && tail < base.Length && pos < base.Length && tail % 2 == 0
    }

    /** What the GPU will fetch before it is idle. */
    ghost function Unread(): seq<U32>
      reads this, base
      requires InRing()
    {
      Seg(base[..], head, tail)
    }

    /** The GPU has read, and will read, what was published and nothing else. */
    ghost predicate Consistent()
      reads this, base
    {
      InRing() && fetched + Unread() == stream
    }

    ghost predicate Recorded()
      reads this`stream, this`log
    {
      stream == Stream(log)
    }

    /** The entries between HEAD and the producer's position. */
    ghost function Occupied(): seq<U32>
      reads this, base
      requires InRing()
    {
      Seg(base[..], head, pos)
    }

    ghost predicate Building()
      reads this, base
    {
      Consistent() && Occupied() == Unread() + pending
    }

    /** A wait that timed out after the wrap leaves pos at 0, TAIL where it was, in the upper half of
        the ring, and MI_NOOP from there to the end. */
    ghost predicate Wrapped()
      reads this, base
    {
      && pos == 0 && 8 * tail > 4 * base.Length - 64 && head <= tail
      && forall k :: tail <= k < base.Length ==> base[k] == MI_NOOP
    }

    /** Between two submissions. */
    ghost predicate Quiet()
      reads this, base
    {
      Consistent() && pending == [] && (pos == tail || Wrapped())
    }

    /** The reservation does not fit before the margin at the end of the ring. */
    predicate WrapNeeded(needed: nat)
      reads this
    {
      4 * pos + needed > 4 * base.Length - 64
    }

    /** The two hypotheses of the theorem, as the producer meets them: no reservation reaches past
        the position before the wrap, and HEAD is not ahead of pos at the wrap unless only MI_NOOP
        is unread there. */
    predicate Safe(dwords: nat)
      reads this, base
    {
      SafeBytes((dwords + 2) * 4)
    }

    predicate SafeBytes(needed: nat)
      reads this, base
    {
      && 0 < needed && (pos != tail ==> needed <= 4 * tail)
      && (pos == tail && WrapNeeded(needed) ==> needed <= 4 * pos && head < base.Length && HeadNotAhead())
    }

    /** The size check refuses this many DWORDs. */
    predicate TooLarge(dwords: nat) {
      BytesNeeded(dwords) > 4 * base.Length - 64
    }

    /** A job that does no harm: a safe one, or one that the size check refuses. */
    predicate Harmless(dwords: nat)
      reads this, base
    {
      Safe(dwords) || TooLarge(dwords)
    }

    /** The ring as a value. */
    ghost function Now(): State
      reads this, base
    {
      State(base[..], pos, head, tail)
    }

    /** A safe reservation is far from the end of 32 bits. */
    lemma SafeIsExact(dwords: nat)
      requires InRing() && Safe(dwords)
      ensures BytesNeeded(dwords) == (dwords + 2) * 4
    {
      assert (dwords + 2) * 4 <= 4 * base.Length;
    }

    constructor (memory: array<U32>, hwTail: nat)
      requires memory.Length % 2 == 0 && 32 <= memory.Length <= 0x8_0000
      requires hwTail % 2 == 0 && hwTail < memory.Length
      ensures Quiet() && base == memory && pos == tail == hwTail && Recorded() && log == [] && fetched == []
    {
      base := memory;
      pos, head, tail := hwTail, hwTail, hwTail;
      emitStart, emitCount, emitReserved := 0, 0, 0;
      pending, fetched, stream, log := [], [], [], [];
    }

    // ---------- the GPU ----------

    /** HEAD only ever moves forward, and never past TAIL. */
    static predicate Forward(from: nat, to: nat, tail: nat) {
      if from <= tail then from <= to <= tail else from <= to || to <= tail
    }

    method GpuFetch()
      requires InRing() && head != tail
      modifies this`head, this`fetched
      ensures InRing() && Forward(old(head), head, tail)
      ensures old(Consistent()) ==> Consistent()
      ensures old(Building()) ==> Building() && |Occupied()| <= old(|Occupied()|)
    {
      FetchedEntry(base[..], head, tail, pos, pending);
      fetched := fetched + [base[head]];
      head := Next(base.Length, head);
    }

    /** The GPU runs for as long as it likes. */
    method GpuRun()
      requires InRing()
      modifies this`head, this`fetched
      ensures InRing() && Forward(old(head), head, tail)
      ensures old(Consistent()) ==> Consistent()
      ensures old(Building()) ==> Building() && |Occupied()| <= old(|Occupied()|)
    {
      var steps: nat := *;
      while steps > 0 && head != tail
        invariant InRing() && Forward(old(head), head, tail)
        invariant old(Consistent()) ==> Consistent()
        invariant old(Building()) ==> Building() && |Occupied()| <= old(|Occupied()|)
        decreases steps
      {
        GpuFetch();
        steps := steps - 1;
      }
    }

    // ---------- the producer ----------

    /** Reads HEAD, then TAIL, while the GPU goes on. */
    method IsIdle() returns (idle: bool)
      requires InRing()
      modifies this`head, this`fetched
      ensures InRing() && Forward(old(head), head, tail)
      ensures old(Consistent()) ==> Consistent()
      ensures idle ==> head == tail
      ensures old(head) == tail ==> idle
      ensures head == old(head) ==> idle == (head == tail)
    {
      GpuRun();
      var h := head;
      GpuRun();
      idle := h == tail;
    }

    /** Polls HEAD, at least once, until it is idle or below wrapStart, or the time is up. */
    method WaitBehind(wrapStart: nat) returns (safe: bool)
      requires InRing()
      modifies this`head, this`fetched
      ensures InRing() && Forward(old(head), head, tail)
      ensures old(Consistent()) ==> Consistent()
      ensures safe && wrapStart == tail ==> head <= tail
      ensures old(head) == tail ==> safe
      ensures head == old(head) ==> safe == (head == tail || head < wrapStart)
    {
      var polls: nat :| 0 < polls;
      ghost var tried := false;
      safe := false;
      while polls > 0 && !safe
        invariant InRing() && Forward(old(head), head, tail)
        invariant old(Consistent()) ==> Consistent()
        invariant safe && wrapStart == tail ==> head <= tail
        invariant !tried ==> 0 < polls && !safe
        invariant tried && head == old(head) ==> safe == (head == tail || head < wrapStart)
        decreases polls
      {
        GpuRun();
        var h := head;
        var idle := IsIdle();
        safe := idle || h < wrapStart;
        polls := polls - 1;
        tried := true;
      }
    }

    /** No part of the reservation can hide behind HEAD: pos is TAIL, or 0 after a wrap whose padding
        the reservation does not reach. */
    ghost predicate ReservesAhead(needed: nat)
      reads this
    {
      pos == tail || (pos == 0 && head <= tail && needed <= 4 * tail)
    }

    /** Polls HEAD, at least once, until it is idle or outside [pos, pos + needed), or the time is up. */
    method WaitOutside(needed: nat) returns (safe: bool)
      requires InRing() && 4 * pos + needed <= 4 * base.Length
      modifies this`head, this`fetched
      ensures InRing() && Forward(old(head), head, tail)
      ensures old(Consistent()) ==> Consistent()
      ensures old(ReservesAhead(needed)) && 0 < needed && safe ==>
                4 * |Occupied()| + needed <= 4 * base.Length && (pos == tail || pos < head)
      ensures old(head) == tail ==> safe
      ensures head == old(head) ==> safe == (head == tail || head < pos || 4 * pos + needed <= 4 * head)
    {
      var polls: nat :| 0 < polls;
      ghost var tried := false;
      safe := false;
      while polls > 0 && !safe
        invariant InRing() && Forward(old(head), head, tail)
        invariant old(Consistent()) ==> Consistent()
        invariant old(ReservesAhead(needed)) && 0 < needed && safe ==>
                    4 * |Occupied()| + needed <= 4 * base.Length && (pos == tail || pos < head)
        invariant !tried ==> 0 < polls && !safe
        invariant tried && head == old(head) ==>
                    safe == (head == tail || head < pos || 4 * pos + needed <= 4 * head)
        decreases polls
      {
        GpuRun();
        var h := head;
        var idle := IsIdle();
        safe := idle || 4 * h < 4 * pos || 4 * pos + needed <= 4 * h;
        polls := polls - 1;
        tried := true;
      }
    }

    /** HEAD is not ahead of pos, or only MI_NOOP is unread there. */
    predicate HeadNotAhead()
      reads this, base
      requires head < base.Length
    {
      head <= pos || forall k :: head <= k < base.Length ==> base[k] == MI_NOOP
    }

    /** Overwriting from pos to the end of the ring does the unread part no harm. */
    ghost predicate FillIsSafe()
      reads this, base
    {
      Consistent() && pos == tail && HeadNotAhead()
    }

    method WriteNoop(at: nat)
      requires InRing() && pos <= at < base.Length
      modifies base
      ensures InRing() && base[at] == MI_NOOP
      ensures forall k :: 0 <= k < base.Length && k != at ==> base[k] == old(base[k])
      ensures old(FillIsSafe()) ==> FillIsSafe()
    {
      if FillIsSafe() {
        NoopOutsideUnread(base[..], head, tail, at);
      }
      base[at] := MI_NOOP;
    }

    /** Writes MI_NOOP from pos to the end of the ring while the GPU goes on reading. */
    method FillWithNoops()
      requires InRing()
      modifies this`head, this`fetched, base
      ensures InRing() && Forward(old(head), head, tail)
      ensures forall k :: pos <= k < base.Length ==> base[k] == MI_NOOP
      ensures forall k :: 0 <= k < pos ==> base[k] == old(base[k])
      ensures base[..] == NoopFill(old(base[..]), pos)
      ensures old(FillIsSafe()) ==> FillIsSafe()
    {
      var wrapStart := pos;
      var count := base.Length - pos;
      for i := 0 to count
        invariant InRing() && Forward(old(head), head, tail)
        invariant forall k :: pos <= k < pos + i ==> base[k] == MI_NOOP
        invariant forall k :: 0 <= k < pos ==> base[k] == old(base[k])
        invariant old(FillIsSafe()) ==> FillIsSafe()
      {
        GpuRun();
        WriteNoop(wrapStart + i);
      }
    }

    /** After a wrap, the padding is what lies between TAIL and the new position. */
    lemma PaddingIsPending()
      requires InRing() && Wrapped() && 0 < head
      ensures Occupied() == Unread() + Noops(base.Length - tail)
    {
      NoopsCloseTheRing(base[..], head, tail);
    }

    /** Pads the ring to its end, waits until HEAD is behind the padding, and goes to the start. */
    method WrapToStart() returns (wrapped: bool)
      requires InRing()
      modifies this`pos, this`head, this`fetched, base
      ensures InRing() && Forward(old(head), head, tail) && pos == if wrapped then 0 else old(pos)
      ensures base[..] == NoopFill(old(base[..]), old(pos))
      ensures old(head) == tail ==> wrapped
      ensures head == old(head) ==> wrapped == (head == tail || head < old(pos))
      ensures old(Quiet() && 8 * pos > 4 * base.Length - 64 && FillIsSafe()) ==> Quiet() && (wrapped ==> Wrapped())
    {
      var wrapStart := pos;
      FillWithNoops();
      wrapped := WaitBehind(wrapStart);
      if wrapped {
        pos := 0;
      }
    }

    /** Reserves room for the given number of DWORDs, wrapping when they do not fit before the end
        of the ring. Too large is what exceeds the margin in 32-bit bytes. */
    method Begin(dwords: U32) returns (status: Status)
      requires InRing()
      modifies this`pos, this`emitStart, this`emitCount, this`emitReserved, this`pending,
               this`head, this`fetched, base
      ensures InRing()
      ensures status == NoMemory <==> TooLarge(dwords)
      ensures status == NoMemory ==> unchanged(this) && unchanged(base)
      ensures pos == old(pos) || (pos == 0 && old(WrapNeeded(BytesNeeded(dwords))))
      ensures status == Ok || status == NoMemory || status == TimedOut
      ensures status == Ok ==> emitStart == pos && emitCount == 0 && emitReserved == dwords
      ensures Forward(old(head), head, tail)
      ensures status == Ok ==>
                var wraps := old(WrapNeeded(BytesNeeded(dwords)));
                && pos == (if wraps then 0 else old(pos))
                && base[..] == (if wraps then NoopFill(old(base[..]), old(pos)) else old(base[..]))
      ensures old(head) == tail ==> status != TimedOut
      ensures head == old(head) && status != NoMemory ==>
                var wraps := old(WrapNeeded(BytesNeeded(dwords)));
                var start := if wraps then 0 else old(pos);
                status == Ok <==>
                && (wraps ==> head == tail || head < old(pos))
                && (head == tail || head < start || 4 * start + BytesNeeded(dwords) <= 4 * head)
      ensures old(Quiet() && Safe(dwords)) ==>
                && Consistent() && (status != Ok ==> Quiet()) && (pos == old(pos) || old(pos) == tail)
      ensures old(Quiet() && Safe(dwords)) && status == Ok ==>
                && Building() && pending == Noops(if pos == tail then 0 else base.Length - tail)
                && |Occupied()| + dwords + 2 <= base.Length && pos % 2 == 0
    {
      hide Noops, NoopFill, BytesNeeded, Building, Consistent, Unread;
      var needed := BytesNeeded(dwords);
      if needed > 4 * base.Length - 64 {
        return NoMemory;
      }
      if Quiet() && Safe(dwords) {
        SafeIsExact(dwords);
      }
      var room := MakeRoom(needed);
      if !room {
        return TimedOut;
      }
      Reserve(dwords);
      return Ok;
    }

    /** Wraps if need be, and waits until the reservation is free. */
    method MakeRoom(needed: nat) returns (room: bool)
      requires InRing() && needed <= 4 * base.Length - 64
      modifies this`pos, this`head, this`fetched, base
      ensures InRing() && (pos == old(pos) || (pos == 0 && old(WrapNeeded(needed))))
      ensures Forward(old(head), head, tail)
      ensures room ==>
                && pos == (if old(WrapNeeded(needed)) then 0 else old(pos))
                && base[..] == if old(WrapNeeded(needed)) then NoopFill(old(base[..]), old(pos)) else old(base[..])
      ensures old(head) == tail ==> room
      ensures head == old(head) ==>
                var start := if old(WrapNeeded(needed)) then 0 else old(pos);
                room == (&& (old(WrapNeeded(needed)) ==> head == tail || head < old(pos))
                         && (head == tail || head < start || 4 * start + needed <= 4 * head))
      ensures old(Quiet() && SafeBytes(needed)) ==> Quiet() && (pos == old(pos) || old(pos) == tail)
      ensures old(Quiet() && SafeBytes(needed)) && room ==>
                4 * |Occupied()| + needed <= 4 * base.Length && (pos == tail || pos < head) && pos % 2 == 0
    {
      if 4 * pos + needed > 4 * base.Length - 64 {
        room := WrapToStart();
        if !room {
          return;
        }
      }
      room := WaitOutside(needed);
    }

    /** The reservation of a successful wait. */
    method Reserve(dwords: nat)
      requires InRing()
      modifies this`emitStart, this`emitCount, this`emitReserved, this`pending
      ensures InRing() && emitStart == pos && emitCount == 0 && emitReserved == dwords
      ensures old(Quiet() && (pos == tail || pos < head)) ==>
                Building() && pending == Noops(if pos == tail then 0 else base.Length - tail)
    {
      if Quiet() && (pos == tail || pos < head) {
        if pos != tail {
          PaddingIsPending();
        }
        assert Noops(0) == [];
      }
      pending := Noops(if pos == tail then 0 else base.Length - tail);
      emitStart := pos;
      emitCount := 0;
      emitReserved := dwords;
    }

    method Emit(value: U32)
      requires InRing()
      modifies this`pos, this`emitCount, this`pending, this`head, this`fetched, base
      ensures InRing() && Forward(old(head), head, tail)
      ensures pos == Next(base.Length, old(pos)) && emitCount == old(emitCount) + 1
      ensures base[..] == old(base[..])[old(pos) := value]
      ensures pending == old(pending) + [value]
      ensures old(Building() && |Occupied()| + 1 < base.Length) ==>
                Building() && |Occupied()| <= old(|Occupied()|) + 1
    {
      ghost var safe := Building() && |Occupied()| + 1 < base.Length;
      GpuRun();
      if safe {
        EmittedEntry(base[..], head, tail, pos, pending, value);
      }
      base[pos] := value;
      pos := Next(base.Length, pos);
      pending := pending + [value];
      emitCount := emitCount + 1;
    }

    /** What was written since the last publication is padding and an array, with room to align it. */
    ghost predicate Written(lead: nat, data: seq<U32>)
      reads this, base
    {
      Building() && Recorded() && pending == Noops(lead) + data && |Occupied()| + 1 < base.Length
    }

    /** Aligns and publishes TAIL. The write goes through the kernel, which may refuse it. */
    method Advance(ghost lead: nat, ghost data: seq<U32>, accepted: bool) returns (status: Status)
      requires InRing()
      modifies this`pos, this`emitCount, this`pending, this`head, this`tail, this`fetched, this`stream,
               this`log, base
      ensures InRing() && pos % 2 == 0 && status == if accepted then Ok else IoError
      ensures status != Ok ==> log == old(log) && stream == old(stream) && tail == old(tail)
      ensures status == Ok ==>
                pos == tail && exists trail :: log == old(log) + [Submission(lead, data, trail)] && trail <= 1
      ensures Forward(old(head), head, old(tail))
      ensures old(pos) + 1 < base.Length ==>
                && pos == old(pos) + old(pos) % 2
                && base[..] == Place(old(base[..]), old(pos), Noops(old(pos) % 2))
      ensures old(Written(lead, data)) ==> Consistent() && Recorded()
      ensures old(Written(lead, data)) && status == Ok ==> Quiet() && (lead + |data| > 0 ==> head != tail)
    {
      ghost var trail := Align(lead, data);
      GpuRun();
      if !accepted {
        return IoError;
      }
      Publish(Submission(lead, data, trail));
      return Ok;
    }

    method Align(ghost lead: nat, ghost data: seq<U32>) returns (ghost trail: nat)
      requires InRing()
      modifies this`pos, this`emitCount, this`pending, this`head, this`fetched, base
      ensures InRing() && pos % 2 == 0 && trail <= 1
      ensures Forward(old(head), head, tail)
      ensures old(pos) + 1 < base.Length ==>
                && pos == old(pos) + old(pos) % 2
                && base[..] == Place(old(base[..]), old(pos), Noops(old(pos) % 2))
      ensures old(Written(lead, data)) ==> Ready(Submission(lead, data, trail))
    {
      trail := 0;
      RenderWithTrail(lead, data);
      assert Noops(0) == [] && Noops(1) == [MI_NOOP];
      if pos % 2 != 0 {
        NextParity(base.Length, pos);
          Emit(0);
        trail := 1;
      }
    }

    /** What was written since the last publication is one submission. */
    ghost predicate Ready(s: Submission)
      reads this, base
    {
      Building() && Recorded() && pending == Render(s)
    }

    method Publish(ghost s: Submission)
      requires InRing() && pos % 2 == 0
      modifies this`tail, this`stream, this`log, this`pending
      ensures InRing() && pos == tail && log == old(log) + [s]
      ensures old(Ready(s)) ==> Quiet() && Recorded() && (|Render(s)| > 0 ==> head != tail)
    {
      StreamSnoc(log, s);
      assert Building() ==> fetched + Occupied() == fetched + Unread() + pending;
      tail := pos;
      stream := stream + pending;
      log := log + [s];
      pending := [];
    }

    method EmitAll(dwords: seq<U32>)
      requires InRing()
      modifies this`pos, this`emitCount, this`pending, this`head, this`fetched, base
      ensures InRing() && pending == old(pending) + dwords && emitCount == old(emitCount) + |dwords|
      ensures Forward(old(head), head, tail)
      ensures old(pos) + |dwords| < base.Length ==>
                pos == old(pos) + |dwords| && base[..] == Place(old(base[..]), old(pos), dwords)
      ensures old(Building() && |Occupied()| + |dwords| + 2 <= base.Length) ==>
                Building() && |Occupied()| + 2 <= base.Length
    {
      hide Place, Building, Occupied, Noops;
      AppendNext(pending, dwords, 0);
      assert dwords[..0] == [] && dwords[..|dwords|] == dwords;
      PlaceNone(base[..], pos);
      for i := 0 to |dwords|
        invariant InRing() && pending == old(pending) + dwords[..i] && emitCount == old(emitCount) + i
        invariant old(Building() && |Occupied()| + |dwords| + 2 <= base.Length) ==>
                    Building() && |Occupied()| + (|dwords| - i) + 2 <= base.Length
        invariant Forward(old(head), head, tail)
        invariant old(pos) + |dwords| < base.Length ==>
                    pos == old(pos) + i && base[..] == Place(old(base[..]), old(pos), dwords[..i])
      {
        AppendNext(old(pending), dwords, i);
        if old(pos) + |dwords| < base.Length {
          PlaceNext(old(base[..]), old(pos), dwords, i);
        }
        Emit(dwords[i]);
      }
      AppendNext(old(pending), dwords, |dwords|);
    }

    /** Submits a prepared array. Whatever the GPU does meanwhile, from a safe state the log grows by
        exactly this array, preceded by the padding of a wrap and followed by at most one MI_NOOP, and
        TAIL is never equal to HEAD after a non-empty submission. TAIL is always QWORD aligned. */
    method Submit(dwords: seq<U32>, accepted: bool) returns (status: Status)
      requires InRing() && |dwords| < 0x1_0000_0000
      modifies this, base
      ensures InRing()
      ensures status == NoMemory <==> TooLarge(|dwords|)
      ensures status == NoMemory ==> unchanged(this) && unchanged(base)
      ensures (status == Ok ==> accepted) && (status == IoError ==> !accepted)
      ensures old(head == tail) ==> status != TimedOut
      ensures Forward(old(head), head, old(tail))
      ensures status != Ok ==> log == old(log) && stream == old(stream) && tail == old(tail)
      ensures status != Ok && status != IoError ==>
                pos == old(pos) || (pos == 0 && old(WrapNeeded(BytesNeeded(|dwords|))))
      ensures status == Ok ==>
                && pos == tail && tail % 2 == 0 && tail < base.Length
                && (Logged(old(log), log, 0, dwords) || Logged(old(log), log, base.Length - old(tail), dwords))
      ensures status == Ok && old(Fits(Now(), dwords)) ==>
                Now() == old(AfterSubmit(Now(), dwords)).(head := head)
      ensures head == old(head) && old(Fits(Now(), dwords)) ==>
                (status == TimedOut <==> !old(CanSubmit(Now(), dwords)))
      ensures old(Quiet() && Recorded() && Safe(|dwords|)) ==>
                && Consistent() && Recorded() && (status != IoError ==> Quiet())
                && (status != Ok && status != IoError ==> pos == old(pos) || old(pos) == tail)
                && (status == Ok && dwords != [] ==> head != tail)
    {
      hide AfterSubmit, Place, Noops, NoopFill, Building, Occupied, Consistent, Unread, Quiet, SafeBytes, Logged,
           Recorded, Fits, Wraps, Start, CanSubmit, BytesNeeded, Forward, TooLarge, WrapNeeded, Safe, Reserved;
      if Fits(Now(), dwords) {
        FitsMeans(dwords);
      }
      status := Begin(|dwords|);
      if status != Ok {
        return;
      }
      ghost var seenHead := head;
      if old(Quiet() && Recorded() && Safe(|dwords|)) {
        BeginReserves(dwords);
      }
      if old(Fits(Now(), dwords)) {
        Composed(old(Now()), dwords, base[..]);
      }
      status := Write(dwords, accepted);
      ForwardTwice(old(head), seenHead, head, old(tail));
    }

    lemma BeginReserves(dwords: seq<U32>)
      requires Building() && Recorded() && pending == Noops(if pos == tail then 0 else base.Length - tail)
      requires |Occupied()| + |dwords| + 2 <= base.Length
      ensures Reserved(dwords)
    {
    }

    static lemma ForwardTwice(a: nat, b: nat, c: nat, tail: nat)
      requires Forward(a, b, tail) && Forward(b, c, tail)
      ensures Forward(a, c, tail) && (c == a ==> b == a)
    {
    }

    /** The conditions of the value model are those that Begin tests. */
    lemma FitsMeans(dwords: seq<U32>)
      requires InRing() && Fits(Now(), dwords)
      ensures BytesNeeded(|dwords|) == (|dwords| + 2) * 4 && !TooLarge(|dwords|)
      ensures Wraps(Now(), dwords) <==> WrapNeeded(BytesNeeded(|dwords|))
      ensures Start(Now(), dwords) == if WrapNeeded(BytesNeeded(|dwords|)) then 0 else pos
      ensures CanSubmit(Now(), dwords) <==>
              && (WrapNeeded(BytesNeeded(|dwords|)) ==> head == tail || head < pos)
              && (head == tail || head < Start(Now(), dwords)
                  || 4 * Start(Now(), dwords) + BytesNeeded(|dwords|) <= 4 * head)
    {
    }

    /** Emits a whole array behind a successful Begin, and publishes it. */
    method Write(dwords: seq<U32>, accepted: bool) returns (status: Status)
      requires InRing()
      modifies this`pos, this`emitCount, this`pending, this`head, this`tail, this`fetched, this`stream,
               this`log, base
      ensures InRing() && Forward(old(head), head, old(tail)) && status == if accepted then Ok else IoError
      ensures status != Ok ==> log == old(log) && stream == old(stream) && tail == old(tail)
      ensures status == Ok ==> pos == tail && Logged(old(log), log, Lead(old(pos), old(tail)), dwords)
      ensures var end := old(pos) + |dwords|;
              end + 1 < base.Length ==>
                && pos == end + end % 2
                && base[..] == Place(Place(old(base[..]), old(pos), dwords), end, Noops(end % 2))
      ensures old(Reserved(dwords)) ==> Consistent() && Recorded()
      ensures old(Reserved(dwords)) && status == Ok ==> Quiet() && (dwords != [] ==> head != tail)
    {
      hide Place, Consistent, Unread, Noops, Occupied;
      ghost var lead := Lead(pos, tail);
      EmitAll(dwords);
      status := Advance(lead, dwords, accepted);
    }

    /** The padding that a wrap leaves pending. */
    ghost function Lead(at: nat, tail: nat): nat
    {
      if at == tail || base.Length < tail then 0 else base.Length - tail
    }

    static ghost predicate Logged(before: seq<Submission>, after: seq<Submission>, lead: nat, data: seq<U32>) {
      exists trail :: after == before + [Submission(lead, data, trail)] && trail <= 1
    }

    /** What a successful Begin leaves in a safe state. */
    ghost predicate Reserved(dwords: seq<U32>)
      reads this, base
    {
      && Building() && Recorded() && pending == Noops(Lead(pos, tail))
      && |Occupied()| + |dwords| + 2 <= base.Length
    }

    /** Polls until HEAD meets TAIL. Then the GPU has fetched the whole stream. */
    method WaitIdle(polls: nat) returns (idle: bool)
      requires InRing()
      modifies this`head, this`fetched
      ensures InRing() && Forward(old(head), head, tail) && (idle ==> head == tail)
      ensures 0 < polls && head == old(head) ==> idle == (head == tail)
      ensures old(Consistent() && Recorded()) ==> Consistent() && (idle ==> fetched == Stream(log))
    {
      idle := false;
      var left := polls;
      while left > 0 && !idle
        invariant InRing() && Forward(old(head), head, tail) && (idle ==> head == tail) && left <= polls
        invariant left < polls && head == old(head) ==> idle == (head == tail)
        invariant left == polls ==> !idle
        invariant old(Consistent()) ==> Consistent()
        decreases left
      {
        idle := IsIdle();
        left := left - 1;
      }
    }

    /** A whole run: jobs are submitted one after the other while the GPU runs freely; those that are too
        large or time out are skipped. It ends early only when the kernel refuses a TAIL, or before a job
        that is neither refused for its size nor safe; such a job takes more than half of the usable ring,
        or HEAD is ahead of pos at a wrap. However it ends, the accepted jobs are delivered in order, with
        only MI_NOOP between them. */
    method Run(jobs: seq<seq<U32>>) returns (statuses: seq<Status>)
      requires Quiet() && Recorded() && pos == tail && log == [] && fetched == []
      requires forall j :: 0 <= j < |jobs| ==> |jobs[j]| < 0x1_0000_0000
      modifies this, base
      ensures InRing() && |statuses| <= |jobs| && Arrays(log) == Accepted(jobs, statuses)
      ensures fetched <= Stream(log) && (head == tail ==> fetched == Stream(log))
      ensures forall j :: 0 <= j < |statuses| ==> (statuses[j] == NoMemory <==> TooLarge(|jobs[j]|))
      ensures TimedOutBehindOk(statuses)
      ensures |statuses| < |jobs| ==> Refused(statuses) || Harmful(|jobs[|statuses|]|)
    {
      statuses := [];
      hide Quiet, Recorded, Consistent, Harmless, HeadNotAhead, AtMostHalf, Arrays, Accepted, TooLarge,
           TimedOutBehindOk;
      RunStarts(jobs);
      Delivered();
      while |statuses| < |jobs|
        invariant InRing() && Quiet() && Recorded() && |statuses| <= |jobs|
        invariant Arrays(log) == Accepted(jobs, statuses)
        invariant forall j :: 0 <= j < |statuses| ==> (statuses[j] == NoMemory <==> TooLarge(|jobs[j]|))
        invariant TimedOutBehindOk(statuses) && (Ok in statuses || head == tail)
        invariant fetched <= Stream(log) && (head == tail ==> fetched == Stream(log))
        decreases |jobs| - |statuses|
      {
        GpuRunsOn();
        var job := jobs[|statuses|];
        if !Harmless(|job|) {
          HalfIsHarmless(|job|);
          return;
        }
        AcceptedNext(jobs, statuses);
        var accepted: bool := *;
        var status := RunJob(job, accepted);
        TimedOutNext(statuses, status);
        statuses := statuses + [status];
        Delivered();
        if status == IoError {
          return;
        }
      }
    }

    /** Only a job behind an accepted one may time out; before, the GPU is idle. */
    static predicate TimedOutBehindOk(statuses: seq<Status>) {
      forall j :: 0 <= j < |statuses| && statuses[j] == TimedOut ==> Ok in statuses[..j]
    }

    static lemma TimedOutNext(statuses: seq<Status>, status: Status)
      requires TimedOutBehindOk(statuses) && (status == TimedOut ==> Ok in statuses)
      ensures TimedOutBehindOk(statuses + [status])
    {
      var all := statuses + [status];
      forall j | 0 <= j < |all| && all[j] == TimedOut
        ensures Ok in all[..j]
      {
        assert j < |statuses| ==> all[..j] == statuses[..j];
        assert all[..|statuses|] == statuses;
      }
    }

    lemma RunStarts(jobs: seq<seq<U32>>)
      requires Quiet() && Recorded() && log == []
      ensures InRing() && Consistent() && Arrays(log) == Accepted(jobs, [])
      ensures TimedOutBehindOk([]) && head == tail
    {
      assert Unread() == [];
    }

    /** What the GPU has read is a beginning of what was submitted, and all of it when it is idle. */
    lemma Delivered()
      requires Consistent() && Recorded()
      ensures fetched <= Stream(log) && (head == tail ==> fetched == Stream(log))
    {
    }

    /** The GPU runs between two submissions. */
    method GpuRunsOn()
      requires Quiet() && Recorded()
      modifies this`head, this`fetched
      ensures InRing() && Quiet() && Recorded() && Consistent() && (old(head) == tail ==> head == tail)
      ensures fetched <= Stream(log) && (head == tail ==> fetched == Stream(log))
    {
      GpuRun();
      Delivered();
    }

    /** The kernel refused the last TAIL. */
    static predicate Refused(statuses: seq<Status>) {
      statuses != [] && statuses[|statuses| - 1] == IoError
    }

    /** Submitting now would do harm, and why. */
    predicate Harmful(dwords: nat)
      reads this, base
      requires head < base.Length
    {
      !Harmless(dwords) && (AtMostHalf(dwords) ==> pos == tail && WrapNeeded((dwords + 2) * 4) && !HeadNotAhead())
    }

    lemma HalfIsHarmless(dwords: nat)
      requires Quiet() && !Harmless(dwords)
      ensures Harmful(dwords)
    {
    }

    method RunJob(job: seq<U32>, accepted: bool) returns (status: Status)
      requires Quiet() && Recorded() && Harmless(|job|) && |job| < 0x1_0000_0000
      modifies this, base
      ensures InRing() && Consistent() && Recorded() && (status != IoError ==> Quiet())
      ensures Arrays(log) == Arrays(old(log)) + if status == Ok then [job] else []
      ensures status == NoMemory <==> TooLarge(|job|)
      ensures (status == Ok ==> accepted) && (status == IoError ==> !accepted)
      ensures old(head == tail) ==> status != TimedOut && (status != Ok ==> head == tail)
    {
      ghost var logBefore := log;
      status := Submit(job, accepted);
      if status == Ok {
        ArraysSnoc(logBefore, log[|logBefore|]);
      }
    }

    /** A reservation of at most half of the usable ring. */
    predicate AtMostHalf(dwords: nat) {
      2 * (dwords + 2) * 4 <= 4 * base.Length - 64
    }
  }
}
