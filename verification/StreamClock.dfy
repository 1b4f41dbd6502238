/** The clock of an HDA stream: how many frames went by, from a byte position that runs cyclically
    through buffers whose size is rounded up to 128 bytes. */
module StreamClock {
  import opened Common

  /** A stream's buffers: number, frames and bytes of one buffer, bytes of one frame. */
  datatype Layout = Layout(numBuffers: nat, bufferLength: nat, bufferSize: nat, frameSize: nat) {
    /** The bytes of a buffer hold its frames, plus padding; the positions fit 32 bits. */
    predicate Valid() {
      && 0 < numBuffers && 0 < bufferLength && 0 < frameSize && bufferLength * frameSize <= bufferSize
      && numBuffers * bufferSize < 0x8000_0000
    }

    function CycleBytes(): nat { numBuffers * bufferSize }

    function CycleFrames(): nat { numBuffers * bufferLength }
  }

  /** Where frame k ends in the endless byte stream, the padding of each buffer included. */
  function FrameEnd(l: Layout, k: nat): int
    requires l.Valid()
  {
    k / l.bufferLength * l.bufferSize + (k % l.bufferLength + 1) * l.frameSize
  }

  /** The frames complete after the given number of bytes; in the padding no frame is added. */
  function Frames(l: Layout, bytes: nat): nat
    requires l.Valid()
  {
    Quotient(bytes, l.bufferSize) * l.bufferLength + Min(bytes % l.bufferSize / l.frameSize, l.bufferLength)
  }

  function Quotient(x: nat, d: nat): nat
    requires 0 < d
  {
    x / d
  }

  function Min(a: nat, b: nat): nat {
    if a < b then a else b
  }

  // ---------- arithmetic ----------

  lemma DivBound(m: nat, x: nat, d: nat)
    requires 0 < d
    ensures m <= x / d <==> m * d <= x
  {
    assert x == x / d * d + x % d;
    if m <= x / d {
      MulMonotone(m, x / d, d);
    } else {
      MulGap(x / d, m, d);
    }
  }

  lemma MulNested(c: nat, n: nat, b: nat, q: nat)
    ensures (c * n + q) * b == c * (n * b) + q * b
  {
    assert (c * n + q) * b == c * n * b + q * b;
    assert c * n * b == c * (n * b);
  }

  // ---------- what Frames counts ----------

  /** Frames counts exactly the frames that end within the bytes. */
  lemma FramesCountsFrameEnds(l: Layout, bytes: nat, k: nat)
    requires l.Valid()
    ensures k < Frames(l, bytes) <==> FrameEnd(l, k) <= bytes
  {
    DivModOf(bytes, l.bufferSize);
    DivModOf(bytes % l.bufferSize, l.frameSize);
    DivModOf(k, l.bufferLength);
    FrameInBuffer(l, bytes / l.bufferSize, bytes % l.bufferSize, k / l.bufferLength, k % l.bufferLength);
  }

  /** The same for byte r of buffer q and frame kr of buffer kq. */
  lemma FrameInBuffer(l: Layout, q: nat, r: nat, kq: nat, kr: nat)
    requires l.Valid() && r < l.bufferSize && kr < l.bufferLength
    ensures kq * l.bufferLength + kr < q * l.bufferLength + Min(r / l.frameSize, l.bufferLength)
            <==> kq * l.bufferSize + (kr + 1) * l.frameSize <= q * l.bufferSize + r
  {
    DivModOf(r, l.frameSize);
    MulMonotone(kr + 1, l.bufferLength, l.frameSize);
    MulMonotone(1, kr + 1, l.frameSize);
    if kq < q {
      MulGap(kq, q, l.bufferSize);
      MulGap(kq, q, l.bufferLength);
    } else if kq > q {
      MulGap(q, kq, l.bufferSize);
      MulGap(q, kq, l.bufferLength);
    } else {
      DivBound(kr + 1, r, l.frameSize);
    }
  }

  /** A whole cycle of bytes adds a whole cycle of frames. */
  lemma FramesPerCycle(l: Layout, bytes: nat)
    requires l.Valid()
    ensures Frames(l, bytes)
            == bytes / l.CycleBytes() * l.CycleFrames() + Frames(l, bytes % l.CycleBytes())
  {
    CyclePositive(l);
    var c, x := bytes / l.CycleBytes(), bytes % l.CycleBytes();
    var q, r := x / l.bufferSize, x % l.bufferSize;
    DivModOf(bytes, l.CycleBytes());
    DivModOf(x, l.bufferSize);
    MulNested(c, l.numBuffers, l.bufferSize, q);
    MulNested(c, l.numBuffers, l.bufferLength, q);
    DivModUnique(bytes, l.bufferSize, c * l.numBuffers + q, r);
  }

  lemma CyclePositive(l: Layout)
    requires l.Valid()
    ensures 0 < l.bufferSize <= l.CycleBytes() && 0 < l.CycleFrames()
  {
    MulMonotone(1, l.numBuffers, l.bufferSize);
    MulMonotone(1, l.numBuffers, l.bufferLength);
    MulMonotone(1, l.bufferLength, l.frameSize);
  }

  /** Within one cycle at most its frames are counted. */
  lemma FramesWithinCycle(l: Layout, x: nat)
    requires l.Valid() && x < l.CycleBytes()
    ensures Frames(l, x) <= l.CycleFrames()
    ensures x / l.bufferSize < l.numBuffers
  {
    assert x == x / l.bufferSize * l.bufferSize + x % l.bufferSize;
    if x / l.bufferSize >= l.numBuffers {
      MulMonotone(l.numBuffers, x / l.bufferSize, l.bufferSize);
    }
    MulGap(x / l.bufferSize, l.numBuffers, l.bufferLength);
  }

  /** The number of frames fits 31 bits like the number of bytes. */
  lemma CycleFramesFit(l: Layout)
    requires l.Valid()
    ensures l.CycleFrames() <= l.CycleBytes()
  {
    assert l.bufferLength <= l.bufferLength * l.frameSize;
    MulMonotone(l.bufferLength, l.bufferSize, l.numBuffers);
  }

  // ---------- the step between two interrupts ----------

  /** The frames an interrupt adds, from the previous and the current frame position in the cycle. */
  function Processed(l: Layout, last: nat, current: nat): int {
    if current < last then current - last + l.CycleFrames() else current - last
  }

  /** The interrupt adds what really went by exactly when that is less than a cycle; a full cycle is
      also counted when it went from the very start of the buffers to their very end. */
  lemma ProcessedIsGapIff(l: Layout, before: nat, after: nat)
    requires l.Valid() && before <= after
    ensures l.CycleBytes() > 0
    ensures var last := Frames(l, before % l.CycleBytes());
            var current := Frames(l, after % l.CycleBytes());
            var gap := Frames(l, after) - Frames(l, before);
            Processed(l, last, current) == gap
            <==> gap < l.CycleFrames() || (gap == l.CycleFrames() && last == 0 && current == l.CycleFrames())
  {
    CyclePositive(l);
    var n, t := l.CycleBytes(), l.CycleFrames();
    var c, c' := before / n, after / n;
    var last, current := Frames(l, before % n), Frames(l, after % n);
    FramesPerCycle(l, before);
    FramesPerCycle(l, after);
    FramesWithinCycle(l, before % n);
    FramesWithinCycle(l, after % n);
    DivModOf(before, n);
    DivModOf(after, n);
    if c' < c {
      MulGap(c', c, n);
    } else if c == c' {
      FramesMonotone(l, before % n, after % n);
    }
    GapCases(c, c', t, last, current);
  }

  /** A gap of whole cycles plus a difference of positions. */
  lemma GapCases(c: nat, c': nat, t: nat, last: nat, current: nat)
    requires c <= c' && last <= t && current <= t && 0 < t && (c == c' ==> last <= current)
    ensures var gap := c' * t + current - (c * t + last);
            (if current < last then current - last + t else current - last) == gap
            <==> gap < t || (gap == t && last == 0 && current == t)
  {
    if c' == c + 1 {
      OneMore(c', t);
    } else if c + 2 <= c' {
      MulMonotone(c + 2, c', t);
      OneMore(c + 2, t);
      OneMore(c + 1, t);
    }
  }

  lemma FramesMonotone(l: Layout, a: nat, b: nat)
    requires l.Valid() && a <= b
    ensures Frames(l, a) <= Frames(l, b)
  {
    if Frames(l, b) < Frames(l, a) {
      FramesCountsFrameEnds(l, a, Frames(l, b));
      FramesCountsFrameEnds(l, b, Frames(l, b));
    }
  }

  /** The buffer the hardware is about to use: the one that starts nearest to the position. */
  function BufferIndex(l: Layout, position: nat): nat
    requires l.Valid()
  {
    (position + l.bufferSize / 2) / l.bufferSize % l.numBuffers
  }

  lemma BufferIndexIsNearest(l: Layout, q: nat, r: nat)
    requires l.Valid() && r < l.bufferSize
    ensures BufferIndex(l, q * l.bufferSize + r)
            == if r + l.bufferSize / 2 < l.bufferSize then q % l.numBuffers else (q + 1) % l.numBuffers
  {
    var position := q * l.bufferSize + r + l.bufferSize / 2;
    if r + l.bufferSize / 2 < l.bufferSize {
      DivModUnique(position, l.bufferSize, q, r + l.bufferSize / 2);
    } else {
      assert (q + 1) * l.bufferSize == q * l.bufferSize + l.bufferSize;
      DivModUnique(position, l.bufferSize, q + 1, r + l.bufferSize / 2 - l.bufferSize);
    }
  }

  /** Less than a cycle of frames between two moments. */
  predicate ShortGap(l: Layout, before: nat, now: nat)
    requires l.Valid()
  {
    before <= now && Frames(l, now) - Frames(l, before) < l.CycleFrames()
  }

  /** What a run of interrupts adds up to, computed from cyclic positions only. */
  function Counted(l: Layout, nows: seq<nat>): int
    requires l.Valid() && 0 < l.CycleBytes()
  {
    if |nows| <= 1 then 0
    else
      var n := |nows| - 1;
      Counted(l, nows[..n])
      + Processed(l, Frames(l, nows[n - 1] % l.CycleBytes()), Frames(l, nows[n] % l.CycleBytes()))
  }

  /** Over any run of interrupts with less than a cycle between neighbours, it is the true number. */
  lemma {:induction false} RunCountsAllFrames(l: Layout, nows: seq<nat>)
    requires l.Valid() && nows != []
    requires forall k :: 0 < k < |nows| ==> ShortGap(l, nows[k - 1], nows[k])
    ensures 0 < l.CycleBytes()
    ensures Counted(l, nows) == Frames(l, nows[|nows| - 1]) - Frames(l, nows[0])
  {
    CyclePositive(l);
    if |nows| > 1 {
      var n := |nows| - 1;
      assert ShortGap(l, nows[n - 1], nows[n]);
      RunCountsAllFrames(l, nows[..n]);
      ProcessedIsGapIff(l, nows[n - 1], nows[n]);
    }
  }

  const STATUS_BUFFER_COMPLETED := 4

  class Stream {
    const layout: Layout
    var running: bool
    var framesCount: nat
    var lastLinkFramePosition: nat
    var bufferCycle: nat
    var incorrectPositionCount: int
    var useDmaPosition: bool
    var realTime: int
    // the releases of the semaphore that the audio server waits on
    var buffersReady: nat
    // the bytes the link had processed since it was reset, when the stream started and at the last
    // handled interrupt
    ghost var origin: nat
    ghost var bytes: nat

    ghost predicate Shape()
      reads this`origin, this`bytes, this`lastLinkFramePosition, this`framesCount
    {
      && layout.Valid() && layout.CycleBytes() > 0 && origin <= bytes
      && lastLinkFramePosition <= layout.CycleFrames() && framesCount < COUNT_RANGE
    }

    /** The counter shows the number of frames since the start, off by skew, in 64 bits. */
    ghost predicate Counts(skew: int)
      reads this`origin, this`bytes, this`lastLinkFramePosition, this`framesCount
    {
      && Shape()
      && lastLinkFramePosition == Frames(layout, bytes % layout.CycleBytes())
      && Frames(layout, bytes) - Frames(layout, origin) + skew >= 0
      && framesCount == (Frames(layout, bytes) - Frames(layout, origin) + skew) % COUNT_RANGE
    }

    /** The counter shows the true number of frames. */
    ghost predicate Valid()
      reads this`origin, this`bytes, this`lastLinkFramePosition, this`framesCount
    {
      Counts(0)
    }

    /** No interrupt was handled since the start. */
    ghost predicate Started()
      reads this`origin, this`bytes, this`lastLinkFramePosition, this`framesCount
    {
      Shape() && bytes == origin && lastLinkFramePosition == 0 && framesCount == 0
    }

    constructor (l: Layout)
      requires l.Valid()
      ensures layout == l && !running && useDmaPosition && incorrectPositionCount == 0 && Shape()
    {
      layout := l;
      running, useDmaPosition := false, true;
      framesCount, lastLinkFramePosition, bufferCycle, incorrectPositionCount := 0, 0, 0, 0;
      realTime, buffersReady := 0, 0;
      origin, bytes := 0, 0;
      new;
      CyclePositive(layout);
    }

    /** Starts the DMA engine, if it comes up. The link is where it was stopped, or at 0 after a
        reset. The counter starts true exactly when no frame of the current cycle is complete there. */
    method Start(comesUp: bool, ghost now: nat) returns (ok: bool)
      requires layout.Valid()
      modifies this`framesCount, this`lastLinkFramePosition, this`running, this`bytes, this`origin
      ensures Started() && origin == now
      ensures Valid() <==> Frames(layout, now % layout.CycleBytes()) == 0
      ensures ok == comesUp && (if ok then running else running == old(running))
    {
      framesCount := 0;
      lastLinkFramePosition := 0;
      origin, bytes := now, now;
      CyclePositive(layout);
      if !comesUp {
        return false;
      }
      running := true;
      return true;
    }

    /** The frame position of a byte position in the cycle. */
    method LinkFramePosition(position: nat) returns (frames: nat)
      requires layout.Valid() && position < layout.CycleBytes()
      ensures frames == Frames(layout, position)
    {
      CyclePositive(layout);
      var left: nat := position;
      frames := 0;
      ghost var turns := 0;
      while left >= layout.bufferSize
        invariant position == turns * layout.bufferSize + left && frames == turns * layout.bufferLength
        decreases left
      {
        frames := frames + layout.bufferLength;
        left := left - layout.bufferSize;
        turns := turns + 1;
        OneMore(turns, layout.bufferSize);
        OneMore(turns, layout.bufferLength);
      }
      DivModUnique(position, layout.bufferSize, turns, left);
      frames := frames + Min(left / layout.frameSize, layout.bufferLength);
    }

    /** One interrupt. now is the number of bytes the link has processed since it was reset, of which
        the hardware shows the position in the cycle; the position that picks the buffer is read
        before that, from the DMA position buffer or from the link. With less than a cycle of frames
        since the last interrupt an error of the counter stays as it is; the first interrupt after a
        start brings in the error of the start. */
    method HandleInterrupt(status: nat, dmaPosition: nat, earlierPosition: nat, linkPosition: nat, time: int,
                           ghost now: nat, ghost skew: int)
      returns (handled: bool)
      requires Shape() && bytes <= now && linkPosition == now % layout.CycleBytes()
      modifies this
      ensures Shape() && running == old(running) && origin == old(origin)
      ensures handled <==> running && status / 4 % 2 == 1
      ensures !handled ==> bytes == old(bytes) && framesCount == old(framesCount)
                           && lastLinkFramePosition == old(lastLinkFramePosition)
                           && bufferCycle == old(bufferCycle) && realTime == old(realTime)
                           && useDmaPosition == old(useDmaPosition) && buffersReady == old(buffersReady)
                           && incorrectPositionCount == old(incorrectPositionCount)
      ensures handled ==>
                && bytes == now && realTime == time && buffersReady == old(buffersReady) + 1
                && lastLinkFramePosition == Frames(layout, linkPosition)
                && framesCount == (old(framesCount) + Processed(layout, old(lastLinkFramePosition),
                                                                lastLinkFramePosition)) % 0x1_0000_0000_0000_0000
                && bufferCycle == BufferIndex(layout, if useDmaPosition then dmaPosition else earlierPosition)
                && useDmaPosition == (old(useDmaPosition) && old(incorrectPositionCount) < 32)
                && incorrectPositionCount
                   == (if bufferCycle == (old(bufferCycle) + 1) % layout.numBuffers then 0
                       else old(incorrectPositionCount) + 1)
      ensures handled && ShortGap(layout, old(bytes), now) && old(Counts(skew)) ==> Counts(skew)
      ensures handled && ShortGap(layout, old(bytes), now) && old(Started()) ==>
                Counts(StartSkew(layout, origin, now))
    {
      hide Frames, Counts, Started, StartSkew, ShortGap;
      if !running {
        return false;
      }
      if status == 0 {
        return false;
      }
      if status / STATUS_BUFFER_COMPLETED % 2 == 0 {
        return false;
      }
      if useDmaPosition && incorrectPositionCount >= 32 {
        useDmaPosition := false;
      }
      var position := if useDmaPosition then dmaPosition else earlierPosition;
      var bufferIndex := BufferIndex(layout, position);
      var current := LinkFramePosition(linkPosition);
      FramesWithinCycle(layout, linkPosition);
      var added := FramesSince(lastLinkFramePosition, current);
      if bufferIndex == (bufferCycle + 1) % layout.numBuffers {
        incorrectPositionCount := 0;
      } else {
        incorrectPositionCount := incorrectPositionCount + 1;
      }
      Advance(current, added, now, skew);
      realTime := time;
      bufferCycle := bufferIndex;
      buffersReady := buffersReady + 1;
      return true;
    }

    /** The subtraction in 32-bit integers; it does not wrap. */
    method FramesSince(last: nat, current: nat) returns (processed: int)
      requires layout.Valid() && last <= layout.CycleFrames() && current <= layout.CycleFrames()
      ensures processed == Processed(layout, last, current) >= 0
    {
      CycleFramesFit(layout);
      processed := Wrap32(current - last);
      if processed < 0 {
        processed := processed + layout.numBuffers * layout.bufferLength;
      }
    }

    method Advance(current: nat, processed: nat, ghost now: nat, ghost skew: int)
      requires Shape() && bytes <= now && current == Frames(layout, now % layout.CycleBytes()) <= layout.CycleFrames()
      requires processed == Processed(layout, lastLinkFramePosition, current)
      modifies this`lastLinkFramePosition, this`framesCount, this`bytes
      ensures Shape() && bytes == now && lastLinkFramePosition == current
      ensures framesCount == (old(framesCount) + processed) % COUNT_RANGE
      ensures ShortGap(layout, old(bytes), now) && old(Counts(skew)) ==> Counts(skew)
      ensures ShortGap(layout, old(bytes), now) && old(Started()) ==> Counts(StartSkew(layout, origin, now))
    {
      ghost var before := bytes;
      ghost var total := Frames(layout, bytes) - Frames(layout, origin) + skew;
      if ShortGap(layout, before, now) {
        if Started() {
          StartAddsSkew(layout, origin, now);
        }
        if Counts(skew) {
          ProcessedIsGapIff(layout, before, now);
          AddModulo(total, framesCount, processed, COUNT_RANGE);
        }
      }
      FramesMonotone(layout, before, now);
      lastLinkFramePosition := current;
      framesCount := (framesCount + processed) % COUNT_RANGE;
      bytes := now;
    }
  }

  const COUNT_RANGE := 0x1_0000_0000_0000_0000

  // ---------- a start in the middle of the buffers ----------

  /** How far the counter is off after the first interrupt, at now, when the stream started at origin:
      it counts from the beginning of the cycle that now is in. */
  function StartSkew(l: Layout, origin: nat, now: nat): int
    requires l.Valid() && l.CycleBytes() > 0
  {
    Frames(l, origin % l.CycleBytes()) - (now / l.CycleBytes() - origin / l.CycleBytes()) * l.CycleFrames()
  }

  lemma StartAddsSkew(l: Layout, origin: nat, now: nat)
    requires l.Valid() && l.CycleBytes() > 0 && origin <= now
    ensures Processed(l, 0, Frames(l, now % l.CycleBytes()))
            == Frames(l, now) - Frames(l, origin) + StartSkew(l, origin, now)
  {
    FramesPerCycle(l, origin);
    FramesPerCycle(l, now);
    SubtractCycles(now / l.CycleBytes(), origin / l.CycleBytes(), l.CycleFrames());
  }

  lemma SubtractCycles(a: int, b: int, t: int)
    ensures (a - b) * t == a * t - b * t
  {
  }

  /** When less than a cycle of frames lies between the start and the first interrupt, the counter is
      right exactly when no frame of the current cycle was complete at the start, or all of them were
      and the next cycle has begun. */
  lemma StartIsRightIff(l: Layout, origin: nat, now: nat)
    requires l.Valid() && origin <= now
    ensures l.CycleBytes() > 0
    ensures ShortGap(l, origin, now) ==>
              var before := Frames(l, origin % l.CycleBytes());
              StartSkew(l, origin, now) == 0
              <==> before == 0 || (before == l.CycleFrames() && origin / l.CycleBytes() < now / l.CycleBytes())
  {
    var n, t := l.CycleBytes(), l.CycleFrames();
    var c0, c := origin / n, now / n;
    var before, current := Frames(l, origin % n), Frames(l, now % n);
    CyclePositive(l);
    FramesPerCycle(l, origin);
    FramesPerCycle(l, now);
    FramesWithinCycle(l, origin % n);
    assert c0 <= c by {
      DivModOf(origin, n);
      DivModOf(now, n);
      if c < c0 {
        MulGap(c, c0, n);
      }
    }
    hide Frames;
    SubtractCycles(c, c0, t);
    if ShortGap(l, origin, now) {
      SkewCases(c - c0, t, before, current);
    }
  }

  lemma SkewCases(cycles: nat, t: nat, before: nat, current: nat)
    requires 0 < t && before <= t && cycles * t + current - before < t
    ensures before - cycles * t == 0 <==> before == 0 || (before == t && cycles > 0)
  {
    if cycles == 0 {
      assert cycles * t == 0;
    } else {
      MulMonotone(1, cycles, t);
      if cycles >= 2 {
        MulMonotone(2, cycles, t);
      }
    }
  }

  /** When the first interrupt comes in the cycle of the start, the counter is off by the frames of that
      cycle which were played before the start. */
  lemma RestartCountsOldFrames(l: Layout, origin: nat, now: nat)
    requires l.Valid() && l.CycleBytes() > 0 && origin / l.CycleBytes() == now / l.CycleBytes()
    ensures StartSkew(l, origin, now) == Frames(l, origin % l.CycleBytes())
  {
  }

  /** A stream of two buffers of four one-byte frames each that was stopped after three frames and is
      started again without a reset: when one more frame is played, the counter says four. */
  lemma RestartExample(l: Layout)
    requires l == Layout(2, 4, 128, 1)
    ensures l.Valid() && l.CycleBytes() == 256 && ShortGap(l, 3, 4)
    ensures Frames(l, 4) - Frames(l, 3) == 1 && StartSkew(l, 3, 4) == 3
  {
    hide Frames, StartSkew;
    FramesInFirstBuffer(l, 3);
    FramesInFirstBuffer(l, 4);
    InFirstCycle(l.CycleBytes(), 3);
    InFirstCycle(l.CycleBytes(), 4);
    RestartCountsOldFrames(l, 3, 4);
  }

  lemma InFirstCycle(n: nat, x: nat)
    requires x < n
    ensures x / n == 0 && x % n == x
  {
    DivModUnique(x, n, 0, x);
  }

  lemma FramesInFirstBuffer(l: Layout, bytes: nat)
    requires l == Layout(2, 4, 128, 1) && bytes <= 4
    ensures l.Valid() && Frames(l, bytes) == bytes
  {
    DivModUnique(bytes, 128, 0, bytes);
    DivModUnique(bytes, 1, bytes, 0);
  }

  lemma OneMore(n: nat, c: nat)
    requires n > 0
    ensures n * c == (n - 1) * c + c
  {
  }

  lemma AddModulo(a: nat, b: nat, d: nat, m: nat)
    requires 0 < m && b == a % m
    ensures (b + d) % m == (a + d) % m
  {
    DivModOf(a, m);
    DivModOf(b + d, m);
    assert a + d == (a / m + (b + d) / m) * m + (b + d) % m;
    DivModUnique(a + d, m, a / m + (b + d) / m, (b + d) % m);
  }
}
