/** intel_fill_span over the command batches: spans are drawn by scanline blits that depend on a setup
    command, so they go out in chunks that share a batch with it. */
module FillSpan {
  import opened Common
  import opened Gem2d

  const CHUNK := 1024
  const XY_COMMAND_SCANLINE_BLIT: U32 := 0x4940_0001

  type U16 = x: int | 0 <= x < 0x1_0000

  datatype Span = Span(top: U16, left: U16, right: U16)

  /** The blit of one span: opcode, then left and top, then right and top again. */
  function Blit(s: Span): (r: Command)
    ensures |r| == 3
  {
    [XY_COMMAND_SCANLINE_BLIT, s.left + 0x1_0000 * s.top, s.right + 0x1_0000 * s.top]
  }

  /** What a blit command of three DWORDs draws: one scanline, so top and bottom have to agree. */
  function Unblit(c: Command): Option<Span> {
    if |c| != 3 || c[0] != 0x4940_0001 || c[1] / 0x1_0000 != c[2] / 0x1_0000 then None
    else Some(Span(c[1] / 0x1_0000, c[1] % 0x1_0000, c[2] % 0x1_0000))
  }

  /** A blit is a scanline blit and carries its span whole. */
  lemma BlitRoundTrip(s: Span)
    ensures Unblit(Blit(s)) == Some(s)
  {
  }

  function Blits(spans: seq<Span>): (r: seq<Command>)
    ensures |r| == |spans| && forall i :: 0 <= i < |r| ==> r[i] == Blit(spans[i])
  {
    seq(|spans|, i requires 0 <= i < |spans| => Blit(spans[i]))
  }

  /** The batches a list of spans becomes: each the setup command and the next 1024 blits. */
  function Chunks(setup: Command, spans: seq<Span>): seq<seq<Command>> {
    if spans == [] then []
    else
      var n := if |spans| < CHUNK then |spans| else CHUNK;
      [[setup] + Blits(spans[..n])] + Chunks(setup, spans[n..])
  }

  /** The spans drawn by a batch, and by a list of batches. */
  function SpansOfBatch(blits: seq<Command>): (r: seq<Span>)
    requires forall i :: 0 <= i < |blits| ==> Unblit(blits[i]).Some?
    ensures |r| == |blits| && forall i :: 0 <= i < |r| ==> Unblit(blits[i]) == Some(r[i])
  {
    seq(|blits|, i requires 0 <= i < |blits| => Unblit(blits[i]).value)
  }

  predicate SetupThenBlits(setup: Command, batch: seq<Command>) {
    && 1 < |batch| <= 1024 + 1 && batch[0] == setup
    && forall i :: 1 <= i < |batch| ==> Unblit(batch[i]).Some?
  }

  function SpansOf(setup: Command, batches: seq<seq<Command>>): seq<Span>
    requires forall b :: 0 <= b < |batches| ==> SetupThenBlits(setup, batches[b])
  {
    if batches == [] then []
    else
      var b := batches[0];
      assert SetupThenBlits(setup, b);
      SpansOfBatch(b[1..]) + SpansOf(setup, batches[1..])
  }

  /** The chunks draw every span exactly once and in order, and in each batch the setup command
      precedes the blits. */
  lemma {:induction false} ChunksDrawAllSpans(setup: Command, spans: seq<Span>)
    ensures forall b :: 0 <= b < |Chunks(setup, spans)| ==> SetupThenBlits(setup, Chunks(setup, spans)[b])
    ensures SpansOf(setup, Chunks(setup, spans)) == spans
  {
    if spans != [] {
      var n := if |spans| < CHUNK then |spans| else CHUNK;
      ChunksDrawAllSpans(setup, spans[n..]);
      var first := [setup] + Blits(spans[..n]);
      assert SetupThenBlits(setup, first) by {
        forall i | 1 <= i < |first| ensures Unblit(first[i]).Some? {
          BlitRoundTrip(spans[i - 1]);
        }
      }
      assert SpansOfBatch(first[1..]) == spans[..n] by {
        forall i | 0 <= i < n ensures SpansOfBatch(first[1..])[i] == spans[i] {
          BlitRoundTrip(spans[i]);
        }
      }
      assert Chunks(setup, spans)[1..] == Chunks(setup, spans[n..]);
      assert spans == spans[..n] + spans[n..];
    }
  }

  /** The end of the chunk that starts at base, in the uint32 arithmetic of the source. */
  function ChunkEnd(base: nat, count: nat): nat {
    if (base + CHUNK) % 0x1_0000_0000 < count then (base + CHUNK) % 0x1_0000_0000 else count
  }

  /** It is the next 1024 spans unless the sum wraps; then the chunk ends before it begins. */
  lemma ChunkEndIff(base: nat, count: nat)
    requires base < count < 0x1_0000_0000
    ensures ChunkEnd(base, count) == (if base + CHUNK < count then base + CHUNK else count)
            <==> base + CHUNK < 0x1_0000_0000
  {
  }

  /** Where round k of the loop begins, in the uint32 arithmetic of the source. */
  function ChunkBase(k: nat): nat {
    CHUNK * k % 0x1_0000_0000
  }

  const LIMIT := 0x1_0000_0000 - CHUNK

  lemma ChunkBaseBound(k: nat)
    ensures ChunkBase(k) <= LIMIT && ChunkBase(k) <= CHUNK * k
    ensures CHUNK * k <= LIMIT ==> ChunkBase(k) == CHUNK * k
  {
    DivModOf(k, 0x40_0000);
    DivModUnique(CHUNK * k, 0x1_0000_0000, k / 0x40_0000, CHUNK * (k % 0x40_0000));
  }

  lemma ChunkBaseNext(k: nat)
    ensures ChunkBase(k + 1) == (ChunkBase(k) + CHUNK) % 0x1_0000_0000
  {
    DivModOf(k, 0x40_0000);
    var q, r := k / 0x40_0000, k % 0x40_0000;
    DivModUnique(CHUNK * k, 0x1_0000_0000, q, CHUNK * r);
    if r + 1 < 0x40_0000 {
      DivModUnique(CHUNK * (k + 1), 0x1_0000_0000, q, CHUNK * r + CHUNK);
    } else {
      DivModUnique(CHUNK * (k + 1), 0x1_0000_0000, q + 1, 0);
    }
  }

  /** Some round begins at or behind the last span, and so ends the loop, exactly when there are at most
      2^32 - 1024 spans; with more the loop begins again at 0 for ever. */
  lemma LoopEndsIff(count: nat)
    ensures (exists k :: 0 <= k && ChunkBase(k) >= count) <==> count <= 0x1_0000_0000 - 1024
  {
    assert ChunkBase(0x40_0000 - 1) == LIMIT;
    forall k | 0 <= k
      ensures ChunkBase(k) <= LIMIT
    {
      ChunkBaseBound(k);
    }
  }

  /** The loop over the chunks, for any number of spans that fits 32 bits, as far as the given number of
      rounds. It is done within them exactly when they are enough for all spans and these are at most
      2^32 - 1024. Then exactly the chunks were submitted. */
  method FillRounds(gem: Batches, setup: Command, spans: seq<Span>, rounds: nat) returns (done: bool)
    requires gem.Valid() && gem.available && !gem.open
    requires 0 < |setup| <= 10 && |spans| < 0x1_0000_0000
    modifies gem, gem.maps
    ensures gem.Valid() && gem.available && !gem.open
    ensures done <==> |spans| <= LIMIT && |spans| <= CHUNK * rounds
    ensures done ==> gem.submitted == old(gem.submitted) + Chunks(setup, spans)
    ensures old(gem.Conserved()) ==> gem.Conserved()
  {
    var count := |spans|;
    var base, round := 0, 0;
    FirstRound(spans);
    hide Batches.Valid, Batches.Conserved, ChunkBase, Chunks, Left, OnTrack;
    while base < count && round < rounds
      invariant gem.Valid() && gem.available && !gem.open
      invariant base == ChunkBase(round) && round <= rounds && OnTrack(count, round)
      invariant count <= LIMIT ==>
                  gem.submitted + Chunks(setup, Left(spans, round)) == old(gem.submitted) + Chunks(setup, spans)
      invariant old(gem.Conserved()) ==> gem.Conserved()
      decreases rounds - round
    {
      OnTrackNext(count, round);
      base := FillRound(gem, setup, spans, base, round);
      round := round + 1;
    }
    OnTrackEnd(count, round, rounds);
    done := base >= count;
    if done {
      NothingLeft(setup, spans, round);
    }
  }

  /** Short of the wrap the rounds do not pass the last span by more than a chunk. */
  predicate OnTrack(count: nat, round: nat) {
    count <= LIMIT ==> CHUNK * round < count + CHUNK
  }

  lemma FirstRound(spans: seq<Span>)
    ensures Left(spans, 0) == spans && ChunkBase(0) == 0 && OnTrack(|spans|, 0)
  {
  }

  lemma OnTrackNext(count: nat, round: nat)
    requires OnTrack(count, round) && ChunkBase(round) < count
    ensures OnTrack(count, round + 1) && (count <= LIMIT ==> CHUNK * round < count)
  {
    ChunkBaseBound(round);
  }

  lemma OnTrackEnd(count: nat, round: nat, rounds: nat)
    requires OnTrack(count, round) && round <= rounds && (ChunkBase(round) >= count || round == rounds)
    ensures ChunkBase(round) >= count <==> count <= LIMIT && count <= CHUNK * rounds
    ensures ChunkBase(round) >= count ==> count <= CHUNK * round
  {
    ChunkBaseBound(round);
    hide ChunkBase;
  }

  /** The spans that the first rounds leave. */
  ghost function Left(spans: seq<Span>, rounds: nat): seq<Span> {
    spans[if CHUNK * rounds < |spans| then CHUNK * rounds else |spans|..]
  }

  lemma NothingLeft(setup: Command, spans: seq<Span>, rounds: nat)
    requires |spans| <= CHUNK * rounds
    ensures Chunks(setup, Left(spans, rounds)) == []
  {
  }

  /** One round, and where the next one begins. */
  method FillRound(gem: Batches, setup: Command, spans: seq<Span>, base: nat, ghost round: nat) returns (next: nat)
    requires gem.Valid() && gem.available && !gem.open && 0 < |setup| <= 10
    requires base == ChunkBase(round) < |spans| < 0x1_0000_0000
    modifies gem, gem.maps
    ensures gem.Valid() && gem.available && !gem.open && next == ChunkBase(round + 1)
    ensures |spans| <= LIMIT && CHUNK * round < |spans| ==>
              gem.submitted + Chunks(setup, Left(spans, round + 1))
              == old(gem.submitted) + Chunks(setup, Left(spans, round))
    ensures old(gem.Conserved()) ==> gem.Conserved()
  {
    hide Batches.Valid, Batches.Conserved, ChunkBase, Chunks;
    ChunkBaseBound(round);
    ChunkBaseNext(round);
    ChunkEndIff(base, |spans|);
    var chunkEnd := ChunkEnd(base, |spans|);
    if |spans| <= LIMIT && CHUNK * round < |spans| {
      ChunksFrom(setup, spans, base, chunkEnd);
    }
    EmitChunk(gem, setup, if base < chunkEnd then spans[base..chunkEnd] else []);
    next := (base + CHUNK) % 0x1_0000_0000;
  }

  /** Fills spans. With no batch open before and no submission refused, exactly the chunks are
      submitted, whatever their number, short of the last 1024 counts of 32 bits. */
  method IntelFillSpan(gem: Batches, setup: Command, spans: seq<Span>)
    requires gem.Valid() && gem.available && !gem.open
    requires 0 < |setup| <= 10 && |spans| <= LIMIT
    modifies gem, gem.maps
    ensures gem.Valid() && gem.available && !gem.open
    ensures gem.submitted == old(gem.submitted) + Chunks(setup, spans)
    ensures old(gem.Conserved()) ==> gem.Conserved()
  {
    var done := FillRounds(gem, setup, spans, |spans|);
  }

  lemma ChunksFrom(setup: Command, spans: seq<Span>, base: nat, end: nat)
    requires base < |spans| && end == if base + CHUNK < |spans| then base + CHUNK else |spans|
    ensures Chunks(setup, spans[base..])
            == [[setup] + Blits(spans[base..end])] + Chunks(setup, spans[end..])
  {
    var rest := spans[base..];
    assert rest[..end - base] == spans[base..end];
    assert rest[end - base..] == spans[end..];
  }

  /** One chunk becomes one batch. */
  method EmitChunk(gem: Batches, setup: Command, spans: seq<Span>)
    requires gem.Valid() && gem.available && !gem.open
    requires 0 < |setup| <= 10 && |spans| <= CHUNK
    modifies gem, gem.maps
    ensures gem.Valid() && gem.available && !gem.open
    ensures gem.submitted == old(gem.submitted) + [[setup] + Blits(spans)]
    ensures old(gem.Conserved()) ==> gem.Conserved()
  {
    hide Batches.Valid, Batches.Conserved;
    gem.Begin();
    gem.Add(setup);
    for i := 0 to |spans|
      invariant gem.Valid() && gem.available && gem.open
      invariant gem.submitted == old(gem.submitted) && gem.building == [setup] + Blits(spans[..i])
      invariant gem.position == |setup| + 3 * i
      invariant old(gem.Conserved()) ==> gem.Conserved()
    {
      gem.Add(Blit(spans[i]));
      assert Blits(spans[..i + 1]) == Blits(spans[..i]) + [Blit(spans[i])];
    }
    assert spans[..|spans|] == spans;
    gem.End(true);
  }
}
