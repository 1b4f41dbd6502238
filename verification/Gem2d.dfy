/** The 2D command batches of the accelerant: two buffers in turn, filled by the CPU and handed to the
    GPU. The GPU retires a submitted batch at some later moment; waiting for a buffer waits for that.

    Positions and sizes are kept in DWORDs; the source keeps bytes. */
module Gem2d {
  import opened Common
  import opened Cyclic

  const BATCH_COUNT := 2
  const BATCH_SIZE := 32 * 1024          // bytes
  const BATCH_DWORDS := BATCH_SIZE / 4
  const MI_BATCH_BUFFER_END: U32 := 0x0500_0000
  const MI_NOOP: U32 := 0

  type Command = seq<U32>

  function Flatten(commands: seq<Command>): seq<U32> {
    if commands == [] then [] else Flatten(commands[..|commands| - 1]) + commands[|commands| - 1]
  }

  lemma FlattenSnoc(commands: seq<Command>, c: Command)
    ensures Flatten(commands + [c]) == Flatten(commands) + c
  {
    assert (commands + [c])[..|commands|] == commands;
  }

  /** The payloads of a list of batches, one after the other. */
  function Payloads(batches: seq<seq<Command>>): seq<U32> {
    if batches == [] then [] else Payloads(batches[..|batches| - 1]) + Flatten(batches[|batches| - 1])
  }

  lemma PayloadsSnoc(batches: seq<seq<Command>>, b: seq<Command>)
    ensures Payloads(batches + [b]) == Payloads(batches) + Flatten(b)
  {
    assert (batches + [b])[..|batches|] == batches;
  }

  /** What a batch must look like to the GPU: whole commands, the end marker, a length that is a
      multiple of 8 bytes and fits the buffer. */
  predicate IsBatch(dwords: seq<U32>, commands: seq<Command>) {
    var payload := Flatten(commands);
    && dwords == payload + [0x0500_0000] + (if |payload| % 2 == 0 then [0] else [])
    && |dwords| % 2 == 0 && 4 * |dwords| <= 32768 && payload != []
  }

  predicate AreBatches(given: seq<seq<U32>>, batches: seq<seq<Command>>) {
    |given| == |batches| && forall b :: 0 <= b < |batches| ==> IsBatch(given[b], batches[b])
  }

  lemma AreBatchesSnoc(given: seq<seq<U32>>, batches: seq<seq<Command>>, dwords: seq<U32>, b: seq<Command>)
    requires AreBatches(given, batches) && IsBatch(dwords, b)
    ensures AreBatches(given + [dwords], batches + [b])
  {
  }

  /** The calls a client can make. */
  datatype Call = BeginBatch | AddCommand(commands: Command) | EndBatch | WaitForGpu

  /** Everything that a list of calls adds. */
  function AllAdded(calls: seq<Call>): seq<U32> {
    if calls == [] then []
    else
      var last := calls[|calls| - 1];
      AllAdded(calls[..|calls| - 1]) + if last.AddCommand? then last.commands else []
  }

  lemma AllAddedSnoc(calls: seq<Call>, c: Call)
    ensures AllAdded(calls + [c]) == AllAdded(calls) + if c.AddCommand? then c.commands else []
  {
    assert (calls + [c])[..|calls|] == calls;
  }

  /** The batches as a client sees them: those submitted, and the open one. */
  datatype Book = Book(open: bool, submitted: seq<seq<Command>>, building: seq<Command>)

  /** What a call does to them while no submission fails. A batch and its trailer fit 32 KB. */
  function AfterCall(b: Book, call: Call): Book {
    match call
    case BeginBatch => b.(open := true)
    case AddCommand(c) =>
      if 4 * (|Flatten(b.building)| + |c|) + 16 > 32768 then Book(true, b.submitted + [b.building], [c])
      else Book(true, b.submitted, b.building + [c])
    case EndBatch =>
      if Flatten(b.building) == [] then Book(false, b.submitted, [])
      else Book(false, b.submitted + [b.building], [])
    case WaitForGpu => b
  }

  function AfterCalls(b: Book, calls: seq<Call>): Book {
    if calls == [] then b else AfterCall(AfterCalls(b, calls[..|calls| - 1]), calls[|calls| - 1])
  }

  lemma AfterCallsSnoc(b: Book, calls: seq<Call>, c: Call)
    ensures AfterCalls(b, calls + [c]) == AfterCall(AfterCalls(b, calls), c)
  {
    assert (calls + [c])[..|calls|] == calls;
  }

  /** memcpy into a buffer. */
  method CopyDwords(buffer: array<U32>, at: nat, data: seq<U32>)
    requires at + |data| <= buffer.Length
    modifies buffer
    ensures buffer[..at + |data|] == old(buffer[..at]) + data
  {
    ghost var before := buffer[..at];
    for i := 0 to |data|
      invariant buffer[..at + i] == before + data[..i]
    {
      buffer[at + i] := data[i];
      TakeSnoc(data, i);
    }
    assert data[..|data|] == data;
  }

  class Batches {
    const maps: seq<array<U32>>
    var available: bool
    var current: nat
    var position: nat
    var open: bool
    // the GPU's side: which buffers it holds, and exactly what it was given
    var inFlight: seq<bool>
    ghost var executed: seq<seq<U32>>
    // what the GPU was last given in each buffer
    ghost var given: seq<seq<U32>>
    // the batches as lists of commands: submitted, and the open one
    ghost var submitted: seq<seq<Command>>
    ghost var building: seq<Command>
    // everything that was added
    ghost var added: seq<U32>

    ghost predicate Shape()
      reads this
    {
      && |maps| == BATCH_COUNT && |inFlight| == |given| == BATCH_COUNT && current < BATCH_COUNT
      && maps[0] != maps[1] && (forall i :: 0 <= i < BATCH_COUNT ==> maps[i].Length == BATCH_DWORDS)
    }

    /** The open batch is in a buffer that the GPU does not hold, with room for the trailer. */
    ghost predicate OpenBatch()
      reads this, maps
      requires Shape()
    {
      && !inFlight[current] && 4 * position + 16 <= BATCH_SIZE
      && maps[current][..position] == Flatten(building)
    }

    ghost predicate Valid()
      reads this, maps
    {
      && Shape() && (open ==> available && OpenBatch()) && (!open ==> building == [])
      && Recorded() && Untouched(0) && Untouched(1)
    }

    /** What the GPU was given are the submitted batches. */
    ghost predicate Recorded()
      reads this`executed, this`submitted
    {
      AreBatches(executed, submitted)
    }

    /** A buffer that the GPU holds still contains the batch that was submitted in it. */
    ghost predicate Untouched(i: nat)
      reads this`inFlight, this`given, this`executed, if i < |maps| then {maps[i]} else {}
    {
      && i < |maps| && i < |inFlight| && i < |given|
      && (inFlight[i] ==> given[i] <= maps[i][..] && given[i] in executed)
    }

    /** As long as no submission failed, what was submitted and what is being built is what was added. */
    ghost predicate Conserved()
      reads this`submitted, this`building, this`added
    {
      Payloads(submitted) + Flatten(building) == added
    }

    ghost function Now(): Book
      reads this`open, this`submitted, this`building
    {
      Book(open, submitted, building)
    }

    /** The position is the size of what the open batch holds. */
    lemma PositionIsSize()
      requires Valid()
      ensures if open then |Flatten(building)| == position else building == [] && Flatten(building) == []
    {
    }

    constructor (first: array<U32>, second: array<U32>)
      requires first != second && first.Length == second.Length == BATCH_DWORDS
      ensures Valid() && Conserved() && available && !open && submitted == [] && maps == [first, second]
    {
      maps := [first, second];
      available, open := true, false;
      current, position := 0, 0;
      inFlight, given := [false, false], [[], []];
      executed, submitted, building, added := [], [], [], [];
    }

    /** The GPU finishes a batch; this may happen at any time. */
    method Retire(i: nat)
      requires Valid() && i < BATCH_COUNT
      modifies this`inFlight
      ensures Valid() && inFlight == old(inFlight)[i := false]
    {
      inFlight := inFlight[i := false];
    }

    method WaitBatch(i: nat)
      requires Valid() && i < BATCH_COUNT
      modifies this`inFlight
      ensures Valid() && inFlight == old(inFlight)[i := false]
    {
      if inFlight[i] {
        Retire(i);
      }
    }

    /** Readies the other buffer for the CPU. */
    method Begin()
      requires Valid()
      modifies this`current, this`position, this`open, this`inFlight, this`building
      ensures Valid() && (old(Conserved()) ==> Conserved())
      ensures !old(available) || old(open) ==>
                open == old(open) && building == old(building) && current == old(current)
                && position == old(position) && inFlight == old(inFlight)
      ensures old(available) && !old(open) ==>
                && open && building == [] && position == 0
                && current == (old(current) + 1) % BATCH_COUNT && inFlight == old(inFlight)[current := false]
    {
      hide Recorded, Untouched, Payloads, Flatten, OpenBatch;
      if !available || open {
        return;
      }
      current := (current + 1) % BATCH_COUNT;
      WaitBatch(current);
      position := 0;
      open := true;
      building := [];
      EmptyIsOpen();
    }

    lemma EmptyIsOpen()
      requires Shape() && !inFlight[current] && position == 0 && building == []
      ensures OpenBatch()
    {
    }

    /** Copies a command into the open batch. The buffer must not be in the GPU's hands. */
    method CopyIn(commands: Command)
      requires Valid() && open && !inFlight[current] && 4 * (position + |commands|) + 16 <= BATCH_SIZE
      modifies this`position, this`building, this`added, maps[current]
      ensures Valid() && building == old(building) + [commands] && position == old(position) + |commands|
      ensures added == old(added) + commands && (old(Conserved()) ==> Conserved())
    {
      FlattenSnoc(building, commands);
      hide Recorded, Untouched, Flatten, Payloads;
      CopyDwords(maps[current], position, commands);
      position := position + |commands|;
      building := building + [commands];
      added := added + commands;
      NotHeld(current);
      if current == 0 {
        assert Untouched(1);
      } else {
        assert Untouched(0);
      }
    }

    lemma NotHeld(i: nat)
      requires Shape() && i < BATCH_COUNT && !inFlight[i]
      ensures Untouched(i)
    {
    }

    /** Writes the end marker and the padding, and says what the GPU will be given. */
    method WriteTrailer() returns (ghost dwords: seq<U32>)
      requires Shape() && OpenBatch() && position > 0
      modifies maps[current]
      ensures IsBatch(dwords, building) && dwords <= maps[current][..]
    {
      maps[current][position] := MI_BATCH_BUFFER_END;
      var length := position + 1;
      if length % 2 != 0 {
        maps[current][length] := MI_NOOP;
        length := length + 1;
      }
      dwords := maps[current][..length];
    }

    /** Closes the open batch and submits it unless it is empty. The kernel may refuse it (accepted
        false): then 2D acceleration is switched off for good. */
    method End(accepted: bool)
      requires Valid()
      modifies this`open, this`available, this`inFlight, this`executed, this`submitted, this`building,
               this`given, maps
      ensures Valid() && (!old(open) ==> available == old(available) && inFlight == old(inFlight))
      ensures !open
      ensures old(open) && old(position) > 0 ==>
                if accepted then
                  && submitted == old(submitted) + [old(building)] && inFlight == old(inFlight)[current := true]
                  && available
                else !available && submitted == old(submitted) && inFlight == old(inFlight)
      ensures !(old(open) && old(position) > 0) ==>
                submitted == old(submitted) && available == old(available) && inFlight == old(inFlight)
      ensures accepted && old(Conserved()) ==> Conserved()
    {
      if !available || !open {
        return;
      }
      open := false;
      if position == 0 {
        building := [];
        return;
      }
      hide IsBatch, Recorded, Flatten;
      ghost var dwords := WriteTrailer();
      Handover(accepted, dwords);
    }

    /** The submission itself. */
    method Handover(accepted: bool, ghost dwords: seq<U32>)
      requires Shape() && Recorded() && Untouched(0) && Untouched(1) && !open && IsBatch(dwords, building)
      requires dwords <= maps[current][..]
      modifies this`available, this`inFlight, this`executed, this`submitted, this`building, this`given
      ensures Valid() && building == []
      ensures if accepted
              then submitted == old(submitted) + [old(building)] && inFlight == old(inFlight)[current := true]
                   && available == old(available)
              else !available && submitted == old(submitted) && inFlight == old(inFlight)
      ensures accepted && old(Conserved()) ==> Conserved()
    {
      if accepted {
        Give(dwords);
        Submit(dwords);
      } else {
        available := false;
        building := [];
      }
    }

    /** The open batch becomes a submitted one. */
    ghost method Submit(dwords: seq<U32>)
      requires |executed| > 0 && executed[|executed| - 1] == dwords && IsBatch(dwords, building)
      requires AreBatches(executed[..|executed| - 1], submitted)
      modifies this`submitted, this`building
      ensures Recorded() && building == [] && submitted == old(submitted) + [old(building)]
      ensures old(Conserved()) ==> Conserved()
    {
      PayloadsSnoc(submitted, building);
      AreBatchesSnoc(executed[..|executed| - 1], submitted, dwords, building);
      assert executed == executed[..|executed| - 1] + [dwords];
      hide IsBatch, AreBatches, Payloads;
      assert Payloads(submitted) + Flatten(building) == Payloads(submitted + [building]) + Flatten([]);
      submitted := submitted + [building];
      building := [];
    }

    /** The kernel hands the current buffer to the GPU. */
    method Give(ghost dwords: seq<U32>)
      requires Shape() && Untouched(0) && Untouched(1) && dwords <= maps[current][..]
      modifies this`inFlight, this`given, this`executed
      ensures Shape() && Untouched(0) && Untouched(1)
      ensures executed == old(executed) + [dwords] && inFlight == old(inFlight)[current := true]
    {
      executed := executed + [dwords];
      inFlight, given := inFlight[current := true], given[current := dwords];
    }

    /** Whether a command goes into the open batch without submitting it first. */
    ghost predicate Fits(commands: Command)
      reads this
    {
      open ==> 4 * (position + |commands|) + 16 <= BATCH_SIZE
    }

    /** Appends a command, submitting the open batch first when the command does not fit. While no
        submission fails nothing is lost, and the command lies whole in the batch now open. */
    method Add(commands: Command)
      requires Valid() && 4 * |commands| + 16 <= BATCH_SIZE
      modifies this, maps
      ensures Valid() && available == old(available)
      ensures !old(available) ==> submitted == old(submitted) && building == old(building) && added == old(added)
      ensures old(available) ==>
                && open && added == old(added) + commands && (old(Conserved()) ==> Conserved())
                && position == (if old(open && Fits(commands)) then old(position) else 0) + |commands|
                && (if old(Fits(commands))
                    then submitted == old(submitted) && building == old(building) + [commands]
                    else submitted == old(submitted) + [old(building)] && building == [commands])
    {
      if !available {
        return;
      }
      if !open {
        Begin();
      }
      if 4 * (position + |commands|) + 16 > BATCH_SIZE {
        End(true);
        Begin();
      }
      CopyIn(commands);
    }

    /** Waits until the GPU holds neither buffer. */
    method WaitIdle()
      requires Valid()
      modifies this`inFlight
      ensures Valid() && inFlight == if available then [false, false] else old(inFlight)
    {
      if !available {
        return;
      }
      for i := 0 to BATCH_COUNT
        invariant Valid() && forall j :: 0 <= j < i ==> !inFlight[j]
      {
        WaitBatch(i);
      }
    }

    lemma ClosedIsSubmitted()
      requires Valid() && Conserved() && !open
      ensures Payloads(submitted) == added
    {
    }

    /** The GPU retires any batches. */
    method Retirements()
      requires Valid()
      modifies this`inFlight
      ensures Valid() && (forall i :: 0 <= i < BATCH_COUNT && inFlight[i] ==> old(inFlight[i]))
      ensures old(inFlight) == [false, false] ==> inFlight == [false, false]
    {
      var steps: nat := *;
      while steps > 0
        invariant Valid() && (forall i :: 0 <= i < BATCH_COUNT && inFlight[i] ==> old(inFlight[i]))
        invariant old(inFlight) == [false, false] ==> inFlight == [false, false]
        decreases steps
      {
        var retired: nat := *;
        if retired < BATCH_COUNT {
          Retire(retired);
        }
        steps := steps - 1;
      }
    }

    /** One call; the GPU may retire batches before and after it. */
    method Do(call: Call)
      requires Valid() && Conserved() && available
      requires call.AddCommand? ==> 4 * |call.commands| + 16 <= BATCH_SIZE
      modifies this, maps
      ensures Valid() && Conserved() && available
      ensures added == old(added) + if call.AddCommand? then call.commands else []
      ensures Now() == AfterCall(old(Now()), call)
      ensures call.WaitForGpu? ==> inFlight == [false, false]
    {
      hide Valid, Conserved, Flatten;
      PositionIsSize();
      Retirements();
      match call {
        case BeginBatch => Begin();
        case AddCommand(commands) => Add(commands);
        case EndBatch => End(true);
        case WaitForGpu => WaitIdle();
      }
      Retirements();
    }

    /** Any list of calls in any order, while the GPU retires batches between them and no submission
        fails: the submitted batches followed by the open one hold exactly what was added, in order, and
        every buffer that the GPU still holds contains what was submitted in it. */
    method Run(calls: seq<Call>)
      requires Valid() && Conserved() && available && added == []
      requires forall k :: 0 <= k < |calls| && calls[k].AddCommand? ==> 4 * |calls[k].commands| + 16 <= BATCH_SIZE
      modifies this, maps
      ensures Valid() && Conserved() && available && added == AllAdded(calls)
      ensures Now() == AfterCalls(old(Now()), calls)
      ensures !open ==> Payloads(submitted) == AllAdded(calls)
      ensures calls != [] && calls[|calls| - 1].WaitForGpu? ==> inFlight == [false, false]
    {
      hide Valid, Conserved;
      for k := 0 to |calls|
        invariant Valid() && Conserved() && available && added == AllAdded(calls[..k])
        invariant Now() == AfterCalls(old(Now()), calls[..k])
        invariant k > 0 && calls[k - 1].WaitForGpu? ==> inFlight == [false, false]
      {
        TakeSnoc(calls, k);
        AllAddedSnoc(calls[..k], calls[k]);
        AfterCallsSnoc(old(Now()), calls[..k], calls[k]);
        Do(calls[k]);
      }
      assert calls[..|calls|] == calls;
      if !open {
        ClosedIsSubmitted();
      }
    }
  }
}
