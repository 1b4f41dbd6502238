/** The command transport of the HDA controller: verbs go out through the CORB, answers come back
    through the RIRB (sections 4.4.1 and 4.4.2 of the Intel High Definition Audio Specification),
    the interrupt handler sorts them, and hda_send_verbs waits for them on a semaphore.

    The controller, the codec and the interrupt handler take their steps in any order between any
    two steps of the sending thread; Environment runs an arbitrary number of them. One codec is
    followed; its callers are serialised. The RIRB is taken not to overrun. A call may begin in any
    state that earlier calls leave behind, timed out or not. */
module HdaTransport {
  import opened Common
  import opened Cyclic

  const MAX_CODEC_RESPONSES := 16
  const MAX_CODEC_UNSOL_RESPONSES := 16

  /** BadValue is what the kernel says when a round queued nothing and waits for zero releases. */
  datatype Status = Ok | TimedOut | BadValue

  /** One RIRB entry: the response, the codec it comes from, and whether it was asked for. */
  datatype Response = Response(value: U32, cad: nat, unsolicited: bool)

  /** Where the interrupt handler is: not running, about to look at the next entry up to the write
      position it read, or between storing a response and releasing the semaphore. */
  datatype Phase = Idle | Examine(target: nat) | Stored(target: nat)

  /** The answers of one codec among RIRB entries. */
  function Answers(s: seq<Response>, addr: nat): seq<U32> {
    if s == [] then []
    else (if s[0].cad == addr && !s[0].unsolicited then [s[0].value] else []) + Answers(s[1..], addr)
  }

  lemma {:induction false} AnswersSnoc(s: seq<Response>, r: Response, addr: nat)
    ensures Answers(s + [r], addr)
            == Answers(s, addr) + if r.cad == addr && !r.unsolicited then [r.value] else []
  {
    assert Answers([], addr) == [];
    hide Answers;
    if s == [] {
      AnswersCons(r, [], addr);
      assert s + [r] == [r] + [];
    } else {
      var t := s[1..];
      AnswersSnoc(t, r, addr);
      AnswersCons(s[0], t, addr);
      AnswersCons(s[0], t + [r], addr);
      assert s == [s[0]] + t && s + [r] == [s[0]] + (t + [r]);
    }
  }

  lemma AnswersCons(r: Response, s: seq<Response>, addr: nat)
    ensures Answers([r] + s, addr) == (if r.cad == addr && !r.unsolicited then [r.value] else []) + Answers(s, addr)
  {
    assert ([r] + s)[1..] == s;
  }

  /** The unsolicited responses of one codec among RIRB entries. */
  function Events(s: seq<Response>, addr: nat): seq<U32> {
    if s == [] then []
    else (if s[0].cad == addr && s[0].unsolicited then [s[0].value] else []) + Events(s[1..], addr)
  }

  lemma {:induction false} EventsSnoc(s: seq<Response>, r: Response, addr: nat)
    ensures Events(s + [r], addr) == Events(s, addr) + if r.cad == addr && r.unsolicited then [r.value] else []
  {
    assert Events([], addr) == [];
    hide Events;
    if s == [] {
      EventsCons(r, [], addr);
      assert s + [r] == [r] + [];
    } else {
      var t := s[1..];
      EventsSnoc(t, r, addr);
      EventsCons(s[0], t, addr);
      EventsCons(s[0], t + [r], addr);
      assert s == [s[0]] + t && s + [r] == [s[0]] + (t + [r]);
    }
  }

  lemma EventsCons(r: Response, s: seq<Response>, addr: nat)
    ensures Events([r] + s, addr) == (if r.cad == addr && r.unsolicited then [r.value] else []) + Events(s, addr)
  {
    assert ([r] + s)[1..] == s;
  }

  /** A buffer of sixteen entries, written in turn, holds the last sixteen of all values. */
  predicate HoldsLatest(buffer: seq<U32>, all: seq<U32>) {
    |buffer| == 16 && forall k :: 0 <= k < |all| && |all| - 16 <= k ==> buffer[k % 16] == all[k]
  }

  lemma LatestNext(buffer: seq<U32>, all: seq<U32>, value: U32)
    requires HoldsLatest(buffer, all)
    ensures HoldsLatest(buffer[|all| % 16 := value], all + [value])
    ensures |all + [value]| % 16 == (|all| % 16 + 1) % 16
  {
    forall k | 0 <= k < |all| && |all| - 15 <= k
      ensures k % 16 != |all| % 16
    {
    }
  }

  lemma ShiftHead(a: seq<U32>, v: U32, b: seq<U32>, c: seq<U32>)
    ensures a + ([v] + b) + c == (a + [v]) + b + c
    ensures a + b + ([v] + c) == a + (b + [v]) + c
  {
  }

  /** The controller takes the first queued verb. */
  lemma VerbFetched(corb: seq<U32>, rp: nat, last: nat, fetched: seq<U32>)
    requires 2 <= |corb| && rp < |corb| && last < |corb| && rp != last
    ensures var n := |corb|;
            fetched + Seg(corb, Next(n, rp), Next(n, last))
            == (fetched + [corb[Next(n, rp)]]) + Seg(corb, Next(n, Next(n, rp)), Next(n, last))
  {
    SegPop(corb, Next(|corb|, rp), Next(|corb|, last));
  }

  lemma AnswerAppended(taken: seq<U32>, waiting: seq<U32>, inFlight: seq<U32>, a: U32)
    ensures (taken + waiting + inFlight) + [a] == taken + waiting + (inFlight + [a])
  {
  }

  lemma StoredNext(taken: seq<U32>, initial: seq<U32>, count: nat, value: U32)
    requires count == |taken| < |initial|
    ensures (taken[..count] + initial[count..])[count := value] == (taken + [value])[..count + 1] + initial[count + 1..]
  {
  }

  lemma CancelRight(a: seq<U32>, b: seq<U32>, c: seq<U32>)
    requires a + c == b + c
    ensures a == b
  {
    assert a == (a + c)[..|a + c| - |c|] && b == (b + c)[..|b + c| - |c|];
  }

  lemma Closer(n: nat, at: nat, target: nat)
    requires at < n && target < n
    ensures at != target ==> Dist(n, Next(n, at), target) < Dist(n, at, target)
  {
  }

  function Dist(n: nat, lo: nat, hi: nat): nat
    requires lo < n && hi < n
  {
    if lo <= hi then hi - lo else n - lo + hi
  }

  class Transport {
    const addr: nat
    const corb: array<U32>
    const rirb: array<Response>
    const responses: array<U32>
    const unsolResponses: array<U32>
    // the driver's positions
    var corbWritePos: nat
    var rirbReadPos: nat
    // the controller's registers
    var corbWp: nat
    var corbRp: nat
    var rirbWp: nat
    // answers on the link, not yet in the RIRB
    var inFlight: seq<U32>
    // the codec's side of the driver
    var responseCount: nat
    var responseSem: nat
    var unsolWrite: nat
    var unsolSem: nat
    var phase: Phase
    // during one call: the verbs put into the CORB after those that earlier calls left unanswered, the
    // ones the codec took with its answers to them, the answers the handler consumed, and how often
    // the semaphore was acquired
    ghost var issued: seq<U32>
    ghost var fetched: seq<U32>
    ghost var answers: seq<U32>
    ghost var taken: seq<U32>
    ghost var acquired: nat
    // the unsolicited responses that reached the RIRB, and those the handler took
    ghost var events: seq<U32>
    ghost var unsolicited: seq<U32>
    // the response array as the call found it, and the releases that earlier calls left
    ghost var initial: seq<U32>
    ghost var stale: nat
    // the CORB read position that the driver last looked at
    ghost var seen: nat

    /** The state init_corb_rirb_pos leaves behind. */
    constructor (codec: nat, corbMemory: array<U32>, rirbMemory: array<Response>)
      requires corbMemory.Length >= 2 && rirbMemory.Length >= 2
      ensures Drained() && corb == corbMemory && rirb == rirbMemory && addr == codec
      ensures Still()
    {
      addr, corb, rirb := codec, corbMemory, rirbMemory;
      var own := new U32[MAX_CODEC_RESPONSES](_ => 0);
      responses := own;
      var unsol := new U32[MAX_CODEC_UNSOL_RESPONSES](_ => 0);
      unsolResponses := unsol;
      corbWritePos, corbWp, corbRp, rirbWp := 0, 0, 0, 0;
      rirbReadPos := 1;
      inFlight := [];
      responseCount, responseSem, unsolWrite, unsolSem := 0, 0, 0, 0;
      phase := Idle;
      issued, fetched, answers, taken, acquired, stale, seen := [], [], [], [], 0, 0, 0;
      initial := seq(MAX_CODEC_RESPONSES, _ => 0);
      events, unsolicited := [], [];
    }

    ghost predicate Apart() {
      && corb.Length >= 2 && rirb.Length >= 2
      && responses.Length == MAX_CODEC_RESPONSES && unsolResponses.Length == MAX_CODEC_UNSOL_RESPONSES
      && corb != responses && corb != unsolResponses && responses != unsolResponses
    }

    ghost predicate CorbShape()
      reads this`corbWritePos, this`corbWp, this`corbRp, this`seen
    {
      && corb.Length >= 2 && corbWritePos < corb.Length && corbWp < corb.Length && corbRp < corb.Length
      && seen < corb.Length
    }

    /** The verbs in the CORB that the controller has not fetched. */
    ghost function Queued(): seq<U32>
      reads this`corbWritePos, this`corbWp, this`corbRp, this`seen, corb
      requires CorbShape()
    {
      Seg(corb[..], Next(corb.Length, corbRp), Next(corb.Length, corbWritePos))
    }

    /** The controller's CORB position is between what it fetched and what the driver wrote, and has
        not passed the driver's view of it. */
    ghost predicate CorbInOrder()
      reads this`corbWritePos, this`corbWp, this`corbRp, this`seen
      requires CorbShape()
    {
      && Dist(corb.Length, corbRp, corbWp) <= Dist(corb.Length, corbRp, corbWritePos)
      && Dist(corb.Length, seen, corbRp) <= Dist(corb.Length, seen, corbWritePos)
    }

    /** What was issued is fetched or queued, and every fetched verb has an answer. */
    ghost predicate VerbsKept()
      reads this`corbWritePos, this`corbWp, this`corbRp, this`seen, this`issued, this`fetched, this`answers, corb
    {
      CorbShape() && CorbInOrder() && issued == fetched + Queued() && |fetched| == |answers|
    }

    ghost predicate RirbShape()
      reads this`rirbReadPos, this`rirbWp
    {
      rirb.Length >= 2 && rirbReadPos < rirb.Length && rirbWp < rirb.Length
    }

    /** The RIRB entries that the handler has not finished with. */
    ghost function Unread(): seq<Response>
      reads this`rirbReadPos, this`rirbWp, rirb
      requires RirbShape()
    {
      Seg(rirb[..], rirbReadPos, Next(rirb.Length, rirbWp))
    }

    /** Those whose response is not stored yet. */
    ghost function Waiting(): seq<Response>
      reads this`rirbReadPos, this`rirbWp, this`phase, rirb
      requires RirbShape()
    {
      if phase.Stored? && Unread() != [] then Unread()[1..] else Unread()
    }

    /** The handler's target is between what it read and what the controller wrote. */
    ghost predicate RirbInOrder()
      reads this`rirbReadPos, this`rirbWp, this`phase
      requires RirbShape()
    {
      && (phase != Idle ==>
            && phase.target < rirb.Length
            && Dist(rirb.Length, rirbReadPos, phase.target)
               <= Dist(rirb.Length, rirbReadPos, Next(rirb.Length, rirbWp)))
      && (phase.Stored? ==> phase.target != rirbReadPos)
    }

    /** What the codec answered is consumed, waiting or in flight. */
    ghost predicate AnswersKept()
      reads this`rirbReadPos, this`rirbWp, this`phase, this`answers, this`taken, this`inFlight, rirb
    {
      RirbShape() && RirbInOrder() && answers == taken + Answers(Waiting(), addr) + inFlight
    }

    /** The first sixteen consumed answers are stored, over what was in the array when the call began, and
        the semaphore counts them. */
    ghost predicate ReleasesKept()
      reads this`responseCount, this`taken, this`responseSem, this`acquired, this`stale, this`phase,
            this`initial, responses
    {
      && responses.Length == MAX_CODEC_RESPONSES
      && responseCount == (if |taken| <= MAX_CODEC_RESPONSES then |taken| else MAX_CODEC_RESPONSES)
      && |initial| == MAX_CODEC_RESPONSES
      && responses[..] == taken[..responseCount] + initial[responseCount..]
      && responseSem + acquired + (if phase.Stored? then 1 else 0) == responseCount + stale
    }

    /** Every unsolicited response is taken or waiting, the last sixteen are in their buffer, and their
        semaphore counts all of them. An entry whose response is stored is an answer. */
    ghost predicate EventsKept()
      reads this`rirbReadPos, this`rirbWp, this`phase, this`unsolWrite, this`unsolSem, this`unsolicited,
            this`events, rirb, unsolResponses
    {
      && RirbShape() && events == unsolicited + Events(Unread(), addr)
      && HoldsLatest(unsolResponses[..], unsolicited)
      && unsolSem == |unsolicited| && unsolWrite == |unsolicited| % 16
      && (phase.Stored? ==> Unread() != [] && IsAnswer(Unread()[0]))
    }

    /** Nothing is lost or reordered. */
    ghost predicate Valid()
      reads this, corb, rirb, responses, unsolResponses
    {
      Apart() && VerbsKept() && AnswersKept() && ReleasesKept() && EventsKept()
    }

    /** Releases of the semaphore that no call has taken yet. */
    ghost function Leftover(): nat
      reads this
    {
      responseSem + if phase.Stored? then 1 else 0
    }

    /** The verbs whose answers the handler has not consumed. */
    ghost function Outstanding(): seq<U32>
      reads this
      requires |taken| <= |issued|
    {
      issued[|taken|..]
    }

    /** No command is under way. */
    ghost predicate Drained()
      reads this, corb, rirb, responses, unsolResponses
    {
      && Valid()
      && corbRp == corbWp == corbWritePos
      && taken == answers && !phase.Stored? && responseSem == 0
    }

    /** A state is drained exactly when no verb of an earlier call is outstanding and no release is left. */
    lemma DrainedIff()
      requires Valid()
      ensures |taken| <= |issued|
      ensures Drained() <==> Outstanding() == [] && Leftover() == 0
    {
      Unanswered();
      if |taken| == |issued| {
        assert Queued() == [];
        AllConsumed();
      }
    }

    // ---------- the controller and the codec ----------

    /** The codec takes the next verb and answers it. */
    method CorbFetch(answer: U32)
      requires Valid() && corbRp != corbWp
      modifies this`corbRp, this`fetched, this`answers, this`inFlight
      ensures Valid() && corbRp == Next(corb.Length, old(corbRp))
      ensures fetched == old(fetched) + [old(Queued())[0]]
      ensures answers == old(answers) + [answer] && inFlight == old(inFlight) + [answer]
    {
      hide ReleasesKept, EventsKept, Dist, Seg, Next, Answers, Waiting, Unread, RirbInOrder;
      var n := corb.Length;
      FetchMoves();
      VerbFetched(corb[..], corbRp, corbWritePos, fetched);
      corbRp := Next(n, corbRp);
      AnswerAppended(taken, Answers(Waiting(), addr), inFlight, answer);
      fetched := fetched + [corb[corbRp]];
      answers := answers + [answer];
      inFlight := inFlight + [answer];
    }

    lemma FetchMoves()
      requires CorbShape() && CorbInOrder() && corbRp != corbWp
      ensures corbRp != corbWritePos && Queued() != [] && Queued()[0] == corb[Next(corb.Length, corbRp)]
      ensures var n, next := corb.Length, Next(corb.Length, corbRp);
              && Dist(n, next, corbWp) <= Dist(n, next, corbWritePos)
              && Dist(n, seen, next) <= Dist(n, seen, corbWritePos)
    {
    }

    /** Room for one more RIRB entry: the hypothesis that the RIRB never overruns. */
    predicate RirbHasRoom()
      reads this
      requires rirb.Length >= 2 && rirbWp < rirb.Length
    {
      Next(rirb.Length, Next(rirb.Length, rirbWp)) != rirbReadPos
    }

    method RirbWrite(r: Response)
      requires RirbShape() && RirbInOrder() && RirbHasRoom()
      modifies this`rirbWp, rirb
      ensures RirbShape() && RirbInOrder()
      ensures Unread() == old(Unread()) + [r] && Waiting() == old(Waiting()) + [r]
    {
      var n := rirb.Length;
      SegPush(rirb[..], rirbReadPos, Next(n, rirbWp), r);
      rirbWp := Next(n, rirbWp);
      rirb[rirbWp] := r;
    }

    /** The oldest answer on the link reaches the RIRB. */
    method RirbAnswer()
      requires Valid() && inFlight != [] && RirbHasRoom()
      modifies this`rirbWp, this`inFlight, rirb
      ensures Valid() && inFlight == old(inFlight)[1..]
      ensures Unread() == old(Unread()) + [Response(old(inFlight)[0], addr, false)]
    {
      hide VerbsKept, ReleasesKept, Dist, Seg, Next, Answers, Events, Unread, Waiting, RirbInOrder, HoldsLatest;
      var r := Response(inFlight[0], addr, false);
      AnswersSnoc(Waiting(), r, addr);
      EventsSnoc(Unread(), r, addr);
      ShiftHead(taken, r.value, Answers(Waiting(), addr), inFlight[1..]);
      assert inFlight == [r.value] + inFlight[1..];
      RirbWrite(r);
      inFlight := inFlight[1..];
    }

    /** Something else reaches the RIRB: an unsolicited response, or one of another codec. */
    method RirbOther(r: Response)
      requires Valid() && RirbHasRoom() && (r.unsolicited || r.cad != addr)
      modifies this`rirbWp, this`events, rirb
      ensures Valid() && events == old(events) + if r.cad == addr then [r.value] else []
    {
      hide VerbsKept, ReleasesKept, Dist, Seg, Next, Answers, Events, Unread, Waiting, RirbInOrder, HoldsLatest;
      AnswersSnoc(Waiting(), r, addr);
      EventsSnoc(Unread(), r, addr);
      RirbWrite(r);
      if r.cad == addr {
        events := events + [r.value];
      }
    }

    // ---------- the interrupt handler ----------

    /** The handler reads the RIRB write position. */
    method HandlerEnter()
      requires Valid() && phase == Idle
      modifies this`phase
      ensures Valid() && phase == Examine(Next(rirb.Length, rirbWp))
    {
      phase := Examine(Next(rirb.Length, rirbWp));
    }

    /** One look at the next entry. Entries of other codecs are skipped; unsolicited responses go to
        their own buffer; a response beyond the sixteenth is dropped. */
    method HandlerExamine()
      requires Valid() && phase.Examine?
      modifies this`phase, this`rirbReadPos, this`responseCount, this`unsolWrite, this`unsolSem, this`unsolicited,
               this`taken, responses, unsolResponses
      ensures Valid() && |old(taken)| <= |taken|
      ensures old(rirbReadPos == phase.target) ==>
                phase == Idle && rirbReadPos == old(rirbReadPos) && AnswersAsBefore() && EventsAsBefore()
      ensures old(rirbReadPos != phase.target && IsAnswer(rirb[rirbReadPos]) && responseCount < MAX_CODEC_RESPONSES) ==>
                && phase == Stored(old(phase.target)) && rirbReadPos == old(rirbReadPos) && EventsAsBefore()
                && responseCount == old(responseCount) + 1 && taken == old(taken + [rirb[rirbReadPos].value])
                && responses[..] == old(responses[..][responseCount := rirb[rirbReadPos].value])
      ensures old(&& rirbReadPos != phase.target && IsAnswer(rirb[rirbReadPos])
                  && responseCount >= MAX_CODEC_RESPONSES) ==>
                && MovedOn() && EventsAsBefore() && taken == old(taken + [rirb[rirbReadPos].value])
                && responseCount == old(responseCount) && responses[..] == old(responses[..])
      ensures old(rirbReadPos != phase.target && rirb[rirbReadPos].cad != addr) ==>
                MovedOn() && AnswersAsBefore() && EventsAsBefore()
      ensures old(rirbReadPos != phase.target && rirb[rirbReadPos].cad == addr && rirb[rirbReadPos].unsolicited) ==>
                MovedOn() && AnswersAsBefore() && EventTaken(old(rirb[rirbReadPos].value))
    {
      hide VerbsKept, AnswersKept, ReleasesKept, EventsKept;
      HandlerInRing();
      var target := phase.target;
      if rirbReadPos == target {
        Leave();
        return;
      }
      var r := rirb[rirbReadPos];
      if r.cad != addr {
        SkipForeign();
      } else if r.unsolicited {
        TakeUnsolicited();
      } else if responseCount >= MAX_CODEC_RESPONSES {
        DropResponse();
      } else {
        StoreResponse();
      }
    }

    /** The handler goes to the next entry. */
    twostate predicate MovedOn()
      requires old(rirbReadPos) < rirb.Length
      reads this
    {
      phase == old(phase) && rirbReadPos == Next(rirb.Length, old(rirbReadPos))
    }

    twostate predicate AnswersAsBefore()
      reads this, responses
    {
      taken == old(taken) && responseCount == old(responseCount) && responses[..] == old(responses[..])
    }

    twostate predicate EventsAsBefore()
      reads this, unsolResponses
    {
      && unsolicited == old(unsolicited) && unsolSem == old(unsolSem) && unsolWrite == old(unsolWrite)
      && unsolResponses[..] == old(unsolResponses[..])
    }

    /** One more unsolicited response is in the buffer, and its reader is woken. */
    twostate predicate EventTaken(value: U32)
      reads this, unsolResponses
    {
      && old(unsolWrite) < |old(unsolResponses[..])|
      && unsolResponses[..] == old(unsolResponses[..])[old(unsolWrite) := value]
      && unsolicited == old(unsolicited) + [value] && unsolSem == old(unsolSem) + 1
      && unsolWrite == (old(unsolWrite) + 1) % 16
    }

    lemma HandlerInRing()
      requires Valid() && phase != Idle
      ensures rirbReadPos < rirb.Length && phase.target < rirb.Length
      ensures unsolWrite < unsolResponses.Length && responseCount <= MAX_CODEC_RESPONSES
    {
    }

    /** An entry that answers a verb to this codec. */
    predicate IsAnswer(r: Response) {
      r.cad == addr && !r.unsolicited
    }

    method Leave()
      requires Valid() && phase.Examine?
      modifies this`phase
      ensures Valid() && phase == Idle
    {
      phase := Idle;
    }

    method StoreUnsolicited(value: U32)
      requires unsolResponses.Length == MAX_CODEC_UNSOL_RESPONSES && unsolWrite < MAX_CODEC_UNSOL_RESPONSES
      modifies this`unsolWrite, this`unsolSem, unsolResponses
      ensures unsolResponses[..] == old(unsolResponses[..])[old(unsolWrite) := value]
      ensures unsolWrite == (old(unsolWrite) + 1) % 16 && unsolSem == old(unsolSem) + 1
    {
      unsolResponses[unsolWrite] := value;
      unsolWrite := (unsolWrite + 1) % MAX_CODEC_UNSOL_RESPONSES;
      unsolSem := unsolSem + 1;
    }

    method TakeUnsolicited()
      requires Valid() && phase.Examine? && rirbReadPos != phase.target && rirbReadPos < rirb.Length
      requires rirb[rirbReadPos].cad == addr && rirb[rirbReadPos].unsolicited
      modifies this`rirbReadPos, this`unsolWrite, this`unsolSem, this`unsolicited, unsolResponses
      ensures Valid() && MovedOn() && EventTaken(rirb[old(rirbReadPos)].value)
    {
      hide VerbsKept, ReleasesKept, Dist, Seg, Answers, Events, HoldsLatest;
      NextEntry();
      var value := rirb[rirbReadPos].value;
      LatestNext(unsolResponses[..], unsolicited, value);
      StoreUnsolicited(value);
      unsolicited := unsolicited + [value];
      rirbReadPos := Next(rirb.Length, rirbReadPos);
    }

    method SkipForeign()
      requires Valid() && phase.Examine? && rirbReadPos != phase.target && rirbReadPos < rirb.Length
      requires rirb[rirbReadPos].cad != addr
      modifies this`rirbReadPos
      ensures Valid() && MovedOn()
    {
      hide VerbsKept, ReleasesKept, Dist, Seg, Answers, Events, HoldsLatest;
      NextEntry();
      rirbReadPos := Next(rirb.Length, rirbReadPos);
    }

    method DropResponse()
      requires Valid() && phase.Examine? && rirbReadPos != phase.target && rirbReadPos < rirb.Length
      requires rirb[rirbReadPos].cad == addr && !rirb[rirbReadPos].unsolicited
      requires responseCount == MAX_CODEC_RESPONSES
      modifies this`rirbReadPos, this`taken
      ensures Valid() && MovedOn() && taken == old(taken) + [rirb[old(rirbReadPos)].value]
    {
      hide VerbsKept, Dist, Seg, Answers, Events, HoldsLatest;
      NextEntry();
      taken := taken + [rirb[rirbReadPos].value];
      rirbReadPos := Next(rirb.Length, rirbReadPos);
    }

    method StoreResponse()
      requires Valid() && phase.Examine? && rirbReadPos != phase.target && rirbReadPos < rirb.Length
      requires rirb[rirbReadPos].cad == addr && !rirb[rirbReadPos].unsolicited
      requires responseCount < MAX_CODEC_RESPONSES
      modifies this`phase, this`responseCount, this`taken, responses
      ensures Valid() && phase == Stored(old(phase.target)) && taken == old(taken + [rirb[rirbReadPos].value])
      ensures responseCount == old(responseCount) + 1
      ensures responses[..] == old(responses[..])[old(responseCount) := rirb[rirbReadPos].value]
    {
      hide VerbsKept, Dist, Seg, Answers, Events, HoldsLatest;
      NextEntry();
      var value := rirb[rirbReadPos].value;
      StoredNext(taken, initial, responseCount, value);
      responses[responseCount] := value;
      responseCount := responseCount + 1;
      taken := taken + [value];
      phase := Stored(phase.target);
    }

    lemma NextEntry()
      requires Valid() && phase.Examine? && rirbReadPos != phase.target
      ensures rirbReadPos < rirb.Length && rirbWp < rirb.Length && rirbReadPos != Next(rirb.Length, rirbWp)
      ensures EntryDone()
      ensures var r := rirb[rirbReadPos];
              var rest := Seg(rirb[..], Next(rirb.Length, rirbReadPos), Next(rirb.Length, rirbWp));
              && Unread() == [r] + rest && Unread()[1..] == rest
              && (r.cad == addr && !r.unsolicited ==>
                    answers == taken + [r.value] + Answers(rest, addr) + inFlight)
              && (r.cad != addr || r.unsolicited ==> Answers(Unread(), addr) == Answers(rest, addr))
              && Events(Unread(), addr)
                 == (if r.cad == addr && r.unsolicited then [r.value] else []) + Events(rest, addr)
    {
      var r := rirb[rirbReadPos];
      var rest := Seg(rirb[..], Next(rirb.Length, rirbReadPos), Next(rirb.Length, rirbWp));
      SegPop(rirb[..], rirbReadPos, Next(rirb.Length, rirbWp));
      AnswersCons(r, rest, addr);
      EventsCons(r, rest, addr);
      ShiftHead(taken, r.value, Answers(rest, addr), inFlight);
    }

    /** The entry whose response is stored is the first unread one. */
    lemma StoredEntry()
      requires Valid() && phase.Stored?
      ensures rirbReadPos < rirb.Length && rirbWp < rirb.Length && EntryDone()
      ensures var rest := Seg(rirb[..], Next(rirb.Length, rirbReadPos), Next(rirb.Length, rirbWp));
              && Waiting() == rest && Events(Unread(), addr) == Events(rest, addr)
    {
      var rest := Seg(rirb[..], Next(rirb.Length, rirbReadPos), Next(rirb.Length, rirbWp));
      SegPop(rirb[..], rirbReadPos, Next(rirb.Length, rirbWp));
      EventsCons(rirb[rirbReadPos], rest, addr);
    }

    /** After this entry the handler is still between what it read and what the controller wrote. */
    ghost predicate EntryDone()
      reads this`rirbReadPos, this`rirbWp, this`phase
    {
      && RirbShape() && phase != Idle && phase.target < rirb.Length
      && Dist(rirb.Length, Next(rirb.Length, rirbReadPos), phase.target)
         <= Dist(rirb.Length, Next(rirb.Length, rirbReadPos), Next(rirb.Length, rirbWp))
    }

    /** The handler releases the semaphore for a stored response and goes on. */
    method HandlerRelease()
      requires Valid() && phase.Stored?
      modifies this`phase, this`rirbReadPos, this`responseSem
      ensures Valid() && responseSem == old(responseSem) + 1 && phase == Examine(old(phase.target))
      ensures rirbReadPos == Next(rirb.Length, old(rirbReadPos))
    {
      hide VerbsKept, Dist, Seg, Answers, Events, HoldsLatest;
      StoredEntry();
      responseSem := responseSem + 1;
      rirbReadPos := Next(rirb.Length, rirbReadPos);
      phase := Examine(phase.target);
    }

    // ---------- any interleaving ----------

    method ControllerStep(choice: nat)
      requires Valid()
      modifies this`corbRp, this`fetched, this`answers, this`inFlight, this`rirbWp, this`events, rirb
      ensures Valid() && old(events) <= events
      ensures old(corbRp) == corbWp ==> corbRp == corbWp && answers == old(answers) && fetched == old(fetched)
    {
      hide VerbsKept, ReleasesKept, EventsKept;
      if choice == 0 && corbRp != corbWp {
        var answer: U32 := *;
        CorbFetch(answer);
      } else if choice == 1 && inFlight != [] && RirbHasRoom() {
        RirbAnswer();
      } else if choice == 2 && RirbHasRoom() {
        var r: Response := *;
        if r.unsolicited || r.cad != addr {
          RirbOther(r);
        }
      }
    }

    method HandlerStep()
      requires Valid()
      modifies this`rirbReadPos, this`phase, this`responseCount, this`unsolWrite, this`unsolSem, this`unsolicited,
               this`taken, this`responseSem, responses, unsolResponses
      ensures Valid() && |old(taken)| <= |taken| && old(responseSem) <= responseSem && old(unsolicited) <= unsolicited
      ensures old(phase.Idle?) ==> phase == Examine(Next(rirb.Length, rirbWp)) && rirbReadPos == old(rirbReadPos)
      ensures !old(phase.Idle?) ==> rirbReadPos < rirb.Length && old(rirbReadPos) < rirb.Length
      ensures old(phase.Examine?) ==>
                if old(rirbReadPos == phase.target) then phase == Idle && rirbReadPos == old(rirbReadPos)
                else MovedOn() || (phase == Stored(old(phase.target)) && rirbReadPos == old(rirbReadPos))
      ensures old(phase.Stored?) ==>
                && phase == Examine(old(phase.target)) && rirbReadPos == Next(rirb.Length, old(rirbReadPos))
                && responseSem == old(responseSem) + 1
    {
      hide VerbsKept, AnswersKept, ReleasesKept, EventsKept;
      if phase != Idle {
        HandlerInRing();
      } else {
        FirstUnread();
      }
      match phase {
        case Idle => HandlerEnter();
        case Examine(_) => HandlerExamine();
        case Stored(_) => HandlerRelease();
      }
      FirstUnread();
    }

    /** A whole run of the handler while nothing else happens: it takes all that is in the RIRB, and
        releases the semaphores for it. */
    method HandlerRun()
      requires Valid() && phase == Idle
      modifies this`rirbReadPos, this`phase, this`responseCount, this`unsolWrite, this`unsolSem, this`unsolicited,
               this`taken, this`responseSem, responses, unsolResponses
      ensures Valid() && phase == Idle && Unread() == []
      ensures taken == old(taken) + Answers(old(Unread()), addr)
      ensures unsolicited == old(unsolicited) + Events(old(Unread()), addr)
      ensures responseSem - old(responseSem) == responseCount - old(responseCount)
      ensures unsolSem - old(unsolSem) == |Events(old(Unread()), addr)|
    {
      hide VerbsKept, AnswersKept, ReleasesKept, EventsKept, Dist;
      RunStarts();
      HandlerEnter();
      ghost var target, last := phase.target, rirbWp;
      while phase != Idle
        invariant Valid() && rirbReadPos < rirb.Length && target < rirb.Length && rirbWp == last
        invariant target == Next(rirb.Length, rirbWp)
        invariant if phase == Idle then rirbReadPos == target else phase.target == target
        invariant phase.Stored? ==> rirbReadPos != target
        decreases Dist(rirb.Length, rirbReadPos, target),
                  match phase case Stored(_) => 1 case Examine(_) => 2 case Idle => 0
      {
        HandlerInRing();
        Closer(rirb.Length, rirbReadPos, target);
        HandlerStep();
        StoredIsAhead();
      }
      RunEnds();
      CancelRight(old(taken) + Answers(old(Unread()), addr), taken, inFlight);
    }

    lemma StoredIsAhead()
      requires Valid()
      ensures phase.Stored? ==> phase.target != rirbReadPos
    {
    }

    lemma RunStarts()
      requires Valid() && phase == Idle
      ensures answers == taken + Answers(Unread(), addr) + inFlight && events == unsolicited + Events(Unread(), addr)
      ensures rirbReadPos < rirb.Length && rirbWp < rirb.Length
      ensures responseSem + acquired == responseCount + stale && unsolSem == |unsolicited|
    {
    }

    lemma RunEnds()
      requires Valid() && phase == Idle && rirbReadPos == Next(rirb.Length, rirbWp)
      ensures Unread() == [] && answers == taken + inFlight && events == unsolicited
      ensures responseSem + acquired == responseCount + stale && unsolSem == |unsolicited|
    {
    }

    /** The controller, the codec and the interrupt handler take any number of steps in any order. */
    method Environment()
      requires Valid()
      modifies this`corbRp, this`fetched, this`answers, this`inFlight, this`rirbWp, this`rirbReadPos, this`phase,
               this`responseCount, this`unsolWrite, this`unsolSem, this`unsolicited, this`events, this`taken,
               this`responseSem, rirb, responses, unsolResponses
      ensures Valid() && |old(taken)| <= |taken| && old(responseSem) <= responseSem
      ensures old(unsolicited) <= unsolicited && old(events) <= events
      ensures old(corbRp) == corbWp ==> corbRp == corbWp && answers == old(answers) && fetched == old(fetched)
      ensures old(Drained()) ==> Drained()
    {
      hide VerbsKept, AnswersKept, ReleasesKept, EventsKept;
      ghost var answersBefore, fetchedBefore := answers, fetched;
      if Drained() {
        DrainedTotals();
      }
      var steps: nat := *;
      while steps > 0
        invariant Valid() && |old(taken)| <= |taken| && old(responseSem) <= responseSem
        invariant old(unsolicited) <= unsolicited && old(events) <= events
        invariant old(corbRp) == corbWp ==> corbRp == corbWp && answers == answersBefore && fetched == fetchedBefore
        decreases steps
      {
        var choice: nat := *;
        if choice < 3 {
          ControllerStep(choice);
        } else {
          HandlerStep();
        }
        steps := steps - 1;
      }
      if old(Drained()) {
        StillDrained();
      }
    }

    lemma DrainedTotals()
      requires Drained()
      ensures acquired == stale + if |answers| <= MAX_CODEC_RESPONSES then |answers| else MAX_CODEC_RESPONSES
    {
    }

    /** Nothing moves in a drained state: its answers are all consumed and their releases all taken. */
    lemma StillDrained()
      requires Valid() && |taken| >= |answers| && corbRp == corbWp == corbWritePos
      requires acquired == stale + if |answers| <= MAX_CODEC_RESPONSES then |answers| else MAX_CODEC_RESPONSES
      ensures Drained()
    {
      AllConsumed();
    }

    lemma AllConsumed()
      requires Valid() && |taken| >= |answers|
      ensures taken == answers && Answers(Waiting(), addr) == [] && inFlight == []
    {
      assert |answers| == |taken| + |Answers(Waiting(), addr)| + |inFlight|;
    }

    // ---------- the sending thread ----------

    /** Puts one verb into the CORB; what the controller has not fetched yet stays as it is. */
    method QueueVerb(writePos: nat, verb: U32)
      requires Valid() && writePos == Next(corb.Length, corbWritePos) && writePos != seen
      modifies this`corbWritePos, this`issued, corb
      ensures Valid() && Queued() == old(Queued()) + [verb] && issued == old(issued) + [verb]
      ensures corbWritePos == writePos
    {
      hide AnswersKept, ReleasesKept, EventsKept;
      RoomToQueue();
      SegPush(corb[..], Next(corb.Length, corbRp), writePos, verb);
      corb[writePos] := verb;
      corbWritePos := writePos;
      issued := issued + [verb];
      assert issued == fetched + Queued();
    }

    /** The slot behind the write position is free although the read position may have moved on. */
    lemma RoomToQueue()
      requires CorbShape() && CorbInOrder() && Next(corb.Length, corbWritePos) != seen
      ensures var n, next := corb.Length, Next(corb.Length, corbWritePos);
              && next != corbRp && next < corb.Length
              && Dist(n, corbRp, corbWp) <= Dist(n, corbRp, next) && Dist(n, seen, corbRp) <= Dist(n, seen, next)
    {
    }

    /** Waits until count releases are there and takes them all, or gives up. */
    method AcquireSem(count: nat) returns (ok: bool)
      requires Valid()
      modifies this`corbRp, this`fetched, this`answers, this`inFlight, this`rirbWp, this`rirbReadPos, this`phase,
               this`responseCount, this`unsolWrite, this`unsolSem, this`unsolicited, this`events, this`taken,
               this`responseSem, this`acquired, rirb, responses, unsolResponses
      ensures Valid()
      ensures acquired == old(acquired) + if ok then count else 0
      ensures old(responseSem) >= count ==> ok
      ensures !ok ==> responseSem < count
    {
      hide VerbsKept, AnswersKept;
      var polls: nat :| 0 < polls;
      ok := false;
      while polls > 0 && !ok
        invariant Valid() && acquired == old(acquired) && (ok ==> responseSem >= count)
        invariant old(responseSem) <= responseSem && (ok || polls > 0 || responseSem < count)
        decreases polls
      {
        Environment();
        ok := responseSem >= count;
        polls := polls - 1;
      }
      if ok {
        TakeReleases(count);
      }
    }

    method TakeReleases(count: nat)
      requires Valid() && responseSem >= count
      modifies this`responseSem, this`acquired
      ensures Valid() && acquired == old(acquired) + count
    {
      hide VerbsKept, AnswersKept, EventsKept;
      responseSem := responseSem - count;
      acquired := acquired + count;
    }

    /** When every issued verb was paid for with a response, nothing is left anywhere. */
    lemma AllAnswered()
      requires Valid() && stale == 0 && acquired == |issued|
      ensures fetched == issued && taken == answers && |answers| == responseCount == |issued|
      ensures corbRp == corbWritePos && responseSem == 0 && !phase.Stored?
      ensures responses[..responseCount] == answers
    {
      assert responses[..responseCount] == responses[..][..responseCount];
      assert |taken| <= |answers| == |fetched| <= |issued| == acquired <= responseCount <= |taken|;
      AllConsumed();
      assert Queued() == [];
    }

    /** A call starts counting responses from zero. The verbs that earlier calls left without an answer
        and the releases they left on the semaphore stay. */
    method StartCall()
      requires Valid()
      modifies this`responseCount, this`issued, this`fetched, this`answers, this`taken, this`acquired, this`stale,
               this`initial
      ensures Valid() && initial == responses[..] && responseCount == 0 && answers == old(answers)[|old(taken)|..]
      ensures issued == old(Outstanding()) && acquired == 0 && stale == old(Leftover())
      ensures taken == [] && (old(Drained()) ==> issued == [] && stale == 0)
    {
      hide VerbsKept, AnswersKept, ReleasesKept, EventsKept, Drained;
      Unanswered();
      ForgetAnswered();
      CountFromZero();
    }

    ghost method ForgetAnswered()
      requires VerbsKept() && AnswersKept() && |taken| <= |answers| <= |issued|
      requires issued[|taken|..] == fetched[|taken|..] + Queued()
      requires answers[|taken|..] == [] + Answers(Waiting(), addr) + inFlight
      modifies this`issued, this`fetched, this`answers, this`taken
      ensures VerbsKept() && AnswersKept() && taken == [] && issued == old(Outstanding())
      ensures answers == old(answers)[|old(taken)|..]
    {
      hide CorbInOrder, RirbInOrder, Queued, Waiting;
      issued, fetched, answers := issued[|taken|..], fetched[|taken|..], answers[|taken|..];
      taken := [];
    }

    method CountFromZero()
      requires responses.Length == MAX_CODEC_RESPONSES && taken == []
      modifies this`responseCount, this`acquired, this`stale, this`initial
      ensures ReleasesKept() && acquired == 0 && stale == old(Leftover()) && responseCount == 0
      ensures initial == responses[..]
    {
      responseCount := 0;
      initial := responses[..];
      acquired, stale := 0, Leftover();
    }

    lemma Unanswered()
      requires Valid()
      ensures |taken| <= |answers| == |fetched| <= |issued|
      ensures issued[|taken|..] == fetched[|taken|..] + Queued()
      ensures answers[|taken|..] == [] + Answers(Waiting(), addr) + inFlight
      ensures Drained() ==> |issued| == |taken| && Leftover() == 0
    {
      assert answers == taken + (Answers(Waiting(), addr) + inFlight);
    }

    /** Sends verbs and waits for the answers, in any state and under every interleaving. When it succeeds,
        the entries below responseCount are the codec's answers to the verbs that earlier calls left
        outstanding and then to these, in this order, and the entries from there on are what the array
        held before the call. So an entry answers its own verb exactly where nothing was outstanding and
        the handler has stored that many responses, and without leftover releases it has stored them all.
        From a drained state, where nothing is outstanding or left over, the result is what the codec
        answered to each verb, the semaphore is back at zero and the state is drained again. Without
        leftover releases a call with more than 16 verbs never succeeds. It gives up only when releases for
        the verbs it sent are missing, or when the CORB is full. Every round queues a verb, so it ends. */
    method SendVerbs(verbs: seq<U32>) returns (status: Status, out: seq<U32>)
      requires Valid()
      modifies this, corb, rirb, responses, unsolResponses
      ensures Valid()
      ensures status == Ok ==>
                && issued == old(Outstanding()) + verbs && fetched <= issued && |fetched| == |answers|
                && |verbs| <= responseCount + old(Leftover())
                && |out| == (if |verbs| <= 16 then |verbs| else 16)
                && responseCount <= |answers| && (old(Outstanding()) == [] ==> fetched <= verbs)
                && forall k :: 0 <= k < |out| ==> out[k] == if k < responseCount then answers[k] else old(responses[k])
      ensures status == Ok && old(Leftover()) == 0 ==>
                |verbs| <= responseCount <= 16 && |verbs| <= |answers| && out == answers[..|verbs|]
      ensures status == Ok && old(Drained()) ==>
                && Drained() && fetched == verbs && |answers| == |verbs| && out == answers
                && responseCount == |verbs| && responseSem == 0
      ensures old(Drained()) ==> status != BadValue
      ensures status == TimedOut ==> acquired + responseSem < |issued| - |old(Outstanding())|
      ensures status == BadValue ==>
                verbs != [] && corbWritePos < corb.Length && Next(corb.Length, corbWritePos) == seen
    {
      hide VerbsKept, AnswersKept, ReleasesKept, EventsKept;
      StartCall();
      out := [];
      ghost var late := issued;
      var sent := 0;
      while sent < |verbs|
        invariant Valid() && 0 <= sent <= |verbs| && issued == late + verbs[..sent] && acquired == sent
        invariant stale == old(Leftover()) && initial == old(responses[..])
        invariant old(Drained()) ==> corbRp == corbWp == corbWritePos
        decreases |verbs| - sent
      {
        status, sent := SendRound(verbs, sent, late);
        if status != Ok {
          return;
        }
      }
      assert verbs[..sent] == verbs;
      out := CopyResponses(|verbs|);
      if old(Drained()) {
        AllAnswered();
      }
      status := Ok;
    }

    /** The final memcpy, of the sixteen responses there are. */
    method CopyResponses(count: nat) returns (out: seq<U32>)
      requires Valid() && acquired == count
      ensures |out| == if count <= MAX_CODEC_RESPONSES then count else MAX_CODEC_RESPONSES
      ensures fetched <= issued && |fetched| == |answers|
      ensures count <= responseCount + stale && responseCount <= |answers| && responseCount <= MAX_CODEC_RESPONSES
      ensures |initial| == MAX_CODEC_RESPONSES
      ensures forall k :: 0 <= k < |out| ==> out[k] == if k < responseCount then answers[k] else initial[k]
    {
      out := responses[..if count <= MAX_CODEC_RESPONSES then count else MAX_CODEC_RESPONSES];
      assert responseCount <= |taken| <= |answers|;
      forall k | 0 <= k < |out|
        ensures out[k] == if k < responseCount then answers[k] else initial[k]
      {
        assert out[k] == responses[..][k] == (taken[..responseCount] + initial[responseCount..])[k];
      }
    }

    /** One round: queues what fits, publishes the write position and waits for all its answers. */
    method SendRound(verbs: seq<U32>, from: nat, ghost late: seq<U32>) returns (status: Status, sent: nat)
      requires Valid() && from < |verbs| && issued == late + verbs[..from] && acquired == from
      modifies this, corb, rirb, responses, unsolResponses
      ensures Valid() && from <= sent <= |verbs| && stale == old(stale) && initial == old(initial)
      ensures issued == late + verbs[..sent]
      ensures status == Ok ==> from < sent && acquired == sent
      ensures status == TimedOut ==> acquired + responseSem < sent
      ensures status == BadValue ==>
                from == sent && corbWritePos < corb.Length && Next(corb.Length, corbWritePos) == seen
      ensures corbWp == corbWritePos
      ensures old(corbRp == corbWp == corbWritePos) && late == [] && stale == 0 ==>
                status != BadValue && (status == Ok ==> corbRp == corbWritePos)
    {
      hide VerbsKept, AnswersKept, ReleasesKept, EventsKept;
      sent := QueueRound(verbs, from, late);
      Publish();
      if sent == from {
        return BadValue, sent;
      }
      var ok := AcquireSem(sent - from);
      status := if ok then Ok else TimedOut;
      if ok && late == [] && stale == 0 {
        AllAnswered();
      }
    }

    /** Tells the controller how far the CORB is written. */
    method Publish()
      requires Valid()
      modifies this`corbWp
      ensures Valid() && corbWp == corbWritePos
    {
      hide AnswersKept, ReleasesKept, EventsKept;
      corbWp := corbWritePos;
    }

    /** Queues verbs until all are sent or the CORB is full, as far as the driver knows. */
    method QueueRound(verbs: seq<U32>, from: nat, ghost late: seq<U32>) returns (sent: nat)
      requires Valid() && from < |verbs| && issued == late + verbs[..from]
      modifies this`corbRp, this`fetched, this`answers, this`inFlight, this`rirbWp, this`rirbReadPos, this`phase,
               this`responseCount, this`unsolWrite, this`unsolSem, this`unsolicited, this`events, this`taken,
               this`responseSem, this`corbWritePos, this`issued, this`seen, corb, rirb, responses, unsolResponses
      ensures Valid() && from <= sent <= |verbs| && issued == late + verbs[..sent]
      ensures sent < |verbs| ==> corbWritePos < corb.Length && Next(corb.Length, corbWritePos) == seen
      ensures old(corbRp == corbWp == corbWritePos) ==> from < sent
    {
      hide VerbsKept, AnswersKept, ReleasesKept, EventsKept;
      Environment();
      var readPos := ReadCorbPosition();
      sent := from;
      while sent < |verbs|
        invariant Valid() && from <= sent <= |verbs| && issued == late + verbs[..sent]
        invariant seen == readPos && (sent == from ==> corbWritePos == old(corbWritePos))
        invariant old(corbRp == corbWp == corbWritePos) ==> readPos == old(corbRp)
        decreases |verbs| - sent
      {
        var fits := QueueNext(readPos, verbs[sent]);
        if !fits {
          FirstQueued();
          return;
        }
        AppendNext(late, verbs, sent);
        sent := sent + 1;
      }
    }

    lemma FirstQueued()
      requires Valid()
      ensures corbWritePos < corb.Length
    {
    }

    /** The driver looks at the controller's CORB position. */
    method ReadCorbPosition() returns (readPos: nat)
      requires Valid()
      modifies this`seen
      ensures Valid() && seen == readPos == corbRp
    {
      hide AnswersKept, ReleasesKept, EventsKept;
      readPos := corbRp;
      seen := readPos;
    }

    /** Queues the next verb unless the CORB is full. */
    method QueueNext(readPos: nat, verb: U32) returns (fits: bool)
      requires Valid() && readPos == seen
      modifies this`corbRp, this`fetched, this`answers, this`inFlight, this`rirbWp, this`rirbReadPos, this`phase,
               this`responseCount, this`unsolWrite, this`unsolSem, this`unsolicited, this`events, this`taken,
               this`responseSem, this`corbWritePos, this`issued, corb, rirb, responses, unsolResponses
      ensures Valid() && fits == (Next(corb.Length, old(corbWritePos)) != seen)
      ensures old(corbWritePos == seen) ==> fits
      ensures issued == old(issued) + if fits then [verb] else []
      ensures corbWritePos == if fits then Next(corb.Length, old(corbWritePos)) else old(corbWritePos)
    {
      hide AnswersKept, ReleasesKept, EventsKept, CorbInOrder;
      Environment();
      var writePos := Next(corb.Length, corbWritePos);
      if writePos == readPos {
        return false;
      }
      QueueVerb(writePos, verb);
      return true;
    }

    // ---------- what goes wrong after a time-out ----------

    /** A call for one verb up to its wait, from an empty CORB. */
    method Issue(verb: U32)
      requires Valid() && corbRp == corbWp == corbWritePos
      modifies this`seen, this`corbWritePos, this`corbWp, this`issued, corb
      ensures Valid() && issued == old(issued) + [verb] && Queued() == [verb] && corbRp != corbWp
      ensures Next(corb.Length, corbRp) == corbWp == corbWritePos
    {
      hide VerbsKept, AnswersKept, ReleasesKept, EventsKept;
      var readPos := ReadCorbPosition();
      EmptyCorb();
      QueueVerb(Next(corb.Length, corbWritePos), verb);
      Publish();
    }

    lemma EmptyCorb()
      requires Valid() && corbRp == corbWritePos
      ensures Queued() == [] && Next(corb.Length, corbWritePos) != corbRp
    {
    }

    lemma FirstUnread()
      requires Valid()
      ensures rirbReadPos < rirb.Length && rirbWp < rirb.Length
      ensures Unread() != [] ==> Unread()[0] == rirb[rirbReadPos] && rirbReadPos != Next(rirb.Length, rirbWp)
    {
    }

    lemma StoredAnswers()
      requires Valid()
      ensures responseCount <= |taken| && responseCount <= responses.Length
      ensures forall k :: 0 <= k < responseCount ==> responses[k] == taken[k]
    {
      assert forall k :: 0 <= k < responseCount ==> responses[k] == responses[..][k];
    }

    /** The oldest answer on the link arrives and the handler stores it and releases the semaphore. */
    method Deliver()
      requires Valid() && inFlight != [] && phase == Idle && Unread() == [] && RirbHasRoom()
      requires responseCount < MAX_CODEC_RESPONSES
      modifies this`rirbWp, this`inFlight, this`phase, this`rirbReadPos, this`responseCount, this`unsolWrite,
               this`unsolSem, this`unsolicited, this`taken, this`responseSem, rirb, responses, unsolResponses
      ensures Valid() && taken == old(taken) + [old(inFlight)[0]] && inFlight == old(inFlight)[1..]
      ensures responseCount == old(responseCount) + 1 && responseSem == old(responseSem) + 1 && !phase.Stored?
    {
      hide VerbsKept, AnswersKept, ReleasesKept, EventsKept;
      RirbAnswer();
      FirstUnread();
      HandlerEnter();
      HandlerExamine();
      HandlerRelease();
    }

    /** Drained, with no handler running and nothing in the RIRB, as after the start. */
    ghost predicate Still()
      reads this, corb, rirb, responses, unsolResponses
    {
      Drained() && phase == Idle && Unread() == [] && RirbHasRoom() && inFlight == []
    }

    /** A call for one verb that the codec has answered when the wait times out. */
    method TimedOutCall(v: U32, a: U32)
      requires Still()
      modifies this, corb
      ensures Valid() && corbRp == corbWp == corbWritePos && phase == Idle && Unread() == [] && RirbHasRoom()
      ensures issued == [v] && answers == inFlight == [a] && taken == [] && responseCount == 0 && Leftover() == 0
    {
      hide VerbsKept, AnswersKept, ReleasesKept, EventsKept;
      StartCall();
      Issue(v);
      CorbFetch(a);
    }

    /** From a drained state a call for v times out, then w is sent: when the answer to v arrives only
        now, the second call succeeds with it. */
    method LateAnswerIsTaken(v: U32, a: U32, w: U32, b: U32) returns (out: seq<U32>)
      requires Still()
      modifies this, corb, rirb, responses, unsolResponses
      ensures Valid() && issued == [v, w] && fetched == [v, w] && answers == [a, b] && out == [a]
    {
      hide VerbsKept, AnswersKept, ReleasesKept, EventsKept, Still, Drained;
      TimedOutCall(v, a);
      StartCall();
      Issue(w);
      CorbFetch(b);
      out := FinishWithFirst();
    }

    /** The rest of a call for one verb, when one answer arrives. */
    method FinishWithFirst() returns (out: seq<U32>)
      requires Valid() && inFlight != [] && phase == Idle && Unread() == [] && RirbHasRoom()
      requires responseCount == 0 && acquired == 0 && answers != []
      modifies this, rirb, responses, unsolResponses
      ensures Valid() && issued == old(issued) && fetched == old(fetched) && answers == old(answers)
      ensures out == [answers[0]] && fetched <= issued && |fetched| == |answers|
    {
      hide VerbsKept, AnswersKept, ReleasesKept, EventsKept;
      Deliver();
      TakeReleases(1);
      out := CopyResponses(1);
    }

    /** The same, but the answer to v is stored between the two calls: its release lets the second call
        succeed at once, before the codec has taken w. */
    method StaleReleaseIsTaken(v: U32, a: U32, w: U32) returns (out: seq<U32>)
      requires Still()
      modifies this, corb, rirb, responses, unsolResponses
      ensures Valid() && issued == [w] && answers == [] && out == [a]
    {
      hide VerbsKept, AnswersKept, ReleasesKept, EventsKept, Still, Drained;
      TimedOutCall(v, a);
      Deliver();
      StoredAnswers();
      StartCall();
      Issue(w);
      TakeReleases(1);
      out := CopyResponses(1);
    }
  }

  lemma AppendNext(late: seq<U32>, verbs: seq<U32>, i: nat)
    requires i < |verbs|
    ensures late + verbs[..i] + [verbs[i]] == late + verbs[..i + 1]
  {
  }
}
