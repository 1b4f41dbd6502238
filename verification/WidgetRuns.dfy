/** What the searches do to the widgets, step by step: the order in which inputs are tried, what is
    flagged on the way, and which input is chosen. */
module WidgetRuns {
  import opened WidgetGraph
  import opened WidgetTrees

  /** The widgets after a search, whether it found a route, and, on the playback side, whether the
      widget searched last was in use already. */
  datatype Run = Run(ws: seq<Widget>, found: bool, used: bool)

  predicate SameInputs(ws0: seq<Widget>, ws: seq<Widget>) {
    |ws| == |ws0| && forall v :: 0 <= v < |ws| ==> ws[v].inputs == ws0[v].inputs
  }

  /** The search from w. */
  function SearchRun(start: nat, ws: seq<Widget>, w: int, depth: nat, dir: Direction): (r: Run)
    ensures SameInputs(ws, r.ws)
    decreases if depth <= MAX_DEPTH then MAX_DEPTH + 1 - depth else 0, 1, 0
  {
    if !(0 <= w < |ws|) || depth > MAX_DEPTH then Run(ws, false, false)
    else if Ends(ws[w], dir) then Run(ws[w := Mark(ws[w], dir, ws[w].activeInput)], true, false)
    else if Inner(ws[w], dir) && Unused(ws[w], dir) then ScanRun(start, ws, w, 0, depth, false, false, dir)
    else Run(ws, false, dir.Playback? && Inner(ws[w], dir))
  }

  /** The search over the inputs of w from input i on. */
  function ScanRun(start: nat, ws: seq<Widget>, w: nat, i: nat, depth: nat, found: bool, used: bool,
                   dir: Direction): (r: Run)
    requires w < |ws| && i <= |ws[w].inputs| && depth <= MAX_DEPTH
    ensures SameInputs(ws, r.ws)
    decreases MAX_DEPTH + 1 - depth, 0, |ws[w].inputs| - i + 1
  {
    if i == |ws[w].inputs| then Run(ws, found, used)
    else
      var hit := InputRun(start, ws, w, i, depth, dir);
      ScanRun(start, hit.ws, w, i + 1, depth, found || hit.found, hit.used, dir)
  }

  /** The search of input i of w, and the choice of that input if w has none. */
  function InputRun(start: nat, ws: seq<Widget>, w: nat, i: nat, depth: nat, dir: Direction): (r: Run)
    requires w < |ws| && i < |ws[w].inputs| && depth <= MAX_DEPTH
    ensures SameInputs(ws, r.ws)
    decreases MAX_DEPTH + 1 - depth, 0, 0
  {
    var hit := SearchRun(start, ws, Input(start, ws, w, i), depth + 1, dir);
    if hit.found then hit.(ws := Chosen(hit.ws, w, i, dir)) else hit
  }

  lemma ScanRunStep(start: nat, ws: seq<Widget>, w: nat, i: nat, depth: nat, found: bool, used: bool, dir: Direction)
    requires w < |ws| && i < |ws[w].inputs| && depth <= MAX_DEPTH
    ensures var hit := InputRun(start, ws, w, i, depth, dir);
            && SameInputs(ws, hit.ws)
            && ScanRun(start, ws, w, i, depth, found, used, dir)
               == ScanRun(start, hit.ws, w, i + 1, depth, found || hit.found, hit.used, dir)
  {
  }

  /** From input i on, the scan of w's inputs comes out as the whole scan started on ws0 does. */
  predicate OnScan(start: nat, ws0: seq<Widget>, ws: seq<Widget>, w: nat, i: nat, depth: nat, found: bool,
                   used: bool, dir: Direction)
  {
    && w < |ws0| == |ws| && i <= |ws0[w].inputs| == |ws[w].inputs| && depth <= MAX_DEPTH
    && ScanRun(start, ws0, w, 0, depth, false, false, dir) == ScanRun(start, ws, w, i, depth, found, used, dir)
  }

  lemma OnScanStart(start: nat, ws: seq<Widget>, w: nat, depth: nat, dir: Direction)
    requires w < |ws| && depth <= MAX_DEPTH
    ensures OnScan(start, ws, ws, w, 0, depth, false, false, dir)
  {
  }

  lemma OnScanNext(start: nat, ws0: seq<Widget>, ws: seq<Widget>, w: nat, i: nat, depth: nat, found: bool,
                   used: bool, dir: Direction, ws1: seq<Widget>, hit: bool, used1: bool)
    requires OnScan(start, ws0, ws, w, i, depth, found, used, dir) && i < |ws0[w].inputs|
    requires Run(ws1, hit, used1) == InputRun(start, ws, w, i, depth, dir)
    ensures OnScan(start, ws0, ws1, w, i + 1, depth, found || hit, used1, dir)
    ensures |ws1[w].inputs| == |ws0[w].inputs|
  {
    ScanRunStep(start, ws, w, i, depth, found, used, dir);
  }

  lemma ScanRunEnd(start: nat, ws: seq<Widget>, w: nat, depth: nat, found: bool, used: bool, dir: Direction)
    requires w < |ws| && depth <= MAX_DEPTH
    ensures ScanRun(start, ws, w, |ws[w].inputs|, depth, found, used, dir) == Run(ws, found, used)
  {
  }

  lemma OnScanEnd(start: nat, ws0: seq<Widget>, ws: seq<Widget>, w: nat, depth: nat, found: bool, used: bool,
                  dir: Direction)
    requires w < |ws0| && OnScan(start, ws0, ws, w, |ws0[w].inputs|, depth, found, used, dir)
    ensures ScanRun(start, ws0, w, 0, depth, false, false, dir) == Run(ws, found, used)
  {
  }

  /** Input j of a pin is accepted: a route starts there, or a headphone pin shares the used widget. */
  predicate PinAccepts(start: nat, ws: seq<Widget>, v: nat, j: nat, useMixer: bool)
    requires v < |ws| && j < |ws[v].inputs|
  {
    var t := Input(start, ws, v, j);
    var run := SearchRun(start, ws, t, 0, Playback);
    Allowed(ws, t, useMixer) && (run.found || (ws[v].device == HEAD_PHONE_OUT && run.used))
  }

  /** Handling one pin: the first accepted input is chosen after its search. */
  ghost predicate PinRun(start: nat, ws0: seq<Widget>, ws: seq<Widget>, v: nat, useMixer: bool, routed: bool)
    requires v < |ws0|
  {
    if routed then
      exists j :: 0 <= j < |ws0[v].inputs| && PinAccepts(start, ws0, v, j, useMixer)
               && (forall k :: 0 <= k < j ==> !PinAccepts(start, ws0, v, k, useMixer))
               && ws == Chosen(SearchRun(start, ws0, Input(start, ws0, v, j), 0, Playback).ws, v, j, Playback)
    else
      ws == ws0 && forall j :: 0 <= j < |ws0[v].inputs| ==> !PinAccepts(start, ws0, v, j, useMixer)
  }

  /** Handling one capture converter: the first input with a route is chosen after its search. */
  ghost predicate ConverterRun(start: nat, ws0: seq<Widget>, ws: seq<Widget>, v: nat, routed: bool)
    requires v < |ws0|
  {
    if routed then
      exists j :: 0 <= j < |ws0[v].inputs| && ConverterAccepts(start, ws0, v, j)
               && (forall k :: 0 <= k < j ==> !ConverterAccepts(start, ws0, v, k))
               && ws == Chosen(SearchRun(start, ws0, Input(start, ws0, v, j), 0, Capture).ws, v, j, Capture)
    else
      ws == ws0 && forall j :: 0 <= j < |ws0[v].inputs| ==> !ConverterAccepts(start, ws0, v, j)
  }

  predicate ConverterAccepts(start: nat, ws: seq<Widget>, v: nat, j: nat)
    requires v < |ws| && j < |ws[v].inputs|
  {
    SearchRun(start, ws, Input(start, ws, v, j), 0, Capture).found
  }

  lemma PinMissed(start: nat, ws: seq<Widget>, v: nat, useMixer: bool)
    requires v < |ws| && !PinReachesUpTo(start, ws, v, |ws[v].inputs|, useMixer)
    requires forall k :: 0 <= k < |ws[v].inputs| ==> !PinAccepts(start, ws, v, k, useMixer)
    ensures PinStep(start, ws, ws, v, useMixer, false) && PinRun(start, ws, ws, v, useMixer, false)
  {
    forall j | 0 <= j < |ws[v].inputs| && ws[v].device == HEAD_PHONE_OUT
      ensures !SharedInput(start, ws, v, j, useMixer)
    {
      if SharedInput(start, ws, v, j, useMixer) {
        SharedIsAccepted(start, ws, v, j, useMixer);
      }
    }
    hide SearchRun, Reach;
  }

  /** A headphone pin is accepted at an input that is in use. */
  lemma SharedIsAccepted(start: nat, ws: seq<Widget>, v: nat, j: nat, useMixer: bool)
    requires v < |ws| && j < |ws[v].inputs| && ws[v].device == 2 && SharedInput(start, ws, v, j, useMixer)
    ensures PinAccepts(start, ws, v, j, useMixer)
  {
  }

  /** A headphone pin beside a used widget is routed. */
  lemma HeadphoneIsServed(start: nat, ws0: seq<Widget>, ws: seq<Widget>, v: nat, j: nat, useMixer: bool,
                          routed: bool)
    requires v < |ws0| && j < |ws0[v].inputs| && PinRun(start, ws0, ws, v, useMixer, routed)
    requires ws0[v].device == 2 && SharedInput(start, ws0, v, j, useMixer)
    ensures routed
  {
    SharedIsAccepted(start, ws0, v, j, useMixer);
  }

  /** From each widget to its last input, over unused mixers and selectors to one in use. */
  predicate LastInputs(start: nat, ws: seq<Widget>, p: seq<nat>) {
    && p != []
    && (forall k :: 0 <= k < |p| ==> p[k] < |ws| && Inner(ws[p[k]], Playback))
    && (forall k :: 0 <= k < |p| - 1 ==>
          && !ws[p[k]].outputPath && ws[p[k]].inputs != []
          && Input(start, ws, p[k], |ws[p[k]].inputs| - 1) == p[k + 1])
    && ws[p[|p| - 1]].outputPath
  }

  ghost predicate LastInUse(start: nat, ws: seq<Widget>, w: int, hops: int) {
    exists p :: LastInputs(start, ws, p) && p[0] == w && |p| - 1 <= hops
  }

  lemma LastInUseStep(start: nat, ws: seq<Widget>, w: nat, hops: int)
    requires w < |ws| && Inner(ws[w], Playback) && !ws[w].outputPath && ws[w].inputs != []
    ensures LastInUse(start, ws, w, hops)
            <==> LastInUse(start, ws, Input(start, ws, w, |ws[w].inputs| - 1), hops - 1)
  {
    hide Input;
    var t := Input(start, ws, w, |ws[w].inputs| - 1);
    if LastInUse(start, ws, w, hops) {
      var p :| LastInputs(start, ws, p) && p[0] == w && |p| - 1 <= hops;
      LastInputsDrop(start, ws, p);
    }
    if LastInUse(start, ws, t, hops - 1) {
      var q :| LastInputs(start, ws, q) && q[0] == t && |q| - 1 <= hops - 1;
      LastInputsAdd(start, ws, w, q);
      assert ([w] + q)[0] == w;
    }
  }

  lemma LastInputsDrop(start: nat, ws: seq<Widget>, p: seq<nat>)
    requires LastInputs(start, ws, p) && !ws[p[0]].outputPath && ws[p[0]].inputs != []
    ensures |p| > 1 && LastInputs(start, ws, p[1..])
    ensures p[1..][0] == Input(start, ws, p[0], |ws[p[0]].inputs| - 1)
  {
    var q := p[1..];
    assert forall k :: 0 <= k < |q| ==> q[k] == p[k + 1];
  }

  lemma LastInputsAdd(start: nat, ws: seq<Widget>, w: nat, q: seq<nat>)
    requires w < |ws| && Inner(ws[w], Playback) && !ws[w].outputPath && ws[w].inputs != []
    requires LastInputs(start, ws, q) && q[0] == Input(start, ws, w, |ws[w].inputs| - 1)
    ensures LastInputs(start, ws, [w] + q)
  {
    var p := [w] + q;
    assert forall k :: 0 < k < |p| ==> p[k] == q[k - 1];
  }

  lemma LastInUseHere(start: nat, ws: seq<Widget>, w: int, hops: int)
    requires 0 <= hops && !(0 <= w < |ws| && Inner(ws[w], Playback) && !ws[w].outputPath && ws[w].inputs != [])
    ensures LastInUse(start, ws, w, hops) <==> 0 <= w < |ws| && Inner(ws[w], Playback) && ws[w].outputPath
  {
    if 0 <= w < |ws| && Inner(ws[w], Playback) && ws[w].outputPath {
      assert LastInputs(start, ws, [w]);
    }
  }

  lemma NoneInUse(start: nat, ws: seq<Widget>, w: int, hops: int)
    requires hops < 0
    ensures !LastInUse(start, ws, w, hops)
  {
  }

  /** What a failed search reports as in use: the widget at the end of the last inputs. */
  lemma {:induction false} UsedIsLastInUse(start: nat, ws: seq<Widget>, w: int, depth: nat)
    requires !SearchRun(start, ws, w, depth, Playback).found
    ensures SearchRun(start, ws, w, depth, Playback).used <==> LastInUse(start, ws, w, MAX_DEPTH - depth)
    decreases if depth <= MAX_DEPTH then MAX_DEPTH + 1 - depth else 0
  {
    hide LastInUse, Input;
    if depth > MAX_DEPTH {
      NoneInUse(start, ws, w, MAX_DEPTH - depth);
    } else if 0 <= w < |ws| && Inner(ws[w], Playback) && !ws[w].outputPath && ws[w].inputs != [] {
      var last := |ws[w].inputs| - 1;
      FailedScan(start, ws, w, 0, depth, false);
      LastInUseStep(start, ws, w, MAX_DEPTH - depth);
      UsedIsLastInUse(start, ws, Input(start, ws, w, last), depth + 1);
    } else {
      LastInUseHere(start, ws, w, MAX_DEPTH - depth);
    }
  }

  /** A failed scan changes nothing on its way to the last input. */
  lemma {:induction false} FailedScan(start: nat, ws: seq<Widget>, w: nat, i: nat, depth: nat, used: bool)
    requires w < |ws| && i < |ws[w].inputs| && depth <= MAX_DEPTH
    requires !ScanRun(start, ws, w, i, depth, false, used, Playback).found
    ensures var last := SearchRun(start, ws, Input(start, ws, w, |ws[w].inputs| - 1), depth + 1, Playback);
            ScanRun(start, ws, w, i, depth, false, used, Playback).used == last.used && !last.found
    decreases |ws[w].inputs| - i
  {
    hide SearchRun, Reach, Input;
    var hit := InputRun(start, ws, w, i, depth, Playback);
    ScanRunStep(start, ws, w, i, depth, false, used, Playback);
    ScanRunFinds(start, hit.ws, w, i + 1, depth, hit.found, hit.used, Playback);
    SearchRunFinds(start, ws, Input(start, ws, w, i), depth + 1, Playback);
    if i + 1 < |ws[w].inputs| {
      FailedScan(start, ws, w, i + 1, depth, hit.used);
    }
  }

  /** When an input is accepted, without the search: a route of at most 16 connections starts there, or
      for headphones its last inputs lead to a widget in use. */
  lemma PinAcceptsIff(start: nat, ws: seq<Widget>, v: nat, j: nat, useMixer: bool)
    requires v < |ws| && j < |ws[v].inputs|
    ensures var t := Input(start, ws, v, j);
            PinAccepts(start, ws, v, j, useMixer) <==>
            && Allowed(ws, t, useMixer)
            && (HasRoute(start, ws, t, 16, Playback) || (ws[v].device == 2 && LastInUse(start, ws, t, 16)))
  {
    var t := Input(start, ws, v, j);
    SearchRunFinds(start, ws, t, 0, Playback);
    if 0 <= t < |ws| {
      ReachIsRoute(start, ws, t, 0, Playback);
      if !SearchRun(start, ws, t, 0, Playback).found {
        UsedIsLastInUse(start, ws, t, 0);
      }
    }
  }

  /** A mixer in use, a widget of another kind, a mixer that lists both, and a headphone pin behind it.
      Node ids begin at 2. */
  function HeadphoneGroup(usedFirst: bool): seq<Widget> {
    [Widget(AudioMixer, [], 0, true, false, false, false, 0, 0),
     Widget(Other, [], -1, false, false, false, false, 0, 0),
     Widget(AudioMixer, if usedFirst then [2, 3] else [3, 2], -1, false, false, false, false, 0, 0),
     Widget(PinComplex, [4], 0, false, false, true, false, HEAD_PHONE_OUT, 0)]
  }

  /** The order of the mixer's inputs decides whether the headphone pin is served. */
  lemma HeadphoneNeedsLastInput(usedFirst: bool)
    ensures PinAccepts(2, HeadphoneGroup(usedFirst), 3, 0, false) <==> !usedFirst
  {
    var ws := HeadphoneGroup(usedFirst);
    var first, last := if usedFirst then 0 else 1, if usedFirst then 1 else 0;
    assert Input(2, ws, 2, 0) == first && Input(2, ws, 2, 1) == last && Input(2, ws, 3, 0) == 2;
    assert SearchRun(2, ws, first, 1, Playback) == Run(ws, false, first == 0);
    assert SearchRun(2, ws, last, 1, Playback) == Run(ws, false, last == 0);
    ScanRunStep(2, ws, 2, 0, 0, false, false, Playback);
    ScanRunStep(2, ws, 2, 1, 0, false, first == 0, Playback);
    ScanRunEnd(2, ws, 2, 0, false, last == 0, Playback);
  }

  /** The widgets in order, each handled on what the ones before it left. */
  ghost predicate PinsRun(start: nat, ws0: seq<Widget>, ws: seq<Widget>, upTo: nat, useMixer: bool)
    decreases upTo, 0
  {
    if upTo == 0 then ws == ws0 else PinsRunThrough(start, ws0, ws, upTo - 1, useMixer)
  }

  ghost predicate PinsRunThrough(start: nat, ws0: seq<Widget>, ws: seq<Widget>, v: nat, useMixer: bool)
    decreases v, 1
  {
    exists mid :: PinsRun(start, ws0, mid, v, useMixer) && PinTurn(start, mid, ws, v, useMixer)
  }

  ghost predicate PinTurn(start: nat, ws0: seq<Widget>, ws: seq<Widget>, v: nat, useMixer: bool) {
    v < |ws0| && if OutputCandidate(ws0[v]) then exists routed :: PinRun(start, ws0, ws, v, useMixer, routed)
                 else ws == ws0
  }

  lemma OutputTreeStart(start: nat, ws: seq<Widget>, useMixer: bool)
    requires !AnyFlagged(ws, Playback)
    ensures OutputTree(start, ws, ws, 0, useMixer) && PinsRun(start, ws, ws, 0, useMixer)
  {
  }

  lemma PinsRunNext(start: nat, ws0: seq<Widget>, mid: seq<Widget>, ws: seq<Widget>, v: nat, useMixer: bool)
    requires PinsRun(start, ws0, mid, v, useMixer) && PinTurn(start, mid, ws, v, useMixer)
    ensures PinsRun(start, ws0, ws, v + 1, useMixer)
  {
  }

  ghost predicate ConvertersRun(start: nat, ws0: seq<Widget>, ws: seq<Widget>, upTo: nat)
    decreases upTo, 0
  {
    if upTo == 0 then ws == ws0 else ConvertersRunThrough(start, ws0, ws, upTo - 1)
  }

  ghost predicate ConvertersRunThrough(start: nat, ws0: seq<Widget>, ws: seq<Widget>, v: nat)
    decreases v, 1
  {
    exists mid :: ConvertersRun(start, ws0, mid, v) && ConverterTurn(start, mid, ws, v)
  }

  ghost predicate ConverterTurn(start: nat, ws0: seq<Widget>, ws: seq<Widget>, v: nat) {
    v < |ws0| && if ws0[v].kind.AudioInput? then exists routed :: ConverterRun(start, ws0, ws, v, routed)
                 else ws == ws0
  }

  lemma ConvertersRunNext(start: nat, ws0: seq<Widget>, mid: seq<Widget>, ws: seq<Widget>, v: nat)
    requires ConvertersRun(start, ws0, mid, v) && ConverterTurn(start, mid, ws, v)
    ensures ConvertersRun(start, ws0, ws, v + 1)
  {
  }

  lemma ConverterMissed(start: nat, ws: seq<Widget>, v: nat)
    requires v < |ws| && !ConverterReachesUpTo(start, ws, v, |ws[v].inputs|)
    requires forall k :: 0 <= k < |ws[v].inputs| ==> !ConverterAccepts(start, ws, v, k)
    ensures ConverterStep(start, ws, ws, v, false) && ConverterRun(start, ws, ws, v, false)
  {
    hide SearchRun, Reach;
  }

  // ---------- a search that ends at its first widget ----------

  /** The widget is what the search looks for. */
  lemma GoalFound(start: nat, s: Ranking, w: nat, depth: nat, dir: Direction)
    requires IdsInside(start, s.ws) && Ranked(start, s.ws, s.rank, dir) && UnusedArePreset(s.ws, dir)
    requires w < |s.ws| && Ends(s.ws[w], dir) && Listed(start, s.ws, w) && depth <= MAX_DEPTH
    ensures var ws' := s.ws[w := Mark(s.ws[w], dir, s.ws[w].activeInput)];
            && SearchRun(start, s.ws, w, depth, dir) == Run(ws', true, false)
            && SearchedOn(start, s, Ranking(ws', s.rank), w, depth, dir, true)
            && IdsInside(start, ws') && Ranked(start, ws', s.rank, dir) && UnusedArePreset(ws', dir)
  {
    var ws' := s.ws[w := Mark(s.ws[w], dir, s.ws[w].activeInput)];
    if Flagged(s.ws[w], dir) {
      assert ws' == s.ws;
    }
    GrownKeepsIds(start, s.ws, ws', dir);
    forall v | 0 <= v < |ws'| && Flagged(ws'[v], dir) && Inner(ws'[v], dir)
      ensures Steps(start, ws', s.rank, v, dir) && s.rank[v] <= MAX_DEPTH + 1
    {
      assert Steps(start, s.ws, s.rank, v, dir) && NextOf(start, ws', v) == NextOf(start, s.ws, v);
    }
  }

  /** The widget is no goal, and no widget to search on from, or in use already. */
  lemma NothingFound(start: nat, s: Ranking, w: int, depth: nat, dir: Direction)
    requires Ranked(start, s.ws, s.rank, dir) && UnusedArePreset(s.ws, dir)
    requires 0 <= w < |s.ws| && depth <= MAX_DEPTH ==>
               !Ends(s.ws[w], dir) && !(Inner(s.ws[w], dir) && Unused(s.ws[w], dir))
    ensures SearchedOn(start, s, s, w, depth, dir, false)
    ensures var used := 0 <= w < |s.ws| && depth <= MAX_DEPTH && dir.Playback? && Inner(s.ws[w], dir);
            SearchRun(start, s.ws, w, depth, dir) == Run(s.ws, false, used)
  {
  }

  /** The widget is searched on from. */
  lemma SearchGoesOn(start: nat, ws: seq<Widget>, w: nat, depth: nat, dir: Direction)
    requires w < |ws| && depth <= MAX_DEPTH && !Ends(ws[w], dir) && Inner(ws[w], dir) && Unused(ws[w], dir)
    ensures SearchRun(start, ws, w, depth, dir) == ScanRun(start, ws, w, 0, depth, false, false, dir)
  {
  }

  // ---------- what a search achieves ----------

  /** A search finds something exactly when there is a route at its start, and otherwise changes
      nothing, although it changes the widgets between one input and the next. */
  lemma {:induction false} SearchRunFinds(start: nat, ws: seq<Widget>, w: int, depth: nat, dir: Direction)
    ensures var r := SearchRun(start, ws, w, depth, dir);
            r.found == Reach(start, ws, w, depth, dir) && (!r.found ==> r.ws == ws)
    decreases if depth <= MAX_DEPTH then MAX_DEPTH + 1 - depth else 0, 1, 0
  {
    if 0 <= w < |ws| && depth <= MAX_DEPTH && !Ends(ws[w], dir) && Inner(ws[w], dir) && Unused(ws[w], dir) {
      ScanRunFinds(start, ws, w, 0, depth, false, false, dir);
    }
  }

  ghost predicate ReachFrom(start: nat, ws: seq<Widget>, w: nat, i: nat, depth: nat, dir: Direction)
    requires w < |ws|
  {
    exists k :: i <= k < |ws[w].inputs| && Reach(start, ws, Input(start, ws, w, k), depth + 1, dir)
  }

  lemma {:induction false} ScanRunFinds(start: nat, ws: seq<Widget>, w: nat, i: nat, depth: nat, found: bool,
                                        used: bool, dir: Direction)
    requires w < |ws| && i <= |ws[w].inputs| && depth <= MAX_DEPTH
    ensures var r := ScanRun(start, ws, w, i, depth, found, used, dir);
            && (found ==> r.found) && (!r.found ==> r.ws == ws)
            && (!found ==> r.found == ReachFrom(start, ws, w, i, depth, dir))
    decreases MAX_DEPTH + 1 - depth, 0, |ws[w].inputs| - i + 1
  {
    hide ScanRun, InputRun, Reach;
    if i < |ws[w].inputs| {
      var hit := InputRun(start, ws, w, i, depth, dir);
      InputRunFinds(start, ws, w, i, depth, dir);
      ScanRunStep(start, ws, w, i, depth, found, used, dir);
      ScanRunFinds(start, hit.ws, w, i + 1, depth, found || hit.found, hit.used, dir);
    } else {
      ScanRunEnd(start, ws, w, depth, found, used, dir);
    }
  }

  lemma {:induction false} InputRunFinds(start: nat, ws: seq<Widget>, w: nat, i: nat, depth: nat, dir: Direction)
    requires w < |ws| && i < |ws[w].inputs| && depth <= MAX_DEPTH
    ensures var r := InputRun(start, ws, w, i, depth, dir);
            && (!r.found ==> r.ws == ws)
            && ReachFrom(start, ws, w, i, depth, dir) == (r.found || ReachFrom(start, ws, w, i + 1, depth, dir))
    decreases MAX_DEPTH + 1 - depth, 0, 0
  {
    SearchRunFinds(start, ws, Input(start, ws, w, i), depth + 1, dir);
  }

  /** Flagged inner widgets have an active input. */
  predicate FlaggedChose(ws: seq<Widget>, dir: Direction) {
    forall v :: 0 <= v < |ws| && Flagged(ws[v], dir) && Inner(ws[v], dir) ==> ws[v].activeInput != -1
  }

  lemma RankedChose(start: nat, ws: seq<Widget>, rank: seq<nat>, dir: Direction)
    requires Ranked(start, ws, rank, dir)
    ensures FlaggedChose(ws, dir)
  {
    forall v | 0 <= v < |ws| && Flagged(ws[v], dir) && Inner(ws[v], dir)
      ensures ws[v].activeInput != -1
    {
      assert Steps(start, ws, rank, v, dir);
    }
  }

  /** A search only flags unused widgets; it takes back no flag and changes no choice. */
  lemma {:induction false} SearchRunGrows(start: nat, ws: seq<Widget>, w: int, depth: nat, dir: Direction)
    requires FlaggedChose(ws, dir)
    ensures var r := SearchRun(start, ws, w, depth, dir);
            && Grown(ws, r.ws, dir) && FlaggedChose(r.ws, dir)
            && (r.found ==> 0 <= w < |ws| && Flagged(r.ws[w], dir))
    decreases if depth <= MAX_DEPTH then MAX_DEPTH + 1 - depth else 0, 1, 0
  {
    if 0 <= w < |ws| && depth <= MAX_DEPTH {
      if Ends(ws[w], dir) {
        assert Flagged(ws[w], dir) ==> Mark(ws[w], dir, ws[w].activeInput) == ws[w];
      } else if Inner(ws[w], dir) && Unused(ws[w], dir) {
        ScanRunGrows(start, ws, w, 0, depth, false, false, dir);
      }
    }
  }

  lemma {:induction false} ScanRunGrows(start: nat, ws: seq<Widget>, w: nat, i: nat, depth: nat, found: bool,
                                        used: bool, dir: Direction)
    requires w < |ws| && i <= |ws[w].inputs| && depth <= MAX_DEPTH && FlaggedChose(ws, dir)
    requires Inner(ws[w], dir) && (Unused(ws[w], dir) || Flagged(ws[w], dir)) && (found ==> Flagged(ws[w], dir))
    ensures var r := ScanRun(start, ws, w, i, depth, found, used, dir);
            && Grown(ws, r.ws, dir) && FlaggedChose(r.ws, dir) && (r.found ==> Flagged(r.ws[w], dir))
    decreases MAX_DEPTH + 1 - depth, 0, |ws[w].inputs| - i + 1
  {
    hide ScanRun, SearchRun, InputRun, Chosen, Input, Grown, FlaggedChose, Inner, Unused, Flagged;
    if i < |ws[w].inputs| {
      var hit := InputRun(start, ws, w, i, depth, dir);
      InputRunReady(start, ws, w, i, depth, dir);
      ScanRunStep(start, ws, w, i, depth, found, used, dir);
      ScanRunGrows(start, hit.ws, w, i + 1, depth, found || hit.found, hit.used, dir);
      GrownTransitive(ws, hit.ws, ScanRun(start, ws, w, i, depth, found, used, dir).ws, dir);
    } else {
      ScanRunEnd(start, ws, w, depth, found, used, dir);
      ChoiceGrows(ws, w, i, dir);
    }
  }

  /** Whatever the search of an input did, w may still be searched on. */
  lemma InputRunGrows(start: nat, ws: seq<Widget>, w: nat, i: nat, depth: nat, dir: Direction)
    requires w < |ws| && i < |ws[w].inputs| && depth <= MAX_DEPTH
    requires Inner(ws[w], dir) && (Unused(ws[w], dir) || Flagged(ws[w], dir))
    requires var r := SearchRun(start, ws, Input(start, ws, w, i), depth + 1, dir);
             Grown(ws, r.ws, dir) && FlaggedChose(r.ws, dir)
    ensures var r := InputRun(start, ws, w, i, depth, dir);
            && Grown(ws, r.ws, dir) && FlaggedChose(r.ws, dir) && Inner(r.ws[w], dir)
            && (Unused(r.ws[w], dir) || Flagged(r.ws[w], dir))
            && (r.found || Flagged(ws[w], dir) ==> Flagged(r.ws[w], dir))
            && Grown(SearchRun(start, ws, Input(start, ws, w, i), depth + 1, dir).ws, r.ws, dir)
  {
    var hit := SearchRun(start, ws, Input(start, ws, w, i), depth + 1, dir);
    hide SearchRun;
    assert hit.ws[w] == ws[w] || NewlyFlagged(ws[w], hit.ws[w], dir);
    ChoiceGrows(hit.ws, w, i, dir);
    GrownTransitive(ws, hit.ws, InputRun(start, ws, w, i, depth, dir).ws, dir);
  }

  lemma ChoiceGrows(ws: seq<Widget>, w: nat, i: nat, dir: Direction)
    requires w < |ws| && FlaggedChose(ws, dir) && Inner(ws[w], dir) && (Unused(ws[w], dir) || Flagged(ws[w], dir))
    ensures Grown(ws, ws, dir)
    ensures var ws' := Chosen(ws, w, i, dir);
            Grown(ws, ws', dir) && FlaggedChose(ws', dir) && Flagged(ws'[w], dir) && Inner(ws'[w], dir)
  {
    assert Flagged(ws[w], dir) ==> Mark(ws[w], dir, ws[w].activeInput) == ws[w];
  }

  /** Nothing is left to find below w: afterwards every input of w is flagged or has no route. */
  lemma {:induction false} ScanRunExhausts(start: nat, ws: seq<Widget>, w: nat, i: nat, depth: nat, found: bool,
                                           used: bool, dir: Direction)
    requires w < |ws| && i <= |ws[w].inputs| && depth <= MAX_DEPTH && FlaggedChose(ws, dir)
    requires Inner(ws[w], dir) && (Unused(ws[w], dir) || Flagged(ws[w], dir)) && (found ==> Flagged(ws[w], dir))
    ensures var ws' := ScanRun(start, ws, w, i, depth, found, used, dir).ws;
            forall k :: i <= k < |ws[w].inputs| ==> Exhausted(start, ws', Input(start, ws, w, k), depth + 1, dir)
    decreases |ws[w].inputs| - i
  {
    hide ScanRun, InputRun, Grown, Exhausted, Input, FlaggedChose, Inner, Unused, Flagged;
    if i < |ws[w].inputs| {
      var hit := InputRun(start, ws, w, i, depth, dir);
      var last := ScanRun(start, ws, w, i, depth, found, used, dir).ws;
      InputRunReady(start, ws, w, i, depth, dir);
      ScanRunStep(start, ws, w, i, depth, found, used, dir);
      SameInputsLead(start, ws, hit.ws, w);
      ScanRunGrows(start, hit.ws, w, i + 1, depth, found || hit.found, hit.used, dir);
      ScanRunExhausts(start, hit.ws, w, i + 1, depth, found || hit.found, hit.used, dir);
      FirstInputExhausted(start, ws, w, i, depth, last, dir);
    }
  }

  /** The input just searched stays flagged, or without a route. */
  lemma FirstInputExhausted(start: nat, ws: seq<Widget>, w: nat, i: nat, depth: nat, last: seq<Widget>,
                            dir: Direction)
    requires w < |ws| && i < |ws[w].inputs| && depth <= MAX_DEPTH && FlaggedChose(ws, dir)
    requires Inner(ws[w], dir) && (Unused(ws[w], dir) || Flagged(ws[w], dir))
    requires Grown(InputRun(start, ws, w, i, depth, dir).ws, last, dir)
    ensures Exhausted(start, last, Input(start, ws, w, i), depth + 1, dir)
  {
    var t, next := Input(start, ws, w, i), InputRun(start, ws, w, i, depth, dir).ws;
    var r := SearchRun(start, ws, t, depth + 1, dir);
    SearchRunFinds(start, ws, t, depth + 1, dir);
    SearchRunGrows(start, ws, t, depth + 1, dir);
    InputRunGrows(start, ws, w, i, depth, dir);
    hide SearchRun, InputRun, Input;
    GrownTransitive(ws, next, last, dir);
    if r.found {
      GrownTransitive(r.ws, next, last, dir);
    } else if Reach(start, last, t, depth + 1, dir) {
      ReachShrinks(start, ws, last, t, depth + 1, dir);
    }
  }

  lemma SameInputsLead(start: nat, ws: seq<Widget>, ws': seq<Widget>, w: nat)
    requires SameInputs(ws, ws') && w < |ws|
    ensures forall k :: 0 <= k < |ws[w].inputs| ==> Input(start, ws', w, k) == Input(start, ws, w, k)
  {
  }

  ghost predicate Exhausted(start: nat, ws: seq<Widget>, t: int, depth: nat, dir: Direction) {
    (0 <= t < |ws| && Flagged(ws[t], dir)) || !Reach(start, ws, t, depth, dir)
  }

  /** Nothing is flagged without need: a widget that a search flags had a route when it started. */
  lemma {:induction false} SearchRunFlagsRoutes(start: nat, ws: seq<Widget>, w: int, depth: nat, dir: Direction,
                                                v: nat)
    requires FlaggedChose(ws, dir) && v < |ws| && !Flagged(ws[v], dir)
    requires Flagged(SearchRun(start, ws, w, depth, dir).ws[v], dir)
    ensures RouteBelow(start, ws, v, depth, dir)
    decreases if depth <= MAX_DEPTH then MAX_DEPTH + 1 - depth else 0, 1, 0
  {
    if Ends(ws[w], dir) {
      assert Reach(start, ws, v, depth, dir);
    } else {
      ScanRunFlagsRoutes(start, ws, w, 0, depth, false, false, dir, v);
    }
  }

  ghost predicate RouteBelow(start: nat, ws: seq<Widget>, v: nat, depth: nat, dir: Direction) {
    exists d :: depth <= d <= MAX_DEPTH && Reach(start, ws, v, d, dir)
  }

  lemma {:induction false} ScanRunFlagsRoutes(start: nat, ws: seq<Widget>, w: nat, i: nat, depth: nat, found: bool,
                                              used: bool, dir: Direction, v: nat)
    requires w < |ws| && i <= |ws[w].inputs| && depth <= MAX_DEPTH && FlaggedChose(ws, dir)
    requires Inner(ws[w], dir) && (Unused(ws[w], dir) || Flagged(ws[w], dir)) && (found ==> Flagged(ws[w], dir))
    requires v < |ws| && !Flagged(ws[v], dir)
    requires Flagged(ScanRun(start, ws, w, i, depth, found, used, dir).ws[v], dir)
    ensures RouteBelow(start, ws, v, depth, dir)
    decreases MAX_DEPTH + 1 - depth, 0, |ws[w].inputs| - i + 1
  {
    if i < |ws[w].inputs| {
      var hit := InputRun(start, ws, w, i, depth, dir);
      InputRunReady(start, ws, w, i, depth, dir);
      ScanRunStep(start, ws, w, i, depth, found, used, dir);
      if Flagged(hit.ws[v], dir) {
        InputRunFlagsRoutes(start, ws, w, i, depth, dir, v);
      } else {
        hide ScanRun, InputRun, Reach, Grown, Flagged, Input, Unused, Inner, FlaggedChose;
        ScanRunFlagsRoutes(start, hit.ws, w, i + 1, depth, found || hit.found, hit.used, dir, v);
        RouteBelowShrinks(start, ws, hit.ws, v, depth, dir);
      }
    }
  }

  lemma InputRunReady(start: nat, ws: seq<Widget>, w: nat, i: nat, depth: nat, dir: Direction)
    requires w < |ws| && i < |ws[w].inputs| && depth <= MAX_DEPTH && FlaggedChose(ws, dir)
    requires Inner(ws[w], dir) && (Unused(ws[w], dir) || Flagged(ws[w], dir))
    ensures var r := InputRun(start, ws, w, i, depth, dir);
            && Grown(ws, r.ws, dir) && FlaggedChose(r.ws, dir) && Inner(r.ws[w], dir)
            && (Unused(r.ws[w], dir) || Flagged(r.ws[w], dir))
            && (r.found || Flagged(ws[w], dir) ==> Flagged(r.ws[w], dir))
    decreases MAX_DEPTH + 1 - depth, 0, 0
  {
    SearchRunGrows(start, ws, Input(start, ws, w, i), depth + 1, dir);
    InputRunGrows(start, ws, w, i, depth, dir);
  }

  lemma {:induction false} InputRunFlagsRoutes(start: nat, ws: seq<Widget>, w: nat, i: nat, depth: nat,
                                               dir: Direction, v: nat)
    requires w < |ws| && i < |ws[w].inputs| && depth <= MAX_DEPTH && FlaggedChose(ws, dir)
    requires Inner(ws[w], dir) && (Unused(ws[w], dir) || Flagged(ws[w], dir))
    requires v < |ws| && !Flagged(ws[v], dir) && Flagged(InputRun(start, ws, w, i, depth, dir).ws[v], dir)
    ensures RouteBelow(start, ws, v, depth, dir)
    decreases MAX_DEPTH + 1 - depth, 0, 0
  {
    var t := Input(start, ws, w, i);
    if Flagged(SearchRun(start, ws, t, depth + 1, dir).ws[v], dir) {
      SearchRunFlagsRoutes(start, ws, t, depth + 1, dir, v);
      var d :| depth + 1 <= d <= MAX_DEPTH && Reach(start, ws, v, d, dir);
    } else {
      SearchRunFinds(start, ws, t, depth + 1, dir);
      ChosenHadRoute(start, ws, w, i, depth, dir, v);
    }
  }

  lemma RouteBelowShrinks(start: nat, ws0: seq<Widget>, ws: seq<Widget>, v: nat, depth: nat, dir: Direction)
    requires Grown(ws0, ws, dir) && RouteBelow(start, ws, v, depth, dir)
    ensures RouteBelow(start, ws0, v, depth, dir)
  {
    var d :| depth <= d <= MAX_DEPTH && Reach(start, ws, v, d, dir);
    ReachShrinks(start, ws0, ws, v, d, dir);
  }

  lemma ChosenHadRoute(start: nat, ws: seq<Widget>, w: nat, i: nat, depth: nat, dir: Direction, v: nat)
    requires w < |ws| && i < |ws[w].inputs| && depth <= MAX_DEPTH && v < |ws|
    requires Inner(ws[w], dir) && (Unused(ws[w], dir) || Flagged(ws[w], dir)) && !Flagged(ws[v], dir)
    requires var t := Input(start, ws, w, i);
             var r := SearchRun(start, ws, t, depth + 1, dir);
             !Flagged(r.ws[v], dir) && r.found == Reach(start, ws, t, depth + 1, dir)
    requires Flagged(InputRun(start, ws, w, i, depth, dir).ws[v], dir)
    ensures RouteBelow(start, ws, v, depth, dir)
  {
    hide SearchRun;
    assert v == w;
    assert Reach(start, ws, w, depth, dir);
  }

  /** What a search achieves beyond its answer: every input of w is flagged or has no route left, and
      only widgets with a route of their own were flagged. */
  ghost predicate Thorough(start: nat, ws0: seq<Widget>, ws: seq<Widget>, w: int, depth: nat, dir: Direction)
    requires |ws| == |ws0|
  {
    && (0 <= w < |ws0| && depth <= MAX_DEPTH && Inner(ws0[w], dir) && Unused(ws0[w], dir) ==>
          forall k :: 0 <= k < |ws0[w].inputs| ==> Exhausted(start, ws, Input(start, ws0, w, k), depth + 1, dir))
    && (forall v :: 0 <= v < |ws| && Flagged(ws[v], dir) && !Flagged(ws0[v], dir) ==>
          RouteBelow(start, ws0, v, depth, dir))
  }

  lemma SearchIsThorough(start: nat, ws: seq<Widget>, rank: seq<nat>, w: int, depth: nat, dir: Direction)
    requires Ranked(start, ws, rank, dir)
    ensures Thorough(start, ws, SearchRun(start, ws, w, depth, dir).ws, w, depth, dir)
  {
    RankedChose(start, ws, rank, dir);
    var ws' := SearchRun(start, ws, w, depth, dir).ws;
    if 0 <= w < |ws| && depth <= MAX_DEPTH && Inner(ws[w], dir) && Unused(ws[w], dir) {
      ScanRunExhausts(start, ws, w, 0, depth, false, false, dir);
    }
    forall v | 0 <= v < |ws| && Flagged(ws'[v], dir) && !Flagged(ws[v], dir)
      ensures RouteBelow(start, ws, v, depth, dir)
    {
      SearchRunFlagsRoutes(start, ws, w, depth, dir, v);
    }
  }

  lemma {:induction false} ReachEarlier(start: nat, ws: seq<Widget>, w: int, from: nat, depth: nat, dir: Direction)
    requires depth <= from && Reach(start, ws, w, from, dir)
    ensures Reach(start, ws, w, depth, dir)
    decreases MAX_DEPTH - depth
  {
    if !Ends(ws[w], dir) {
      var i :| 0 <= i < |ws[w].inputs| && Reach(start, ws, Input(start, ws, w, i), from + 1, dir);
      ReachEarlier(start, ws, Input(start, ws, w, i), from + 1, depth + 1, dir);
    }
  }

  lemma ThoroughAdds(start: nat, ws0: seq<Widget>, ws: seq<Widget>, w: int, v: nat)
    requires |ws| == |ws0| && Thorough(start, ws0, ws, w, 0, Playback)
    ensures AddedHadRoutes(start, ws0, ws, v)
  {
    forall u | 0 <= u < |ws| && Flagged(ws[u], Playback) && !Flagged(ws0[u], Playback)
      ensures Reach(start, ws0, u, 0, Playback)
    {
      assert RouteBelow(start, ws0, u, 0, Playback);
      var d :| 0 <= d <= MAX_DEPTH && Reach(start, ws0, u, d, Playback);
      ReachEarlier(start, ws0, u, d, 0, Playback);
    }
  }

  // ---------- a route that is too long for the microphone test ----------

  const CHAIN := 18

  /** A capture converter, sixteen mixers and a fixed microphone pin, each listing the next one only.
      Node ids begin at 2. */
  function ChainWidget(i: nat): Widget
    requires i < CHAIN
  {
    var kind := if i == 0 then AudioInput else if i < 17 then AudioMixer else PinComplex;
    if i < 17 then Widget(kind, [i + 3], 0, false, false, false, false, 0, 0)
    else Widget(kind, [], -1, false, false, false, true, MIC_IN, CONNECTIVITY_FIXED)
  }

  /** The chain with the widgets from k on flagged. */
  function Chain(k: nat): (r: seq<Widget>)
    ensures |r| == CHAIN
    ensures forall i :: 0 <= i < CHAIN ==>
              r[i] == if i < k then ChainWidget(i) else ChainWidget(i).(inputPath := true)
  {
    seq(CHAIN, i requires 0 <= i < CHAIN => if i < k then ChainWidget(i) else ChainWidget(i).(inputPath := true))
  }

  lemma {:induction false} ChainRun(k: nat)
    requires 1 <= k < CHAIN
    ensures SearchRun(2, Chain(CHAIN), k, k - 1, Capture) == Run(Chain(k), true, false)
    decreases CHAIN - k
  {
    var ws := Chain(CHAIN);
    if k == 17 {
      assert ws[17 := Mark(ws[17], Capture, ws[17].activeInput)] == Chain(17);
    } else {
      ChainRun(k + 1);
      assert Input(2, ws, k, 0) == k + 1;
      assert Chosen(Chain(k + 1), k, 0, Capture) == Chain(k);
      ScanRunStep(2, ws, k, 0, k - 1, false, false, Capture);
    }
  }

  /** The search routes the converter to the microphone over 17 connections, and the test for the
      built-in microphone does not get there. */
  lemma LongRouteMissesMic()
    ensures ConverterRun(2, Chain(CHAIN), Chain(0), 0, true)
    ensures var p := seq(CHAIN, i => i);
            ActiveRoute(2, Chain(0), p, Capture) && |p| == 18 && IsFixedMic(Chain(0)[p[17]])
    ensures !TrailToFixedMic(2, Chain(0), 0, 15)
  {
    hide SearchRun, ScanRun, TrailToFixedMic;
    var ws := Chain(CHAIN);
    ChainRun(1);
    assert Input(2, ws, 0, 0) == 1;
    assert Chosen(Chain(1), 0, 0, Capture) == Chain(0);
    assert ConverterAccepts(2, ws, 0, 0);
    var p: seq<nat> := seq(CHAIN, i => i);
    assert ActiveRoute(2, Chain(0), p, Capture);
    RoutedConverterMic(2, Chain(0), p);
  }
}
