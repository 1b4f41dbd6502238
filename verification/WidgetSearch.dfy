/** The route searches of the HDA driver over the widgets of one audio function group, and the
    output and input trees built from them. The searches are recursive, bounded in depth, and set
    flags and active inputs in place; in a cyclic graph they enter the same widget again. */
module WidgetSearch {
  import opened WidgetGraph
  import opened WidgetTrees
  import opened WidgetRuns

  class AudioGroup {
    const start: nat
    const widgets: array<Widget>
    // well-founds the chosen inputs, one rank for each search direction
    ghost var rank: seq<nat>

    constructor (firstNode: nat, memory: array<Widget>)
      ensures start == firstNode && widgets == memory
    {
      start, widgets := firstNode, memory;
      rank := [];
    }

    ghost predicate Valid(dir: Direction)
      reads this, widgets
    {
      && IdsInside(start, widgets[..])
      && Ranked(start, widgets[..], rank, dir)
      && UnusedArePreset(widgets[..], dir)
    }

    ghost function Now(): Ranking
      reads this`rank, widgets
    {
      Ranking(widgets[..], rank)
    }

    /** The effect of a search for a route from w at the given depth. */
    twostate predicate Searched(w: int, depth: nat, dir: Direction, found: bool)
      reads this, widgets
    {
      SearchedOn(start, old(Now()), Now(), w, depth, dir, found)
    }

    /** Sets a widget's flag, and its active input unless it has one. */
    method Choose(w: nat, i: nat, dir: Direction)
      requires w < widgets.Length
      modifies widgets
      ensures widgets[..] == Chosen(old(widgets[..]), w, i, dir)
    {
      var active := widgets[w].activeInput;
      if active == -1 {
        active := i;
      }
      widgets[w] := Mark(widgets[w], dir, active);
    }

    /** Searches a route to an output converter. w is -1 for an id outside the group. */
    method FindOutputPath(w: int, depth: nat) returns (found: bool, alreadyUsed: bool)
      requires Valid(Playback) && -1 <= w < widgets.Length
      requires 0 <= w ==> Listed(start, widgets[..], w)
      modifies widgets, this`rank
      ensures Valid(Playback) && Searched(w, depth, Playback, found)
      ensures Run(widgets[..], found, alreadyUsed) == SearchRun(start, old(widgets[..]), w, depth, Playback)
      ensures Thorough(start, old(widgets[..]), widgets[..], w, depth, Playback)
      ensures alreadyUsed ==> AnyFlagged(widgets[..], Playback)
      decreases if depth <= MAX_DEPTH then MAX_DEPTH + 1 - depth else 0, 2
    {
      hide Thorough, Progress, Ranked, UnusedArePreset, IdsInside, Listed, Reach, SearchedOn, SearchRun, ScanRun;
      SearchIsThorough(start, widgets[..], rank, w, depth, Playback);
      if 0 <= w && depth <= MAX_DEPTH && Ends(widgets[w], Playback) {
        GoalFound(start, Now(), w, depth, Playback);
      } else if 0 <= w && depth <= MAX_DEPTH && Inner(widgets[w], Playback) && Unused(widgets[w], Playback) {
        SearchGoesOn(start, widgets[..], w, depth, Playback);
      } else {
        NothingFound(start, Now(), w, depth, Playback);
      }
      alreadyUsed := false;
      if w == -1 || depth > MAX_DEPTH {
        return false, false;
      }
      match widgets[w].kind {
        case AudioOutput =>
          widgets[w] := widgets[w].(outputPath := true);
          return true, false;
        case AudioMixer =>
        case AudioSelector =>
        case _ =>
          return false, false;
      }
      if widgets[w].outputPath {
        return false, true;
      }
      found, alreadyUsed := ScanForOutput(w, depth);
    }

    /** Searches one input of w, and flags w when it leads on. */
    method TryOutput(w: nat, i: nat, depth: nat, found: bool, ghost s0: Ranking)
      returns (hit: bool, alreadyUsed: bool)
      requires Scanned(start, s0, Now(), w, i, depth, found, Playback)
      requires IdsInside(start, s0.ws) && i < |s0.ws[w].inputs| && depth <= MAX_DEPTH
      requires Inner(s0.ws[w], Playback) && Unused(s0.ws[w], Playback) && Listed(start, s0.ws, w)
      modifies widgets, this`rank
      ensures Scanned(start, s0, Now(), w, i + 1, depth, found || hit,
                      Playback)
      ensures Run(widgets[..], hit, alreadyUsed) == InputRun(start, old(widgets[..]), w, i, depth, Playback)
      ensures alreadyUsed ==> AnyFlagged(widgets[..], Playback)
      decreases MAX_DEPTH + 1 - depth, 0
    {
      hide Progress, Ranked, UnusedArePreset, Reach, IdsInside, Listed, FoundAt, Chosen;
      ghost var s1 := Now();
      var t := Lookup(start, widgets.Length, widgets[w].inputs[i]);
      assert Valid(Playback) && t == Input(start, s1.ws, w, i)
             && -1 <= t < widgets.Length && (0 <= t ==> Listed(start, s1.ws, t)) by {
        ScanReady(start, s0, s1, w, i, depth, found, Playback);
      }
      hit, alreadyUsed := FindOutputPath(t, depth + 1);
      if hit {
        rank := ScanHit(start, s0, s1, Now(), w, i,
                        depth, found, Playback);
        Choose(w, i, Playback);
      } else {
        ScanMiss(start, s0, s1, Now(), w, i, depth,
                 found, Playback);
      }
    }

    /** Searches all inputs of a mixer or selector, and flags it when one leads to an output. */
    method ScanForOutput(w: nat, depth: nat) returns (found: bool, alreadyUsed: bool)
      requires Valid(Playback) && w < widgets.Length && depth <= MAX_DEPTH
      requires Inner(widgets[w], Playback) && Unused(widgets[w], Playback) && Listed(start, widgets[..], w)
      modifies widgets, this`rank
      ensures Valid(Playback) && Searched(w, depth, Playback, found)
      ensures Run(widgets[..], found, alreadyUsed)
              == ScanRun(start, old(widgets[..]), w, 0, depth, false, false, Playback)
      ensures alreadyUsed ==> AnyFlagged(widgets[..], Playback)
      decreases MAX_DEPTH + 1 - depth, 1
    {
      hide Inner, Unused, Flagged, AnyFlagged, Reach, Progress, Ranked, UnusedArePreset, IdsInside, Listed, Scanned,
           SearchedOn, SearchRun, ScanRun, InputRun, OnScan;
      found, alreadyUsed := false, false;
      ghost var s0 := Now();
      ScanStart(start, s0.ws, s0.rank, w, depth, Playback);
      OnScanStart(start, s0.ws, w, depth, Playback);
      var i := 0;
      while i < |widgets[w].inputs|
        invariant 0 <= i <= |s0.ws[w].inputs|
        invariant Scanned(start, s0, Now(), w, i, depth, found, Playback)
        invariant |widgets[w].inputs| == |s0.ws[w].inputs|
        invariant OnScan(start, s0.ws, widgets[..], w, i, depth, found, alreadyUsed, Playback)
        invariant alreadyUsed ==> AnyFlagged(widgets[..], Playback)
        decreases |s0.ws[w].inputs| - i
      {
        ghost var ws, used := widgets[..], alreadyUsed;
        var hit;
        hit, alreadyUsed := TryOutput(w, i, depth, found, s0);
        OnScanNext(start, s0.ws, ws, w, i, depth, found, used, Playback, widgets[..], hit, alreadyUsed);
        found := found || hit;
        i := i + 1;
      }
      OnScanEnd(start, s0.ws, widgets[..], w, depth, found, alreadyUsed, Playback);
      ScanDone(start, s0, Now(), w, depth, found, Playback);
    }

    /** Tries one input of an output pin, and routes the pin through it when it is accepted. */
    method TryPin(v: nat, j: nat, useMixer: bool) returns (accepted: bool)
      requires Valid(Playback) && v < widgets.Length && OutputCandidate(widgets[v]) && !widgets[v].outputPath
      requires j < |widgets[v].inputs|
      modifies widgets, this`rank
      ensures Valid(Playback)
      ensures accepted == PinAccepts(start, old(widgets[..]), v, j, useMixer)
      ensures accepted ==>
                && PinStep(start, old(widgets[..]), widgets[..], v, useMixer, true)
                && widgets[..] == Chosen(SearchRun(start, old(widgets[..]), Input(start, old(widgets[..]), v, j), 0,
                                                   Playback).ws, v, j, Playback)
      ensures !accepted ==>
                && widgets[..] == old(widgets[..]) && rank == old(rank)
                && (Allowed(widgets[..], Input(start, widgets[..], v, j), useMixer) ==>
                      !Reach(start, widgets[..], Input(start, widgets[..], v, j), 0, Playback))
    {
      ghost var s0 := Now();
      var t := Lookup(start, widgets.Length, widgets[v].inputs[j]);
      InputIsListed(start, s0.ws, v, j);
      hide Progress, Ranked, UnusedArePreset, Reach, IdsInside, Listed, FoundAt, SearchRun, Chosen, PinStep, Thorough;
      if t == -1 || (useMixer && !widgets[t].kind.AudioMixer? && !widgets[t].kind.AudioSelector?) {
        return false;
      }
      var hit, alreadyUsed := FindOutputPath(t, 0);
      if !hit && !(widgets[v].device == HEAD_PHONE_OUT && alreadyUsed) {
        return false;
      }
      ThoroughAdds(start, s0.ws, widgets[..], t, v);
      PinHit(start, s0, Now(), v, j, useMixer);
      Choose(v, j, Playback);
      return true;
    }

    /** Routes one output pin through the first input that leads to an output converter. */
    method RoutePin(v: nat, useMixer: bool) returns (routed: bool)
      requires Valid(Playback) && v < widgets.Length && OutputCandidate(widgets[v]) && !widgets[v].outputPath
      modifies widgets, this`rank
      ensures Valid(Playback)
      ensures PinStep(start, old(widgets[..]), widgets[..], v, useMixer, routed)
      ensures PinRun(start, old(widgets[..]), widgets[..], v, useMixer, routed)
    {
      ghost var ws0 := widgets[..];
      hide Ranked, UnusedArePreset, Reach, IdsInside, SearchRun, Chosen, PinStep, PinAccepts, Input, Allowed;
      var j := 0;
      while j < |widgets[v].inputs|
        invariant 0 <= j <= |ws0[v].inputs| && widgets[..] == ws0 && Valid(Playback)
        invariant !PinReachesUpTo(start, ws0, v, j, useMixer)
        invariant forall k :: 0 <= k < j ==> !PinAccepts(start, ws0, v, k, useMixer)
        decreases |ws0[v].inputs| - j
      {
        var accepted := TryPin(v, j, useMixer);
        if accepted {
          return true;
        }
        j := j + 1;
      }
      PinMissed(start, ws0, v, useMixer);
      return false;
    }

    /** Builds the output tree. Every flagged pin leads on; every candidate pin left over has no
        route even now; and nothing is changed when no pin can be routed. */
    method BuildOutputTree(useMixer: bool) returns (found: bool)
      requires Valid(Playback) && !AnyFlagged(widgets[..], Playback)
      modifies widgets, this`rank
      ensures Valid(Playback)
      ensures OutputTree(start, old(widgets[..]), widgets[..], widgets.Length, useMixer)
      ensures PinsRun(start, old(widgets[..]), widgets[..], widgets.Length, useMixer)
      ensures found <==> exists v :: 0 <= v < widgets.Length && OutputCandidate(old(widgets[..])[v])
                                  && PinReaches(start, old(widgets[..]), v, useMixer)
      ensures !found ==> widgets[..] == old(widgets[..])
    {
      hide PinReaches, PinsRun, OutputTree, OutputCandidate, Ranked, UnusedArePreset, IdsInside, AnyFlagged;
      found := false;
      ghost var ws0 := widgets[..];
      OutputTreeStart(start, ws0, useMixer);
      for i := 0 to widgets.Length
        invariant Valid(Playback) && OutputTree(start, ws0, widgets[..], i, useMixer)
        invariant PinsRun(start, ws0, widgets[..], i, useMixer)
        invariant found <==> exists v :: 0 <= v < i && OutputCandidate(ws0[v]) && PinReaches(start, ws0, v, useMixer)
        invariant !found ==> widgets[..] == ws0
      {
        ghost var ws := widgets[..];
        var routed := TakePin(i, ws0, useMixer);
        if routed {
          found := true;
        }
      }
    }

    /** One turn of the loop over the widgets: a candidate pin is routed if it can be. */
    method TakePin(i: nat, ghost ws0: seq<Widget>, useMixer: bool) returns (routed: bool)
      requires Valid(Playback) && i < widgets.Length && OutputTree(start, ws0, widgets[..], i, useMixer)
      requires PinsRun(start, ws0, widgets[..], i, useMixer) && !AnyFlagged(ws0, Playback)
      modifies widgets, this`rank
      ensures Valid(Playback) && OutputTree(start, ws0, widgets[..], i + 1, useMixer)
      ensures PinsRun(start, ws0, widgets[..], i + 1, useMixer)
      ensures !routed ==> widgets[..] == old(widgets[..])
      ensures old(widgets[..]) == ws0 ==> (routed <==> OutputCandidate(ws0[i]) && PinReaches(start, ws0, i, useMixer))
    {
      hide Reach, SearchRun, PinRun, PinsRun, Ranked, UnusedArePreset, IdsInside, PinReaches;
      ghost var ws := widgets[..];
      routed := false;
      if OutputCandidate(widgets[i]) {
        routed := RoutePin(i, useMixer);
        OutputTreeStep(start, ws0, ws, widgets[..], i, useMixer, routed);
      } else {
        OutputTreeSkip(start, ws0, ws, i, useMixer);
      }
      PinsRunNext(start, ws0, ws, widgets[..], i, useMixer);
    }

    /** Searches a route to a capture pin. w is -1 for an id outside the group. The ghost result is the
        third part of the specified run, which only matters on the playback side. */
    method FindInputPath(w: int, depth: nat) returns (found: bool, ghost used: bool)
      requires Valid(Capture) && -1 <= w < widgets.Length
      requires 0 <= w ==> Listed(start, widgets[..], w)
      modifies widgets, this`rank
      ensures Valid(Capture) && Searched(w, depth, Capture, found)
      ensures Run(widgets[..], found, used) == SearchRun(start, old(widgets[..]), w, depth, Capture)
      ensures Thorough(start, old(widgets[..]), widgets[..], w, depth, Capture)
      decreases if depth <= MAX_DEPTH then MAX_DEPTH + 1 - depth else 0, 2
    {
      hide Thorough, Progress, Ranked, UnusedArePreset, IdsInside, Listed, Reach, SearchedOn, SearchRun, ScanRun;
      SearchIsThorough(start, widgets[..], rank, w, depth, Capture);
      if 0 <= w && depth <= MAX_DEPTH && Ends(widgets[w], Capture) {
        GoalFound(start, Now(), w, depth, Capture);
      } else if 0 <= w && depth <= MAX_DEPTH && Inner(widgets[w], Capture) && Unused(widgets[w], Capture) {
        SearchGoesOn(start, widgets[..], w, depth, Capture);
      } else {
        NothingFound(start, Now(), w, depth, Capture);
      }
      used := false;
      if w == -1 || depth > MAX_DEPTH {
        return false, false;
      }
      match widgets[w].kind {
        case PinComplex =>
          if widgets[w].inputPath || widgets[w].outputPath {
            return false, false;
          }
          if widgets[w].canInput
             && (widgets[w].device == CD || widgets[w].device == LINE_IN || widgets[w].device == MIC_IN) {
            widgets[w] := widgets[w].(inputPath := true);
            return true, false;
          }
          return false, false;
        case AudioInput =>
        case AudioMixer =>
        case AudioSelector =>
        case _ =>
          return false, false;
      }
      if widgets[w].inputPath || widgets[w].outputPath {
        return false, false;
      }
      found, used := ScanForInput(w, depth);
    }

    /** Searches one input of w, and flags w when it leads on. */
    method TryInput(w: nat, i: nat, depth: nat, found: bool, ghost s0: Ranking)
      returns (hit: bool, ghost used: bool)
      requires Scanned(start, s0, Now(), w, i, depth, found, Capture)
      requires IdsInside(start, s0.ws) && i < |s0.ws[w].inputs| && depth <= MAX_DEPTH
      requires Inner(s0.ws[w], Capture) && Unused(s0.ws[w], Capture) && Listed(start, s0.ws, w)
      modifies widgets, this`rank
      ensures Scanned(start, s0, Now(), w, i + 1, depth, found || hit,
                      Capture)
      ensures Run(widgets[..], hit, used) == InputRun(start, old(widgets[..]), w, i, depth, Capture)
      decreases MAX_DEPTH + 1 - depth, 0
    {
      hide Progress, Ranked, UnusedArePreset, Reach, IdsInside, Listed, FoundAt, Chosen;
      ghost var s1 := Now();
      var t := Lookup(start, widgets.Length, widgets[w].inputs[i]);
      assert Valid(Capture) && t == Input(start, s1.ws, w, i)
             && -1 <= t < widgets.Length && (0 <= t ==> Listed(start, s1.ws, t)) by {
        ScanReady(start, s0, s1, w, i, depth, found, Capture);
      }
      hit, used := FindInputPath(t, depth + 1);
      if hit {
        rank := ScanHit(start, s0, s1, Now(), w, i,
                        depth, found, Capture);
        Choose(w, i, Capture);
      } else {
        ScanMiss(start, s0, s1, Now(), w, i, depth,
                 found, Capture);
      }
    }

    /** Searches all inputs of a converter, mixer or selector, and flags it when one leads to a pin. */
    method ScanForInput(w: nat, depth: nat) returns (found: bool, ghost used: bool)
      requires Valid(Capture) && w < widgets.Length && depth <= MAX_DEPTH
      requires Inner(widgets[w], Capture) && Unused(widgets[w], Capture) && Listed(start, widgets[..], w)
      modifies widgets, this`rank
      ensures Valid(Capture) && Searched(w, depth, Capture, found)
      ensures Run(widgets[..], found, used) == ScanRun(start, old(widgets[..]), w, 0, depth, false, false, Capture)
      decreases MAX_DEPTH + 1 - depth, 1
    {
      hide Inner, Unused, Flagged, AnyFlagged, Reach, Progress, Ranked, UnusedArePreset, IdsInside, Listed, Scanned,
           SearchedOn, SearchRun, ScanRun, InputRun, OnScan;
      found, used := false, false;
      ghost var s0 := Now();
      ScanStart(start, s0.ws, s0.rank, w, depth, Capture);
      OnScanStart(start, s0.ws, w, depth, Capture);
      var i := 0;
      while i < |widgets[w].inputs|
        invariant 0 <= i <= |s0.ws[w].inputs|
        invariant Scanned(start, s0, Now(), w, i, depth, found, Capture)
        invariant |widgets[w].inputs| == |s0.ws[w].inputs|
        invariant OnScan(start, s0.ws, widgets[..], w, i, depth, found, used, Capture)
        decreases |s0.ws[w].inputs| - i
      {
        ghost var ws, used0 := widgets[..], used;
        var hit;
        hit, used := TryInput(w, i, depth, found, s0);
        OnScanNext(start, s0.ws, ws, w, i, depth, found, used0, Capture, widgets[..], hit, used);
        found := found || hit;
        i := i + 1;
      }
      OnScanEnd(start, s0.ws, widgets[..], w, depth, found, used, Capture);
      ScanDone(start, s0, Now(), w, depth, found, Capture);
    }

    /** Tries one input of a capture converter, and routes the converter through it. */
    method TryConverter(v: nat, j: nat) returns (accepted: bool)
      requires Valid(Capture) && v < widgets.Length && widgets[v].kind.AudioInput? && !widgets[v].outputPath
      requires j < |widgets[v].inputs|
      modifies widgets, this`rank
      ensures Valid(Capture)
      ensures accepted == ConverterAccepts(start, old(widgets[..]), v, j)
      ensures accepted ==>
                && ConverterStep(start, old(widgets[..]), widgets[..], v, true)
                && widgets[..] == Chosen(SearchRun(start, old(widgets[..]), Input(start, old(widgets[..]), v, j), 0,
                                                   Capture).ws, v, j, Capture)
      ensures !accepted ==>
                && widgets[..] == old(widgets[..]) && rank == old(rank)
                && !Reach(start, widgets[..], Input(start, widgets[..], v, j), 0, Capture)
    {
      ghost var s0 := Now();
      var t := Lookup(start, widgets.Length, widgets[v].inputs[j]);
      InputIsListed(start, s0.ws, v, j);
      if t == -1 {
        return false;
      }
      hide Progress, Ranked, UnusedArePreset, Reach, IdsInside, Listed, FoundAt, SearchRun, Chosen, ConverterStep,
           Thorough;
      ghost var used;
      accepted, used := FindInputPath(t, 0);
      if accepted {
        rank := ConverterHit(start, s0, Now(), v, j);
        Choose(v, j, Capture);
      }
    }

    /** Routes one capture converter from the first input that leads to a pin. */
    method RouteConverter(v: nat) returns (routed: bool)
      requires Valid(Capture) && v < widgets.Length && widgets[v].kind.AudioInput? && !widgets[v].outputPath
      modifies widgets, this`rank
      ensures Valid(Capture)
      ensures ConverterStep(start, old(widgets[..]), widgets[..], v, routed)
      ensures ConverterRun(start, old(widgets[..]), widgets[..], v, routed)
    {
      ghost var ws0 := widgets[..];
      hide Ranked, UnusedArePreset, Reach, IdsInside, SearchRun, Chosen, ConverterStep, ConverterAccepts, Input;
      var j := 0;
      while j < |widgets[v].inputs|
        invariant 0 <= j <= |ws0[v].inputs| && widgets[..] == ws0 && Valid(Capture)
        invariant !ConverterReachesUpTo(start, ws0, v, j)
        invariant forall k :: 0 <= k < j ==> !ConverterAccepts(start, ws0, v, k)
        decreases |ws0[v].inputs| - j
      {
        var accepted := TryConverter(v, j);
        if accepted {
          return true;
        }
        j := j + 1;
      }
      ConverterMissed(start, ws0, v);
      return false;
    }

    /** Builds the input tree. A converter left over has no route even now, and when no widget lists
        a converter, the routes of different converters share nothing. */
    method BuildInputTree() returns (found: bool)
      requires Valid(Capture) && !AnyFlagged(widgets[..], Capture)
      requires forall v :: 0 <= v < widgets.Length && widgets[v].kind.AudioInput? ==> !widgets[v].outputPath
      modifies widgets, this`rank
      ensures Valid(Capture)
      ensures InputTree(start, old(widgets[..]), widgets[..], widgets.Length)
      ensures ConvertersRun(start, old(widgets[..]), widgets[..], widgets.Length)
      ensures NoConverterListed(start, old(widgets[..])) ==> RoutesDisjoint(start, widgets[..])
      ensures found <==> exists v :: 0 <= v < widgets.Length && old(widgets[..])[v].kind.AudioInput?
                                  && ConverterReaches(start, old(widgets[..]), v)
    {
      hide Ranked, UnusedArePreset, IdsInside, ConverterReaches, ConvertersRun, Owned, InputTree, NoConverterListed,
           AnyFlagged, RoutesDisjoint, InputsUpTo;
      found := false;
      ghost var ws0, owner := widgets[..], Indices(widgets.Length);
      InputsStart(ws0, owner);
      for i := 0 to widgets.Length
        invariant Valid(Capture) && InputsUpTo(ws0, owner, i)
        invariant !found ==> widgets[..] == ws0
        invariant found <==> exists v :: 0 <= v < i && ws0[v].kind.AudioInput? && ConverterReaches(start, ws0, v)
      {
        var routed;
        routed, owner := TakeWidget(i, ws0, owner);
        if routed {
          found := true;
        }
      }
      InputsEnd(ws0, owner);
    }

    static ghost function Indices(n: nat): (r: seq<nat>)
      ensures |r| == n && forall i :: 0 <= i < n ==> r[i] == i
    {
      seq(n, i => i)
    }

    lemma InputsStart(ws0: seq<Widget>, owner: seq<nat>)
      requires ws0 == widgets[..] && owner == Indices(widgets.Length) && !AnyFlagged(ws0, Capture)
      requires forall v :: 0 <= v < |ws0| && ws0[v].kind.AudioInput? ==> !ws0[v].outputPath
      ensures InputsUpTo(ws0, owner, 0)
    {
    }

    lemma InputsEnd(ws0: seq<Widget>, owner: seq<nat>)
      requires InputsUpTo(ws0, owner, widgets.Length)
      ensures InputTree(start, ws0, widgets[..], widgets.Length)
      ensures ConvertersRun(start, ws0, widgets[..], widgets.Length)
      ensures NoConverterListed(start, ws0) ==> RoutesDisjoint(start, widgets[..])
    {
      hide ConvertersRun, InputTree;
      if NoConverterListed(start, ws0) {
        OwnedRoutesAreDisjoint(start, widgets[..], owner);
      }
    }

    /** The input tree after the widgets below upTo. */
    ghost predicate InputsUpTo(ws0: seq<Widget>, owner: seq<nat>, upTo: nat)
      reads widgets
    {
      && InputTree(start, ws0, widgets[..], upTo) && ConvertersRun(start, ws0, widgets[..], upTo)
      && |owner| == widgets.Length && (NoConverterListed(start, ws0) ==> Owned(start, widgets[..], owner))
      && forall v :: 0 <= v < |ws0| && ws0[v].kind.AudioInput? ==> !ws0[v].outputPath
    }

    /** One turn of the loop over the widgets: a converter is routed if it can be. */
    method TakeWidget(i: nat, ghost ws0: seq<Widget>, ghost owner: seq<nat>)
      returns (routed: bool, ghost owner': seq<nat>)
      requires Valid(Capture) && i < widgets.Length && InputsUpTo(ws0, owner, i)
      modifies widgets, this`rank
      ensures Valid(Capture) && InputsUpTo(ws0, owner', i + 1)
      ensures |ws0| == widgets.Length
      ensures routed ==> ws0[i].kind.AudioInput? && ConverterReaches(start, ws0, i)
      ensures !routed && old(widgets[..]) == ws0 ==> !(ws0[i].kind.AudioInput? && ConverterReaches(start, ws0, i))
      ensures !routed ==> widgets[..] == old(widgets[..])
    {
      hide Ranked, UnusedArePreset, IdsInside, ConverterRun, ConvertersRun, Reach, SearchRun, Owned, ConverterReaches;
      ghost var before := Now();
      ghost var ws := before.ws;
      routed, owner' := false, owner;
      if widgets[i].kind.AudioInput? {
        routed := RouteConverter(i);
        InputTreeStep(start, ws0, ws, widgets[..], i, routed);
        if routed {
          ConverterReachesShrinks(start, ws0, ws, i);
        }
        if NoConverterListed(start, ws0) {
          GrownKeepsUnlisted(start, ws0, ws);
          OwnedStep(start, before, Now(), owner, i, routed);
          owner' := NewOwner(ws, widgets[..], owner, i);
        }
      }
      ConvertersRunNext(start, ws0, ws, widgets[..], i);
    }

    /** The output tree over mixers and selectors only, or else over everything. */
    method BuildOutputTrees() returns (ok: bool, ghost useMixer: bool)
      requires Valid(Playback) && !AnyFlagged(widgets[..], Playback)
      modifies widgets, this`rank
      ensures Valid(Playback) && OutputTree(start, old(widgets[..]), widgets[..], widgets.Length, useMixer)
      ensures PinsRun(start, old(widgets[..]), widgets[..], widgets.Length, useMixer)
      ensures ok <==> exists v :: 0 <= v < widgets.Length && OutputCandidate(old(widgets[..])[v])
                               && PinReaches(start, old(widgets[..]), v, false)
      ensures useMixer == MixersServe(old(widgets[..]))
      ensures !ok ==> widgets[..] == old(widgets[..])
    {
      ghost var ws0 := widgets[..];
      ok := BuildOutputTree(true);
      useMixer := true;
      if ok {
        ghost var v :| 0 <= v < |ws0| && OutputCandidate(ws0[v]) && PinReaches(start, ws0, v, true);
        AnyPassReaches(start, ws0, v);
      } else {
        ok := BuildOutputTree(false);
        useMixer := false;
      }
    }

    /** Some candidate pin has a route that starts at a mixer or selector. */
    ghost predicate MixersServe(ws: seq<Widget>) {
      exists v :: 0 <= v < |ws| && OutputCandidate(ws[v]) && PinReaches(start, ws, v, true)
    }

    /** Both trees, from freshly parsed widgets; false stands for ENODEV. It fails exactly when no
        output pin has a route. Otherwise all chosen inputs lead where they should, no widget is used
        in both directions, and no pin feeds two converters. */
    method BuildTree() returns (ok: bool)
      requires IdsInside(start, widgets[..]) && UnusedArePreset(widgets[..], Capture)
      requires !AnyFlagged(widgets[..], Playback) && !AnyFlagged(widgets[..], Capture)
      modifies widgets, this`rank
      ensures ok <==> exists v :: 0 <= v < widgets.Length && OutputCandidate(old(widgets[..])[v])
                               && PinReaches(start, old(widgets[..]), v, false)
      ensures !ok ==> widgets[..] == old(widgets[..])
      ensures ok ==>
                && OutputRouted(start, widgets[..]) && InputRouted(start, widgets[..])
                && NeverBoth(widgets[..])
                && OutputComplete(start, widgets[..], MixersServe(old(widgets[..])))
                && InputComplete(start, widgets[..])
                && (NoConverterListed(start, old(widgets[..])) ==> RoutesDisjoint(start, widgets[..]))
    {
      ghost var ws0 := widgets[..];
      rank := NoRanks(widgets.Length);
      ReadyForOutput(start, ws0, rank);
      ghost var useMixer;
      ok, useMixer := BuildOutputTrees();
      if !ok {
        return;
      }
      ghost var ws1 := widgets[..];
      OutputTreeIsRouted(start, ws0, ws1, rank, useMixer);
      rank := NoRanks(widgets.Length);
      ReadyForInput(start, ws0, ws1, rank, useMixer);
      var found := BuildInputTree();
      OutputRoutedStays(start, ws1, widgets[..]);
      RankedIsInputRouted(start, widgets[..], rank);
      GrownKeepsUse(start, ws0, ws1, widgets[..]);
      OutputCompleteStays(start, ws0, ws1, widgets[..], useMixer);
    }

    /** Follows the active inputs of a capture converter to a pin, and says whether that is the
        built-in microphone. At most 16 widgets are looked at. */
    method AdcReachesFixedMic(adc: nat) returns (r: bool)
      requires IdsInside(start, widgets[..]) && adc < widgets.Length
      ensures r <==> TrailToFixedMic(start, widgets[..], adc, 15)
    {
      var w: int := adc;
      ghost var ws := widgets[..];
      var depth := 0;
      while w != -1 && depth < 16
        invariant -1 <= w < widgets.Length && depth <= 16
        invariant TrailToFixedMic(start, ws, adc, 15) <==> TrailToFixedMic(start, ws, w, 15 - depth)
        decreases 16 - depth
      {
        if widgets[w].kind.PinComplex? {
          PinIsItsOwnTrail(start, ws, w, 15 - depth);
          return IsFixedMic(widgets[w]);
        }
        TrailStep(start, ws, w, 15 - depth);
        if |widgets[w].inputs| == 0 || widgets[w].activeInput < 0
           || widgets[w].activeInput >= |widgets[w].inputs| {
          return false;
        }
        var id := widgets[w].inputs[widgets[w].activeInput];
        w := Lookup(start, widgets.Length, id);
        depth := depth + 1;
      }
      return false;
    }
  }
}
