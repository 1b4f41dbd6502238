/** The widgets of an audio function group as values: connection lists, path flags and the active
    input of each widget, what a route through them is, and what makes the chosen inputs of a
    possibly cyclic graph lead somewhere. */
module WidgetGraph {

  datatype WidgetType = AudioOutput | AudioInput | AudioMixer | AudioSelector | PinComplex | Other

  // default devices of a pin, as the configuration register numbers them
  const LINE_OUT := 0
  const SPEAKER := 1
  const HEAD_PHONE_OUT := 2
  const CD := 3
  const DIGITAL_OTHER_OUT := 5
  const LINE_IN := 8
  const MIC_IN := 10

  const CONNECTIVITY_FIXED := 2

  const MAX_DEPTH := 16

  datatype Widget = Widget(
    kind: WidgetType,
    inputs: seq<nat>,
    activeInput: int,
    outputPath: bool,
    inputPath: bool,
    canOutput: bool,
    canInput: bool,
    device: nat,
    connectivity: nat)

  /** The two searches: from output pins towards converters, from capture converters towards pins. */
  datatype Direction = Playback | Capture

  predicate Flagged(w: Widget, dir: Direction) {
    if dir.Playback? then w.outputPath else w.inputPath
  }

  /** Not used by an earlier route, as each search tests it. */
  predicate Unused(w: Widget, dir: Direction) {
    if dir.Playback? then !w.outputPath else !w.outputPath && !w.inputPath
  }

  /** The widgets a search passes through. */
  predicate Inner(w: Widget, dir: Direction) {
    w.kind.AudioMixer? || w.kind.AudioSelector? || (dir.Capture? && w.kind.AudioInput?)
  }

  /** The widgets a search is looking for. */
  predicate Goal(w: Widget, dir: Direction) {
    if dir.Playback? then w.kind.AudioOutput?
    else w.kind.PinComplex? && w.canInput && (w.device == CD || w.device == LINE_IN || w.device == MIC_IN)
  }

  /** A search ends here: an output converter may serve many routes, a capture pin only one. */
  predicate Ends(w: Widget, dir: Direction) {
    Goal(w, dir) && (dir.Playback? || Unused(w, dir))
  }

  ghost predicate AnyFlagged(ws: seq<Widget>, dir: Direction) {
    exists v :: 0 <= v < |ws| && Flagged(ws[v], dir)
  }

  function Mark(w: Widget, dir: Direction, active: int): Widget {
    if dir.Playback? then w.(outputPath := true, activeInput := active)
    else w.(inputPath := true, activeInput := active)
  }

  /** The index of a node id in the group, or -1. The source also accepts start + count. */
  function Lookup(start: nat, count: nat, id: nat): int {
    if start > id || start + count < id then -1 else id - start
  }

  /** No connection leads to the id just past the group. */
  predicate IdsInside(start: nat, ws: seq<Widget>) {
    forall v, i :: 0 <= v < |ws| && 0 <= i < |ws[v].inputs| ==> ws[v].inputs[i] != start + |ws|
  }

  function Input(start: nat, ws: seq<Widget>, v: nat, i: nat): int
    requires v < |ws| && i < |ws[v].inputs|
  {
    Lookup(start, |ws|, ws[v].inputs[i])
  }

  /** Where the active input of a widget leads, or -1. */
  function NextOf(start: nat, ws: seq<Widget>, v: nat): int
    requires v < |ws|
  {
    if 0 <= ws[v].activeInput < |ws[v].inputs| then Input(start, ws, v, ws[v].activeInput) else -1
  }

  lemma InputIsListed(start: nat, ws: seq<Widget>, v: nat, i: nat)
    requires v < |ws| && i < |ws[v].inputs| && IdsInside(start, ws)
    ensures var t := Input(start, ws, v, i); -1 <= t < |ws| && (0 <= t ==> Listed(start, ws, t))
  {
    var t := Input(start, ws, v, i);
    if 0 <= t {
      assert Connects(start, ws, v, t);
    }
  }

  /** A widget lists another by its node id. */
  lemma ConnectsById(start: nat, ws: seq<Widget>, v: nat, t: nat)
    requires v < |ws| && t < |ws|
    ensures Connects(start, ws, v, t) <==> start + t in ws[v].inputs
  {
    if start + t in ws[v].inputs {
      var i :| 0 <= i < |ws[v].inputs| && ws[v].inputs[i] == start + t;
      assert Input(start, ws, v, i) == t;
    }
  }

  // ---------- routes ----------

  /** One connection of a widget. */
  predicate Connects(start: nat, ws: seq<Widget>, v: nat, t: nat)
    requires v < |ws|
  {
    exists i :: 0 <= i < |ws[v].inputs| && Input(start, ws, v, i) == t
  }

  predicate Listed(start: nat, ws: seq<Widget>, t: nat) {
    exists v :: 0 <= v < |ws| && Connects(start, ws, v, t)
  }

  /** A list of widgets, each connected to the next, through unused inner widgets to a goal. */
  predicate IsRoute(start: nat, ws: seq<Widget>, p: seq<nat>, dir: Direction) {
    && p != []
    && (forall k :: 0 <= k < |p| ==> p[k] < |ws|)
    && (forall k :: 0 <= k < |p| - 1 ==>
          Inner(ws[p[k]], dir) && Unused(ws[p[k]], dir) && Connects(start, ws, p[k], p[k + 1]))
    && Ends(ws[p[|p| - 1]], dir)
  }

  /** There is a route of at most hops connections from w. */
  ghost predicate HasRoute(start: nat, ws: seq<Widget>, w: nat, hops: int, dir: Direction) {
    exists p :: IsRoute(start, ws, p, dir) && p[0] == w && |p| - 1 <= hops
  }

  /** What the recursive search decides, on a fixed state. */
  predicate Reach(start: nat, ws: seq<Widget>, w: int, depth: nat, dir: Direction)
    decreases MAX_DEPTH - depth
  {
    && 0 <= w < |ws| && depth <= MAX_DEPTH
    && (Ends(ws[w], dir)
        || (Inner(ws[w], dir) && Unused(ws[w], dir)
            && exists i :: 0 <= i < |ws[w].inputs| && Reach(start, ws, Input(start, ws, w, i), depth + 1, dir)))
  }

  lemma {:induction false} ReachGivesRoute(start: nat, ws: seq<Widget>, w: nat, depth: nat, dir: Direction)
    requires Reach(start, ws, w, depth, dir)
    ensures HasRoute(start, ws, w, MAX_DEPTH - depth, dir)
    decreases MAX_DEPTH - depth
  {
    if Ends(ws[w], dir) {
      assert IsRoute(start, ws, [w], dir);
    } else {
      var i :| 0 <= i < |ws[w].inputs| && Reach(start, ws, Input(start, ws, w, i), depth + 1, dir);
      var t: nat := Input(start, ws, w, i);
      ReachGivesRoute(start, ws, t, depth + 1, dir);
      var p :| IsRoute(start, ws, p, dir) && p[0] == t && |p| - 1 <= MAX_DEPTH - depth - 1;
      var q := [w] + p;
      assert Connects(start, ws, w, t);
      assert forall k :: 0 < k < |q| ==> q[k] == p[k - 1];
      assert IsRoute(start, ws, q, dir) && q[0] == w;
    }
  }

  lemma {:induction false} RouteGivesReach(start: nat, ws: seq<Widget>, p: seq<nat>, depth: nat, dir: Direction)
    requires IsRoute(start, ws, p, dir) && |p| - 1 <= MAX_DEPTH - depth
    ensures Reach(start, ws, p[0], depth, dir)
    decreases |p|
  {
    if |p| > 1 {
      var q := p[1..];
      assert forall k :: 0 <= k < |q| ==> q[k] == p[k + 1];
      assert IsRoute(start, ws, q, dir);
      RouteGivesReach(start, ws, q, depth + 1, dir);
      var i :| 0 <= i < |ws[p[0]].inputs| && Input(start, ws, p[0], i) == p[1];
    }
  }

  /** The search finds something exactly when a short enough route exists. */
  lemma ReachIsRoute(start: nat, ws: seq<Widget>, w: nat, depth: nat, dir: Direction)
    ensures Reach(start, ws, w, depth, dir) <==> HasRoute(start, ws, w, MAX_DEPTH - depth, dir)
  {
    if Reach(start, ws, w, depth, dir) {
      ReachGivesRoute(start, ws, w, depth, dir);
    }
    if HasRoute(start, ws, w, MAX_DEPTH - depth, dir) {
      var p :| IsRoute(start, ws, p, dir) && p[0] == w && |p| - 1 <= MAX_DEPTH - depth;
      RouteGivesReach(start, ws, p, depth, dir);
    }
  }

  // ---------- how a search changes the widgets ----------

  /** Nothing but flagging unused widgets, and choosing an active input where none was chosen. */
  predicate NewlyFlagged(before: Widget, after: Widget, dir: Direction) {
    && Unused(before, dir)
    && after == Mark(before, dir, after.activeInput)
    && (before.activeInput != -1 ==> after.activeInput == before.activeInput)
  }

  predicate Grown(ws0: seq<Widget>, ws: seq<Widget>, dir: Direction) {
    && |ws| == |ws0|
    && forall v :: 0 <= v < |ws| ==> ws[v] == ws0[v] || NewlyFlagged(ws0[v], ws[v], dir)
  }

  /** As the connection parser leaves it: no active input, or the only one. */
  predicate Preset(w: Widget) {
    w.activeInput == -1 || (|w.inputs| == 1 && w.activeInput == 0)
  }

  predicate UnusedArePreset(ws: seq<Widget>, dir: Direction) {
    forall v :: 0 <= v < |ws| && Unused(ws[v], dir) ==> Preset(ws[v])
  }

  /** Every flagged inner widget's active input leads to a flagged widget of smaller rank. */
  ghost predicate Ranked(start: nat, ws: seq<Widget>, rank: seq<nat>, dir: Direction) {
    && |rank| == |ws|
    && (forall v :: 0 <= v < |ws| && Goal(ws[v], dir) ==> rank[v] == 0)
    && (forall v :: 0 <= v < |ws| && Flagged(ws[v], dir) && Inner(ws[v], dir) ==>
          Steps(start, ws, rank, v, dir) && rank[v] <= MAX_DEPTH + 1)
  }

  ghost predicate Steps(start: nat, ws: seq<Widget>, rank: seq<nat>, v: nat, dir: Direction)
    requires v < |ws| == |rank|
  {
    var t := NextOf(start, ws, v);
    FoundAt(start, ws, t, dir) && rank[t] < rank[v]
  }

  /** The widgets with the ranks that make their chosen inputs well-founded. */
  datatype Ranking = Ranking(ws: seq<Widget>, rank: seq<nat>)

  /** What a search from some depth on may have done; limit bounds the ranks it hands out. */
  ghost predicate Progress(start: nat, s0: Ranking, s: Ranking, limit: int, dir: Direction) {
    && Grown(s0.ws, s.ws, dir) && |s0.rank| == |s0.ws|
    && Ranked(start, s.ws, s.rank, dir) && UnusedArePreset(s.ws, dir)
    && RanksKept(s0, s, dir) && AllAdded(start, s0.ws, s.ws, s.rank, limit, dir)
  }

  ghost predicate RanksKept(s0: Ranking, s: Ranking, dir: Direction)
    requires |s0.ws| == |s0.rank| == |s.ws| == |s.rank|
  {
    forall v :: 0 <= v < |s.ws| && !(Flagged(s.ws[v], dir) && !Flagged(s0.ws[v], dir)) ==> s.rank[v] == s0.rank[v]
  }

  ghost predicate AllAdded(start: nat, ws0: seq<Widget>, ws: seq<Widget>, rank: seq<nat>, limit: int,
                           dir: Direction)
    requires |ws0| == |ws| == |rank|
  {
    forall v :: 0 <= v < |ws| && Flagged(ws[v], dir) && !Flagged(ws0[v], dir) ==>
      Added(start, ws0, ws, v, dir) && rank[v] <= limit
  }

  /** A widget that a search flagged is listed by some widget, and in a capture search its active
      input leads to a widget that the same search flagged. */
  ghost predicate Added(start: nat, ws0: seq<Widget>, ws: seq<Widget>, v: nat, dir: Direction)
    requires v < |ws| == |ws0|
  {
    && (Inner(ws[v], dir) || Goal(ws[v], dir)) && Listed(start, ws0, v)
    && (dir.Capture? && Inner(ws[v], dir) ==>
          var t := NextOf(start, ws, v); 0 <= t < |ws| && !Flagged(ws0[t], dir))
  }

  lemma GrownTransitive(ws0: seq<Widget>, ws1: seq<Widget>, ws2: seq<Widget>, dir: Direction)
    requires Grown(ws0, ws1, dir) && Grown(ws1, ws2, dir)
    ensures Grown(ws0, ws2, dir)
    ensures forall v :: 0 <= v < |ws2| && Flagged(ws1[v], dir) ==> ws2[v] == ws1[v]
    ensures forall v :: 0 <= v < |ws2| && Flagged(ws0[v], dir) ==> Flagged(ws1[v], dir)
  {
  }

  lemma AllAddedTransitive(start: nat, ws0: seq<Widget>, s1: Ranking, s2: Ranking, limit: int, inner: int,
                           dir: Direction)
    requires Grown(ws0, s1.ws, dir) && Grown(s1.ws, s2.ws, dir) && |s1.rank| == |s1.ws| && |s2.rank| == |s2.ws|
    requires AllAdded(start, ws0, s1.ws, s1.rank, limit, dir) && AllAdded(start, s1.ws, s2.ws, s2.rank, inner, dir)
    requires RanksKept(s1, s2, dir) && inner <= limit
    ensures AllAdded(start, ws0, s2.ws, s2.rank, limit, dir)
  {
    GrownTransitive(ws0, s1.ws, s2.ws, dir);
    forall v | 0 <= v < |s2.ws| && Flagged(s2.ws[v], dir) && !Flagged(ws0[v], dir)
      ensures Added(start, ws0, s2.ws, v, dir) && s2.rank[v] <= limit
    {
      GrownKeepsListed(start, ws0, s1.ws, v, dir);
      if Flagged(s1.ws[v], dir) {
        assert Added(start, ws0, s1.ws, v, dir) && NextOf(start, s2.ws, v) == NextOf(start, s1.ws, v);
      } else {
        assert Added(start, s1.ws, s2.ws, v, dir);
      }
    }
  }

  lemma ProgressTransitive(start: nat, s0: Ranking, s1: Ranking, s2: Ranking, limit: int, inner: int, dir: Direction)
    requires Progress(start, s0, s1, limit, dir)
    requires Progress(start, s1, s2, inner, dir) && inner <= limit
    ensures Progress(start, s0, s2, limit, dir)
  {
    GrownTransitive(s0.ws, s1.ws, s2.ws, dir);
    AllAddedTransitive(start, s0.ws, s1, s2, limit, inner, dir);
  }

  /** Setting the flag of a widget after one of its inputs was found. */
  function Chosen(ws: seq<Widget>, w: nat, i: nat, dir: Direction): (r: seq<Widget>)
    requires w < |ws|
    ensures |r| == |ws|
  {
    ws[w := Mark(ws[w], dir, if ws[w].activeInput == -1 then i else ws[w].activeInput)]
  }

  lemma ChosenKeepsRanked(start: nat, ws: seq<Widget>, rank: seq<nat>, w: nat, i: nat, t: nat, dir: Direction)
    requires Ranked(start, ws, rank, dir) && UnusedArePreset(ws, dir)
    requires w < |ws| && Inner(ws[w], dir) && Unused(ws[w], dir) && i < |ws[w].inputs|
    requires t == Input(start, ws, w, i) && FoundAt(start, ws, t, dir) && rank[t] <= MAX_DEPTH
    ensures var ws' := Chosen(ws, w, i, dir);
            && NextOf(start, ws', w) == t
            && (forall v :: 0 <= v < |ws| && v != w ==> NextOf(start, ws', v) == NextOf(start, ws, v))
            && Ranked(start, ws', rank[w := rank[t] + 1], dir)
            && UnusedArePreset(ws', dir)
  {
    assert Preset(ws[w]);
    hide Ranked, UnusedArePreset, Chosen, NextOf, FoundAt, Preset, Input, Inner, Unused, Goal;
    ChosenFrame(start, ws, w, i, dir);
    FlaggedKeepsRanked(start, ws, rank, Chosen(ws, w, i, dir), w, t, dir);
  }

  /** What choosing an input of an unused widget changes, and what it does not. */
  lemma ChosenFrame(start: nat, ws: seq<Widget>, w: nat, i: nat, dir: Direction)
    requires w < |ws| && Unused(ws[w], dir) && Preset(ws[w]) && i < |ws[w].inputs|
    ensures var ws' := Chosen(ws, w, i, dir);
            && NextOf(start, ws', w) == Input(start, ws, w, i) && Flagged(ws'[w], dir)
            && (Goal(ws'[w], dir) <==> Goal(ws[w], dir))
            && (forall v :: 0 <= v < |ws| && v != w ==>
                  ws'[v] == ws[v] && NextOf(start, ws', v) == NextOf(start, ws, v))
  {
  }

  lemma FlaggedKeepsRanked(start: nat, ws: seq<Widget>, rank: seq<nat>, ws': seq<Widget>, w: nat, t: nat,
                           dir: Direction)
    requires Ranked(start, ws, rank, dir) && UnusedArePreset(ws, dir) && |ws'| == |ws| && w < |ws|
    requires Inner(ws[w], dir) && Unused(ws[w], dir) && FoundAt(start, ws, t, dir) && rank[t] <= MAX_DEPTH
    requires NextOf(start, ws', w) == t && Flagged(ws'[w], dir) && (Goal(ws'[w], dir) <==> Goal(ws[w], dir))
    requires forall v :: 0 <= v < |ws| && v != w ==> ws'[v] == ws[v]
    ensures Ranked(start, ws', rank[w := rank[t] + 1], dir) && UnusedArePreset(ws', dir)
  {
    var rank' := rank[w := rank[t] + 1];
    assert !Goal(ws[w], dir) && t != w;
    forall v | 0 <= v < |ws'| && Flagged(ws'[v], dir) && Inner(ws'[v], dir)
      ensures Steps(start, ws', rank', v, dir) && rank'[v] <= MAX_DEPTH + 1
    {
      if v != w {
        OthersKeepSteps(start, ws, rank, ws', rank', w, v, dir);
      }
    }
  }

  lemma OthersKeepSteps(start: nat, ws: seq<Widget>, rank: seq<nat>, ws': seq<Widget>, rank': seq<nat>,
                        w: nat, v: nat, dir: Direction)
    requires Ranked(start, ws, rank, dir) && |ws'| == |rank'| == |ws| && w < |ws| && v < |ws| && v != w
    requires forall u :: 0 <= u < |ws| && u != w ==> ws'[u] == ws[u] && rank'[u] == rank[u]
    requires !Flagged(ws[w], dir) && Flagged(ws[v], dir) && Inner(ws[v], dir)
    ensures Steps(start, ws', rank', v, dir) && rank'[v] <= MAX_DEPTH + 1
  {
    assert Steps(start, ws, rank, v, dir);
    assert NextOf(start, ws', v) == NextOf(start, ws, v) != w;
  }

  ghost predicate FoundAt(start: nat, ws: seq<Widget>, t: int, dir: Direction) {
    0 <= t < |ws| && Flagged(ws[t], dir) && (Inner(ws[t], dir) || Goal(ws[t], dir))
  }

  lemma ChosenGrows(ws0: seq<Widget>, ws: seq<Widget>, w: nat, i: nat, dir: Direction)
    requires Grown(ws0, ws, dir) && w < |ws| && Unused(ws0[w], dir) && !Flagged(ws[w], dir)
    ensures ws[w] == ws0[w]
    ensures Grown(ws0, Chosen(ws, w, i, dir), dir) && Flagged(Chosen(ws, w, i, dir)[w], dir)
    ensures forall v :: 0 <= v < |ws| && v != w ==> Chosen(ws, w, i, dir)[v] == ws[v]
    ensures Inner(ws[w], dir) ==> Inner(Chosen(ws, w, i, dir)[w], dir)
  {
  }

  lemma ChosenIsAdded(start: nat, ws0: seq<Widget>, ws: seq<Widget>, rank: seq<nat>,
                      ws': seq<Widget>, rank': seq<nat>, w: nat, limit: int, dir: Direction)
    requires |ws0| == |ws| == |rank| == |ws'| == |rank'| && w < |ws|
    requires AllAdded(start, ws0, ws, rank, limit, dir)
    requires forall v :: 0 <= v < |ws| && v != w ==>
               ws'[v] == ws[v] && rank'[v] == rank[v] && NextOf(start, ws', v) == NextOf(start, ws, v)
    requires Inner(ws'[w], dir) && Listed(start, ws0, w) && rank'[w] <= limit
    requires var t := NextOf(start, ws', w); 0 <= t < |ws| && (dir.Capture? ==> !Flagged(ws0[t], dir))
    ensures AllAdded(start, ws0, ws', rank', limit, dir)
  {
    forall v | 0 <= v < |ws'| && Flagged(ws'[v], dir) && !Flagged(ws0[v], dir)
      ensures Added(start, ws0, ws', v, dir) && rank'[v] <= limit
    {
      assert v != w ==> Added(start, ws0, ws, v, dir);
    }
  }

  lemma ChosenRanksKept(s0: Ranking, s: Ranking, w: nat, i: nat, r: nat, dir: Direction)
    requires |s0.ws| == |s0.rank| == |s.ws| == |s.rank| && RanksKept(s0, s, dir)
    requires w < |s.ws| && Unused(s0.ws[w], dir)
    ensures RanksKept(s0, Ranking(Chosen(s.ws, w, i, dir), s.rank[w := r]), dir)
  {
  }

  lemma ProgressLengths(start: nat, s0: Ranking, s: Ranking, t: nat, limit: int, dir: Direction)
    requires Progress(start, s0, s, limit, dir) && FoundAt(start, s.ws, t, dir)
    ensures |s0.ws| == |s0.rank| == |s.ws| == |s.rank| && t < |s.ws|
  {
  }

  lemma ChosenKeepsProgress(start: nat, s0: Ranking, s: Ranking, w: nat, i: nat, t: nat, limit: int, dir: Direction)
    requires Progress(start, s0, s, limit, dir)
    requires w < |s.ws| && Inner(s.ws[w], dir) && Unused(s0.ws[w], dir) && i < |s.ws[w].inputs|
    requires !Flagged(s.ws[w], dir) && Listed(start, s0.ws, w) && limit <= MAX_DEPTH + 1
    requires t == Input(start, s.ws, w, i) && FoundAt(start, s.ws, t, dir) && s.rank[t] < limit
    requires dir.Capture? ==> !Flagged(s0.ws[t], dir)
    ensures Progress(start, s0, Ranking(Chosen(s.ws, w, i, dir), s.rank[w := s.rank[t] + 1]), limit, dir)
  {
    hide Ranked, UnusedArePreset, Chosen, NextOf, FoundAt, Preset, Input, Inner, Unused, Flagged, Goal, Grown, AllAdded,
         Listed, RanksKept;
    ProgressLengths(start, s0, s, t, limit, dir);
    ChosenGrows(s0.ws, s.ws, w, i, dir);
    ChosenRanksKept(s0, s, w, i, s.rank[t] + 1, dir);
    ChosenKeepsRanked(start, s.ws, s.rank, w, i, t, dir);
    ChosenIsAdded(start, s0.ws, s.ws, s.rank, Chosen(s.ws, w, i, dir), s.rank[w := s.rank[t] + 1], w, limit, dir);
  }

  lemma GrownKeepsListed(start: nat, ws0: seq<Widget>, ws: seq<Widget>, t: nat, dir: Direction)
    requires Grown(ws0, ws, dir)
    ensures Listed(start, ws0, t) <==> Listed(start, ws, t)
  {
    forall v, i | 0 <= v < |ws| && 0 <= i < |ws[v].inputs|
      ensures Input(start, ws, v, i) == Input(start, ws0, v, i)
    {
    }
    forall v | 0 <= v < |ws|
      ensures Connects(start, ws0, v, t) <==> Connects(start, ws, v, t)
    {
      assert ws[v].inputs == ws0[v].inputs;
    }
  }

  // ---------- following the active inputs ----------

  /** Flagged widgets, each the active input of the one before, ending at a goal. */
  ghost predicate ActiveRoute(start: nat, ws: seq<Widget>, p: seq<nat>, dir: Direction) {
    && p != []
    && (forall k :: 0 <= k < |p| ==> p[k] < |ws| && Flagged(ws[p[k]], dir))
    && (forall k :: 0 <= k < |p| - 1 ==> Inner(ws[p[k]], dir) && NextOf(start, ws, p[k]) == p[k + 1])
    && Goal(ws[p[|p| - 1]], dir)
  }

  ghost predicate Leads(start: nat, ws: seq<Widget>, v: int, hops: nat, dir: Direction) {
    exists p :: ActiveRoute(start, ws, p, dir) && p[0] == v && |p| - 1 <= hops
  }

  /** From every ranked widget the active inputs reach a goal, in at most rank hops. */
  lemma {:induction false} RankedLeads(start: nat, ws: seq<Widget>, rank: seq<nat>, v: nat, dir: Direction)
    requires Ranked(start, ws, rank, dir)
    requires FoundAt(start, ws, v, dir)
    ensures Leads(start, ws, v, rank[v], dir)
    decreases rank[v]
  {
    if Goal(ws[v], dir) {
      assert ActiveRoute(start, ws, [v], dir);
    } else {
      assert Steps(start, ws, rank, v, dir);
      var t: nat := NextOf(start, ws, v);
      RankedLeads(start, ws, rank, t, dir);
      var p :| ActiveRoute(start, ws, p, dir) && p[0] == t && |p| - 1 <= rank[t];
      RouteFrom(start, ws, v, p, dir);
      assert ([v] + p)[0] == v;
    }
  }

  lemma RouteFrom(start: nat, ws: seq<Widget>, v: nat, p: seq<nat>, dir: Direction)
    requires ActiveRoute(start, ws, p, dir) && v < |ws| && Flagged(ws[v], dir) && Inner(ws[v], dir)
    requires NextOf(start, ws, v) == p[0]
    ensures ActiveRoute(start, ws, [v] + p, dir)
  {
    hide Flagged, Inner, Goal, NextOf;
    var q := [v] + p;
    assert forall k :: 0 < k < |q| ==> q[k] == p[k - 1];
  }

  /** More flags leave fewer routes. */
  lemma {:induction false} ReachShrinks(start: nat, ws0: seq<Widget>, ws: seq<Widget>, w: int, depth: nat,
                                        dir: Direction)
    requires Grown(ws0, ws, dir)
    requires Reach(start, ws, w, depth, dir)
    ensures Reach(start, ws0, w, depth, dir)
    decreases MAX_DEPTH - depth
  {
    if !Ends(ws[w], dir) {
      var i :| 0 <= i < |ws[w].inputs| && Reach(start, ws, Input(start, ws, w, i), depth + 1, dir);
      ReachShrinks(start, ws0, ws, Input(start, ws, w, i), depth + 1, dir);
      assert Input(start, ws0, w, i) == Input(start, ws, w, i);
    }
  }

  /** The effect of a search for a route from w at the given depth: it finds one exactly when there is
      one, a failed search changes nothing, and a successful one leaves w flagged and ranked. */
  ghost predicate SearchedOn(start: nat, s0: Ranking, s: Ranking, w: int, depth: nat, dir: Direction, found: bool) {
    && Progress(start, s0, s, MAX_DEPTH - depth, dir)
    && found == Reach(start, s0.ws, w, depth, dir)
    && (!found ==> s == s0)
    && (found ==> FoundAt(start, s.ws, w, dir) && s.rank[w] <= MAX_DEPTH - depth)
  }

  // ---------- one iteration of a search over the inputs of a widget ----------

  /** The state of the loop over the inputs of w: what was found so far, and what it did. */
  ghost predicate Scanned(start: nat, s0: Ranking, s: Ranking, w: nat, upTo: nat, depth: nat, found: bool,
                          dir: Direction)
  {
    && Progress(start, s0, s, MAX_DEPTH - depth, dir)
    && w < |s.ws| && w < |s0.ws| && upTo <= |s0.ws[w].inputs| && |s.ws[w].inputs| == |s0.ws[w].inputs|
    && found == ReachUpTo(start, s0.ws, w, upTo, depth, dir)
    && (!found ==> s == s0)
    && (found ==> FoundAt(start, s.ws, w, dir) && s.rank[w] <= MAX_DEPTH - depth)
  }

  ghost predicate ReachUpTo(start: nat, ws: seq<Widget>, w: nat, upTo: nat, depth: nat, dir: Direction)
    requires w < |ws| && upTo <= |ws[w].inputs|
  {
    exists i :: 0 <= i < upTo && Reach(start, ws, Input(start, ws, w, i), depth + 1, dir)
  }

  lemma ScanStart(start: nat, ws: seq<Widget>, rank: seq<nat>, w: nat, depth: nat, dir: Direction)
    requires Ranked(start, ws, rank, dir) && UnusedArePreset(ws, dir) && w < |ws|
    ensures Scanned(start, Ranking(ws, rank), Ranking(ws, rank), w, 0, depth, false, dir)
  {
  }

  /** The next input can be searched. */
  lemma ScanReady(start: nat, s0: Ranking, s: Ranking, w: nat, i: nat, depth: nat, found: bool, dir: Direction)
    requires Scanned(start, s0, s, w, i, depth, found, dir) && i < |s0.ws[w].inputs|
    requires IdsInside(start, s0.ws)
    ensures IdsInside(start, s.ws) && Ranked(start, s.ws, s.rank, dir) && UnusedArePreset(s.ws, dir)
    ensures var t := Input(start, s.ws, w, i); -1 <= t < |s.ws| && (0 <= t ==> Listed(start, s.ws, t))
  {
    GrownKeepsIds(start, s0.ws, s.ws, dir);
    InputIsListed(start, s.ws, w, i);
  }

  /** A failed input. */
  lemma ScanMiss(start: nat, s0: Ranking, s: Ranking, s1: Ranking, w: nat, i: nat, depth: nat, found: bool,
                 dir: Direction)
    requires Scanned(start, s0, s, w, i, depth, found, dir) && i < |s0.ws[w].inputs|
    requires SearchedOn(start, s, s1, Input(start, s.ws, w, i), depth + 1, dir, false)
    ensures Scanned(start, s0, s1, w, i + 1, depth, found, dir)
  {
  }

  /** A successful input: the search below changed the widgets to ws1, then w is flagged. */
  lemma ScanHit(start: nat, s0: Ranking, s: Ranking, s1: Ranking, w: nat, i: nat, depth: nat, found: bool,
                dir: Direction)
    returns (rank2: seq<nat>)
    requires Scanned(start, s0, s, w, i, depth, found, dir) && i < |s0.ws[w].inputs|
    requires depth <= MAX_DEPTH && Inner(s0.ws[w], dir) && Unused(s0.ws[w], dir) && Listed(start, s0.ws, w)
    requires SearchedOn(start, s, s1, Input(start, s.ws, w, i), depth + 1, dir, true)
    ensures Scanned(start, s0, Ranking(Chosen(s1.ws, w, i, dir), rank2), w, i + 1, depth, true, dir)
    ensures AnyFlagged(Chosen(s1.ws, w, i, dir), dir)
  {
    hide Progress, Reach, FoundAt, Chosen, Inner, Unused, Listed, AnyFlagged;
    var t := Input(start, s.ws, w, i);
    ProgressFrame(start, s0, s, MAX_DEPTH - depth, w, i, depth + 1, dir);
    ProgressFrame(start, s, s1, MAX_DEPTH - depth - 1, w, i, depth + 1, dir);
    assert ReachUpTo(start, s0.ws, w, i + 1, depth, dir);
    ProgressTransitive(start, s0, s, s1, MAX_DEPTH - depth, MAX_DEPTH - depth - 1, dir);
    FoundWasNew(start, s0.ws, t, depth + 1, dir);
    rank2 := HitKeepsProgress(start, s0, s1, w, i, MAX_DEPTH - depth, dir);
  }

  /** All inputs were searched. */
  lemma ScanDone(start: nat, s0: Ranking, s: Ranking, w: nat, depth: nat, found: bool, dir: Direction)
    requires w < |s0.ws| && Scanned(start, s0, s, w, |s0.ws[w].inputs|, depth, found, dir)
    requires depth <= MAX_DEPTH && Inner(s0.ws[w], dir) && Unused(s0.ws[w], dir) && IdsInside(start, s0.ws)
    ensures SearchedOn(start, s0, s, w, depth, dir, found)
    ensures IdsInside(start, s.ws) && Ranked(start, s.ws, s.rank, dir) && UnusedArePreset(s.ws, dir)
  {
    GrownKeepsIds(start, s0.ws, s.ws, dir);
  }

  lemma ProgressFrame(start: nat, s0: Ranking, s: Ranking, limit: int, w: nat, i: nat, depth: nat, dir: Direction)
    requires Progress(start, s0, s, limit, dir) && w < |s0.ws| && i < |s0.ws[w].inputs|
    ensures |s.ws| == |s0.ws| == |s.rank| && s.ws[w].inputs == s0.ws[w].inputs
    ensures Input(start, s.ws, w, i) == Input(start, s0.ws, w, i)
    ensures Reach(start, s.ws, Input(start, s.ws, w, i), depth, dir) ==>
              Reach(start, s0.ws, Input(start, s.ws, w, i), depth, dir)
  {
    if Reach(start, s.ws, Input(start, s.ws, w, i), depth, dir) {
      ReachShrinks(start, s0.ws, s.ws, Input(start, s.ws, w, i), depth, dir);
    }
  }

  lemma FoundWasNew(start: nat, ws0: seq<Widget>, t: int, depth: nat, dir: Direction)
    requires Reach(start, ws0, t, depth, dir)
    ensures 0 <= t < |ws0| && (dir.Capture? ==> !Flagged(ws0[t], dir))
  {
  }

  lemma SameInput(start: nat, ws0: seq<Widget>, ws: seq<Widget>, w: nat, i: nat, dir: Direction)
    requires Grown(ws0, ws, dir) && w < |ws| && i < |ws0[w].inputs|
    ensures ws[w].inputs == ws0[w].inputs && Input(start, ws, w, i) == Input(start, ws0, w, i)
  {
  }

  lemma HitKeepsProgress(start: nat, s0: Ranking, s: Ranking, w: nat, i: nat, limit: int, dir: Direction)
    returns (rank2: seq<nat>)
    requires Progress(start, s0, s, limit, dir)
    requires w < |s.ws| && Inner(s0.ws[w], dir) && Unused(s0.ws[w], dir) && i < |s.ws[w].inputs|
    requires Listed(start, s0.ws, w) && limit <= MAX_DEPTH + 1
    requires var t := Input(start, s.ws, w, i);
             FoundAt(start, s.ws, t, dir) && s.rank[t] < limit && (dir.Capture? ==> !Flagged(s0.ws[t], dir))
    ensures Progress(start, s0, Ranking(Chosen(s.ws, w, i, dir), rank2), limit, dir)
    ensures FoundAt(start, Chosen(s.ws, w, i, dir), w, dir) && rank2[w] <= limit
    ensures Chosen(s.ws, w, i, dir)[w].inputs == s.ws[w].inputs && AnyFlagged(Chosen(s.ws, w, i, dir), dir)
  {
    assert Inner(s.ws[w], dir);
    if Flagged(s.ws[w], dir) {
      HitAgain(start, s0, s, w, i, limit, dir);
      rank2 := s.rank;
    } else {
      var t: nat := Input(start, s.ws, w, i);
      rank2 := s.rank[w := s.rank[t] + 1];
      ChosenGrows(s0.ws, s.ws, w, i, dir);
      ChosenKeepsProgress(start, s0, s, w, i, t, limit, dir);
    }
  }

  /** A flagged widget keeps its choice. */
  lemma ChosenAgain(start: nat, ws: seq<Widget>, rank: seq<nat>, w: nat, i: nat, dir: Direction)
    requires Ranked(start, ws, rank, dir) && w < |ws| && Inner(ws[w], dir) && Flagged(ws[w], dir)
    ensures Chosen(ws, w, i, dir) == ws
  {
    assert Steps(start, ws, rank, w, dir);
    assert Mark(ws[w], dir, ws[w].activeInput) == ws[w];
  }

  /** A widget that an inner search entered again and flagged got a rank from that search. */
  lemma HitAgain(start: nat, s0: Ranking, s: Ranking, w: nat, i: nat, limit: int, dir: Direction)
    requires Progress(start, s0, s, limit, dir)
    requires w < |s.ws| && Inner(s.ws[w], dir) && Flagged(s.ws[w], dir) && !Flagged(s0.ws[w], dir)
    ensures Chosen(s.ws, w, i, dir) == s.ws && s.rank[w] <= limit
  {
    ChosenAgain(start, s.ws, s.rank, w, i, dir);
  }

  lemma GrownKeepsIds(start: nat, ws0: seq<Widget>, ws: seq<Widget>, dir: Direction)
    requires Grown(ws0, ws, dir) && IdsInside(start, ws0)
    ensures IdsInside(start, ws)
  {
    forall v, i | 0 <= v < |ws| && 0 <= i < |ws[v].inputs|
      ensures ws[v].inputs[i] != start + |ws|
    {
      assert ws[v].inputs == ws0[v].inputs;
    }
  }
}
