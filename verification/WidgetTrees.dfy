/** The output and input trees that the searches build over the widgets: what holds after each pin
    and each capture converter, what the finished trees guarantee, and which converter a captured
    widget belongs to. */
module WidgetTrees {
  import opened WidgetGraph

  // ---------- the output tree ----------

  /** The pins the output tree is built for. */
  predicate OutputCandidate(w: Widget) {
    && w.kind.PinComplex? && w.canOutput
    && (w.device == HEAD_PHONE_OUT || w.device == DIGITAL_OTHER_OUT || w.device == SPEAKER || w.device == LINE_OUT)
  }

  /** The roles of widgets, those of pins by the device numbers of section 7.3.3.31 of the Intel High Definition Audio
      Specification: 0 line out, 1 speaker, 2 headphones, 3 CD, 5 digital out, 8 line in, 10 microphone. */
  lemma WidgetRoles(w: Widget)
    ensures OutputCandidate(w) <==> w.kind == PinComplex && w.canOutput && w.device in {0, 1, 2, 5}
    ensures Goal(w, Capture) <==> w.kind == PinComplex && w.canInput && w.device in {3, 8, 10}
    ensures Goal(w, Playback) <==> w.kind == AudioOutput
    ensures Inner(w, Playback) <==> w.kind in {AudioMixer, AudioSelector}
    ensures Inner(w, Capture) <==> w.kind in {AudioMixer, AudioSelector, AudioInput}
    ensures IsFixedMic(w) <==> w.device == 10 && w.connectivity == 2
  {
  }

  predicate Allowed(ws: seq<Widget>, t: int, useMixer: bool) {
    0 <= t < |ws| && (useMixer ==> ws[t].kind.AudioMixer? || ws[t].kind.AudioSelector?)
  }

  /** Some input of the pin, among those the pass looks at, has a route to an output converter. */
  ghost predicate PinReaches(start: nat, ws: seq<Widget>, v: nat, useMixer: bool)
    requires v < |ws|
  {
    PinReachesUpTo(start, ws, v, |ws[v].inputs|, useMixer)
  }

  ghost predicate PinReachesUpTo(start: nat, ws: seq<Widget>, v: nat, upTo: nat, useMixer: bool)
    requires v < |ws| && upTo <= |ws[v].inputs|
  {
    exists j :: 0 <= j < upTo && Allowed(ws, Input(start, ws, v, j), useMixer)
             && Reach(start, ws, Input(start, ws, v, j), 0, Playback)
  }

  /** A flagged pin's active input leads on, except that a headphone pin may share a used widget. */
  ghost predicate PinRouted(start: nat, ws: seq<Widget>, v: nat)
    requires v < |ws|
  {
    ws[v].device == HEAD_PHONE_OUT || FoundAt(start, ws, NextOf(start, ws, v), Playback)
  }

  /** A flagged pin's active input is one that the pass looks at, and leads on. */
  ghost predicate PinUses(start: nat, ws: seq<Widget>, v: nat, useMixer: bool)
    requires v < |ws|
  {
    Allowed(ws, NextOf(start, ws, v), useMixer) && PinRouted(start, ws, v)
  }

  /** Input j of the pin is a mixer or selector in use, and the pass looks at it. */
  predicate SharedInput(start: nat, ws: seq<Widget>, v: nat, j: nat, useMixer: bool)
    requires v < |ws| && j < |ws[v].inputs|
  {
    var t := Input(start, ws, v, j);
    Allowed(ws, t, useMixer) && ws[t].outputPath && (ws[t].kind.AudioMixer? || ws[t].kind.AudioSelector?)
  }

  /** Why a pin is left over: it has no route, and a headphone pin has no used widget to share. */
  ghost predicate Unserved(start: nat, ws: seq<Widget>, v: nat, useMixer: bool)
    requires v < |ws|
  {
    && !PinReaches(start, ws, v, useMixer)
    && (ws[v].device == HEAD_PHONE_OUT ==>
          forall j :: 0 <= j < |ws[v].inputs| ==> !SharedInput(start, ws, v, j, useMixer))
  }

  /** Only widgets with a route are flagged. */
  ghost predicate AddedHadRoutes(start: nat, ws0: seq<Widget>, ws: seq<Widget>, v: nat)
    requires |ws| == |ws0|
  {
    forall u :: 0 <= u < |ws| && u != v && Flagged(ws[u], Playback) && !Flagged(ws0[u], Playback) ==>
      Reach(start, ws0, u, 0, Playback)
  }

  /** What handling one pin does. */
  ghost predicate PinStep(start: nat, ws0: seq<Widget>, ws: seq<Widget>, v: nat, useMixer: bool, routed: bool) {
    && Grown(ws0, ws, Playback) && v < |ws|
    && (forall u :: 0 <= u < |ws| && u != v && Flagged(ws[u], Playback) && !Flagged(ws0[u], Playback) ==>
          Inner(ws[u], Playback) || Goal(ws[u], Playback))
    && AddedHadRoutes(start, ws0, ws, v)
    && (routed ==> Flagged(ws[v], Playback) && PinUses(start, ws, v, useMixer)
                   && (PinReaches(start, ws0, v, useMixer) || AnyFlagged(ws0, Playback)))
    && (!routed ==> ws == ws0 && Unserved(start, ws0, v, useMixer))
  }

  /** The output tree after the pins below upTo were handled. */
  ghost predicate OutputTree(start: nat, ws0: seq<Widget>, ws: seq<Widget>, upTo: nat, useMixer: bool) {
    && Grown(ws0, ws, Playback) && upTo <= |ws|
    && (forall v :: 0 <= v < |ws| && Flagged(ws[v], Playback) && !Inner(ws[v], Playback) && !Goal(ws[v], Playback)
          ==> v < upTo && OutputCandidate(ws[v]) && PinUses(start, ws, v, useMixer))
    && (forall v :: 0 <= v < upTo && OutputCandidate(ws[v]) && !Flagged(ws[v], Playback) ==>
          Unserved(start, ws, v, useMixer))
  }

  lemma PinReachesShrinks(start: nat, ws0: seq<Widget>, ws: seq<Widget>, v: nat, useMixer: bool)
    requires Grown(ws0, ws, Playback) && v < |ws| && PinReaches(start, ws, v, useMixer)
    ensures PinReaches(start, ws0, v, useMixer)
  {
    var j :| 0 <= j < |ws[v].inputs| && Allowed(ws, Input(start, ws, v, j), useMixer)
             && Reach(start, ws, Input(start, ws, v, j), 0, Playback);
    SameInput(start, ws0, ws, v, j, Playback);
    ReachShrinks(start, ws0, ws, Input(start, ws, v, j), 0, Playback);
  }

  /** A pin stays left over: a widget that is flagged later had a route, so no such pin lists it. */
  lemma UnservedStays(start: nat, ws0: seq<Widget>, ws: seq<Widget>, u: nat, v: nat, useMixer: bool)
    requires Grown(ws0, ws, Playback) && AddedHadRoutes(start, ws0, ws, v) && u < |ws|
    requires v < |ws| && !Inner(ws[v], Playback) && Unserved(start, ws0, u, useMixer)
    ensures Unserved(start, ws, u, useMixer)
  {
    if PinReaches(start, ws, u, useMixer) {
      PinReachesShrinks(start, ws0, ws, u, useMixer);
    }
    forall j | 0 <= j < |ws[u].inputs| && ws[u].device == HEAD_PHONE_OUT
      ensures !SharedInput(start, ws, u, j, useMixer)
    {
      SameInput(start, ws0, ws, u, j, Playback);
      var t := Input(start, ws, u, j);
      assert !SharedInput(start, ws0, u, j, useMixer);
      assert Allowed(ws0, t, useMixer) ==> !Reach(start, ws0, t, 0, Playback);
    }
  }

  lemma PinUsesStays(start: nat, ws0: seq<Widget>, ws: seq<Widget>, v: nat, useMixer: bool)
    requires Grown(ws0, ws, Playback) && v < |ws| && Flagged(ws0[v], Playback) && PinUses(start, ws0, v, useMixer)
    ensures PinUses(start, ws, v, useMixer)
  {
    assert ws[v] == ws0[v];
    assert NextOf(start, ws, v) == NextOf(start, ws0, v);
  }

  lemma OutputTreeStep(start: nat, ws0: seq<Widget>, ws: seq<Widget>, ws1: seq<Widget>, v: nat,
                       useMixer: bool, routed: bool)
    requires OutputTree(start, ws0, ws, v, useMixer) && v < |ws| && OutputCandidate(ws[v])
    requires PinStep(start, ws, ws1, v, useMixer, routed)
    ensures OutputTree(start, ws0, ws1, v + 1, useMixer)
  {
    forall u | 0 <= u < |ws1| && Flagged(ws1[u], Playback) && !Inner(ws1[u], Playback) && !Goal(ws1[u], Playback)
      ensures u < v + 1 && OutputCandidate(ws1[u]) && PinUses(start, ws1, u, useMixer)
    {
      if u != v {
        assert Flagged(ws[u], Playback);
        PinUsesStays(start, ws, ws1, u, useMixer);
      }
    }
    forall u | 0 <= u < v + 1 && OutputCandidate(ws1[u]) && !Flagged(ws1[u], Playback)
      ensures Unserved(start, ws1, u, useMixer)
    {
      if u < v {
        UnservedStays(start, ws, ws1, u, v, useMixer);
      }
    }
  }

  lemma OutputTreeSkip(start: nat, ws0: seq<Widget>, ws: seq<Widget>, v: nat, useMixer: bool)
    requires OutputTree(start, ws0, ws, v, useMixer) && v < |ws| && !OutputCandidate(ws[v])
    ensures OutputTree(start, ws0, ws, v + 1, useMixer)
  {
  }

  lemma AddedKinds(start: nat, s0: Ranking, s: Ranking, limit: int, dir: Direction)
    requires Progress(start, s0, s, limit, dir)
    ensures forall u :: 0 <= u < |s.ws| && s.ws[u] != s0.ws[u] ==> Inner(s.ws[u], dir) || Goal(s.ws[u], dir)
  {
    forall u | 0 <= u < |s.ws| && Flagged(s.ws[u], dir) && !Flagged(s0.ws[u], dir)
      ensures Inner(s.ws[u], dir) || Goal(s.ws[u], dir)
    {
      assert Added(start, s0.ws, s.ws, u, dir);
    }
  }

  /** Flagging a pin after the search from its input j. */
  lemma PinChosen(start: nat, s0: Ranking, s: Ranking, v: nat, j: nat, dir: Direction)
    requires Progress(start, s0, s, MAX_DEPTH, dir)
    requires v < |s.ws| && !Inner(s0.ws[v], dir) && !Goal(s0.ws[v], dir) && Unused(s0.ws[v], dir)
    requires j < |s0.ws[v].inputs|
    ensures var ws' := Chosen(s.ws, v, j, dir);
            && Grown(s0.ws, ws', dir) && Flagged(ws'[v], dir) && NextOf(start, ws', v) == Input(start, s0.ws, v, j)
            && (forall u :: 0 <= u < |s.ws| && u != v ==> ws'[u] == s.ws[u])
            && Ranked(start, ws', s.rank, dir) && UnusedArePreset(ws', dir)
  {
    var ws' := Chosen(s.ws, v, j, dir);
    AddedKinds(start, s0, s, MAX_DEPTH, dir);
    ChosenGrows(s0.ws, s.ws, v, j, dir);
    forall u | 0 <= u < |ws'| && Flagged(ws'[u], dir) && Inner(ws'[u], dir)
      ensures Steps(start, ws', s.rank, u, dir) && s.rank[u] <= MAX_DEPTH + 1
    {
      assert Steps(start, s.ws, s.rank, u, dir);
      assert NextOf(start, ws', u) == NextOf(start, s.ws, u);
    }
  }

  /** An input of a pin is accepted: it has a route, or a headphone pin shares a used widget. */
  lemma PinHit(start: nat, s0: Ranking, s: Ranking, v: nat, j: nat, useMixer: bool)
    requires Progress(start, s0, s, MAX_DEPTH, Playback) && IdsInside(start, s0.ws)
    requires v < |s0.ws| && OutputCandidate(s0.ws[v]) && !s0.ws[v].outputPath && j < |s0.ws[v].inputs|
    requires var t := Input(start, s0.ws, v, j);
             Allowed(s0.ws, t, useMixer)
             && ((Reach(start, s0.ws, t, 0, Playback) && FoundAt(start, s.ws, t, Playback))
                 || (s0.ws[v].device == HEAD_PHONE_OUT && AnyFlagged(s0.ws, Playback)))
    requires AddedHadRoutes(start, s0.ws, s.ws, v)
    ensures var ws' := Chosen(s.ws, v, j, Playback);
            && PinStep(start, s0.ws, ws', v, useMixer, true) && IdsInside(start, ws')
            && Ranked(start, ws', s.rank, Playback) && UnusedArePreset(ws', Playback)
  {
    hide Reach, Ranked, UnusedArePreset, IdsInside, RanksKept;
    var ws' := Chosen(s.ws, v, j, Playback);
    PinChosen(start, s0, s, v, j, Playback);
    GrownKeepsIds(start, s0.ws, ws', Playback);
    forall u | 0 <= u < |ws'| && u != v && Flagged(ws'[u], Playback) && !Flagged(s0.ws[u], Playback)
      ensures Inner(ws'[u], Playback) || Goal(ws'[u], Playback)
    {
      assert Added(start, s0.ws, s.ws, u, Playback);
    }
  }

  // ---------- the input tree ----------

  ghost predicate ConverterReaches(start: nat, ws: seq<Widget>, v: nat)
    requires v < |ws|
  {
    ConverterReachesUpTo(start, ws, v, |ws[v].inputs|)
  }

  ghost predicate ConverterReachesUpTo(start: nat, ws: seq<Widget>, v: nat, upTo: nat)
    requires v < |ws| && upTo <= |ws[v].inputs|
  {
    exists j :: 0 <= j < upTo && Reach(start, ws, Input(start, ws, v, j), 0, Capture)
  }

  /** What handling one capture converter does. */
  ghost predicate ConverterStep(start: nat, ws0: seq<Widget>, ws: seq<Widget>, v: nat, routed: bool) {
    && Grown(ws0, ws, Capture) && v < |ws|
    && AllNew(start, ws0, ws, v)
    && (routed ==> Flagged(ws[v], Capture) && ConverterReaches(start, ws0, v))
    && (!routed ==> ws == ws0 && !ConverterReaches(start, ws0, v))
  }

  ghost predicate AllNew(start: nat, ws0: seq<Widget>, ws: seq<Widget>, v: nat)
    requires |ws| == |ws0|
  {
    forall u :: 0 <= u < |ws| && Flagged(ws[u], Capture) && !Flagged(ws0[u], Capture) ==>
      NextIsNew(start, ws0, ws, u) && (u != v ==> Listed(start, ws0, u))
  }

  ghost predicate NextIsNew(start: nat, ws0: seq<Widget>, ws: seq<Widget>, u: nat)
    requires u < |ws| == |ws0|
  {
    Inner(ws[u], Capture) ==> var t := NextOf(start, ws, u); 0 <= t < |ws| && !Flagged(ws0[t], Capture)
  }

  /** The input tree after the converters below upTo were handled: those left over have no route. */
  ghost predicate InputTree(start: nat, ws0: seq<Widget>, ws: seq<Widget>, upTo: nat) {
    && Grown(ws0, ws, Capture) && upTo <= |ws|
    && (forall v :: 0 <= v < upTo && ws[v].kind.AudioInput? && !Flagged(ws[v], Capture) ==>
          !ConverterReaches(start, ws, v))
  }

  lemma ConverterReachesShrinks(start: nat, ws0: seq<Widget>, ws: seq<Widget>, v: nat)
    requires Grown(ws0, ws, Capture) && v < |ws| && ConverterReaches(start, ws, v)
    ensures ConverterReaches(start, ws0, v)
  {
    var j :| 0 <= j < |ws[v].inputs| && Reach(start, ws, Input(start, ws, v, j), 0, Capture);
    SameInput(start, ws0, ws, v, j, Capture);
    ReachShrinks(start, ws0, ws, Input(start, ws, v, j), 0, Capture);
  }

  lemma InputTreeStep(start: nat, ws0: seq<Widget>, ws: seq<Widget>, ws1: seq<Widget>, v: nat, routed: bool)
    requires InputTree(start, ws0, ws, v) && v < |ws| && ConverterStep(start, ws, ws1, v, routed)
    ensures InputTree(start, ws0, ws1, v + 1)
  {
    forall u | 0 <= u < v + 1 && ws1[u].kind.AudioInput? && !Flagged(ws1[u], Capture)
      ensures !ConverterReaches(start, ws1, u)
    {
      if ConverterReaches(start, ws1, u) {
        ConverterReachesShrinks(start, ws, ws1, u);
      }
    }
  }

  /** The search from input j of a converter succeeded, and the converter is flagged. */
  lemma ConverterHit(start: nat, s0: Ranking, s: Ranking, v: nat, j: nat)
    returns (rank2: seq<nat>)
    requires v < |s0.ws| && s0.ws[v].kind.AudioInput? && !s0.ws[v].outputPath && j < |s0.ws[v].inputs|
    requires SearchedOn(start, s0, s, Input(start, s0.ws, v, j), 0, Capture, true) && IdsInside(start, s0.ws)
    ensures var ws' := Chosen(s.ws, v, j, Capture);
            && ConverterStep(start, s0.ws, ws', v, true) && IdsInside(start, ws')
            && Ranked(start, ws', rank2, Capture) && UnusedArePreset(ws', Capture)
  {
    AddedNextIsNew(start, s0, s);
    SameInput(start, s0.ws, s.ws, v, j, Capture);
    if Flagged(s.ws[v], Capture) {
      ChosenAgain(start, s.ws, s.rank, v, j, Capture);
      rank2 := s.rank;
    } else {
      rank2 := ConverterChosen(start, s0.ws, s.ws, s.rank, v, j);
    }
    GrownKeepsIds(start, s0.ws, Chosen(s.ws, v, j, Capture), Capture);
  }

  lemma ConverterChosen(start: nat, ws0: seq<Widget>, ws: seq<Widget>, rank: seq<nat>, v: nat, j: nat)
    returns (rank2: seq<nat>)
    requires Grown(ws0, ws, Capture) && Ranked(start, ws, rank, Capture) && UnusedArePreset(ws, Capture)
    requires v < |ws| && ws[v].kind.AudioInput? && Unused(ws[v], Capture) && j < |ws[v].inputs|
    requires AllNew(start, ws0, ws, v)
    requires var t := Input(start, ws, v, j);
             FoundAt(start, ws, t, Capture) && rank[t] <= MAX_DEPTH && !Flagged(ws0[t], Capture)
    ensures var ws' := Chosen(ws, v, j, Capture);
            && Grown(ws0, ws', Capture) && AllNew(start, ws0, ws', v) && Flagged(ws'[v], Capture)
            && Ranked(start, ws', rank2, Capture) && UnusedArePreset(ws', Capture)
  {
    ChosenGrows(ws0, ws, v, j, Capture);
    ChosenKeepsRanked(start, ws, rank, v, j, Input(start, ws, v, j), Capture);
    rank2 := rank[v := rank[Input(start, ws, v, j)] + 1];
    NewStaysNew(start, ws0, ws, Chosen(ws, v, j, Capture), v);
  }

  lemma NewStaysNew(start: nat, ws0: seq<Widget>, ws: seq<Widget>, ws': seq<Widget>, v: nat)
    requires |ws0| == |ws| == |ws'| && v < |ws| && AllNew(start, ws0, ws, v) && NextIsNew(start, ws0, ws', v)
    requires forall u :: 0 <= u < |ws| && u != v ==>
               ws'[u] == ws[u] && NextOf(start, ws', u) == NextOf(start, ws, u)
    ensures AllNew(start, ws0, ws', v)
  {
    forall u | 0 <= u < |ws'| && Flagged(ws'[u], Capture) && !Flagged(ws0[u], Capture)
      ensures NextIsNew(start, ws0, ws', u) && (u != v ==> Listed(start, ws0, u))
    {
      assert u != v ==> NextIsNew(start, ws0, ws, u);
    }
  }

  lemma AddedNextIsNew(start: nat, s0: Ranking, s: Ranking)
    requires Progress(start, s0, s, MAX_DEPTH, Capture)
    ensures forall v: nat :: AllNew(start, s0.ws, s.ws, v)
  {
    forall u | 0 <= u < |s.ws| && Flagged(s.ws[u], Capture) && !Flagged(s0.ws[u], Capture)
      ensures NextIsNew(start, s0.ws, s.ws, u) && Listed(start, s0.ws, u)
    {
      assert Added(start, s0.ws, s.ws, u, Capture);
    }
  }

  // ---------- which converter a captured widget belongs to ----------

  ghost predicate NoConverterListed(start: nat, ws: seq<Widget>) {
    forall u :: 0 <= u < |ws| && ws[u].kind.AudioInput? ==> !Listed(start, ws, u)
  }

  ghost predicate Owned(start: nat, ws: seq<Widget>, owner: seq<nat>) {
    && |owner| == |ws|
    && (forall u :: 0 <= u < |ws| && Flagged(ws[u], Capture) && Inner(ws[u], Capture) ==>
          SameOwner(start, ws, owner, u))
    && (forall u :: 0 <= u < |ws| && Flagged(ws[u], Capture) && ws[u].kind.AudioInput? ==> owner[u] == u)
  }

  ghost predicate SameOwner(start: nat, ws: seq<Widget>, owner: seq<nat>, u: nat)
    requires u < |ws| == |owner|
  {
    var t := NextOf(start, ws, u); 0 <= t < |ws| ==> owner[t] == owner[u]
  }

  ghost function NewOwner(ws0: seq<Widget>, ws: seq<Widget>, owner: seq<nat>, v: nat): (r: seq<nat>)
    requires |ws0| == |ws| == |owner|
    ensures |r| == |ws|
    ensures forall u :: 0 <= u < |ws| ==>
              r[u] == if Flagged(ws[u], Capture) && !Flagged(ws0[u], Capture) then v else owner[u]
  {
    seq(|ws|, u requires 0 <= u < |ws| =>
      if Flagged(ws[u], Capture) && !Flagged(ws0[u], Capture) then v else owner[u])
  }

  lemma OwnedStep(start: nat, s0: Ranking, s: Ranking, owner: seq<nat>, v: nat, routed: bool)
    requires Ranked(start, s0.ws, s0.rank, Capture) && Ranked(start, s.ws, s.rank, Capture)
    requires ConverterStep(start, s0.ws, s.ws, v, routed) && NoConverterListed(start, s0.ws)
    requires Owned(start, s0.ws, owner)
    ensures Owned(start, s.ws, NewOwner(s0.ws, s.ws, owner, v))
  {
    var owner' := NewOwner(s0.ws, s.ws, owner, v);
    forall u | 0 <= u < |s.ws| && Flagged(s.ws[u], Capture) && Inner(s.ws[u], Capture)
      ensures SameOwner(start, s.ws, owner', u)
    {
      assert Steps(start, s.ws, s.rank, u, Capture);
      if Flagged(s0.ws[u], Capture) {
        assert Steps(start, s0.ws, s0.rank, u, Capture) && SameOwner(start, s0.ws, owner, u);
        assert NextOf(start, s.ws, u) == NextOf(start, s0.ws, u);
      } else {
        assert NextIsNew(start, s0.ws, s.ws, u);
      }
    }
  }

  /** Two routes of different converters, and so two pins, never meet. */
  ghost predicate RoutesDisjoint(start: nat, ws: seq<Widget>) {
    forall p, q | ActiveRoute(start, ws, p, Capture) && ActiveRoute(start, ws, q, Capture)
               && ws[p[0]].kind.AudioInput? && ws[q[0]].kind.AudioInput? && p[0] != q[0] :: Disjoint(p, q)
  }

  ghost predicate Disjoint(p: seq<nat>, q: seq<nat>) {
    forall i, j :: 0 <= i < |p| && 0 <= j < |q| ==> p[i] != q[j]
  }

  lemma {:induction false} RouteHasOneOwner(start: nat, ws: seq<Widget>, owner: seq<nat>, p: seq<nat>, i: nat)
    requires Owned(start, ws, owner) && ActiveRoute(start, ws, p, Capture) && i < |p|
    ensures owner[p[i]] == owner[p[0]]
  {
    if i > 0 {
      RouteHasOneOwner(start, ws, owner, p, i - 1);
      assert NextOf(start, ws, p[i - 1]) == p[i - 1 + 1];
      assert SameOwner(start, ws, owner, p[i - 1]);
    }
  }

  lemma OwnedRoutesAreDisjoint(start: nat, ws: seq<Widget>, owner: seq<nat>)
    requires Owned(start, ws, owner)
    ensures RoutesDisjoint(start, ws)
  {
    forall p, q | ActiveRoute(start, ws, p, Capture) && ActiveRoute(start, ws, q, Capture)
               && ws[p[0]].kind.AudioInput? && ws[q[0]].kind.AudioInput? && p[0] != q[0]
      ensures Disjoint(p, q)
    {
      forall i, j | 0 <= i < |p| && 0 <= j < |q| ensures p[i] != q[j] {
        RouteHasOneOwner(start, ws, owner, p, i);
        RouteHasOneOwner(start, ws, owner, q, j);
      }
    }
  }

  // ---------- both trees together ----------

  /** The output routes do not change while the input tree is built. */
  lemma LeadsStays(start: nat, ws0: seq<Widget>, ws: seq<Widget>, v: int, hops: nat)
    requires Grown(ws0, ws, Capture) && Leads(start, ws0, v, hops, Playback)
    ensures Leads(start, ws, v, hops, Playback)
  {
    var p :| ActiveRoute(start, ws0, p, Playback) && p[0] == v && |p| - 1 <= hops;
    forall k | 0 <= k < |p|
      ensures p[k] < |ws| && ws[p[k]] == ws0[p[k]] && NextOf(start, ws, p[k]) == NextOf(start, ws0, p[k])
    {
    }
    assert ActiveRoute(start, ws, p, Playback);
  }

  /** Every flagged mixer and selector, and every flagged pin that is not a headphone pin, leads to
      an output converter over flagged widgets. */
  ghost predicate OutputRouted(start: nat, ws: seq<Widget>) {
    forall v :: 0 <= v < |ws| && Flagged(ws[v], Playback) ==> OutputRoutedFrom(start, ws, v)
  }

  ghost predicate OutputRoutedFrom(start: nat, ws: seq<Widget>, v: nat)
    requires v < |ws|
  {
    && (Inner(ws[v], Playback) ==> Leads(start, ws, v, MAX_DEPTH + 1, Playback))
    && (ws[v].kind.PinComplex? && ws[v].device != HEAD_PHONE_OUT ==>
          Leads(start, ws, NextOf(start, ws, v), MAX_DEPTH + 1, Playback))
  }

  lemma OutputTreeIsRouted(start: nat, ws0: seq<Widget>, ws: seq<Widget>, rank: seq<nat>, useMixer: bool)
    requires OutputTree(start, ws0, ws, |ws|, useMixer) && Ranked(start, ws, rank, Playback)
    ensures OutputRouted(start, ws)
  {
    forall v | 0 <= v < |ws| && Flagged(ws[v], Playback)
      ensures OutputRoutedFrom(start, ws, v)
    {
      if Inner(ws[v], Playback) {
        RankedLeads(start, ws, rank, v, Playback);
      } else if ws[v].kind.PinComplex? && ws[v].device != HEAD_PHONE_OUT {
        assert PinUses(start, ws, v, useMixer);
        LeadsFromFound(start, ws, rank, NextOf(start, ws, v), Playback);
      }
    }
  }

  lemma LeadsFromFound(start: nat, ws: seq<Widget>, rank: seq<nat>, t: nat, dir: Direction)
    requires Ranked(start, ws, rank, dir) && FoundAt(start, ws, t, dir)
    ensures Leads(start, ws, t, MAX_DEPTH + 1, dir)
  {
    RankedLeads(start, ws, rank, t, dir);
    assert rank[t] <= MAX_DEPTH + 1;
  }

  lemma OutputRoutedStays(start: nat, ws0: seq<Widget>, ws: seq<Widget>)
    requires Grown(ws0, ws, Capture) && OutputRouted(start, ws0)
    ensures OutputRouted(start, ws)
  {
    forall v | 0 <= v < |ws| && Flagged(ws[v], Playback)
      ensures OutputRoutedFrom(start, ws, v)
    {
      assert ws[v] == ws0[v] && NextOf(start, ws, v) == NextOf(start, ws0, v);
      assert OutputRoutedFrom(start, ws0, v);
      if Inner(ws[v], Playback) {
        LeadsStays(start, ws0, ws, v, MAX_DEPTH + 1);
      }
      if ws[v].kind.PinComplex? && ws[v].device != HEAD_PHONE_OUT {
        LeadsStays(start, ws0, ws, NextOf(start, ws, v), MAX_DEPTH + 1);
      }
    }
  }

  /** Every flagged converter, mixer and selector leads to a capture pin over flagged widgets. */
  ghost predicate InputRouted(start: nat, ws: seq<Widget>) {
    forall v :: 0 <= v < |ws| && Flagged(ws[v], Capture) && Inner(ws[v], Capture) ==>
      Leads(start, ws, v, MAX_DEPTH + 1, Capture)
  }

  lemma RankedIsInputRouted(start: nat, ws: seq<Widget>, rank: seq<nat>)
    requires Ranked(start, ws, rank, Capture)
    ensures InputRouted(start, ws)
  {
    forall v | 0 <= v < |ws| && Flagged(ws[v], Capture) && Inner(ws[v], Capture)
      ensures Leads(start, ws, v, MAX_DEPTH + 1, Capture)
    {
      LeadsFromFound(start, ws, rank, v, Capture);
    }
  }

  /** Which candidate pins the finished output tree serves: a flagged one uses an input that the pass
      looked at, and one that is left over has no route through such an input, nor, for headphones, a
      used mixer or selector there. */
  ghost predicate OutputComplete(start: nat, ws: seq<Widget>, useMixer: bool) {
    forall v :: 0 <= v < |ws| && OutputCandidate(ws[v]) ==>
      if Flagged(ws[v], Playback) then Allowed(ws, NextOf(start, ws, v), useMixer)
      else Unserved(start, ws, v, useMixer)
  }

  /** A capture converter that is left over has no route. */
  ghost predicate InputComplete(start: nat, ws: seq<Widget>) {
    forall v :: 0 <= v < |ws| && ws[v].kind.AudioInput? && !Flagged(ws[v], Capture) ==>
      !ConverterReaches(start, ws, v)
  }

  /** Building the input tree opens no output route. */
  lemma {:induction false} OutputReachStays(start: nat, ws0: seq<Widget>, ws: seq<Widget>, w: int, depth: nat)
    requires Grown(ws0, ws, Capture) && Reach(start, ws, w, depth, Playback)
    ensures Reach(start, ws0, w, depth, Playback)
    decreases MAX_DEPTH - depth
  {
    if !Ends(ws[w], Playback) {
      var i :| 0 <= i < |ws[w].inputs| && Reach(start, ws, Input(start, ws, w, i), depth + 1, Playback);
      OutputReachStays(start, ws0, ws, Input(start, ws, w, i), depth + 1);
      assert Input(start, ws0, w, i) == Input(start, ws, w, i);
    }
  }

  lemma OutputCompleteStays(start: nat, ws0: seq<Widget>, ws1: seq<Widget>, ws: seq<Widget>, useMixer: bool)
    requires OutputTree(start, ws0, ws1, |ws1|, useMixer) && Grown(ws1, ws, Capture)
    ensures OutputComplete(start, ws, useMixer)
  {
    forall v | 0 <= v < |ws| && OutputCandidate(ws[v])
      ensures if Flagged(ws[v], Playback) then Allowed(ws, NextOf(start, ws, v), useMixer)
              else Unserved(start, ws, v, useMixer)
    {
      if Flagged(ws[v], Playback) {
        assert ws[v] == ws1[v] && PinUses(start, ws1, v, useMixer);
        assert NextOf(start, ws, v) == NextOf(start, ws1, v);
      } else {
        UnservedStaysToo(start, ws1, ws, v, useMixer);
      }
    }
  }

  /** Building the input tree serves no output pin. */
  lemma UnservedStaysToo(start: nat, ws0: seq<Widget>, ws: seq<Widget>, v: nat, useMixer: bool)
    requires Grown(ws0, ws, Capture) && v < |ws| && Unserved(start, ws0, v, useMixer)
    ensures Unserved(start, ws, v, useMixer)
  {
    if PinReaches(start, ws, v, useMixer) {
      var j :| 0 <= j < |ws[v].inputs| && Allowed(ws, Input(start, ws, v, j), useMixer)
               && Reach(start, ws, Input(start, ws, v, j), 0, Playback);
      SameInput(start, ws0, ws, v, j, Capture);
      OutputReachStays(start, ws0, ws, Input(start, ws, v, j), 0);
      assert PinReaches(start, ws0, v, useMixer);
    }
    forall j | 0 <= j < |ws[v].inputs| && ws[v].device == HEAD_PHONE_OUT
      ensures !SharedInput(start, ws, v, j, useMixer)
    {
      SameInput(start, ws0, ws, v, j, Capture);
      assert !SharedInput(start, ws0, v, j, useMixer);
    }
  }

  /** Which pins with a route are left over: only when mixers and selectors were enough to serve some
      pin, and then those whose only routes start directly at a converter. A pin without a mixer or
      selector among its inputs is always left over then. A headphone pin is never left over beside a used
      mixer or selector that the pass looks at. */
  lemma LeftoverPin(start: nat, ws: seq<Widget>, v: nat, useMixer: bool)
    requires OutputComplete(start, ws, useMixer) && v < |ws| && OutputCandidate(ws[v])
    ensures !Flagged(ws[v], Playback) && PinReaches(start, ws, v, false) ==>
              useMixer && exists j :: 0 <= j < |ws[v].inputs| && IsConverter(ws, Input(start, ws, v, j))
    ensures useMixer && (forall j :: 0 <= j < |ws[v].inputs| ==> !Allowed(ws, Input(start, ws, v, j), true)) ==>
              !Flagged(ws[v], Playback)
    ensures !Flagged(ws[v], Playback) && ws[v].device == 2 ==>
              forall j :: 0 <= j < |ws[v].inputs| ==> !SharedInput(start, ws, v, j, useMixer)
  {
    if !Flagged(ws[v], Playback) && PinReaches(start, ws, v, false) {
      var j :| 0 <= j < |ws[v].inputs| && Allowed(ws, Input(start, ws, v, j), false)
               && Reach(start, ws, Input(start, ws, v, j), 0, Playback);
      assert IsConverter(ws, Input(start, ws, v, j));
    }
  }

  predicate IsConverter(ws: seq<Widget>, t: int) {
    0 <= t < |ws| && ws[t].kind.AudioOutput?
  }

  predicate NeverBoth(ws: seq<Widget>) {
    forall v :: 0 <= v < |ws| ==> !(ws[v].outputPath && ws[v].inputPath)
  }

  // ---------- the built-in microphone ----------

  predicate IsFixedMic(w: Widget) {
    w.device == MIC_IN && w.connectivity == CONNECTIVITY_FIXED
  }

  /** The active inputs from a widget, up to the first pin. */
  ghost predicate PinTrail(start: nat, ws: seq<Widget>, p: seq<nat>) {
    && p != []
    && (forall k :: 0 <= k < |p| ==> p[k] < |ws|)
    && (forall k :: 0 <= k < |p| - 1 ==> !ws[p[k]].kind.PinComplex? && NextOf(start, ws, p[k]) == p[k + 1])
    && ws[p[|p| - 1]].kind.PinComplex?
  }

  ghost predicate TrailToFixedMic(start: nat, ws: seq<Widget>, v: int, hops: int) {
    exists p :: PinTrail(start, ws, p) && p[0] == v && |p| - 1 <= hops && IsFixedMic(ws[p[|p| - 1]])
  }

  /** A route to a capture pin is a trail, and there is only one trail. */
  lemma ActiveRouteIsTrail(start: nat, ws: seq<Widget>, p: seq<nat>)
    requires ActiveRoute(start, ws, p, Capture)
    ensures PinTrail(start, ws, p)
  {
  }

  lemma {:induction false} TrailUnique(start: nat, ws: seq<Widget>, p: seq<nat>, q: seq<nat>)
    requires PinTrail(start, ws, p) && PinTrail(start, ws, q) && p[0] == q[0]
    ensures p == q
    decreases |p|
  {
    if |p| > 1 && |q| > 1 {
      var p', q' := p[1..], q[1..];
      assert forall k :: 0 <= k < |p'| ==> p'[k] == p[k + 1];
      assert forall k :: 0 <= k < |q'| ==> q'[k] == q[k + 1];
      TrailUnique(start, ws, p', q');
      assert p == [p[0]] + p' && q == [q[0]] + q';
    } else {
      assert p == [p[0]] && q == [q[0]];
    }
  }

  lemma TrailStep(start: nat, ws: seq<Widget>, v: nat, hops: nat)
    requires v < |ws| && !ws[v].kind.PinComplex?
    ensures TrailToFixedMic(start, ws, v, hops) <==> TrailToFixedMic(start, ws, NextOf(start, ws, v), hops - 1)
  {
    var t := NextOf(start, ws, v);
    if TrailToFixedMic(start, ws, v, hops) {
      var p :| PinTrail(start, ws, p) && p[0] == v && |p| - 1 <= hops && IsFixedMic(ws[p[|p| - 1]]);
      var q := p[1..];
      assert forall k :: 0 <= k < |q| ==> q[k] == p[k + 1];
      assert PinTrail(start, ws, q) && q[0] == t && q[|q| - 1] == p[|p| - 1];
    }
    if TrailToFixedMic(start, ws, t, hops - 1) {
      var q :| PinTrail(start, ws, q) && q[0] == t && |q| - 1 <= hops - 1 && IsFixedMic(ws[q[|q| - 1]]);
      var p := [v] + q;
      assert forall k :: 0 < k < |p| ==> p[k] == q[k - 1];
      assert PinTrail(start, ws, p) && p[0] == v && p[|p| - 1] == q[|q| - 1];
    }
  }

  /** What the driver concludes about a routed converter is about the pin that feeds it, as long as
      the route has at most 15 connections; the searches may choose routes of up to 17. */
  lemma RoutedConverterMic(start: nat, ws: seq<Widget>, p: seq<nat>)
    requires ActiveRoute(start, ws, p, Capture)
    ensures TrailToFixedMic(start, ws, p[0], 15) <==> |p| <= 16 && IsFixedMic(ws[p[|p| - 1]])
  {
    ActiveRouteIsTrail(start, ws, p);
    if TrailToFixedMic(start, ws, p[0], 15) {
      var q :| PinTrail(start, ws, q) && q[0] == p[0] && |q| - 1 <= 15 && IsFixedMic(ws[q[|q| - 1]]);
      TrailUnique(start, ws, p, q);
    }
  }

  lemma PinIsItsOwnTrail(start: nat, ws: seq<Widget>, v: nat, hops: nat)
    requires v < |ws| && ws[v].kind.PinComplex?
    ensures TrailToFixedMic(start, ws, v, hops) <==> IsFixedMic(ws[v])
  {
    assert PinTrail(start, ws, [v]);
    if TrailToFixedMic(start, ws, v, hops) {
      var p :| PinTrail(start, ws, p) && p[0] == v && |p| - 1 <= hops && IsFixedMic(ws[p[|p| - 1]]);
      TrailUnique(start, ws, p, [v]);
    }
  }

  lemma GrownKeepsUnlisted(start: nat, ws0: seq<Widget>, ws: seq<Widget>)
    requires Grown(ws0, ws, Capture) && NoConverterListed(start, ws0)
    ensures NoConverterListed(start, ws)
  {
    forall u | 0 <= u < |ws| && ws[u].kind.AudioInput?
      ensures !Listed(start, ws, u)
    {
      GrownKeepsListed(start, ws0, ws, u, Capture);
    }
  }

  /** The finished output tree is a proper start for the input tree. */
  lemma ReadyForInput(start: nat, ws0: seq<Widget>, ws: seq<Widget>, rank: seq<nat>, useMixer: bool)
    requires OutputTree(start, ws0, ws, |ws|, useMixer) && IdsInside(start, ws0)
    requires !AnyFlagged(ws0, Playback) && !AnyFlagged(ws0, Capture) && UnusedArePreset(ws0, Capture)
    requires |rank| == |ws| && forall v :: 0 <= v < |rank| ==> rank[v] == 0
    ensures !AnyFlagged(ws, Capture) && UnusedArePreset(ws, Capture) && Ranked(start, ws, rank, Capture)
    ensures forall v :: 0 <= v < |ws| && ws[v].kind.AudioInput? ==> !ws[v].outputPath
  {
  }

  ghost function NoRanks(n: nat): (r: seq<nat>)
    ensures |r| == n && forall v :: 0 <= v < n ==> r[v] == 0
  {
    seq(n, _ => 0)
  }

  lemma ReadyForOutput(start: nat, ws: seq<Widget>, rank: seq<nat>)
    requires !AnyFlagged(ws, Playback) && !AnyFlagged(ws, Capture) && UnusedArePreset(ws, Capture)
    requires |rank| == |ws| && forall v :: 0 <= v < |rank| ==> rank[v] == 0
    ensures UnusedArePreset(ws, Playback) && Ranked(start, ws, rank, Playback)
  {
  }

  lemma AnyPassReaches(start: nat, ws: seq<Widget>, v: nat)
    requires v < |ws| && PinReaches(start, ws, v, true)
    ensures PinReaches(start, ws, v, false)
  {
    var j :| 0 <= j < |ws[v].inputs| && Allowed(ws, Input(start, ws, v, j), true)
             && Reach(start, ws, Input(start, ws, v, j), 0, Playback);
    assert Allowed(ws, Input(start, ws, v, j), false);
  }

  lemma GrownKeepsUse(start: nat, ws0: seq<Widget>, ws1: seq<Widget>, ws2: seq<Widget>)
    requires Grown(ws0, ws1, Playback) && Grown(ws1, ws2, Capture) && !AnyFlagged(ws0, Capture)
    ensures NeverBoth(ws2)
    ensures NoConverterListed(start, ws0) ==> NoConverterListed(start, ws1)
  {
    if NoConverterListed(start, ws0) {
      forall u | 0 <= u < |ws1| && ws1[u].kind.AudioInput?
        ensures !Listed(start, ws1, u)
      {
        GrownKeepsListed(start, ws0, ws1, u, Playback);
      }
    }
  }
}
