/** Assigning display pipes to ports: ports with a preference first, then the other connected ports
    from a scan pointer that only moves forward. */
module PipeAssign {
  import opened Common

  /** A port: whether it is connected, the pipe it must have if any, and the pipe it drives. */
  datatype Port = Port(connected: bool, preference: Option<nat>, pipe: Option<nat>)

  /** The ports the first pass leaves to the second. */
  predicate IsLeft(p: Port) {
    p.connected && p.preference == None && p.pipe == None
  }

  /** The preferred pipe, for connected ports that have a preference. */
  function AfterFirstPass(p: Port): Port {
    if p.connected && p.preference.Some? then p.(pipe := p.preference) else p
  }

  /** Pipe x is taken by a preference. */
  predicate Preferred(ports: seq<Port>, x: nat) {
    exists i :: 0 <= i < |ports| && ports[i].connected && ports[i].preference == Some(x)
  }

  /** The order of the pipes of two leftover ports: ascending, and once there is none, none from then on. */
  predicate Before(p: Option<nat>, q: Option<nat>) {
    q.Some? ==> p.Some? && p.value < q.value
  }

  /** Whether the second pass gave pipe x to one of the first n ports. */
  predicate Given(before: seq<Port>, after: seq<Port>, n: nat, x: nat)
    requires |before| == |after| && n <= |before|
  {
    exists i :: 0 <= i < n && IsLeft(before[i]) && after[i].pipe == Some(x)
  }

  class Display {
    const ports: array<Port>
    const pipeCount: nat

    constructor (list: array<Port>, count: nat)
      ensures ports == list && pipeCount == count
    {
      ports, pipeCount := list, count;
    }

    ghost predicate InRange(before: seq<Port>) {
      forall i :: 0 <= i < |before| && before[i].preference.Some? ==> before[i].preference.value < pipeCount
    }

    /** Preferences are met. The ports left over get the pipes that no preference takes, each once, in
        ascending order and leaving none out, until every pipe is taken. */
    method AssignPipes()
      requires InRange(ports[..])
      modifies ports
      ensures forall i :: 0 <= i < ports.Length ==>
                && (old(ports[i]).connected && old(ports[i]).preference.Some? ==> ports[i].pipe == ports[i].preference)
                && (!old(ports[i]).connected ==> ports[i] == old(ports[i]))
      ensures forall i :: 0 <= i < ports.Length && !IsLeft(old(ports[..])[i]) ==>
                ports[i] == AfterFirstPass(old(ports[..])[i])
      ensures forall i :: 0 <= i < ports.Length && IsLeft(old(ports[..])[i]) ==>
                ports[i] == old(ports[i]).(pipe := ports[i].pipe)
      ensures forall i :: 0 <= i < ports.Length && IsLeft(old(ports[..])[i]) && ports[i].pipe.Some? ==>
                ports[i].pipe.value < pipeCount && !Preferred(old(ports[..]), ports[i].pipe.value)
      ensures forall i, j | 0 <= i < j < ports.Length && IsLeft(old(ports[..])[i]) && IsLeft(old(ports[..])[j]) ::
                Before(ports[i].pipe, ports[j].pipe)
      ensures forall i, x | 0 <= i < ports.Length && IsLeft(old(ports[..])[i]) && ports[i].pipe.Some?
                            && 0 <= x < ports[i].pipe.value ::
                Preferred(old(ports[..]), x) || Given(old(ports[..]), ports[..], ports.Length, x)
      ensures (exists i :: 0 <= i < ports.Length && ports[i].connected && ports[i].pipe == None) ==>
                forall x :: 0 <= x < pipeCount ==>
                  Preferred(old(ports[..]), x) || Given(old(ports[..]), ports[..], ports.Length, x)
    {
      ghost var before := ports[..];
      var taken := new bool[pipeCount](_ => false);
      FirstPass(taken);
      SecondPass(taken, before);
    }

    method FirstPass(taken: array<bool>)
      requires InRange(ports[..]) && taken.Length == pipeCount
      requires forall x :: 0 <= x < pipeCount ==> !taken[x]
      modifies ports, taken
      ensures forall i :: 0 <= i < ports.Length ==> ports[i] == AfterFirstPass(old(ports[..])[i])
      ensures forall x :: 0 <= x < pipeCount ==> taken[x] == Preferred(old(ports[..]), x)
    {
      ghost var before := ports[..];
      for i := 0 to ports.Length
        invariant forall k :: 0 <= k < i ==> ports[k] == AfterFirstPass(before[k])
        invariant forall k :: i <= k < ports.Length ==> ports[k] == before[k]
        invariant forall x :: 0 <= x < pipeCount ==> taken[x] == Preferred(before[..i], x)
      {
        ghost var seen := before[..i];
        assert before[..i + 1] == seen + [before[i]];
        if ports[i].connected && ports[i].preference.Some? {
          var index := ports[i].preference.value;
          ports[i] := ports[i].(pipe := Some(index));
          taken[index] := true;
          assert Preferred(before[..i + 1], index) by {
            assert before[..i + 1][i] == before[i];
          }
        }
        forall x | 0 <= x < pipeCount && Preferred(seen, x)
          ensures Preferred(before[..i + 1], x)
        {
          var k :| 0 <= k < i && seen[k].connected && seen[k].preference == Some(x);
          assert before[..i + 1][k] == seen[k];
        }
      }
      assert before[..ports.Length] == before;
    }

    method SecondPass(taken: array<bool>, ghost before: seq<Port>)
      requires |before| == ports.Length && taken.Length == pipeCount
      requires forall i :: 0 <= i < ports.Length ==> ports[i] == AfterFirstPass(before[i])
      requires forall x :: 0 <= x < pipeCount ==> taken[x] == Preferred(before, x)
      modifies ports, taken
      ensures Handed(pipeCount, before, ports[..], ports.Length)
      ensures forall i, x | 0 <= i < ports.Length && IsLeft(before[i]) && ports[i].pipe.Some?
                            && 0 <= x < ports[i].pipe.value ::
                Preferred(before, x) || Given(before, ports[..], ports.Length, x)
      ensures (exists i :: 0 <= i < ports.Length && ports[i].connected && ports[i].pipe == None) ==>
                forall x :: 0 <= x < pipeCount ==>
                  Preferred(before, x) || Given(before, ports[..], ports.Length, x)
    {
      ScannedFirst(pipeCount, before, ports[..], taken[..]);
      hide Scanned, Handed, Preferred, Given, AfterFirstPass;
      var current := 0;
      for i := 0 to ports.Length
        invariant current <= pipeCount
        invariant Scanned(pipeCount, before, ports[..], taken[..], i, current)
      {
        ScannedFacts(pipeCount, before, ports[..], taken[..], i, current);
        ghost var soFar, were, from := ports[..], taken[..], current;
        if ports[i].connected && ports[i].pipe == None {
          while current < pipeCount && taken[current]
            invariant from <= current <= pipeCount && forall x :: 0 <= x < current ==> taken[x]
          {
            current := current + 1;
          }
          if current < pipeCount {
            ports[i] := ports[i].(pipe := Some(current));
            taken[current] := true;
          }
        }
        ScannedNext(pipeCount, before, soFar, were, i, from, ports[..], taken[..], current);
      }
      ScannedLast(pipeCount, before, ports[..], taken[..], current);
    }
  }

  /** What the second pass has done for the first n ports. */
  ghost predicate Handed(pipeCount: nat, before: seq<Port>, after: seq<Port>, n: nat) {
    && |after| == |before| && n <= |before|
    && (forall i :: 0 <= i < |before| ==> Shaped(before[i], after[i], i < n))
    && (forall i :: 0 <= i < n && IsLeft(before[i]) && after[i].pipe.Some? ==>
          after[i].pipe.value < pipeCount && !Preferred(before, after[i].pipe.value))
    && Ascending(before, after, n)
  }

  /** Only the pipe of a leftover port changes in the second pass. */
  predicate Shaped(before: Port, after: Port, done: bool) {
    after == if done && IsLeft(before) then before.(pipe := after.pipe) else AfterFirstPass(before)
  }

  ghost predicate Ascending(before: seq<Port>, after: seq<Port>, n: nat)
    requires n <= |before| == |after|
  {
    forall i, j :: 0 <= i < j < n && IsLeft(before[i]) && IsLeft(before[j]) ==> Before(after[i].pipe, after[j].pipe)
  }

  /** The state of the second pass before port n. */
  ghost predicate Scanned(pipeCount: nat, before: seq<Port>, after: seq<Port>, taken: seq<bool>, n: nat, current: nat) {
    && Handed(pipeCount, before, after, n) && |taken| == pipeCount && current <= pipeCount
    && (forall x :: 0 <= x < current ==> taken[x])
    && TakenExactly(before, after, taken, n)
    && UpTo(pipeCount, before, after, n, current)
  }

  ghost predicate TakenExactly(before: seq<Port>, after: seq<Port>, taken: seq<bool>, n: nat)
    requires n <= |before| == |after|
  {
    forall x :: 0 <= x < |taken| ==> taken[x] == (Preferred(before, x) || Given(before, after, n, x))
  }

  ghost predicate UpTo(pipeCount: nat, before: seq<Port>, after: seq<Port>, n: nat, current: nat)
    requires n <= |before| == |after|
  {
    forall i :: 0 <= i < n && IsLeft(before[i]) ==>
      if after[i].pipe.Some? then after[i].pipe.value <= current else current == pipeCount
  }

  lemma ScannedFirst(pipeCount: nat, before: seq<Port>, after: seq<Port>, taken: seq<bool>)
    requires |after| == |before| && |taken| == pipeCount
    requires forall i :: 0 <= i < |before| ==> after[i] == AfterFirstPass(before[i])
    requires forall x :: 0 <= x < pipeCount ==> taken[x] == Preferred(before, x)
    ensures Scanned(pipeCount, before, after, taken, 0, 0)
  {
    hide Preferred, AfterFirstPass;
  }

  /** What the loop body sees of the state. */
  lemma ScannedFacts(pipeCount: nat, before: seq<Port>, after: seq<Port>, taken: seq<bool>, i: nat, current: nat)
    requires Scanned(pipeCount, before, after, taken, i, current) && i < |before|
    ensures forall x :: 0 <= x < current ==> taken[x]
    ensures |after| == |before| && |taken| == pipeCount
    ensures (after[i].connected && after[i].pipe == None) == IsLeft(before[i])
  {
    assert Shaped(before[i], after[i], false);
  }

  lemma ScannedLast(pipeCount: nat, before: seq<Port>, after: seq<Port>, taken: seq<bool>, current: nat)
    requires Scanned(pipeCount, before, after, taken, |before|, current)
    ensures Handed(pipeCount, before, after, |before|)
    ensures forall i, x | 0 <= i < |before| && IsLeft(before[i]) && after[i].pipe.Some?
                          && 0 <= x < after[i].pipe.value ::
              Preferred(before, x) || Given(before, after, |before|, x)
    ensures (exists i :: 0 <= i < |before| && after[i].connected && after[i].pipe == None) ==>
              forall x :: 0 <= x < pipeCount ==> Preferred(before, x) || Given(before, after, |before|, x)
  {
    hide Preferred, Given;
    forall i | 0 <= i < |before| && after[i].connected && after[i].pipe == None
      ensures IsLeft(before[i])
    {
      assert Shaped(before[i], after[i], true);
    }
  }

  lemma ScannedNext(pipeCount: nat, before: seq<Port>, soFar: seq<Port>, were: seq<bool>, i: nat, from: nat,
                    after: seq<Port>, taken: seq<bool>, current: nat)
    requires Scanned(pipeCount, before, soFar, were, i, from) && i < |before|
    requires from <= current <= pipeCount && forall x :: 0 <= x < current ==> were[x]
    requires if IsLeft(before[i]) && current < pipeCount
             then !were[current] && taken == were[current := true]
                  && after == soFar[i := soFar[i].(pipe := Some(current))]
             else taken == were && after == soFar
    requires IsLeft(before[i]) || current == from
    ensures Scanned(pipeCount, before, after, taken, i + 1, current)
  {
    assert IsLeft(before[i]) ==> soFar[i] == before[i];
    GivenNext(before, soFar, after, i);
    AscendingNext(pipeCount, before, soFar, were, i, from, after, current);
    hide Ascending, AfterFirstPass;
    assert TakenExactly(before, after, taken, i + 1);
    assert UpTo(pipeCount, before, after, i + 1, current);
  }

  lemma AscendingNext(pipeCount: nat, before: seq<Port>, soFar: seq<Port>, were: seq<bool>, i: nat, from: nat,
                      after: seq<Port>, current: nat)
    requires |before| == |soFar| == |after| && i < |before| && |were| == pipeCount && from <= current <= pipeCount
    requires Ascending(before, soFar, i) && TakenExactly(before, soFar, were, i)
    requires UpTo(pipeCount, before, soFar, i, from)
    requires forall k :: 0 <= k < i ==> after[k] == soFar[k]
    requires IsLeft(before[i]) ==>
               if current < pipeCount then !were[current] && after[i].pipe == Some(current) else after[i].pipe == None
    ensures Ascending(before, after, i + 1)
  {
    hide Preferred;
    forall k | 0 <= k < i && IsLeft(before[k]) && IsLeft(before[i])
      ensures Before(after[k].pipe, after[i].pipe)
    {
      assert after[k].pipe.Some? ==> Given(before, soFar, i, after[k].pipe.value);
    }
  }

  lemma GivenNext(before: seq<Port>, soFar: seq<Port>, after: seq<Port>, i: nat)
    requires |before| == |soFar| == |after| && i < |before| && after[..i] == soFar[..i]
    ensures forall x: nat :: Given(before, after, i + 1, x)
              <==> Given(before, soFar, i, x) || (IsLeft(before[i]) && after[i].pipe == Some(x))
  {
    assert forall k :: 0 <= k < i ==> after[k] == after[..i][k] == soFar[k];
  }
}
