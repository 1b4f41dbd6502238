/** The divider search for the Tiger Lake HDMI clock: of the listed dividers, the one that puts the DCO
    nearest to the middle of its range, split into the factors P, Q and K. The frequencies are whole
    MHz; in the range that matters the source's floats hold them exactly. */
module HdmiPll {
  import opened Common

  const LOW_DIVIDERS: seq<nat> := [2, 4, 6, 8, 10, 12, 14, 16, 18, 20, 24, 28, 30, 32, 36]
  const MIDDLE_DIVIDERS: seq<nat> := [40, 42, 44, 48, 50, 52, 54, 56, 60, 64, 66, 68, 70, 72, 76]
  const HIGH_DIVIDERS: seq<nat> := [78, 80, 84, 88, 90, 92, 96, 98, 100, 102]
  const ODD_DIVIDERS: seq<nat> := [3, 5, 7, 9, 15, 21]

  /** The listed dividers, in the order they are tried. */
  const DIVIDERS: seq<nat> := LOW_DIVIDERS + MIDDLE_DIVIDERS + HIGH_DIVIDERS + ODD_DIVIDERS

  const DCO_MIN := 7998
  const DCO_MAX := 10000
  const DCO_MID := 8999

  datatype Dividers = Dividers(p: nat, q: nat, k: nat, dco: int)

  /** 5 * freq / 1000 as the source's ints divide, towards zero. */
  function AfeClock(freq: int): (afe: int)
    ensures 0 <= freq ==> 1000 * afe <= 5 * freq < 1000 * (afe + 1)
    ensures freq <= 0 ==> 1000 * (afe - 1) < 5 * freq <= 1000 * afe
  {
    if freq >= 0 then 5 * freq / 1000 else -(5 * -freq / 1000)
  }

  /** The DCO frequency with the divider at index i of a list. */
  function Dco(afe: int, list: seq<nat>, i: nat): int
    requires i < |list|
  {
    afe * list[i]
  }

  predicate InRange(dco: int) {
    7998 <= dco <= 10000
  }

  /** From the middle of the range. */
  function Distance(dco: int): (r: nat)
    ensures 2 * r == if 2 * dco < 7998 + 10000 then 7998 + 10000 - 2 * dco else 2 * dco - (7998 + 10000)
  {
    if dco < DCO_MID then DCO_MID - dco else dco - DCO_MID
  }

  /** The divider at index i puts the DCO in range, none before it is as near, none at all is nearer. */
  predicate IsBest(afe: int, list: seq<nat>, i: nat) {
    && i < |list| && InRange(Dco(afe, list, i))
    && (forall j :: 0 <= j < |list| && InRange(Dco(afe, list, j)) ==>
          Distance(Dco(afe, list, i)) <= Distance(Dco(afe, list, j)))
    && (forall j :: 0 <= j < i && InRange(Dco(afe, list, j)) ==>
          Distance(Dco(afe, list, i)) < Distance(Dco(afe, list, j)))
  }

  predicate NoneInRange(afe: int, list: seq<nat>) {
    forall i :: 0 <= i < |list| ==> !InRange(Dco(afe, list, i))
  }

  /** What the hardware accepts: P of 2, 3, 5 or 7, K of 1 to 3, and Q other than 1 only with K = 2. */
  predicate IsLegal(d: Dividers) {
    && (d.p == 2 || d.p == 3 || d.p == 5 || d.p == 7) && 1 <= d.k <= 3 && 1 <= d.q <= 255
    && (d.k != 2 ==> d.q == 1)
  }

  datatype Factors = NoFactors | Factors(p: nat, q: nat, k: nat)

  /** The factors of a divider; dividers off the list may get none. */
  function Split(div: nat): Factors {
    if div % 2 == 0 then
      if div == 2 then Factors(2, 1, 1)
      else if div % 4 == 0 then Factors(2, div / 4, 2)
      else if div % 6 == 0 then Factors(3, div / 6, 2)
      else if div % 5 == 0 then Factors(5, div / 10, 2)
      else if div % 14 == 0 then Factors(7, div / 14, 2)
      else NoFactors
    else if div == 3 || div == 5 || div == 7 then Factors(div, 1, 1)
    else Factors(div / 3, 1, 3)
  }

  predicate SplitsExactly(div: nat) {
    var s := Split(div);
    s.Factors? && s.p * s.q * s.k == div && IsLegal(Dividers(s.p, s.q, s.k, 0))
  }

  /** Every listed divider is split into legal factors whose product it is. */
  lemma SplitIsExact(i: nat)
    requires i < |DIVIDERS|
    ensures SplitsExactly(DIVIDERS[i])
  {
    if i < 15 {
      SplitsLow(i);
    } else if i < 30 {
      SplitsMiddle(i - 15);
    } else if i < 40 {
      SplitsHigh(i - 30);
    } else {
      SplitsOdd(i - 40);
    }
  }

  lemma SplitsLow(i: nat)
    requires i < |LOW_DIVIDERS|
    ensures SplitsExactly(LOW_DIVIDERS[i])
  {
    match i {
      case 0 => case 1 => case 2 => case 3 => case 4 => case 5 => case 6 => case 7 =>
      case 8 => case 9 => case 10 => case 11 => case 12 => case 13 => case 14 =>
    }
  }

  lemma SplitsMiddle(i: nat)
    requires i < |MIDDLE_DIVIDERS|
    ensures SplitsExactly(MIDDLE_DIVIDERS[i])
  {
    match i {
      case 0 => case 1 => case 2 => case 3 => case 4 => case 5 => case 6 => case 7 =>
      case 8 => case 9 => case 10 => case 11 => case 12 => case 13 => case 14 =>
    }
  }

  lemma SplitsHigh(i: nat)
    requires i < |HIGH_DIVIDERS|
    ensures SplitsExactly(HIGH_DIVIDERS[i])
  {
    match i {
      case 0 => case 1 => case 2 => case 3 => case 4 => case 5 => case 6 => case 7 =>
      case 8 => case 9 =>
    }
  }

  lemma SplitsOdd(i: nat)
    requires i < |ODD_DIVIDERS|
    ensures SplitsExactly(ODD_DIVIDERS[i])
  {
    match i {
      case 0 => case 1 => case 2 => case 3 => case 4 => case 5 =>
    }
  }

  /** The factors that the hardware takes for a divider. */
  ghost predicate HasLegalFactors(n: nat) {
    exists p: nat, q: nat, k: nat :: IsLegal(Dividers(p, q, k, 0)) && p * q * k == n
  }

  /** The list has all dividers up to 102 that have legal factors, and no others. */
  lemma ListedIff(n: nat)
    ensures n in DIVIDERS <==> n <= 102 && HasLegalFactors(n)
  {
    if n in DIVIDERS {
      var i :| 0 <= i < |DIVIDERS| && DIVIDERS[i] == n;
      SplitIsExact(i);
      var s := Split(n);
      assert IsLegal(Dividers(s.p, s.q, s.k, 0));
    } else if n <= 102 && HasLegalFactors(n) {
      var p: nat, q: nat, k: nat :| IsLegal(Dividers(p, q, k, 0)) && p * q * k == n;
      LegalIsListed(p, q, k);
    }
  }

  lemma LegalIsListed(p: nat, q: nat, k: nat)
    requires IsLegal(Dividers(p, q, k, 0)) && p * q * k <= 102
    ensures p * q * k in DIVIDERS
  {
    if k == 2 {
      EvenIsListed(p, q);
    }
  }

  lemma EvenIsListed(p: nat, q: nat)
    requires (p == 2 || p == 3 || p == 5 || p == 7) && 1 <= q && p * q * 2 <= 102
    ensures p * q * 2 in DIVIDERS
  {
  }

  /** The search loop: the index of the best divider, or none. */
  method FindDivider(afe: int, list: seq<nat>) returns (r: Option<nat>)
    ensures r == None <==> NoneInRange(afe, list)
    ensures r.Some? ==> IsBest(afe, list, r.value)
  {
    r := None;
    var bestDistance := 999999;
    for i := 0 to |list|
      invariant r == None ==> bestDistance == 999999 && forall j :: 0 <= j < i ==> !InRange(Dco(afe, list, j))
      invariant r.Some? ==>
                  && r.value < i && InRange(Dco(afe, list, r.value))
                  && bestDistance == Distance(Dco(afe, list, r.value))
                  && (forall j :: 0 <= j < i && InRange(Dco(afe, list, j)) ==>
                        bestDistance <= Distance(Dco(afe, list, j)))
                  && (forall j :: 0 <= j < r.value && InRange(Dco(afe, list, j)) ==>
                        bestDistance < Distance(Dco(afe, list, j)))
    {
      var dco := Dco(afe, list, i);
      if dco <= DCO_MAX && dco >= DCO_MIN {
        if Distance(dco) < bestDistance {
          r, bestDistance := Some(i), Distance(dco);
        }
      }
    }
  }

  /** Succeeds exactly when some listed divider reaches the range, with the best of them. */
  method ComputeHdmiDpll(freq: int) returns (r: Option<Dividers>)
    requires -0x8000_0000 <= 5 * freq < 0x8000_0000
    ensures r == None <==> NoneInRange(AfeClock(freq), DIVIDERS)
    ensures r.Some? ==>
              && IsLegal(r.value) && 7998 <= r.value.dco <= 10000
              && exists i: nat :: IsBest(AfeClock(freq), DIVIDERS, i)
                               && r.value.p * r.value.q * r.value.k == DIVIDERS[i]
                               && r.value.dco == AfeClock(freq) * DIVIDERS[i]
  {
    var best := FindDivider(AfeClock(freq), DIVIDERS);
    if best == None {
      return None;
    }
    SplitIsExact(best.value);
    var s := Split(DIVIDERS[best.value]);
    return Some(Dividers(s.p, s.q, s.k, Dco(AfeClock(freq), DIVIDERS, best.value)));
  }
}
