/** The M/N ratios of the display links: N is a power of two, M the ratio scaled by it, both in 24 bits.
    The same loops set up the FDI link and the DisplayPort links of several generations. */
module LinkRatio {
  import opened Common

  const MAX_N := 0x80_0000
  const MAX_VALUE := 0xff_ffff
  const TU_SIZE: bv32 := 0x7e00_0000
  const VALUE_MASK: bv32 := 0x00ff_ffff

  predicate IsPowerOfTwo(n: nat) {
    n == 1 || (n > 1 && n % 2 == 0 && IsPowerOfTwo(n / 2))
  }

  /** m is clock * n / speed, rounded down. */
  predicate IsFloor(m: nat, clock: nat, n: nat, speed: nat) {
    m * speed <= clock * n < (m + 1) * speed
  }

  /** Halving both keeps M exact: no precision is lost twice. */
  lemma HalvingKeepsFloor(m: nat, clock: nat, n: nat, speed: nat)
    requires IsFloor(m, clock, n, speed) && n % 2 == 0
    ensures IsFloor(m / 2, clock, n / 2, speed)
  {
    var h, k := m / 2, n / 2;
    assert clock * n == 2 * (clock * k);
    assert 2 * (h * speed) <= m * speed by {
      MulMonotone(2 * h, m, speed);
      assert 2 * h * speed == 2 * (h * speed);
    }
    assert (m + 1) * speed <= 2 * ((h + 1) * speed) by {
      MulMonotone(m + 1, 2 * (h + 1), speed);
      assert 2 * (h + 1) * speed == 2 * ((h + 1) * speed);
    }
  }

  lemma FloorOfDivision(x: nat, d: nat)
    requires d > 0
    ensures 0 <= x / d && x / d * d <= x < (x / d + 1) * d
  {
    DivModOf(x, d);
    assert (x / d + 1) * d == x / d * d + d;
  }

  /** The largest N tried: at least the link speed, but at most 2^23. */
  predicate IsFirstN(n: nat, speed: nat) {
    IsPowerOfTwo(n) && n <= MAX_N && (n == MAX_N || n >= speed) && (n == 1 || n / 2 < speed)
  }

  /** M and N for a clock over a link speed. N is a power of two of at most 23 bits and M is exactly the
      scaled ratio rounded down, in 24 bits; no larger N would do. This holds exactly for ratios below
      2^24; for others N is 0. */
  predicate IsRatio(m: nat, n: nat, clock: nat, speed: nat) {
    && m <= MAX_VALUE && (n == 0 <==> Exceeds(clock, 1, speed))
    && (n > 0 ==>
          && IsPowerOfTwo(n) && n <= MAX_N && IsFloor(m, clock, n, speed)
          && (IsFirstN(n, speed) || Exceeds(clock, 2 * n, speed)))
  }

  /** The loops for a clock that is already times the bits per pixel. */
  method ComputeMN(clock: nat, speed: nat) returns (m: nat, n: nat)
    requires 0 < speed < 0x1_0000_0000
    ensures IsRatio(m, n, clock, speed)
    ensures n > 0 ==> m as real / n as real <= clock as real / speed as real < (m + 1) as real / n as real
  {
    n := FirstN(speed);
    var scaled: nat := clock * n;
    FloorOfDivision(scaled, speed);
    m := scaled / speed;
    assert IsFloor(m, clock, n, speed);
    hide IsFloor, Exceeds, IsPowerOfTwo;
    m, n := Shrink(m, n, clock, speed);
    if n > 0 {
      RatioBracket(m, clock, n, speed);
    }
  }

  /** The doubling loop and the cap. */
  method FirstN(speed: nat) returns (n: nat)
    requires speed > 0
    ensures IsFirstN(n, speed)
  {
    n := 1;
    while n < speed
      invariant IsPowerOfTwo(n) && (n == 1 || n / 2 < speed)
    {
      n := n * 2;
    }
    if n > MAX_N {
      n := MAX_N;
      PowerOfTwoAtCap();
    }
  }

  /** The ratio is too large for 24 bits at the given N. */
  predicate Exceeds(clock: nat, n: nat, speed: nat) {
    clock * n >= 0x100_0000 * speed
  }

  lemma ExceedsIff(m: nat, clock: nat, n: nat, speed: nat)
    requires speed > 0 && IsFloor(m, clock, n, speed)
    ensures m > MAX_VALUE <==> Exceeds(clock, n, speed)
  {
    if m > MAX_VALUE {
      MulMonotone(0x100_0000, m, speed);
    } else {
      MulMonotone(m + 1, 0x100_0000, speed);
    }
  }

  lemma ExceedsUp(clock: nat, n: nat, speed: nat)
    requires n > 0 && Exceeds(clock, 1, speed)
    ensures Exceeds(clock, n, speed)
  {
    MulMonotone(1, n, clock);
  }

  /** The shift loop. */
  method Shrink(m0: nat, n0: nat, clock: nat, speed: nat) returns (m: nat, n: nat)
    requires 0 < speed && n0 <= MAX_N && IsPowerOfTwo(n0) && IsFloor(m0, clock, n0, speed)
    ensures m <= MAX_VALUE
    ensures n == 0 <==> Exceeds(clock, 1, speed)
    ensures n > 0 ==> IsPowerOfTwo(n) && n <= MAX_N && IsFloor(m, clock, n, speed)
    ensures n > 0 ==> n == n0 || Exceeds(clock, 2 * n, speed)
  {
    m, n := m0, n0;
    while n > MAX_VALUE || m > MAX_VALUE
      invariant n <= MAX_N && (n > 0 ==> IsPowerOfTwo(n) && IsFloor(m, clock, n, speed))
      invariant n > 0 ==> n == n0 || Exceeds(clock, 2 * n, speed)
      invariant n == 0 ==> Exceeds(clock, 1, speed)
      decreases m
    {
      if n > 0 {
        ExceedsIff(m, clock, n, speed);
      }
      if n > 1 {
        assert n == 2 * (n / 2) && IsPowerOfTwo(n / 2);
        HalvingKeepsFloor(m, clock, n, speed);
      }
      hide IsFloor, Exceeds, IsPowerOfTwo;
      m := m / 2;
      n := n / 2;
    }
    if n > 0 {
      ExceedsIff(m, clock, n, speed);
      if Exceeds(clock, 1, speed) {
        ExceedsUp(clock, n, speed);
      }
    }
  }

  lemma PowerOfTwoAtCap()
    ensures IsPowerOfTwo(MAX_N)
  {
    PowerTimes4(1);
    PowerTimes4(4);
    PowerTimes4(0x10);
    PowerTimes4(0x40);
    PowerTimes4(0x100);
    PowerTimes4(0x400);
    PowerTimes4(0x1000);
    PowerTimes4(0x4000);
    PowerTimes4(0x1_0000);
    PowerTimes4(0x4_0000);
    PowerTimes4(0x10_0000);
    assert MAX_N / 2 == 0x40_0000;
  }

  lemma PowerTimes4(n: nat)
    requires IsPowerOfTwo(n)
    ensures IsPowerOfTwo(4 * n)
  {
    assert 4 * n / 2 == 2 * n && 2 * n / 2 == n;
    assert IsPowerOfTwo(2 * n);
  }

  /** The M/N pair brackets the true ratio from below, to within one part in N. */
  lemma RatioBracket(m: nat, clock: nat, n: nat, speed: nat)
    requires n > 0 && speed > 0 && IsFloor(m, clock, n, speed)
    ensures m as real / n as real <= clock as real / speed as real < (m + 1) as real / n as real
  {
  }

  /** The transfer-unit size bits and a 24-bit M do not overlap. */
  lemma TuSizeIsSeparate(x: bv32)
    requires x <= VALUE_MASK
    ensures (x | TU_SIZE) & 0x00ff_ffff == x && (x | TU_SIZE) & 0xff00_0000 == 0x7e00_0000
  {
  }

  /** The speed of a link, as the source's 32-bit multiplication leaves it. */
  function LinkSpeed(lanes: U32, linkBandwidth: U32): U32 {
    lanes * linkBandwidth * 8 % 0x1_0000_0000
  }

  /** It is the true one exactly below 2^29; four lanes of 2^27 kHz come out as 0. */
  lemma LinkSpeedExactIff(lanes: U32, linkBandwidth: U32)
    ensures LinkSpeed(lanes, linkBandwidth) == lanes * linkBandwidth * 8 <==> lanes * linkBandwidth < 0x2000_0000
    ensures LinkSpeed(4, 0x800_0000) == 0
  {
    var product: nat := lanes * linkBandwidth;
    if product < 0x2000_0000 {
      DivModUnique(product * 8, 0x1_0000_0000, 0, product * 8);
    }
  }

  datatype LinkRegisters = LinkRegisters(dataM: bv32, dataN: nat, linkM: nat, linkN: nat)

  /** Sets up the data and link ratios of an FDI link. The source divides by both link speeds. */
  method SetFDILink(pixelClock: U32, linkBandwidth: U32, lanes: U32, bitsPerPixel: U32)
    returns (r: Option<LinkRegisters>)
    requires 18 <= bitsPerPixel <= 36 && lanes <= 4 ==>
               LinkSpeed(lanes, linkBandwidth) != 0 && linkBandwidth != 0
    ensures r == None <==> bitsPerPixel < 18 || bitsPerPixel > 36 || lanes > 4
    ensures r.Some? ==>
              var speed := LinkSpeed(lanes, linkBandwidth);
              && (exists m :: 0 <= m < 0x100_0000 && IsRatio(m, r.value.dataN, pixelClock * bitsPerPixel, speed)
                    && r.value.dataM & 0x00ff_ffff == m as bv32 && r.value.dataM & 0xff00_0000 == 0x7e00_0000)
              && IsRatio(r.value.linkM, r.value.linkN, pixelClock, linkBandwidth)
  {
    if bitsPerPixel < 18 || bitsPerPixel > 36 {
      return None;
    }
    if lanes > 4 {
      return None;
    }
    var m, n := ComputeMN(pixelClock * bitsPerPixel, LinkSpeed(lanes, linkBandwidth));
    var x := m as bv32;
    assert x <= VALUE_MASK;
    TuSizeIsSeparate(x);
    var linkM, linkN := ComputeMN(pixelClock, linkBandwidth);
    r := Some(LinkRegisters(x | TU_SIZE, n, linkM, linkN));
  }
}
