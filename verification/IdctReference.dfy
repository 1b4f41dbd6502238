/** The CPU reference of the two-pass fixed-point IDCT (Annex A of ISO/IEC 13818-2): a row pass and a
    column pass over an 8x8 block with Q15 cosines, each followed by rounding, a shift and narrowing
    to 16 bits. */
module IdctReference {
  import opened Common

  const COSINE: seq<seq<int>> := [
    [16383,  22725,  21407,  19266,  16383,  12873,   8867,   4520],
    [16383,  19266,   8867,  -4520, -16383, -22725, -21407, -12873],
    [16383,  12873,  -8867, -22725, -16383,   4520,  21407,  19266],
    [16383,   4520, -21407, -12873,  16383,  19266,  -8867, -22725],
    [16383,  -4520, -21407,  12873,  16383, -19266,  -8867,  22725],
    [16383, -12873,  -8867,  22725, -16383,  -4520,  21407, -19266],
    [16383, -19266,   8867,   4520, -16383,  22725, -21407,  12873],
    [16383, -22725,  21407, -19266,  16383, -12873,   8867,  -4520]]

  const ROW_ADD := 1024
  const ROW_DIVISOR := 2048          // shift by 11
  const COL_ADD := 524288
  const COL_DIVISOR := 1048576       // shift by 20

  const MAX_COSINE := 22725
  const COSINE_ABS_SUM := 122424

  /** Two's complement narrowing. Where an int32 sum would overflow, which the C++ standard leaves
      open, the wrap of the machine is taken (Wrap32). */
  function Wrap16(x: int): (r: int)
    ensures -0x8000 <= x < 0x8000 ==> r == x
    ensures -0x8000 <= r < 0x8000
  {
    (x + 0x8000) % 0x1_0000 - 0x8000
  }

  /** Wrapping at every step of a sum is wrapping once. */
  lemma WrapStep(a: int, b: int)
    ensures Wrap32(Wrap32(a) + b) == Wrap32(a + b)
  {
  }

  // ---------- vectors of eight ----------

  function Dot8(a: seq<int>, w: seq<int>): int
    requires |a| == 8 && |w| == 8
  {
    a[0] * w[0] + a[1] * w[1] + a[2] * w[2] + a[3] * w[3] + a[4] * w[4] + a[5] * w[5] + a[6] * w[6] + a[7] * w[7]
  }

  /** The sum over the first k entries, as the inner loops build it. */
  function DotTo(a: seq<int>, w: seq<int>, k: nat): int
    requires k <= |a| && k <= |w|
  {
    if k == 0 then 0 else DotTo(a, w, k - 1) + a[k - 1] * w[k - 1]
  }

  lemma DotToIsDot8(a: seq<int>, w: seq<int>)
    requires |a| == 8 && |w| == 8
    ensures DotTo(a, w, 8) == Dot8(a, w)
  {
    assert DotTo(a, w, 1) == a[0] * w[0];
    assert DotTo(a, w, 2) == DotTo(a, w, 1) + a[1] * w[1];
    assert DotTo(a, w, 3) == DotTo(a, w, 2) + a[2] * w[2];
    assert DotTo(a, w, 4) == DotTo(a, w, 3) + a[3] * w[3];
    assert DotTo(a, w, 5) == DotTo(a, w, 4) + a[4] * w[4];
    assert DotTo(a, w, 6) == DotTo(a, w, 5) + a[5] * w[5];
    assert DotTo(a, w, 7) == DotTo(a, w, 6) + a[6] * w[6];
  }

  function Abs(x: int): nat { if x < 0 then -x else x }

  function AbsSum(a: seq<int>): nat
    requires |a| == 8
  {
    Abs(a[0]) + Abs(a[1]) + Abs(a[2]) + Abs(a[3]) + Abs(a[4]) + Abs(a[5]) + Abs(a[6]) + Abs(a[7])
  }

  lemma AbsMul(a: int, w: int, bound: nat)
    requires Abs(w) <= bound
    ensures Abs(a * w) <= bound * Abs(a)
  {
    assert Abs(a * w) == Abs(a) * Abs(w);
  }

  lemma FourTerms(a: seq<int>, w: seq<int>, at: nat, bound: nat)
    requires |a| == 8 && |w| == 8 && at <= 4 && forall k :: 0 <= k < 8 ==> Abs(w[k]) <= bound
    ensures Abs(a[at] * w[at] + a[at + 1] * w[at + 1] + a[at + 2] * w[at + 2] + a[at + 3] * w[at + 3])
            <= bound * (Abs(a[at]) + Abs(a[at + 1]) + Abs(a[at + 2]) + Abs(a[at + 3]))
  {
    AbsMul(a[at], w[at], bound);
    AbsMul(a[at + 1], w[at + 1], bound);
    AbsMul(a[at + 2], w[at + 2], bound);
    AbsMul(a[at + 3], w[at + 3], bound);
    Distribute(bound, Abs(a[at]), Abs(a[at + 1]), Abs(a[at + 2]), Abs(a[at + 3]));
  }

  lemma DotBound(a: seq<int>, w: seq<int>, bound: nat)
    requires |a| == 8 && |w| == 8 && forall k :: 0 <= k < 8 ==> Abs(w[k]) <= bound
    ensures Abs(Dot8(a, w)) <= bound * AbsSum(a)
  {
    FourTerms(a, w, 0, bound);
    FourTerms(a, w, 4, bound);
    Distribute(bound, Abs(a[0]) + Abs(a[1]) + Abs(a[2]) + Abs(a[3]),
               Abs(a[4]) + Abs(a[5]) + Abs(a[6]) + Abs(a[7]), 0, 0);
  }

  lemma Distribute(c: int, p: int, q: int, r: int, s: int)
    ensures c * (p + q + r + s) == c * p + c * q + c * r + c * s
  {
  }

  lemma DotSymmetric(a: seq<int>, w: seq<int>)
    requires |a| == 8 && |w| == 8
    ensures Dot8(a, w) == Dot8(w, a)
  {
  }

  /** Negating the entries at odd positions. */
  function Alternate(a: seq<int>): (r: seq<int>)
    requires |a| == 8
    ensures |r| == 8 && forall k :: 0 <= k < 8 ==> r[k] == if k % 2 == 1 then -a[k] else a[k]
  {
    seq(8, k requires 0 <= k < 8 => if k % 2 == 1 then -a[k] else a[k])
  }

  lemma AlternateBoth(a: seq<int>, w: seq<int>)
    requires |a| == 8 && |w| == 8
    ensures Dot8(Alternate(a), Alternate(w)) == Dot8(a, w)
    ensures Dot8(Alternate(a), w) == Dot8(a, Alternate(w))
  {
  }

  // ---------- the table ----------

  /** Row 7 - j of the table is row j with its odd entries negated. */
  lemma TableMirror(j: nat)
    requires j < 8
    ensures |COSINE| == 8 && |COSINE[j]| == 8 && COSINE[7 - j] == Alternate(COSINE[j])
  {
  }

  function Entry(j: nat, k: nat): int
    requires j < 8 && k < 8
  {
    COSINE[j][k]
  }

  /** The table holds cosines: its entries obey cos a + cos b = 2 cos((a + b) / 2) cos((a - b) / 2) along
      each row and down its second column, with 23170 for the scale, up to the rounding of the entries. */
  lemma TableIsCosines(j: nat, k: nat)
    requires j < 8 && k < 8
    ensures 1 <= k <= 6 ==>
              Abs(2 * Entry(j, 1) * Entry(j, k)
                  - 23170 * (Entry(j, k + 1) + (if k == 1 then 23170 else Entry(j, k - 1)))) < 0x1_0000
    ensures j < 7 ==>
              (Abs(2 * Entry(0, 2) * Entry(j, 1)
                   - 23170 * (Entry(j + 1, 1) + Entry(if j == 0 then 0 else j - 1, 1))) < 0x1_0000)
    ensures Abs(2 * Entry(j, 0) * Entry(j, 0) - 23170 * 23170) < 0x1_0000 && Entry(j, 0) > 0 && Entry(0, 1) > 0
  {
    if j == 0 {
    } else if j == 1 {
    } else if j == 2 {
    } else if j == 3 {
    } else if j == 4 {
    } else if j == 5 {
    } else if j == 6 {
    } else {
    }
  }

  lemma TableBounds(j: nat)
    requires j < 8
    ensures |COSINE| == 8 && |COSINE[j]| == 8
    ensures (forall k :: 0 <= k < 8 ==> Abs(COSINE[j][k]) <= MAX_COSINE) && AbsSum(COSINE[j]) == COSINE_ABS_SUM
  {
  }

  // ---------- the two passes ----------

  function Row(block: seq<int>, i: nat): (r: seq<int>)
    requires |block| == 64 && i < 8
    ensures |r| == 8
  {
    block[8 * i..8 * i + 8]
  }

  /** The exact sum of a row with a row of the table. */
  function RowSum(block: seq<int>, j: nat, i: nat): int
    requires |block| == 64 && i < 8 && j < 8
  {
    Dot8(Row(block, i), COSINE[j])
  }

  function RowRound(sum: int): int {
    Wrap16(Wrap32(Wrap32(sum) + ROW_ADD) / ROW_DIVISOR)
  }

  function ColRound(sum: int): int {
    Wrap16(Wrap32(Wrap32(sum) + COL_ADD) / COL_DIVISOR)
  }

  /** Column j after the row pass. */
  function Narrow(block: seq<int>, j: nat): (r: seq<int>)
    requires |block| == 64 && j < 8
    ensures |r| == 8 && forall i :: 0 <= i < 8 ==> r[i] == RowRound(RowSum(block, j, i))
  {
    seq(8, i requires 0 <= i < 8 => RowRound(RowSum(block, j, i)))
  }

  function ColSum(block: seq<int>, m: nat, j: nat): int
    requires |block| == 64 && m < 8 && j < 8
  {
    Dot8(Narrow(block, j), COSINE[m])
  }

  /** The output at row m, column j. */
  function Out(block: seq<int>, m: nat, j: nat): int
    requires |block| == 64 && m < 8 && j < 8
  {
    ColRound(ColSum(block, m, j))
  }

  // ---------- the exact transform ----------

  function RowSums(block: seq<int>, j: nat): (r: seq<int>)
    requires |block| == 64 && j < 8
    ensures |r| == 8 && forall i :: 0 <= i < 8 ==> r[i] == RowSum(block, j, i)
  {
    seq(8, i requires 0 <= i < 8 => RowSum(block, j, i))
  }

  /** The double cosine sum without any rounding; its unit is 2^-31. */
  function Exact(block: seq<int>, m: nat, j: nat): int
    requires |block| == 64 && m < 8 && j < 8
  {
    Dot8(RowSums(block, j), COSINE[m])
  }

  function Norm(block: seq<int>): nat
    requires |block| == 64
  {
    AbsSum(Row(block, 0)) + AbsSum(Row(block, 1)) + AbsSum(Row(block, 2)) + AbsSum(Row(block, 3))
    + AbsSum(Row(block, 4)) + AbsSum(Row(block, 5)) + AbsSum(Row(block, 6)) + AbsSum(Row(block, 7))
  }

  const MAX_NORM := 2953

  // ---------- no step wraps ----------

  /** Rounding a value that fits changes it by at most half a unit. */
  lemma RowRoundExact(sum: int)
    requires Abs(sum) <= MAX_COSINE * MAX_NORM
    ensures RowRound(sum) == (sum + ROW_ADD) / ROW_DIVISOR
    ensures -ROW_ADD < ROW_DIVISOR * RowRound(sum) - sum <= ROW_ADD
  {
  }

  lemma ColRoundExact(sum: int)
    requires Abs(sum) <= 0x7000_0000
    ensures ColRound(sum) == (sum + COL_ADD) / COL_DIVISOR
    ensures -COL_ADD < COL_DIVISOR * ColRound(sum) - sum <= COL_ADD
  {
  }

  lemma RowSumBound(block: seq<int>, j: nat, i: nat)
    requires |block| == 64 && i < 8 && j < 8
    ensures Abs(RowSum(block, j, i)) <= MAX_COSINE * AbsSum(Row(block, i)) && AbsSum(Row(block, i)) <= Norm(block)
  {
    TableBounds(j);
    DotBound(Row(block, i), COSINE[j], MAX_COSINE);
    RowNorm(block, i);
  }

  lemma RowNorm(block: seq<int>, i: nat)
    requires |block| == 64 && i < 8
    ensures AbsSum(Row(block, i)) <= Norm(block)
  {
    if i < 4 {
      assert i == 0 || i == 1 || i == 2 || i == 3;
    } else {
      assert i == 4 || i == 5 || i == 6 || i == 7;
    }
  }

  lemma NarrowBound(block: seq<int>, j: nat, i: nat)
    requires |block| == 64 && i < 8 && j < 8 && Norm(block) <= MAX_NORM
    ensures Abs(RowSum(block, j, i)) <= MAX_COSINE * MAX_NORM
    ensures ROW_DIVISOR * Abs(Narrow(block, j)[i]) <= MAX_COSINE * AbsSum(Row(block, i)) + ROW_ADD
  {
    RowSumBound(block, j, i);
    RowRoundExact(RowSum(block, j, i));
  }

  lemma ColSumBound(block: seq<int>, m: nat, j: nat)
    requires |block| == 64 && m < 8 && j < 8 && Norm(block) <= MAX_NORM
    ensures Abs(ColSum(block, m, j)) <= 0x7000_0000
  {
    ColAbsSum(block, j);
    TableBounds(m);
    DotBound(Narrow(block, j), COSINE[m], MAX_COSINE);
  }

  function AbsTo(a: seq<int>, k: nat): nat
    requires k <= |a|
  {
    if k == 0 then 0 else AbsTo(a, k - 1) + Abs(a[k - 1])
  }

  lemma {:induction false} DotToBound(a: seq<int>, w: seq<int>, k: nat, bound: nat)
    requires k <= |a| && k <= |w| && forall i :: 0 <= i < k ==> Abs(w[i]) <= bound
    ensures Abs(DotTo(a, w, k)) <= bound * AbsTo(a, k)
  {
    if k > 0 {
      DotToBound(a, w, k - 1, bound);
      AbsMul(a[k - 1], w[k - 1], bound);
      Distribute(bound, AbsTo(a, k - 1), Abs(a[k - 1]), 0, 0);
    }
  }

  lemma AbsToBound(a: seq<int>, k: nat)
    requires |a| == 8 && k <= 8
    ensures AbsTo(a, k) <= AbsSum(a)
  {
    assert AbsTo(a, 1) == Abs(a[0]) && AbsTo(a, 2) == AbsTo(a, 1) + Abs(a[1]);
    assert AbsTo(a, 3) == AbsTo(a, 2) + Abs(a[2]) && AbsTo(a, 4) == AbsTo(a, 3) + Abs(a[3]);
    assert AbsTo(a, 5) == AbsTo(a, 4) + Abs(a[4]) && AbsTo(a, 6) == AbsTo(a, 5) + Abs(a[5]);
    assert AbsTo(a, 7) == AbsTo(a, 6) + Abs(a[6]) && AbsTo(a, 8) == AbsTo(a, 7) + Abs(a[7]);
  }

  lemma ColAbsSum(block: seq<int>, j: nat)
    requires |block| == 64 && j < 8 && Norm(block) <= MAX_NORM
    ensures ROW_DIVISOR * AbsSum(Narrow(block, j)) <= MAX_COSINE * Norm(block) + 8 * ROW_ADD
  {
    var n := Narrow(block, j);
    forall i | 0 <= i < 8
      ensures ROW_DIVISOR * Abs(n[i]) <= MAX_COSINE * AbsSum(Row(block, i)) + ROW_ADD
    {
      NarrowBound(block, j, i);
    }
  }

  /** For every block within the bound, no partial sum of either pass leaves 32 bits, and no value
      narrowed leaves 16. */
  lemma NoStepWraps(block: seq<int>, m: nat, j: nat, i: nat, k: nat)
    requires |block| == 64 && m < 8 && j < 8 && i < 8 && k <= 8 && Norm(block) <= MAX_NORM
    ensures Abs(DotTo(Row(block, i), COSINE[j], k)) + ROW_ADD < 0x8000_0000
    ensures Abs(DotTo(Narrow(block, j), COSINE[m], k)) + COL_ADD < 0x8000_0000
    ensures Narrow(block, j)[i] == (RowSum(block, j, i) + ROW_ADD) / ROW_DIVISOR
    ensures Out(block, m, j) == (ColSum(block, m, j) + COL_ADD) / COL_DIVISOR
  {
    TableBounds(j);
    TableBounds(m);
    DotToBound(Row(block, i), COSINE[j], k, MAX_COSINE);
    AbsToBound(Row(block, i), k);
    RowNorm(block, i);
    DotToBound(Narrow(block, j), COSINE[m], k, MAX_COSINE);
    AbsToBound(Narrow(block, j), k);
    ColAbsSum(block, j);
    NarrowBound(block, j, i);
    RowRoundExact(RowSum(block, j, i));
    ColSumBound(block, m, j);
    ColRoundExact(ColSum(block, m, j));
  }

  /** The bound is sharp: one coefficient of 2954 wraps in the row pass. */
  lemma LargerNormWraps()
    ensures exists block: seq<int> :: |block| == 64 && Norm(block) == MAX_NORM + 1
              && Narrow(block, 0)[0] != (RowSum(block, 0, 0) + ROW_ADD) / ROW_DIVISOR
  {
    var block := Single(1, 2954);
    assert Row(block, 0) == [0, 2954, 0, 0, 0, 0, 0, 0];
    forall i | 1 <= i < 8 ensures Row(block, i) == [0, 0, 0, 0, 0, 0, 0, 0] {
    }
    assert Norm(block) == 2954;
    assert RowSum(block, 0, 0) == 2954 * 22725;
  }

  /** A block with one coefficient. */
  function Single(at: nat, value: int): (r: seq<int>)
    requires at < 64
    ensures |r| == 64 && forall k :: 0 <= k < 64 ==> r[k] == if k == at then value else 0
  {
    Zeros(at) + [value] + Zeros(63 - at)
  }

  function Zeros(n: nat): (r: seq<int>)
    ensures |r| == n && forall k :: 0 <= k < n ==> r[k] == 0
  {
    if n == 0 then [] else Zeros(n - 1) + [0]
  }

  // ---------- accuracy ----------

  function RowErrors(block: seq<int>, j: nat): (r: seq<int>)
    requires |block| == 64 && j < 8
    ensures |r| == 8
    ensures forall i :: 0 <= i < 8 ==> r[i] == ROW_DIVISOR * Narrow(block, j)[i] - RowSum(block, j, i)
  {
    seq(8, i requires 0 <= i < 8 => ROW_DIVISOR * Narrow(block, j)[i] - RowSum(block, j, i))
  }

  lemma ScaledTerm(c: int, n: int, s: int, w: int)
    ensures (c * n - s) * w == c * (n * w) - s * w
  {
  }

  lemma DotScaled(c: int, n: seq<int>, s: seq<int>, d: seq<int>, w: seq<int>)
    requires |n| == |s| == |d| == |w| == 8 && forall i :: 0 <= i < 8 ==> d[i] == c * n[i] - s[i]
    ensures Dot8(d, w) == c * Dot8(n, w) - Dot8(s, w)
  {
    ScaledTerm(c, n[0], s[0], w[0]);
    ScaledTerm(c, n[1], s[1], w[1]);
    ScaledTerm(c, n[2], s[2], w[2]);
    ScaledTerm(c, n[3], s[3], w[3]);
    ScaledTerm(c, n[4], s[4], w[4]);
    ScaledTerm(c, n[5], s[5], w[5]);
    ScaledTerm(c, n[6], s[6], w[6]);
    ScaledTerm(c, n[7], s[7], w[7]);
    Distribute(c, n[0] * w[0], n[1] * w[1], n[2] * w[2], n[3] * w[3]);
    Distribute(c, n[4] * w[4], n[5] * w[5], n[6] * w[6], n[7] * w[7]);
    Distribute(c, n[0] * w[0] + n[1] * w[1] + n[2] * w[2] + n[3] * w[3],
               n[4] * w[4] + n[5] * w[5] + n[6] * w[6] + n[7] * w[7], 0, 0);
  }

  /** Every output is within 0.56 of the exact transform, for all blocks that do not wrap. */
  lemma OutIsAccurate(block: seq<int>, m: nat, j: nat)
    requires |block| == 64 && m < 8 && j < 8 && Norm(block) <= MAX_NORM
    ensures Abs(Out(block, m, j) * 0x8000_0000 - Exact(block, m, j)) <= 0x4000_0000 + ROW_ADD * COSINE_ABS_SUM
    ensures 100 * Abs(Out(block, m, j) * 0x8000_0000 - Exact(block, m, j)) < 56 * 0x8000_0000
  {
    var n, s, d, w := Narrow(block, j), RowSums(block, j), RowErrors(block, j), COSINE[m];
    forall i | 0 <= i < 8 ensures Abs(d[i]) <= ROW_ADD {
      NarrowBound(block, j, i);
      RowRoundExact(RowSum(block, j, i));
    }
    TableBounds(m);
    DotBound(w, d, ROW_ADD);
    DotSymmetric(w, d);
    DotScaled(ROW_DIVISOR, n, s, d, w);
    ColSumBound(block, m, j);
    ColRoundExact(ColSum(block, m, j));
  }

  // ---------- the transform it inverts ----------

  /** c * a + b */
  function Plus(c: int, a: seq<int>, b: seq<int>): (r: seq<int>)
    requires |a| == 8 && |b| == 8
    ensures |r| == 8 && forall k :: 0 <= k < 8 ==> r[k] == c * a[k] + b[k]
  {
    seq(8, k requires 0 <= k < 8 => c * a[k] + b[k])
  }

  /** The forward transform of the first n of eight samples: their cosines, added up. */
  function Forward(x: seq<int>, n: nat): (r: seq<int>)
    requires |x| == 8 && n <= 8
    ensures |r| == 8
  {
    if n == 0 then Zeros(8) else Plus(x[n - 1], COSINE[n - 1], Forward(x, n - 1))
  }

  lemma DotPlus(c: int, a: seq<int>, b: seq<int>, w: seq<int>)
    requires |a| == |b| == |w| == 8
    ensures Dot8(Plus(c, a, b), w) == c * Dot8(a, w) + Dot8(b, w)
  {
    var s := Plus(-1, b, Zeros(8));
    DotScaled(c, a, s, Plus(c, a, b), w);
    DotScaled(-1, b, Zeros(8), s, w);
  }

  /** The rows of the table are orthogonal, and of square length 2^31, up to the rounding of the entries. */
  lemma RowsAreOrthogonal(j: nat, m: nat)
    requires j < 8 && m < 8
    ensures Abs(Dot8(COSINE[j], COSINE[m]) - if j == m then 0x8000_0000 else 0) <= 77960
  {
    if j == 0 {
    } else if j == 1 {
    } else if j == 2 {
    } else if j == 3 {
    } else if j == 4 {
    } else if j == 5 {
    } else if j == 6 {
    } else {
    }
  }

  function SumAbs(x: seq<int>, n: nat): nat
    requires n <= |x|
  {
    if n == 0 then 0 else SumAbs(x, n - 1) + Abs(x[n - 1])
  }

  lemma OneMoreSample(x: int, d: int, unit: int, sum: int, target: int, bound: nat)
    requires Abs(d - unit) <= 77960 && Abs(sum - target) <= bound
    ensures Abs(x * d + sum - (target + unit * x)) <= bound + 77960 * Abs(x)
  {
    AbsMul(x, d - unit, 77960);
    assert x * d == x * (d - unit) + unit * x;
  }

  /** The sums of a pass undo the forward transform: each gives back the sample it is at, times 2^31,
      up to a small multiple of the samples. */
  lemma {:induction false} PassInvertsForward(x: seq<int>, n: nat, m: nat)
    requires |x| == 8 && m < 8 && n <= 8
    ensures Abs(Dot8(Forward(x, n), COSINE[m]) - if m < n then 0x8000_0000 * x[m] else 0) <= 77960 * SumAbs(x, n)
  {
    hide Dot8, Plus, Zeros;
    if n == 0 {
      ZeroDot(Zeros(8), COSINE[m]);
    } else {
      PassInvertsForward(x, n - 1, m);
      DotPlus(x[n - 1], COSINE[n - 1], Forward(x, n - 1), COSINE[m]);
      RowsAreOrthogonal(n - 1, m);
      OneMoreSample(x[n - 1], Dot8(COSINE[n - 1], COSINE[m]), if n - 1 == m then 0x8000_0000 else 0,
                    Dot8(Forward(x, n - 1), COSINE[m]), if m < n - 1 then 0x8000_0000 * x[m] else 0,
                    77960 * SumAbs(x, n - 1));
    }
  }

  // ---------- mirror images ----------

  /** The block with the odd horizontal frequencies negated. */
  function NegateOddColumns(block: seq<int>): (r: seq<int>)
    requires |block| == 64
    ensures |r| == 64 && forall k :: 0 <= k < 64 ==> r[k] == if k % 2 == 1 then -block[k] else block[k]
  {
    seq(64, k requires 0 <= k < 64 => if k % 2 == 1 then -block[k] else block[k])
  }

  /** The block with the odd vertical frequencies negated. */
  function NegateOddRows(block: seq<int>): (r: seq<int>)
    requires |block| == 64
    ensures |r| == 64 && forall k :: 0 <= k < 64 ==> r[k] == if k / 8 % 2 == 1 then -block[k] else block[k]
  {
    seq(64, k requires 0 <= k < 64 => if k / 8 % 2 == 1 then -block[k] else block[k])
  }

  /** Negating the odd horizontal frequencies of any block mirrors the output left to right, bit for
      bit, wrapping included. */
  lemma HorizontalMirror(block: seq<int>, m: nat, j: nat)
    requires |block| == 64 && m < 8 && j < 8
    ensures Out(NegateOddColumns(block), m, 7 - j) == Out(block, m, j)
  {
    var mirrored := NegateOddColumns(block);
    forall i | 0 <= i < 8 ensures RowSum(mirrored, 7 - j, i) == RowSum(block, j, i) {
      assert Row(mirrored, i) == Alternate(Row(block, i)) by {
        forall k | 0 <= k < 8 ensures Row(mirrored, i)[k] == Alternate(Row(block, i))[k] {
          assert Row(mirrored, i)[k] == mirrored[8 * i + k];
          assert (8 * i + k) % 2 == k % 2;
        }
      }
      TableMirror(j);
      AlternateBoth(Row(block, i), COSINE[j]);
    }
    assert Narrow(mirrored, 7 - j) == Narrow(block, j);
  }

  /** What the row pass makes of a negated sum beyond the negated result: one more at a tie, and 2^16
      less where that has no place in 16 bits. */
  function SignError(sum: int): int {
    var tie := if (sum + ROW_ADD) % ROW_DIVISOR == 0 then 1 else 0;
    if tie - RowRound(sum) >= 0x8000 then tie - 0x1_0000 else tie
  }

  /** That for row i of a block, of which only the odd ones are negated. */
  function Tie(block: seq<int>, j: nat, i: nat): int
    requires |block| == 64 && i < 8 && j < 8
  {
    if i % 2 == 1 then SignError(RowSum(block, j, i)) else 0
  }

  function Ties(block: seq<int>, j: nat): (r: seq<int>)
    requires |block| == 64 && j < 8
    ensures |r| == 8 && forall i :: 0 <= i < 8 ==> r[i] == Tie(block, j, i)
  {
    seq(8, i requires 0 <= i < 8 => Tie(block, j, i))
  }

  lemma NegatedRow(block: seq<int>, i: nat)
    requires |block| == 64 && i < 8
    ensures i % 2 == 0 ==> Row(NegateOddRows(block), i) == Row(block, i)
    ensures forall k :: 0 <= k < 8 ==>
              Row(NegateOddRows(block), i)[k] == if i % 2 == 1 then -Row(block, i)[k] else Row(block, i)[k]
  {
    forall k | 0 <= k < 8
      ensures Row(NegateOddRows(block), i)[k] == if i % 2 == 1 then -Row(block, i)[k] else Row(block, i)[k]
    {
      assert (8 * i + k) / 8 == i;
    }
  }

  lemma NegatedRowSum(block: seq<int>, j: nat, i: nat)
    requires |block| == 64 && i < 8 && j < 8
    ensures RowSum(NegateOddRows(block), j, i)
            == if i % 2 == 1 then -RowSum(block, j, i) else RowSum(block, j, i)
  {
    NegatedRow(block, i);
    if i % 2 == 1 {
      DotScaled(-1, Row(block, i), [0, 0, 0, 0, 0, 0, 0, 0], Row(NegateOddRows(block), i), COSINE[j]);
    }
  }

  /** The row pass of the negated block is negated in odd rows, but for the sign errors. */
  lemma NegatedNarrow(block: seq<int>, j: nat, i: nat)
    requires |block| == 64 && i < 8 && j < 8
    ensures Narrow(NegateOddRows(block), j)[i] == Alternate(Narrow(block, j))[i] + Tie(block, j, i)
  {
    hide RowSum, RowRound, Narrow, Alternate, NegateOddRows, SignError;
    NegatedRowSum(block, j, i);
    RoundNegated(RowSum(block, j, i));
  }

  /** The row pass keeps the rounded quotient modulo 2^16, however far the sum is out of range. */
  lemma RowRoundIsWrapped(sum: int)
    ensures RowRound(sum) == Wrap16((sum + ROW_ADD) / ROW_DIVISOR)
  {
    WrapStep(sum, ROW_ADD);
    var y := sum + ROW_ADD;
    var k := (y + 0x8000_0000) / 0x1_0000_0000;
    assert Wrap32(y) == y - k * 0x1_0000_0000;
    assert Wrap32(y) / ROW_DIVISOR == y / ROW_DIVISOR - k * 0x20_0000;
    Wrap16Shift(y / ROW_DIVISOR, -32 * k);
  }

  lemma Wrap16Shift(x: int, k: int)
    ensures Wrap16(x + k * 0x1_0000) == Wrap16(x)
  {
  }

  lemma RoundNegated(sum: int)
    ensures RowRound(-sum) == -RowRound(sum) + SignError(sum)
  {
    RowRoundIsWrapped(sum);
    RowRoundIsWrapped(-sum);
    hide RowRound;
    var q := (sum + ROW_ADD) / ROW_DIVISOR;
    var tie := if (sum + ROW_ADD) % ROW_DIVISOR == 0 then 1 else 0;
    assert (-sum + ROW_ADD) / ROW_DIVISOR == -q + tie;
    var h := (q + 0x8000) / 0x1_0000;
    assert Wrap16(q) == q - h * 0x1_0000;
    Wrap16Shift(-Wrap16(q) + tie, -h);
  }

  /** How far the column sum of the negated block is from the mirrored one. */
  function TieSum(block: seq<int>, m: nat, j: nat): int
    requires |block| == 64 && m < 8 && j < 8
  {
    Dot8(Ties(block, j), COSINE[m])
  }

  lemma NegatedColSum(block: seq<int>, m: nat, j: nat)
    requires |block| == 64 && m < 8 && j < 8
    ensures ColSum(NegateOddRows(block), m, j) == ColSum(block, 7 - m, j) + TieSum(block, m, j)
  {
    TiesAreTheDifference(block, j);
    TableMirror(m);
    AlternateWithTies(Narrow(block, j), Narrow(NegateOddRows(block), j), Ties(block, j), COSINE[m], COSINE[7 - m]);
  }

  lemma TiesAreTheDifference(block: seq<int>, j: nat)
    requires |block| == 64 && j < 8
    ensures forall i :: 0 <= i < 8 ==>
              Ties(block, j)[i] == 1 * Narrow(NegateOddRows(block), j)[i] - Alternate(Narrow(block, j))[i]
  {
    forall i | 0 <= i < 8
      ensures Ties(block, j)[i] == 1 * Narrow(NegateOddRows(block), j)[i] - Alternate(Narrow(block, j))[i]
    {
      NegatedNarrow(block, j, i);
    }
  }

  lemma AlternateWithTies(n: seq<int>, n': seq<int>, t: seq<int>, w: seq<int>, w': seq<int>)
    requires |n| == |n'| == |t| == |w| == 8 && w' == Alternate(w)
    requires forall i :: 0 <= i < 8 ==> t[i] == 1 * n'[i] - Alternate(n)[i]
    ensures Dot8(n', w) == Dot8(n, w') + Dot8(t, w)
  {
    DotScaled(1, n', Alternate(n), t, w);
    AlternateBoth(n, w);
  }

  /** The column pass keeps the rounded quotient in 12 bits. */
  lemma ColRoundIsWrapped(sum: int)
    ensures ColRound(sum) == Wrap32(sum + COL_ADD) / COL_DIVISOR
  {
    WrapStep(sum, COL_ADD);
    assert -2048 <= Wrap32(sum + COL_ADD) / COL_DIVISOR < 2048;
  }

  /** Two sums come out equal exactly when their difference does not leave the rounding interval. */
  lemma SameRoundIff(sum: int, e: int)
    ensures ColRound(sum + e) == ColRound(sum)
            <==> ((sum + COL_ADD) % COL_DIVISOR + e) % 0x1_0000_0000 < COL_DIVISOR
  {
    hide ColRound, Wrap32;
    ColRoundIsWrapped(sum);
    ColRoundIsWrapped(sum + e);
    var y := sum + COL_ADD;
    var a, hi, lo := WrapParts(y);
    var b, hi', lo' := WrapParts(y + e);
    RemainderOfParts(hi' - hi, lo', b - a);
    assert lo + e == (hi' - hi) * COL_DIVISOR + lo' + (b - a) * 0x1_0000_0000;
  }

  /** A sum as its wraps, its rounded quotient and its remainder. */
  lemma WrapParts(y: int) returns (wraps: int, hi: int, lo: int)
    ensures y == wraps * 0x1_0000_0000 + hi * COL_DIVISOR + lo && 0 <= lo < COL_DIVISOR && -2048 <= hi < 2048
    ensures hi == Wrap32(y) / COL_DIVISOR && lo == y % COL_DIVISOR
  {
    wraps := (y + 0x8000_0000) / 0x1_0000_0000;
    hi, lo := Wrap32(y) / COL_DIVISOR, Wrap32(y) % COL_DIVISOR;
    assert Wrap32(y) == y - wraps * 0x1_0000_0000;
  }

  lemma RemainderOfParts(d: int, lo: int, k: int)
    requires -4096 < d < 4096 && 0 <= lo < COL_DIVISOR
    ensures (d * COL_DIVISOR + lo + k * 0x1_0000_0000) % 0x1_0000_0000
            == (if d < 0 then d + 4096 else d) * COL_DIVISOR + lo
  {
    var x := d * COL_DIVISOR + lo + k * 0x1_0000_0000;
    var r := (if d < 0 then d + 4096 else d) * COL_DIVISOR + lo;
    var q := if d < 0 then k - 1 else k;
    assert x == q * 0x1_0000_0000 + r && 0 <= r < 0x1_0000_0000;
  }

  /** Negating the odd vertical frequencies of any block mirrors the output top to bottom exactly where
      the sign errors of the odd rows do not carry the column sum over a rounding boundary, modulo 2^32. */
  lemma VerticalMirrorIff(block: seq<int>, m: nat, j: nat)
    requires |block| == 64 && m < 8 && j < 8
    ensures Out(NegateOddRows(block), m, j) == Out(block, 7 - m, j)
            <==> ((ColSum(block, 7 - m, j) + COL_ADD) % COL_DIVISOR + TieSum(block, m, j)) % 0x1_0000_0000
                 < COL_DIVISOR
  {
    hide ColSum, ColRound, TieSum, NegateOddRows;
    NegatedColSum(block, m, j);
    SameRoundIff(ColSum(block, 7 - m, j), TieSum(block, m, j));
  }

  /** Without sign errors in the odd rows it always does. */
  lemma VerticalMirrorWithoutTies(block: seq<int>, m: nat, j: nat)
    requires |block| == 64 && m < 8 && j < 8
    requires forall i :: 0 <= i < 8 ==> Tie(block, j, i) == 0
    ensures Out(NegateOddRows(block), m, j) == Out(block, 7 - m, j)
  {
    hide ColSum, ColRound, NegateOddRows;
    ZeroDot(Ties(block, j), COSINE[m]);
    NegatedColSum(block, m, j);
  }

  lemma SingleRows(block: seq<int>)
    requires block == Single(8, 1024)
    ensures Row(block, 1) == [1024, 0, 0, 0, 0, 0, 0, 0]
    ensures forall i :: 0 <= i < 8 && i != 1 ==> Row(block, i) == [0, 0, 0, 0, 0, 0, 0, 0]
    ensures Norm(block) == 1024
  {
  }

  lemma SingleSums(block: seq<int>)
    requires block == Single(8, 1024)
    ensures forall i :: 0 <= i < 8 ==> RowSum(block, 0, i) == if i == 1 then 1024 * 16383 else 0
  {
    SingleRows(block);
    forall i | 0 <= i < 8 ensures RowSum(block, 0, i) == if i == 1 then 1024 * 16383 else 0 {
      if i != 1 {
        ZeroDot(Row(block, i), COSINE[0]);
      }
    }
  }

  lemma ZeroDot(a: seq<int>, w: seq<int>)
    requires |a| == 8 && |w| == 8 && forall i :: 0 <= i < 8 ==> a[i] == 0
    ensures Dot8(a, w) == 0
  {
  }

  lemma OneDot(a: seq<int>, w: seq<int>)
    requires |a| == 8 && |w| == 8 && forall i :: 0 <= i < 8 && i != 1 ==> a[i] == 0
    ensures Dot8(a, w) == a[1] * w[1]
  {
  }

  lemma SingleNarrow(block: seq<int>)
    requires |block| == 64 && forall i :: 0 <= i < 8 ==> RowSum(block, 0, i) == if i == 1 then 1024 * 16383 else 0
    ensures forall i :: 0 <= i < 8 ==> Narrow(block, 0)[i] == if i == 1 then 8192 else 0
    ensures forall i :: 0 <= i < 8 ==> Ties(block, 0)[i] == if i == 1 then 1 else 0
  {
    hide RowRound, SignError, RowSum;
    SingleRowRounds();
    forall i | 0 <= i < 8
      ensures Narrow(block, 0)[i] == if i == 1 then 8192 else 0
      ensures Ties(block, 0)[i] == if i == 1 then 1 else 0
    {
      assert RowSum(block, 0, i) == if i == 1 then 16776192 else 0;
    }
  }

  lemma SingleRowRounds()
    ensures RowRound(16776192) == 8192 && SignError(16776192) == 1
    ensures RowRound(0) == 0 && SignError(0) == 0
  {
    RowRoundIsWrapped(16776192);
    RowRoundIsWrapped(0);
    hide RowRound;
  }

  lemma SingleColSums(block: seq<int>)
    requires |block| == 64 && forall i :: 0 <= i < 8 ==> RowSum(block, 0, i) == if i == 1 then 1024 * 16383 else 0
    requires Norm(block) <= MAX_NORM
    ensures ColSum(block, 1, 0) == 8192 * 19266
    ensures ColSum(NegateOddRows(block), 6, 0) == 8192 * 19266 - 19266
  {
    SingleNarrow(block);
    OneDot(Narrow(block, 0), COSINE[1]);
    OneDot(Ties(block, 0), COSINE[6]);
    NegatedColSum(block, 6, 0);
  }

  lemma SingleRounds(sum: int)
    ensures sum == 8192 * 19266 ==> ColRound(sum) == 151
    ensures sum == 8192 * 19266 - 19266 ==> ColRound(sum) == 150
  {
  }

  /** A single coefficient of 1024 in the second row is not mirrored: 150 stands against 151. */
  lemma VerticalMirrorFails()
    ensures var block := Single(8, 1024);
            Norm(block) <= MAX_NORM && Out(block, 1, 0) == 151 && Out(NegateOddRows(block), 6, 0) == 150
  {
    var block := Single(8, 1024);
    assert Norm(block) == 1024 by {
      SingleRows(block);
    }
    assert ColSum(block, 1, 0) == 8192 * 19266
           && ColSum(NegateOddRows(block), 6, 0) == 8192 * 19266 - 19266 by {
      SingleSums(block);
      SingleColSums(block);
    }
    SingleRounds(ColSum(block, 1, 0));
    SingleRounds(ColSum(NegateOddRows(block), 6, 0));
  }

  // ---------- the code ----------

  /** The transform of a block. */
  function Idct(block: seq<int>): (r: seq<int>)
    requires |block| == 64
    ensures |r| == 64 && forall n :: 0 <= n < 64 ==> r[n] == Out(block, n / 8, n % 8)
  {
    seq(64, n requires 0 <= n < 64 => Out(block, n / 8, n % 8))
  }

  lemma IdctAt(block: seq<int>, m: nat, j: nat)
    requires |block| == 64 && m < 8 && j < 8
    ensures Idct(block)[8 * m + j] == Out(block, m, j)
  {
    assert (8 * m + j) / 8 == m && (8 * m + j) % 8 == j;
  }

  /** One inner loop: the wrapped sum of eight products. */
  method DotProduct(a: seq<int>, w: seq<int>) returns (sum: int)
    requires |a| == 8 && |w| == 8
    ensures sum == Wrap32(Dot8(a, w))
  {
    sum := 0;
    for k := 0 to 8
      invariant sum == Wrap32(DotTo(a, w, k))
    {
      WrapStep(DotTo(a, w, k), a[k] * w[k]);
      sum := Wrap32(sum + a[k] * w[k]);
    }
    DotToIsDot8(a, w);
  }

  /** Row pass, narrowing, column pass. */
  method ComputeIdctReference(input: array<int>, out: array<int>)
    requires input.Length == 64 && out.Length == 64 && input != out
    modifies out
    ensures out[..] == Idct(input[..])
  {
    hide Out, Idct, RowSum, Dot8, Wrap32;
    ghost var block := input[..];
    var rowResult := new int[8, 8];
    for j := 0 to 8
      invariant input[..] == block
      invariant forall p, i :: 0 <= p < j && 0 <= i < 8 ==> rowResult[p, i] == RowShifted(block, p, i)
    {
      RowPass(input, rowResult, j);
    }
    var narrow := new int[8, 8];
    for j := 0 to 8
      invariant input[..] == block
      invariant forall p, i :: 0 <= p < 8 && 0 <= i < 8 ==> rowResult[p, i] == RowShifted(block, p, i)
      invariant forall p, i :: 0 <= p < j && 0 <= i < 8 ==> narrow[p, i] == Narrow(block, p)[i]
    {
      for i := 0 to 8
        invariant input[..] == block
        invariant forall p, q :: 0 <= p < 8 && 0 <= q < 8 ==> rowResult[p, q] == RowShifted(block, p, q)
        invariant forall p, q :: 0 <= p < j && 0 <= q < 8 ==> narrow[p, q] == Narrow(block, p)[q]
        invariant forall q :: 0 <= q < i ==> narrow[j, q] == Narrow(block, j)[q]
      {
        narrow[j, i] := Wrap16(rowResult[j, i]);
      }
    }
    for m := 0 to 8
      invariant input[..] == block
      invariant forall p, q :: 0 <= p < 8 && 0 <= q < 8 ==> narrow[p, q] == Narrow(block, p)[q]
      invariant forall n :: 0 <= n < 8 * m ==> out[n] == Idct(block)[n]
    {
      forall j | 0 <= j < 8 ensures Idct(block)[8 * m + j] == Out(block, m, j) {
        IdctAt(block, m, j);
      }
      ColumnPass(block, Idct(block), narrow, out, m);
    }
    assert out[..] == Idct(block);
  }

  function RowShifted(block: seq<int>, j: nat, i: nat): int
    requires |block| == 64 && j < 8 && i < 8
  {
    Wrap32(Wrap32(RowSum(block, j, i)) + ROW_ADD) / ROW_DIVISOR
  }

  method RowPass(input: array<int>, rowResult: array2<int>, j: nat)
    requires input.Length == 64 && rowResult.Length0 == 8 && rowResult.Length1 == 8 && j < 8
    modifies rowResult
    ensures forall i :: 0 <= i < 8 ==> rowResult[j, i] == RowShifted(input[..], j, i)
    ensures forall p, i :: 0 <= p < 8 && 0 <= i < 8 && p != j ==> rowResult[p, i] == old(rowResult[p, i])
  {
    ghost var block := input[..];
    for i := 0 to 8
      invariant input[..] == block
      invariant forall q :: 0 <= q < i ==> rowResult[j, q] == RowShifted(block, j, q)
      invariant forall p, q :: 0 <= p < 8 && 0 <= q < 8 && p != j ==> rowResult[p, q] == old(rowResult[p, q])
    {
      var sum := DotProduct(input[8 * i..8 * i + 8], COSINE[j]);
      assert input[8 * i..8 * i + 8] == Row(block, i);
      rowResult[j, i] := Wrap32(sum + ROW_ADD) / ROW_DIVISOR;
    }
  }

  method ColumnPass(ghost block: seq<int>, ghost expected: seq<int>, narrow: array2<int>, out: array<int>, m: nat)
    requires |block| == 64 && narrow.Length0 == 8 && narrow.Length1 == 8 && out.Length == 64 && m < 8
    requires forall p, q :: 0 <= p < 8 && 0 <= q < 8 ==> narrow[p, q] == Narrow(block, p)[q]
    requires |expected| == 64 && forall j :: 0 <= j < 8 ==> expected[8 * m + j] == Out(block, m, j)
    requires forall n :: 0 <= n < 8 * m ==> out[n] == expected[n]
    modifies out
    ensures forall n :: 0 <= n < 8 * m + 8 ==> out[n] == expected[n]
  {
    hide Out, Narrow, Wrap16;
    for j := 0 to 8
      invariant forall n :: 0 <= n < 8 * m + j ==> out[n] == expected[n]
    {
      var result := ColumnEntry(block, narrow, m, j);
      out[m * 8 + j] := Wrap16(result);
    }
  }

  method ColumnEntry(ghost block: seq<int>, narrow: array2<int>, m: nat, j: nat) returns (result: int)
    requires |block| == 64 && narrow.Length0 == 8 && narrow.Length1 == 8 && m < 8 && j < 8
    requires forall p, q :: 0 <= p < 8 && 0 <= q < 8 ==> narrow[p, q] == Narrow(block, p)[q]
    ensures Wrap16(result) == Out(block, m, j)
  {
    var column := [narrow[j, 0], narrow[j, 1], narrow[j, 2], narrow[j, 3],
                   narrow[j, 4], narrow[j, 5], narrow[j, 6], narrow[j, 7]];
    assert column == Narrow(block, j);
    var sum := DotProduct(column, COSINE[m]);
    result := Wrap32(sum + COL_ADD) / COL_DIVISOR;
  }
}
