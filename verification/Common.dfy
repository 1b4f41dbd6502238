/** Types and arithmetic shared by all parts. */
module Common {

  type U32 = x: int | 0 <= x < 0x1_0000_0000

  datatype Option<+T> = None | Some(value: T)

  /** A value as the source's int32 holds it. */
  function Wrap32(x: int): (r: int)
    ensures -0x8000_0000 <= x < 0x8000_0000 ==> r == x
  {
    (x + 0x8000_0000) % 0x1_0000_0000 - 0x8000_0000
  }

  lemma MulMonotone(a: nat, b: nat, c: nat)
    requires a <= b
    ensures a * c <= b * c
  {
  }

  lemma MulGap(a: nat, b: nat, c: nat)
    requires a < b
    ensures a * c + c <= b * c
  {
    MulMonotone(a + 1, b, c);
    assert (a + 1) * c == a * c + c;
  }

  lemma DivModOf(x: nat, d: nat)
    requires 0 < d
    ensures x == x / d * d + x % d && 0 <= x % d < d && 0 <= x / d
  {
  }

  /** Quotient and remainder are unique. */
  lemma DivModUnique(x: nat, d: nat, q: nat, r: nat)
    requires r < d && x == q * d + r
    ensures x / d == q && x % d == r
  {
    DivModOf(x, d);
    if x / d < q {
      MulGap(x / d, q, d);
    } else if x / d > q {
      MulGap(q, x / d, d);
    }
  }
}
