/** Cyclic segments of a fixed-size buffer: the entries from a read index up to a write index,
    wrapping at the end. The GPU ring, the CORB and the RIRB are all read and written this way. */
module Cyclic {

  /** The index after i in a buffer of n entries. */
  function Next(n: nat, i: nat): (r: nat)
    requires i < n
    ensures r < n
  {
    if i + 1 == n then 0 else i + 1
  }

  /** It is the sources' (i + 1) % n, and for a power of two their (i + 1) & (n - 1). */
  lemma NextIsModulo(n: nat, i: nat)
    requires i < n
    ensures Next(n, i) == (i + 1) % n
  {
    if i + 1 < n {
      assert (i + 1) / n == 0;
    }
  }

  /** The entries from lo up to, not including, hi; none when lo == hi. */
  function Seg<T>(a: seq<T>, lo: nat, hi: nat): (r: seq<T>)
    requires lo < |a| && hi < |a|
    ensures |r| == if lo <= hi then hi - lo else |a| - lo + hi
  {
    if lo <= hi then a[lo..hi] else a[lo..] + a[..hi]
  }

  /** Reading one entry takes the first element of the segment. */
  lemma SegPop<T>(a: seq<T>, lo: nat, hi: nat)
    requires lo < |a| && hi < |a| && lo != hi
    ensures Seg(a, lo, hi) == [a[lo]] + Seg(a, Next(|a|, lo), hi)
  {
    if hi == 0 && lo + 1 == |a| {
      assert a[lo..] == [a[lo]];
    }
  }

  /** Writing one entry at hi appends it, provided hi does not run into lo. */
  lemma SegPush<T>(a: seq<T>, lo: nat, hi: nat, v: T)
    requires lo < |a| && hi < |a| && Next(|a|, hi) != lo
    ensures Seg(a[hi := v], lo, Next(|a|, hi)) == Seg(a, lo, hi) + [v]
  {
    var b := a[hi := v];
    if lo <= hi {
      if hi + 1 == |a| {
        assert b[lo..] == a[lo..hi] + [v];
      } else {
        assert b[lo..hi + 1] == a[lo..hi] + [v];
      }
    } else {
      assert b[lo..] == a[lo..];
      assert b[..hi + 1] == a[..hi] + [v];
    }
  }

  /** Writing outside a segment leaves it as it was. */
  lemma SegFrame<T>(a: seq<T>, lo: nat, hi: nat, at: nat, v: T)
    requires lo < |a| && hi < |a| && at < |a|
    requires if lo <= hi then at < lo || hi <= at else hi <= at < lo
    ensures Seg(a[at := v], lo, hi) == Seg(a, lo, hi)
  {
    assert |a[at := v]| == |a|;
  }

  lemma TakeSnoc<T>(s: seq<T>, i: nat)
    requires i < |s|
    ensures s[..i] + [s[i]] == s[..i + 1]
  {
  }

  lemma ConsInjective<T>(x: T, a: seq<T>, b: seq<T>)
    requires [x] + a == [x] + b
    ensures a == b
  {
    assert a == ([x] + a)[1..] && b == ([x] + b)[1..];
  }

  lemma ConsAppend<T>(x: T, a: seq<T>, b: seq<T>)
    ensures ([x] + a) + b == [x] + (a + b)
  {
  }
}
