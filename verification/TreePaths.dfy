/** Heap numbering of the ORAM trees: buckets are 1 .. 2N-1, the bucket of leaf label l is l + N,
    and the parent of bucket n is n >> 1. */
module TreePaths {

  /** 2 to the power e: the number of leaves of a tree of depth e. */
  function Pow2(e: nat): (r: nat)
    ensures r >= 1
  {
    if e == 0 then 1 else 2 * Pow2(e - 1)
  }

  /** n >> w, the bucket reached from n after w steps towards the root. */
  function ShiftBy(n: nat, w: nat): (r: nat)
    ensures r <= n
  {
    if w == 0 then n else ShiftBy(n, w - 1) / 2
  }

  lemma ShiftByUp(n: nat, w: nat)
    ensures ShiftBy(n, 0) == n && ShiftBy(n, w + 1) == ShiftBy(n, w) / 2
  {
  }

  /** The loops move one step at a time with `temp = temp >> 1`. */
  lemma {:induction false} ShiftByStep(n: nat, w: nat)
    ensures ShiftBy(n / 2, w) == ShiftBy(n, w + 1)
  {
    if w > 0 {
      ShiftByStep(n, w - 1);
    }
  }

  lemma {:induction false} ShiftByAdd(n: nat, a: nat, b: nat)
    ensures ShiftBy(ShiftBy(n, a), b) == ShiftBy(n, a + b)
  {
    if b > 0 {
      ShiftByAdd(n, a, b - 1);
    }
  }

  /** The bucket w steps above a leaf of a tree of depth d lies in layer d - w. */
  lemma {:induction false} ShiftByRange(n: nat, d: nat, w: nat)
    requires Pow2(d) <= n < 2 * Pow2(d)
    requires w <= d
    ensures Pow2(d - w) <= ShiftBy(n, w) < 2 * Pow2(d - w)
  {
    if w > 0 {
      ShiftByRange(n, d, w - 1);
    }
  }

  lemma {:induction false} Pow2Monotone(a: nat, b: nat)
    requires a <= b
    ensures Pow2(a) <= Pow2(b)
    ensures a < b ==> 2 * Pow2(a) <= Pow2(b)
  {
    if a < b {
      Pow2Monotone(a, b - 1);
    }
  }

  /** Two buckets of a root path in different layers differ. */
  lemma ShiftByInjective(n: nat, d: nat, i: nat, j: nat)
    requires Pow2(d) <= n < 2 * Pow2(d)
    requires i < j <= d
    ensures ShiftBy(n, j) < ShiftBy(n, i)
  {
    ShiftByRange(n, d, i);
    ShiftByRange(n, d, j);
    Pow2Monotone(d - j, d - i);
  }

  /** Paths that meet stay together up to the root. */
  lemma ShiftByMeet(a: nat, b: nat, i: nat, j: nat)
    requires i <= j && ShiftBy(a, i) == ShiftBy(b, i)
    ensures ShiftBy(a, j) == ShiftBy(b, j)
  {
    ShiftByAdd(a, i, j - i);
    ShiftByAdd(b, i, j - i);
  }
}
