/** Blocks, buckets and ways of counting the blocks they hold.
    A block is a dummy when its id field holds the reserved number gN. */
module Blocks {

  /** Ids and labels are kept in 32 bits, loop counters over the slots or words of a block in eight. */
  const UINT32: nat := 0x1_0000_0000
  const UINT8: nat := 0x100

  /** A serialized block without its nonce: id at byte 16, tree label at byte 20, data from byte 24.
      The data is a sequence of words: child labels in a recursion level, payload in the data level. */
  datatype Block = Block(id: nat, treeLabel: nat, data: seq<nat>)

  type Bucket = seq<Block>

  predicate IsBlockDummy(b: Block, gN: nat) {
    b.id == gN
  }

  /** The number of positions of s whose block satisfies P. */
  function CountIf(s: seq<Block>, P: Block -> bool): nat {
    if s == [] then 0 else (if P(s[0]) then 1 else 0) + CountIf(s[1..], P)
  }

  /** The same, summed over a sequence of buckets. */
  function CountBuckets(buckets: seq<Bucket>, P: Block -> bool): nat {
    if buckets == [] then 0 else CountIf(buckets[0], P) + CountBuckets(buckets[1..], P)
  }

  function IsReal(gN: nat): Block -> bool {
    (b: Block) => b.id != gN
  }

  function Is(c: Block): Block -> bool {
    (b: Block) => b == c
  }

  /** The number of real blocks of s. */
  function CountReal(s: seq<Block>, gN: nat): nat {
    CountIf(s, IsReal(gN))
  }

  /** P never holds of a dummy, whatever the dummy's stale label and data are. */
  ghost predicate RealOnly(P: Block -> bool, gN: nat) {
    forall b: Block :: P(b) ==> b.id != gN
  }

  lemma {:induction false} CountIfUpdate(s: seq<Block>, k: nat, v: Block, P: Block -> bool)
    requires k < |s|
    ensures CountIf(s[k := v], P) + (if P(s[k]) then 1 else 0) == CountIf(s, P) + (if P(v) then 1 else 0)
  {
    if k == 0 {
      assert s[k := v][1..] == s[1..];
    } else {
      CountIfUpdate(s[1..], k - 1, v, P);
      assert s[k := v][1..] == s[1..][k - 1 := v];
    }
  }

  lemma {:induction false} CountIfConcat(a: seq<Block>, b: seq<Block>, P: Block -> bool)
    ensures CountIf(a + b, P) == CountIf(a, P) + CountIf(b, P)
  {
    if a == [] {
      assert a + b == b;
    } else {
      CountIfConcat(a[1..], b, P);
      assert (a + b)[1..] == a[1..] + b;
    }
  }

  lemma {:induction false} CountIfBound(s: seq<Block>, P: Block -> bool)
    ensures CountIf(s, P) <= |s|
    ensures (forall k :: 0 <= k < |s| ==> P(s[k])) <==> CountIf(s, P) == |s|
    ensures (forall k :: 0 <= k < |s| ==> !P(s[k])) <==> CountIf(s, P) == 0
  {
    if s != [] {
      CountIfBound(s[1..], P);
      assert forall k :: 0 < k < |s| ==> s[k] == s[1..][k - 1];
      assert forall k :: 0 <= k < |s[1..]| ==> s[1..][k] == s[k + 1];
    }
  }

  /** A count of one pins down the position. */
  lemma {:induction false} CountIfOne(s: seq<Block>, P: Block -> bool, i: nat, j: nat)
    requires CountIf(s, P) <= 1
    requires i < |s| && j < |s| && P(s[i]) && P(s[j])
    ensures i == j
  {
    CountIfBound(s[1..], P);
    assert forall k :: 0 < k < |s| ==> s[k] == s[1..][k - 1];
    if i > 0 && j > 0 {
      CountIfOne(s[1..], P, i - 1, j - 1);
    }
  }

  lemma {:induction false} CountBucketsUpdate(buckets: seq<Bucket>, n: nat, b: Bucket, P: Block -> bool)
    requires n < |buckets|
    ensures CountBuckets(buckets[n := b], P) + CountIf(buckets[n], P) == CountBuckets(buckets, P) + CountIf(b, P)
  {
    if n == 0 {
      assert buckets[n := b][1..] == buckets[1..];
    } else {
      CountBucketsUpdate(buckets[1..], n - 1, b, P);
      assert buckets[n := b][1..] == buckets[1..][n - 1 := b];
    }
  }

  lemma {:induction false} CountBucketsZero(buckets: seq<Bucket>, P: Block -> bool)
    ensures CountBuckets(buckets, P) == 0 <==>
            forall n, q :: 0 <= n < |buckets| && 0 <= q < |buckets[n]| ==> !P(buckets[n][q])
  {
    if buckets != [] {
      CountBucketsZero(buckets[1..], P);
      CountIfBound(buckets[0], P);
      assert forall n :: 0 < n < |buckets| ==> buckets[n] == buckets[1..][n - 1];
      assert forall n :: 0 <= n < |buckets[1..]| ==> buckets[1..][n] == buckets[n + 1];
    }
  }
}
