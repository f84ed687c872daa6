/** PathORAM_RebuildPath is greedy from the leaf upwards.  A block stays in the stash only when every bucket it
    could go to is full, and no legal placement of the same blocks leaves fewer of them behind. */
module Greedy {
  import opened TreePaths
  import opened Blocks
  import opened PathLevel

  /** The block may sit i steps above the leaf bucket `node`. */
  predicate EligibleAt(b: Block, node: nat, i: nat, shape: Shape) {
    Eligible(b, ShiftBy(node, i), i, shape)
  }

  predicate Full(bucket: Bucket, gN: nat) {
    forall q :: 0 <= q < |bucket| ==> !IsBlockDummy(bucket[q], gN)
  }

  /** Nodes of the stash only change by being emptied. */
  ghost predicate Drained(st: seq<Block>, st': seq<Block>, gN: nat) {
    |st'| == |st| && forall k :: 0 <= k < |st| ==> st'[k] == st[k] || st'[k] == st[k].(id := gN)
  }

  lemma {:induction false} FillBucketDrains(st: seq<Block>, bucket: Bucket, posk: nat, k: nat, prefix: nat, i: nat,
                                            shape: Shape)
    requires k <= |st| && posk <= shape.Z == |bucket|
    ensures var r := FillBucket(st, bucket, posk, k, prefix, i, shape);
      && Drained(st, r.stash, shape.gN) && r.stash[..k] == st[..k]
      && (r.posk < shape.Z ==> forall j :: k <= j < |st| ==> !Eligible(r.stash[j], prefix, i, shape))
    decreases |st| - k
  {
    if k < |st| {
      if posk < shape.Z && Eligible(st[k], prefix, i, shape) {
        var st1 := st[k := st[k].(id := shape.gN)];
        FillBucketDrains(st1, bucket[posk := st[k]], posk + 1, k + 1, prefix, i, shape);
        var r := FillBucket(st1, bucket[posk := st[k]], posk + 1, k + 1, prefix, i, shape);
        assert r.stash[..k] == r.stash[..k + 1][..k] == st1[..k + 1][..k];
        assert r.stash[k] == r.stash[..k + 1][k] == st1[k];
      } else {
        FillBucketDrains(st, bucket, posk, k + 1, prefix, i, shape);
        var r := FillBucket(st, bucket, posk, k + 1, prefix, i, shape);
        assert r.stash[..k] == r.stash[..k + 1][..k] == st[..k + 1][..k];
        assert r.stash[k] == r.stash[..k + 1][k] == st[k];
      }
    }
  }

  /** A bucket refilled from dummies is either full or has taken every eligible block. */
  lemma FillBucketGreedy(st: seq<Block>, bucket: Bucket, node: nat, i: nat, shape: Shape)
    requires shape.Z == |bucket| && AllDummy(bucket, shape.gN)
    ensures var r := FillBucket(st, bucket, 0, 0, ShiftBy(node, i), i, shape);
      && Drained(st, r.stash, shape.gN)
      && (forall q :: 0 <= q < |r.bucket| && !IsBlockDummy(r.bucket[q], shape.gN) ==> EligibleAt(r.bucket[q], node, i, shape))
      && (Full(r.bucket, shape.gN) || forall j :: 0 <= j < |st| ==> !EligibleAt(r.stash[j], node, i, shape))
  {
    FillBucketDrains(st, bucket, 0, 0, ShiftBy(node, i), i, shape);
    FillBucketPlaces(st, bucket, 0, 0, ShiftBy(node, i), i, shape);
  }

  /** Buckets below i are left alone, and the stash is only drained. */
  lemma {:induction false} RebuiltDrains(st: seq<Block>, path: seq<Bucket>, node: nat, i: nat, shape: Shape)
    requires i <= |path| && BucketsSized(path, shape.Z)
    ensures var r := RebuiltPath(st, path, node, i, shape);
      Drained(st, r.0, shape.gN) && forall j :: 0 <= j < i ==> r.1[j] == path[j]
    decreases |path| - i
  {
    if i < |path| {
      var f := FillBucket(st, path[i], 0, 0, ShiftBy(node, i), i, shape);
      FillBucketDrains(st, path[i], 0, 0, ShiftBy(node, i), i, shape);
      RebuiltDrains(f.stash, path[i := f.bucket], node, i + 1, shape);
    }
  }

  /** Whatever the stash keeps finds all its buckets full. */
  lemma {:induction false} KeptFindsFull(st: seq<Block>, path: seq<Bucket>, node: nat, i: nat, shape: Shape, k: nat,
                                         j: nat)
    requires i <= j < |path| && BucketsSized(path, shape.Z) && DummyFrom(path, i, shape.gN) && k < |st|
    ensures var r := RebuiltPath(st, path, node, i, shape);
      EligibleAt(r.0[k], node, j, shape) ==> Full(r.1[j], shape.gN)
    decreases |path| - i
  {
    var f := FillBucket(st, path[i], 0, 0, ShiftBy(node, i), i, shape);
    var path1 := path[i := f.bucket];
    assert AllDummy(path[i], shape.gN);
    FillBucketGreedy(st, path[i], node, i, shape);
    if i < j {
      KeptFindsFull(f.stash, path1, node, i + 1, shape, k, j);
    } else {
      RebuiltDrains(f.stash, path1, node, i + 1, shape);
    }
  }

  /** What is placed above bucket t, when t is not full, could not have gone into t. */
  lemma {:induction false} PlacedAboveNotBelow(st: seq<Block>, path: seq<Bucket>, node: nat, i: nat, shape: Shape,
                                               t: nat, j: nat, q: nat)
    requires i <= j < |path| && BucketsSized(path, shape.Z) && DummyFrom(path, i, shape.gN) && q < shape.Z && t < j
    requires t < i ==> forall k :: 0 <= k < |st| ==> !EligibleAt(st[k], node, t, shape)
    ensures var r := RebuiltPath(st, path, node, i, shape);
      (i <= t && Full(r.1[t], shape.gN)) || !EligibleAt(r.1[j][q], node, t, shape)
    decreases |path| - i
  {
    var f := FillBucket(st, path[i], 0, 0, ShiftBy(node, i), i, shape);
    var path1 := path[i := f.bucket];
    assert AllDummy(path[i], shape.gN);
    FillBucketGreedy(st, path[i], node, i, shape);
    RebuiltDrains(f.stash, path1, node, i + 1, shape);
    if i == j {
      assert t < i;
      FillBucketFromStash(st, path[i], 0, 0, ShiftBy(node, i), i, shape, q);
    } else if i != t || !Full(f.bucket, shape.gN) {
      PlacedAboveNotBelow(f.stash, path1, node, i + 1, shape, t, j, q);
    }
  }

  /** Every block of a refilled bucket was there before or comes from the stash. */
  lemma {:induction false} FillBucketFromStash(st: seq<Block>, bucket: Bucket, posk: nat, k: nat, prefix: nat,
                                               i: nat, shape: Shape, q: nat)
    requires k <= |st| && posk <= shape.Z == |bucket| && q < |bucket|
    ensures var r := FillBucket(st, bucket, posk, k, prefix, i, shape);
      r.bucket[q] == bucket[q] || exists j :: k <= j < |st| && r.bucket[q] == st[j]
    decreases |st| - k
  {
    if k < |st| {
      if posk < shape.Z && Eligible(st[k], prefix, i, shape) {
        FillBucketFromStash(st[k := st[k].(id := shape.gN)], bucket[posk := st[k]], posk + 1, k + 1, prefix, i,
                            shape, q);
      } else {
        FillBucketFromStash(st, bucket, posk, k + 1, prefix, i, shape, q);
      }
    }
  }

  // ----- Placements -----

  function CountAt(place: seq<int>, i: int): nat {
    if place == [] then 0 else (if place[0] == i then 1 else 0) + CountAt(place[1..], i)
  }

  function CountFrom(place: seq<int>, i: int): nat {
    if place == [] then 0 else (if place[0] >= i then 1 else 0) + CountFrom(place[1..], i)
  }

  /** place[k] is the height of the bucket that block k of the stash goes to, or -1 when it stays. */
  ghost predicate LegalPlacement(st: seq<Block>, place: seq<int>, node: nat, shape: Shape) {
    && |place| == |st|
    && (forall k :: 0 <= k < |st| ==> place[k] == -1 || (0 <= place[k] <= shape.D && EligibleAt(st[k], node, place[k], shape)))
    && (forall i :: 0 <= i <= shape.D ==> CountAt(place, i) <= shape.Z)
  }

  /** The number of real blocks a placement leaves in the stash. */
  function LeftBehind(st: seq<Block>, place: seq<int>, gN: nat): nat
    requires |place| == |st|
  {
    if st == [] then 0
    else (if place[0] == -1 && !IsBlockDummy(st[0], gN) then 1 else 0) + LeftBehind(st[1..], place[1..], gN)
  }

  lemma {:induction false} CountFromStep(place: seq<int>, i: int)
    ensures CountFrom(place, i) == CountAt(place, i) + CountFrom(place, i + 1)
  {
    if place != [] {
      CountFromStep(place[1..], i);
    }
  }

  lemma {:induction false} CountFromNone(place: seq<int>, i: int)
    requires forall k :: 0 <= k < |place| ==> place[k] < i
    ensures CountFrom(place, i) == 0
  {
    if place != [] {
      CountFromNone(place[1..], i);
    }
  }

  /** The buckets from height t to the root take at most Z blocks each. */
  lemma {:induction false} CountFromBound(place: seq<int>, t: nat, D: nat, Z: nat)
    requires t <= D + 1
    requires forall k :: 0 <= k < |place| ==> place[k] <= D
    requires forall i :: 0 <= i <= D ==> CountAt(place, i) <= Z
    ensures CountFrom(place, t) <= Z * (D + 1 - t)
    decreases D + 1 - t
  {
    if t == D + 1 {
      CountFromNone(place, t);
    } else {
      CountFromStep(place, t);
      CountFromBound(place, t + 1, D, Z);
      assert Z * (D + 1 - t) == Z + Z * (D - t);
    }
  }

  /** Real blocks that cannot go below height t. */
  ghost function Stuck(node: nat, t: nat, shape: Shape): (P: Block -> bool)
    ensures RealOnly(P, shape.gN)
  {
    (b: Block) => b.id != shape.gN && (t == 0 || !EligibleAt(b, node, t - 1, shape))
  }

  lemma EligibleUp(b: Block, node: nat, i: nat, j: nat, shape: Shape)
    requires i <= j && EligibleAt(b, node, i, shape)
    ensures EligibleAt(b, node, j, shape)
  {
    ShiftByMeet(b.treeLabel + shape.N, node, i, j);
  }

  /** A legal placement keeps a stuck block or puts it at height t or above. */
  lemma {:induction false} StuckBound(st: seq<Block>, place: seq<int>, node: nat, t: nat, shape: Shape)
    requires |place| == |st|
    requires forall k :: 0 <= k < |st| ==> place[k] == -1 || (0 <= place[k] <= shape.D && EligibleAt(st[k], node, place[k], shape))
    ensures CountIf(st, Stuck(node, t, shape)) <= LeftBehind(st, place, shape.gN) + CountFrom(place, t)
  {
    if st != [] {
      StuckBound(st[1..], place[1..], node, t, shape);
      if 0 <= place[0] < t {
        EligibleUp(st[0], node, place[0], t - 1, shape);
      }
    }
  }

  // ----- Optimality -----

  /** The lowest height from which on all buckets are full. */
  function FullFrom(path: seq<Bucket>, gN: nat): (t: nat)
    ensures t <= |path|
    ensures forall j :: t <= j < |path| ==> Full(path[j], gN)
    ensures t > 0 ==> !Full(path[t - 1], gN)
  {
    if path == [] then 0
    else if Full(path[|path| - 1], gN) then FullFrom(path[..|path| - 1], gN)
    else |path|
  }

  lemma {:induction false} CountBucketsSplit(path: seq<Bucket>, t: nat, Z: nat, P: Block -> bool)
    requires BucketsSized(path, Z) && t <= |path|
    requires forall j, q :: 0 <= j < |path| && 0 <= q < Z ==> (P(path[j][q]) <==> j >= t)
    ensures CountBuckets(path, P) == Z * (|path| - t)
  {
    if path != [] {
      var rest := path[1..];
      CountIfBound(path[0], P);
      assert forall j, q :: 0 <= j < |rest| && 0 <= q < Z ==> rest[j][q] == path[j + 1][q];
      if t == 0 {
        CountBucketsSplit(rest, 0, Z, P);
        assert Z * |path| == Z + Z * |rest|;
      } else {
        CountBucketsSplit(rest, t - 1, Z, P);
      }
    }
  }

  /** With t = FullFrom of the result, the greedy result keeps blocks that cannot go below t only. */
  lemma GreedyKeepsStuck(st: seq<Block>, path: seq<Bucket>, node: nat, shape: Shape, k: nat)
    requires BucketsSized(path, shape.Z) && DummyFrom(path, 0, shape.gN) && k < |st|
    ensures var r := RebuiltPath(st, path, node, 0, shape);
      !IsBlockDummy(r.0[k], shape.gN) ==> Stuck(node, FullFrom(r.1, shape.gN), shape)(r.0[k])
  {
    hide RebuiltPath, EligibleAt, Full;
    var r := RebuiltPath(st, path, node, 0, shape);
    var t := FullFrom(r.1, shape.gN);
    if t > 0 {
      KeptFindsFull(st, path, node, 0, shape, k, t - 1);
    }
  }

  /** From t on, it has filled every slot with a block that cannot go below t; below t it has placed none of those. */
  lemma GreedyFillsStuck(st: seq<Block>, path: seq<Bucket>, node: nat, shape: Shape, j: nat, q: nat)
    requires BucketsSized(path, shape.Z) && DummyFrom(path, 0, shape.gN) && PathLegal(path, node, shape)
    requires j < |path| && q < shape.Z
    ensures var r := RebuiltPath(st, path, node, 0, shape);
      var t := FullFrom(r.1, shape.gN);
      Stuck(node, t, shape)(r.1[j][q]) <==> j >= t
  {
    hide RebuiltPath;
    var r := RebuiltPath(st, path, node, 0, shape);
    RebuiltPathLegal(st, path, node, 0, shape);
    assert !IsBlockDummy(r.1[j][q], shape.gN) ==> EligibleAt(r.1[j][q], node, j, shape);
    var t := FullFrom(r.1, shape.gN);
    if j >= t {
      assert Full(r.1[j], shape.gN);
      if t > 0 {
        PlacedAboveNotBelow(st, path, node, 0, shape, t - 1, j, q);
      }
    } else if !IsBlockDummy(r.1[j][q], shape.gN) {
      EligibleUp(r.1[j][q], node, j, t - 1, shape);
    }
  }

  /** No legal placement of the stash's blocks on the emptied path leaves fewer blocks in the stash. */
  lemma GreedyOptimal(st: seq<Block>, path: seq<Bucket>, node: nat, shape: Shape, place: seq<int>)
    requires |path| == shape.D + 1 && BucketsSized(path, shape.Z) && DummyFrom(path, 0, shape.gN)
    requires PathLegal(path, node, shape)
    requires LegalPlacement(st, place, node, shape)
    ensures CountReal(RebuiltPath(st, path, node, 0, shape).0, shape.gN) <= LeftBehind(st, place, shape.gN)
  {
    hide RebuiltPath, FullFrom, Stuck;
    var r := RebuiltPath(st, path, node, 0, shape);
    var t := FullFrom(r.1, shape.gN);
    var P := Stuck(node, t, shape);
    forall k | 0 <= k < |st| {
      GreedyKeepsStuck(st, path, node, shape, k);
    }
    forall j, q | 0 <= j < |path| && 0 <= q < shape.Z
      ensures P(r.1[j][q]) <==> j >= t
    {
      GreedyFillsStuck(st, path, node, shape, j, q);
    }
    RebuiltPathConserves(st, path, node, 0, shape, P);
    CountBucketsZero(path, P);
    CountBucketsSplit(r.1, t, shape.Z, P);
    CountIfAgree(r.0, P, IsReal(shape.gN));
    StuckBound(st, place, node, t, shape);
    CountFromBound(place, t, shape.D, shape.Z);
  }

  lemma {:induction false} CountIfAgree(s: seq<Block>, P: Block -> bool, Q: Block -> bool)
    requires forall k :: 0 <= k < |s| ==> P(s[k]) == Q(s[k])
    ensures CountIf(s, P) == CountIf(s, Q)
  {
    if s != [] {
      CountIfAgree(s[1..], P, Q);
    }
  }
}
