/** One level of Path ORAM as values: what fetching a path into the stash, refilling the path from the
    stash and writing it back compute.  A path is a sequence of buckets, leaf first. */
module PathLevel {
  import opened TreePaths
  import opened Blocks
  import opened Stash
  import opened LocalStorage

  /** The constants of one level: N leaves, depth D, Z slots a bucket, dummy id gN. */
  datatype Shape = Shape(N: nat, D: nat, Z: nat, gN: nat) {
    predicate Valid() {
      N == Pow2(D)
    }

    predicate IsLeafBucket(node: nat) {
      N <= node < 2 * N
    }
  }

  datatype Level = Level(stash: seq<Block>, discard: seq<bool>, tree: seq<Bucket>)

  /** Inserting the blocks of one bucket into the stash, slot by slot. */
  function PushedBucket(st: seq<Block>, bucket: Bucket, gN: nat): (r: seq<Block>)
    ensures |r| == |st|
    decreases |bucket|
  {
    if bucket == [] then st else PushedBucket(Inserted(st, bucket[0], gN), bucket[1..], gN)
  }

  /** ORAMTree::PushBlocksFromPathIntoStash, leaf bucket first. */
  function PushedPath(st: seq<Block>, path: seq<Bucket>, gN: nat): (r: seq<Block>)
    ensures |r| == |st|
    decreases |path|
  {
    if path == [] then st else PushedPath(PushedBucket(st, path[0], gN), path[1..], gN)
  }

  /** Every slot pushed into the stash has its id set to gN. */
  function EmptiedBucket(bucket: Bucket, gN: nat): (r: Bucket)
    ensures |r| == |bucket|
  {
    seq(|bucket|, q requires 0 <= q < |bucket| => bucket[q].(id := gN))
  }

  function EmptiedPath(path: seq<Bucket>, gN: nat): (r: seq<Bucket>)
    ensures |r| == |path|
  {
    seq(|path|, i requires 0 <= i < |path| => EmptiedBucket(path[i], gN))
  }

  /** The block may sit i steps above its leaf in the bucket numbered prefix. */
  predicate Eligible(b: Block, prefix: nat, i: nat, shape: Shape) {
    b.id != shape.gN && ShiftBy(b.treeLabel + shape.N, i) == prefix
  }

  datatype Filled = Filled(stash: seq<Block>, bucket: Bucket, posk: nat)

  /** The stash scan that refills one bucket, from node k on with posk slots already used. */
  function FillBucket(st: seq<Block>, bucket: Bucket, posk: nat, k: nat, prefix: nat, i: nat, shape: Shape): (r: Filled)
    requires k <= |st| && posk <= shape.Z == |bucket|
    ensures |r.stash| == |st| && |r.bucket| == |bucket| && posk <= r.posk <= shape.Z
    decreases |st| - k
  {
    if k == |st| then Filled(st, bucket, posk)
    else if posk < shape.Z && Eligible(st[k], prefix, i, shape) then
      FillBucket(st[k := st[k].(id := shape.gN)], bucket[posk := st[k]], posk + 1, k + 1, prefix, i, shape)
    else
      FillBucket(st, bucket, posk, k + 1, prefix, i, shape)
  }

  ghost predicate BucketsSized(path: seq<Bucket>, Z: nat) {
    forall i :: 0 <= i < |path| ==> |path[i]| == Z
  }

  /** PathORAM_RebuildPath from the bucket i steps above the leaf up to the root. */
  function RebuiltPath(st: seq<Block>, path: seq<Bucket>, node: nat, i: nat,
                       shape: Shape): (r: (seq<Block>, seq<Bucket>))
    requires i <= |path| && BucketsSized(path, shape.Z)
    ensures |r.0| == |st| && |r.1| == |path| && BucketsSized(r.1, shape.Z)
    decreases |path| - i
  {
    if i == |path| then (st, path)
    else
      var f := FillBucket(st, path[i], 0, 0, ShiftBy(node, i), i, shape);
      RebuiltPath(f.stash, path[i := f.bucket], node, i + 1, shape)
  }

  // ----- What the path operations conserve -----

  /** With room for them, all real blocks of the bucket enter the stash. */
  lemma {:induction false} PushedBucketReal(st: seq<Block>, bucket: Bucket, gN: nat, P: Block -> bool)
    requires CountReal(st, gN) + CountReal(bucket, gN) <= |st| && RealOnly(P, gN)
    ensures CountIf(PushedBucket(st, bucket, gN), P) == CountIf(st, P) + CountIf(bucket, P)
    decreases |bucket|
  {
    if bucket != [] {
      var b := bucket[0];
      assert bucket == [b] + bucket[1..];
      CountIfConcat([b], bucket[1..], P);
      CountIfConcat([b], bucket[1..], IsReal(gN));
      InsertedReal(st, b, gN, P);
      InsertedReal(st, b, gN, IsReal(gN));
      PushedBucketReal(Inserted(st, b, gN), bucket[1..], gN, P);
    }
  }

  /** With room for them, all real blocks of the path enter the stash. */
  lemma {:induction false} PushedPathReal(st: seq<Block>, path: seq<Bucket>, gN: nat, P: Block -> bool)
    requires CountReal(st, gN) + CountBuckets(path, IsReal(gN)) <= |st| && RealOnly(P, gN)
    ensures CountIf(PushedPath(st, path, gN), P) == CountIf(st, P) + CountBuckets(path, P)
    decreases |path|
  {
    if path != [] {
      PushedBucketReal(st, path[0], gN, P);
      PushedBucketReal(st, path[0], gN, IsReal(gN));
      PushedPathReal(PushedBucket(st, path[0], gN), path[1..], gN, P);
    }
  }

  lemma EmptiedPathHasNoReal(path: seq<Bucket>, gN: nat, P: Block -> bool)
    requires RealOnly(P, gN)
    ensures CountBuckets(EmptiedPath(path, gN), P) == 0
  {
    CountBucketsZero(EmptiedPath(path, gN), P);
  }

  /** Refilling a bucket conserves the real blocks of stash and bucket. */
  lemma {:induction false} FillBucketConserves(st: seq<Block>, bucket: Bucket, posk: nat, k: nat, prefix: nat,
                                               i: nat, shape: Shape,
                                               P: Block -> bool)
    requires k <= |st| && posk <= shape.Z == |bucket|
    requires forall q :: posk <= q < shape.Z ==> IsBlockDummy(bucket[q], shape.gN)
    requires RealOnly(P, shape.gN)
    ensures var r := FillBucket(st, bucket, posk, k, prefix, i, shape);
      CountIf(r.stash, P) + CountIf(r.bucket, P) == CountIf(st, P) + CountIf(bucket, P)
    decreases |st| - k
  {
    if k < |st| {
      if posk < shape.Z && Eligible(st[k], prefix, i, shape) {
        CountIfUpdate(st, k, st[k].(id := shape.gN), P);
        CountIfUpdate(bucket, posk, st[k], P);
        FillBucketConserves(st[k := st[k].(id := shape.gN)], bucket[posk := st[k]], posk + 1, k + 1, prefix, i,
                            shape, P);
      } else {
        FillBucketConserves(st, bucket, posk, k + 1, prefix, i, shape, P);
      }
    }
  }

  /** Refilling a bucket uses its free slots in order, for eligible blocks only. */
  lemma {:induction false} FillBucketPlaces(st: seq<Block>, bucket: Bucket, posk: nat, k: nat, prefix: nat, i: nat,
                                            shape: Shape)
    requires k <= |st| && posk <= shape.Z == |bucket|
    ensures var r := FillBucket(st, bucket, posk, k, prefix, i, shape);
      && r.bucket[..posk] == bucket[..posk]
      && (forall q :: posk <= q < r.posk ==> Eligible(r.bucket[q], prefix, i, shape))
      && (forall q :: r.posk <= q < shape.Z ==> r.bucket[q] == bucket[q])
    decreases |st| - k
  {
    if k < |st| {
      if posk < shape.Z && Eligible(st[k], prefix, i, shape) {
        var st1 := st[k := st[k].(id := shape.gN)];
        var bucket1 := bucket[posk := st[k]];
        FillBucketPlaces(st1, bucket1, posk + 1, k + 1, prefix, i, shape);
        var r := FillBucket(st1, bucket1, posk + 1, k + 1, prefix, i, shape);
        assert r.bucket[posk] == r.bucket[..posk + 1][posk] == bucket1[..posk + 1][posk];
        assert r.bucket[..posk] == r.bucket[..posk + 1][..posk] == bucket1[..posk + 1][..posk];
      } else {
        FillBucketPlaces(st, bucket, posk, k + 1, prefix, i, shape);
        assert FillBucket(st, bucket, posk, k, prefix, i, shape) == FillBucket(st, bucket, posk, k + 1, prefix, i, shape);
      }
    }
  }

  /** Every real block of the path sits where its own root path meets the path to bucket node. */
  ghost predicate PathLegal(path: seq<Bucket>, node: nat, shape: Shape) {
    forall i, q :: 0 <= i < |path| && 0 <= q < |path[i]| && !IsBlockDummy(path[i][q], shape.gN) ==>
      ShiftBy(path[i][q].treeLabel + shape.N, i) == ShiftBy(node, i)
  }

  ghost predicate AllDummy(bucket: Bucket, gN: nat) {
    forall q :: 0 <= q < |bucket| ==> IsBlockDummy(bucket[q], gN)
  }

  ghost predicate DummyFrom(path: seq<Bucket>, i: nat, gN: nat) {
    forall j :: i <= j < |path| ==> AllDummy(path[j], gN)
  }

  /** Rebuilding the path conserves the real blocks of stash and path. */
  lemma {:induction false} RebuiltPathConserves(st: seq<Block>, path: seq<Bucket>, node: nat, i: nat, shape: Shape,
                                                P: Block -> bool)
    requires i <= |path| && BucketsSized(path, shape.Z) && DummyFrom(path, i, shape.gN) && RealOnly(P, shape.gN)
    ensures var r := RebuiltPath(st, path, node, i, shape);
      CountIf(r.0, P) + CountBuckets(r.1, P) == CountIf(st, P) + CountBuckets(path, P)
    decreases |path| - i
  {
    if i < |path| {
      var prefix := ShiftBy(node, i);
      assert AllDummy(path[i], shape.gN);
      FillBucketConserves(st, path[i], 0, 0, prefix, i, shape, P);
      var f := FillBucket(st, path[i], 0, 0, prefix, i, shape);
      var path1 := path[i := f.bucket];
      CountBucketsUpdate(path, i, f.bucket, P);
      RebuiltPathConserves(f.stash, path1, node, i + 1, shape, P);
    }
  }

  /** Rebuilding the path places every block on the root path of its own label. */
  lemma {:induction false} RebuiltPathLegal(st: seq<Block>, path: seq<Bucket>, node: nat, i: nat, shape: Shape)
    requires i <= |path| && BucketsSized(path, shape.Z) && DummyFrom(path, i, shape.gN)
    requires PathLegal(path, node, shape)
    ensures PathLegal(RebuiltPath(st, path, node, i, shape).1, node, shape)
    decreases |path| - i
  {
    if i < |path| {
      var prefix := ShiftBy(node, i);
      assert AllDummy(path[i], shape.gN);
      FillBucketPlaces(st, path[i], 0, 0, prefix, i, shape);
      var f := FillBucket(st, path[i], 0, 0, prefix, i, shape);
      var path1 := path[i := f.bucket];
      RebuiltPathLegal(f.stash, path1, node, i + 1, shape);
    }
  }

  // ----- The tree around a path -----

  /** Writing a path back exchanges the old path's blocks for the new ones. */
  lemma {:induction false} UploadedCount(tree: seq<Bucket>, node: nat, path: seq<Bucket>, P: Block -> bool)
    requires |tree| >= node && (path == [] || Pow2(|path| - 1) <= node)
    ensures CountBuckets(Uploaded(tree, node, path), P) + CountBuckets(PathBuckets(tree, node, |path|), P) ==
            CountBuckets(tree, P) + CountBuckets(path, P)
    decreases |path|
  {
    if path != [] {
      var rest := PathBuckets(tree, node / 2, |path| - 1);
      UploadedCount(tree[node - 1 := path[0]], node / 2, path[1..], P);
      PathBucketsFrame(tree, node / 2, |path| - 1, node, path[0]);
      CountBucketsUpdate(tree, node - 1, path[0], P);
      assert ([tree[node - 1]] + rest)[1..] == rest;
    }
  }
}
