/** The initial build: the blocks of every level are dealt out to its leaf buckets, each parent block records the leaves of
    its children, and the on-chip map those of the first level.  The result satisfies the invariant of the ORAM. */
module Build {
  import opened TreePaths
  import opened Blocks
  import opened PathLevel
  import opened PathAccess
  import opened RecursivePathORAM
  import Refinement
  import Sizing
  import opened Runs

  // ----- Dealing R blocks to N leaves -----

  /** blocks_in_this_bucket for leaf j: the first R % N leaves take one more. */
  function LeafSize(j: nat, R: nat, N: nat): nat
    requires N > 0
  {
    R / N + if j < R % N then 1 else 0
  }

  /** The id of the first block of leaf j. */
  function First(j: nat, R: nat, N: nat): nat
    requires N > 0
  {
    if j == 0 then 0 else First(j - 1, R, N) + LeafSize(j - 1, R, N)
  }

  /** The first R - R / N * N leaves take one block more. */
  lemma DealStep(j: nat, R: nat, N: nat)
    requires N > 0
    ensures R / N * N <= R
    ensures First(0, R, N) == 0 && First(j + 1, R, N) == First(j, R, N) + LeafSize(j, R, N)
    ensures LeafSize(j, R, N) == R / N + if j < R - R / N * N then 1 else 0
  {
    assert R == N * (R / N) + R % N;
  }

  lemma {:induction false} FirstIs(j: nat, R: nat, N: nat)
    requires N > 0
    ensures First(j, R, N) == j * (R / N) + if j < R % N then j else R % N
  {
    if j > 0 {
      FirstIs(j - 1, R, N);
      assert j * (R / N) == (j - 1) * (R / N) + R / N;
    }
  }

  /** Every block is dealt to some leaf, and no leaf bucket overflows. */
  lemma {:induction false} DealtOut(R: nat, N: nat, Z: nat)
    requires N > 0 && R <= N * Z
    ensures First(N, R, N) == R
    ensures forall j: nat :: LeafSize(j, R, N) <= Z
  {
    FirstIs(N, R, N);
    var q, c := R / N, R % N;
    assert R == N * q + c;
    if q >= Z {
      Sizing.MulLe(Z, q, N);
      if q > Z {
        Sizing.MulLe(Z + 1, q, N);
        Sizing.Distribute(Z, 1, N);
      }
    }
  }

  lemma {:induction false} FirstMonotone(j: nat, k: nat, R: nat, N: nat)
    requires N > 0 && j <= k
    ensures First(j, R, N) <= First(k, R, N)
    decreases k
  {
    if j < k {
      FirstMonotone(j, k - 1, R, N);
    }
  }

  lemma LeafFits(R: nat, N: nat, Z: nat, j: nat)
    requires j < N && R <= N * Z
    ensures First(j + 1, R, N) == First(j, R, N) + LeafSize(j, R, N) <= R && LeafSize(j, R, N) <= Z
  {
    DealtOut(R, N, Z);
    FirstMonotone(j + 1, N, R, N);
  }

  // ----- One level -----

  /** A leaf bucket: the blocks first .. first + size - 1, then dummies. */
  ghost predicate LeafHolds(bucket: Bucket, first: nat, size: nat, leaf: nat, data: seq<seq<nat>>, gN: nat) {
    && size <= |bucket| && first + size <= |data|
    && forall q :: 0 <= q < |bucket| ==>
        if q < size then bucket[q] == Block(first + q, leaf, data[first + q]) else IsBlockDummy(bucket[q], gN)
  }

  ghost predicate LeafBuilt(tree: seq<Bucket>, leafOf: seq<nat>, data: seq<seq<nat>>, shape: Shape, j: nat)
    requires shape.N > 0
  {
    var R := |data|;
    && shape.N + j <= |tree| && |tree[shape.N - 1 + j]| == shape.Z
    && LeafHolds(tree[shape.N - 1 + j], First(j, R, shape.N), LeafSize(j, R, shape.N), j, data, shape.gN)
    && First(j + 1, R, shape.N) <= |leafOf|
    && forall id :: First(j, R, shape.N) <= id < First(j + 1, R, shape.N) ==> leafOf[id] == j
  }

  ghost predicate EmptyBucket(bucket: Bucket, shape: Shape) {
    |bucket| == shape.Z && forall q :: 0 <= q < |bucket| ==> IsBlockDummy(bucket[q], shape.gN)
  }

  /** What BuildTreeRecursive makes of one level: leafOf is the position map of the level, data what its blocks hold. */
  ghost predicate BuiltTree(tree: seq<Bucket>, leafOf: seq<nat>, data: seq<seq<nat>>, shape: Shape) {
    && shape.Valid() && |tree| == 2 * shape.N - 1 && |data| <= |leafOf|
    && (forall n :: 0 <= n < shape.N - 1 ==> EmptyBucket(tree[n], shape))
    && (forall j :: 0 <= j < shape.N ==> LeafBuilt(tree, leafOf, data, shape, j))
  }

  ghost function HeldAt(leafOf: seq<nat>, data: seq<seq<nat>>): (m: map<nat, Block>)
    requires |data| <= |leafOf|
  {
    map id: nat | id < |data| :: Block(id, leafOf[id], data[id])
  }

  /** b is block b.id of the level, and its id is at least from. */
  predicate Dealt(b: Block, from: nat, leafOf: seq<nat>, data: seq<seq<nat>>)
    requires |data| <= |leafOf|
  {
    from <= b.id < |data| && b == Block(b.id, leafOf[b.id], data[b.id])
  }

  /** A leaf bucket holds each of its blocks once. */
  lemma {:induction false} LeafCount(bucket: Bucket, first: nat, size: nat, leaf: nat, leafOf: seq<nat>,
                                     data: seq<seq<nat>>,
                                     gN: nat, b: Block, q: nat)
    requires LeafHolds(bucket, first, size, leaf, data, gN) && |data| <= |leafOf| && |data| <= gN
    requires forall id :: first <= id < first + size ==> leafOf[id] == leaf
    requires b.id != gN && q <= |bucket|
    ensures CountIf(bucket[q..], Is(b)) == if Dealt(b, first + q, leafOf, data) && b.id < first + size then 1 else 0
    decreases |bucket| - q
  {
    if q < |bucket| {
      LeafCount(bucket, first, size, leaf, leafOf, data, gN, b, q + 1);
      assert bucket[q..][1..] == bucket[q + 1..];
    }
  }

  /** The leaf buckets from j on hold each of their blocks once. */
  lemma {:induction false} LeavesCount(tree: seq<Bucket>, leafOf: seq<nat>, data: seq<seq<nat>>, shape: Shape,
                                       b: Block, j: nat)
    requires BuiltTree(tree, leafOf, data, shape) && |data| <= shape.gN && |data| <= shape.N * shape.Z
    requires b.id != shape.gN && j <= shape.N
    ensures CountBuckets(tree[shape.N - 1 + j..], Is(b)) == if Dealt(b, First(j, |data|, shape.N), leafOf, data) then 1 else 0
    decreases shape.N - j
  {
    var R, N := |data|, shape.N;
    if j == N {
      DealtOut(R, N, shape.Z);
    } else {
      hide Dealt;
      LeavesCount(tree, leafOf, data, shape, b, j + 1);
      var bucket := tree[N - 1 + j];
      assert LeafBuilt(tree, leafOf, data, shape, j);
      assert tree[N - 1 + j..][1..] == tree[N + j..];
      assert bucket[0..] == bucket;
      LeafCount(bucket, First(j, R, N), LeafSize(j, R, N), j, leafOf, data, shape.gN, b, 0);
      DealtSplit(b, First(j, R, N), First(j + 1, R, N), leafOf, data);
    }
  }

  lemma DealtSplit(b: Block, from: nat, to: nat, leafOf: seq<nat>, data: seq<seq<nat>>)
    requires |data| <= |leafOf| && from <= to
    ensures Dealt(b, to, leafOf, data) <==> Dealt(b, from, leafOf, data) && b.id >= to
  {
  }

  lemma {:induction false} EmptyCount(tree: seq<Bucket>, leafOf: seq<nat>, data: seq<seq<nat>>, shape: Shape,
                                      b: Block, n: nat)
    requires BuiltTree(tree, leafOf, data, shape) && b.id != shape.gN && n < shape.N
    ensures CountBuckets(tree[n..], Is(b)) == CountBuckets(tree[shape.N - 1..], Is(b))
    decreases shape.N - n
  {
    if n < shape.N - 1 {
      EmptyCount(tree, leafOf, data, shape, b, n + 1);
      assert EmptyBucket(tree[n], shape);
      CountIfBound(tree[n], Is(b));
      assert tree[n..][1..] == tree[n + 1..];
    }
  }

  /** The leaf a block was dealt to. */
  lemma {:induction false} LeafFound(leafOf: seq<nat>, data: seq<seq<nat>>, tree: seq<Bucket>, shape: Shape, id: nat,
                                     k: nat)
    requires BuiltTree(tree, leafOf, data, shape) && k <= shape.N && id < First(k, |data|, shape.N) && id < |data|
    ensures leafOf[id] < shape.N
    decreases k
  {
    if id < First(k - 1, |data|, shape.N) {
      LeafFound(leafOf, data, tree, shape, id, k - 1);
    } else {
      assert LeafBuilt(tree, leafOf, data, shape, k - 1);
    }
  }

  /** A freshly built level, with an empty stash, satisfies the level's invariant. */
  lemma BuiltLevelOk(l: Level, leafOf: seq<nat>, data: seq<seq<nat>>, shape: Shape)
    requires BuiltTree(l.tree, leafOf, data, shape) && |data| <= shape.gN && |data| <= shape.N * shape.Z
    requires |l.discard| == |l.stash| && forall k :: 0 <= k < |l.stash| ==> !l.discard[k] && IsBlockDummy(l.stash[k], shape.gN)
    ensures LevelOk(l, HeldAt(leafOf, data), shape)
  {
    var m := HeldAt(leafOf, data);
    DealtOut(|data|, shape.N, shape.Z);
    forall id | id in m
      ensures m[id].treeLabel < shape.N
    {
      LeafFound(leafOf, data, l.tree, shape, id, shape.N);
    }
    forall b: Block | b.id != shape.gN
      ensures Occurrences(l, b) == if b.id in m && m[b.id] == b then 1 else 0
    {
      CountIfBound(l.stash, Is(b));
      EmptyCount(l.tree, leafOf, data, shape, b, 0);
      LeavesCount(l.tree, leafOf, data, shape, b, 0);
      assert l.tree[0..] == l.tree;
    }
    BuiltTreeShaped(l.tree, leafOf, data, shape);
    BuiltTreeLegal(l.tree, leafOf, data, shape);
  }

  lemma BuiltTreeShaped(tree: seq<Bucket>, leafOf: seq<nat>, data: seq<seq<nat>>, shape: Shape)
    requires BuiltTree(tree, leafOf, data, shape)
    ensures BucketsSized(tree, shape.Z)
  {
    forall n | 0 <= n < |tree|
      ensures |tree[n]| == shape.Z
    {
      if n < shape.N - 1 {
        assert EmptyBucket(tree[n], shape);
      } else {
        assert LeafBuilt(tree, leafOf, data, shape, n - (shape.N - 1));
      }
    }
  }

  lemma BuiltTreeLegal(tree: seq<Bucket>, leafOf: seq<nat>, data: seq<seq<nat>>, shape: Shape)
    requires BuiltTree(tree, leafOf, data, shape)
    ensures TreeLegal(tree, shape)
  {
    forall n, q | 0 <= n < |tree| && 0 <= q < |tree[n]| && !IsBlockDummy(tree[n][q], shape.gN)
      ensures Passes(tree[n][q].treeLabel + shape.N, n + 1, shape.D)
    {
      if n >= shape.N - 1 {
        assert LeafBuilt(tree, leafOf, data, shape, n - (shape.N - 1));
        assert ShiftBy(tree[n][q].treeLabel + shape.N, 0) == n + 1;
      }
    }
  }

  // ----- All levels -----

  /** fill_recursion_data: block id records the leaves of the blocks id * x .. id * x + x - 1 of the level below. */
  ghost predicate Recorded(data: seq<seq<nat>>, prevPmap: seq<nat>, x: nat) {
    forall id :: 0 <= id < |data| ==> RecordsChildren(data[id], prevPmap, id, x)
  }

  ghost predicate RecordsChildren(words: seq<nat>, prevPmap: seq<nat>, id: nat, x: nat) {
    |words| == x && id * x + x <= |prevPmap| && words == prevPmap[id * x..id * x + x]
  }

  /** Every level is built, and each one records the leaves of the next. */
  ghost predicate BuiltState(p: Params, s: State, leafOf: seq<seq<nat>>, data: seq<seq<seq<nat>>>) {
    && p.Valid() && |s.levels| == |leafOf| == |data| == p.levels + 1
    && (forall l :: 1 <= l <= p.levels ==> LevelBuilt(p, s.levels[l], leafOf[l], data[l], l))
    && (forall l :: 1 <= l < p.levels ==> Recorded(data[l], leafOf[l + 1], p.x))
    && |leafOf[1]| >= p.realBlocks[0] && s.posmap == leafOf[1][..p.realBlocks[0]]
  }

  ghost predicate LevelBuilt(p: Params, l: Level, leafOf: seq<nat>, data: seq<seq<nat>>, level: nat)
    requires p.Valid() && 1 <= level <= p.levels
  {
    && BuiltTree(l.tree, leafOf, data, p.ShapeOf(level))
    && |data| == p.realBlocks[level] <= p.N[level] * p.Z
    && |l.discard| == |l.stash|
    && forall k :: 0 <= k < |l.stash| ==> !l.discard[k] && IsBlockDummy(l.stash[k], p.gN)
  }

  ghost function HeldAtAll(p: Params, leafOf: seq<seq<nat>>, data: seq<seq<seq<nat>>>): (m: seq<map<nat, Block>>)
    requires |leafOf| == |data| == p.levels + 1
    requires forall l :: 1 <= l <= p.levels ==> |data[l]| <= |leafOf[l]|
    ensures |m| == p.levels + 1
  {
    seq(p.levels + 1, l requires 0 <= l <= p.levels => if l == 0 then map[] else HeldAt(leafOf[l], data[l]))
  }

  lemma WordAt(words: seq<nat>, prevPmap: seq<nat>, c: nat, x: nat)
    requires x > 0 && RecordsChildren(words, prevPmap, c / x, x)
    ensures c < |prevPmap| && words[c % x] == prevPmap[c]
  {
    var q := c / x;
    assert c == x * q + c % x;
    assert x * q == q * x;
  }

  /** Each recorded label is the leaf the child was dealt to. */
  lemma {:induction false} BuiltLinks(p: Params, s: State, leafOf: seq<seq<nat>>, data: seq<seq<seq<nat>>>, l: nat)
    requires BuiltState(p, s, leafOf, data) && l < p.levels
    requires forall k :: 1 <= k <= p.levels ==> |data[k]| == p.realBlocks[k] <= |leafOf[k]|
    ensures LinkedBut(p, s.posmap, HeldAtAll(p, leafOf, data), l, -1)
  {
    hide LevelBuilt, ChildLinked, HeldAtAll;
    forall c: nat | c < p.realBlocks[l + 1]
      ensures ChildLinked(p, s.posmap, HeldAtAll(p, leafOf, data), l, c)
    {
      ChildRecorded(p, s, leafOf, data, l, c);
    }
  }

  lemma HeldEntry(p: Params, leafOf: seq<seq<nat>>, data: seq<seq<seq<nat>>>, l: nat, c: nat)
    requires |leafOf| == |data| == p.levels + 1 && 1 <= l <= p.levels && c < |data[l]|
    requires forall k :: 1 <= k <= p.levels ==> |data[k]| <= |leafOf[k]|
    ensures c in HeldAtAll(p, leafOf, data)[l] && HeldAtAll(p, leafOf, data)[l][c] == Block(c, leafOf[l][c], data[l][c])
  {
  }

  lemma WordRecorded(p: Params, posmap: seq<nat>, leafOf: seq<seq<nat>>, data: seq<seq<seq<nat>>>, l: nat, c: nat)
    requires |leafOf| == |data| == p.levels + 1 && 1 <= l < p.levels && p.x > 0
    requires forall k :: 1 <= k <= p.levels ==> |data[k]| <= |leafOf[k]|
    requires Recorded(data[l], leafOf[l + 1], p.x) && c < |data[l + 1]| && c / p.x < |data[l]|
    ensures ChildLinked(p, posmap, HeldAtAll(p, leafOf, data), l, c)
  {
    hide Recorded, HeldAtAll;
    HeldEntry(p, leafOf, data, l + 1, c);
    HeldEntry(p, leafOf, data, l, c / p.x);
    ChildWord(data[l], leafOf[l + 1], p.x, c);
  }

  lemma ChildRecorded(p: Params, s: State, leafOf: seq<seq<nat>>, data: seq<seq<seq<nat>>>, l: nat, c: nat)
    requires BuiltState(p, s, leafOf, data) && l < p.levels && c < p.realBlocks[l + 1]
    requires forall k :: 1 <= k <= p.levels ==> |data[k]| == p.realBlocks[k] <= |leafOf[k]|
    ensures ChildLinked(p, s.posmap, HeldAtAll(p, leafOf, data), l, c)
  {
    hide LevelBuilt, Recorded, Pow2;
    if l > 0 {
      Refinement.ParentInRange(p, l, c);
      WordRecorded(p, s.posmap, leafOf, data, l, c);
    } else {
      HeldEntry(p, leafOf, data, 1, c);
    }
  }

  lemma ChildWord(data: seq<seq<nat>>, prevPmap: seq<nat>, x: nat, c: nat)
    requires x > 0 && Recorded(data, prevPmap, x) && c / x < |data|
    ensures c < |prevPmap| && c % x < |data[c / x]| && data[c / x][c % x] == prevPmap[c]
  {
    assert RecordsChildren(data[c / x], prevPmap, c / x, x);
    WordAt(data[c / x], prevPmap, c, x);
  }

  /** The build establishes the invariant at all levels, and the array it stands for holds the data written. */
  lemma BuildEstablishes(p: Params, s: State, leafOf: seq<seq<nat>>, data: seq<seq<seq<nat>>>)
    requires BuiltState(p, s, leafOf, data)
    ensures Consistent(p, s)
    ensures Array(p, s) == data[p.levels]
  {
    hide Pow2;
    forall l | 1 <= l <= p.levels
      ensures |data[l]| == p.realBlocks[l] <= |leafOf[l]| && LevelOk(s.levels[l], HeldAt(leafOf[l], data[l]), p.ShapeOf(l))
    {
      assert LevelBuilt(p, s.levels[l], leafOf[l], data[l], l);
      BuiltLevelOk(s.levels[l], leafOf[l], data[l], p.ShapeOf(l));
    }
    var m := HeldAtAll(p, leafOf, data);
    forall l | 0 <= l < p.levels
      ensures LinkedBut(p, s.posmap, m, l, -1)
    {
      BuiltLinks(p, s, leafOf, data, l);
    }
    assert Contained(p, s, m) by {
      hide LevelOk;
      assert forall l :: 1 <= l <= p.levels ==> LevelBuilt(p, s.levels[l], leafOf[l], data[l], l);
    }
    MapsUnique(p, s, m);
  }
}
