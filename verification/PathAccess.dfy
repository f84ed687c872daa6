/** One access to one level of Path ORAM, and why it loses, duplicates and misplaces no block. */
module PathAccess {
  import opened TreePaths
  import opened Blocks
  import opened Stash
  import opened LocalStorage
  import opened PathLevel

  // ----- What a level must satisfy -----

  ghost predicate Shaped(l: Level, shape: Shape) {
    && shape.Valid()
    && |l.tree| == 2 * shape.N - 1
    && BucketsSized(l.tree, shape.Z)
    && |l.discard| == |l.stash|
    && forall k :: 0 <= k < |l.discard| ==> !l.discard[k]
  }

  ghost function Occurrences(l: Level, b: Block): nat {
    CountIf(l.stash, Is(b)) + CountBuckets(l.tree, Is(b))
  }

  /** Stash and tree together hold each entry of m once, and no other real block. */
  ghost predicate Holds(l: Level, m: map<nat, Block>, shape: Shape) {
    forall b: Block :: b.id != shape.gN ==> Occurrences(l, b) == if b.id in m && m[b.id] == b then 1 else 0
  }

  /** The path of bucket leafNode to the root passes through bucket n. */
  ghost predicate Passes(leafNode: nat, n: nat, D: nat) {
    exists i :: 0 <= i <= D && ShiftBy(leafNode, i) == n
  }

  /** Every real block in the tree lies on the path of its own label. */
  ghost predicate TreeLegal(tree: seq<Bucket>, shape: Shape) {
    forall n, q :: 0 <= n < |tree| && 0 <= q < |tree[n]| && !IsBlockDummy(tree[n][q], shape.gN) ==>
      Passes(tree[n][q].treeLabel + shape.N, n + 1, shape.D)
  }

  ghost predicate Labelled(m: map<nat, Block>, shape: Shape) {
    forall id :: id in m ==> m[id].id == id && id != shape.gN && m[id].treeLabel < shape.N
  }

  /** The invariant of one level: m is what the level holds. */
  ghost predicate LevelOk(l: Level, m: map<nat, Block>, shape: Shape) {
    Shaped(l, shape) && Holds(l, m, shape) && TreeLegal(l.tree, shape) && Labelled(m, shape)
  }

  // ----- The access -----

  /** The path handed to the enclave for leaf label `leaf`. */
  function FetchedPath(l: Level, leaf: nat, shape: Shape): (path: seq<Bucket>)
    requires shape.Valid() && |l.tree| == 2 * shape.N - 1 && leaf < shape.N
    ensures |path| == shape.D + 1
  {
    PathBuckets(l.tree, leaf + shape.N, shape.D + 1)
  }

  /** The stash once the whole path has been pushed into it. */
  function FetchedStash(l: Level, leaf: nat, shape: Shape): (st: seq<Block>)
    requires shape.Valid() && |l.tree| == 2 * shape.N - 1 && leaf < shape.N
    ensures |st| == |l.stash|
  {
    PushedPath(l.stash, FetchedPath(l, leaf, shape), shape.gN)
  }

  /** Stash occupancy plus the real blocks of the fetched path do not exceed the stash. */
  ghost predicate Room(l: Level, leaf: nat, shape: Shape)
    requires shape.Valid() && |l.tree| == 2 * shape.N - 1 && leaf < shape.N
  {
    CountReal(l.stash, shape.gN) + CountBuckets(FetchedPath(l, leaf, shape), IsReal(shape.gN)) <= |l.stash|
  }

  /** Refill the emptied path from the stash st and write it back. */
  function WrittenBack(l: Level, st: seq<Block>, leaf: nat, shape: Shape): (r: Level)
    requires shape.Valid() && |l.tree| == 2 * shape.N - 1 && BucketsSized(l.tree, shape.Z) && leaf < shape.N
  {
    var node := leaf + shape.N;
    var path := FetchedPath(l, leaf, shape);
    FetchedPathSized(l, leaf, shape);
    var r := RebuiltPath(st, EmptiedPath(path, shape.gN), node, 0, shape);
    Level(r.0, l.discard, Uploaded(l.tree, node, r.1))
  }

  lemma FetchedPathSized(l: Level, leaf: nat, shape: Shape)
    requires shape.Valid() && |l.tree| == 2 * shape.N - 1 && BucketsSized(l.tree, shape.Z) && leaf < shape.N
    ensures BucketsSized(FetchedPath(l, leaf, shape), shape.Z)
  {
    forall i: nat | i <= shape.D
      ensures |FetchedPath(l, leaf, shape)[i]| == shape.Z
    {
      PathBucketsAt(l.tree, leaf + shape.N, shape.D + 1, i);
    }
  }

  // ----- Fetching -----

  /** The fetched path is part of the tree. */
  lemma FetchedPathCount(l: Level, leaf: nat, shape: Shape, P: Block -> bool)
    requires Shaped(l, shape) && leaf < shape.N && RealOnly(P, shape.gN)
    ensures CountBuckets(FetchedPath(l, leaf, shape), P) <= CountBuckets(l.tree, P)
  {
    var path := FetchedPath(l, leaf, shape);
    UploadedCount(l.tree, leaf + shape.N, EmptiedPath(path, shape.gN), P);
    EmptiedPathHasNoReal(path, shape.gN, P);
  }

  /** A real block of the tree labelled `leaf` is on the path to that leaf. */
  lemma TreeBlockOnPath(l: Level, b: Block, shape: Shape)
    requires Shaped(l, shape) && TreeLegal(l.tree, shape) && b.id != shape.gN && b.treeLabel < shape.N
    requires CountBuckets(l.tree, Is(b)) > 0
    ensures CountBuckets(FetchedPath(l, b.treeLabel, shape), Is(b)) > 0
  {
    hide CountBuckets, CountIf, PathBuckets;
    var node := b.treeLabel + shape.N;
    var path := FetchedPath(l, b.treeLabel, shape);
    CountBucketsZero(l.tree, Is(b));
    CountBucketsZero(path, Is(b));
    var n, q :| 0 <= n < |l.tree| && 0 <= q < |l.tree[n]| && l.tree[n][q] == b;
    assert Passes(node, n + 1, shape.D);
    var i :| 0 <= i <= shape.D && ShiftBy(node, i) == n + 1;
    PathBucketsAt(l.tree, node, shape.D + 1, i);
    assert path[i][q] == b;
  }

  /** The requested block is in the stash or on the fetched path, once. */
  lemma FetchedPathHas(l: Level, m: map<nat, Block>, leaf: nat, id: nat, shape: Shape)
    requires LevelOk(l, m, shape) && id in m && m[id].treeLabel == leaf
    ensures CountIf(l.stash, Is(m[id])) + CountBuckets(FetchedPath(l, leaf, shape), Is(m[id])) == 1
  {
    var b := m[id];
    assert Occurrences(l, b) == 1;
    FetchedPathCount(l, leaf, shape, Is(b));
    if CountBuckets(l.tree, Is(b)) > 0 {
      TreeBlockOnPath(l, b, shape);
    }
  }

  /** After the fetch the requested block is in the stash, in exactly one node. */
  lemma FetchFinds(l: Level, m: map<nat, Block>, leaf: nat, id: nat, shape: Shape) returns (k: nat)
    requires LevelOk(l, m, shape) && id in m && m[id].treeLabel == leaf
    requires Room(l, leaf, shape)
    ensures k < |l.stash| && FetchedStash(l, leaf, shape)[k] == m[id]
    ensures forall j :: 0 <= j < |l.stash| && FetchedStash(l, leaf, shape)[j].id == id ==> j == k
    ensures LastWith(FetchedStash(l, leaf, shape), id) == k
  {
    var st := FetchedStash(l, leaf, shape);
    var path := FetchedPath(l, leaf, shape);
    PushedPathReal(l.stash, path, shape.gN, Is(m[id]));
    FetchedPathHas(l, m, leaf, id, shape);
    CountIfBound(st, Is(m[id]));
    k :| 0 <= k < |st| && st[k] == m[id];
    forall j | 0 <= j < |st| && st[j].id == id
      ensures j == k
    {
      var b := st[j];
      PushedPathReal(l.stash, path, shape.gN, Is(b));
      FetchedPathCount(l, leaf, shape, Is(b));
      CountIfBound(st, Is(b));
      assert Occurrences(l, b) > 0;
      CountIfOne(st, Is(b), j, k);
    }
  }

  // ----- Writing back -----

  lemma EmptiedPathReady(path: seq<Bucket>, node: nat, shape: Shape)
    requires BucketsSized(path, shape.Z)
    ensures BucketsSized(EmptiedPath(path, shape.gN), shape.Z)
    ensures DummyFrom(EmptiedPath(path, shape.gN), 0, shape.gN)
    ensures PathLegal(EmptiedPath(path, shape.gN), node, shape)
  {
  }

  /** Write-back conserves what the stash st and the tree off the path hold. */
  lemma WrittenBackCount(l: Level, st: seq<Block>, leaf: nat, shape: Shape, P: Block -> bool)
    requires Shaped(l, shape) && leaf < shape.N && RealOnly(P, shape.gN)
    ensures var r := WrittenBack(l, st, leaf, shape);
      CountIf(r.stash, P) + CountBuckets(r.tree, P) + CountBuckets(FetchedPath(l, leaf, shape), P)
      == CountIf(st, P) + CountBuckets(l.tree, P)
  {
    var node := leaf + shape.N;
    var path := FetchedPath(l, leaf, shape);
    FetchedPathSized(l, leaf, shape);
    EmptiedPathReady(path, node, shape);
    EmptiedPathHasNoReal(path, shape.gN, P);
    RebuiltPathConserves(st, EmptiedPath(path, shape.gN), node, 0, shape, P);
    UploadedCount(l.tree, node, RebuiltPath(st, EmptiedPath(path, shape.gN), node, 0, shape).1, P);
  }

  lemma WrittenBackShaped(l: Level, st: seq<Block>, leaf: nat, shape: Shape)
    requires Shaped(l, shape) && leaf < shape.N && |st| == |l.stash|
    ensures Shaped(WrittenBack(l, st, leaf, shape), shape)
  {
    var node := leaf + shape.N;
    var path := FetchedPath(l, leaf, shape);
    FetchedPathSized(l, leaf, shape);
    var path' := RebuiltPath(st, EmptiedPath(path, shape.gN), node, 0, shape).1;
    var tree' := Uploaded(l.tree, node, path');
    forall n | 0 <= n < |tree'|
      ensures |tree'[n]| == shape.Z
    {
      UploadedAt(l.tree, node, path', n + 1);
      if i :| 0 <= i <= shape.D && ShiftBy(node, i) == n + 1 {
        assert tree'[n] == path'[i];
      }
    }
  }

  /** Write-back leaves every block of the tree on the path of its own label. */
  lemma WrittenBackLegal(l: Level, st: seq<Block>, leaf: nat, shape: Shape)
    requires Shaped(l, shape) && leaf < shape.N && TreeLegal(l.tree, shape) && |st| == |l.stash|
    ensures TreeLegal(WrittenBack(l, st, leaf, shape).tree, shape)
  {
    var node := leaf + shape.N;
    var path := FetchedPath(l, leaf, shape);
    FetchedPathSized(l, leaf, shape);
    EmptiedPathReady(path, node, shape);
    RebuiltPathLegal(st, EmptiedPath(path, shape.gN), node, 0, shape);
    var path' := RebuiltPath(st, EmptiedPath(path, shape.gN), node, 0, shape).1;
    var tree' := Uploaded(l.tree, node, path');
    forall n | 0 <= n < |tree'|
      ensures forall q :: 0 <= q < |tree'[n]| && !IsBlockDummy(tree'[n][q], shape.gN) ==>
        Passes(tree'[n][q].treeLabel + shape.N, n + 1, shape.D)
    {
      UploadedAt(l.tree, node, path', n + 1);
      if i :| 0 <= i <= shape.D && ShiftBy(node, i) == n + 1 {
        assert tree'[n] == path'[i];
        forall q | 0 <= q < |path'[i]| && !IsBlockDummy(path'[i][q], shape.gN)
          ensures Passes(path'[i][q].treeLabel + shape.N, n + 1, shape.D)
        {
          assert ShiftBy(path'[i][q].treeLabel + shape.N, i) == n + 1;
        }
      } else {
        assert tree'[n] == l.tree[n];
      }
    }
  }

  /** One access: fetch the path of block id, change that block to c in the stash, write back. */
  lemma AccessKeepsLevel(l: Level, m: map<nat, Block>, leaf: nat, id: nat, k: nat, c: Block, shape: Shape)
    requires LevelOk(l, m, shape) && id in m && m[id].treeLabel == leaf
    requires Room(l, leaf, shape)
    requires k < |l.stash| && FetchedStash(l, leaf, shape)[k] == m[id]
    requires c.id == id && c.treeLabel < shape.N
    ensures LevelOk(WrittenBack(l, FetchedStash(l, leaf, shape)[k := c], leaf, shape), m[id := c], shape)
  {
    var st := FetchedStash(l, leaf, shape);
    var r := WrittenBack(l, st[k := c], leaf, shape);
    var path := FetchedPath(l, leaf, shape);
    WrittenBackLegal(l, st[k := c], leaf, shape);
    WrittenBackShaped(l, st[k := c], leaf, shape);
    forall b: Block | b.id != shape.gN
      ensures Occurrences(r, b) == if b.id in m[id := c] && m[id := c][b.id] == b then 1 else 0
    {
      PushedPathReal(l.stash, path, shape.gN, Is(b));
      CountIfUpdate(st, k, c, Is(b));
      WrittenBackCount(l, st[k := c], leaf, shape, Is(b));
      assert Occurrences(l, b) == if b.id in m && m[b.id] == b then 1 else 0;
    }
  }
}
