/** What one eviction pass does to stash and path, given the metadata of the two scans, and why it conserves the
    real blocks and keeps every block on the path of its own label. */
module CircuitEviction {
  import opened TreePaths
  import opened Blocks
  import opened PathLevel
  import opened CircuitMetadata

  /** The plan of a pass. */
  datatype Plan = Plan(deepest: seq<int>, target: seq<int>, deepestPosition: seq<int>, targetPosition: seq<int>) {

    /** Level l gives up the block in slot k, counted as prepare_deepest counts. */
    predicate Outgoing(l: nat, k: int) {
      l < |target| && l < |deepestPosition| && target[l] != -1 && k == deepestPosition[l]
    }

    /** Level l receives a block. */
    predicate Incoming(l: nat) {
      l < |deepest| && 0 <= deepest[l] < |target| && target[deepest[l]] == l
    }
  }

  /** The plan fits stash and path: the moves do not overlap, and each takes a real block that reaches its target. */
  ghost predicate Fits(plan: Plan, st: seq<Block>, path: seq<Bucket>, leafNode: nat, shape: Shape) {
    && |path| == shape.D + 1 && BucketsSized(path, shape.Z)
    && |plan.deepestPosition| == |path| + 1
    && Moves(path, plan.deepest, plan.target, plan.targetPosition, 0, shape.gN)
    && forall s :: 0 <= s < |plan.target| && plan.target[s] != -1 ==> Takes(plan, st, path, s, leafNode, shape)
  }

  ghost predicate Takes(plan: Plan, st: seq<Block>, path: seq<Bucket>, s: nat, leafNode: nat, shape: Shape) {
    && s < |path| + 1 && s < |plan.deepestPosition| && s < |plan.target|
    && 0 <= plan.deepestPosition[s] < |View(st, path)[s]|
    && 1 <= plan.target[s] <= Reach(View(st, path)[s][plan.deepestPosition[s]], leafNode, shape)
  }

  /** The block that level s gives up. */
  function Taken(plan: Plan, st: seq<Block>, path: seq<Bucket>, s: int): Block
    requires 0 <= s < |path| + 1 && s < |plan.deepestPosition| && 0 <= plan.deepestPosition[s] < |View(st, path)[s]|
  {
    View(st, path)[s][plan.deepestPosition[s]]
  }

  // ----- The result of a pass -----

  function EvictedStash(plan: Plan, st: seq<Block>, gN: nat): (r: seq<Block>)
    ensures |r| == |st|
  {
    seq(|st|, k requires 0 <= k < |st| => if plan.Outgoing(0, k) then st[k].(id := gN) else st[k])
  }

  /** Bucket l with its outgoing slot emptied; slots are counted from the last one. */
  function EmptiedSlots(plan: Plan, bucket: Bucket, l: nat, gN: nat): (r: Bucket)
    ensures |r| == |bucket|
  {
    seq(|bucket|, q requires 0 <= q < |bucket| =>
      if plan.Outgoing(l, |bucket| - 1 - q) then bucket[q].(id := gN) else bucket[q])
  }

  /** Bucket l >= 1 after the pass: the outgoing slot is emptied, the incoming block fills the free slot. */
  ghost function EvictedBucket(plan: Plan, st: seq<Block>, path: seq<Bucket>, l: nat, leafNode: nat,
                               shape: Shape): (r: Bucket)
    requires Fits(plan, st, path, leafNode, shape) && 1 <= l <= |path|
    ensures |r| == shape.Z
  {
    var emptied := EmptiedSlots(plan, path[|path| - l], l, shape.gN);
    if plan.Incoming(l) then
      assert Move(path, plan.deepest, plan.target, plan.targetPosition, plan.deepest[l], shape.gN);
      assert Takes(plan, st, path, plan.deepest[l], leafNode, shape);
      emptied[plan.targetPosition[l] := Taken(plan, st, path, plan.deepest[l])]
    else emptied
  }

  /** The path once the levels above n are done. */
  ghost function EvictedPath(plan: Plan, st: seq<Block>, path: seq<Bucket>, n: nat, leafNode: nat,
                             shape: Shape): (r: seq<Bucket>)
    requires Fits(plan, st, path, leafNode, shape)
    ensures |r| == |path| && BucketsSized(r, shape.Z)
  {
    seq(|path|, h requires 0 <= h < |path| =>
      if |path| - h < n then EvictedBucket(plan, st, path, |path| - h, leafNode, shape) else path[h])
  }

  // ----- The block held between levels -----

  /** The level whose block is held when the pass arrives at level i, or -1. */
  ghost function Holder(target: seq<int>, i: nat): (s: int)
    requires i <= |target|
    ensures -1 <= s < i
  {
    if i == 0 then -1
    else if target[i - 1] != -1 then i - 1
    else
      var s := Holder(target, i - 1);
      if s != -1 && target[s] >= i then s else -1
  }

  lemma {:induction false} HolderIs(path: seq<Bucket>, deepest: seq<int>, target: seq<int>, position: seq<int>,
                                    gN: nat, i: nat)
    requires Moves(path, deepest, target, position, 0, gN) && i <= |target|
    ensures var s := Holder(target, i);
      && (s != -1 ==> i <= target[s] < |deepest| && deepest[target[s]] == s)
      && forall u :: 0 <= u < i && target[u] >= i ==> u == s
  {
    if i > 0 {
      HolderIs(path, deepest, target, position, gN, i - 1);
      var s := Holder(target, i);
      assert Move(path, deepest, target, position, i - 1, gN);
      assert s != -1 ==> Move(path, deepest, target, position, s, gN);
    }
  }

  /** Nothing is held while another block is picked up, and what arrives at level i is what is held. */
  lemma HolderStep(path: seq<Bucket>, deepest: seq<int>, target: seq<int>, position: seq<int>, gN: nat, i: nat)
    requires Moves(path, deepest, target, position, 0, gN) && i < |target|
    ensures var s := Holder(target, i);
      && (target[i] != -1 && s != -1 ==> target[s] == i)
      && ((s != -1 && target[s] == i) <==> (0 <= deepest[i] < |target| && target[deepest[i]] == i))
      && (s != -1 && target[s] == i ==> s == deepest[i])
  {
    HolderIs(path, deepest, target, position, gN, i);
    if 0 <= deepest[i] < |target| && target[deepest[i]] == i {
      assert Move(path, deepest, target, position, deepest[i], gN);
    }
  }

  // ----- Conservation -----

  ghost function HeldCount(plan: Plan, st: seq<Block>, path: seq<Bucket>, i: nat, leafNode: nat, shape: Shape,
                           P: Block -> bool): nat
    requires Fits(plan, st, path, leafNode, shape) && i <= |plan.target|
  {
    var s := Holder(plan.target, i);
    HolderIs(path, plan.deepest, plan.target, plan.targetPosition, shape.gN, i);
    if s == -1 then 0
    else
      assert Takes(plan, st, path, s, leafNode, shape);
      if P(Taken(plan, st, path, s)) then 1 else 0
  }

  /** What arrives at bucket l, and the free slot it is written to. */
  lemma IncomingFits(plan: Plan, st: seq<Block>, path: seq<Bucket>, l: nat, leafNode: nat, shape: Shape)
    requires Fits(plan, st, path, leafNode, shape) && 1 <= l <= |path| && plan.Incoming(l)
    ensures 0 <= plan.deepest[l] < |path| + 1 && 0 <= plan.targetPosition[l] < shape.Z
    ensures Takes(plan, st, path, plan.deepest[l], leafNode, shape)
    ensures IsBlockDummy(path[|path| - l][plan.targetPosition[l]], shape.gN)
  {
    assert Move(path, plan.deepest, plan.target, plan.targetPosition, plan.deepest[l], shape.gN);
  }

  lemma EmptiedBucketCount(plan: Plan, st: seq<Block>, path: seq<Bucket>, l: nat, leafNode: nat, shape: Shape,
                           P: Block -> bool)
    requires Fits(plan, st, path, leafNode, shape) && 1 <= l <= |path| && RealOnly(P, shape.gN)
    ensures plan.target[l] != -1 ==> Takes(plan, st, path, l, leafNode, shape)
    ensures CountIf(EmptiedSlots(plan, path[|path| - l], l, shape.gN), P)
            + (if plan.target[l] != -1 && P(Taken(plan, st, path, l)) then 1 else 0)
            == CountIf(path[|path| - l], P)
  {
    if plan.target[l] != -1 {
      var bucket := path[|path| - l];
      assert Takes(plan, st, path, l, leafNode, shape);
      assert View(st, path)[l] == FromLast(bucket);
      var q := shape.Z - 1 - plan.deepestPosition[l];
      CountIfUpdate(bucket, q, bucket[q].(id := shape.gN), P);
      assert EmptiedSlots(plan, bucket, l, shape.gN) == bucket[q := bucket[q].(id := shape.gN)];
    } else {
      assert EmptiedSlots(plan, path[|path| - l], l, shape.gN) == path[|path| - l];
    }
  }

  /** One level: what its bucket loses is picked up, what it gains was held. */
  lemma BucketBalance(plan: Plan, st: seq<Block>, path: seq<Bucket>, l: nat, leafNode: nat, shape: Shape,
                      P: Block -> bool)
    requires Fits(plan, st, path, leafNode, shape) && 1 <= l <= |path| && RealOnly(P, shape.gN)
    ensures CountIf(EvictedBucket(plan, st, path, l, leafNode, shape), P) + HeldCount(plan, st, path, l + 1, leafNode, shape, P)
            == CountIf(path[|path| - l], P) + HeldCount(plan, st, path, l, leafNode, shape, P)
  {
    HolderStep(path, plan.deepest, plan.target, plan.targetPosition, shape.gN, l);
    HolderIs(path, plan.deepest, plan.target, plan.targetPosition, shape.gN, l);
    EmptiedBucketCount(plan, st, path, l, leafNode, shape, P);
    var emptied := EmptiedSlots(plan, path[|path| - l], l, shape.gN);
    if plan.Incoming(l) {
      IncomingFits(plan, st, path, l, leafNode, shape);
      assert IsBlockDummy(emptied[plan.targetPosition[l]], shape.gN);
      CountIfUpdate(emptied, plan.targetPosition[l], Taken(plan, st, path, plan.deepest[l]), P);
    }
    assert Holder(plan.target, l + 1) ==
      if plan.target[l] != -1 then l else if plan.Incoming(l) then -1 else Holder(plan.target, l);
  }

  lemma StashBalance(plan: Plan, st: seq<Block>, path: seq<Bucket>, leafNode: nat, shape: Shape, P: Block -> bool)
    requires Fits(plan, st, path, leafNode, shape) && RealOnly(P, shape.gN)
    ensures CountIf(EvictedStash(plan, st, shape.gN), P) + HeldCount(plan, st, path, 1, leafNode, shape, P) == CountIf(st, P)
  {
    assert Holder(plan.target, 1) == if plan.target[0] != -1 then 0 else -1;
    if plan.target[0] != -1 {
      assert Takes(plan, st, path, 0, leafNode, shape);
      var k := plan.deepestPosition[0];
      CountIfUpdate(st, k, st[k].(id := shape.gN), P);
      assert EvictedStash(plan, st, shape.gN) == st[k := st[k].(id := shape.gN)];
    } else {
      assert EvictedStash(plan, st, shape.gN) == st;
    }
  }

  lemma {:induction false} PathBalance(plan: Plan, st: seq<Block>, path: seq<Bucket>, n: nat, leafNode: nat,
                                       shape: Shape, P: Block -> bool)
    requires Fits(plan, st, path, leafNode, shape) && 1 <= n <= |path| + 1 && RealOnly(P, shape.gN)
    ensures CountBuckets(EvictedPath(plan, st, path, n, leafNode, shape), P) + HeldCount(plan, st, path, n, leafNode, shape, P)
            == CountBuckets(path, P) + HeldCount(plan, st, path, 1, leafNode, shape, P)
  {
    if n == 1 {
      assert EvictedPath(plan, st, path, n, leafNode, shape) == path;
    } else {
      var l := n - 1;
      var before := EvictedPath(plan, st, path, l, leafNode, shape);
      PathBalance(plan, st, path, l, leafNode, shape, P);
      BucketBalance(plan, st, path, l, leafNode, shape, P);
      CountBucketsUpdate(before, |path| - l, EvictedBucket(plan, st, path, l, leafNode, shape), P);
      assert EvictedPath(plan, st, path, n, leafNode, shape) ==
        before[|path| - l := EvictedBucket(plan, st, path, l, leafNode, shape)];
    }
  }

  /** The pass conserves the real blocks of stash and path: each keeps its number of copies. */
  lemma EvictionConserves(plan: Plan, st: seq<Block>, path: seq<Bucket>, leafNode: nat, shape: Shape, P: Block -> bool)
    requires Fits(plan, st, path, leafNode, shape) && RealOnly(P, shape.gN)
    ensures CountIf(EvictedStash(plan, st, shape.gN), P) +
            CountBuckets(EvictedPath(plan, st, path, |path| + 1, leafNode, shape), P)
            == CountIf(st, P) + CountBuckets(path, P)
  {
    StashBalance(plan, st, path, leafNode, shape, P);
    PathBalance(plan, st, path, |path| + 1, leafNode, shape, P);
    HolderAtEnd(plan, st, path, leafNode, shape);
  }

  /** At the end nothing is held. */
  lemma HolderAtEnd(plan: Plan, st: seq<Block>, path: seq<Bucket>, leafNode: nat, shape: Shape)
    requires Fits(plan, st, path, leafNode, shape)
    ensures Holder(plan.target, |path| + 1) == -1
  {
    HolderIs(path, plan.deepest, plan.target, plan.targetPosition, shape.gN, |path| + 1);
    var s := Holder(plan.target, |path| + 1);
    assert s != -1 ==> Move(path, plan.deepest, plan.target, plan.targetPosition, s, shape.gN);
  }

  // ----- Legality -----

  /** The pass leaves every block of the path in a bucket that the block's own root path passes through. */
  lemma EvictionLegal(plan: Plan, st: seq<Block>, path: seq<Bucket>, leafNode: nat, shape: Shape)
    requires Fits(plan, st, path, leafNode, shape) && PathReady(st, path, leafNode, shape)
    requires PathLegal(path, leafNode, shape)
    ensures PathLegal(EvictedPath(plan, st, path, |path| + 1, leafNode, shape), leafNode, shape)
  {
    var path' := EvictedPath(plan, st, path, |path| + 1, leafNode, shape);
    forall h, q | 0 <= h < |path'| && 0 <= q < |path'[h]| && !IsBlockDummy(path'[h][q], shape.gN)
      ensures ShiftBy(path'[h][q].treeLabel + shape.N, h) == ShiftBy(leafNode, h)
    {
      var l := |path| - h;
      assert path'[h] == EvictedBucket(plan, st, path, l, leafNode, shape);
      if plan.Incoming(l) && q == plan.targetPosition[l] {
        IncomingFits(plan, st, path, l, leafNode, shape);
        TakenReaches(plan, st, path, plan.deepest[l], leafNode, shape);
      } else {
        assert path'[h][q] == path[h][q];
      }
    }
  }

  lemma TakenReaches(plan: Plan, st: seq<Block>, path: seq<Bucket>, s: nat, leafNode: nat, shape: Shape)
    requires Fits(plan, st, path, leafNode, shape) && PathReady(st, path, leafNode, shape)
    requires s < |path| + 1 && plan.target[s] != -1
    ensures Takes(plan, st, path, s, leafNode, shape) && plan.target[s] <= shape.D + 1
    ensures Eligible(Taken(plan, st, path, s), ShiftBy(leafNode, shape.D + 1 - plan.target[s]), shape.D + 1 - plan.target[s], shape)
  {
    assert Takes(plan, st, path, s, leafNode, shape);
    var b := Taken(plan, st, path, s);
    if s > 0 {
      assert View(st, path)[s] == FromLast(path[|path| - s]);
    }
    ReachExact(b, leafNode, shape, plan.target[s]);
  }

  // ----- Every move is made -----

  /** The pass from st, path to st', path': every block named for a move is in the slot named for it; a slot given up and
      not refilled holds a dummy; every other slot is as before. */
  ghost predicate MovesMade(st: seq<Block>, path: seq<Bucket>, st': seq<Block>, path': seq<Bucket>, target: seq<int>,
                            deepestPosition: seq<int>, targetPosition: seq<int>, gN: nat)
  {
    && |st'| == |st| && |path'| == |path| && |target| == |deepestPosition| == |targetPosition| == |path| + 1
    && (forall s :: 0 <= s <= |path| && target[s] != -1 ==>
          Arrived(st, path, path', s, target[s], deepestPosition, targetPosition))
    && (forall k :: 0 <= k < |st| ==>
          st'[k] == if target[0] != -1 && k == deepestPosition[0] then st[k].(id := gN) else st[k])
    && (forall l :: 1 <= l <= |path| ==> RestKept(path, path', l, target, deepestPosition, targetPosition, gN))
  }

  /** The block that deepestPosition names at level s, in a bucket by its number from the last slot, is in the slot that
      targetPosition names at level d. */
  ghost predicate Arrived(st: seq<Block>, path: seq<Bucket>, path': seq<Bucket>, s: nat, d: int,
                          deepestPosition: seq<int>, targetPosition: seq<int>)
    requires s <= |path| == |path'| && |deepestPosition| == |targetPosition| == |path| + 1
  {
    && s < d <= |path| && 0 <= targetPosition[d] < |path'[|path| - d]|
    && 0 <= deepestPosition[s] < (if s == 0 then |st| else |path[|path| - s]|)
    && path'[|path| - d][targetPosition[d]] ==
       if s == 0 then st[deepestPosition[0]] else path[|path| - s][|path[|path| - s]| - 1 - deepestPosition[s]]
  }

  /** Where no block arrived, the slot of bucket l given up holds a dummy and the others are as before.  The slot is named
      by its number from the last one. */
  ghost predicate RestKept(path: seq<Bucket>, path': seq<Bucket>, l: nat, target: seq<int>, deepestPosition: seq<int>,
                           targetPosition: seq<int>, gN: nat)
    requires 1 <= l <= |path| == |path'| && |target| == |deepestPosition| == |targetPosition| == |path| + 1
  {
    var bucket, bucket' := path[|path| - l], path'[|path| - l];
    && |bucket'| == |bucket|
    && forall q :: 0 <= q < |bucket| && !(l in target && q == targetPosition[l]) ==>
        bucket'[q] == if target[l] != -1 && q == |bucket| - 1 - deepestPosition[l] then bucket[q].(id := gN) else bucket[q]
  }

  lemma TakenIs(plan: Plan, st: seq<Block>, path: seq<Bucket>, s: nat, leafNode: nat, shape: Shape)
    requires |path| == shape.D + 1 && BucketsSized(path, shape.Z) && Takes(plan, st, path, s, leafNode, shape)
    ensures s == 0 ==> plan.deepestPosition[0] < |st| && Taken(plan, st, path, s) == st[plan.deepestPosition[0]]
    ensures s > 0 ==>
      && plan.deepestPosition[s] < |path[|path| - s]|
      && Taken(plan, st, path, s) == path[|path| - s][|path[|path| - s]| - 1 - plan.deepestPosition[s]]
  {
    if s > 0 {
      assert View(st, path)[s] == FromLast(path[|path| - s]);
    }
  }

  lemma BlockArrives(plan: Plan, st: seq<Block>, path: seq<Bucket>, s: nat, leafNode: nat, shape: Shape)
    requires Fits(plan, st, path, leafNode, shape) && s <= |path|
    ensures |plan.target| == |plan.deepestPosition| == |plan.targetPosition| == |path| + 1
    ensures plan.target[s] != -1 ==>
      Arrived(st, path, EvictedPath(plan, st, path, |path| + 1, leafNode, shape), s, plan.target[s], plan.deepestPosition,
              plan.targetPosition)
  {
    hide View, EmptiedSlots;
    if plan.target[s] != -1 {
      var d := plan.target[s];
      assert Move(path, plan.deepest, plan.target, plan.targetPosition, s, shape.gN);
      assert Takes(plan, st, path, s, leafNode, shape);
      assert plan.Incoming(d);
      TakenIs(plan, st, path, s, leafNode, shape);
      assert EvictedPath(plan, st, path, |path| + 1, leafNode, shape)[|path| - d] == EvictedBucket(plan, st, path, d, leafNode, shape);
    }
  }

  lemma BucketRest(plan: Plan, st: seq<Block>, path: seq<Bucket>, l: nat, leafNode: nat, shape: Shape)
    requires Fits(plan, st, path, leafNode, shape) && 1 <= l <= |path|
    ensures |plan.target| == |plan.deepestPosition| == |plan.targetPosition| == |path| + 1
    ensures RestKept(path, EvictedPath(plan, st, path, |path| + 1, leafNode, shape), l, plan.target, plan.deepestPosition,
                     plan.targetPosition, shape.gN)
  {
    hide View;
    assert EvictedPath(plan, st, path, |path| + 1, leafNode, shape)[|path| - l] == EvictedBucket(plan, st, path, l, leafNode, shape);
    if plan.Incoming(l) {
      assert plan.target[plan.deepest[l]] == l;
    }
  }

  /** Executing a fitting plan makes every move of it, and nothing but the moves. */
  lemma EvictionMoves(plan: Plan, st: seq<Block>, path: seq<Bucket>, leafNode: nat, shape: Shape)
    requires Fits(plan, st, path, leafNode, shape)
    ensures MovesMade(st, path, EvictedStash(plan, st, shape.gN), EvictedPath(plan, st, path, |path| + 1, leafNode, shape),
                      plan.target, plan.deepestPosition, plan.targetPosition, shape.gN)
  {
    hide Fits, EvictedPath, Arrived, RestKept;
    var path' := EvictedPath(plan, st, path, |path| + 1, leafNode, shape);
    BlockArrives(plan, st, path, 0, leafNode, shape);
    forall s: nat | s <= |path| && plan.target[s] != -1
      ensures Arrived(st, path, path', s, plan.target[s], plan.deepestPosition, plan.targetPosition)
    {
      BlockArrives(plan, st, path, s, leafNode, shape);
    }
    forall l: nat | 1 <= l <= |path|
      ensures RestKept(path, path', l, plan.target, plan.deepestPosition, plan.targetPosition, shape.gN)
    {
      BucketRest(plan, st, path, l, leafNode, shape);
    }
  }

  // ----- One round of EvictOnceFast -----

  /** On arrival at level i, hold is the target of the block picked up on the way, or -1. */
  ghost predicate Holding(plan: Plan, st: seq<Block>, path: seq<Bucket>, i: nat, hold: int, held: Block,
                          leafNode: nat, shape: Shape)
    requires Fits(plan, st, path, leafNode, shape) && i <= |plan.target|
  {
    var s := Holder(plan.target, i);
    if s == -1 then hold == -1
    else hold == plan.target[s] && Takes(plan, st, path, s, leafNode, shape) && held == Taken(plan, st, path, s)
  }

  lemma StashTakes(plan: Plan, st: seq<Block>, path: seq<Bucket>, leafNode: nat, shape: Shape)
    requires Fits(plan, st, path, leafNode, shape)
    ensures |plan.target| == |plan.deepestPosition| == shape.D + 2 == |path| + 1
    ensures plan.target[0] != -1 ==> 0 <= plan.deepestPosition[0] < |st| && !IsBlockDummy(st[plan.deepestPosition[0]], shape.gN)
    ensures plan.target[0] == -1 || Takes(plan, st, path, 0, leafNode, shape)
    ensures EvictedPath(plan, st, path, 1, leafNode, shape) == path
  {
  }

  lemma HoldsFromStash(plan: Plan, st: seq<Block>, path: seq<Bucket>, hold: int, held: Block, leafNode: nat,
                       shape: Shape)
    requires Fits(plan, st, path, leafNode, shape) && hold == plan.target[0]
    requires hold != -1 ==> 0 <= plan.deepestPosition[0] < |st| && held == st[plan.deepestPosition[0]]
    ensures Holding(plan, st, path, 1, hold, held, leafNode, shape)
  {
    assert Holder(plan.target, 1) == if plan.target[0] != -1 then 0 else -1;
  }

  /** What round i starts from: the bucket is still the old one, a block is delivered to it exactly when one is held
      for it, and nothing is held when it gives up a block. */
  lemma RoundPlan(plan: Plan, st: seq<Block>, path: seq<Bucket>, i: nat, hold: int, held: Block, leafNode: nat,
                  shape: Shape)
    requires Fits(plan, st, path, leafNode, shape) && 1 <= i <= shape.D + 1
    requires Holding(plan, st, path, i, hold, held, leafNode, shape)
    ensures |path| == shape.D + 1 && |plan.target| == |plan.deepestPosition| == |plan.targetPosition| == shape.D + 2
    ensures EvictedPath(plan, st, path, i, leafNode, shape)[|path| - i] == path[|path| - i] && |path[|path| - i]| == shape.Z
    ensures plan.target[i] != -1 ==> (hold == -1 || hold == i) && 0 <= plan.deepestPosition[i] < shape.Z
    ensures hold == i <==> plan.Incoming(i)
    ensures plan.Incoming(i) ==> 0 <= plan.targetPosition[i] < shape.Z
  {
    HolderStep(path, plan.deepest, plan.target, plan.targetPosition, shape.gN, i);
    assert View(st, path)[i] == FromLast(path[|path| - i]);
    if plan.target[i] != -1 {
      assert Takes(plan, st, path, i, leafNode, shape);
    }
    if plan.Incoming(i) {
      IncomingFits(plan, st, path, i, leafNode, shape);
    }
  }

  /** What round i leaves, given what its steps have done. */
  lemma RoundDone(plan: Plan, st: seq<Block>, path: seq<Bucket>, i: nat, hold: int, held: Block, hold': int,
                  held': Block,
                  bucket': Bucket, leafNode: nat, shape: Shape)
    requires Fits(plan, st, path, leafNode, shape) && 1 <= i <= shape.D + 1
    requires Holding(plan, st, path, i, hold, held, leafNode, shape)
    requires hold == i ==> 0 <= plan.targetPosition[i] < shape.Z
    requires bucket' == (var emptied := EmptiedSlots(plan, path[|path| - i], i, shape.gN);
                         if hold == i then emptied[plan.targetPosition[i] := held] else emptied)
    requires plan.target[i] != -1 ==> 0 <= plan.deepestPosition[i] < shape.Z
    requires if plan.target[i] != -1 then hold' == plan.target[i] && held' == path[|path| - i][shape.Z - 1 - plan.deepestPosition[i]]
             else if hold == i then hold' == -1
             else hold' == hold && held' == held
    ensures EvictedPath(plan, st, path, i + 1, leafNode, shape) ==
            EvictedPath(plan, st, path, i, leafNode, shape)[|path| - i := bucket']
    ensures Holding(plan, st, path, i + 1, hold', held', leafNode, shape)
  {
    HolderStep(path, plan.deepest, plan.target, plan.targetPosition, shape.gN, i);
    HolderIs(path, plan.deepest, plan.target, plan.targetPosition, shape.gN, i);
    assert View(st, path)[i] == FromLast(path[|path| - i]);
    assert bucket' == EvictedBucket(plan, st, path, i, leafNode, shape);
    if plan.target[i] != -1 {
      assert Takes(plan, st, path, i, leafNode, shape);
    }
  }

  /** After the last round nothing is held. */
  lemma HeldNothing(plan: Plan, st: seq<Block>, path: seq<Bucket>, hold: int, held: Block, leafNode: nat, shape: Shape)
    requires Fits(plan, st, path, leafNode, shape) && |plan.target| == shape.D + 2
    requires Holding(plan, st, path, shape.D + 2, hold, held, leafNode, shape)
    ensures hold == -1
  {
    HolderAtEnd(plan, st, path, leafNode, shape);
  }

  // ----- The metadata scans make a plan that fits -----

  lemma DeepestRange(view: seq<seq<Block>>, n: nat, deepest: seq<int>, position: seq<int>, leafNode: nat, shape: Shape)
    requires DeepestUpTo(view, n, deepest, position, leafNode, shape)
    ensures forall i :: 1 <= i < n ==> -1 <= deepest[i] < i
  {
    forall i | 1 <= i < n
      ensures -1 <= deepest[i] < i
    {
      assert DeepestAt(view, i, deepest[i], position, leafNode, shape);
    }
  }

  lemma PlanFits(plan: Plan, st: seq<Block>, path: seq<Bucket>, leafNode: nat, shape: Shape)
    requires |path| == shape.D + 1 && BucketsSized(path, shape.Z) && |plan.deepestPosition| == |path| + 1
    requires DeepestUpTo(View(st, path), shape.D + 2, plan.deepest, plan.deepestPosition, leafNode, shape)
    requires Moves(path, plan.deepest, plan.target, plan.targetPosition, 0, shape.gN)
    ensures Fits(plan, st, path, leafNode, shape)
  {
    forall s | 0 <= s < |plan.target| && plan.target[s] != -1
      ensures Takes(plan, st, path, s, leafNode, shape)
    {
      assert Move(path, plan.deepest, plan.target, plan.targetPosition, s, shape.gN);
      assert DeepestAt(View(st, path), plan.target[s], plan.deepest[plan.target[s]], plan.deepestPosition, leafNode, shape);
    }
  }
}
