/** The two metadata scans of Circuit ORAM.  Level 0 is the stash, level 1 the root bucket and level D+1 the leaf
    bucket of the eviction path; the serialized path is stored leaf first. */
module CircuitMetadata {
  import opened TreePaths
  import opened Blocks
  import opened PathLevel

  // ----- How deep a block may go -----

  /** How many steps above their leaves two root paths meet. */
  function Meet(a: nat, b: nat): nat
    decreases a + b
  {
    if a == b then 0 else 1 + Meet(a / 2, b / 2)
  }

  lemma {:induction false} MeetExact(a: nat, b: nat, j: nat)
    ensures ShiftBy(a, j) == ShiftBy(b, j) <==> Meet(a, b) <= j
    decreases a + b
  {
    if a == b {
    } else if j > 0 {
      MeetExact(a / 2, b / 2, j - 1);
      ShiftByStep(a, j - 1);
      ShiftByStep(b, j - 1);
    }
  }

  lemma MeetBound(a: nat, b: nat, d: nat)
    requires Pow2(d) <= a < 2 * Pow2(d) && Pow2(d) <= b < 2 * Pow2(d)
    ensures Meet(a, b) <= d
  {
    ShiftByRange(a, d, d);
    ShiftByRange(b, d, d);
    MeetExact(a, b, d);
  }

  /** The deepest level of the path to leafNode that a real block may sit in; 0 for a dummy. */
  function Reach(b: Block, leafNode: nat, shape: Shape): (r: nat)
    ensures r <= shape.D + 1
  {
    var h := Meet(b.treeLabel + shape.N, leafNode);
    if IsBlockDummy(b, shape.gN) || h > shape.D then 0 else shape.D + 1 - h
  }

  /** A real block may sit at level i of the path exactly when it reaches that far. */
  lemma ReachExact(b: Block, leafNode: nat, shape: Shape, i: nat)
    requires shape.Valid() && shape.IsLeafBucket(leafNode) && b.treeLabel < shape.N && !IsBlockDummy(b, shape.gN)
    requires 1 <= i <= shape.D + 1
    ensures Reach(b, leafNode, shape) >= 1
    ensures Eligible(b, ShiftBy(leafNode, shape.D + 1 - i), shape.D + 1 - i, shape) <==> i <= Reach(b, leafNode, shape)
  {
    MeetBound(b.treeLabel + shape.N, leafNode, shape.D);
    MeetExact(b.treeLabel + shape.N, leafNode, shape.D + 1 - i);
  }

  // ----- Stash and path as levels -----

  /** The blocks of a bucket in the order in which prepare_deepest counts them: from the last slot down. */
  function FromLast(bucket: Bucket): (r: Bucket)
    ensures |r| == |bucket|
    ensures forall k :: 0 <= k < |bucket| ==> r[k] == bucket[|bucket| - 1 - k]
  {
    seq(|bucket|, k requires 0 <= k < |bucket| => bucket[|bucket| - 1 - k])
  }

  /** view[0] is the stash, view[l] the bucket at level l of the path. */
  function View(st: seq<Block>, path: seq<Bucket>): (view: seq<seq<Block>>)
    ensures |view| == |path| + 1 && view[0] == st
    ensures forall l :: 1 <= l <= |path| ==> view[l] == FromLast(path[|path| - l])
  {
    [st] + seq(|path|, l requires 0 <= l < |path| => FromLast(path[|path| - 1 - l]))
  }

  /** The reach that the scan counts: blocks that cannot leave their level are passed over. */
  function Counted(b: Block, l: nat, leafNode: nat, shape: Shape): (r: nat)
  {
    var r := Reach(b, leafNode, shape);
    if r > l then r else 0
  }

  /** Every slot before (l, k) in the scan counts at most r; before (s, t) all count less than r. */
  ghost predicate Bounded(view: seq<seq<Block>>, l: nat, k: nat, r: nat, leafNode: nat, shape: Shape) {
    forall a, b :: 0 <= a < |view| && 0 <= b < |view[a]| && (a < l || (a == l && b < k)) ==>
      Counted(view[a][b], a, leafNode, shape) <= r
  }

  /** Slot (s, t) is the first to count r >= 1. */
  ghost predicate FirstWith(view: seq<seq<Block>>, s: nat, t: nat, r: nat, leafNode: nat, shape: Shape) {
    && s < |view| && t < |view[s]| && r >= 1
    && Counted(view[s][t], s, leafNode, shape) == r
    && forall a, b :: 0 <= a < |view| && 0 <= b < |view[a]| && (a < s || (a == s && b < t)) ==>
        Counted(view[a][b], a, leafNode, shape) < r
  }

  /** What the documentation of prepare_deepest promises for level i >= 1: deepest is -1 when no real block above
      level i may sit at level i; otherwise it is the level closest to the root that holds a block of greatest reach
      among those above i, and position names such a block in it. */
  ghost predicate DeepestAt(view: seq<seq<Block>>, i: nat, deepest: int, position: seq<int>, leafNode: nat,
                            shape: Shape)
  {
    if deepest == -1 then
      forall a, b :: 0 <= a < |view| && a < i && 0 <= b < |view[a]| ==> Reach(view[a][b], leafNode, shape) < i
    else
      && 0 <= deepest < i && deepest < |view| && deepest < |position|
      && 0 <= position[deepest] < |view[deepest]|
      && var r := Reach(view[deepest][position[deepest]], leafNode, shape);
         && i <= r
         && (forall a, b :: 0 <= a < |view| && a < i && 0 <= b < |view[a]| ==> Reach(view[a][b], leafNode, shape) <= r)
         && (forall a, b :: 0 <= a < |view| && a < deepest && 0 <= b < |view[a]| ==> Reach(view[a][b], leafNode, shape) < r)
  }

  // ----- prepare_deepest -----

  /** -1 as the compiler sees it where an int32_t meets a uint32_t. */
  function Unsigned(v: int): int {
    if v < 0 then v + 0x1_0000_0000 else v
  }

  /** What the scan knows once every slot before (l, k) is done: r is the greatest reach counted, first in slot
      (s, t); r is 0 when nothing has been counted. */
  ghost predicate Scanned(view: seq<seq<Block>>, l: nat, k: nat, r: nat, s: nat, t: nat, localDeepest: nat,
                          position: seq<int>, leafNode: nat, shape: Shape)
  {
    && Bounded(view, l, k, r, leafNode, shape)
    && r <= shape.D + 1
    && localDeepest == (if r == 0 then 0 else ShiftBy(leafNode, shape.D + 1 - r))
    && (r > 0 ==> FirstWith(view, s, t, r, leafNode, shape) && s <= l && s < |position| && position[s] == t)
  }

  /** goal is the greatest reach counted and src its level, while that reach is beyond level l. */
  ghost predicate GoalSet(l: int, r: nat, s: nat, goal: int, src: int) {
    if r > l then goal == r && src == s else goal == -1
  }

  /** One more slot: it becomes the first with the greatest reach, or changes nothing. */
  lemma ScannedSlot(view: seq<seq<Block>>, l: nat, k: nat, r: nat, s: nat, t: nat, localDeepest: nat,
                    position: seq<int>, leafNode: nat, shape: Shape)
    requires shape.Valid() && shape.IsLeafBucket(leafNode)
    requires l < |view| && k < |view[l]| && l < |position|
    requires Scanned(view, l, k, r, s, t, localDeepest, position, leafNode, shape)
    ensures var c := Counted(view[l][k], l, leafNode, shape);
      if c > 0 && ShiftBy(leafNode, shape.D + 1 - c) > localDeepest
      then c > r && Scanned(view, l, k + 1, c, l, k, ShiftBy(leafNode, shape.D + 1 - c), position[l := k], leafNode, shape)
      else c <= r && Scanned(view, l, k + 1, r, s, t, localDeepest, position, leafNode, shape)
  {
    var c := Counted(view[l][k], l, leafNode, shape);
    if 0 < c < r {
      ShiftByInjective(leafNode, shape.D, shape.D + 1 - r, shape.D + 1 - c);
    } else if 0 < r < c {
      ShiftByInjective(leafNode, shape.D, shape.D + 1 - c, shape.D + 1 - r);
    }
    if c > 0 {
      ShiftByRange(leafNode, shape.D, shape.D + 1 - c);
    }
  }

  /** At the start of level i the scan so far determines deepest[i]. */
  lemma ScannedDeepest(view: seq<seq<Block>>, i: nat, r: nat, s: nat, t: nat, localDeepest: nat,
                       position: seq<int>, leafNode: nat, shape: Shape)
    requires 1 <= i && Scanned(view, i, 0, r, s, t, localDeepest, position, leafNode, shape)
    requires r > 0 ==> s < i
    ensures DeepestAt(view, i, if r >= i then s else -1, position, leafNode, shape)
  {
    forall a, b | 0 <= a < |view| && a < i && 0 <= b < |view[a]|
      ensures Reach(view[a][b], leafNode, shape) <= a || Reach(view[a][b], leafNode, shape) <= r
    {
      assert Counted(view[a][b], a, leafNode, shape) <= r;
    }
    if r >= i {
      forall a, b | 0 <= a < |view| && a < s && 0 <= b < |view[a]|
        ensures Reach(view[a][b], leafNode, shape) < r
      {
        assert Counted(view[a][b], a, leafNode, shape) < r;
      }
    }
  }

  ghost predicate DeepestUpTo(view: seq<seq<Block>>, n: nat, deepest: seq<int>, position: seq<int>, leafNode: nat,
                              shape: Shape) {
    n <= |deepest| && forall i :: 1 <= i < n ==> DeepestAt(view, i, deepest[i], position, leafNode, shape)
  }

  lemma ScannedReach(view: seq<seq<Block>>, l: nat, k: nat, r: nat, s: nat, t: nat, localDeepest: nat,
                     position: seq<int>, leafNode: nat, shape: Shape)
    requires Scanned(view, l, k, r, s, t, localDeepest, position, leafNode, shape)
    ensures r <= shape.D + 1
  {
  }

  lemma DeepestExtended(view: seq<seq<Block>>, i: nat, deepest: seq<int>, deepest': seq<int>, position: seq<int>,
                        leafNode: nat, shape: Shape)
    requires DeepestUpTo(view, i, deepest, position, leafNode, shape) && i < |deepest'| == |deepest|
    requires forall j :: 0 <= j < i ==> deepest'[j] == deepest[j]
    requires DeepestAt(view, i, deepest'[i], position, leafNode, shape)
    ensures DeepestUpTo(view, i + 1, deepest', position, leafNode, shape)
  {
  }

  /** deepest[j] speaks of positions at levels above j only. */
  lemma DeepestFrame(view: seq<seq<Block>>, n: nat, deepest: seq<int>, position: seq<int>, position': seq<int>,
                     leafNode: nat, shape: Shape)
    requires DeepestUpTo(view, n, deepest, position, leafNode, shape) && |position'| == |position|
    requires forall j :: 0 <= j < n - 1 && j < |position| ==> position'[j] == position[j]
    ensures DeepestUpTo(view, n, deepest, position', leafNode, shape)
  {
    forall i | 1 <= i < n
      ensures DeepestAt(view, i, deepest[i], position', leafNode, shape)
    {
      assert DeepestAt(view, i, deepest[i], position, leafNode, shape);
    }
  }

  ghost predicate PathReady(st: seq<Block>, path: seq<Bucket>, leafNode: nat, shape: Shape) {
    && shape.Valid() && shape.IsLeafBucket(leafNode)
    && |path| == shape.D + 1 && BucketsSized(path, shape.Z)
    && (forall k :: 0 <= k < |st| && !IsBlockDummy(st[k], shape.gN) ==> st[k].treeLabel < shape.N)
    && (forall h, q :: 0 <= h < |path| && 0 <= q < |path[h]| && !IsBlockDummy(path[h][q], shape.gN) ==> path[h][q].treeLabel < shape.N)
  }

  lemma PathReadySized(st: seq<Block>, path: seq<Bucket>, leafNode: nat, shape: Shape)
    requires PathReady(st, path, leafNode, shape)
    ensures |path| == shape.D + 1 && BucketsSized(path, shape.Z)
  {
  }

  /** The body of the scan for one slot of level i.  The loop walks from the leaf towards level i + 1 along the
      block's own path and the eviction path; where they meet, if that is deeper than any meeting so far, the slot is
      noted. */
  method ScanSlot(b: Block, i: nat, k: nat, leafNode: nat, shape: Shape, localDeepest: nat, goal: int, src: int,
                  position: array<int>)
    returns (localDeepest': nat, goal': int, src': int)
    requires shape.Valid() && shape.IsLeafBucket(leafNode) && i <= shape.D + 1 && i < position.Length
    requires !IsBlockDummy(b, shape.gN) ==> b.treeLabel < shape.N
    requires goal == -1 || i < goal <= shape.D + 1 < 0x8000_0000
    requires Counted(b, i, leafNode, shape) > 0 && ShiftBy(leafNode, shape.D + 1 - Counted(b, i, leafNode, shape)) > localDeepest
             ==> Counted(b, i, leafNode, shape) > goal
    modifies position
    ensures var c := Counted(b, i, leafNode, shape);
      if c > 0 && ShiftBy(leafNode, shape.D + 1 - c) > localDeepest
      then && position[..] == old(position[..])[i := k] && localDeepest' == ShiftBy(leafNode, shape.D + 1 - c)
           && goal' == c && src' == i
      else && position[..] == old(position[..]) && localDeepest' == localDeepest && goal' == goal && src' == src
  {
    var l1, l2 := b.treeLabel + shape.N, leafNode;
    ghost var h := Meet(l1, l2);
    var iterPosition, found := shape.D + 1, 0;
    localDeepest' := localDeepest;
    for j := 0 to shape.D + 1 - i
      invariant l1 == ShiftBy(b.treeLabel + shape.N, j) && l2 == ShiftBy(leafNode, j)
      invariant iterPosition == shape.D + 1 - j
      invariant if !IsBlockDummy(b, shape.gN) && h < j && ShiftBy(leafNode, h) > localDeepest
                then found == shape.D + 1 - h && localDeepest' == ShiftBy(leafNode, h) && position[..] == old(position[..])[i := k]
                else found == 0 && localDeepest' == localDeepest && position[..] == old(position[..])
    {
      MeetExact(b.treeLabel + shape.N, leafNode, j);
      if h < j {
        ShiftByAdd(leafNode, h, j - h);
      }
      var flagDeepest := l1 == l2 && !IsBlockDummy(b, shape.gN) && l1 > localDeepest';
      if flagDeepest {
        localDeepest' := l1;
        position[i] := k;
        found := iterPosition;
      }
      l1, l2 := l1 / 2, l2 / 2;
      iterPosition := iterPosition - 1;
    }
    goal', src' := goal, src;
    if found > Unsigned(goal) {
      position[i] := k;
    }
    if found > goal && found > i {
      src', goal' := i, found;
    }
  }

  // ----- prepare_target -----

  ghost predicate HasDummy(bucket: Bucket, gN: nat) {
    exists q :: 0 <= q < |bucket| && IsBlockDummy(bucket[q], gN)
  }

  /** position names the first free slot of the bucket. */
  ghost predicate FirstFree(bucket: Bucket, position: int, gN: nat) {
    && 0 <= position < |bucket| && IsBlockDummy(bucket[position], gN)
    && forall q :: 0 <= q < position ==> !IsBlockDummy(bucket[q], gN)
  }

  /** target[s] = d moves a block from level s down to level d: s is the level deepest[d] names, and bucket d has a
      free slot. */
  ghost predicate Move(path: seq<Bucket>, deepest: seq<int>, target: seq<int>, targetPosition: seq<int>, s: nat,
                       gN: nat) {
    && s < |target| == |deepest| == |targetPosition| == |path| + 1
    && (target[s] == -1 ||
        (&& s < target[s] <= |path| && deepest[target[s]] == s
         && FirstFree(path[|path| - target[s]], targetPosition[target[s]], gN)))
  }

  /** The moves from levels at and below n. */
  ghost predicate Moves(path: seq<Bucket>, deepest: seq<int>, target: seq<int>, targetPosition: seq<int>, n: nat,
                        gN: nat) {
    && |target| == |deepest| == |targetPosition| == |path| + 1
    && (forall s :: n <= s < |target| ==> Move(path, deepest, target, targetPosition, s, gN))
    && (forall s, u :: n <= s < u < |target| && target[s] != -1 && target[u] != -1 ==> target[s] <= u)
  }

  /** Level d is crossed or reached by a move from a level at or below n. */
  ghost predicate Served(target: seq<int>, n: nat, d: nat) {
    exists s :: n <= s < d && s < |target| && d <= target[s]
  }

  /** Every level that has a free slot and a block to fill it is crossed or reached by a move. */
  ghost predicate AllServed(path: seq<Bucket>, deepest: seq<int>, target: seq<int>, gN: nat) {
    && |target| == |deepest| == |path| + 1
    && forall d :: 1 <= d <= |path| && HasDummy(path[|path| - d], gN) && deepest[d] != -1 ==> Served(target, 0, d)
  }

  /** The move still looking for its source: it ends at level dest and its source src is above level n. */
  ghost predicate Pending(path: seq<Bucket>, deepest: seq<int>, target: seq<int>, targetPosition: seq<int>, n: nat,
                          src: int, dest: int, gN: nat) {
    && |target| == |deepest| == |targetPosition| == |path| + 1
    && (dest == -1 <==> src == -1)
    && (dest != -1 ==>
          && 1 <= dest && n <= dest <= |path| && 0 <= src == deepest[dest] && src < dest && src < n
          && FirstFree(path[|path| - dest], targetPosition[dest], gN)
          && forall s :: n <= s < |target| && target[s] != -1 ==> dest <= s)
  }

  /** Levels from n on are served by the moves made or by the pending one. */
  ghost predicate ServedFrom(path: seq<Bucket>, deepest: seq<int>, target: seq<int>, n: nat, src: int, dest: int,
                             gN: nat) {
    && |target| == |deepest| == |path| + 1
    && forall d :: 1 <= d <= |path| && n <= d && HasDummy(path[|path| - d], gN) && deepest[d] != -1 ==>
        Served(target, n, d) || (dest != -1 && src < d <= dest)
  }

  /** Setting target[i], for the level i above all settled ones. */
  lemma MovesExtended(path: seq<Bucket>, deepest: seq<int>, target: seq<int>, target': seq<int>,
                      targetPosition: seq<int>, i: nat,
                      src: int, dest: int, gN: nat)
    requires Moves(path, deepest, target, targetPosition, i + 1, gN) && i < |target|
    requires Pending(path, deepest, target, targetPosition, i + 1, src, dest, gN)
    requires target' == target[i := if i == src then dest else -1]
    ensures Moves(path, deepest, target', targetPosition, i, gN)
    ensures i == src || Pending(path, deepest, target', targetPosition, i, src, dest, gN) 
  {
    forall s | i <= s < |target'|
      ensures Move(path, deepest, target', targetPosition, s, gN)
    {
      if s > i {
        assert Move(path, deepest, target, targetPosition, s, gN);
      }
    }
  }

  lemma ServedExtended(path: seq<Bucket>, deepest: seq<int>, target: seq<int>, target': seq<int>, i: nat,
                       src: int, dest: int, gN: nat)
    requires ServedFrom(path, deepest, target, i + 1, src, dest, gN) && i < |target|
    requires target' == target[i := if i == src then dest else -1]
    ensures forall d :: i < d <= |path| && HasDummy(path[|path| - d], gN) && deepest[d] != -1 ==>
      Served(target', i, d) || (i != src && dest != -1 && src < d <= dest)
  {
    forall d | i < d <= |path| && HasDummy(path[|path| - d], gN) && deepest[d] != -1
      ensures Served(target', i, d) || (i != src && dest != -1 && src < d <= dest)
    {
      if Served(target, i + 1, d) {
        var s :| i + 1 <= s < d && s < |target| && d <= target[s];
        assert target'[s] == target[s];
      } else if i == src {
        assert target'[i] == dest;
      }
    }
  }

  /** The free slot found in bucket i does not concern the moves from levels at or below i. */
  lemma MovesFrame(path: seq<Bucket>, deepest: seq<int>, target: seq<int>, position: seq<int>, position': seq<int>,
                   i: nat,
                   src: int, dest: int, gN: nat)
    requires Moves(path, deepest, target, position, i, gN) && |position'| == |position|
    requires forall j :: 0 <= j < |position| && j != i ==> position'[j] == position[j]
    ensures Moves(path, deepest, target, position', i, gN)
    ensures Pending(path, deepest, target, position, i, src, dest, gN) && dest != i ==> Pending(path, deepest, target, position', i, src, dest, gN)
  {
    forall s | i <= s < |target|
      ensures Move(path, deepest, target, position', s, gN)
    {
      assert Move(path, deepest, target, position, s, gN);
    }
  }
}
