/** The eviction pass of Circuit ORAM: prepare_deepest, prepare_target and EvictOnceFast over the serialized
    eviction path, as EvictionRoutine chains them for one path. */
module CircuitORAM {
  import opened TreePaths
  import opened Blocks
  import opened PathLevel
  import opened CircuitMetadata
  import opened CircuitEviction
  import S = Stash

  class CircuitORAM {
    const shape: Shape
    const deepest: array<int>
    const target: array<int>
    const deepestPosition: array<int>
    const targetPosition: array<int>
    var serializedBlockHold: Block
    var serializedBlockWrite: Block

    ghost predicate Valid() {
      && shape.Valid() && shape.D + 1 < 0x8000_0000
      && deepest.Length == target.Length == deepestPosition.Length == targetPosition.Length == shape.D + 2
      && deepest != target && deepest != deepestPosition && deepest != targetPosition
      && target != deepestPosition && target != targetPosition && deepestPosition != targetPosition
    }

    /** The arrays are allocated for the largest depth. */
    constructor (shape: Shape)
      requires shape.Valid() && shape.D + 1 < 0x8000_0000
      ensures Valid() && this.shape == shape
      ensures fresh(deepest) && fresh(target) && fresh(deepestPosition) && fresh(targetPosition)
    {
      this.shape := shape;
      deepest := new int[shape.D + 2](_ => 0);
      target := new int[shape.D + 2](_ => 0);
      deepestPosition := new int[shape.D + 2](_ => 0);
      targetPosition := new int[shape.D + 2](_ => 0);
      serializedBlockHold := Block(shape.gN, 0, []);
      serializedBlockWrite := Block(shape.gN, 0, []);
    }

    /** The scan of the stash. */
    method ScanStash(leafNode: nat, stash: S.Stash, ghost path: seq<Bucket>)
      returns (localDeepest: nat, goal: int, src: int, ghost r: nat, ghost s: nat, ghost t: nat)
      requires Valid() && PathReady(stash.blocks, path, leafNode, shape)
      modifies deepestPosition
      ensures Scanned(View(stash.blocks, path), 1, 0, r, s, t, localDeepest, deepestPosition[..], leafNode, shape)
      ensures GoalSet(0, r, s, goal, src) && s == 0
    {
      ghost var view := View(stash.blocks, path);
      localDeepest, goal, src := 0, -1, -1;
      r, s, t := 0, 0, 0;
      for k := 0 to |stash.blocks|
        invariant Scanned(view, 0, k, r, s, t, localDeepest, deepestPosition[..], leafNode, shape)
        invariant GoalSet(0, r, s, goal, src) && s == 0
      {
        hide Scanned, Counted, View;
        ScannedSlot(view, 0, k, r, s, t, localDeepest, deepestPosition[..], leafNode, shape);
        ghost var c := Counted(view[0][k], 0, leafNode, shape);
        if c > 0 && ShiftBy(leafNode, shape.D + 1 - c) > localDeepest {
          r, s, t := c, 0, k;
        }
        localDeepest, goal, src := ScanSlot(stash.blocks[k], 0, k, leafNode, shape, localDeepest, goal, src, deepestPosition);
      }
    }

    /** The scan of the bucket at level i, from its last slot down. */
    method ScanBucket(leafNode: nat, i: nat, bucket: Bucket, ghost view: seq<seq<Block>>,
                      localDeepest0: nat, goal0: int, src0: int, ghost r0: nat, ghost s0: nat, ghost t0: nat)
      returns (localDeepest: nat, goal: int, src: int, ghost r: nat, ghost s: nat, ghost t: nat)
      requires Valid() && shape.IsLeafBucket(leafNode) && 1 <= i <= shape.D + 1
      requires |bucket| == shape.Z && i < |view| && view[i] == FromLast(bucket)
      requires forall q :: 0 <= q < |bucket| && !IsBlockDummy(bucket[q], shape.gN) ==> bucket[q].treeLabel < shape.N
      requires Scanned(view, i, 0, r0, s0, t0, localDeepest0, deepestPosition[..], leafNode, shape)
      requires GoalSet(i, r0, s0, goal0, src0) && s0 <= i
      modifies deepestPosition
      ensures Scanned(view, i + 1, 0, r, s, t, localDeepest, deepestPosition[..], leafNode, shape)
      ensures GoalSet(i, r, s, goal, src) && s <= i
      ensures forall j :: 0 <= j < i ==> deepestPosition[j] == old(deepestPosition[j])
    {
      localDeepest, goal, src := localDeepest0, goal0, src0;
      r, s, t := r0, s0, t0;
      for k := 0 to shape.Z
        invariant Scanned(view, i, k, r, s, t, localDeepest, deepestPosition[..], leafNode, shape)
        invariant GoalSet(i, r, s, goal, src) && s <= i
        invariant forall j :: 0 <= j < i ==> deepestPosition[j] == old(deepestPosition[j])
      {
        hide Scanned, Counted;
        ScannedReach(view, i, k, r, s, t, localDeepest, deepestPosition[..], leafNode, shape);
        ScannedSlot(view, i, k, r, s, t, localDeepest, deepestPosition[..], leafNode, shape);
        ghost var c := Counted(view[i][k], i, leafNode, shape);
        if c > 0 && ShiftBy(leafNode, shape.D + 1 - c) > localDeepest {
          r, s, t := c, i, k;
        }
        localDeepest, goal, src := ScanSlot(bucket[shape.Z - 1 - k], i, k, leafNode, shape, localDeepest, goal, src, deepestPosition);
      }
    }

    /** One round of prepare_deepest for a level i >= 1: settle deepest[i], then scan the bucket. */
    method SettleLevel(leafNode: nat, i: nat, bucket: Bucket, ghost view: seq<seq<Block>>,
                       localDeepest0: nat, goal0: int, src0: int, ghost r0: nat, ghost s0: nat, ghost t0: nat)
      returns (localDeepest: nat, goal: int, src: int, ghost r: nat, ghost s: nat, ghost t: nat)
      requires Valid() && shape.IsLeafBucket(leafNode) && 1 <= i <= shape.D + 1
      requires |bucket| == shape.Z && i < |view| && view[i] == FromLast(bucket)
      requires forall q :: 0 <= q < |bucket| && !IsBlockDummy(bucket[q], shape.gN) ==> bucket[q].treeLabel < shape.N
      requires Scanned(view, i, 0, r0, s0, t0, localDeepest0, deepestPosition[..], leafNode, shape)
      requires GoalSet(i - 1, r0, s0, goal0, src0) && s0 < i
      requires DeepestUpTo(view, i, deepest[..], deepestPosition[..], leafNode, shape)
      modifies deepest, deepestPosition
      ensures Scanned(view, i + 1, 0, r, s, t, localDeepest, deepestPosition[..], leafNode, shape)
      ensures GoalSet(i, r, s, goal, src) && s <= i
      ensures DeepestUpTo(view, i + 1, deepest[..], deepestPosition[..], leafNode, shape)
    {
      hide Scanned, DeepestAt, DeepestUpTo, FromLast;
      ScannedDeepest(view, i, r0, s0, t0, localDeepest0, deepestPosition[..], leafNode, shape);
      goal, src := goal0, src0;
      ghost var deepest0, position0 := deepest[..], deepestPosition[..];
      deepest[i] := -1;
      if goal >= i {
        deepest[i] := src;
      }
      if goal == i {
        src := -1;
        goal := -1;
      }
      DeepestExtended(view, i, deepest0, deepest[..], position0, leafNode, shape);
      localDeepest, goal, src, r, s, t := ScanBucket(leafNode, i, bucket, view, localDeepest0, goal, src, r0, s0, t0);
      DeepestFrame(view, i + 1, deepest[..], position0, deepestPosition[..], leafNode, shape);
    }

    /** CircuitORAM::prepare_deepest, from the stash and the root down to the leaf. */
    method PrepareDeepest(leafNode: nat, stash: S.Stash, path: array<Bucket>)
      requires Valid() && PathReady(stash.blocks, path[..], leafNode, shape)
      modifies deepest, deepestPosition
      ensures deepest[0] == -1
      ensures DeepestUpTo(View(stash.blocks, path[..]), shape.D + 2, deepest[..], deepestPosition[..], leafNode, shape)
    {
      ghost var view := View(stash.blocks, path[..]);
      var localDeepest: nat, goal: int, src: int;
      ghost var r: nat, s: nat, t: nat;
      localDeepest, goal, src, r, s, t := ScanStash(leafNode, stash, path[..]);
      for i := 1 to shape.D + 2
        invariant Scanned(view, i, 0, r, s, t, localDeepest, deepestPosition[..], leafNode, shape)
        invariant GoalSet(i - 1, r, s, goal, src) && s < i
        invariant DeepestUpTo(view, i, deepest[..], deepestPosition[..], leafNode, shape)
      {
        hide Scanned, DeepestUpTo, GoalSet;
        localDeepest, goal, src, r, s, t :=
          SettleLevel(leafNode, i, path[path.Length - i], view, localDeepest, goal, src, r, s, t);
      }
      ghost var deepest1 := deepest[..];
      deepest[0] := -1;
      assert forall i :: 1 <= i < shape.D + 2 ==> deepest[..][i] == deepest1[i];
    }

    /** The scan of bucket i for its first free slot. */
    method ScanFree(i: nat, bucket: Bucket) returns (flagEmptySlot: bool)
      requires Valid() && 1 <= i <= shape.D + 1 && |bucket| == shape.Z
      modifies targetPosition
      ensures flagEmptySlot == HasDummy(bucket, shape.gN)
      ensures flagEmptySlot ==> FirstFree(bucket, targetPosition[i], shape.gN)
      ensures forall j :: 0 <= j < targetPosition.Length && j != i ==> targetPosition[j] == old(targetPosition[j])
    {
      flagEmptySlot := false;
      var targetPositionSet := false;
      for k := 0 to shape.Z
        invariant flagEmptySlot == targetPositionSet
        invariant flagEmptySlot <==> exists q :: 0 <= q < k && IsBlockDummy(bucket[q], shape.gN)
        invariant flagEmptySlot ==> FirstFree(bucket, targetPosition[i], shape.gN)
        invariant forall j :: 0 <= j < targetPosition.Length && j != i ==> targetPosition[j] == old(targetPosition[j])
      {
        var dummyFlag := IsBlockDummy(bucket[k], shape.gN);
        flagEmptySlot := flagEmptySlot || dummyFlag;
        if dummyFlag && !targetPositionSet {
          targetPosition[i] := k;
          targetPositionSet := true;
        }
      }
    }

    /** One round of prepare_target: close the pending move if it starts here, then open one for a free slot. */
    method SettleTarget(i: nat, path: array<Bucket>, src0: int, dest0: int) returns (src: int, dest: int)
      requires Valid() && i <= path.Length == shape.D + 1 && BucketsSized(path[..], shape.Z)
      requires deepest[0] == -1 && forall j :: 1 <= j <= shape.D + 1 ==> -1 <= deepest[j] < j
      requires Moves(path[..], deepest[..], target[..], targetPosition[..], i + 1, shape.gN)
      requires Pending(path[..], deepest[..], target[..], targetPosition[..], i + 1, src0, dest0, shape.gN)
      requires ServedFrom(path[..], deepest[..], target[..], i + 1, src0, dest0, shape.gN)
      modifies target, targetPosition
      ensures Moves(path[..], deepest[..], target[..], targetPosition[..], i, shape.gN)
      ensures Pending(path[..], deepest[..], target[..], targetPosition[..], i, src, dest, shape.gN)
      ensures ServedFrom(path[..], deepest[..], target[..], i, src, dest, shape.gN)
    {
      hide FirstFree, HasDummy, Served, Move;
      src, dest := src0, dest0;
      ghost var target0, position0 := target[..], targetPosition[..];
      target[i] := -1;
      if i == src {
        target[i] := dest;
        dest := -1;
        src := -1;
      }
      MovesExtended(path[..], deepest[..], target0, target[..], position0, i, src0, dest0, shape.gN);
      ServedExtended(path[..], deepest[..], target0, target[..], i, src0, dest0, shape.gN);
      if i != 0 {
        assert path[path.Length - i] == path[..][path.Length - i];
        var flagEmptySlot := ScanFree(i, path[path.Length - i]);
        MovesFrame(path[..], deepest[..], target[..], position0, targetPosition[..], i, src, dest, shape.gN);
        var flagPt := dest == -1 && flagEmptySlot && deepest[i] != -1;
        if flagPt {
          src := deepest[i];
          dest := i;
        }
      }
    }

    /** CircuitORAM::prepare_target, from the leaf up to the stash.  deepest is as prepare_deepest leaves it. */
    method PrepareTarget(path: array<Bucket>)
      requires Valid() && path.Length == shape.D + 1 && BucketsSized(path[..], shape.Z)
      requires deepest[0] == -1 && forall i :: 1 <= i <= shape.D + 1 ==> -1 <= deepest[i] < i
      modifies target, targetPosition
      ensures Moves(path[..], deepest[..], target[..], targetPosition[..], 0, shape.gN)
      ensures AllServed(path[..], deepest[..], target[..], shape.gN)
    {
      var src, dest := -1, -1;
      for i := shape.D + 2 downto 0
        invariant Moves(path[..], deepest[..], target[..], targetPosition[..], i, shape.gN)
        invariant Pending(path[..], deepest[..], target[..], targetPosition[..], i, src, dest, shape.gN)
        invariant ServedFrom(path[..], deepest[..], target[..], i, src, dest, shape.gN)
      {
        src, dest := SettleTarget(i, path, src, dest);
      }
    }

    /** The metadata as a plan. */
    ghost function ThePlan(): Plan
      reads deepest, target, deepestPosition, targetPosition
    {
      Plan(deepest[..], target[..], deepestPosition[..], targetPosition[..])
    }

    /** Pick the block of the stash that leaves it. */
    method HoldFromStash(stash: S.Stash, hold0: int, dest0: int) returns (hold: int, dest: int)
      requires Valid() && stash.gN == shape.gN && hold0 == dest0 == -1
      requires target[0] != -1 ==> 0 <= deepestPosition[0] < |stash.blocks|
      requires target[0] != -1 ==> !IsBlockDummy(stash.blocks[deepestPosition[0]], shape.gN)
      modifies this, stash`blocks
      ensures stash.blocks == EvictedStash(ThePlan(), old(stash.blocks), shape.gN)
      ensures hold == dest == target[0]
      ensures target[0] != -1 ==> serializedBlockHold == old(stash.blocks)[deepestPosition[0]]
      ensures serializedBlockWrite == old(serializedBlockWrite)
    {
      hold, dest := hold0, dest0;
      for k := 0 to |stash.blocks|
        invariant |stash.blocks| == |old(stash.blocks)|
        invariant forall j :: 0 <= j < |stash.blocks| ==>
          stash.blocks[j] == (if j < k && ThePlan().Outgoing(0, j) then old(stash.blocks)[j].(id := shape.gN) else old(stash.blocks)[j])
        invariant if target[0] != -1 && deepestPosition[0] < k
                  then hold == dest == target[0] && serializedBlockHold == old(stash.blocks)[deepestPosition[0]]
                  else hold == dest == -1
        invariant serializedBlockWrite == old(serializedBlockWrite)
      {
        var flagHold := k == deepestPosition[0] && target[0] != -1 && !IsBlockDummy(stash.blocks[k], shape.gN);
        if flagHold {
          serializedBlockHold := stash.blocks[k];
          stash.blocks := stash.blocks[k := stash.blocks[k].(id := shape.gN)];
          dest := target[0];
          hold := target[0];
        }
      }
    }

    /** Pick the block of bucket i that leaves it, unless one is held already. */
    method HoldFromBucket(i: nat, path: array<Bucket>, hold0: int, dest0: int) returns (hold: int, dest: int)
      requires Valid() && 1 <= i <= path.Length == shape.D + 1 && |path[path.Length - i]| == shape.Z
      requires target[i] != -1 ==> hold0 == -1 && 0 <= deepestPosition[i] < shape.Z
      modifies this, path
      ensures serializedBlockWrite == old(serializedBlockWrite)
      ensures forall h :: 0 <= h < path.Length && h != path.Length - i ==> path[h] == old(path[h])
      ensures path[path.Length - i] == EmptiedSlots(ThePlan(), old(path[path.Length - i]), i, shape.gN)
      ensures if target[i] != -1
              then hold == dest == target[i] && serializedBlockHold == old(path[path.Length - i])[shape.Z - 1 - deepestPosition[i]]
              else hold == hold0 && dest == dest0 && serializedBlockHold == old(serializedBlockHold)
    {
      hold, dest := hold0, dest0;
      ghost var bucket0 := path[path.Length - i];
      for k := 0 to shape.Z
        invariant serializedBlockWrite == old(serializedBlockWrite)
        invariant forall h :: 0 <= h < path.Length && h != path.Length - i ==> path[h] == old(path[h])
        invariant |path[path.Length - i]| == shape.Z
        invariant forall q :: 0 <= q < shape.Z ==>
          path[path.Length - i][q] == (if shape.Z - 1 - q < k && ThePlan().Outgoing(i, shape.Z - 1 - q) then bucket0[q].(id := shape.gN) else bucket0[q])
        invariant if target[i] != -1 && deepestPosition[i] < k
                  then hold == dest == target[i] && serializedBlockHold == bucket0[shape.Z - 1 - deepestPosition[i]]
                  else hold == hold0 && dest == dest0 && serializedBlockHold == old(serializedBlockHold)
      {
        var flagHold := k == deepestPosition[i] && hold == -1 && target[i] != -1;
        if flagHold {
          var bucket := path[path.Length - i];
          serializedBlockHold := bucket[shape.Z - 1 - k];
          path[path.Length - i] := bucket[shape.Z - 1 - k := bucket[shape.Z - 1 - k].(id := shape.gN)];
          dest := target[i];
          hold := target[i];
        }
      }
    }

    /** Put the pending block into its slot of bucket i. */
    method WriteToBucket(i: nat, path: array<Bucket>, writeFlag0: bool) returns (writeFlag: bool)
      requires Valid() && 1 <= i <= path.Length == shape.D + 1 && |path[path.Length - i]| == shape.Z
      requires writeFlag0 ==> 0 <= targetPosition[i] < shape.Z
      modifies path
      ensures forall h :: 0 <= h < path.Length && h != path.Length - i ==> path[h] == old(path[h])
      ensures path[path.Length - i] == if writeFlag0 then old(path[path.Length - i])[targetPosition[i] := serializedBlockWrite]
                                       else old(path[path.Length - i])
      ensures !writeFlag
    {
      writeFlag := writeFlag0;
      ghost var bucket0 := path[path.Length - i];
      for k := shape.Z downto 0
        invariant forall h :: 0 <= h < path.Length && h != path.Length - i ==> path[h] == old(path[h])
        invariant if writeFlag0 && k <= targetPosition[i]
                  then !writeFlag && path[path.Length - i] == bucket0[targetPosition[i] := serializedBlockWrite]
                  else writeFlag == writeFlag0 && path[path.Length - i] == bucket0
      {
        var flagW := writeFlag && k == targetPosition[i];
        if flagW {
          path[path.Length - i] := path[path.Length - i][k := serializedBlockWrite];
          writeFlag := false;
        }
      }
    }

    /** One round of EvictOnceFast for a level i >= 1. */
    method EvictRound(i: nat, path: array<Bucket>, hold0: int, dest0: int, writeFlag0: bool) returns (hold: int,
            dest: int, writeFlag: bool)
      requires Valid() && 1 <= i <= path.Length == shape.D + 1 && |path[path.Length - i]| == shape.Z
      requires hold0 == dest0 && !writeFlag0
      requires target[i] != -1 ==> (hold0 == -1 || hold0 == i) && 0 <= deepestPosition[i] < shape.Z
      requires hold0 == i ==> 0 <= targetPosition[i] < shape.Z
      modifies this, path
      ensures forall h :: 0 <= h < path.Length && h != path.Length - i ==> path[h] == old(path[h])
      ensures path[path.Length - i] == (var emptied := EmptiedSlots(ThePlan(), old(path[path.Length - i]), i, shape.gN);
                                        if hold0 == i then emptied[targetPosition[i] := old(serializedBlockHold)] else emptied)
      ensures if target[i] != -1
              then hold == target[i] && serializedBlockHold == old(path[path.Length - i])[shape.Z - 1 - deepestPosition[i]]
              else if hold0 == i then hold == -1
              else hold == hold0 && serializedBlockHold == old(serializedBlockHold)
      ensures dest == hold && !writeFlag
    {
      hold, dest, writeFlag := hold0, dest0, writeFlag0;
      var flag1 := hold != -1 && i == dest;
      if flag1 {
        serializedBlockWrite := serializedBlockHold;
        hold := -1;
        dest := -1;
        writeFlag := true;
      }
      hold, dest := HoldFromBucket(i, path, hold, dest);
      if target[i] != -1 {
        dest := target[i];
      }
      writeFlag := WriteToBucket(i, path, writeFlag);
    }

    /** CircuitORAM::EvictOnceFast, from the stash and the root down to the leaf. */
    method EvictOnceFast(stash: S.Stash, path: array<Bucket>, ghost leafNode: nat)
      returns (hold: int, dest: int, writeFlag: bool)
      requires Valid() && stash.gN == shape.gN
      requires Fits(ThePlan(), stash.blocks, path[..], leafNode, shape)
      modifies this, stash`blocks, path
      ensures stash.blocks == EvictedStash(ThePlan(), old(stash.blocks), shape.gN)
      ensures path[..] == EvictedPath(ThePlan(), old(stash.blocks), old(path[..]), shape.D + 2, leafNode, shape)
      ensures hold == dest == -1 && !writeFlag
    {
      hide Fits, Holding, EvictedPath, EvictedBucket, EmptiedSlots, EvictedStash;
      ghost var plan, st, buckets := ThePlan(), stash.blocks, path[..];
      hold, dest, writeFlag := -1, -1, false;
      StashTakes(plan, st, buckets, leafNode, shape);
      hold, dest := HoldFromStash(stash, hold, dest);
      HoldsFromStash(plan, st, buckets, hold, serializedBlockHold, leafNode, shape);
      for i := 1 to shape.D + 2
        invariant ThePlan() == plan && stash.blocks == EvictedStash(plan, st, shape.gN)
        invariant path[..] == EvictedPath(plan, st, buckets, i, leafNode, shape)
        invariant !writeFlag && hold == dest
        invariant Holding(plan, st, buckets, i, hold, serializedBlockHold, leafNode, shape)
      {
        RoundPlan(plan, st, buckets, i, hold, serializedBlockHold, leafNode, shape);
        ghost var held, hold0, path0 := serializedBlockHold, hold, path[..];
        hold, dest, writeFlag := EvictRound(i, path, hold, dest, writeFlag);
        assert path[..] == path0[path.Length - i := path[path.Length - i]];
        RoundDone(plan, st, buckets, i, hold0, held, hold, serializedBlockHold, path[path.Length - i], leafNode, shape);
      }
      HeldNothing(plan, st, buckets, hold, serializedBlockHold, leafNode, shape);
    }

    /** The loop at the start of a pass. */
    method ResetPositions()
      requires Valid()
      modifies deepestPosition, targetPosition
      ensures forall e :: 0 <= e < shape.D + 2 ==> deepestPosition[e] == targetPosition[e] == -1
    {
      for e := 0 to shape.D + 2
        invariant forall d :: 0 <= d < e ==> deepestPosition[d] == targetPosition[d] == -1
      {
        deepestPosition[e] := -1;
        targetPosition[e] := -1;
      }
    }

    /** One eviction pass as EvictionRoutine performs it on a fetched path: reset the positions, prepare the
        metadata, evict.  Every real block keeps its number of copies in stash and path, every block of the path is
        in a bucket on the path of its own label, no block is held or pending at the end, every level that had a free slot
        and a block above it that may go there is crossed or reached by a move, and every move is made. */
    method EvictPass(stash: S.Stash, path: array<Bucket>, leafNode: nat) returns (hold: int, dest: int, writeFlag: bool)
      requires Valid() && stash.gN == shape.gN
      requires PathReady(stash.blocks, path[..], leafNode, shape) && PathLegal(path[..], leafNode, shape)
      modifies this, stash`blocks, path, deepest, target, deepestPosition, targetPosition
      ensures |stash.blocks| == |old(stash.blocks)| && |path[..]| == |old(path[..])| && BucketsSized(path[..], shape.Z)
      ensures forall c: Block :: c.id != shape.gN ==>
        CountIf(stash.blocks, Is(c)) + CountBuckets(path[..], Is(c)) ==
        CountIf(old(stash.blocks), Is(c)) + CountBuckets(old(path[..]), Is(c))
      ensures PathLegal(path[..], leafNode, shape)
      ensures hold == dest == -1 && !writeFlag
      ensures DeepestUpTo(View(old(stash.blocks), old(path[..])), shape.D + 2, deepest[..], deepestPosition[..], leafNode, shape)
      ensures Moves(old(path[..]), deepest[..], target[..], targetPosition[..], 0, shape.gN)
      ensures AllServed(old(path[..]), deepest[..], target[..], shape.gN)
      ensures MovesMade(old(stash.blocks), old(path[..]), stash.blocks, path[..], target[..], deepestPosition[..],
                        targetPosition[..], shape.gN)
    {
      hide Fits, DeepestUpTo, AllServed, Moves, MovesMade, PathReady, PathLegal, EvictedStash, EvictedPath, View;
      ResetPositions();
      ghost var st, buckets := stash.blocks, path[..];
      PathReadySized(st, buckets, leafNode, shape);
      PrepareDeepest(leafNode, stash, path);
      DeepestRange(View(st, buckets), shape.D + 2, deepest[..], deepestPosition[..], leafNode, shape);
      PrepareTarget(path);
      ghost var plan := ThePlan();
      PlanFits(plan, st, buckets, leafNode, shape);
      hold, dest, writeFlag := EvictOnceFast(stash, path, leafNode);
      forall c: Block | c.id != shape.gN
        ensures CountIf(stash.blocks, Is(c)) + CountBuckets(path[..], Is(c)) == CountIf(st, Is(c)) + CountBuckets(buckets, Is(c))
      {
        EvictionConserves(plan, st, buckets, leafNode, shape, Is(c));
      }
      EvictionLegal(plan, st, buckets, leafNode, shape);
      EvictionMoves(plan, st, buckets, leafNode, shape);
    }
  }
}
