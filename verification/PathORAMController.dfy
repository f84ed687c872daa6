/** The Path ORAM controller: an object over the on-chip position map, one stash and one storage per level.  Each
    method is proved to compute what the functions of PathLevel, PathAccess, RecursivePathORAM and ReadOnly say, and the entry
    point to behave like an array of blocks. */
module PathORAMController {
  import opened TreePaths
  import opened Blocks
  import opened PathLevel
  import opened PathAccess
  import opened RecursivePathORAM
  import opened Refinement
  import opened ReadOnly
  import opened Runs
  import opened Stash
  import S = Stash
  import LS = LocalStorage

  /** oarray_search: look the entry up and replace it, scanning the whole array. */
  method OArraySearch(array_: array<nat>, loc: nat, leaf0: nat, newLabel: nat) returns (leaf: nat)
    modifies array_
    ensures loc < array_.Length ==> leaf == old(array_[loc]) && array_[..] == old(array_[..])[loc := newLabel]
    ensures loc >= array_.Length ==> leaf == leaf0 && array_[..] == old(array_[..])
  {
    leaf := leaf0;
    for i := 0 to array_.Length
      invariant if loc < i then leaf == old(array_[loc]) && array_[..] == old(array_[..])[loc := newLabel]
                else leaf == leaf0 && array_[..] == old(array_[..])
    {
      if i == loc {
        leaf := array_[i];
        array_[i] := newLabel;
      }
    }
  }

  /** ORAMTree::PushBlocksFromPathIntoStash, and its Optimized variant when optimizedReading is set. */
  method PushBlocksFromPathIntoStash(path: array<Bucket>, stash: S.Stash, optimizedReading: bool)
    requires stash.Valid()
    modifies path, stash
    ensures stash.Valid()
    ensures stash.blocks == PushedPath(old(stash.blocks), old(path[..]), stash.gN)
    ensures stash.discard == if optimizedReading then MarkedPath(old(stash.blocks), old(stash.discard), old(path[..]), stash.gN)
                             else old(stash.discard)
    ensures path[..] == EmptiedPath(old(path[..]), stash.gN)
  {
    ghost var path0 := path[..];
    for i := 0 to path.Length
      invariant stash.Valid()
      invariant PushedPath(stash.blocks, path0[i..], stash.gN) == PushedPath(old(stash.blocks), path0, stash.gN)
      invariant if optimizedReading
                then MarkedPath(stash.blocks, stash.discard, path0[i..], stash.gN) == MarkedPath(old(stash.blocks), old(stash.discard), path0, stash.gN)
                else stash.discard == old(stash.discard)
      invariant forall j :: 0 <= j < path.Length ==> path[j] == if j < i then EmptiedBucket(path0[j], stash.gN) else path0[j]
    {
      assert path0[i..][1..] == path0[i + 1..];
      PushBucket(path, i, stash, optimizedReading);
    }
  }

  /** The slots of one bucket of the path. */
  method PushBucket(path: array<Bucket>, i: nat, stash: S.Stash, optimizedReading: bool)
    requires stash.Valid() && i < path.Length
    modifies path, stash
    ensures stash.Valid()
    ensures stash.blocks == PushedBucket(old(stash.blocks), old(path[i]), stash.gN)
    ensures stash.discard == if optimizedReading then MarkedBucket(old(stash.blocks), old(stash.discard), old(path[i]), stash.gN)
                             else old(stash.discard)
    ensures path[..] == old(path[..])[i := EmptiedBucket(old(path[i]), stash.gN)]
  {
    ghost var bucket0 := path[i];
    for q := 0 to |path[i]|
      invariant stash.Valid() && |path[i]| == |bucket0|
      invariant PushedBucket(stash.blocks, bucket0[q..], stash.gN) == PushedBucket(old(stash.blocks), bucket0, stash.gN)
      invariant if optimizedReading
                then MarkedBucket(stash.blocks, stash.discard, bucket0[q..], stash.gN) == MarkedBucket(old(stash.blocks), old(stash.discard), bucket0, stash.gN)
                else stash.discard == old(stash.discard)
      invariant forall j :: 0 <= j < |bucket0| ==> path[i][j] == if j < q then bucket0[j].(id := stash.gN) else bucket0[j]
      invariant forall h :: 0 <= h < path.Length && h != i ==> path[h] == old(path[h])
    {
      assert bucket0[q..][1..] == bucket0[q + 1..];
      stash.PassInsert(path[i][q], IsBlockDummy(path[i][q], stash.gN), optimizedReading);
      path[i] := path[i][q := path[i][q].(id := stash.gN)];
    }
    assert path[i] == EmptiedBucket(bucket0, stash.gN);
  }

  /** ORAMTree::OAssignNewLabelToBlock: relabel the block, and exchange the child label at position_in_id.  The inner
      loop counts the x words of a recursion block in eight bits. */
  method OAssignNewLabelToBlock(stash: S.Stash, x: nat, id: nat, pos: nat, newleaf: nat, next: nat,
                                nextLeaf0: nat) returns (nextLeaf: nat)
    requires stash.Valid() && pos < x < UINT8
    modifies stash
    ensures stash.Valid() && stash.discard == old(stash.discard)
    ensures stash.blocks == AssignedBlocks(old(stash.blocks), id, pos, newleaf, next, stash.gN)
    ensures nextLeaf == AssignedLeaf(old(stash.blocks), id, pos, stash.gN, nextLeaf0)
  {
    nextLeaf := nextLeaf0;
    for k := 0 to |stash.blocks|
      invariant |stash.blocks| == |old(stash.blocks)| && stash.discard == old(stash.discard)
      invariant forall j :: 0 <= j < k ==> stash.blocks[j] == AssignedBlock(old(stash.blocks)[j], id, pos, newleaf, next, stash.gN)
      invariant forall j :: k <= j < |stash.blocks| ==> stash.blocks[j] == old(stash.blocks)[j]
      invariant nextLeaf == AssignedLeaf(old(stash.blocks)[..k], id, pos, stash.gN, nextLeaf0)
    {
      assert old(stash.blocks)[..k + 1][..k] == old(stash.blocks)[..k];
      var b := stash.blocks[k];
      var flag1 := b.id == id && !IsBlockDummy(b, stash.gN);
      if flag1 {
        b := b.(treeLabel := newleaf);
      }
      ghost var data0, leaf0 := b.data, nextLeaf;
      var q: nat := 0;
      while q < x
        invariant q <= x
        invariant b == old(stash.blocks)[k].(treeLabel := if flag1 then newleaf else old(stash.blocks)[k].treeLabel,
                                             data := if flag1 && pos < q && pos < |data0| then data0[pos := next] else data0)
        invariant nextLeaf == if flag1 && pos < q && pos < |data0| then data0[pos] else leaf0
        decreases x - q
      {
        var flag2 := flag1 && pos == q && q < |b.data|;
        if flag2 {
          nextLeaf := b.data[q];
          b := b.(data := b.data[q := next]);
        }
        q := (q + 1) % UINT8;
      }
      stash.blocks := stash.blocks[k := b];
    }
    assert old(stash.blocks)[..|stash.blocks|] == old(stash.blocks);
  }

  /** ORAMTree::OAssignNewLabelToBlockOptimized: the same scan, reading the child label only. */
  method OAssignNewLabelToBlockOptimized(stash: S.Stash, x: nat, id: nat, pos: nat,
                                         nextLeaf0: nat) returns (nextLeaf: nat)
    requires pos < x < UINT8
    ensures nextLeaf == AssignedLeaf(stash.blocks, id, pos, stash.gN, nextLeaf0)
  {
    nextLeaf := nextLeaf0;
    for k := 0 to |stash.blocks|
      invariant nextLeaf == AssignedLeaf(stash.blocks[..k], id, pos, stash.gN, nextLeaf0)
    {
      assert stash.blocks[..k + 1][..k] == stash.blocks[..k];
      var b := stash.blocks[k];
      var flag1 := b.id == id && !IsBlockDummy(b, stash.gN);
      ghost var leaf0 := nextLeaf;
      var q: nat := 0;
      while q < x
        invariant q <= x
        invariant nextLeaf == if flag1 && pos < q && pos < |b.data| then b.data[pos] else leaf0
        decreases x - q
      {
        var flag2 := flag1 && pos == q && q < |b.data|;
        if flag2 {
          nextLeaf := b.data[q];
        }
        q := (q + 1) % UINT8;
      }
    }
    assert stash.blocks[..|stash.blocks|] == stash.blocks;
  }

  /** One bucket of PathORAM_RebuildPath: scan the stash, and for each node the slots of the bucket. */
  method RebuildBucket(path: array<Bucket>, i: nat, stash: S.Stash, prefix: nat, shape: Shape)
    requires stash.Valid() && stash.gN == shape.gN && i < path.Length && |path[i]| == shape.Z
    modifies path, stash
    ensures stash.Valid() && stash.discard == old(stash.discard)
    ensures stash.blocks == FillBucket(old(stash.blocks), old(path[i]), 0, 0, prefix, i, shape).stash
    ensures path[..] == old(path[..])[i := FillBucket(old(stash.blocks), old(path[i]), 0, 0, prefix, i, shape).bucket]
  {
    var posk: nat := 0;
    for k := 0 to |stash.blocks|
      invariant stash.Valid() && stash.discard == old(stash.discard) && |stash.blocks| == |old(stash.blocks)|
      invariant |path[i]| == shape.Z && posk <= shape.Z
      invariant forall h :: 0 <= h < path.Length && h != i ==> path[h] == old(path[h])
      invariant FillBucket(stash.blocks, path[i], posk, k, prefix, i, shape) ==
                FillBucket(old(stash.blocks), old(path[i]), 0, 0, prefix, i, shape)
    {
      posk := OfferSlots(path, i, stash, k, posk, prefix, shape);
    }
  }

  /** The innermost loop: offer stash node k to each slot in turn; slot posk takes it when it may go there. */
  method OfferSlots(path: array<Bucket>, i: nat, stash: S.Stash, k: nat, posk0: nat, prefix: nat,
                    shape: Shape) returns (posk: nat)
    requires stash.Valid() && stash.gN == shape.gN && i < path.Length && |path[i]| == shape.Z
    requires k < |stash.blocks| && posk0 <= shape.Z
    modifies path, stash
    ensures stash.Valid() && stash.discard == old(stash.discard)
    ensures forall h :: 0 <= h < path.Length && h != i ==> path[h] == old(path[h])
    ensures if posk0 < shape.Z && Eligible(old(stash.blocks)[k], prefix, i, shape)
            then && posk == posk0 + 1 && path[i] == old(path[i])[posk0 := old(stash.blocks)[k]]
                 && stash.blocks == old(stash.blocks)[k := old(stash.blocks)[k].(id := shape.gN)]
            else posk == posk0 && path[i] == old(path[i]) && stash.blocks == old(stash.blocks)
  {
    posk := posk0;
    var jprefix := ShiftBy(stash.blocks[k].treeLabel + shape.N, i);
    var sblockWritten := false;
    for l := 0 to shape.Z
      invariant stash.Valid() && stash.discard == old(stash.discard)
      invariant forall h :: 0 <= h < path.Length && h != i ==> path[h] == old(path[h])
      invariant sblockWritten == (posk0 < l && Eligible(old(stash.blocks)[k], prefix, i, shape))
      invariant if sblockWritten
                then && posk == posk0 + 1 && path[i] == old(path[i])[posk0 := old(stash.blocks)[k]]
                     && stash.blocks == old(stash.blocks)[k := old(stash.blocks)[k].(id := shape.gN)]
                else posk == posk0 && path[i] == old(path[i]) && stash.blocks == old(stash.blocks)
    {
      var flag := l == posk && posk < shape.Z && prefix == jprefix && !sblockWritten && !IsBlockDummy(stash.blocks[k], shape.gN);
      if flag {
        path[i] := path[i][l := stash.blocks[k]];
        sblockWritten := true;
        stash.blocks := stash.blocks[k := stash.blocks[k].(id := shape.gN)];
        posk := posk + 1;
      }
    }
  }

  /** PathORAM_RebuildPath: from the leaf bucket to the root. */
  method RebuildPath(path: array<Bucket>, stash: S.Stash, node: nat, shape: Shape)
    requires stash.Valid() && stash.gN == shape.gN && BucketsSized(path[..], shape.Z)
    modifies path, stash
    ensures stash.Valid() && stash.discard == old(stash.discard)
    ensures (stash.blocks, path[..]) == RebuiltPath(old(stash.blocks), old(path[..]), node, 0, shape)
  {
    for i := 0 to path.Length
      invariant stash.Valid() && stash.discard == old(stash.discard) && BucketsSized(path[..], shape.Z)
      invariant RebuiltPath(stash.blocks, path[..], node, i, shape) == RebuiltPath(old(stash.blocks), old(path[..]), node, 0, shape)
    {
      assert path[..][i] == path[i];
      var prefix := ShiftBy(node, i);
      ghost var st0, path0 := stash.blocks, path[..];
      RebuildBucket(path, i, stash, prefix, shape);
      assert RebuiltPath(st0, path0, node, i, shape) == RebuiltPath(stash.blocks, path[..], node, i + 1, shape);
    }
  }

  /** The arrays stash_oc_before and stash_oc_after. */
  type Occupancies = s: seq<nat> | |s| == OCCUPANCY_SLOTS witness seq(OCCUPANCY_SLOTS, _ => 0)

  class PathORAM {
    const p: Params
    const posmap: array<nat>
    const recursiveStash: seq<S.Stash>
    const storage: seq<LS.LocalStorage<Bucket>>
    var stashOcBefore: Occupancies
    var stashOcAfter: Occupancies

    constructor (p: Params, posmap: array<nat>, recursiveStash: seq<S.Stash>, storage: seq<LS.LocalStorage<Bucket>>)
      ensures this.p == p && this.posmap == posmap && this.recursiveStash == recursiveStash && this.storage == storage
    {
      this.p := p;
      this.posmap := posmap;
      this.recursiveStash := recursiveStash;
      this.storage := storage;
      stashOcBefore := seq(OCCUPANCY_SLOTS, _ => 0);
      stashOcAfter := seq(OCCUPANCY_SLOTS, _ => 0);
    }

    /** Levels have their own stash and storage. */
    ghost predicate Wired() {
      && p.Valid() && |recursiveStash| == |storage| == p.levels + 1
      && (forall l :: 0 <= l <= p.levels ==> recursiveStash[l].gN == p.gN && recursiveStash[l].filler == p.filler[l])
      && (forall l, k :: 0 <= l < k <= p.levels ==>
            recursiveStash[l] != recursiveStash[k] && storage[l].entries != storage[k].entries)
    }

    ghost function Entries(): set<object> {
      set s | s in storage :: s.entries
    }

    ghost function LevelOf(l: nat): Level
      requires l < |recursiveStash| && l < |storage|
      reads recursiveStash[l], storage[l].entries
    {
      Level(recursiveStash[l].blocks, recursiveStash[l].discard, storage[l].entries[..])
    }

    ghost function TheState(): State
      requires |recursiveStash| == |storage|
      reads posmap, recursiveStash, Entries()
    {
      State(posmap[..], seq(|storage|, l requires 0 <= l < |storage| reads recursiveStash, Entries() => LevelOf(l)))
    }

    /** access_oram_level and PathORAM_Access: fetch the path of `leaf`, access the stash, refill the path, upload it. */
    method AccessOramLevel(opType: char, leaf: nat, id: nat, pos: nat, level: nat, newleaf: nat, next: nat,
                           dataIn: seq<nat>, dataOut: seq<nat>)
      returns (nextLeaf: nat, out: seq<nat>)
      requires Wired() && 1 <= level <= p.levels && Shaped(LevelOf(level), p.ShapeOf(level)) && leaf < p.N[level]
      requires level < p.levels ==> pos < p.x
      modifies recursiveStash[level], storage[level].entries
      ensures (LevelOf(level), nextLeaf, out) ==
              AccessLevel(p, old(LevelOf(level)), level, leaf, id, pos, opType, newleaf, next, dataIn, dataOut)
    {
      hide PushedPath, RebuiltPath, LS.PathBuckets, LS.Uploaded, AccessedBlocks, AccessedData, AssignedBlocks,
           AssignedLeaf, EmptiedPath, Pow2;
      var shape := p.ShapeOf(level);
      var stash := recursiveStash[level];
      ghost var l0 := LevelOf(level);
      FetchedPathSized(l0, leaf, shape);
      EmptiedPathReady(FetchedPath(l0, leaf, shape), leaf + shape.N, shape);
      var path := storage[level].DownloadPath(leaf + shape.N, shape.D);
      PushBlocksFromPathIntoStash(path, stash, false);
      nextLeaf, out := 0, dataOut;
      if level == p.levels {
        out := stash.PerformAccessOperation(opType, id, newleaf, dataIn, dataOut);
      } else {
        ScanEndsIff(p.x, 0);
        nextLeaf := OAssignNewLabelToBlock(stash, p.x, id, pos, newleaf, next, nextLeaf);
      }
      RebuildPath(path, stash, leaf + shape.N, shape);
      storage[level].UploadPath(path, leaf + shape.N);
    }

    /** access_oram_level and PathORAM_Access_Read, before the clearing: fetch the path and look, without writing back. */
    method ReadOramLevel(leaf: nat, id: nat, pos: nat, level: nat, dataIn: seq<nat>, dataOut: seq<nat>)
      returns (nextLeaf: nat, out: seq<nat>)
      requires Wired() && 1 <= level <= p.levels && Shaped(LevelOf(level), p.ShapeOf(level)) && leaf < p.N[level]
      requires level < p.levels ==> pos < p.x
      modifies recursiveStash[level]
      ensures LevelOf(level) == Opened(old(LevelOf(level)), leaf, p.ShapeOf(level))
      ensures nextLeaf == if level == p.levels then 0 else AssignedLeaf(LevelOf(level).stash, id, pos, p.gN, 0)
      ensures out == if level == p.levels then AccessedData(LevelOf(level).stash, 'z', id, dataOut) else dataOut
    {
      hide PushedPath, LS.PathBuckets, MarkedPath, AssignedLeaf, AccessedData, Pow2;
      var shape := p.ShapeOf(level);
      var stash := recursiveStash[level];
      var path := storage[level].DownloadPath(leaf + shape.N, shape.D);
      PushBlocksFromPathIntoStash(path, stash, true);
      nextLeaf, out := 0, dataOut;
      if level == p.levels {
        out := stash.PerformOptimizedAccessOperation('z', id, dataIn, dataOut);
      } else {
        ScanEndsIff(p.x, 0);
        nextLeaf := OAssignNewLabelToBlockOptimized(stash, p.x, id, pos, nextLeaf);
      }
    }

    /** PathORAM::access at level 0. */
    method AccessPosmapEntry(id: nat, ghost dataOut: seq<nat>, coins: seq<nat>) returns (leaf: nat,
                                                                                         prevSampledLeaf: nat)
      requires Wired() && StateShaped(p, TheState()) && |coins| == p.levels
      modifies posmap
      ensures Accessed(TheState(), leaf, prevSampledLeaf, dataOut) == AccessPosmap(p, old(TheState()), id, dataOut, coins)
      ensures IsDrawn(prevSampledLeaf, coins[0], p.N[1])
    {
      hide Shaped;
      NewLeafIs(p, 0, coins);
      var newleaf := NewLeaf(p, 0, coins);
      prevSampledLeaf := newleaf;
      leaf := OArraySearch(posmap, id, 0, newleaf);
    }

    /** The access at one level >= 1, after the recursive call has returned `leaf` and the fresh label. */
    method AccessAtLevel(leaf: nat, prevSampledLeaf0: nat, id: nat, pos: nat, opType: char, level: nat,
                         dataIn: seq<nat>,
                         dataOut: seq<nat>, coins: seq<nat>)
      returns (nextLeaf: nat, prevSampledLeaf: nat, out: seq<nat>)
      requires Wired() && 1 <= level <= p.levels && StateShaped(p, TheState()) && |coins| == p.levels && leaf < p.N[level]
      requires level < p.levels ==> pos < p.x
      modifies recursiveStash[level], storage[level].entries
      ensures Accessed(TheState(), nextLeaf, prevSampledLeaf, out) ==
              AccessBelow(p, Accessed(old(TheState()), leaf, prevSampledLeaf0, dataOut), id, pos, opType, level, dataIn, coins)
      ensures level < p.levels ==> IsDrawn(prevSampledLeaf, coins[level], p.N[level + 1])
    {
      hide AccessLevel, Shaped;
      ghost var s := TheState();
      if level == p.levels {
        nextLeaf, out := AccessOramLevel(opType, leaf, id, pos, level, prevSampledLeaf0, NO_POSITION, dataIn, dataOut);
        prevSampledLeaf := prevSampledLeaf0;
      } else {
        var newleafNextlevel := NewLeaf(p, level, coins);
        NewLeafIs(p, level, coins);
        nextLeaf, out := AccessOramLevel(opType, leaf, id, pos, level, prevSampledLeaf0, newleafNextlevel, dataIn, dataOut);
        prevSampledLeaf := newleafNextlevel;
      }
      assert TheState().levels == s.levels[level := LevelOf(level)];
    }

    /** PathORAM::access.  m is what the levels hold; the result is that of the value-level Access. */
    method Access(id: nat, pos: nat, opType: char, level: nat, dataIn: seq<nat>, dataOut: seq<nat>, coins: seq<nat>,
                  ghost m: seq<map<nat, Block>>)
      returns (nextLeaf: nat, prevSampledLeaf: nat, out: seq<nat>)
      requires Wired() && StateShaped(p, TheState()) && Inv(p, TheState(), m)
      requires |coins| == p.levels && level <= p.levels && id < p.realBlocks[level]
      requires 1 <= level < p.levels ==> pos < p.x
      requires |m| == p.levels + 1 && Roomy(p, TheState(), m, level, id)
      modifies posmap, recursiveStash, Entries()
      ensures Accessed(TheState(), nextLeaf, prevSampledLeaf, out) ==
              RecursivePathORAM.Access(p, old(TheState()), id, pos, opType, level, dataIn, dataOut, coins)
      ensures level < p.levels ==> IsDrawn(prevSampledLeaf, coins[level], p.N[level + 1])
      decreases level, 1
    {
      hide AccessBelow, AccessPosmap, Inv, Shaped, Room, Roomy, ChildAccess, RecursivePathORAM.Access;
      ghost var s := TheState();
      if level == 0 {
        AccessAtPosmap(p, s, id, pos, opType, dataIn, dataOut, coins);
        nextLeaf, prevSampledLeaf := AccessPosmapEntry(id, dataOut, coins);
        out := dataOut;
      } else {
        ghost var l: nat := level - 1;
        RoomyAbove(p, s, m, level, id);
        ChildLeafInRange(p, s, m, l, id, opType, dataIn, dataOut, coins);
        AccessUnfolds(p, s, l, level, id, pos, opType, dataIn, dataOut, coins);
        var leaf;
        leaf, prevSampledLeaf, out := AccessParent(id, opType, level, dataIn, dataOut, coins, m);
        nextLeaf, prevSampledLeaf, out := AccessAtLevel(leaf, prevSampledLeaf, id, pos, opType, level, dataIn, out, coins);
      }
    }

    /** The recursive call of access: level 1 asks the on-chip map for the same id, a deeper level the parent. */
    method AccessParent(id: nat, opType: char, level: nat, dataIn: seq<nat>, dataOut: seq<nat>, coins: seq<nat>,
                        ghost m: seq<map<nat, Block>>)
      returns (leaf: nat, prevSampledLeaf: nat, out: seq<nat>)
      requires Wired() && StateShaped(p, TheState()) && Inv(p, TheState(), m)
      requires |coins| == p.levels && 1 <= level <= p.levels && id < p.realBlocks[level]
      requires |m| == p.levels + 1 && Roomy(p, TheState(), m, level, id)
      modifies posmap, recursiveStash, Entries()
      ensures Accessed(TheState(), leaf, prevSampledLeaf, out) ==
              ChildAccess(p, old(TheState()), level - 1, id, opType, dataIn, dataOut, coins)
      decreases level, 0
    {
      hide Inv, Shaped, Room, Roomy, RecursivePathORAM.Access;
      RoomyAbove(p, TheState(), m, level, id);
      ParentInRange(p, level - 1, id);
      if level == 1 {
        leaf, prevSampledLeaf, out := Access(id, NO_POSITION, opType, 0, dataIn, dataOut, coins, m);
      } else {
        leaf, prevSampledLeaf, out := Access(id / p.x, id % p.x, opType, level - 1, dataIn, dataOut, coins, m);
      }
    }

    /** The optimized access at one level >= 1, after the recursive call has returned `leaf`.  s is the state the
        whole access started from: this level has not been touched yet. */
    method ReadAtLevel(ghost s: State, leaf: nat, id: nat, pos: nat, level: nat, dataIn: seq<nat>, dataOut: seq<nat>)
      returns (nextLeaf: nat, out: seq<nat>)
      requires Wired() && 1 <= level <= p.levels && StateShaped(p, s) && Openable(p, s, TheState()) && leaf < p.N[level]
      requires LevelOf(level) == s.levels[level] && p.levels < OCCUPANCY_SLOTS
      requires level < p.levels ==> pos < p.x
      modifies this`stashOcBefore, recursiveStash[level]
      ensures Looked(TheState(), nextLeaf, out) ==
              ReadBelow(p, s, Looked(old(TheState()), leaf, dataOut), id, pos, level)
      ensures stashOcBefore == old(stashOcBefore)[level := CountReal(s.levels[level].stash, p.gN)]
    {
      hide Opened, Shaped, AssignedLeaf, AccessedData, CountReal;
      ghost var before := TheState();
      var occupancy := recursiveStash[level].StashOccupancy();
      stashOcBefore := stashOcBefore[level := occupancy];
      nextLeaf, out := ReadOramLevel(leaf, id, pos, level, dataIn, dataOut);
      assert TheState().levels == before.levels[level := LevelOf(level)];
    }

    /** PathORAM::access_optimized, up to the clearing of the stashes. */
    method AccessOptimized(id: nat, pos: nat, level: nat, dataIn: seq<nat>, dataOut: seq<nat>, ghost m: seq<map<nat,
                           Block>>)
      returns (nextLeaf: nat, out: seq<nat>)
      requires Wired() && StateShaped(p, TheState()) && Inv(p, TheState(), m)
      requires level <= p.levels && id < p.realBlocks[level] && p.levels < OCCUPANCY_SLOTS
      requires 1 <= level < p.levels ==> pos < p.x
      requires |m| == p.levels + 1 && Roomy(p, TheState(), m, level, id)
      modifies this`stashOcBefore, recursiveStash
      ensures Looked(TheState(), nextLeaf, out) == ReadAccess(p, old(TheState()), id, pos, level, dataOut)
      ensures OccupanciesNoted(old(TheState()), level)
      decreases level, 1
    {
      hide ReadAccess, ReadBelow, Inv, Shaped, Room, Opened, ChildRead, CountReal;
      ghost var s := TheState();
      if level == 0 {
        ReadAtPosmap(p, s, m, id, pos, dataOut);
        nextLeaf, out := posmap[id], dataOut;
      } else {
        ReadChild(p, s, m, level - 1, id, dataOut);
        ReadUnfolds(p, s, level - 1, level, id, pos, dataOut);
        var leaf;
        leaf, out := ReadParent(id, level, dataIn, dataOut, m);
        nextLeaf, out := ReadAtLevel(s, leaf, id, pos, level, dataIn, out);
      }
    }

    /** The recursive call of access_optimized: level 1 asks the on-chip map for the same id, a deeper level the parent. */
    method ReadParent(id: nat, level: nat, dataIn: seq<nat>, dataOut: seq<nat>, ghost m: seq<map<nat, Block>>)
      returns (leaf: nat, out: seq<nat>)
      requires Wired() && StateShaped(p, TheState()) && Inv(p, TheState(), m)
      requires 1 <= level <= p.levels && id < p.realBlocks[level] && p.levels < OCCUPANCY_SLOTS
      requires |m| == p.levels + 1 && Roomy(p, TheState(), m, level, id)
      modifies this`stashOcBefore, recursiveStash
      ensures Looked(TheState(), leaf, out) == ChildRead(p, old(TheState()), level - 1, id, dataOut)
      ensures OccupanciesNoted(old(TheState()), level - 1)
      decreases level, 0
    {
      hide ReadAccess, Inv, Shaped, Room, CountReal, Roomy;
      RoomyAbove(p, TheState(), m, level, id);
      ParentInRange(p, level - 1, id);
      if level == 1 {
        leaf, out := AccessOptimized(id, NO_POSITION, 0, dataIn, dataOut, m);
      } else {
        leaf, out := AccessOptimized(id / p.x, id % p.x, level - 1, dataIn, dataOut, m);
      }
    }

    /** stash_oc_before of the levels 1 .. level is what the stashes of s hold. */
    ghost predicate OccupanciesNoted(s: State, level: nat)
      requires |s.levels| == p.levels + 1
      reads this`stashOcBefore
    {
      p.levels < OCCUPANCY_SLOTS &&
      forall l :: 1 <= l <= level && l <= p.levels ==> stashOcBefore[l] == CountReal(s.levels[l].stash, p.gN)
    }

    /** Clear one stash and compare its occupancy with the one noted before. */
    method ClearStash(i: nat)
      requires Wired() && 1 <= i <= p.levels < OCCUPANCY_SLOTS && recursiveStash[i].Valid()
      requires stashOcBefore[i] == CountReal(ClearedLevel(p, LevelOf(i), i).stash, p.gN)
      modifies this`stashOcAfter, recursiveStash[i]
      ensures LevelOf(i) == ClearedLevel(p, old(LevelOf(i)), i)
    {
      hide Cleared, CountReal;
      recursiveStash[i].Clear();
      var occupancy := recursiveStash[i].StashOccupancy();
      assert LevelOf(i) == ClearedLevel(p, old(LevelOf(i)), i);
      stashOcAfter := stashOcAfter[i := occupancy];
      assert stashOcBefore[i] == stashOcAfter[i];
    }

    /** The end of a read-only access: clear every stash. */
    method ClearStashes()
      requires Wired() && p.levels < OCCUPANCY_SLOTS
      requires Flagged(TheState())
      requires OccupanciesNoted(ClearedState(p, TheState()), p.levels)
      modifies this`stashOcAfter, recursiveStash
      ensures TheState() == ClearedState(p, old(TheState()))
    {
      hide ClearedLevel, CountReal;
      ghost var s := TheState();
      for i := 1 to p.levels + 1
        invariant forall l :: i <= l <= p.levels ==> LevelOf(l) == s.levels[l]
        invariant LevelOf(0) == s.levels[0]
        invariant forall l :: 1 <= l < i ==> LevelOf(l) == ClearedState(p, s).levels[l]
      {
        assert LevelOf(i) == s.levels[i];
        assert ClearedState(p, s).levels[i] == ClearedLevel(p, s.levels[i], i);
        ClearStash(i);
      }
    }

    /** The read-only half of Access_temp. */
    method ReadRequest(id: nat, dataIn: seq<nat>, dataOut: seq<nat>) returns (out: seq<nat>)
      requires Wired() && Consistent(p, TheState()) && id < p.realBlocks[p.levels] && HasRoom(p, TheState(), id)
      requires p.levels < OCCUPANCY_SLOTS
      modifies this`stashOcBefore, this`stashOcAfter, recursiveStash
      ensures (TheState(), out) == FastRead(p, old(TheState()), id, dataOut)
    {
      hide ReadAccess, Inv, Shaped, Roomy, MapsOf, CountReal, ClearedLevel;
      ghost var s := TheState();
      var nextLeaf;
      nextLeaf, out := AccessOptimized(id, NO_POSITION, p.levels, dataIn, dataOut, MapsOf(p, s));
      forall l | 1 <= l <= p.levels
        ensures stashOcBefore[l] == CountReal(ClearedState(p, TheState()).levels[l].stash, p.gN)
      {
        OccupancyRestored(p, s, id, dataOut, l);
      }
      ClearStashes();
    }

    /** Access_temp, the entry point: the ORAM answers as an array of blocks does. */
    method AccessTemp(id: nat, opType: char, dataIn: seq<nat>, dataOut: seq<nat>,
                      coins: seq<nat>) returns (out: seq<nat>)
      requires Wired() && Consistent(p, TheState()) && Servable(p, Request(opType, id, dataIn, dataOut, coins))
      requires id < p.realBlocks[p.levels] && HasRoom(p, TheState(), id)
      modifies this`stashOcBefore, this`stashOcAfter, posmap, recursiveStash, Entries()
      ensures (TheState(), out) == Runs.AccessTemp(p, old(TheState()), Request(opType, id, dataIn, dataOut, coins))
      ensures Consistent(p, TheState())
      ensures (Array(p, TheState()), out) == ArrayAccess(old(Array(p, TheState())), Request(opType, id, dataIn, dataOut, coins))
    {
      hide FastRead, Inv, Shaped, Roomy, MapsOf, RecursivePathORAM.Access, Array, ArrayAccess;
      ghost var s, m := TheState(), MapsOf(p, TheState());
      RequestRefines(p, s, Request(opType, id, dataIn, dataOut, coins));
      if opType == 'z' {
        out := ReadRequest(id, dataIn, dataOut);
      } else {
        var nextLeaf, prevSampledLeaf;
        nextLeaf, prevSampledLeaf, out := Access(id, NO_POSITION, opType, p.levels, dataIn, dataOut, coins, m);
      }
    }
  }
}
