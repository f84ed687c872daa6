/** What a full stash does: the block that finds no free slot is gone, and no later request brings it back.  A run ends in
    a consistent state exactly when the stashes had room at each of its write-backs. */
module Overflow {
  import opened Blocks
  import opened Stash
  import opened PathLevel
  import opened PathAccess
  import opened RecursivePathORAM
  import opened Refinement
  import opened ReadOnly
  import opened Runs
  import opened Capacity

  // ----- No request makes real blocks -----

  lemma {:induction false} PushedBucketAtMost(st: seq<Block>, bucket: Bucket, gN: nat)
    ensures CountReal(PushedBucket(st, bucket, gN), gN) <= CountReal(st, gN) + CountReal(bucket, gN)
    decreases |bucket|
  {
    if bucket != [] {
      var k := FirstDummy(st, gN);
      if !IsBlockDummy(bucket[0], gN) && k < |st| {
        CountIfUpdate(st, k, bucket[0], IsReal(gN));
      }
      PushedBucketAtMost(Inserted(st, bucket[0], gN), bucket[1..], gN);
    }
  }

  lemma {:induction false} PushedPathAtMost(st: seq<Block>, path: seq<Bucket>, gN: nat)
    ensures CountReal(PushedPath(st, path, gN), gN) <= CountReal(st, gN) + CountBuckets(path, IsReal(gN))
    decreases |path|
  {
    if path != [] {
      PushedBucketAtMost(st, path[0], gN);
      PushedPathAtMost(PushedBucket(st, path[0], gN), path[1..], gN);
    }
  }

  lemma {:induction false} CountRealSame(a: seq<Block>, b: seq<Block>, gN: nat)
    requires |a| == |b| && forall k :: 0 <= k < |a| ==> a[k].id == b[k].id
    ensures CountReal(a, gN) == CountReal(b, gN)
  {
    if a != [] {
      CountRealSame(a[1..], b[1..], gN);
    }
  }

  /** An access to one level, whatever its label and with or without room, does not add a real block to it. */
  lemma LevelAtMost(p: Params, l: Level, level: nat, leaf: nat, id: nat, pos: nat, opType: char, newleaf: nat,
                    next: nat, dataIn: seq<nat>, dataOut: seq<nat>)
    requires p.Valid() && 1 <= level <= p.levels && Shaped(l, p.ShapeOf(level))
    ensures Total(AccessLevel(p, l, level, leaf, id, pos, opType, newleaf, next, dataIn, dataOut).0, IsReal(p.gN))
            <= Total(l, IsReal(p.gN))
  {
    var shape := p.ShapeOf(level);
    if leaf < shape.N {
      var st := FetchedStash(l, leaf, shape);
      var st' := if level == p.levels then AccessedBlocks(st, opType, id, newleaf, dataIn)
                 else AssignedBlocks(st, id, pos, newleaf, next, p.gN);
      PushedPathAtMost(l.stash, FetchedPath(l, leaf, shape), p.gN);
      CountRealSame(st, st', p.gN);
      WrittenBackCount(l, st', leaf, shape, IsReal(p.gN));
    }
  }

  /** No level of a holds more real blocks than that of b. */
  ghost predicate NoMore(p: Params, a: State, b: State) {
    |a.levels| == |b.levels| == p.levels + 1 &&
    forall l :: 1 <= l <= p.levels ==> Total(a.levels[l], IsReal(p.gN)) <= Total(b.levels[l], IsReal(p.gN))
  }

  lemma BelowAtMost(p: Params, up: Accessed, id: nat, pos: nat, opType: char, level: nat, dataIn: seq<nat>,
                    coins: seq<nat>)
    requires StateShaped(p, up.state) && 1 <= level <= p.levels && |coins| == p.levels
    ensures NoMore(p, AccessBelow(p, up, id, pos, opType, level, dataIn, coins).state, up.state)
  {
    hide AccessLevel, Shaped, Total;
    var next := if level == p.levels then NO_POSITION else NewLeaf(p, level, coins);
    LevelAtMost(p, up.state.levels[level], level, up.leaf, id, pos, opType, up.prevSampledLeaf, next, dataIn, up.dataOut);
  }

  lemma {:induction false} AccessAtMost(p: Params, s: State, id: nat, pos: nat, opType: char, level: nat,
                                        dataIn: seq<nat>, dataOut: seq<nat>, coins: seq<nat>)
    requires StateShaped(p, s) && level <= p.levels && |coins| == p.levels
    ensures NoMore(p, Access(p, s, id, pos, opType, level, dataIn, dataOut, coins).state, s)
    decreases level, 0
  {
    hide AccessBelow, Shaped, Access, ChildAccess, Total;
    if level == 0 {
      AccessAtPosmap(p, s, id, pos, opType, dataIn, dataOut, coins);
    } else {
      var l: nat := level - 1;
      AccessUnfolds(p, s, l, level, id, pos, opType, dataIn, dataOut, coins);
      ChildAtMost(p, s, id, opType, l, dataIn, dataOut, coins);
      BelowAtMost(p, ChildAccess(p, s, l, id, opType, dataIn, dataOut, coins), id, pos, opType, level, dataIn, coins);
    }
  }

  lemma {:induction false} ChildAtMost(p: Params, s: State, c: nat, opType: char, l: nat, dataIn: seq<nat>,
                                       dataOut: seq<nat>, coins: seq<nat>)
    requires StateShaped(p, s) && l < p.levels && |coins| == p.levels
    ensures NoMore(p, ChildAccess(p, s, l, c, opType, dataIn, dataOut, coins).state, s)
    decreases l, 1
  {
    hide Shaped, Access, NoMore;
    if l == 0 {
      AccessAtMost(p, s, c, NO_POSITION, opType, 0, dataIn, dataOut, coins);
    } else {
      AccessAtMost(p, s, c / p.x, c % p.x, opType, l, dataIn, dataOut, coins);
    }
  }

  /** No request, in any state, adds a real block to a level. */
  lemma RequestAtMost(p: Params, s: State, req: Request)
    requires StateShaped(p, s) && Servable(p, req)
    ensures NoMore(p, AccessTemp(p, s, req).0, s)
  {
    hide Access, FastRead, Shaped, NoMore;
    if req.opType == 'z' {
      FastReadRestores(p, s, req.id, req.dataOut);
      SameTotals(p, FastRead(p, s, req.id, req.dataOut).0, s);
    } else {
      AccessAtMost(p, s, req.id, NO_POSITION, req.opType, p.levels, req.dataIn, req.dataOut, req.coins);
    }
  }

  lemma SameTotals(p: Params, a: State, b: State)
    requires SameButDummies(p, a, b)
    ensures NoMore(p, a, b)
  {
    forall l | 1 <= l <= p.levels
      ensures Total(a.levels[l], IsReal(p.gN)) <= Total(b.levels[l], IsReal(p.gN))
    {
      assert SameLevel(a.levels[l], b.levels[l], p.gN);
      CountIfSame(a.levels[l].stash, b.levels[l].stash, p.gN, IsReal(p.gN));
    }
  }

  // ----- Without room a block is lost -----

  /** Level j holds fewer real blocks than it has ids. */
  ghost predicate Short(p: Params, s: State, j: nat) {
    1 <= j < |s.levels| && j < |p.realBlocks| && Total(s.levels[j], IsReal(p.gN)) < p.realBlocks[j]
  }

  lemma ConsistentNotShort(p: Params, s: State, j: nat)
    requires Consistent(p, s)
    ensures !Short(p, s, j)
  {
    if 1 <= j <= p.levels {
      var m := MapsOf(p, s)[j];
      assert LevelOk(s.levels[j], m, p.ShapeOf(j));
      TotalReal(s.levels[j], m, p.ShapeOf(j), p.realBlocks[j]);
    }
  }

  /** A path fetched without room is written back with a block missing, whatever is done to the stash in between. */
  lemma NoRoomLoses(l: Level, m: map<nat, Block>, st: seq<Block>, leaf: nat, shape: Shape, n: nat)
    requires LevelOk(l, m, shape) && n <= shape.gN && forall id :: id in m <==> 0 <= id < n
    requires leaf < shape.N && !Room(l, leaf, shape) && |st| == |l.stash|
    ensures Total(WrittenBack(l, st, leaf, shape), IsReal(shape.gN)) < n
  {
    CountIfBound(st, IsReal(shape.gN));
    WrittenBackCount(l, st, leaf, shape, IsReal(shape.gN));
    TotalReal(l, m, shape, n);
  }

  /** So is one level of an access. */
  lemma LevelLoses(p: Params, s: State, m: seq<map<nat, Block>>, level: nat, leaf: nat, id: nat, pos: nat,
                   opType: char, newleaf: nat, next: nat, dataIn: seq<nat>, dataOut: seq<nat>)
    requires Contained(p, s, m) && StateShaped(p, s) && 1 <= level <= p.levels
    requires leaf < p.N[level] && !Room(s.levels[level], leaf, p.ShapeOf(level))
    ensures Total(AccessLevel(p, s.levels[level], level, leaf, id, pos, opType, newleaf, next, dataIn, dataOut).0, IsReal(p.gN))
            < p.realBlocks[level]
  {
    hide WrittenBack, Room, Total;
    var l, shape := s.levels[level], p.ShapeOf(level);
    var st := FetchedStash(l, leaf, shape);
    var st' := if level == p.levels then AccessedBlocks(st, opType, id, newleaf, dataIn)
               else AssignedBlocks(st, id, pos, newleaf, next, p.gN);
    NoRoomLoses(l, m[level], st', leaf, shape, p.realBlocks[level]);
  }

  /** Above a level without room the labels found are the recorded ones, and the level itself is untouched. */
  lemma ChildFinds(p: Params, s: State, m: seq<map<nat, Block>>, level: nat, c: nat, opType: char, dataIn: seq<nat>,
                   dataOut: seq<nat>, coins: seq<nat>)
    requires Inv(p, s, m) && StateShaped(p, s) && |coins| == p.levels && level < p.levels
    requires c < p.realBlocks[level + 1] && Roomy(p, s, m, level, c / p.x)
    ensures |m| == |s.levels| == p.levels + 1 && c in m[level + 1]
    ensures ChildAccess(p, s, level, c, opType, dataIn, dataOut, coins).leaf == m[level + 1][c].treeLabel
    ensures ChildAccess(p, s, level, c, opType, dataIn, dataOut, coins).state.levels[level + 1] == s.levels[level + 1]
  {
    hide Linked, LinkedBut, Records, LevelOk, ChildAccess, Access, Roomy, Shaped;
    var r := ChildAccess(p, s, level, c, opType, dataIn, dataOut, coins);
    var m' := AccessPrepares(p, s, m, level, c, opType, dataIn, dataOut, coins);
    assert r.state.levels[level + 1] == r.state.levels[level + 1..][0];
  }

  /** Where there is room for the access above, but none for the whole access, this level lacks it. */
  lemma LacksRoom(p: Params, s: State, m: seq<map<nat, Block>>, l: nat, level: nat, id: nat)
    requires Contained(p, s, m) && StateShaped(p, s) && l + 1 == level <= p.levels && id < p.realBlocks[level]
    requires !Roomy(p, s, m, level, id) && Roomy(p, s, m, l, id / p.x)
    ensures id in m[level] && m[level][id].treeLabel < p.N[level]
    ensures !Room(s.levels[level], m[level][id].treeLabel, p.ShapeOf(level))
  {
    hide LevelOk, Room, Roomy;
    LabelInRange(p, s, m, level, id);
    if Room(s.levels[level], m[level][id].treeLabel, p.ShapeOf(level)) {
      RoomyStep(p, s, m, l, level, id);
    }
  }

  lemma BelowLoses(p: Params, s: State, m: seq<map<nat, Block>>, up: Accessed, id: nat, pos: nat, opType: char,
                   level: nat, dataIn: seq<nat>, coins: seq<nat>)
    requires Contained(p, s, m) && StateShaped(p, s) && StateShaped(p, up.state) && 1 <= level <= p.levels == |coins|
    requires up.state.levels[level] == s.levels[level] && up.leaf < p.N[level]
    requires !Room(s.levels[level], up.leaf, p.ShapeOf(level))
    ensures Short(p, AccessBelow(p, up, id, pos, opType, level, dataIn, coins).state, level)
  {
    hide LevelOk, Room, AccessLevel, Total, Shaped;
    var next := if level == p.levels then NO_POSITION else NewLeaf(p, level, coins);
    LevelLoses(p, s, m, level, up.leaf, id, pos, opType, up.prevSampledLeaf, next, dataIn, up.dataOut);
  }

  /** An access that lacks room somewhere on its way leaves some level short of a block. */
  lemma {:induction false} AccessLoses(p: Params, s: State, m: seq<map<nat, Block>>, id: nat, pos: nat, opType: char,
                                       level: nat, dataIn: seq<nat>, dataOut: seq<nat>, coins: seq<nat>)
    returns (j: nat)
    requires Inv(p, s, m) && StateShaped(p, s) && |coins| == p.levels && 1 <= level <= p.levels
    requires id < p.realBlocks[level] && !Roomy(p, s, m, level, id)
    ensures Short(p, Access(p, s, id, pos, opType, level, dataIn, dataOut, coins).state, j)
    decreases level
  {
    hide Linked, LevelOk, Shaped, Room, Access, AccessBelow, Total;
    var l: nat := level - 1;
    var up := ChildAccess(p, s, l, id, opType, dataIn, dataOut, coins);
    AccessUnfolds(p, s, l, level, id, pos, opType, dataIn, dataOut, coins);
    ParentInRange(p, l, id);
    if Roomy(p, s, m, l, id / p.x) {
      LacksRoom(p, s, m, l, level, id);
      ChildFinds(p, s, m, l, id, opType, dataIn, dataOut, coins);
      BelowLoses(p, s, m, up, id, pos, opType, level, dataIn, coins);
      j := level;
    } else {
      j := AccessLoses(p, s, m, id / p.x, id % p.x, opType, l, dataIn, dataOut, coins);
      BelowAtMost(p, up, id, pos, opType, level, dataIn, coins);
    }
  }

  // ----- Requests and runs -----

  /** The request does not write back, or finds room for what it fetches. */
  ghost predicate WritesBackWithRoom(p: Params, s: State, req: Request)
    requires StateShaped(p, s)
  {
    req.opType == 'z' || HasRoom(p, s, req.id)
  }

  lemma RequestLoses(p: Params, s: State, req: Request) returns (j: nat)
    requires Consistent(p, s) && Servable(p, req) && req.id < p.realBlocks[p.levels]
    requires !WritesBackWithRoom(p, s, req)
    ensures Short(p, AccessTemp(p, s, req).0, j)
  {
    hide Inv, Access, MapsOf, Short;
    j := AccessLoses(p, s, MapsOf(p, s), req.id, NO_POSITION, req.opType, p.levels, req.dataIn, req.dataOut, req.coins);
  }

  /** A request keeps the ORAM consistent exactly when it does not write back, or there is room at every level; then the
      array it stands for changes as the request asks. */
  lemma RequestConsistentIff(p: Params, s: State, req: Request)
    requires Consistent(p, s) && Servable(p, req) && req.id < p.realBlocks[p.levels]
    ensures Consistent(p, AccessTemp(p, s, req).0) <==> req.opType == 'z' || HasRoom(p, s, req.id)
    ensures Consistent(p, AccessTemp(p, s, req).0) ==>
      Array(p, AccessTemp(p, s, req).0) == ArrayAccess(Array(p, s), req).0
  {
    hide Inv, Access, FastRead, MapsOf, HasRoom, Short, StateShaped, SameButDummies;
    if req.opType == 'z' {
      var m := MapsOf(p, s);
      FastReadRestores(p, s, req.id, req.dataOut);
      var s' := FastRead(p, s, req.id, req.dataOut).0;
      SameInv(p, s', s, m);
      InvMaps(p, s', m);
    } else if HasRoom(p, s, req.id) {
      RequestRefines(p, s, req);
    } else {
      var j := RequestLoses(p, s, req);
      if Consistent(p, AccessTemp(p, s, req).0) {
        ConsistentNotShort(p, AccessTemp(p, s, req).0, j);
      }
    }
  }

  /** The stashes have room at every request of the run that writes back. */
  ghost predicate RoomAtWriteBacks(p: Params, s: State, reqs: seq<Request>)
    requires StateShaped(p, s) && WellFormed(p, reqs)
    decreases |reqs|
  {
    reqs == [] || (WritesBackWithRoom(p, s, reqs[0]) && RoomAtWriteBacks(p, AccessTemp(p, s, reqs[0]).0, reqs[1..]))
  }

  lemma {:induction false} ShortStays(p: Params, s: State, reqs: seq<Request>, j: nat)
    requires StateShaped(p, s) && WellFormed(p, reqs) && Short(p, s, j)
    ensures Short(p, RunORAM(p, s, reqs).0, j)
    decreases |reqs|
  {
    hide AccessTemp, Shaped, Total;
    if reqs != [] {
      RequestAtMost(p, s, reqs[0]);
      ShortStays(p, AccessTemp(p, s, reqs[0]).0, reqs[1..], j);
    }
  }

  /** A run, of whatever length and with whatever leaves drawn, ends in a consistent state exactly when the stashes had room
      at every request that wrote back: a block once dropped never returns.  Then it holds what the array holds. */
  lemma {:induction false} RunConsistentIff(p: Params, s: State, reqs: seq<Request>)
    requires Consistent(p, s) && WellFormed(p, reqs)
    ensures Consistent(p, RunORAM(p, s, reqs).0) <==> RoomAtWriteBacks(p, s, reqs)
    ensures Consistent(p, RunORAM(p, s, reqs).0) ==>
      Array(p, RunORAM(p, s, reqs).0) == RunArray(Array(p, s), reqs).0
    decreases |reqs|
  {
    hide AccessTemp, Inv, MapsOf, HasRoom, Short, StateShaped, Array, ArrayAccess;
    if reqs != [] {
      RequestConsistentIff(p, s, reqs[0]);
      var s' := AccessTemp(p, s, reqs[0]).0;
      if WritesBackWithRoom(p, s, reqs[0]) {
        RunConsistentIff(p, s', reqs[1..]);
      } else {
        var j := RequestLoses(p, s, reqs[0]);
        ShortStays(p, s', reqs[1..], j);
        if Consistent(p, RunORAM(p, s', reqs[1..]).0) {
          ConsistentNotShort(p, RunORAM(p, s', reqs[1..]).0, j);
        }
      }
    }
  }
}
