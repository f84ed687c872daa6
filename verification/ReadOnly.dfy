/** The read-only access of Path ORAM ('z'): it pushes the paths into the stashes, reads, and then discards
    what it pushed.  It returns what a full read returns and leaves everything that matters unchanged. */
module ReadOnly {
  import opened Blocks
  import opened Stash
  import opened PathLevel
  import opened PathAccess
  import opened RecursivePathORAM
  import opened Refinement

  /** The length of stash_oc_before and stash_oc_after, which a read-only access indexes with its levels 1, 2, .. */
  const OCCUPANCY_SLOTS: nat := 10

  /** The discard flags after the slots of a bucket have been pushed. */
  function MarkedBucket(st: seq<Block>, discard: seq<bool>, bucket: Bucket, gN: nat): (r: seq<bool>)
    requires |discard| == |st|
    ensures |r| == |discard|
    decreases |bucket|
  {
    if bucket == [] then discard
    else MarkedBucket(Inserted(st, bucket[0], gN), Marked(st, discard, bucket[0], gN), bucket[1..], gN)
  }

  function MarkedPath(st: seq<Block>, discard: seq<bool>, path: seq<Bucket>, gN: nat): (r: seq<bool>)
    requires |discard| == |st|
    ensures |r| == |discard|
    decreases |path|
  {
    if path == [] then discard
    else MarkedPath(PushedBucket(st, path[0], gN), MarkedBucket(st, discard, path[0], gN), path[1..], gN)
  }

  /** One level after PushBlocksFromPathIntoStashOptimized; a label outside the tree has no path. */
  function Opened(l: Level, leaf: nat, shape: Shape): (r: Level)
    requires Shaped(l, shape)
    ensures |r.discard| == |r.stash| == |l.stash| && r.tree == l.tree
  {
    if leaf >= shape.N then l
    else
      Level(FetchedStash(l, leaf, shape), MarkedPath(l.stash, l.discard, FetchedPath(l, leaf, shape), shape.gN), l.tree)
  }

  datatype Looked = Looked(state: State, leaf: nat, dataOut: seq<nat>)

  /** Only the stashes differ, and every node has its flag. */
  ghost predicate Openable(p: Params, s: State, r: State) {
    && |r.levels| == |s.levels| && r.posmap == s.posmap
    && forall l :: 1 <= l < |s.levels| ==> |r.levels[l].discard| == |r.levels[l].stash| && r.levels[l].tree == s.levels[l].tree
  }

  /** PathORAM::access_optimized down to `level`, before the stashes are cleared.  The labels it draws are not used. */
  function ReadAccess(p: Params, s: State, id: nat, pos: nat, level: nat, dataOut: seq<nat>): (r: Looked)
    requires StateShaped(p, s) && level <= p.levels
    ensures Openable(p, s, r.state)
    decreases level
  {
    if level == 0 then Looked(s, if id < |s.posmap| then s.posmap[id] else 0, dataOut)
    else
      var up := if level == 1 then ReadAccess(p, s, id, NO_POSITION, 0, dataOut)
                else ReadAccess(p, s, id / p.x, id % p.x, level - 1, dataOut);
      ReadBelow(p, s, up, id, pos, level)
  }

  /** The part of access_optimized that follows the recursive call. */
  function ReadBelow(p: Params, s: State, up: Looked, id: nat, pos: nat, level: nat): (r: Looked)
    requires StateShaped(p, s) && 1 <= level <= p.levels && Openable(p, s, up.state)
    ensures Openable(p, s, r.state)
  {
    var l := Opened(s.levels[level], up.leaf, p.ShapeOf(level));
    Looked(up.state.(levels := up.state.levels[level := l]),
           if level == p.levels then 0 else AssignedLeaf(l.stash, id, pos, p.gN, 0),
           if level == p.levels then AccessedData(l.stash, 'z', id, up.dataOut) else up.dataOut)
  }

  function ClearedLevel(p: Params, l: Level, level: nat): (r: Level)
    requires |l.discard| == |l.stash| && level < |p.filler|
  {
    Level(Cleared(l.stash, l.discard, Block(p.gN, 0, p.filler[level])), seq(|l.discard|, _ => false), l.tree)
  }

  /** Every stash node has its discard flag. */
  ghost predicate Flagged(s: State) {
    forall l :: 1 <= l < |s.levels| ==> |s.levels[l].discard| == |s.levels[l].stash|
  }

  function ClearedState(p: Params, s: State): (r: State)
    requires p.Valid() && |s.levels| == p.levels + 1 && Flagged(s)
  {
    s.(levels := seq(p.levels + 1, l requires 0 <= l <= p.levels =>
      if l == 0 then s.levels[0] else ClearedLevel(p, s.levels[l], l)))
  }

  /** The read at the data level ends by clearing the stash of every level from 1 on.  Every level has a place for its
      occupancy. */
  function FastRead(p: Params, s: State, id: nat, dataOut: seq<nat>): (r: (State, seq<nat>))
    requires StateShaped(p, s) && p.levels < OCCUPANCY_SLOTS
    ensures StateShaped(p, r.0)
  {
    var r := ReadAccess(p, s, id, NO_POSITION, p.levels, dataOut);
    (ClearedState(p, r.state), r.dataOut)
  }

  // ----- Nothing that matters changes -----

  /** A marked node held a dummy before, and every other node is as before. */
  ghost predicate Kept(before: seq<Block>, st: seq<Block>, discard: seq<bool>, gN: nat) {
    && |before| == |st| == |discard|
    && forall k :: 0 <= k < |st| ==>
        if discard[k] then IsBlockDummy(before[k], gN) && !IsBlockDummy(st[k], gN) else st[k] == before[k]
  }

  lemma {:induction false} MarkedBucketKept(before: seq<Block>, st: seq<Block>, discard: seq<bool>, bucket: Bucket,
                                            gN: nat)
    requires Kept(before, st, discard, gN)
    ensures Kept(before, PushedBucket(st, bucket, gN), MarkedBucket(st, discard, bucket, gN), gN)
    decreases |bucket|
  {
    if bucket != [] {
      var st1, discard1 := Inserted(st, bucket[0], gN), Marked(st, discard, bucket[0], gN);
      assert Kept(before, st1, discard1, gN);
      MarkedBucketKept(before, st1, discard1, bucket[1..], gN);
    }
  }

  lemma {:induction false} MarkedPathKept(before: seq<Block>, st: seq<Block>, discard: seq<bool>, path: seq<Bucket>,
                                          gN: nat)
    requires Kept(before, st, discard, gN)
    ensures Kept(before, PushedPath(st, path, gN), MarkedPath(st, discard, path, gN), gN)
    decreases |path|
  {
    if path != [] {
      MarkedBucketKept(before, st, discard, path[0], gN);
      MarkedPathKept(before, PushedBucket(st, path[0], gN), MarkedBucket(st, discard, path[0], gN), path[1..], gN);
    }
  }

  /** Two levels differ in the contents of dummies only. */
  ghost predicate SameLevel(a: Level, b: Level, gN: nat) {
    && a.tree == b.tree && a.discard == b.discard && |a.stash| == |b.stash|
    && forall k :: 0 <= k < |a.stash| ==> a.stash[k] == b.stash[k] || (IsBlockDummy(a.stash[k], gN) && IsBlockDummy(b.stash[k], gN))
  }

  ghost predicate SameButDummies(p: Params, a: State, b: State) {
    && a.posmap == b.posmap && |a.levels| == |b.levels| == p.levels + 1
    && forall l :: 1 <= l <= p.levels ==> SameLevel(a.levels[l], b.levels[l], p.gN)
  }

  lemma OpenedThenCleared(p: Params, l: Level, leaf: nat, level: nat)
    requires p.Valid() && 1 <= level <= p.levels && Shaped(l, p.ShapeOf(level))
    ensures SameLevel(ClearedLevel(p, Opened(l, leaf, p.ShapeOf(level)), level), l, p.gN)
    ensures SameLevel(ClearedLevel(p, l, level), l, p.gN)
  {
    if leaf < p.N[level] {
      MarkedPathKept(l.stash, l.stash, l.discard, FetchedPath(l, leaf, p.ShapeOf(level)), p.gN);
    }
  }

  // ----- What is read -----

  /** What access_optimized has found out down to `level`: the label of child c. */
  ghost predicate LookedUp(p: Params, s: State, m: seq<map<nat, Block>>, r: Looked, level: nat, c: nat,
                           dataOut: seq<nat>)
    requires StateShaped(p, s) && level < p.levels
  {
    |m| == p.levels + 1 && c in m[level + 1] && r.leaf == m[level + 1][c].treeLabel && r.dataOut == dataOut
  }

  ghost predicate OpenedDownTo(p: Params, s: State, r: State, level: nat)
    requires StateShaped(p, s) && level <= p.levels
  {
    && |r.levels| == p.levels + 1
    && forall l :: 1 <= l <= p.levels ==> if l <= level then IsOpened(p, s, r, l) else r.levels[l] == s.levels[l]
  }

  ghost predicate IsOpened(p: Params, s: State, r: State, l: nat)
    requires StateShaped(p, s) && 1 <= l <= p.levels && l < |r.levels|
  {
    exists leaf :: r.levels[l] == Opened(s.levels[l], leaf, p.ShapeOf(l))
  }

  function ChildRead(p: Params, s: State, level: nat, c: nat, dataOut: seq<nat>): (r: Looked)
    requires StateShaped(p, s) && level < p.levels
    ensures Openable(p, s, r.state)
  {
    if level == 0 then ReadAccess(p, s, c, NO_POSITION, 0, dataOut)
    else ReadAccess(p, s, c / p.x, c % p.x, level, dataOut)
  }

  lemma ReadUnfolds(p: Params, s: State, l: nat, level: nat, id: nat, pos: nat, dataOut: seq<nat>)
    requires StateShaped(p, s) && l + 1 == level <= p.levels
    ensures ReadAccess(p, s, id, pos, level, dataOut) == ReadBelow(p, s, ChildRead(p, s, l, id, dataOut), id, pos, level)
  {
    hide ReadBelow, Shaped;
  }

  lemma OpenedOneMore(p: Params, s: State, up: Looked, id: nat, pos: nat, l: nat, level: nat)
    requires StateShaped(p, s) && l + 1 == level <= p.levels && Openable(p, s, up.state) && OpenedDownTo(p, s, up.state, l)
    ensures OpenedDownTo(p, s, ReadBelow(p, s, up, id, pos, level).state, level)
  {
    hide Shaped, Opened;
    var r := ReadBelow(p, s, up, id, pos, level).state;
    forall j | 1 <= j <= level
      ensures IsOpened(p, s, r, j)
    {
      if j < level {
        assert IsOpened(p, s, up.state, j);
        var leaf :| up.state.levels[j] == Opened(s.levels[j], leaf, p.ShapeOf(j));
        assert r.levels[j] == Opened(s.levels[j], leaf, p.ShapeOf(j));
      } else {
        assert r.levels[j] == Opened(s.levels[j], up.leaf, p.ShapeOf(j));
      }
    }
  }

  /** Whatever the labels found, the levels down to `level` are opened and the ones below untouched. */
  lemma {:induction false} ReadOpens(p: Params, s: State, id: nat, pos: nat, level: nat, dataOut: seq<nat>)
    requires StateShaped(p, s) && level <= p.levels
    ensures OpenedDownTo(p, s, ReadAccess(p, s, id, pos, level, dataOut).state, level)
    decreases level, 0
  {
    hide Shaped, Opened, AssignedLeaf, AccessedData;
    if level > 0 {
      var l: nat := level - 1;
      ChildOpens(p, s, l, id, dataOut);
      OpenedOneMore(p, s, ChildRead(p, s, l, id, dataOut), id, pos, l, level);
      ReadUnfolds(p, s, l, level, id, pos, dataOut);
    }
  }

  lemma {:induction false} ChildOpens(p: Params, s: State, level: nat, c: nat, dataOut: seq<nat>)
    requires StateShaped(p, s) && level < p.levels
    ensures OpenedDownTo(p, s, ChildRead(p, s, level, c, dataOut).state, level)
    decreases level, 1
  {
    hide Shaped, ReadAccess;
    if level == 0 {
      ReadOpens(p, s, c, NO_POSITION, 0, dataOut);
    } else {
      ReadOpens(p, s, c / p.x, c % p.x, level, dataOut);
    }
  }

  /** The child label read at a recursion level is the one the level records. */
  lemma LevelLooks(p: Params, s: State, m: seq<map<nat, Block>>, level: nat, c: nat)
    requires Contained(p, s, m) && StateShaped(p, s) && 1 <= level < p.levels && c < p.realBlocks[level + 1]
    requires LinkedBut(p, s.posmap, m, level, -1)
    requires c / p.x in m[level] && m[level][c / p.x].treeLabel < p.N[level]
    requires Room(s.levels[level], m[level][c / p.x].treeLabel, p.ShapeOf(level))
    ensures c in m[level + 1]
    ensures AssignedLeaf(Opened(s.levels[level], m[level][c / p.x].treeLabel, p.ShapeOf(level)).stash, c / p.x, c % p.x, p.gN, 0)
            == m[level + 1][c].treeLabel
  {
    assert ChildLinked(p, s.posmap, m, level, c);
    var leaf := m[level][c / p.x].treeLabel;
    var k := FetchFinds(s.levels[level], m[level], leaf, c / p.x, p.ShapeOf(level));
    AssignedLeafIs(FetchedStash(s.levels[level], leaf, p.ShapeOf(level)), c / p.x, c % p.x, p.gN, 0, k);
  }

  lemma {:induction false} ReadLooksUp(p: Params, s: State, m: seq<map<nat, Block>>, level: nat, c: nat,
                                       dataOut: seq<nat>)
    requires Inv(p, s, m) && StateShaped(p, s)
    requires level < p.levels && c < p.realBlocks[level + 1]
    requires level > 0 ==> Roomy(p, s, m, level, c / p.x)
    ensures LookedUp(p, s, m, ChildRead(p, s, level, c, dataOut), level, c, dataOut)
    decreases level
  {
    hide LevelOk, Room, Shaped, Opened, AssignedLeaf;
    assert LinkedBut(p, s.posmap, m, level, -1);
    if level == 0 {
      assert ChildLinked(p, s.posmap, m, 0, c);
    } else {
      var l: nat := level - 1;
      ParentInRange(p, level, c);
      ReadLooksUp(p, s, m, l, c / p.x, dataOut);
      var up := ChildRead(p, s, l, c / p.x, dataOut);
      ChildOpens(p, s, l, c / p.x, dataOut);
      LevelLooks(p, s, m, level, c);
      ReadUnfolds(p, s, l, level, c / p.x, c % p.x, dataOut);
    }
  }

  lemma ReadAtPosmap(p: Params, s: State, m: seq<map<nat, Block>>, id: nat, pos: nat, dataOut: seq<nat>)
    requires Inv(p, s, m) && StateShaped(p, s) && id < p.realBlocks[0]
    ensures id < |s.posmap| && ReadAccess(p, s, id, pos, 0, dataOut) == Looked(s, s.posmap[id], dataOut)
  {
  }

  /** What the recursive call for block c of the next level has done. */
  lemma ReadChild(p: Params, s: State, m: seq<map<nat, Block>>, level: nat, c: nat, dataOut: seq<nat>)
    requires Inv(p, s, m) && StateShaped(p, s)
    requires level < p.levels && c < p.realBlocks[level + 1]
    requires level > 0 ==> Roomy(p, s, m, level, c / p.x)
    ensures var r := ChildRead(p, s, level, c, dataOut);
      && r.leaf < p.N[level + 1] && r.dataOut == dataOut
      && |r.state.levels| == p.levels + 1 && r.state.levels[level + 1] == s.levels[level + 1]
  {
    ReadLooksUp(p, s, m, level, c, dataOut);
    ChildOpens(p, s, level, c, dataOut);
  }

  /** Clearing undoes the pushes at every level. */
  lemma OpenedStateCleared(p: Params, s: State, r: State)
    requires StateShaped(p, s) && Openable(p, s, r) && OpenedDownTo(p, s, r, p.levels)
    ensures forall l :: 1 <= l <= p.levels ==> SameLevel(ClearedLevel(p, r.levels[l], l), s.levels[l], p.gN)
  {
    forall l | 1 <= l <= p.levels
      ensures SameLevel(ClearedLevel(p, r.levels[l], l), s.levels[l], p.gN)
    {
      hide Opened, ClearedLevel, SameLevel;
      assert IsOpened(p, s, r, l);
      var leaf :| r.levels[l] == Opened(s.levels[l], leaf, p.ShapeOf(l));
      OpenedThenCleared(p, s.levels[l], leaf, l);
    }
  }

  /** The data found in the opened stash of the data level. */
  lemma DataLooks(p: Params, s: State, m: seq<map<nat, Block>>, id: nat, dataOut: seq<nat>)
    requires Contained(p, s, m) && StateShaped(p, s) && id in m[p.levels]
    requires m[p.levels][id].treeLabel < p.N[p.levels]
    requires Room(s.levels[p.levels], m[p.levels][id].treeLabel, p.ShapeOf(p.levels))
    ensures AccessedData(Opened(s.levels[p.levels], m[p.levels][id].treeLabel, p.ShapeOf(p.levels)).stash, 'z', id, dataOut)
            == m[p.levels][id].data
  {
    var k := FetchFinds(s.levels[p.levels], m[p.levels], m[p.levels][id].treeLabel, id, p.ShapeOf(p.levels));
  }

  /** A read-only access changes nothing but what the dummies of the stashes contain: in any state, for any id, and
      whether or not the stashes have room. */
  lemma {:induction false} FastReadRestores(p: Params, s: State, id: nat, dataOut: seq<nat>)
    requires StateShaped(p, s) && p.levels < OCCUPANCY_SLOTS
    ensures SameButDummies(p, FastRead(p, s, id, dataOut).0, s)
  {
    hide Shaped, Opened, ClearedLevel, SameLevel, ReadAccess;
    ReadOpens(p, s, id, NO_POSITION, p.levels, dataOut);
    OpenedStateCleared(p, s, ReadAccess(p, s, id, NO_POSITION, p.levels, dataOut).state);
  }

  /** With room for the paths it fetches, it returns the block's data. */
  lemma {:induction false} FastReadRefines(p: Params, s: State, m: seq<map<nat, Block>>, id: nat, dataOut: seq<nat>)
    requires Inv(p, s, m) && StateShaped(p, s) && p.levels < OCCUPANCY_SLOTS && id < p.realBlocks[p.levels]
    requires Roomy(p, s, m, p.levels, id)
    ensures FastRead(p, s, id, dataOut).1 == Contents(p, m)[id]
  {
    hide LevelOk, Room, Shaped, ClearedLevel, Opened, AccessedData, Linked;
    var l: nat := p.levels - 1;
    ParentInRange(p, l, id);
    ReadLooksUp(p, s, m, l, id, dataOut);
    ChildOpens(p, s, l, id, dataOut);
    DataLooks(p, s, m, id, dataOut);
    ReadUnfolds(p, s, l, p.levels, id, NO_POSITION, dataOut);
  }
}
