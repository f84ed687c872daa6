/** Enough room, for certain: a stash with as many slots as its level has blocks never overflows, so that with such stashes
    every run is answered as by an array, without any condition on the run. */
module Capacity {
  import opened Blocks
  import opened PathLevel
  import opened PathAccess
  import opened RecursivePathORAM
  import opened Refinement
  import opened ReadOnly
  import opened Runs

  // ----- Counting the real blocks of a level -----

  function IdBelow(k: nat): Block -> bool {
    (b: Block) => b.id < k
  }

  /** P and Q together make R, at every block of the level. */
  ghost predicate SplitAt(s: seq<Block>, P: Block -> bool, Q: Block -> bool, R: Block -> bool) {
    forall k :: 0 <= k < |s| ==> (R(s[k]) <==> P(s[k]) || Q(s[k])) && !(P(s[k]) && Q(s[k]))
  }

  lemma {:induction false} CountIfSplit(s: seq<Block>, P: Block -> bool, Q: Block -> bool, R: Block -> bool)
    requires SplitAt(s, P, Q, R)
    ensures CountIf(s, R) == CountIf(s, P) + CountIf(s, Q)
  {
    if s != [] {
      assert SplitAt(s[1..], P, Q, R);
      CountIfSplit(s[1..], P, Q, R);
    }
  }

  lemma {:induction false} CountBucketsSplit(buckets: seq<Bucket>, P: Block -> bool, Q: Block -> bool, R: Block -> bool)
    requires forall n :: 0 <= n < |buckets| ==> SplitAt(buckets[n], P, Q, R)
    ensures CountBuckets(buckets, R) == CountBuckets(buckets, P) + CountBuckets(buckets, Q)
  {
    if buckets != [] {
      CountIfSplit(buckets[0], P, Q, R);
      assert forall n :: 0 <= n < |buckets[1..]| ==> buckets[1..][n] == buckets[n + 1];
      CountBucketsSplit(buckets[1..], P, Q, R);
    }
  }

  function Total(l: Level, P: Block -> bool): nat {
    CountIf(l.stash, P) + CountBuckets(l.tree, P)
  }

  /** Every real block found in the level is the one the level holds for its id. */
  ghost predicate OnlyHeld(s: seq<Block>, m: map<nat, Block>, gN: nat) {
    forall k :: 0 <= k < |s| && s[k].id != gN ==> s[k].id in m && m[s[k].id] == s[k]
  }

  lemma StashHeld(l: Level, m: map<nat, Block>, shape: Shape)
    requires Holds(l, m, shape)
    ensures OnlyHeld(l.stash, m, shape.gN)
  {
    forall k | 0 <= k < |l.stash| && l.stash[k].id != shape.gN
      ensures l.stash[k].id in m && m[l.stash[k].id] == l.stash[k]
    {
      var b := l.stash[k];
      CountIfBound(l.stash, Is(b));
      assert Occurrences(l, b) > 0;
    }
  }

  lemma TreeHeld(l: Level, m: map<nat, Block>, shape: Shape, n: nat)
    requires Holds(l, m, shape) && n < |l.tree|
    ensures OnlyHeld(l.tree[n], m, shape.gN)
  {
    forall k | 0 <= k < |l.tree[n]| && l.tree[n][k].id != shape.gN
      ensures l.tree[n][k].id in m && m[l.tree[n][k].id] == l.tree[n][k]
    {
      var b := l.tree[n][k];
      CountBucketsZero(l.tree, Is(b));
      assert Occurrences(l, b) > 0;
    }
  }

  /** Of the blocks with an id below k there are k. */
  lemma {:induction false} TotalBelow(l: Level, m: map<nat, Block>, shape: Shape, n: nat, k: nat)
    requires Holds(l, m, shape) && Labelled(m, shape) && k <= n <= shape.gN && forall id :: id in m <==> 0 <= id < n
    ensures Total(l, IdBelow(k)) == k
    decreases k
  {
    StashHeld(l, m, shape);
    forall i | 0 <= i < |l.tree|
      ensures OnlyHeld(l.tree[i], m, shape.gN)
    {
      TreeHeld(l, m, shape, i);
    }
    if k == 0 {
      CountIfBound(l.stash, IdBelow(0));
      CountBucketsZero(l.tree, IdBelow(0));
    } else {
      var j: nat := k - 1;
      TotalBelow(l, m, shape, n, j);
      CountIfSplit(l.stash, IdBelow(j), Is(m[j]), IdBelow(k));
      CountBucketsSplit(l.tree, IdBelow(j), Is(m[j]), IdBelow(k));
      assert Occurrences(l, m[j]) == 1;
    }
  }

  /** Stash and tree together hold as many real blocks as the level has ids. */
  lemma TotalReal(l: Level, m: map<nat, Block>, shape: Shape, n: nat)
    requires Holds(l, m, shape) && Labelled(m, shape) && n <= shape.gN && forall id :: id in m <==> 0 <= id < n
    ensures CountReal(l.stash, shape.gN) + CountBuckets(l.tree, IsReal(shape.gN)) == n
  {
    StashHeld(l, m, shape);
    forall i | 0 <= i < |l.tree|
      ensures SplitAt(l.tree[i], IdBelow(n), IdBelow(0), IsReal(shape.gN))
    {
      TreeHeld(l, m, shape, i);
    }
    TotalBelow(l, m, shape, n, n);
    TotalBelow(l, m, shape, n, 0);
    CountIfSplit(l.stash, IdBelow(n), IdBelow(0), IsReal(shape.gN));
    CountBucketsSplit(l.tree, IdBelow(n), IdBelow(0), IsReal(shape.gN));
  }

  // ----- Room -----

  /** Every stash has a slot for each block of its level. */
  ghost predicate Ample(p: Params, s: State) {
    |s.levels| == p.levels + 1 && |p.realBlocks| == p.levels + 1 &&
    forall l :: 1 <= l <= p.levels ==> |s.levels[l].stash| >= p.realBlocks[l]
  }

  lemma AmpleRoom(p: Params, s: State, m: seq<map<nat, Block>>, level: nat, leaf: nat)
    requires Contained(p, s, m) && StateShaped(p, s) && Ample(p, s) && 1 <= level <= p.levels && leaf < p.N[level]
    ensures Room(s.levels[level], leaf, p.ShapeOf(level))
  {
    var l, shape := s.levels[level], p.ShapeOf(level);
    assert LevelOk(l, m[level], shape);
    TotalReal(l, m[level], shape, p.realBlocks[level]);
    FetchedPathCount(l, leaf, shape, IsReal(shape.gN));
  }

  lemma {:induction false} AmpleRoomy(p: Params, s: State, m: seq<map<nat, Block>>, level: nat, id: nat)
    requires Contained(p, s, m) && StateShaped(p, s) && Ample(p, s) && level <= p.levels && id < p.realBlocks[level]
    ensures Roomy(p, s, m, level, id)
    decreases level
  {
    hide Room, Roomy, LevelOk, Ample;
    if level == 0 {
      RoomyAtPosmap(p, s, m, id);
    } else {
      var l: nat := level - 1;
      LabelInRange(p, s, m, level, id);
      AmpleRoom(p, s, m, level, m[level][id].treeLabel);
      ParentInRange(p, l, id);
      if l == 0 {
        RoomyAtPosmap(p, s, m, id / p.x);
      } else {
        AmpleRoomy(p, s, m, l, id / p.x);
      }
      RoomyStep(p, s, m, l, level, id);
    }
  }

  lemma LabelInRange(p: Params, s: State, m: seq<map<nat, Block>>, level: nat, id: nat)
    requires Contained(p, s, m) && 1 <= level <= p.levels && id < p.realBlocks[level]
    ensures id in m[level] && m[level][id].treeLabel < p.N[level]
  {
    assert LevelOk(s.levels[level], m[level], p.ShapeOf(level));
  }

  lemma RoomyAtPosmap(p: Params, s: State, m: seq<map<nat, Block>>, id: nat)
    requires StateShaped(p, s) && |m| == p.levels + 1
    ensures Roomy(p, s, m, 0, id)
  {
  }

  lemma RoomyStep(p: Params, s: State, m: seq<map<nat, Block>>, l: nat, level: nat, id: nat)
    requires StateShaped(p, s) && |m| == p.levels + 1 && l + 1 == level <= p.levels
    requires id in m[level] && m[level][id].treeLabel < p.N[level]
    requires Room(s.levels[level], m[level][id].treeLabel, p.ShapeOf(level)) && Roomy(p, s, m, l, id / p.x)
    ensures Roomy(p, s, m, level, id)
  {
  }

  // ----- Stashes keep their size -----

  ghost predicate SameSizes(p: Params, a: State, b: State) {
    |a.levels| == |b.levels| == p.levels + 1 &&
    forall l :: 1 <= l <= p.levels ==> |a.levels[l].stash| == |b.levels[l].stash|
  }

  lemma LevelKeepsSize(p: Params, l: Level, level: nat, leaf: nat, id: nat, pos: nat, opType: char, newleaf: nat,
                       next: nat,
                       dataIn: seq<nat>, dataOut: seq<nat>)
    requires p.Valid() && 1 <= level <= p.levels && Shaped(l, p.ShapeOf(level))
    ensures |AccessLevel(p, l, level, leaf, id, pos, opType, newleaf, next, dataIn, dataOut).0.stash| == |l.stash|
  {
  }

  lemma {:induction false} AccessKeepsSizes(p: Params, s: State, id: nat, pos: nat, opType: char, level: nat,
                                            dataIn: seq<nat>,
                                            dataOut: seq<nat>, coins: seq<nat>)
    requires StateShaped(p, s) && level <= p.levels && |coins| == p.levels
    ensures SameSizes(p, Access(p, s, id, pos, opType, level, dataIn, dataOut, coins).state, s)
    decreases level, 0
  {
    hide AccessLevel, Shaped, Access, ChildAccess;
    if level == 0 {
      AccessAtPosmap(p, s, id, pos, opType, dataIn, dataOut, coins);
    } else {
      var l: nat := level - 1;
      AccessUnfolds(p, s, l, level, id, pos, opType, dataIn, dataOut, coins);
      ChildKeepsSizes(p, s, id, opType, l, dataIn, dataOut, coins);
      var up := ChildAccess(p, s, l, id, opType, dataIn, dataOut, coins);
      var next := if level == p.levels then NO_POSITION else NewLeaf(p, level, coins);
      LevelKeepsSize(p, up.state.levels[level], level, up.leaf, id, pos, opType, up.prevSampledLeaf, next, dataIn,
                     up.dataOut);
    }
  }

  lemma {:induction false} ChildKeepsSizes(p: Params, s: State, c: nat, opType: char, l: nat, dataIn: seq<nat>,
                                           dataOut: seq<nat>, coins: seq<nat>)
    requires StateShaped(p, s) && l < p.levels && |coins| == p.levels
    ensures SameSizes(p, ChildAccess(p, s, l, c, opType, dataIn, dataOut, coins).state, s)
    decreases l, 1
  {
    hide Shaped, Access;
    if l == 0 {
      AccessKeepsSizes(p, s, c, NO_POSITION, opType, 0, dataIn, dataOut, coins);
    } else {
      AccessKeepsSizes(p, s, c / p.x, c % p.x, opType, l, dataIn, dataOut, coins);
    }
  }

  lemma RequestKeepsAmple(p: Params, s: State, req: Request)
    requires Consistent(p, s) && Servable(p, req) && req.id < p.realBlocks[p.levels] && Ample(p, s)
    ensures HasRoom(p, s, req.id) && Ample(p, AccessTemp(p, s, req).0)
  {
    hide Access, FastRead, Roomy, LevelOk;
    AmpleRoomy(p, s, MapsOf(p, s), p.levels, req.id);
    if req.opType == 'z' {
      FastReadRestores(p, s, req.id, req.dataOut);
    } else {
      AccessKeepsSizes(p, s, req.id, NO_POSITION, req.opType, p.levels, req.dataIn, req.dataOut, req.coins);
    }
  }

  /** With ample stashes there is room along every run. */
  lemma {:induction false} AmpleAlong(p: Params, s: State, reqs: seq<Request>)
    requires Consistent(p, s) && WellFormed(p, reqs) && Ample(p, s)
    ensures RoomAlong(p, s, reqs)
    decreases |reqs|
  {
    hide AccessTemp, HasRoom, Ample, Inv, MapsOf, Array, ArrayAccess, StateShaped;
    if reqs != [] {
      RequestKeepsAmple(p, s, reqs[0]);
      RequestRefines(p, s, reqs[0]);
      AmpleAlong(p, AccessTemp(p, s, reqs[0]).0, reqs[1..]);
    }
  }

  /** With ample stashes every run, whatever it asks for and whatever leaves are drawn, is answered as by an array. */
  lemma {:induction false} AmpleRunRefinesArray(p: Params, s: State, reqs: seq<Request>)
    requires Consistent(p, s) && WellFormed(p, reqs) && Ample(p, s)
    ensures var r := RunORAM(p, s, reqs);
      && Consistent(p, r.0)
      && (Array(p, r.0), r.1) == RunArray(Array(p, s), reqs)
  {
    hide Inv, MapsOf, StateShaped, AccessTemp, Array, HasRoom;
    AmpleAlong(p, s, reqs);
    RunRefinesArray(p, s, reqs);
  }
}
