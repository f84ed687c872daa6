/** Recursive Path ORAM refines an array of blocks: every access keeps the invariant, returns the block
    last written and changes no other block, whatever leaves are drawn. */
module Refinement {
  import opened Blocks
  import opened Stash
  import opened PathLevel
  import opened PathAccess
  import opened RecursivePathORAM

  /** The stash of every level has room for the path the access to block id of `level` fetches there. */
  ghost predicate Roomy(p: Params, s: State, m: seq<map<nat, Block>>, level: nat, id: nat)
    requires StateShaped(p, s) && |m| == p.levels + 1 && level <= p.levels
    decreases level
  {
    level == 0 ||
    (&& id in m[level] && m[level][id].treeLabel < p.N[level]
     && Room(s.levels[level], m[level][id].treeLabel, p.ShapeOf(level))
     && Roomy(p, s, m, level - 1, id / p.x))
  }

  /** Where there is room for the access there is room for the one it makes above. */
  lemma RoomyAbove(p: Params, s: State, m: seq<map<nat, Block>>, level: nat, id: nat)
    requires StateShaped(p, s) && |m| == p.levels + 1 && 1 <= level <= p.levels && Roomy(p, s, m, level, id)
    ensures Roomy(p, s, m, level - 1, id / p.x)
    ensures level == 1 ==> Roomy(p, s, m, 0, id)
  {
  }

  /** Level `level` holds b as its block id. */
  ghost function WithBlock(m: seq<map<nat, Block>>, level: nat, id: nat, b: Block): (r: seq<map<nat, Block>>)
    requires level < |m|
    ensures |r| == |m|
  {
    var held: map<nat, Block> := m[level][id := b];
    m[level := held]
  }

  /** An access to a recursion level relabels one block and exchanges one child label in it. */
  lemma {:induction false} RecursionLevelAccess(p: Params, l: Level, m: map<nat, Block>, level: nat, id: nat, pos: nat, opType: char,
                                                newleaf: nat, next: nat, dataIn: seq<nat>, dataOut: seq<nat>)
    requires p.Valid() && 1 <= level < p.levels
    requires LevelOk(l, m, p.ShapeOf(level)) && id in m && pos < |m[id].data|
    requires newleaf < p.N[level]
    requires Room(l, m[id].treeLabel, p.ShapeOf(level))
    ensures var r := AccessLevel(p, l, level, m[id].treeLabel, id, pos, opType, newleaf, next, dataIn, dataOut);
      && LevelOk(r.0, m[id := Block(id, newleaf, m[id].data[pos := next])], p.ShapeOf(level))
      && r.1 == m[id].data[pos]
      && r.2 == dataOut
  {
    var shape := p.ShapeOf(level);
    var leaf := m[id].treeLabel;
    var st := FetchedStash(l, leaf, shape);
    var k := FetchFinds(l, m, leaf, id, shape);
    var c := Block(id, newleaf, m[id].data[pos := next]);
    AccessKeepsLevel(l, m, leaf, id, k, c, shape);
    assert AssignedBlocks(st, id, pos, newleaf, next, p.gN) == st[k := c];
    AssignedLeafIs(st, id, pos, p.gN, 0, k);
  }

  /** An access to the data level relabels one block and reads or overwrites its data. */
  lemma {:induction false} DataLevelAccess(p: Params, l: Level, m: map<nat, Block>, id: nat, pos: nat, opType: char,
                                           newleaf: nat, next: nat, dataIn: seq<nat>, dataOut: seq<nat>)
    requires p.Valid() && LevelOk(l, m, p.ShapeOf(p.levels)) && id in m
    requires newleaf < p.N[p.levels]
    requires Room(l, m[id].treeLabel, p.ShapeOf(p.levels))
    ensures var r := AccessLevel(p, l, p.levels, m[id].treeLabel, id, pos, opType, newleaf, next, dataIn, dataOut);
      && LevelOk(r.0, m[id := AccessedBlock(m[id], opType, id, newleaf, dataIn)], p.ShapeOf(p.levels))
      && r.2 == if opType == 'r' || opType == 'z' then m[id].data else dataOut
  {
    var shape := p.ShapeOf(p.levels);
    var leaf := m[id].treeLabel;
    var st := FetchedStash(l, leaf, shape);
    var k := FetchFinds(l, m, leaf, id, shape);
    var c := AccessedBlock(m[id], opType, id, newleaf, dataIn);
    AccessKeepsLevel(l, m, leaf, id, k, c, shape);
    assert AccessedBlocks(st, opType, id, newleaf, dataIn) == st[k := c];
  }

  /** Quotient and remainder identify a block. */
  lemma DivModUnique(c: nat, d: nat, x: nat)
    requires x > 0 && c / x == d / x && c % x == d % x
    ensures c == d
  {
    assert c == x * (c / x) + c % x;
    assert d == x * (d / x) + d % x;
  }

  lemma QuotientBelow(c: nat, n: nat, x: nat)
    requires x > 0 && c < n * x
    ensures c / x < n
  {
    var q := c / x;
    assert c == q * x + c % x;
    assert (n - q) * x == n * x - q * x > 0;
  }

  lemma ParentInRange(p: Params, level: nat, c: nat)
    requires p.Valid() && level < p.levels && c < p.realBlocks[level + 1]
    ensures level == 0 ==> c < p.realBlocks[0]
    ensures level >= 1 ==> c / p.x < p.realBlocks[level]
  {
    if level > 0 {
      assert p.Covers(level);
      QuotientBelow(c, p.realBlocks[level], p.x);
    }
  }

  /** What the recursive calls up to `level` have done on behalf of child c of that level: a fresh label is
      recorded for c and its old label is known; nothing else has changed for the levels below. */
  ghost predicate Prepared(p: Params, s: State, m: seq<map<nat, Block>>, r: Accessed, m': seq<map<nat, Block>>,
                           level: nat, c: nat, dataOut: seq<nat>)
    requires p.Valid() && level < p.levels && |m| == |s.levels| == p.levels + 1 && c in m[level + 1]
  {
    && Contained(p, r.state, m')
    && m'[level + 1..] == m[level + 1..]
    && r.state.levels[level + 1..] == s.levels[level + 1..]
    && Linked(p, r.state.posmap, m', 0, level)
    && LinkedBut(p, r.state.posmap, m', level, c)
    && Records(p, r.state.posmap, m', level, c, r.prevSampledLeaf)
    && Linked(p, r.state.posmap, m', level + 1, p.levels)
    && r.prevSampledLeaf < p.N[level + 1]
    && r.leaf == m[level + 1][c].treeLabel
    && r.dataOut == dataOut
  }

  lemma PosmapPrepares(p: Params, s: State, m: seq<map<nat, Block>>, c: nat, dataOut: seq<nat>, coins: seq<nat>)
    requires Inv(p, s, m) && |coins| == p.levels && c < p.realBlocks[1]
    ensures StateShaped(p, s)
    ensures Prepared(p, s, m, AccessPosmap(p, s, c, dataOut, coins), m, 0, c, dataOut)
  {
    var r := AccessPosmap(p, s, c, dataOut, coins);
    assert LinkedBut(p, s.posmap, m, 0, -1);
    assert ChildLinked(p, s.posmap, m, 0, c);
    forall d | 0 <= d < p.realBlocks[1] && d != c
      ensures ChildLinked(p, r.state.posmap, m, 0, d)
    {
      assert ChildLinked(p, s.posmap, m, 0, d);
    }
    LinkedAbove(p, s.posmap, r.state.posmap, m, m, 1);
  }

  /** Links between levels that did not change still hold. */
  lemma LinkedAbove(p: Params, posmap: seq<nat>, posmap': seq<nat>, m: seq<map<nat, Block>>, m': seq<map<nat,
                    Block>>, from: nat)
    requires p.Valid() && 1 <= from <= p.levels && |m| == |m'| == p.levels + 1
    requires m'[from..] == m[from..] && Linked(p, posmap, m, from, p.levels)
    ensures Linked(p, posmap', m', from, p.levels)
  {
    assert forall l :: from <= l <= p.levels ==> m'[l] == m'[from..][l - from] == m[l];
    forall l | from <= l < p.levels
      ensures LinkedBut(p, posmap', m', l, -1)
    {
      assert LinkedBut(p, posmap, m, l, -1);
      forall c | 0 <= c < p.realBlocks[l + 1]
        ensures ChildLinked(p, posmap', m', l, c)
      {
        assert ChildLinked(p, posmap, m, l, c);
      }
    }
  }

  /** The levels above `level` are as before, so their links still hold. */
  lemma LinkedBelow(p: Params, posmap: seq<nat>, m: seq<map<nat, Block>>, m': seq<map<nat, Block>>, to: nat)
    requires p.Valid() && to < p.levels && |m| == |m'| == p.levels + 1
    requires forall l :: 0 <= l <= to ==> m'[l] == m[l]
    requires Linked(p, posmap, m, 0, to)
    ensures Linked(p, posmap, m', 0, to)
  {
    forall l | 0 <= l < to
      ensures LinkedBut(p, posmap, m', l, -1)
    {
      assert LinkedBut(p, posmap, m, l, -1);
      forall c | 0 <= c < p.realBlocks[l + 1]
        ensures ChildLinked(p, posmap, m', l, c)
      {
        assert ChildLinked(p, posmap, m, l, c);
      }
    }
  }

  /** Once block id of level l + 1 carries the label recorded for it, the link to it holds again. */
  lemma LinkRestored(p: Params, posmap: seq<nat>, m: seq<map<nat, Block>>, l: nat, id: nat, b: Block)
    requires p.Valid() && l < p.levels && |m| == p.levels + 1
    requires LinkedBut(p, posmap, m, l, id)
    requires Records(p, posmap, m, l, id, b.treeLabel)
    ensures LinkedBut(p, posmap, WithBlock(m, l + 1, id, b), l, -1)
  {
    var m' := WithBlock(m, l + 1, id, b);
    forall c | 0 <= c < p.realBlocks[l + 1]
      ensures ChildLinked(p, posmap, m', l, c)
    {
      if c != id {
        assert ChildLinked(p, posmap, m, l, c);
      }
    }
  }

  /** Exchanging the label kept for child c touches the link to c only. */
  lemma LinkExchanged(p: Params, posmap: seq<nat>, m: seq<map<nat, Block>>, level: nat, c: nat, newleaf: nat, next: nat)
    requires p.Valid() && 1 <= level < p.levels && |m| == p.levels + 1 && c < p.realBlocks[level + 1]
    requires LinkedBut(p, posmap, m, level, -1)
    ensures c / p.x in m[level] && c % p.x < |m[level][c / p.x].data|
    ensures c in m[level + 1] && m[level][c / p.x].data[c % p.x] == m[level + 1][c].treeLabel
    ensures var m' := WithBlock(m, level, c / p.x, Block(c / p.x, newleaf, m[level][c / p.x].data[c % p.x := next]));
      LinkedBut(p, posmap, m', level, c) && Records(p, posmap, m', level, c, next)
  {
    assert ChildLinked(p, posmap, m, level, c);
    var id, pos := c / p.x, c % p.x;
    var m' := WithBlock(m, level, id, Block(id, newleaf, m[level][id].data[pos := next]));
    forall d | 0 <= d < p.realBlocks[level + 1] && d != c
      ensures ChildLinked(p, posmap, m', level, d)
    {
      assert ChildLinked(p, posmap, m, level, d);
      if d / p.x == id && d % p.x == pos {
        DivModUnique(c, d, p.x);
      }
    }
  }

  /** Giving block id = c / x the label recorded for it, and a fresh label for c, moves the one link that does
      not hold from id to c. */
  lemma LinksAdvance(p: Params, posmap: seq<nat>, m: seq<map<nat, Block>>, level: nat, c: nat, newleaf: nat, next: nat)
    requires p.Valid() && 1 <= level < p.levels && |m| == p.levels + 1 && c < p.realBlocks[level + 1]
    requires Linked(p, posmap, m, 0, level - 1)
    requires LinkedBut(p, posmap, m, level - 1, c / p.x) && Records(p, posmap, m, level - 1, c / p.x, newleaf)
    requires Linked(p, posmap, m, level, p.levels)
    ensures c / p.x in m[level] && c % p.x < |m[level][c / p.x].data|
    ensures c in m[level + 1] && m[level][c / p.x].data[c % p.x] == m[level + 1][c].treeLabel
    ensures var m' := WithBlock(m, level, c / p.x, Block(c / p.x, newleaf, m[level][c / p.x].data[c % p.x := next]));
      && Linked(p, posmap, m', 0, level)
      && LinkedBut(p, posmap, m', level, c) && Records(p, posmap, m', level, c, next)
      && Linked(p, posmap, m', level + 1, p.levels)
  {
    var id, pos := c / p.x, c % p.x;
    assert LinkedBut(p, posmap, m, level, -1);
    LinkExchanged(p, posmap, m, level, c, newleaf, next);
    var b := Block(id, newleaf, m[level][id].data[pos := next]);
    var m' := WithBlock(m, level, id, b);
    LinkRestored(p, posmap, m, level - 1, id, b);
    LinkedBelow(p, posmap, m, m', level - 1);
    LinkedAbove(p, posmap, posmap, m, m', level + 1);
  }

  // ----- The labels given out -----

  /** The leaves drawn at the levels of an access. */
  function Draws(p: Params, coins: seq<nat>): (leaves: seq<nat>)
    requires p.Valid() && |coins| == p.levels
    ensures |leaves| == p.levels
  {
    seq(p.levels, l requires 0 <= l < p.levels => NewLeaf(p, l, coins))
  }

  /** What an access changes on the way to block c of level + 1: the map records leaves[0] for the first block on the way,
      and the block of every level l on the way gets the label leaves[l - 1] and records leaves[l] for the next one. */
  ghost predicate WayRelabelled(p: Params, posmap: seq<nat>, m: seq<map<nat, Block>>, posmap': seq<nat>,
                                m': seq<map<nat, Block>>, level: nat, c: nat, leaves: seq<nat>)
    requires p.Valid() && level < p.levels == |leaves| && |m| == |m'| == p.levels + 1
    decreases level
  {
    if level == 0 then c < |posmap| && posmap' == posmap[c := leaves[0]]
    else
      && BlockRelabelled(m[level], m'[level], c / p.x, c % p.x, leaves[level - 1], leaves[level])
      && WayRelabelled(p, posmap, m, posmap', m', level - 1, c / p.x, leaves)
  }

  /** One level: block id gets the label newleaf, and records next in place pos. */
  ghost predicate BlockRelabelled(held: map<nat, Block>, held': map<nat, Block>, id: nat, pos: nat, newleaf: nat,
                                  next: nat)
  {
    && id in held && pos < |held[id].data|
    && held' == held[id := Block(id, newleaf, held[id].data[pos := next])]
  }

  lemma {:induction false} WaySame(p: Params, posmap: seq<nat>, m: seq<map<nat, Block>>, posmap': seq<nat>,
                                   m1: seq<map<nat, Block>>, m2: seq<map<nat, Block>>, level: nat, c: nat, leaves: seq<nat>)
    requires p.Valid() && level < p.levels == |leaves| && |m| == |m1| == |m2| == p.levels + 1
    requires forall l :: 0 <= l <= level ==> m2[l] == m1[l]
    requires WayRelabelled(p, posmap, m, posmap', m1, level, c, leaves)
    ensures WayRelabelled(p, posmap, m, posmap', m2, level, c, leaves)
    decreases level
  {
    if level > 0 {
      WaySame(p, posmap, m, posmap', m1, m2, level - 1, c / p.x, leaves);
    }
  }

  lemma WayStep(p: Params, posmap: seq<nat>, m: seq<map<nat, Block>>, posmap': seq<nat>, m1: seq<map<nat, Block>>,
                l: nat, level: nat, c: nat, leaves: seq<nat>, b: Block)
    requires p.Valid() && l + 1 == level < p.levels == |leaves| && |m| == |m1| == p.levels + 1 && m1[level] == m[level]
    requires WayRelabelled(p, posmap, m, posmap', m1, l, c / p.x, leaves)
    requires c / p.x in m[level] && c % p.x < |m[level][c / p.x].data|
    requires b == Block(c / p.x, leaves[l], m[level][c / p.x].data[c % p.x := leaves[level]])
    ensures WayRelabelled(p, posmap, m, posmap', WithBlock(m1, level, c / p.x, b), level, c, leaves)
  {
    WaySame(p, posmap, m, posmap', m1, WithBlock(m1, level, c / p.x, b), l, c / p.x, leaves);
  }

  /** The label reported for the next level is the one drawn. */
  lemma ChildSamples(p: Params, s: State, level: nat, c: nat, opType: char, dataIn: seq<nat>, dataOut: seq<nat>,
                     coins: seq<nat>)
    requires StateShaped(p, s) && level < p.levels && |coins| == p.levels
    ensures ChildAccess(p, s, level, c, opType, dataIn, dataOut, coins).prevSampledLeaf == Draws(p, coins)[level]
  {
    hide AccessLevel, Shaped, Access;
    if level == 0 {
      AccessAtPosmap(p, s, c, NO_POSITION, opType, dataIn, dataOut, coins);
    } else {
      AccessUnfolds(p, s, level - 1, level, c / p.x, c % p.x, opType, dataIn, dataOut, coins);
    }
  }

  /** One level of the recursion: given what the calls above have prepared for block id = c / x, the access at
      `level` prepares child c. */
  lemma LevelPrepares(p: Params, s: State, m: seq<map<nat, Block>>, up: Accessed, m1: seq<map<nat, Block>>,
                      level: nat, c: nat, opType: char, dataIn: seq<nat>, dataOut: seq<nat>, coins: seq<nat>)
    returns (m2: seq<map<nat, Block>>)
    requires Inv(p, s, m) && 1 <= level < p.levels && c < p.realBlocks[level + 1] && |coins| == p.levels
    requires StateShaped(p, s) && StateShaped(p, up.state) && Roomy(p, s, m, level, c / p.x)
    requires c / p.x in m[level] && c in m[level + 1] && Prepared(p, s, m, up, m1, level - 1, c / p.x, dataOut)
    ensures Prepared(p, s, m, AccessBelow(p, up, c / p.x, c % p.x, opType, level, dataIn, coins), m2, level, c, dataOut)
    ensures m1[level] == m[level] && c % p.x < |m[level][c / p.x].data|
    ensures m2 == WithBlock(m1, level, c / p.x, Block(c / p.x, up.prevSampledLeaf,
                                                      m[level][c / p.x].data[c % p.x := NewLeaf(p, level, coins)]))
  {
    var id, pos := c / p.x, c % p.x;
    var next := NewLeaf(p, level, coins);
    LevelUnchanged(p, s, m, up, m1, level);
    LinksAdvance(p, up.state.posmap, m1, level, c, up.prevSampledLeaf, next);
    RecursionLevelAccess(p, up.state.levels[level], m1[level], level, id, pos, opType, up.prevSampledLeaf, next,
                         dataIn, up.dataOut);
    var b := Block(id, up.prevSampledLeaf, m1[level][id].data[pos := next]);
    m2 := WithBlock(m1, level, id, b);
    var l' := AccessLevel(p, up.state.levels[level], level, up.leaf, id, pos, opType, up.prevSampledLeaf, next, dataIn, up.dataOut).0;
    LevelReplaced(p, up.state, m1, level, id, l', b);
  }

  lemma LevelUnchanged(p: Params, s: State, m: seq<map<nat, Block>>, up: Accessed, m1: seq<map<nat, Block>>, level: nat)
    requires p.Valid() && 1 <= level <= p.levels && |m| == |m1| == |s.levels| == |up.state.levels| == p.levels + 1
    requires m1[level..] == m[level..] && up.state.levels[level..] == s.levels[level..]
    ensures m1[level] == m[level] && up.state.levels[level] == s.levels[level]
    ensures level < p.levels ==> m1[level + 1] == m[level + 1]
    ensures m1[level + 1..] == m[level + 1..] && up.state.levels[level + 1..] == s.levels[level + 1..]
  {
    assert m1[level] == m1[level..][0] && up.state.levels[level] == up.state.levels[level..][0];
    assert m1[level + 1..] == m1[level..][1..] && up.state.levels[level + 1..] == up.state.levels[level..][1..];
    if level < p.levels {
      assert m1[level + 1] == m1[level..][1];
    }
  }

  /** Replacing one level and one of its blocks keeps every level sound. */
  lemma LevelReplaced(p: Params, s: State, m: seq<map<nat, Block>>, level: nat, id: nat, l: Level, b: Block)
    requires Contained(p, s, m) && 1 <= level <= p.levels && id in m[level]
    requires LevelOk(l, m[level][id := b], p.ShapeOf(level))
    ensures Contained(p, s.(levels := s.levels[level := l]), WithBlock(m, level, id, b))
  {
  }

  /** The call made at `level` to learn and replace the label of block c of the level below. */
  function ChildAccess(p: Params, s: State, level: nat, c: nat, opType: char, dataIn: seq<nat>, dataOut: seq<nat>,
                       coins: seq<nat>): (r: Accessed)
    requires StateShaped(p, s) && level < p.levels && |coins| == p.levels
    ensures StateShaped(p, r.state)
  {
    if level == 0 then Access(p, s, c, NO_POSITION, opType, 0, dataIn, dataOut, coins)
    else Access(p, s, c / p.x, c % p.x, opType, level, dataIn, dataOut, coins)
  }

  lemma AccessAtPosmap(p: Params, s: State, id: nat, pos: nat, opType: char, dataIn: seq<nat>, dataOut: seq<nat>,
                       coins: seq<nat>)
    requires StateShaped(p, s) && |coins| == p.levels
    ensures Access(p, s, id, pos, opType, 0, dataIn, dataOut, coins) == AccessPosmap(p, s, id, dataOut, coins)
  {
  }

  lemma AccessUnfolds(p: Params, s: State, l: nat, level: nat, id: nat, pos: nat, opType: char, dataIn: seq<nat>,
                      dataOut: seq<nat>, coins: seq<nat>)
    requires StateShaped(p, s) && l + 1 == level <= p.levels && |coins| == p.levels
    ensures Access(p, s, id, pos, opType, level, dataIn, dataOut, coins) ==
            AccessBelow(p, ChildAccess(p, s, l, id, opType, dataIn, dataOut, coins), id, pos, opType, level, dataIn, coins)
  {
    hide AccessBelow, AccessPosmap, Shaped;
  }

  lemma LevelPreparesWay(p: Params, s: State, m: seq<map<nat, Block>>, up: Accessed, m1: seq<map<nat, Block>>,
                         l: nat, level: nat, c: nat, opType: char, dataIn: seq<nat>, dataOut: seq<nat>, coins: seq<nat>)
    returns (m2: seq<map<nat, Block>>)
    requires Inv(p, s, m) && l + 1 == level < p.levels && c < p.realBlocks[level + 1] && |coins| == p.levels
    requires StateShaped(p, s) && StateShaped(p, up.state) && Roomy(p, s, m, level, c / p.x)
    requires c / p.x in m[level] && c in m[level + 1] && Prepared(p, s, m, up, m1, l, c / p.x, dataOut)
    requires |m1| == |m| == p.levels + 1 && up.prevSampledLeaf == Draws(p, coins)[l]
    requires WayRelabelled(p, s.posmap, m, up.state.posmap, m1, l, c / p.x, Draws(p, coins))
    ensures |m2| == p.levels + 1
    ensures Prepared(p, s, m, AccessBelow(p, up, c / p.x, c % p.x, opType, level, dataIn, coins), m2, level, c, dataOut)
    ensures WayRelabelled(p, s.posmap, m, AccessBelow(p, up, c / p.x, c % p.x, opType, level, dataIn, coins).state.posmap, m2,
                          level, c, Draws(p, coins))
  {
    hide LevelOk, Linked, LinkedBut, Records, Contained, Prepared, Roomy, AccessLevel, WayRelabelled, Shaped;
    m2 := LevelPrepares(p, s, m, up, m1, level, c, opType, dataIn, dataOut, coins);
    WayStep(p, s.posmap, m, up.state.posmap, m1, l, level, c, Draws(p, coins),
            Block(c / p.x, up.prevSampledLeaf, m[level][c / p.x].data[c % p.x := NewLeaf(p, level, coins)]));
  }

  lemma WayAtPosmap(p: Params, s: State, m: seq<map<nat, Block>>, c: nat, opType: char, dataIn: seq<nat>,
                    dataOut: seq<nat>, coins: seq<nat>)
    requires Inv(p, s, m) && StateShaped(p, s) && |coins| == p.levels && c < p.realBlocks[1]
    ensures |m| == p.levels + 1
    ensures WayRelabelled(p, s.posmap, m, ChildAccess(p, s, 0, c, opType, dataIn, dataOut, coins).state.posmap, m, 0, c,
                          Draws(p, coins))
  {
    hide LevelOk, Linked, Shaped;
  }

  /** The recursion of PathORAM::access through the position map levels. */
  lemma {:induction false} AccessPrepares(p: Params, s: State, m: seq<map<nat, Block>>, level: nat, c: nat,
                                          opType: char,
                                          dataIn: seq<nat>, dataOut: seq<nat>, coins: seq<nat>)
    returns (m': seq<map<nat, Block>>)
    requires Inv(p, s, m) && StateShaped(p, s) && |coins| == p.levels
    requires level < p.levels && c < p.realBlocks[level + 1]
    requires level > 0 ==> Roomy(p, s, m, level, c / p.x)
    ensures c in m[level + 1] && |m'| == |m| == p.levels + 1
    ensures Prepared(p, s, m, ChildAccess(p, s, level, c, opType, dataIn, dataOut, coins), m', level, c, dataOut)
    ensures WayRelabelled(p, s.posmap, m, ChildAccess(p, s, level, c, opType, dataIn, dataOut, coins).state.posmap, m', level, c,
                          Draws(p, coins))
    decreases level
  {
    hide LevelOk, Linked, AccessBelow, WayRelabelled;
    if level == 0 {
      PosmapPrepares(p, s, m, c, dataOut, coins);
      m' := m;
      WayAtPosmap(p, s, m, c, opType, dataIn, dataOut, coins);
    } else {
      ParentInRange(p, level, c);
      var l: nat := level - 1;
      var m1 := AccessPrepares(p, s, m, l, c / p.x, opType, dataIn, dataOut, coins);
      var up := ChildAccess(p, s, l, c / p.x, opType, dataIn, dataOut, coins);
      ChildSamples(p, s, l, c / p.x, opType, dataIn, dataOut, coins);
      m' := LevelPreparesWay(p, s, m, up, m1, l, level, c, opType, dataIn, dataOut, coins);
      AccessUnfolds(p, s, l, level, c / p.x, c % p.x, opType, dataIn, dataOut, coins);
    }
  }

  /** Whatever the levels above report for block c is the label of a path of its level. */
  lemma ChildLeafInRange(p: Params, s: State, m: seq<map<nat, Block>>, level: nat, c: nat, opType: char,
                         dataIn: seq<nat>, dataOut: seq<nat>, coins: seq<nat>)
    requires Inv(p, s, m) && StateShaped(p, s) && |coins| == p.levels
    requires level < p.levels && c < p.realBlocks[level + 1]
    requires level > 0 ==> Roomy(p, s, m, level, c / p.x)
    ensures ChildAccess(p, s, level, c, opType, dataIn, dataOut, coins).leaf < p.N[level + 1]
  {
    hide Linked, ChildAccess, Access;
    var m' := AccessPrepares(p, s, m, level, c, opType, dataIn, dataOut, coins);
  }

  /** Giving block id of the data level the label recorded for it restores every link. */
  lemma LinksComplete(p: Params, posmap: seq<nat>, m: seq<map<nat, Block>>, l: nat, id: nat, b: Block)
    requires p.Valid() && l + 1 == p.levels && |m| == p.levels + 1
    requires Linked(p, posmap, m, 0, l)
    requires LinkedBut(p, posmap, m, l, id) && Records(p, posmap, m, l, id, b.treeLabel)
    ensures Linked(p, posmap, WithBlock(m, p.levels, id, b), 0, p.levels)
  {
    LinkRestored(p, posmap, m, l, id, b);
    LinkedBelow(p, posmap, m, WithBlock(m, p.levels, id, b), l);
  }

  lemma ContentsAfter(p: Params, m: seq<map<nat, Block>>, m1: seq<map<nat, Block>>, id: nat, b: Block)
    requires p.Valid() && |m| == |m1| == p.levels + 1 && m1[p.levels] == m[p.levels] && id < p.realBlocks[p.levels]
    requires forall i :: 0 <= i < p.realBlocks[p.levels] ==> i in m[p.levels]
    ensures Contents(p, WithBlock(m1, p.levels, id, b)) == Contents(p, m)[id := b.data]
    ensures b.data == m[p.levels][id].data ==> Contents(p, WithBlock(m1, p.levels, id, b)) == Contents(p, m)
  {
  }

  lemma IdKept(p: Params, s: State, m: seq<map<nat, Block>>, id: nat)
    requires Contained(p, s, m) && id in m[p.levels]
    ensures m[p.levels][id].id == id
  {
    assert LevelOk(s.levels[p.levels], m[p.levels], p.ShapeOf(p.levels));
  }

  /** The last level of an access: given what the calls above have prepared for block id, the access to the data
      level restores the invariant. */
  lemma DataLevelRefines(p: Params, s: State, m: seq<map<nat, Block>>, up: Accessed, m1: seq<map<nat, Block>>,
                         l: nat, id: nat, opType: char, dataIn: seq<nat>, dataOut: seq<nat>, coins: seq<nat>)
    returns (m': seq<map<nat, Block>>)
    requires Inv(p, s, m) && l + 1 == p.levels && id < p.realBlocks[p.levels] && |coins| == p.levels
    requires StateShaped(p, s) && StateShaped(p, up.state) && Roomy(p, s, m, p.levels, id)
    requires id in m[p.levels] && Prepared(p, s, m, up, m1, l, id, dataOut)
    ensures m1[p.levels] == m[p.levels] && m[p.levels][id].id == id
    ensures m' == WithBlock(m1, p.levels, id, AccessedBlock(m[p.levels][id], opType, id, up.prevSampledLeaf, dataIn))
    ensures var r := AccessBelow(p, up, id, NO_POSITION, opType, p.levels, dataIn, coins);
      && Inv(p, r.state, m')
      && r.dataOut == (if opType == 'r' || opType == 'z' then m[p.levels][id].data else dataOut)
  {
    hide LevelOk, Linked, LinkedBut, Records, AccessLevel, Room;
    IdKept(p, s, m, id);
    var level := p.levels;
    LevelUnchanged(p, s, m, up, m1, level);
    DataLevelAccess(p, up.state.levels[level], m1[level], id, NO_POSITION, opType, up.prevSampledLeaf, NO_POSITION,
                    dataIn, up.dataOut);
    var b := AccessedBlock(m1[level][id], opType, id, up.prevSampledLeaf, dataIn);
    m' := WithBlock(m1, level, id, b);
    LinksComplete(p, up.state.posmap, m1, l, id, b);
    var l' := AccessLevel(p, up.state.levels[level], level, up.leaf, id, NO_POSITION, opType, up.prevSampledLeaf, NO_POSITION, dataIn, up.dataOut).0;
    LevelReplaced(p, up.state, m1, level, id, l', b);
  }

  /** A full access at the data level: the invariant is kept, a read returns the block's data, a write
      replaces it, the blocks on the way get the labels drawn, and nothing else changes. */
  lemma {:induction false} AccessRefines(p: Params, s: State, m: seq<map<nat, Block>>, id: nat, opType: char,
                                         dataIn: seq<nat>, dataOut: seq<nat>, coins: seq<nat>)
    returns (r: Accessed, m': seq<map<nat, Block>>)
    requires Inv(p, s, m) && StateShaped(p, s) && |coins| == p.levels
    requires id < p.realBlocks[p.levels] && Roomy(p, s, m, p.levels, id)
    ensures r == Access(p, s, id, NO_POSITION, opType, p.levels, dataIn, dataOut, coins)
    ensures Inv(p, r.state, m')
    ensures |m| == |m'| == p.levels + 1 && id in m[p.levels]
    ensures WayRelabelled(p, s.posmap, m, r.state.posmap, m', p.levels - 1, id, Draws(p, coins))
    ensures m'[p.levels] == m[p.levels][id := Block(id, Draws(p, coins)[p.levels - 1],
                                                    if opType == 'w' then dataIn else m[p.levels][id].data)]
    ensures Contents(p, m') == if opType == 'w' then Contents(p, m)[id := dataIn] else Contents(p, m)
    ensures r.dataOut == if opType == 'r' || opType == 'z' then Contents(p, m)[id] else dataOut
  {
    hide LevelOk, Room, Linked, LinkedBut, Records, Access, AccessLevel, ChildAccess, WayRelabelled, Shaped;
    var l: nat := p.levels - 1;
    var up := ChildAccess(p, s, l, id, opType, dataIn, dataOut, coins);
    ParentInRange(p, l, id);
    var m1 := AccessPrepares(p, s, m, l, id, opType, dataIn, dataOut, coins);
    r := AccessBelow(p, up, id, NO_POSITION, opType, p.levels, dataIn, coins);
    m' := DataLevelRefines(p, s, m, up, m1, l, id, opType, dataIn, dataOut, coins);
    ChildSamples(p, s, l, id, opType, dataIn, dataOut, coins);
    WaySame(p, s.posmap, m, up.state.posmap, m1, m', l, id, Draws(p, coins));
    ContentsAfter(p, m, m1, id, AccessedBlock(m[p.levels][id], opType, id, up.prevSampledLeaf, dataIn));
    AccessUnfolds(p, s, l, p.levels, id, NO_POSITION, opType, dataIn, dataOut, coins);
  }
}
