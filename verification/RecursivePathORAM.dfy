/** Recursive Path ORAM as a state machine on values: PathORAM::access over the position map and the
    levels, the invariant it keeps, and the proof that it behaves like an array of blocks. */
module RecursivePathORAM {
  import opened TreePaths
  import opened Blocks
  import opened Stash
  import opened PathLevel
  import opened PathAccess

  /** uint32_t -1, which callers pass for "no position". */
  const NO_POSITION: nat := UINT32 - 1

  /** The deepest tree whose bucket numbers a signed 32-bit int holds, as the number of leaves is cast to one. */
  const MAX_DEPTH: nat := 30

  /** The scan over the x words of a recursion block, its 8-bit counter at q, ends: the counter gets to x before it wraps
      around to where it started. */
  ghost predicate ScanEnds(x: nat, q: nat)
    decreases UINT8 - q, x
  {
    q >= x || (q + 1 < UINT8 && ScanEnds(x, q + 1))
  }

  /** It ends exactly when x fits eight bits. */
  lemma {:induction false} ScanEndsIff(x: nat, q: nat)
    requires q < UINT8
    ensures ScanEnds(x, q) <==> x < UINT8
    decreases UINT8 - q
  {
    if q < x && q + 1 < UINT8 {
      ScanEndsIff(x, q + 1);
    }
  }

  /** The parameters fixed by SetParams and BuildTreeRecursive; x is the number of labels in a recursion block,
      N, D, realBlocks and filler, the data of a fresh dummy, are indexed by level. */
  datatype Params = Params(levels: nat, x: nat, Z: nat, gN: nat, N: seq<nat>, D: seq<nat>, realBlocks: seq<nat>,
                           filler: seq<seq<nat>>) {
    ghost predicate Valid() {
      && 2 <= levels && 1 <= x && ScanEnds(x, 0) && gN < UINT32
      && |N| == |D| == |realBlocks| == |filler| == levels + 1
      && realBlocks[0] == realBlocks[1]
      && (forall l :: 1 <= l <= levels ==> N[l] == Pow2(D[l]) && D[l] <= MAX_DEPTH && realBlocks[l] <= gN)
      && (forall l :: 1 <= l < levels ==> Covers(l))
    }

    /** The blocks of level l have a slot for the label of every block of level l + 1. */
    predicate Covers(l: nat) {
      l + 1 < |realBlocks| && realBlocks[l + 1] <= realBlocks[l] * x
    }

    function ShapeOf(l: nat): (s: Shape)
      requires l < |N| && l < |D|
    {
      Shape(N[l], D[l], Z, gN)
    }
  }

  /** levels[0] is not used: level 0 is the on-chip position map. */
  datatype State = State(posmap: seq<nat>, levels: seq<Level>)

  // ----- The invariant -----

  /** m[l] is what level l holds, and every id below realBlocks[l] is there. */
  ghost predicate Contained(p: Params, s: State, m: seq<map<nat, Block>>) {
    && p.Valid()
    && |s.levels| == |m| == p.levels + 1 && m[0] == map[]
    && |s.posmap| == p.realBlocks[0]
    && (forall l :: 1 <= l <= p.levels ==> LevelOk(s.levels[l], m[l], p.ShapeOf(l)))
    && (forall l :: 1 <= l <= p.levels ==> forall id :: id in m[l] <==> 0 <= id < p.realBlocks[l])
  }

  /** Level l records treeLabel for block c of level l + 1. */
  ghost predicate Records(p: Params, posmap: seq<nat>, m: seq<map<nat, Block>>, l: nat, c: nat, treeLabel: nat) {
    if l == 0 then c < |posmap| && posmap[c] == treeLabel
    else
      && p.x > 0 && l < |m| && c / p.x in m[l]
      && c % p.x < |m[l][c / p.x].data| && m[l][c / p.x].data[c % p.x] == treeLabel
  }

  ghost predicate ChildLinked(p: Params, posmap: seq<nat>, m: seq<map<nat, Block>>, l: nat, c: nat) {
    l + 1 < |m| && c in m[l + 1] && Records(p, posmap, m, l, c, m[l + 1][c].treeLabel)
  }

  /** Level l records the label of every block of level l + 1, except possibly of block `except`. */
  ghost predicate LinkedBut(p: Params, posmap: seq<nat>, m: seq<map<nat, Block>>, l: nat, except: int) {
    l + 1 < |p.realBlocks| && forall c :: 0 <= c < p.realBlocks[l + 1] && c != except ==> ChildLinked(p, posmap, m, l, c)
  }

  ghost predicate Linked(p: Params, posmap: seq<nat>, m: seq<map<nat, Block>>, from: nat, to: nat) {
    forall l :: from <= l < to ==> LinkedBut(p, posmap, m, l, -1)
  }

  /** The invariant of the whole ORAM, with m what its levels hold. */
  ghost predicate Inv(p: Params, s: State, m: seq<map<nat, Block>>) {
    Contained(p, s, m) && Linked(p, s.posmap, m, 0, p.levels)
  }

  /** The array the ORAM implements. */
  ghost function Contents(p: Params, m: seq<map<nat, Block>>): (a: seq<seq<nat>>)
    requires p.Valid() && |m| == p.levels + 1
    requires forall id :: 0 <= id < p.realBlocks[p.levels] ==> id in m[p.levels]
    ensures |a| == p.realBlocks[p.levels]
  {
    seq(p.realBlocks[p.levels], id requires 0 <= id < p.realBlocks[p.levels] => m[p.levels][id].data)
  }

  // ----- access -----

  /** OAssignNewLabelToBlock on one stash node: relabel the block and exchange one child label. */
  function AssignedBlock(b: Block, id: nat, pos: nat, newleaf: nat, next: nat, gN: nat): Block {
    if b.id == id && !IsBlockDummy(b, gN)
    then Block(b.id, newleaf, if pos < |b.data| then b.data[pos := next] else b.data)
    else b
  }

  function AssignedBlocks(st: seq<Block>, id: nat, pos: nat, newleaf: nat, next: nat, gN: nat): (r: seq<Block>)
    ensures |r| == |st|
  {
    seq(|st|, k requires 0 <= k < |st| => AssignedBlock(st[k], id, pos, newleaf, next, gN))
  }

  /** The child label OAssignNewLabelToBlock reports: the last one it replaced. */
  function AssignedLeaf(st: seq<Block>, id: nat, pos: nat, gN: nat, nextLeaf: nat): nat {
    if st == [] then nextLeaf
    else
      var b := st[|st| - 1];
      if b.id == id && !IsBlockDummy(b, gN) && pos < |b.data| then b.data[pos]
      else AssignedLeaf(st[..|st| - 1], id, pos, gN, nextLeaf)
  }

  lemma {:induction false} AssignedLeafIs(st: seq<Block>, id: nat, pos: nat, gN: nat, nextLeaf: nat, k: nat)
    requires k < |st| && st[k].id == id != gN && pos < |st[k].data|
    requires forall j :: 0 <= j < |st| && st[j].id == id ==> j == k
    ensures AssignedLeaf(st, id, pos, gN, nextLeaf) == st[k].data[pos]
  {
    if k < |st| - 1 {
      AssignedLeafIs(st[..|st| - 1], id, pos, gN, nextLeaf, k);
    }
  }

  /** What an access leaves behind: the state, the label returned, the label drawn for the next level
      and the caller's output buffer. */
  datatype Accessed = Accessed(state: State, leaf: nat, prevSampledLeaf: nat, dataOut: seq<nat>)

  ghost predicate StateShaped(p: Params, s: State) {
    && p.Valid() && |s.levels| == p.levels + 1
    && forall l :: 1 <= l <= p.levels ==> Shaped(s.levels[l], p.ShapeOf(l))
  }

  /** access_oram_level with PathORAM_Access, on the path of `leaf`; a label outside the tree has no path. */
  function AccessLevel(p: Params, l: Level, level: nat, leaf: nat, id: nat, pos: nat, opType: char,
                       newleaf: nat, next: nat, dataIn: seq<nat>, dataOut: seq<nat>): (r: (Level, nat, seq<nat>))
    requires p.Valid() && 1 <= level <= p.levels && Shaped(l, p.ShapeOf(level))
    ensures Shaped(r.0, p.ShapeOf(level))
  {
    var shape := p.ShapeOf(level);
    if leaf >= shape.N then (l, 0, dataOut)
    else
      var st := FetchedStash(l, leaf, shape);
      if level == p.levels then
        var st' := AccessedBlocks(st, opType, id, newleaf, dataIn);
        WrittenBackShaped(l, st', leaf, shape);
        (WrittenBack(l, st', leaf, shape), 0, AccessedData(st, opType, id, dataOut))
      else
        var st' := AssignedBlocks(st, id, pos, newleaf, next, p.gN);
        WrittenBackShaped(l, st', leaf, shape);
        (WrittenBack(l, st', leaf, shape), AssignedLeaf(st, id, pos, p.gN, 0), dataOut)
  }

  /** The leaf drawn at `level` for the block accessed one level below. */
  function NewLeaf(p: Params, level: nat, coins: seq<nat>): (leaf: nat)
    requires p.Valid() && level < p.levels == |coins|
    ensures leaf < p.N[level + 1]
  {
    coins[level] % p.N[level + 1]
  }

  /** leaf is what a random word selects among N leaves: a word below N selects the leaf of that number, so every leaf is
      selected by some word, and a larger one what is left after taking N away. */
  ghost predicate IsDrawn(leaf: nat, word: nat, N: nat) {
    if word < N then leaf == word else N > 0 && IsDrawn(leaf, word - N, N)
  }

  lemma {:induction false} WordDrawn(word: nat, N: nat)
    requires N > 0
    ensures IsDrawn(word % N, word, N)
  {
    if word >= N {
      WordDrawn(word - N, N);
      QuotientUnique(word - N, N, word / N - 1, word % N);
    }
  }

  lemma MulGap(a: int, b: int, N: nat)
    requires a < b
    ensures a * N + N <= b * N
  {
    assert (b - a - 1) * N >= 0;
    assert b * N == a * N + N + (b - a - 1) * N;
  }

  lemma QuotientUnique(a: nat, N: nat, q: int, r: nat)
    requires N > 0 && r < N && a == q * N + r
    ensures a % N == r
  {
    var d, s := a / N, a % N;
    assert a == d * N + s;
    if q < d {
      MulGap(q, d, N);
    } else if d < q {
      MulGap(d, q, N);
    }
  }

  lemma NewLeafIs(p: Params, level: nat, coins: seq<nat>)
    requires p.Valid() && level < p.levels == |coins|
    ensures IsDrawn(NewLeaf(p, level, coins), coins[level], p.N[level + 1])
  {
    WordDrawn(coins[level], p.N[level + 1]);
  }

  /** The part of PathORAM::access at a level above 0 that follows the recursive call. */
  function AccessBelow(p: Params, up: Accessed, id: nat, pos: nat, opType: char, level: nat, dataIn: seq<nat>,
                       coins: seq<nat>): (r: Accessed)
    requires StateShaped(p, up.state) && 1 <= level <= p.levels && |coins| == p.levels
    ensures StateShaped(p, r.state)
  {
    var next := if level == p.levels then NO_POSITION else NewLeaf(p, level, coins);
    var (l, nextLeaf, out) := AccessLevel(p, up.state.levels[level], level, up.leaf, id, pos, opType,
                                          up.prevSampledLeaf, next, dataIn, up.dataOut);
    Accessed(up.state.(levels := up.state.levels[level := l]), nextLeaf,
             if level == p.levels then up.prevSampledLeaf else next, out)
  }

  /** PathORAM::access at level 0: look up and replace the label of block id of level 1. */
  function AccessPosmap(p: Params, s: State, id: nat, dataOut: seq<nat>, coins: seq<nat>): (r: Accessed)
    requires StateShaped(p, s) && |coins| == p.levels
    ensures StateShaped(p, r.state)
  {
    var newleaf := NewLeaf(p, 0, coins);
    if id < |s.posmap|
    then Accessed(s.(posmap := s.posmap[id := newleaf]), s.posmap[id], newleaf, dataOut)
    else Accessed(s, 0, newleaf, dataOut)
  }

  /** PathORAM::access.  coins[l] is the random word drawn at level l. */
  function Access(p: Params, s: State, id: nat, pos: nat, opType: char, level: nat, dataIn: seq<nat>,
                  dataOut: seq<nat>, coins: seq<nat>): (r: Accessed)
    requires StateShaped(p, s) && level <= p.levels && |coins| == p.levels
    ensures StateShaped(p, r.state)
    decreases level
  {
    if level == 0 then AccessPosmap(p, s, id, dataOut, coins)
    else if level == 1 then
      AccessBelow(p, Access(p, s, id, NO_POSITION, opType, 0, dataIn, dataOut, coins), id, pos, opType, 1, dataIn, coins)
    else
      var up := Access(p, s, id / p.x, id % p.x, opType, level - 1, dataIn, dataOut, coins);
      AccessBelow(p, up, id, pos, opType, level, dataIn, coins)
  }
}
