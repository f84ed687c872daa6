/** Setting up an ORAM instance: ORAMTree::BuildTreeRecursive and PathORAM::Initialize. */
module ORAMTree {
  import opened TreePaths
  import opened Blocks
  import opened PathLevel
  import opened RecursivePathORAM
  import opened ReadOnly
  import opened Runs
  import opened Capacity
  import opened Build
  import opened Sizing
  import S = Stash
  import LS = LocalStorage
  import PathORAMController

  /** Bucket::reset_values: every slot becomes a dummy; the data stays. */
  function Reset(temp: Bucket, gN: nat): (r: Bucket)
    ensures |r| == |temp|
    ensures forall q :: 0 <= q < |temp| ==> IsBlockDummy(r[q], gN)
  {
    seq(|temp|, q requires 0 <= q < |temp| => Block(gN, 0, temp[q].data))
  }

  /** The labels copied into block id are those of its children. */
  lemma NextRecord(prevPmap: seq<nat>, id: nat, x: nat, total: nat)
    requires id < total && total * x <= |prevPmap|
    ensures id * x + x <= |prevPmap| && RecordsChildren(prevPmap[id * x..id * x + x], prevPmap, id, x)
  {
    MulLe(id + 1, total, x);
    Distribute(id, 1, x);
  }

  /** The bucket is encrypted where it is, so the next one starts from the ciphertexts. */
  function Encrypted(temp: Bucket, encrypt: seq<nat> -> seq<nat>): (r: Bucket)
    ensures |r| == |temp|
  {
    seq(|temp|, q requires 0 <= q < |temp| => temp[q].(data := encrypt(temp[q].data)))
  }

  /** A leaf bucket built earlier is not affected by what is written for later blocks. */
  lemma LeafBuiltKept(tree: seq<Bucket>, leafOf: seq<nat>, data: seq<seq<nat>>, tree': seq<Bucket>, leafOf': seq<nat>,
                      data': seq<seq<nat>>, shape: Shape, j: nat, k: nat)
    requires shape.N > 0 && j < k && LeafBuilt(tree, leafOf, data, shape, j)
    requires |tree'| == |tree| && |leafOf'| == |leafOf| && |data'| == |data|
    requires tree'[shape.N - 1 + j] == tree[shape.N - 1 + j]
    requires First(k, |data|, shape.N) <= |data| && First(k, |data|, shape.N) <= |leafOf|
    requires forall id :: 0 <= id < First(k, |data|, shape.N) ==> leafOf'[id] == leafOf[id] && data'[id] == data[id]
    ensures LeafBuilt(tree', leafOf', data', shape, j)
  {
    FirstMonotone(j + 1, k, |data|, shape.N);
  }

  lemma LeafBuiltSame(tree: seq<Bucket>, tree': seq<Bucket>, leafOf: seq<nat>, data: seq<seq<nat>>, shape: Shape,
                      j: nat)
    requires shape.N > 0 && LeafBuilt(tree, leafOf, data, shape, j)
    requires |tree'| == |tree| && tree'[shape.N - 1 + j] == tree[shape.N - 1 + j]
    ensures LeafBuilt(tree', leafOf, data, shape, j)
  {
  }

  lemma LeafBuiltNew(tree: seq<Bucket>, leafOf: seq<nat>, data: seq<seq<nat>>, shape: Shape, leaf: nat)
    requires shape.N > 0 && shape.N + leaf <= |tree| && |tree[shape.N - 1 + leaf]| == shape.Z
    requires First(leaf + 1, |data|, shape.N) <= |data| <= |leafOf|
    requires LeafSize(leaf, |data|, shape.N) <= shape.Z
    requires LeafHolds(tree[shape.N - 1 + leaf], First(leaf, |data|, shape.N), LeafSize(leaf, |data|, shape.N), leaf, data, shape.gN)
    requires forall id :: First(leaf, |data|, shape.N) <= id < First(leaf + 1, |data|, shape.N) ==> leafOf[id] == leaf
    ensures LeafBuilt(tree, leafOf, data, shape, leaf)
  {
  }

  class ORAMTree {
    const p: Params
    const maxBlocksLevel: seq<nat>
    const storage: seq<LS.LocalStorage<Bucket>>
    var posmap: array<nat>

    constructor (p: Params, maxBlocksLevel: seq<nat>, storage: seq<LS.LocalStorage<Bucket>>)
      ensures this.p == p && this.maxBlocksLevel == maxBlocksLevel && this.storage == storage
    {
      this.p := p;
      this.maxBlocksLevel := maxBlocksLevel;
      this.storage := storage;
      posmap := new nat[0];
    }

    /** The sizes SetParams has chosen suit the blocks to be stored. */
    ghost predicate Ready() {
      && p.Valid() && |maxBlocksLevel| == |storage| == p.levels + 1
      && (forall l :: 1 <= l <= p.levels ==> LevelReady(l))
      && (forall l, k :: 0 <= l < k <= p.levels ==> storage[l].entries != storage[k].entries)
    }

    ghost predicate LevelReady(l: nat)
      requires p.Valid() && |maxBlocksLevel| == |storage| == p.levels + 1 && 1 <= l <= p.levels
    {
      && storage[l].entries.Length == 2 * p.N[l] - 1
      && p.realBlocks[l] <= maxBlocksLevel[l] && p.realBlocks[l] <= p.N[l] * p.Z
      && (l < p.levels ==> p.realBlocks[l] * p.x <= maxBlocksLevel[l + 1])
    }

    ghost function EntriesUpTo(level: nat): set<object>
      requires level < |storage|
    {
      set l | 1 <= l <= level :: storage[l].entries
    }

    /** The blocks of one leaf bucket. */
    method FillLeaf(temp0: Bucket, level: nat, leaf: nat, label0: nat, size: nat, prevPmap: array?<nat>,
                    posmapL: array<nat>)
      returns (temp: Bucket)
      requires p.Valid() && 1 <= level <= p.levels && size <= |temp0| && label0 + size <= posmapL.Length
      requires level < p.levels ==> prevPmap != null && (label0 + size) * p.x <= prevPmap.Length && prevPmap != posmapL
      modifies posmapL
      ensures |temp| == |temp0|
      ensures forall q :: 0 <= q < |temp| ==>
        temp[q] == if q < size then Block(label0 + q, leaf, temp[q].data) else temp0[q]
      ensures level < p.levels ==> forall q :: 0 <= q < size ==> RecordsChildren(temp[q].data, prevPmap[..], label0 + q, p.x)
      ensures forall id :: 0 <= id < posmapL.Length ==>
        posmapL[id] == if label0 <= id < label0 + size then leaf else old(posmapL[id])
    {
      hide RecordsChildren;
      temp := temp0;
      var id := label0;
      for q := 0 to size
        invariant |temp| == |temp0| && id == label0 + q
        invariant forall k :: 0 <= k < |temp| ==> temp[k] == if k < q then Block(label0 + k, leaf, temp[k].data) else temp0[k]
        invariant level < p.levels ==> forall k :: 0 <= k < q ==> RecordsChildren(temp[k].data, prevPmap[..], label0 + k, p.x)
        invariant forall k :: 0 <= k < posmapL.Length ==>
          posmapL[k] == if label0 <= k < label0 + q then leaf else old(posmapL[k])
      {
        ghost var before := temp;
        temp := temp[q := Block(id, leaf, temp[q].data)];
        if level < p.levels {
          NextRecord(prevPmap[..], id, p.x, label0 + size);
          temp := temp[q := temp[q].(data := prevPmap[id * p.x..id * p.x + p.x])];
          assert temp[q].data == prevPmap[..][id * p.x..id * p.x + p.x];
        }
        posmapL[temp[q].id] := temp[q].treeLabel;
        id := id + 1;
      }
    }

    /** What the leaf buckets before `leaf` must satisfy. */
    ghost predicate LeavesBuilt(level: nat, leaf: nat, leafOf: seq<nat>, data: seq<seq<nat>>, prevPmap: array?<nat>)
      requires Ready() && 1 <= level <= p.levels && (level < p.levels ==> prevPmap != null)
      reads storage[level].entries, prevPmap
    {
      && |data| == p.realBlocks[level] && First(leaf, |data|, p.N[level]) <= |data|
      && (forall j :: 0 <= j < leaf ==> LeafBuilt(storage[level].entries[..], leafOf, data, p.ShapeOf(level), j))
      && (level < p.levels ==>
            forall id :: 0 <= id < First(leaf, |data|, p.N[level]) ==> RecordsChildren(data[id], prevPmap[..], id, p.x))
    }

    /** One turn of the loop over the leaf buckets: build, upload, encrypt. */
    method BuildLeaf(level: nat, leaf: nat, temp0: Bucket, ghost data0: seq<seq<nat>>, label0: nat, size: nat,
                     prevPmap: array?<nat>, posmapL: array<nat>, encrypt: seq<nat> -> seq<nat>)
      returns (temp: Bucket, ghost data: seq<seq<nat>>)
      requires Ready() && 1 <= level <= p.levels && leaf < p.N[level] && p.realBlocks[level] <= posmapL.Length
      requires level < p.levels ==> prevPmap != null && p.realBlocks[level] * p.x <= prevPmap.Length && prevPmap != posmapL
      requires |temp0| == p.Z && LeavesBuilt(level, leaf, posmapL[..], data0, prevPmap)
      requires label0 == First(leaf, p.realBlocks[level], p.N[level]) && size == LeafSize(leaf, p.realBlocks[level], p.N[level])
      modifies posmapL, storage[level].entries
      ensures |temp| == p.Z && LeavesBuilt(level, leaf + 1, posmapL[..], data, prevPmap)
    {
      hide First, LeafSize, LeafBuilt, RecordsChildren;
      assert LevelReady(level);
      ghost var R, N, shape := p.realBlocks[level], p.N[level], p.ShapeOf(level);
      ghost var tree0, leafOf0 := storage[level].entries[..], posmapL[..];
      LeafFits(R, N, p.Z, leaf);
      if level < p.levels {
        MulLe(label0 + size, R, p.x);
      }
      temp := FillLeaf(Reset(temp0, p.gN), level, leaf, label0, size, prevPmap, posmapL);
      storage[level].UploadObject(leaf + p.N[level], temp);
      data := seq(R, id requires 0 <= id < R => if label0 <= id < label0 + size then temp[id - label0].data else data0[id]);
      LeafBuiltNew(storage[level].entries[..], posmapL[..], data, shape, leaf);
      forall j | 0 <= j < leaf
        ensures LeafBuilt(storage[level].entries[..], posmapL[..], data, shape, j)
      {
        LeafBuiltKept(tree0, leafOf0, data0, storage[level].entries[..], posmapL[..], data, shape, j, leaf);
      }
      temp := Encrypted(temp, encrypt);
    }

    /** The last level of one tree: real blocks are dealt out evenly, in the order of their ids. */
    method BuildLeaves(level: nat, prevPmap: array?<nat>, posmapL: array<nat>, encrypt: seq<nat> -> seq<nat>)
      returns (temp: Bucket, ghost data: seq<seq<nat>>)
      requires Ready() && 1 <= level <= p.levels && p.realBlocks[level] <= posmapL.Length
      requires level < p.levels ==> prevPmap != null && p.realBlocks[level] * p.x <= prevPmap.Length && prevPmap != posmapL
      modifies posmapL, storage[level].entries
      ensures |temp| == p.Z && LeavesBuilt(level, p.N[level], posmapL[..], data, prevPmap)
    {
      hide First, LeafSize;
      var R, N := p.realBlocks[level], p.N[level];
      DealStep(0, R, N);
      var blocksPerBucket := R / N;
      var c := R - blocksPerBucket * N;
      var cnt, treeLabel := 0, 0;
      temp := seq(p.Z, _ => Block(p.gN, 0, p.filler[level]));
      data := seq(R, _ => []);
      for leaf := 0 to N
        invariant treeLabel == First(leaf, R, N) && cnt == (if leaf < c then leaf else c)
        invariant |temp| == p.Z && LeavesBuilt(level, leaf, posmapL[..], data, prevPmap)
      {
        hide LeavesBuilt;
        DealStep(leaf, R, N);
        var blocksInThisBucket := blocksPerBucket;
        if cnt < c {
          blocksInThisBucket := blocksInThisBucket + 1;
          cnt := cnt + 1;
        }
        temp, data := BuildLeaf(level, leaf, temp, data, treeLabel, blocksInThisBucket, prevPmap, posmapL, encrypt);
        treeLabel := treeLabel + blocksInThisBucket;
      }
    }

    /** The other levels of the tree hold dummies. */
    method BuildUpperLevels(level: nat, temp0: Bucket, encrypt: seq<nat> -> seq<nat>)
      requires Ready() && 1 <= level <= p.levels && |temp0| == p.Z
      modifies storage[level].entries
      ensures forall n :: 0 <= n < storage[level].entries.Length ==>
        if n < p.N[level] - 1 then EmptyBucket(storage[level].entries[n], p.ShapeOf(level))
        else storage[level].entries[n] == old(storage[level].entries[n])
    {
      assert LevelReady(level);
      var temp := temp0;
      for i := p.N[level] - 1 downto 0
        invariant |temp| == p.Z
        invariant forall n :: i <= n < p.N[level] - 1 ==> EmptyBucket(storage[level].entries[n], p.ShapeOf(level))
        invariant forall n :: p.N[level] - 1 <= n < 2 * p.N[level] - 1 ==> storage[level].entries[n] == old(storage[level].entries[n])
      {
        temp := Reset(temp, p.gN);
        storage[level].UploadObject(i + 1, temp);
        temp := Encrypted(temp, encrypt);
      }
    }

    /** One level of BuildTreeRecursive. */
    method BuildLevel(level: nat, prevPmap: array?<nat>, encrypt: seq<nat> -> seq<nat>)
      returns (posmapL: array<nat>, ghost data: seq<seq<nat>>)
      requires Ready() && 1 <= level <= p.levels
      requires level < p.levels ==> prevPmap != null && prevPmap.Length == maxBlocksLevel[level + 1]
      modifies storage[level].entries
      ensures fresh(posmapL) && posmapL.Length == maxBlocksLevel[level]
      ensures TreeBuilt(level, posmapL[..], data) && |data| == p.realBlocks[level]
      ensures level < p.levels ==> Recorded(data, prevPmap[..], p.x)
    {
      hide LeafBuilt, EmptyBucket;
      assert LevelReady(level);
      posmapL := new nat[maxBlocksLevel[level]];
      var temp;
      temp, data := BuildLeaves(level, prevPmap, posmapL, encrypt);
      DealtOut(p.realBlocks[level], p.N[level], p.Z);
      ghost var tree := storage[level].entries[..];
      BuildUpperLevels(level, temp, encrypt);
      forall j | 0 <= j < p.N[level]
        ensures LeafBuilt(storage[level].entries[..], posmapL[..], data, p.ShapeOf(level), j)
      {
        LeafBuiltSame(tree, storage[level].entries[..], posmapL[..], data, p.ShapeOf(level), j);
      }
    }

    /** Level 0 of BuildTreeRecursive: the on-chip map is a copy of the last position map. */
    method BuildPosmap(prevPmap: array<nat>)
      requires Ready() && prevPmap.Length == maxBlocksLevel[1]
      modifies this`posmap
      ensures fresh(posmap) && Copied(posmap[..], prevPmap[..])
    {
      assert LevelReady(1);
      posmap := new nat[p.realBlocks[0]](i requires 0 <= i < p.realBlocks[0] reads prevPmap => prevPmap[i]);
    }

    ghost predicate TreeBuilt(l: nat, leafOf: seq<nat>, data: seq<seq<nat>>)
      requires Ready() && 1 <= l <= p.levels
      reads storage[l].entries
    {
      BuiltTree(storage[l].entries[..], leafOf, data, p.ShapeOf(l)) && |data| == p.realBlocks[l]
    }

    /** The levels 1 .. level are built, and each records the leaves of the next. */
    ghost predicate AllBuilt(level: nat, leafOf: seq<seq<nat>>, data: seq<seq<seq<nat>>>)
      requires Ready() && level <= p.levels
      reads EntriesUpTo(level)
    {
      && |leafOf| == |data| == level + 1
      && (forall l :: 1 <= l <= level ==> TreeBuilt(l, leafOf[l], data[l]))
      && (forall l :: 1 <= l < level ==> Recorded(data[l], leafOf[l + 1], p.x))
    }

    /** The on-chip map is the part of a position map that belongs to real blocks. */
    ghost predicate Copied(map_: seq<nat>, leaves: seq<nat>)
      requires p.Valid()
    {
      p.realBlocks[0] <= |leaves| && map_ == leaves[..p.realBlocks[0]]
    }

    lemma OneMoreBuilt(level: nat, leafOf: seq<seq<nat>>, data: seq<seq<seq<nat>>>, leafOf0: seq<nat>,
                       data0: seq<seq<nat>>)
      requires Ready() && 1 <= level <= p.levels && AllBuilt(level - 1, leafOf, data) && TreeBuilt(level, leafOf0, data0)
      requires level >= 2 ==> Recorded(data[level - 1], leafOf0, p.x)
      ensures AllBuilt(level, leafOf + [leafOf0], data + [data0])
    {
      hide TreeBuilt, Recorded, Ready;
    }

    lemma NotAbove(level: nat)
      requires Ready() && 1 <= level <= p.levels
      ensures storage[level].entries !in EntriesUpTo(level - 1)
    {
    }

    /** ORAMTree::BuildTreeRecursive: build this level, then the smaller ones from its position map. */
    method BuildTreeRecursive(level: nat, prevPmap: array?<nat>, encrypt: seq<nat> -> seq<nat>)
      returns (ghost leafOf: seq<seq<nat>>, ghost data: seq<seq<seq<nat>>>)
      requires Ready() && level <= p.levels
      requires level < p.levels ==> prevPmap != null && prevPmap.Length == maxBlocksLevel[level + 1]
      modifies this`posmap, EntriesUpTo(level)
      ensures AllBuilt(level, leafOf, data)
      ensures 1 <= level < p.levels ==> Recorded(data[level], prevPmap[..], p.x)
      ensures fresh(posmap) && Copied(posmap[..], if level == 0 then prevPmap[..] else leafOf[1])
    {
      hide Recorded, LevelReady, TreeBuilt, Copied, BuiltTree;
      if level == 0 {
        BuildPosmap(prevPmap);
        leafOf, data := [[]], [[]];
      } else {
        var posmapL;
        ghost var data0;
        posmapL, data0 := BuildLevel(level, prevPmap, encrypt);
        ghost var leafOf0 := posmapL[..];
        NotAbove(level);
        leafOf, data := BuildTreeRecursive(level - 1, posmapL, encrypt);
        OneMoreBuilt(level, leafOf, data, leafOf0, data0);
        leafOf, data := leafOf + [leafOf0], data + [data0];
      }
    }
  }

  /** The levels are sized for their real blocks. */
  ghost predicate SizesSuit(p: Params, max: seq<nat>)
    requires p.Valid()
  {
    && |max| == p.levels + 1
    && (forall l :: 1 <= l <= p.levels ==> p.realBlocks[l] <= max[l] && p.realBlocks[l] <= p.N[l] * p.Z)
    && (forall l :: 1 <= l < p.levels ==> p.realBlocks[l] * p.x <= max[l + 1])
  }

  /** The parameters of the levels, as SetParams and BuildTreeRecursive compute them. */
  function LevelParams(s: Sizes, x: nat, levels: nat, Z: nat, recursionData: seq<nat>, data: seq<nat>): (p: Params)
    requires Z >= 1 && |s.real_| == |s.max| == levels + 1 && forall l :: 1 <= l <= levels ==> s.max[l] >= 1
  {
    var D := seq(levels + 1, l requires 0 <= l <= levels => if l == 0 then 0 else DepthOf(s.max[l], Z));
    var N := seq(levels + 1, l requires 0 <= l <= levels => if l == 0 then s.max[0] else Pow2(D[l]));
    Params(levels, x, Z, s.gN, N, D, s.real_, seq(levels + 1, l => if l == levels then data else recursionData))
  }

  /** n, rounded up to a multiple of x^(levels - 1), is at most B. */
  predicate RoundedUpWithin(n: nat, x: nat, levels: nat, B: nat)
    requires levels >= 1
  {
    Pow(x, levels - 1) >= 1 && n <= B / Pow(x, levels - 1) * Pow(x, levels - 1)
  }

  /** The sizes fit the widths of the source: 32 bits for an id, eight for the scan over the labels of a block, and a
      signed int for the number of leaves. */
  predicate FitWidths(n: nat, x: nat, levels: nat, Z: nat)
    requires levels >= 1
  {
    x < UINT8 && RoundedUpWithin(n, x, levels, UINT32 - 1) && RoundedUpWithin(n, x, levels, Pow2(MAX_DEPTH) * Z)
  }

  /** Exactly then no id, scan or tree is too large. */
  lemma FitWidthsIff(s: Sizes, n: nat, x: nat, limit: nat, levels: nat, Z: nat)
    requires x > 0 && n >= 1 && Z >= 1 && SizesOf(s, n, x, limit, levels) && StopsAt(n, x, limit, levels - 1)
    ensures forall l :: 1 <= l <= levels ==> s.max[l] >= 1
    ensures FitWidths(n, x, levels, Z) <==>
      ScanEnds(x, 0) && s.gN < UINT32 && forall l :: 1 <= l <= levels ==> DepthOf(s.max[l], Z) <= MAX_DEPTH
  {
    hide DepthOf, Pow2, Pow, CeilDiv, Packed, Unpacked, StopsAt;
    LevelsFit(s, n, x, limit, levels, Z);
    ScanEndsIff(x, 0);
    DummyIdWithin(s, n, x, limit, levels, UINT32 - 1);
    DummyIdWithin(s, n, x, limit, levels, Pow2(MAX_DEPTH) * Z);
    SizesFit(s, n, x, limit, levels);
    forall l | 1 <= l <= levels
      ensures DepthOf(s.max[l], Z) <= MAX_DEPTH <==> s.max[l] <= Pow2(MAX_DEPTH) * Z
    {
      DepthWithinIff(s.max[l], Z, MAX_DEPTH);
    }
    assert s.gN == s.max[levels];
  }

  /** Such sizes make a valid ORAM, for the depth computeRecursionLevels returns. */
  lemma LevelParamsSuit(s: Sizes, n: nat, x: nat, limit: nat, levels: nat, Z: nat, recursionData: seq<nat>,
                        data: seq<nat>)
    requires Z >= 1 && n >= 1 && x >= 2 && levels >= 1 && FitWidths(n, x, levels, Z)
    requires SizesOf(s, n, x, limit, levels) && StopsAt(n, x, limit, levels - 1)
    ensures |s.real_| == |s.max| == levels + 1 && forall l :: 1 <= l <= levels ==> s.max[l] >= 1
    ensures var p := LevelParams(s, x, levels, Z, recursionData, data);
      && p.Valid() && SizesSuit(p, s.max) && p.realBlocks[levels] == n
      && forall l :: 0 <= l <= levels ==> p.realBlocks[l] <= n
  {
    hide DepthOf, Pow2, Pow, CeilDiv, Packed, Unpacked, FitWidths;
    SizesFit(s, n, x, limit, levels);
    LevelsFit(s, n, x, limit, levels, Z);
    FitWidthsIff(s, n, x, limit, levels, Z);
    var p := LevelParams(s, x, levels, Z, recursionData, data);
    forall l | 1 <= l < levels
      ensures p.Covers(l)
    {
    }
  }

  /** The number of slots for labels that level l - 1 has when level 1 has `first` blocks. */
  function LabelSlots(first: nat, x: nat, l: nat): (n: nat)
    requires l >= 1
  {
    first * Pow(x, l - 1)
  }

  /** d is the least depth at which the leaf buckets hold that many blocks. */
  ghost predicate LeastDepth(d: nat, blocks: nat, Z: nat) {
    blocks <= Pow2(d) * Z && (d > 0 ==> Pow2(d - 1) * Z < blocks)
  }

  /** How large everything is: each level has as many blocks as it takes to record the labels of the next, x to a block; the
      labels of level 1 fit on the chip; a tree is no deeper than the slots for all labels of the level above call for; and the
      dummy id is the number of those slots at the last level. */
  ghost predicate SizedFor(p: Params, n: nat, x: nat, limit: nat, Z: nat) {
    && p.Valid() && p.x == x && p.Z == Z && p.realBlocks[p.levels] == n
    && p.realBlocks[0] == p.realBlocks[1] && p.realBlocks[1] * 4 <= limit
    && (forall l :: 1 <= l < p.levels ==> p.realBlocks[l + 1] <= p.realBlocks[l] * x < p.realBlocks[l + 1] + x)
    && (forall l :: 1 <= l <= p.levels ==> LeastDepth(p.D[l], LabelSlots(p.realBlocks[1], x, l), Z))
    && p.gN == LabelSlots(p.realBlocks[1], x, p.levels)
  }

  lemma DepthIsLeast(s: Sizes, n: nat, x: nat, limit: nat, levels: nat, Z: nat, l: nat)
    requires Z >= 1 && n >= 1 && x >= 2 && 1 <= l <= levels
    requires SizesOf(s, n, x, limit, levels) && StopsAt(n, x, limit, levels - 1)
    ensures s.real_[0] == s.real_[1] && s.max[l] >= 1
    ensures LeastDepth(DepthOf(s.max[l], Z), LabelSlots(s.real_[1], x, l), Z)
  {
    hide DepthOf, Pow2, Pow, CeilDiv, Packed, Unpacked;
    var k :| StopsAt(n, x, limit, k) && s.max[1] == Packed(n, x, k);
    StopsOnce(n, x, limit, k, levels - 1);
    PackedBounds(n, x, k);
    LevelsFit(s, n, x, limit, levels, Z);
    UnpackedOnce(s.max[1], x, l);
    LeavesCover(s.max[l], Z);
  }

  lemma LevelParamsSized(s: Sizes, n: nat, x: nat, limit: nat, levels: nat, Z: nat, recursionData: seq<nat>,
                         data: seq<nat>)
    requires Z >= 1 && n >= 1 && x >= 2 && levels >= 1 && FitWidths(n, x, levels, Z)
    requires SizesOf(s, n, x, limit, levels) && StopsAt(n, x, limit, levels - 1)
    ensures |s.real_| == |s.max| == levels + 1 && forall l :: 1 <= l <= levels ==> s.max[l] >= 1
    ensures SizedFor(LevelParams(s, x, levels, Z, recursionData, data), n, x, limit, Z)
  {
    hide Params.Valid, DepthOf, Pow, FitWidths, SizesOf, StopsAt, LeastDepth;
    LevelParamsSuit(s, n, x, limit, levels, Z, recursionData, data);
    SizesFit(s, n, x, limit, levels);
    DummyIdIs(s, n, x, limit, levels);
    forall l: nat | 1 <= l <= levels
      ensures LeastDepth(DepthOf(s.max[l], Z), LabelSlots(s.real_[1], x, l), Z)
    {
      DepthIsLeast(s, n, x, limit, levels, Z, l);
    }
    DepthIsLeast(s, n, x, limit, levels, Z, 1);
  }

  lemma TreeReady(tree: ORAMTree)
    requires tree.p.Valid() && SizesSuit(tree.p, tree.maxBlocksLevel) && |tree.storage| == tree.p.levels + 1
    requires forall l :: 1 <= l <= tree.p.levels ==> tree.storage[l].entries.Length == 2 * tree.p.N[l] - 1
    requires forall l, k :: 0 <= l < k <= tree.p.levels ==> tree.storage[l].entries != tree.storage[k].entries
    ensures tree.Ready()
  {
  }

  /** A stash for every level, each with its own list. */
  method SetupStashes(p: Params, stashSize: nat) returns (stashes: seq<S.Stash>)
    requires p.Valid()
    ensures |stashes| == p.levels + 1 && fresh(stashes)
    ensures forall l :: 0 <= l <= p.levels ==> StashReady(stashes[l], p, l, stashSize)
    ensures forall l, k :: 0 <= l < k <= p.levels ==> stashes[l] != stashes[k]
  {
    stashes := [];
    for l := 0 to p.levels + 1
      invariant |stashes| == l && fresh(stashes)
      invariant forall k :: 0 <= k < l ==> StashReady(stashes[k], p, k, stashSize)
      invariant forall j, k :: 0 <= j < k < l ==> stashes[j] != stashes[k]
    {
      var stash := new S.Stash(stashSize, p.filler[l], p.gN);
      stashes := stashes + [stash];
    }
  }

  ghost predicate StashReady(stash: S.Stash, p: Params, l: nat, stashSize: nat)
    requires p.Valid() && l <= p.levels
    reads stash
  {
    && stash.Valid() && stash.gN == p.gN && stash.filler == p.filler[l] && |stash.blocks| == stashSize
    && forall k :: 0 <= k < stashSize ==> IsBlockDummy(stash.blocks[k], p.gN) && !stash.discard[k]
  }

  /** Storage for the tree of every level. */
  method SetupStorage(p: Params) returns (storages: seq<LS.LocalStorage<Bucket>>)
    requires p.Valid()
    ensures |storages| == p.levels + 1
    ensures forall l :: 0 <= l <= p.levels ==> fresh(storages[l]) && fresh(storages[l].entries)
    ensures forall l :: 1 <= l <= p.levels ==> storages[l].entries.Length == 2 * p.N[l] - 1
    ensures forall l, k :: 0 <= l < k <= p.levels ==> storages[l].entries != storages[k].entries
  {
    storages := [];
    for l := 0 to p.levels + 1
      invariant |storages| == l
      invariant forall k :: 0 <= k < l ==> fresh(storages[k]) && fresh(storages[k].entries)
      invariant forall k :: 1 <= k < l ==> storages[k].entries.Length == 2 * p.N[k] - 1
      invariant forall j, k :: 0 <= j < k < l ==> storages[j].entries != storages[k].entries
    {
      var storage := new LS.LocalStorage<Bucket>(if l == 0 then 0 else 2 * p.N[l] - 1, []);
      storages := storages + [storage];
    }
  }

  /** The controller over freshly built trees and empty stashes is in a consistent state. */
  lemma InitiallyConsistent(oram: PathORAMController.PathORAM, tree: ORAMTree, leafOf: seq<seq<nat>>,
                            data: seq<seq<seq<nat>>>,
                            stashSize: nat)
    requires tree.Ready() && oram.p == tree.p && oram.storage == tree.storage && oram.posmap == tree.posmap
    requires oram.Wired() && tree.AllBuilt(oram.p.levels, leafOf, data)
    requires forall l :: 0 <= l <= oram.p.levels ==> StashReady(oram.recursiveStash[l], oram.p, l, stashSize)
    requires tree.Copied(oram.posmap[..], leafOf[1])
    ensures Consistent(oram.p, oram.TheState())
  {
    hide Recorded, BuiltTree;
    var p, s := oram.p, oram.TheState();
    forall l | 1 <= l <= p.levels
      ensures LevelBuilt(p, s.levels[l], leafOf[l], data[l], l)
    {
      assert tree.LevelReady(l) && tree.TreeBuilt(l, leafOf[l], data[l]) && StashReady(oram.recursiveStash[l], p, l, stashSize);
      assert s.levels[l] == oram.LevelOf(l);
    }
    BuildEstablishes(p, s, leafOf, data);
  }

  lemma ValidLevels(p: Params)
    requires p.Valid()
    ensures p.levels >= 2 && |p.N| == |p.D| == |p.realBlocks| == |p.filler| == p.levels + 1
  {
  }

  /** ORAMTree::Initialize: set up the stashes and build the trees. */
  method InitializeTree(p: Params, maxBlocksLevel: seq<nat>, stashSize: nat, encrypt: seq<nat> -> seq<nat>)
    returns (oram: PathORAMController.PathORAM)
    requires p.Valid() && SizesSuit(p, maxBlocksLevel)
    ensures fresh(oram) && fresh(oram.posmap) && fresh(oram.recursiveStash) && fresh(oram.Entries())
    ensures oram.p == p && oram.Wired() && Consistent(p, oram.TheState())
    ensures forall l :: 1 <= l <= p.levels ==> |oram.recursiveStash[l].blocks| == stashSize
  {
    hide Params.Valid, Consistent, Recorded, BuiltTree, SizesSuit, ORAMTree.LevelReady, ORAMTree.Ready, ORAMTree.TreeBuilt;
    ValidLevels(p);
    var stashes := SetupStashes(p, stashSize);
    var storages := SetupStorage(p);
    var tree := new ORAMTree(p, maxBlocksLevel, storages);
    TreeReady(tree);
    ghost var leafOf, data := tree.BuildTreeRecursive(p.levels, null, encrypt);
    oram := new PathORAMController.PathORAM(p, tree.posmap, stashes, storages);
    InitiallyConsistent(oram, tree, leafOf, data, stashSize);
  }

  /** PathORAM::Initialize: size the levels, then build them.  generateData gives the contents of fresh blocks. */
  method Initialize(Z: nat, maxBlocks: nat, dataSize: nat, stashSize: nat, recursionDataSize: nat, recursionLevels: nat,
                    onchipPosmapMemLimit: nat, generateData: nat -> seq<nat>, encrypt: seq<nat> -> seq<nat>)
    returns (oram: PathORAMController.PathORAM)
    requires 1 <= Z < UINT8 && maxBlocks >= 1 && recursionDataSize >= 8 && onchipPosmapMemLimit >= 4
    requires recursionLevels >= 2 && StopsAt(maxBlocks, recursionDataSize / 4, onchipPosmapMemLimit, recursionLevels - 1)
    requires FitWidths(maxBlocks, recursionDataSize / 4, recursionLevels, Z)
    ensures fresh(oram) && fresh(oram.posmap) && fresh(oram.recursiveStash) && fresh(oram.Entries())
    ensures oram.Wired() && oram.p.Z == Z && oram.p.levels == recursionLevels && oram.p.realBlocks[recursionLevels] == maxBlocks
    ensures Consistent(oram.p, oram.TheState())
    ensures SizedFor(oram.p, maxBlocks, recursionDataSize / 4, onchipPosmapMemLimit, Z)
    ensures forall l :: 1 <= l <= recursionLevels ==> |oram.recursiveStash[l].blocks| == stashSize
    ensures stashSize >= maxBlocks ==> Ample(oram.p, oram.TheState())
    ensures recursionLevels < OCCUPANCY_SLOTS <==>
            maxBlocks <= onchipPosmapMemLimit / 4 * Pow(recursionDataSize / 4, OCCUPANCY_SLOTS - 2)
  {
    hide Params.Valid, Consistent, StopsAt, SizesOf, FitWidths, Pow, SizedFor;
    var x := recursionDataSize / 4;
    var maxBlocksLevel, realMaxBlocksLevel, gN := SetParams(maxBlocks, x, onchipPosmapMemLimit, recursionLevels);
    RoundsWithinIff(maxBlocks, x, onchipPosmapMemLimit, recursionLevels - 1, OCCUPANCY_SLOTS - 2);
    var sizes := Sizes(realMaxBlocksLevel[..], maxBlocksLevel[..], gN);
    LevelParamsSuit(sizes, maxBlocks, x, onchipPosmapMemLimit, recursionLevels, Z, generateData(recursionDataSize),
                    generateData(dataSize));
    LevelParamsSized(sizes, maxBlocks, x, onchipPosmapMemLimit, recursionLevels, Z, generateData(recursionDataSize),
                     generateData(dataSize));
    var p := LevelParams(sizes, x, recursionLevels, Z, generateData(recursionDataSize), generateData(dataSize));
    oram := InitializeTree(p, maxBlocksLevel[..], stashSize, encrypt);
    assert forall l :: 1 <= l <= recursionLevels ==> oram.TheState().levels[l] == oram.LevelOf(l);
  }
}
