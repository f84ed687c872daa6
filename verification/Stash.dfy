/** The stash of one ORAM level: a list of STASH_SIZE nodes, each holding a block and a flag that marks
    it for discarding after a read-only access.  The functions say what each scan over the list
    computes; the class performs the scans. */
module Stash {
  import opened Blocks

  /** The first node holding a dummy, or |st| when every node holds a real block. */
  function FirstDummy(st: seq<Block>, gN: nat): (k: nat)
    ensures k <= |st|
    ensures forall j :: 0 <= j < k ==> !IsBlockDummy(st[j], gN)
    ensures k < |st| ==> IsBlockDummy(st[k], gN)
  {
    if st == [] || IsBlockDummy(st[0], gN) then 0 else 1 + FirstDummy(st[1..], gN)
  }

  /** Insertion into the first free node; a dummy is ignored, and so is a block that finds no room. */
  function Inserted(st: seq<Block>, b: Block, gN: nat): (r: seq<Block>)
    ensures |r| == |st|
  {
    var k := FirstDummy(st, gN);
    if IsBlockDummy(b, gN) || k == |st| then st else st[k := b]
  }

  /** The discard flags after an insertion made on behalf of a read-only access. */
  function Marked(st: seq<Block>, discard: seq<bool>, b: Block, gN: nat): (r: seq<bool>)
    requires |discard| == |st|
    ensures |r| == |discard|
  {
    var k := FirstDummy(st, gN);
    if IsBlockDummy(b, gN) || k == |st| then discard else discard[k := true]
  }

  /** The last node holding id, or -1. */
  function LastWith(st: seq<Block>, id: nat): (k: int)
    ensures -1 <= k < |st|
    ensures k >= 0 ==> st[k].id == id
    ensures forall j :: k < j < |st| ==> st[j].id != id
  {
    if st == [] then -1
    else if st[|st| - 1].id == id then |st| - 1
    else LastWith(st[..|st| - 1], id)
  }

  /** One node after an 'r' or 'w' access to the data level. */
  function AccessedBlock(b: Block, opType: char, id: nat, newleaf: nat, dataIn: seq<nat>): Block {
    if b.id == id then Block(id, newleaf, if opType == 'w' then dataIn else b.data) else b
  }

  function AccessedBlocks(st: seq<Block>, opType: char, id: nat, newleaf: nat, dataIn: seq<nat>): (r: seq<Block>)
    ensures |r| == |st|
  {
    seq(|st|, k requires 0 <= k < |st| => AccessedBlock(st[k], opType, id, newleaf, dataIn))
  }

  /** What ends up in the caller's output buffer. */
  function AccessedData(st: seq<Block>, opType: char, id: nat, dataOut: seq<nat>): seq<nat> {
    var k := LastWith(st, id);
    if k >= 0 && (opType == 'r' || opType == 'z') then st[k].data else dataOut
  }

  /** The list after the nodes marked for discarding have been refilled with a fresh dummy. */
  function Cleared(st: seq<Block>, discard: seq<bool>, refill: Block): (r: seq<Block>)
    requires |discard| == |st|
    ensures |r| == |st|
  {
    seq(|st|, k requires 0 <= k < |st| => if discard[k] then refill else st[k])
  }

  /** With a free node left, insertion adds exactly the given real block. */
  lemma InsertedReal(st: seq<Block>, b: Block, gN: nat, P: Block -> bool)
    requires CountReal(st, gN) + CountReal([b], gN) <= |st|
    requires RealOnly(P, gN)
    ensures CountIf(Inserted(st, b, gN), P) == CountIf(st, P) + CountIf([b], P)
  {
    CountIfBound([b], P);
    CountIfBound([b], IsReal(gN));
    assert [b][0] == b;
    if !IsBlockDummy(b, gN) {
      var k := FirstDummy(st, gN);
      CountIfBound(st, IsReal(gN));
      CountIfUpdate(st, k, b, P);
    }
  }

  class Stash {
    var blocks: seq<Block>
    var discard: seq<bool>
    const gN: nat
    const filler: seq<nat>

    ghost predicate Valid()
      reads this
    {
      |discard| == |blocks|
    }

    /** A freshly serialized dummy. */
    function Fresh(): Block {
      Block(gN, 0, filler)
    }

    /** Stash::setup puts stashSize fresh dummies into the list, one at a time. */
    constructor (stashSize: nat, filler: seq<nat>, gN: nat)
      ensures Valid()
      ensures this.gN == gN && this.filler == filler
      ensures |blocks| == stashSize
      ensures forall k :: 0 <= k < stashSize ==> blocks[k] == Block(gN, 0, filler) && !discard[k]
    {
      this.gN := gN;
      this.filler := filler;
      blocks := [];
      discard := [];
      new;
      for i := 0 to stashSize
        invariant |blocks| == |discard| == i
        invariant forall k :: 0 <= k < i ==> blocks[k] == Block(gN, 0, filler) && !discard[k]
      {
        blocks := [Fresh()] + blocks;
        discard := [false] + discard;
      }
    }

    /** Stash::pass_insert scans every node, whether or not the block is already written. */
    method PassInsert(b: Block, isDummy: bool, optimizedReading: bool)
      requires Valid()
      requires isDummy == IsBlockDummy(b, gN)
      modifies this
      ensures Valid()
      ensures blocks == Inserted(old(blocks), b, gN)
      ensures discard == if optimizedReading then Marked(old(blocks), old(discard), b, gN) else old(discard)
    {
      var blockWritten := false;
      ghost var free := FirstDummy(blocks, gN);
      for k := 0 to |blocks|
        invariant |blocks| == |old(blocks)| && |discard| == |old(discard)|
        invariant blockWritten == (!isDummy && free < k)
        invariant blocks == if blockWritten then old(blocks)[free := b] else old(blocks)
        invariant discard == if blockWritten && optimizedReading then old(discard)[free := true] else old(discard)
      {
        var flag := !isDummy && IsBlockDummy(blocks[k], gN) && !blockWritten;
        if flag {
          blocks := blocks[k := b];
          blockWritten := true;
        }
        if optimizedReading && flag {
          discard := discard[k := true];
        }
      }
    }

    /** Stash::PerformAccessOperation: relabel the requested block, then write or read its data. */
    method PerformAccessOperation(opType: char, id: nat, newleaf: nat, dataIn: seq<nat>, dataOut: seq<nat>)
      returns (out: seq<nat>)
      requires Valid()
      modifies this
      ensures Valid() && discard == old(discard)
      ensures blocks == AccessedBlocks(old(blocks), opType, id, newleaf, dataIn)
      ensures out == AccessedData(old(blocks), opType, id, dataOut)
    {
      out := dataOut;
      for k := 0 to |blocks|
        invariant |blocks| == |old(blocks)| && discard == old(discard)
        invariant forall j :: 0 <= j < k ==> blocks[j] == AccessedBlock(old(blocks)[j], opType, id, newleaf, dataIn)
        invariant forall j :: k <= j < |blocks| ==> blocks[j] == old(blocks)[j]
        invariant out == AccessedData(old(blocks)[..k], opType, id, dataOut)
      {
        assert old(blocks)[..k + 1][..k] == old(blocks)[..k];
        var flagId := blocks[k].id == id;
        if flagId {
          blocks := blocks[k := blocks[k].(treeLabel := newleaf)];
        }
        var flagW := flagId && opType == 'w';
        if flagW {
          blocks := blocks[k := blocks[k].(data := dataIn)];
        }
        var flagR := flagId && (opType == 'r' || opType == 'z');
        if flagR {
          out := blocks[k].data;
        }
      }
      assert old(blocks)[..|blocks|] == old(blocks);
    }

    /** Stash::PerformOptimizedAccessOperation: the same scan without relabelling. */
    method PerformOptimizedAccessOperation(opType: char, id: nat, dataIn: seq<nat>, dataOut: seq<nat>)
      returns (out: seq<nat>)
      requires Valid()
      modifies this
      ensures Valid() && discard == old(discard)
      ensures opType != 'w' ==> blocks == old(blocks)
      ensures opType == 'w' ==>
        blocks == seq(|old(blocks)|, j requires 0 <= j < |old(blocks)| =>
          if old(blocks)[j].id == id then old(blocks)[j].(data := dataIn) else old(blocks)[j])
      ensures out == AccessedData(old(blocks), opType, id, dataOut)
    {
      out := dataOut;
      for k := 0 to |blocks|
        invariant |blocks| == |old(blocks)| && discard == old(discard)
        invariant forall j :: 0 <= j < k ==>
          blocks[j] == (if old(blocks)[j].id == id && opType == 'w' then old(blocks)[j].(data := dataIn) else old(blocks)[j])
        invariant forall j :: k <= j < |blocks| ==> blocks[j] == old(blocks)[j]
        invariant out == AccessedData(old(blocks)[..k], opType, id, dataOut)
      {
        assert old(blocks)[..k + 1][..k] == old(blocks)[..k];
        var flagId := blocks[k].id == id;
        if flagId && opType == 'w' {
          blocks := blocks[k := blocks[k].(data := dataIn)];
        }
        if flagId && (opType == 'r' || opType == 'z') {
          out := blocks[k].data;
        }
      }
      assert old(blocks)[..|blocks|] == old(blocks);
    }

    /** Stash::clear discards the blocks a read-only access put into the list. */
    method Clear()
      requires Valid()
      modifies this
      ensures Valid()
      ensures blocks == Cleared(old(blocks), old(discard), Fresh())
      ensures forall k :: 0 <= k < |discard| ==> !discard[k]
    {
      for k := 0 to |blocks|
        invariant |blocks| == |discard| == |old(blocks)|
        invariant forall j :: 0 <= j < k ==> !discard[j]
        invariant forall j :: 0 <= j < k ==> blocks[j] == if old(discard)[j] then Fresh() else old(blocks)[j]
        invariant forall j :: k <= j < |blocks| ==> blocks[j] == old(blocks)[j] && discard[j] == old(discard)[j]
      {
        if discard[k] {
          blocks := blocks[k := Fresh()];
          discard := discard[k := false];
        }
      }
    }

    /** Stash::stashOccupancy. */
    method StashOccupancy() returns (count: nat)
      requires Valid()
      ensures count == CountReal(blocks, gN)
    {
      count := 0;
      for k := 0 to |blocks|
        invariant count + CountReal(blocks[k..], gN) == CountReal(blocks, gN)
      {
        assert blocks[k..][1..] == blocks[k + 1..];
        if !IsBlockDummy(blocks[k], gN) {
          count := count + 1;
        }
      }
    }
  }
}
