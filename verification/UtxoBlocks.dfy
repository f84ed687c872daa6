/** The UTXO set kept in the blocks of the ORAM: a block is a row of 68-byte records, and the public-key hash of a record
    selects its block.  Adding and deleting go through a read and a write of one block. */
module UtxoBlocks {
  import opened RecursivePathORAM
  import opened ReadOnly
  import opened Runs
  import opened Capacity
  import PathORAMController

  type Bytes = seq<nat>

  const RECORD: nat := 68

  /** getIdFromPkh is a hash of the key modulo the number of blocks; the hash is a parameter. */
  datatype Placement = Placement(hash: Bytes -> nat, maxBlocks: nat) {
    predicate Valid() {
      maxBlocks > 0
    }

    function BlockOf(r: Bytes): (id: nat)
      requires Valid() && |r| == RECORD
      ensures id < maxBlocks
    {
      hash(Key(r)) % maxBlocks
    }

    /** Records of the same key belong to the same block. */
    lemma SameBlock(a: Bytes, b: Bytes)
      requires Valid() && |a| == |b| == RECORD && Key(a) == Key(b)
      ensures BlockOf(a) == BlockOf(b)
    {
    }
  }

  function Key(r: Bytes): Bytes
    requires |r| == RECORD
  {
    r[44..64]
  }

  /** The same transaction output: hash and position agree. */
  predicate SameOutpoint(a: Bytes, b: Bytes)
    requires |a| == |b| == RECORD
  {
    a[..32] == b[..32] && a[64..68] == b[64..68]
  }

  function Slots(data: Bytes): nat {
    |data| / RECORD
  }

  function Slot(data: Bytes, i: nat): (r: Bytes)
    requires i < Slots(data)
    ensures |r| == RECORD
  {
    data[i * RECORD..i * RECORD + RECORD]
  }

  function WithSlot(data: Bytes, i: nat, r: Bytes): (data': Bytes)
    requires i < Slots(data) && |r| == RECORD
    ensures |data'| == |data|
  {
    data[..i * RECORD] + r + data[i * RECORD + RECORD..]
  }

  lemma SlotsOf(data: Bytes, i: nat, r: Bytes, j: nat)
    requires i < Slots(data) && j < Slots(data) && |r| == RECORD
    ensures Slot(WithSlot(data, i, r), j) == if j == i then r else Slot(data, j)
  {
    var data' := WithSlot(data, i, r);
    if j < i {
      assert j * RECORD + RECORD <= i * RECORD;
    } else if j > i {
      assert i * RECORD + RECORD <= j * RECORD;
    }
    assert forall k :: 0 <= k < RECORD ==> Slot(data', j)[k] == data'[j * RECORD + k];
  }

  /** The slot belongs to another block: it is free for this one. */
  predicate IsFree(w: Placement, data: Bytes, id: nat, i: nat)
    requires w.Valid() && i < Slots(data)
  {
    w.BlockOf(Slot(data, i)) != id
  }

  /** The number of records with the item's key among the first i slots. */
  function KeysBefore(data: Bytes, item: Bytes, i: nat): nat
    requires i <= Slots(data) && |item| == RECORD
  {
    if i == 0 then 0 else KeysBefore(data, item, i - 1) + if Key(Slot(data, i - 1)) == Key(item) then 1 else 0
  }

  /** i is the first free slot. */
  ghost predicate FirstFree(w: Placement, data: Bytes, id: nat, i: nat)
    requires w.Valid()
  {
    i < Slots(data) && IsFree(w, data, id, i) && forall j :: 0 <= j < i ==> !IsFree(w, data, id, j)
  }

  /** Where a new record goes: the first free slot, unless two records of its key come before it. */
  ghost predicate GoesTo(w: Placement, data: Bytes, item: Bytes, i: nat)
    requires w.Valid() && |item| == RECORD
  {
    FirstFree(w, data, w.BlockOf(item), i) && KeysBefore(data, item, i) < 2
  }

  function Zeros(): (r: Bytes)
    ensures |r| == RECORD
  {
    seq(RECORD, _ => 0)
  }

  predicate Matches(data: Bytes, item: Bytes, i: nat)
    requires |item| == RECORD && i < Slots(data)
  {
    SameOutpoint(item, Slot(data, i))
  }

  ghost predicate IsFirst(data: Bytes, item: Bytes, i: nat)
    requires |item| == RECORD
  {
    i < Slots(data) && Matches(data, item, i) && forall j :: 0 <= j < i ==> !Matches(data, item, j)
  }

  // ----- Adding and deleting -----

  /** The block with the record added where it goes. */
  ghost function Added(w: Placement, data: Bytes, item: Bytes): (r: Bytes)
    requires w.Valid() && |item| == RECORD
    ensures |r| == |data|
  {
    if i: nat :| GoesTo(w, data, item, i) then WithSlot(data, i, item) else data
  }

  /** The block with the first record of the item's outpoint erased. */
  ghost function Deleted(data: Bytes, item: Bytes): (r: Bytes)
    requires |item| == RECORD
    ensures |r| == |data|
  {
    if i: nat :| IsFirst(data, item, i) then WithSlot(data, i, Zeros()) else data
  }

  /** The loop of vectorToORAM that adds a record to a block. */
  method AddRecord(w: Placement, data0: Bytes, item: Bytes, blockId: nat) returns (data: Bytes)
    requires w.Valid() && |item| == RECORD && blockId == w.BlockOf(item)
    ensures data == Added(w, data0, item)
  {
    data := data0;
    var counter := 0;
    for utxo := 0 to Slots(data0)
      invariant data == data0
      invariant counter == KeysBefore(data0, item, utxo)
      invariant counter < 2 ==> forall j :: 0 <= j < utxo ==> !IsFree(w, data0, blockId, j)
      invariant counter >= 2 ==> forall i :: 0 <= i < utxo ==> !GoesTo(w, data0, item, i)
    {
      if w.BlockOf(Slot(data, utxo)) != blockId {
        assert IsFree(w, data0, blockId, utxo);
        if counter < 2 {
          data := WithSlot(data, utxo, item);
          assert GoesTo(w, data0, item, utxo);
          return;
        }
      } else if Key(Slot(data, utxo)) == Key(item) {
        counter := counter + 1;
      }
    }
    assert forall i :: !GoesTo(w, data0, item, i);
  }

  /** The loop that deletes the first record of the item's outpoint. */
  method DeleteRecord(data0: Bytes, item: Bytes) returns (data: Bytes)
    requires |item| == RECORD
    ensures data == Deleted(data0, item)
  {
    data := data0;
    for utxo := 0 to Slots(data0)
      invariant data == data0
      invariant forall j :: 0 <= j < utxo ==> !Matches(data0, item, j)
    {
      if SameOutpoint(item, Slot(data, utxo)) {
        data := WithSlot(data, utxo, Zeros());
        assert IsFirst(data0, item, utxo);
        return;
      }
    }
    assert forall i :: !IsFirst(data0, item, i);
  }

  lemma GoesOnce(w: Placement, data: Bytes, item: Bytes, i: nat, j: nat)
    requires w.Valid() && |item| == RECORD && GoesTo(w, data, item, i) && GoesTo(w, data, item, j)
    ensures i == j
  {
  }

  lemma FirstOnce(data: Bytes, item: Bytes, i: nat, j: nat)
    requires |item| == RECORD && IsFirst(data, item, i) && IsFirst(data, item, j)
    ensures i == j
  {
  }

  /** How often a record occurs among the first i slots. */
  function Occurs(data: Bytes, r: Bytes, i: nat): nat
    requires i <= Slots(data)
  {
    if i == 0 then 0 else Occurs(data, r, i - 1) + if Slot(data, i - 1) == r then 1 else 0
  }

  lemma {:induction false} OccursWithSlot(data: Bytes, i: nat, new_: Bytes, r: Bytes, n: nat)
    requires i < Slots(data) && |new_| == RECORD && n <= Slots(data)
    ensures Occurs(WithSlot(data, i, new_), r, n) + (if i < n && Slot(data, i) == r then 1 else 0)
            == Occurs(data, r, n) + (if i < n && new_ == r then 1 else 0)
    decreases n
  {
    hide Slot, WithSlot;
    if n > 0 {
      OccursWithSlot(data, i, new_, r, n - 1);
      SlotsOf(data, i, new_, n - 1);
    }
  }

  /** Adding never overwrites a record of the block: every record that belongs to it occurs as often as before, and the
      item once more if there is a place for it. */
  lemma {:induction false} AddedKeeps(w: Placement, data: Bytes, item: Bytes, r: Bytes)
    requires w.Valid() && |item| == |r| == RECORD && w.BlockOf(r) == w.BlockOf(item)
    ensures Occurs(Added(w, data, item), r, Slots(data)) ==
            Occurs(data, r, Slots(data)) + if r == item && (exists i :: GoesTo(w, data, item, i)) then 1 else 0
  {
    if i: nat :| GoesTo(w, data, item, i) {
      forall j: nat | GoesTo(w, data, item, j)
        ensures j == i
      {
        GoesOnce(w, data, item, i, j);
      }
      OccursWithSlot(data, i, item, r, Slots(data));
    }
  }

  /** Deleting by the outpoint of a record just added clears the slot it was put into, unless an older record of the
      outpoint comes first. */
  lemma AddedThenSpent(w: Placement, data: Bytes, item: Bytes, spent: Bytes, i: nat)
    requires w.Valid() && |item| == |spent| == RECORD && SameOutpoint(spent, item) && GoesTo(w, data, item, i)
    requires forall j :: 0 <= j < i ==> !Matches(data, item, j)
    ensures Deleted(Added(w, data, item), spent) == WithSlot(data, i, Zeros())
  {
    forall j: nat | GoesTo(w, data, item, j)
      ensures j == i
    {
      GoesOnce(w, data, item, i, j);
    }
    var data' := WithSlot(data, i, item);
    assert Added(w, data, item) == data';
    forall j: nat | j <= i
      ensures Matches(data', spent, j) <==> j == i
    {
      SlotsOf(data, i, item, j);
      assert Matches(data, item, j) || j >= i || !Matches(data, item, j);
    }
    assert IsFirst(data', spent, i);
    forall j: nat | IsFirst(data', spent, j)
      ensures j == i
    {
      FirstOnce(data', spent, i, j);
    }
    assert WithSlot(data', i, Zeros()) == WithSlot(data, i, Zeros());
  }

  lemma AddedThenDeleted(w: Placement, data: Bytes, item: Bytes, i: nat)
    requires w.Valid() && |item| == RECORD && GoesTo(w, data, item, i)
    requires forall j :: 0 <= j < i ==> !Matches(data, item, j)
    ensures Deleted(Added(w, data, item), item) == WithSlot(data, i, Zeros())
  {
    AddedThenSpent(w, data, item, item, i);
  }

  /** The slots among the first i that hold a record of the item's key. */
  ghost function KeySlots(data: Bytes, item: Bytes, i: nat): set<nat>
    requires i <= Slots(data) && |item| == RECORD
  {
    set j: nat | j < i && Slot(data, j)[44..64] == item[44..64]
  }

  /** The slots among the first i that hold r. */
  ghost function SlotsWith(data: Bytes, r: Bytes, i: nat): set<nat>
    requires i <= Slots(data)
  {
    set j: nat | j < i && Slot(data, j) == r
  }

  lemma {:induction false} KeysBeforeIs(data: Bytes, item: Bytes, i: nat)
    requires i <= Slots(data) && |item| == RECORD
    ensures KeysBefore(data, item, i) == |KeySlots(data, item, i)|
  {
    if i > 0 {
      var l: nat := i - 1;
      KeysBeforeIs(data, item, l);
      if Slot(data, l)[44..64] == item[44..64] {
        assert KeySlots(data, item, i) == KeySlots(data, item, l) + {l};
      } else {
        assert KeySlots(data, item, i) == KeySlots(data, item, l);
      }
    }
  }

  lemma {:induction false} OccursIs(data: Bytes, r: Bytes, i: nat)
    requires i <= Slots(data)
    ensures Occurs(data, r, i) == |SlotsWith(data, r, i)|
  {
    hide Slot;
    if i > 0 {
      var l: nat := i - 1;
      OccursIs(data, r, l);
      if Slot(data, l) == r {
        assert SlotsWith(data, r, i) == SlotsWith(data, r, l) + {l};
      } else {
        assert SlotsWith(data, r, i) == SlotsWith(data, r, l);
      }
    }
  }

  /** A record goes into the first slot of another block if at most one record of its key comes before, and nowhere else. */
  lemma AddedIs(w: Placement, data: Bytes, item: Bytes, i: nat)
    requires w.Valid() && |item| == RECORD && i < Slots(data) && w.BlockOf(Slot(data, i)) != w.BlockOf(item)
    requires forall j :: 0 <= j < i ==> w.BlockOf(Slot(data, j)) == w.BlockOf(item)
    ensures Added(w, data, item) == if KeysBefore(data, item, i) <= 1 then WithSlot(data, i, item) else data
  {
    hide Slot, Placement.BlockOf;
    assert FirstFree(w, data, w.BlockOf(item), i);
    forall j: nat | GoesTo(w, data, item, j)
      ensures j == i
    {
    }
    if KeysBefore(data, item, i) <= 1 {
      assert GoesTo(w, data, item, i);
    }
  }

  lemma FirstIs(data: Bytes, item: Bytes, j: nat)
    requires |item| == RECORD && j < Slots(data)
    ensures IsFirst(data, item, j) <==>
            SameOutpoint(item, Slot(data, j)) && forall k :: 0 <= k < j ==> !SameOutpoint(item, Slot(data, k))
  {
    hide Slot, SameOutpoint;
    if IsFirst(data, item, j) {
      forall k | 0 <= k < j
        ensures !SameOutpoint(item, Slot(data, k))
      {
        assert !Matches(data, item, k);
      }
    }
  }

  /** Slot by slot: an item of type 0 clears the first record of its outpoint, any other takes its place, and every other slot
      is as before. */
  lemma EditedSlot(w: Placement, vectorType: nat, data: Bytes, item: Bytes, j: nat)
    requires w.Valid() && |item| == RECORD && j < Slots(data)
    ensures vectorType == 0 ==>
      var first := SameOutpoint(item, Slot(data, j)) && forall k :: 0 <= k < j ==> !SameOutpoint(item, Slot(data, k));
      Slot(Edited(w, vectorType, data, item), j) == if first then seq(68, _ => 0) else Slot(data, j)
    ensures vectorType != 0 ==>
      Slot(Edited(w, vectorType, data, item), j) == if GoesTo(w, data, item, j) then item else Slot(data, j)
  {
    hide Slot, WithSlot, IsFree, KeysBefore, SameOutpoint;
    if vectorType == 0 {
      FirstIs(data, item, j);
      if i: nat :| IsFirst(data, item, i) {
        forall k: nat | IsFirst(data, item, k)
          ensures k == i
        {
          FirstOnce(data, item, i, k);
        }
        SlotsOf(data, i, Zeros(), j);
      }
    } else if i: nat :| GoesTo(w, data, item, i) {
      forall k: nat | GoesTo(w, data, item, k)
        ensures k == i
      {
        GoesOnce(w, data, item, i, k);
      }
      SlotsOf(data, i, item, j);
    }
  }

  /** Erased slots count as free except in the one block that the all-zero key selects: there an empty block takes
      no record. */
  lemma ErasedBlockTakesIff(w: Placement, data: Bytes, item: Bytes)
    requires w.Valid() && |item| == RECORD && Slots(data) >= 1
    requires forall j :: 0 <= j < Slots(data) ==> Slot(data, j) == Zeros()
    ensures (exists i :: GoesTo(w, data, item, i)) <==> w.BlockOf(Zeros()) != w.BlockOf(item)
  {
    assert Slot(data, 0) == Zeros();
    if w.BlockOf(Zeros()) != w.BlockOf(item) {
      assert IsFree(w, data, w.BlockOf(item), 0);
      assert GoesTo(w, data, item, 0);
    } else {
      forall i: nat
        ensures !GoesTo(w, data, item, i)
      {
        if i < Slots(data) {
          assert Slot(data, i) == Zeros();
        }
      }
    }
  }

  // ----- Through the ORAM -----

  /** One item of the vector, and the random words its write will draw. */
  datatype Change = Change(item: Bytes, coins: seq<nat>)

  ghost predicate Changes(p: Params, changes: seq<Change>) {
    forall i :: 0 <= i < |changes| ==> IsChange(p, changes[i])
  }

  predicate IsChange(p: Params, c: Change) {
    |c.item| == RECORD && |c.coins| == p.levels < OCCUPANCY_SLOTS
  }

  /** The kinds of vectors: 0 deletes, anything else adds. */
  ghost function Edited(w: Placement, vectorType: nat, data: Bytes, item: Bytes): Bytes
    requires w.Valid() && |item| == RECORD
  {
    if vectorType == 0 then Deleted(data, item) else Added(w, data, item)
  }

  /** The blocks after all items have been put into, or deleted from, the blocks their keys select. */
  ghost function Updated(p: Params, w: Placement, vectorType: nat, blocks: seq<Bytes>,
                         changes: seq<Change>): (r: seq<Bytes>)
    requires w.Valid() && w.maxBlocks <= |blocks| && Changes(p, changes)
    ensures |r| == |blocks|
    decreases |changes|
  {
    if changes == [] then blocks
    else
      var id := w.BlockOf(changes[0].item);
      Updated(p, w, vectorType, blocks[id := Edited(w, vectorType, blocks[id], changes[0].item)], changes[1..])
  }

  /** The items are taken in order. */
  lemma {:induction false} UpdatedInOrder(p: Params, w: Placement, vectorType: nat, blocks: seq<Bytes>, a: seq<Change>,
                                          b: seq<Change>)
    requires w.Valid() && w.maxBlocks <= |blocks| && Changes(p, a) && Changes(p, b)
    ensures Changes(p, a + b)
    ensures Updated(p, w, vectorType, blocks, a + b) == Updated(p, w, vectorType, Updated(p, w, vectorType, blocks, a), b)
    decreases |a|
  {
    hide Edited;
    if a == [] {
      assert a + b == b;
    } else {
      var id := w.BlockOf(a[0].item);
      UpdatedInOrder(p, w, vectorType, blocks[id := Edited(w, vectorType, blocks[id], a[0].item)], a[1..], b);
      assert (a + b)[1..] == a[1..] + b && (a + b)[0] == a[0];
    }
  }

  /** The read that is made for an item. */
  function ReadBlock(w: Placement, c: Change, trash: Bytes): Request
    requires w.Valid() && |c.item| == RECORD
  {
    Request('z', w.BlockOf(c.item), trash, trash, c.coins)
  }

  /** The write that puts the edited block back. */
  ghost function WriteBlock(w: Placement, vectorType: nat, data: Bytes, c: Change, trash: Bytes): Request
    requires w.Valid() && |c.item| == RECORD
  {
    Request('w', w.BlockOf(c.item), Edited(w, vectorType, data, c.item), trash, c.coins)
  }

  /** The stashes have room for both accesses of one item. */
  ghost predicate RoomForItem(p: Params, s: State, w: Placement, c: Change, trash: Bytes)
    requires StateShaped(p, s) && w.Valid() && IsChange(p, c)
  {
    && HasRoom(p, s, w.BlockOf(c.item))
    && HasRoom(p, AccessTemp(p, s, ReadBlock(w, c, trash)).0, w.BlockOf(c.item))
  }

  ghost function AfterItem(p: Params, s: State, w: Placement, vectorType: nat, c: Change, trash: Bytes): (r: State)
    requires StateShaped(p, s) && w.Valid() && IsChange(p, c)
    ensures StateShaped(p, r)
  {
    var (s', data) := AccessTemp(p, s, ReadBlock(w, c, trash));
    AccessTemp(p, s', WriteBlock(w, vectorType, data, c, trash)).0
  }

  /** The stashes have room at every access for every item. */
  ghost predicate RoomForAll(p: Params, s: State, w: Placement, vectorType: nat, changes: seq<Change>, trash: Bytes)
    requires StateShaped(p, s) && w.Valid() && Changes(p, changes)
    decreases |changes|
  {
    changes == [] ||
    (&& RoomForItem(p, s, w, changes[0], trash)
     && RoomForAll(p, AfterItem(p, s, w, vectorType, changes[0], trash), w, vectorType, changes[1..], trash))
  }

  /** One turn of the loop of vectorToORAM: read the block, edit it, write it back. */
  method UpdateItem(oram: PathORAMController.PathORAM, w: Placement, vectorType: nat, c: Change, trash: Bytes)
    requires oram.Wired() && Consistent(oram.p, oram.TheState()) && StateShaped(oram.p, oram.TheState())
    requires w.Valid() && w.maxBlocks <= oram.p.realBlocks[oram.p.levels] && IsChange(oram.p, c)
    requires RoomForItem(oram.p, oram.TheState(), w, c, trash)
    modifies oram`stashOcBefore, oram`stashOcAfter, oram.posmap, oram.recursiveStash, oram.Entries()
    ensures Consistent(oram.p, oram.TheState())
    ensures oram.TheState() == AfterItem(oram.p, old(oram.TheState()), w, vectorType, c, trash)
    ensures Array(oram.p, oram.TheState()) == Updated(oram.p, w, vectorType, old(Array(oram.p, oram.TheState())), [c])
  {
    hide Consistent, Array, HasRoom, AccessTemp, StateShaped;
    var blockId := w.BlockOf(c.item);
    var data := oram.AccessTemp(blockId, 'z', trash, trash, c.coins);
    if vectorType == 0 {
      data := DeleteRecord(data, c.item);
    } else {
      data := AddRecord(w, data, c.item, blockId);
    }
    var unused := oram.AccessTemp(blockId, 'w', data, trash, c.coins);
  }

  /** vectorToORAM: the ORAM ends up holding the array with every item put in, or taken out, in turn. */
  method VectorToORAM(oram: PathORAMController.PathORAM, w: Placement, vectorType: nat, changes: seq<Change>,
                      trash: Bytes)
    requires oram.Wired() && Consistent(oram.p, oram.TheState())
    requires w.Valid() && w.maxBlocks <= oram.p.realBlocks[oram.p.levels] && Changes(oram.p, changes)
    requires RoomForAll(oram.p, oram.TheState(), w, vectorType, changes, trash)
    modifies oram`stashOcBefore, oram`stashOcAfter, oram.posmap, oram.recursiveStash, oram.Entries()
    ensures Consistent(oram.p, oram.TheState())
    ensures Array(oram.p, oram.TheState()) == Updated(oram.p, w, vectorType, old(Array(oram.p, oram.TheState())), changes)
  {
    hide Consistent, Array, RoomForItem, AfterItem, Edited, StateShaped;
    ConsistentShaped(oram.p, oram.TheState());
    for i := 0 to |changes|
      invariant Consistent(oram.p, oram.TheState()) && StateShaped(oram.p, oram.TheState())
      invariant RoomForAll(oram.p, oram.TheState(), w, vectorType, changes[i..], trash)
      invariant Updated(oram.p, w, vectorType, Array(oram.p, oram.TheState()), changes[i..]) ==
                Updated(oram.p, w, vectorType, old(Array(oram.p, oram.TheState())), changes)
    {
      assert changes[i..][1..] == changes[i + 1..];
      UpdateItem(oram, w, vectorType, changes[i], trash);
    }
  }

  /** With a stash slot for every block there is room for every vector. */
  lemma {:induction false} AmpleForAll(p: Params, s: State, w: Placement, vectorType: nat, changes: seq<Change>,
                                       trash: Bytes)
    requires Consistent(p, s) && StateShaped(p, s) && Ample(p, s)
    requires w.Valid() && w.maxBlocks <= p.realBlocks[p.levels] && Changes(p, changes)
    ensures RoomForAll(p, s, w, vectorType, changes, trash)
    decreases |changes|
  {
    hide Consistent, StateShaped, Ample, HasRoom, AccessTemp, Array, ArrayAccess, Edited;
    if changes != [] {
      var c := changes[0];
      var read := ReadBlock(w, c, trash);
      RequestKeepsAmple(p, s, read);
      RequestRefines(p, s, read);
      var (s', data) := AccessTemp(p, s, read);
      var write := WriteBlock(w, vectorType, data, c, trash);
      RequestKeepsAmple(p, s', write);
      RequestRefines(p, s', write);
      AmpleForAll(p, AfterItem(p, s, w, vectorType, c, trash), w, vectorType, changes[1..], trash);
    }
  }

  lemma ConsistentShaped(p: Params, s: State)
    requires Consistent(p, s)
    ensures StateShaped(p, s)
  {
  }
}
