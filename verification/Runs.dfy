/** Runs of the ORAM: any sequence of 'r', 'w' and 'z' requests, with any leaves drawn, answers exactly as an
    array of blocks would, as long as the stashes have room. */
module Runs {
  import opened Blocks
  import opened PathLevel
  import opened PathAccess
  import opened RecursivePathORAM
  import opened Refinement
  import opened ReadOnly

  // ----- A state determines what it holds -----

  ghost predicate IsHeld(l: Level, id: nat, b: Block) {
    b.id == id && Occurrences(l, b) > 0
  }

  ghost predicate HoldsId(l: Level, id: nat) {
    exists b :: IsHeld(l, id, b)
  }

  /** The blocks with an id below n that level l holds. */
  ghost function Held(l: Level, n: nat): map<nat, Block> {
    map id: nat | id < n && HoldsId(l, id) :: var b :| IsHeld(l, id, b); b
  }

  ghost function MapsOf(p: Params, s: State): (m: seq<map<nat, Block>>)
    requires StateShaped(p, s)
    ensures |m| == p.levels + 1
  {
    seq(p.levels + 1, l requires 0 <= l <= p.levels => if l == 0 then map[] else Held(s.levels[l], p.realBlocks[l]))
  }

  lemma HeldUnique(l: Level, m: map<nat, Block>, shape: Shape, n: nat)
    requires LevelOk(l, m, shape) && n <= shape.gN && forall id :: id in m <==> 0 <= id < n
    ensures Held(l, n) == m
  {
    forall id: nat | id < n
      ensures IsHeld(l, id, m[id])
      ensures forall b :: IsHeld(l, id, b) ==> b == m[id]
    {
      assert Occurrences(l, m[id]) == 1;
      forall b | IsHeld(l, id, b)
        ensures b == m[id]
      {
        assert Occurrences(l, b) > 0;
      }
    }
  }

  lemma MapsUnique(p: Params, s: State, m: seq<map<nat, Block>>)
    requires Contained(p, s, m) && StateShaped(p, s)
    ensures MapsOf(p, s) == m
  {
    forall l | 1 <= l <= p.levels
      ensures MapsOf(p, s)[l] == m[l]
    {
      HeldUnique(s.levels[l], m[l], p.ShapeOf(l), p.realBlocks[l]);
    }
  }

  /** The state is one the ORAM can be in. */
  ghost predicate Consistent(p: Params, s: State) {
    StateShaped(p, s) && Inv(p, s, MapsOf(p, s))
  }

  /** The array of data blocks a consistent state stands for. */
  ghost function Array(p: Params, s: State): (a: seq<seq<nat>>)
    requires Consistent(p, s)
    ensures |a| == p.realBlocks[p.levels]
  {
    Contents(p, MapsOf(p, s))
  }

  /** Every stash on the way to block id has room for the path that will be fetched into it. */
  ghost predicate HasRoom(p: Params, s: State, id: nat)
    requires StateShaped(p, s)
  {
    Roomy(p, s, MapsOf(p, s), p.levels, id)
  }

  // ----- Exchanging dummies does not matter -----

  lemma {:induction false} CountIfSame(a: seq<Block>, b: seq<Block>, gN: nat, P: Block -> bool)
    requires |a| == |b| && RealOnly(P, gN)
    requires forall k :: 0 <= k < |a| ==> a[k] == b[k] || (IsBlockDummy(a[k], gN) && IsBlockDummy(b[k], gN))
    ensures CountIf(a, P) == CountIf(b, P)
  {
    if a != [] {
      CountIfSame(a[1..], b[1..], gN, P);
    }
  }

  lemma SameLevelOk(a: Level, b: Level, m: map<nat, Block>, shape: Shape)
    requires SameLevel(a, b, shape.gN) && LevelOk(b, m, shape)
    ensures LevelOk(a, m, shape)
  {
    forall c: Block | c.id != shape.gN
      ensures Occurrences(a, c) == Occurrences(b, c)
    {
      CountIfSame(a.stash, b.stash, shape.gN, Is(c));
    }
  }

  lemma SameInv(p: Params, a: State, b: State, m: seq<map<nat, Block>>)
    requires SameButDummies(p, a, b) && Inv(p, b, m)
    ensures Inv(p, a, m) && StateShaped(p, a)
  {
    forall l | 1 <= l <= p.levels
      ensures LevelOk(a.levels[l], m[l], p.ShapeOf(l))
    {
      SameLevelOk(a.levels[l], b.levels[l], m[l], p.ShapeOf(l));
    }
  }

  /** The comparison of stash occupancies that closes a read-only access succeeds at every level. */
  lemma {:induction false} OccupancyRestored(p: Params, s: State, id: nat, dataOut: seq<nat>, l: nat)
    requires StateShaped(p, s) && p.levels < OCCUPANCY_SLOTS && 1 <= l <= p.levels
    ensures CountReal(FastRead(p, s, id, dataOut).0.levels[l].stash, p.gN) == CountReal(s.levels[l].stash, p.gN)
  {
    FastReadRestores(p, s, id, dataOut);
    CountIfSame(FastRead(p, s, id, dataOut).0.levels[l].stash, s.levels[l].stash, p.gN, IsReal(p.gN));
  }

  // ----- Requests -----

  /** One call of Access_temp; coins are the random words drawn, dataOut is the caller's output buffer. */
  datatype Request = Request(opType: char, id: nat, dataIn: seq<nat>, dataOut: seq<nat>, coins: seq<nat>)

  /** A word is drawn at every level, and the optimized read has a place for every level's occupancy. */
  predicate Servable(p: Params, req: Request) {
    |req.coins| == p.levels && (req.opType == 'z' ==> p.levels < OCCUPANCY_SLOTS)
  }

  /** Access_temp in the optimized build: 'z' takes the read-only way. */
  function AccessTemp(p: Params, s: State, req: Request): (r: (State, seq<nat>))
    requires StateShaped(p, s) && Servable(p, req)
    ensures StateShaped(p, r.0)
  {
    if req.opType == 'z' then FastRead(p, s, req.id, req.dataOut)
    else
      var r := Access(p, s, req.id, NO_POSITION, req.opType, p.levels, req.dataIn, req.dataOut, req.coins);
      (r.state, r.dataOut)
  }

  /** The same request put to an array. */
  function ArrayAccess(a: seq<seq<nat>>, req: Request): (r: (seq<seq<nat>>, seq<nat>))
    requires req.id < |a|
    ensures |r.0| == |a|
  {
    if req.opType == 'w' then (a[req.id := req.dataIn], req.dataOut)
    else if req.opType == 'r' || req.opType == 'z' then (a, a[req.id])
    else (a, req.dataOut)
  }

  /** Every request is answered as by the array, and the state reached stands for the array reached. */
  lemma {:induction false} RequestRefines(p: Params, s: State, req: Request)
    requires Consistent(p, s) && Servable(p, req) && req.id < p.realBlocks[p.levels] && HasRoom(p, s, req.id)
    ensures var r := AccessTemp(p, s, req);
      && Consistent(p, r.0)
      && (Array(p, r.0), r.1) == ArrayAccess(Array(p, s), req)
  {
    hide FastRead, Access, Inv, MapsOf, StateShaped, Roomy, SameButDummies;
    var m := MapsOf(p, s);
    if req.opType == 'z' {
      FastReadRefines(p, s, m, req.id, req.dataOut);
      FastReadRestores(p, s, req.id, req.dataOut);
      var s' := FastRead(p, s, req.id, req.dataOut).0;
      SameInv(p, s', s, m);
      InvMaps(p, s', m);
    } else {
      var r, m' := AccessRefines(p, s, m, req.id, req.opType, req.dataIn, req.dataOut, req.coins);
      InvMaps(p, r.state, m');
    }
  }

  lemma InvMaps(p: Params, s: State, m: seq<map<nat, Block>>)
    requires Inv(p, s, m) && StateShaped(p, s)
    ensures MapsOf(p, s) == m && Consistent(p, s)
  {
    MapsUnique(p, s, m);
  }

  /** A request that writes back gives every block on its way the leaf that the word drawn for it selects, records that leaf
      one level up, overwrites the data for 'w', and changes nothing else. */
  lemma {:induction false} RequestRelabels(p: Params, s: State, req: Request) returns (leaves: seq<nat>)
    requires Consistent(p, s) && Servable(p, req) && req.id < p.realBlocks[p.levels] && HasRoom(p, s, req.id)
    requires req.opType != 'z'
    ensures |leaves| == p.levels
    ensures forall l :: 0 <= l < p.levels ==> IsDrawn(leaves[l], req.coins[l], p.N[l + 1])
    ensures var s' := AccessTemp(p, s, req).0;
      var m, m' := MapsOf(p, s), MapsOf(p, s');
      && WayRelabelled(p, s.posmap, m, s'.posmap, m', p.levels - 1, req.id, leaves)
      && req.id in m[p.levels]
      && m'[p.levels] == m[p.levels][req.id := Block(req.id, leaves[p.levels - 1],
                                                     if req.opType == 'w' then req.dataIn else m[p.levels][req.id].data)]
  {
    hide Access, Inv, MapsOf, Roomy, WayRelabelled, Shaped;
    leaves := Draws(p, req.coins);
    forall l | 0 <= l < p.levels
      ensures IsDrawn(leaves[l], req.coins[l], p.N[l + 1])
    {
      NewLeafIs(p, l, req.coins);
    }
    var r, m' := AccessRefines(p, s, MapsOf(p, s), req.id, req.opType, req.dataIn, req.dataOut, req.coins);
    InvMaps(p, r.state, m');
  }

  /** The block of level l + 1 on the way to block id of the data level. */
  function OnTheWay(p: Params, id: nat, l: nat): (c: nat)
    requires p.Valid() && l < p.levels
    decreases p.levels - l
  {
    if l + 1 == p.levels then id else OnTheWay(p, id, l + 1) / p.x
  }

  lemma {:induction false} WayAt(p: Params, posmap: seq<nat>, m: seq<map<nat, Block>>, posmap': seq<nat>,
                                 m': seq<map<nat, Block>>, id: nat, leaves: seq<nat>, l: nat)
    requires p.Valid() && l < p.levels == |leaves| && |m| == |m'| == p.levels + 1
    requires WayRelabelled(p, posmap, m, posmap', m', p.levels - 1, id, leaves)
    ensures WayRelabelled(p, posmap, m, posmap', m', l, OnTheWay(p, id, l), leaves)
    decreases p.levels - l
  {
    if l + 1 < p.levels {
      WayAt(p, posmap, m, posmap', m', id, leaves, l + 1);
    }
  }

  /** A word below the number of leaves is the leaf recorded: at every level, for the block on the way. */
  lemma {:induction false} DrawnRecorded(p: Params, s: State, req: Request, l: nat)
    requires Consistent(p, s) && Servable(p, req) && req.id < p.realBlocks[p.levels] && HasRoom(p, s, req.id)
    requires req.opType != 'z' && l < p.levels && req.coins[l] < p.N[l + 1]
    ensures var s' := AccessTemp(p, s, req).0;
      Records(p, s'.posmap, MapsOf(p, s'), l, OnTheWay(p, req.id, l), req.coins[l])
  {
    hide AccessTemp, Inv, MapsOf, Roomy, HasRoom, Shaped;
    var leaves := RequestRelabels(p, s, req);
    var s' := AccessTemp(p, s, req).0;
    WayAt(p, s.posmap, MapsOf(p, s), s'.posmap, MapsOf(p, s'), req.id, leaves, l);
    assert IsDrawn(leaves[l], req.coins[l], p.N[l + 1]);
  }

  /** The read-only way returns what the full read returns, whatever labels the full read draws. */
  lemma {:induction false} FastReadAgreesWithRead(p: Params, s: State, id: nat, dataIn: seq<nat>, dataOut: seq<nat>,
                                                  coins: seq<nat>)
    requires Consistent(p, s) && |coins| == p.levels < OCCUPANCY_SLOTS && id < p.realBlocks[p.levels] && HasRoom(p, s, id)
    ensures FastRead(p, s, id, dataOut).1 == Access(p, s, id, NO_POSITION, 'r', p.levels, dataIn, dataOut, coins).dataOut
  {
    hide Consistent, Array, StateShaped, Inv, MapsOf, HasRoom, Access, FastRead;
    RequestRefines(p, s, Request('z', id, dataIn, dataOut, coins));
    RequestRefines(p, s, Request('r', id, dataIn, dataOut, coins));
  }

  ghost predicate WellFormed(p: Params, reqs: seq<Request>)
    requires p.Valid()
  {
    forall i :: 0 <= i < |reqs| ==> reqs[i].id < p.realBlocks[p.levels] && Servable(p, reqs[i])
  }

  /** The stashes have room at every request of the run. */
  ghost predicate RoomAlong(p: Params, s: State, reqs: seq<Request>)
    requires StateShaped(p, s) && WellFormed(p, reqs)
    decreases |reqs|
  {
    reqs == [] || (HasRoom(p, s, reqs[0].id) && RoomAlong(p, AccessTemp(p, s, reqs[0]).0, reqs[1..]))
  }

  ghost function RunORAM(p: Params, s: State, reqs: seq<Request>): (State, seq<seq<nat>>)
    requires StateShaped(p, s) && WellFormed(p, reqs)
    decreases |reqs|
  {
    if reqs == [] then (s, [])
    else
      var (s', out) := AccessTemp(p, s, reqs[0]);
      var (end, outs) := RunORAM(p, s', reqs[1..]);
      (end, [out] + outs)
  }

  function RunArray(a: seq<seq<nat>>, reqs: seq<Request>): (seq<seq<nat>>, seq<seq<nat>>)
    requires forall i :: 0 <= i < |reqs| ==> reqs[i].id < |a|
    decreases |reqs|
  {
    if reqs == [] then (a, [])
    else
      var (a', out) := ArrayAccess(a, reqs[0]);
      var (end, outs) := RunArray(a', reqs[1..]);
      (end, [out] + outs)
  }

  /** Refinement over whole runs. */
  lemma {:induction false} RunRefinesArray(p: Params, s: State, reqs: seq<Request>)
    requires Consistent(p, s) && WellFormed(p, reqs) && RoomAlong(p, s, reqs)
    ensures var r := RunORAM(p, s, reqs);
      && Consistent(p, r.0)
      && (Array(p, r.0), r.1) == RunArray(Array(p, s), reqs)
    decreases |reqs|
  {
    hide AccessTemp, Array, ArrayAccess, StateShaped, Inv, MapsOf, HasRoom;
    if reqs != [] {
      RequestRefines(p, s, reqs[0]);
      RunRefinesArray(p, AccessTemp(p, s, reqs[0]).0, reqs[1..]);
    }
  }
}
