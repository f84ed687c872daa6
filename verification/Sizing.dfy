/** How many position-map levels the ORAM has and how large each one is. */
module Sizing {
  import opened TreePaths
  import opened Blocks

  /** ceil(a / b). */
  function CeilDiv(a: nat, b: nat): (c: nat)
    requires b > 0
    ensures a <= c * b < a + b
  {
    var c := (a + b - 1) / b;
    assert a + b - 1 == c * b + (a + b - 1) % b;
    c
  }

  /** The number of blocks left after k rounds of packing x labels into one block. */
  function Packed(n: nat, x: nat, k: nat): (r: nat)
    requires x > 0
  {
    if k == 0 then n else CeilDiv(Packed(n, x, k - 1), x)
  }

  /** The number of blocks of level l when the on-chip map has cur entries and every level unpacks the one above. */
  function Unpacked(cur: nat, x: nat, l: nat): (r: nat) {
    if l <= 1 then cur else Unpacked(cur, x, l - 1) * x
  }

  /** The position map of n blocks does not fit below `limit` bytes before round k. */
  ghost predicate Oversized(n: nat, x: nat, limit: nat, k: nat)
    requires x > 0
  {
    forall j :: 0 <= j < k ==> Packed(n, x, j) * 4 > limit
  }

  /** k is the number of rounds after which the loops stop. */
  ghost predicate StopsAt(n: nat, x: nat, limit: nat, k: nat)
    requires x > 0
  {
    Oversized(n, x, limit, k) && Packed(n, x, k) * 4 <= limit
  }

  lemma MulLe(a: nat, b: nat, c: nat)
    requires a <= b
    ensures a * c <= b * c && c * a <= c * b
  {
    assert b * c == a * c + (b - a) * c;
  }

  lemma CeilDivShrinks(a: nat, b: nat)
    requires b > 0
    ensures CeilDiv(a, b) <= a
    ensures a >= 1 ==> CeilDiv(a, b) >= 1
    ensures a >= 2 && b >= 2 ==> CeilDiv(a, b) < a
    ensures b == 1 ==> CeilDiv(a, b) == a
  {
    hide CeilDiv;
    var c := CeilDiv(a, b);
    if c > a {
      MulLe(a + 1, c, b);
      MulLe(1, b, a);
    }
    if a >= 2 && b >= 2 && c >= a {
      MulLe(a, c, b);
      MulLe(2, a, b);
      MulLe(2, b, a);
    }
  }

  /** The loop makes progress down to a single block, and no further. */
  lemma {:induction false} PackedBounds(n: nat, x: nat, k: nat)
    requires x > 0
    ensures Packed(n, x, k) <= n
    ensures n >= 1 ==> Packed(n, x, k) >= 1
    ensures x == 1 ==> Packed(n, x, k) == n
    ensures x >= 2 && n >= 1 ==> Packed(n, x, k) <= (if k < n then n - k else 1)
  {
    if k > 0 {
      PackedBounds(n, x, k - 1);
      CeilDivShrinks(Packed(n, x, k - 1), x);
    }
  }

  /** computeRecursionLevels terminates exactly when the whole map fits at once, or labels can be packed and the
      on-chip limit leaves room for one. */
  lemma StopsIff(n: nat, x: nat, limit: nat)
    requires x > 0
    ensures (exists k :: Packed(n, x, k) * 4 <= limit) <==> n * 4 <= limit || (x >= 2 && limit >= 4)
  {
    if n * 4 <= limit {
      assert Packed(n, x, 0) * 4 <= limit;
    } else if x >= 2 && limit >= 4 {
      PackedBounds(n, x, n);
      assert Packed(n, x, n) * 4 <= limit;
    } else {
      forall k: nat
        ensures Packed(n, x, k) * 4 > limit
      {
        PackedBounds(n, x, k);
      }
    }
  }

  /** computeRecursionLevels; x is kept in eight bits.  -1 stands for a non-recursive ORAM. */
  method ComputeRecursionLevels(maxBlocks: nat, recursionDataSize: nat,
                                onchipPosmapMemoryLimit: nat) returns (levels: int)
    requires recursionDataSize != 0 ==> (recursionDataSize / 4) % 256 > 0
    requires recursionDataSize != 0 ==>
      maxBlocks * 4 <= onchipPosmapMemoryLimit || ((recursionDataSize / 4) % 256 >= 2 && onchipPosmapMemoryLimit >= 4)
    ensures levels == -1 <==> recursionDataSize == 0 || maxBlocks * 4 <= onchipPosmapMemoryLimit
    ensures levels != -1 ==> levels >= 2 && StopsAt(maxBlocks, (recursionDataSize / 4) % 256, onchipPosmapMemoryLimit, levels - 1)
  {
    levels := -1;
    if recursionDataSize != 0 {
      levels := 1;
      var x := (recursionDataSize / 4) % 256;
      var sizePmap0 := maxBlocks * 4;
      var curPmap0Blocks := maxBlocks;
      while sizePmap0 > onchipPosmapMemoryLimit
        invariant levels >= 1 && sizePmap0 == curPmap0Blocks * 4
        invariant curPmap0Blocks == Packed(maxBlocks, x, levels - 1)
        invariant Oversized(maxBlocks, x, onchipPosmapMemoryLimit, levels - 1)
        decreases curPmap0Blocks
      {
        assert Packed(maxBlocks, x, 0) == maxBlocks;
        CeilDivShrinks(curPmap0Blocks, x);
        PackedBounds(maxBlocks, x, levels - 1);
        curPmap0Blocks := CeilDiv(curPmap0Blocks, x);
        levels := levels + 1;
        sizePmap0 := curPmap0Blocks * 4;
      }
      assert Packed(maxBlocks, x, 0) == maxBlocks;
      if levels == 1 {
        levels := -1;
      }
    }
  }

  // ----- SetParams -----

  datatype Sizes = Sizes(real_: seq<nat>, max: seq<nat>, gN: nat)

  /** What SetParams computes for a recursion depth of `levels`. */
  ghost predicate SizesOf(s: Sizes, n: nat, x: nat, limit: nat, levels: nat)
    requires x > 0
  {
    && levels >= 2 && |s.real_| == |s.max| == levels + 1
    && (forall l :: 1 <= l <= levels ==> s.real_[l] == Packed(n, x, levels - l))
    && s.real_[0] == s.real_[1]
    && (forall l :: 0 <= l <= levels ==> s.max[l] == Unpacked(s.max[1], x, l))
    && (exists k :: StopsAt(n, x, limit, k) && s.max[1] == Packed(n, x, k))
    && s.gN == s.max[levels]
  }

  lemma PackedStep(n: nat, x: nat, k: nat)
    requires x > 0
    ensures Packed(n, x, 0) == n && Packed(n, x, k + 1) == CeilDiv(Packed(n, x, k), x)
  {
  }

  lemma UnpackedStep(cur: nat, x: nat, l: nat)
    ensures Unpacked(cur, x, 0) == Unpacked(cur, x, 1) == cur
    ensures 2 <= l ==> Unpacked(cur, x, l) == Unpacked(cur, x, l - 1) * x
  {
  }

  /** ORAMTree::SetParams, the level sizes. */
  method SetParams(maxBlocks: nat, x: nat, memPosmapLimit: nat, recursionLevels: nat)
    returns (maxBlocksLevel: array<nat>, realMaxBlocksLevel: array<nat>, gN: nat)
    requires x >= 1 && recursionLevels >= 2
    requires maxBlocks * 4 <= memPosmapLimit || (x >= 2 && memPosmapLimit >= 4)
    ensures fresh(maxBlocksLevel) && fresh(realMaxBlocksLevel)
    ensures SizesOf(Sizes(realMaxBlocksLevel[..], maxBlocksLevel[..], gN), maxBlocks, x, memPosmapLimit, recursionLevels)
  {
    hide CeilDiv, Packed, Unpacked;
    PackedStep(maxBlocks, x, 0);
    var sizePmap0 := maxBlocks * 4;
    var curPmap0Blocks := maxBlocks;
    ghost var k: nat := 0;
    while sizePmap0 > memPosmapLimit
      invariant sizePmap0 == curPmap0Blocks * 4
      invariant curPmap0Blocks == Packed(maxBlocks, x, k) && Oversized(maxBlocks, x, memPosmapLimit, k)
      decreases curPmap0Blocks
    {
      CeilDivShrinks(curPmap0Blocks, x);
      PackedBounds(maxBlocks, x, k);
      PackedStep(maxBlocks, x, k);
      curPmap0Blocks := CeilDiv(curPmap0Blocks, x);
      sizePmap0 := curPmap0Blocks * 4;
      k := k + 1;
    }
    maxBlocksLevel := new nat[recursionLevels + 1];
    realMaxBlocksLevel := new nat[recursionLevels + 1];
    realMaxBlocksLevel[recursionLevels] := maxBlocks;
    var lev := recursionLevels - 1;
    while lev > 0
      invariant 0 <= lev < recursionLevels
      invariant forall l :: lev < l <= recursionLevels ==> realMaxBlocksLevel[l] == Packed(maxBlocks, x, recursionLevels - l)
    {
      PackedStep(maxBlocks, x, recursionLevels - lev - 1);
      realMaxBlocksLevel[lev] := CeilDiv(realMaxBlocksLevel[lev + 1], x);
      lev := lev - 1;
    }
    realMaxBlocksLevel[0] := realMaxBlocksLevel[1];
    maxBlocksLevel[0] := curPmap0Blocks;
    maxBlocksLevel[1] := curPmap0Blocks;
    UnpackedStep(curPmap0Blocks, x, 1);
    ghost var realMax := realMaxBlocksLevel[..];
    for i := 2 to recursionLevels + 1
      invariant realMaxBlocksLevel[..] == realMax
      invariant forall l :: 0 <= l < i ==> maxBlocksLevel[l] == Unpacked(curPmap0Blocks, x, l)
    {
      UnpackedStep(curPmap0Blocks, x, i);
      maxBlocksLevel[i] := maxBlocksLevel[i - 1] * x;
    }
    gN := maxBlocksLevel[recursionLevels];
    assert maxBlocksLevel[..][1] == Packed(maxBlocks, x, k);
  }

  /** Both loops stop after the same number of rounds. */
  lemma StopsOnce(n: nat, x: nat, limit: nat, j: nat, k: nat)
    requires x > 0 && StopsAt(n, x, limit, j) && StopsAt(n, x, limit, k)
    ensures j == k
  {
  }

  lemma {:induction false} MaxCovers(s: Sizes, n: nat, x: nat, limit: nat, levels: nat, l: nat)
    requires x > 0 && SizesOf(s, n, x, limit, levels) && StopsAt(n, x, limit, levels - 1)
    requires 1 <= l <= levels
    ensures s.real_[l] <= s.max[l] <= s.gN
    decreases l
  {
    hide CeilDiv;
    if l == 1 {
      var k :| StopsAt(n, x, limit, k) && s.max[1] == Packed(n, x, k);
      StopsOnce(n, x, limit, k, levels - 1);
    } else {
      MaxCovers(s, n, x, limit, levels, l - 1);
      assert s.real_[l - 1] == CeilDiv(s.real_[l], x);
      MulLe(s.real_[l - 1], s.max[l - 1], x);
    }
    MaxMonotone(s, n, x, limit, levels, l);
  }

  lemma {:induction false} MaxMonotone(s: Sizes, n: nat, x: nat, limit: nat, levels: nat, l: nat)
    requires x > 0 && SizesOf(s, n, x, limit, levels) && 1 <= l <= levels
    ensures s.max[l] <= s.gN
    decreases levels - l
  {
    hide CeilDiv, Packed;
    if l < levels {
      MaxMonotone(s, n, x, limit, levels, l + 1);
      MulLe(1, x, s.max[l]);
    }
  }

  /** Sizing, for the depth computeRecursionLevels returns: the on-chip map fits the limit, every level is large
      enough for its real blocks, every label of a level has a slot one level up, and no real id is the dummy's. */
  lemma SizesFit(s: Sizes, n: nat, x: nat, limit: nat, levels: nat)
    requires x > 0 && SizesOf(s, n, x, limit, levels) && StopsAt(n, x, limit, levels - 1)
    ensures s.real_[0] * 4 <= limit && s.real_[levels] == n
    ensures forall l :: 1 <= l <= levels ==> s.real_[l] <= s.max[l] <= s.gN
    ensures forall l :: 1 <= l < levels ==> s.real_[l + 1] <= s.real_[l] * x < s.real_[l + 1] + x
    ensures forall l :: 0 <= l <= levels ==> s.real_[l] <= s.gN && s.real_[l] <= n
  {
    forall l | 1 <= l <= levels
      ensures s.real_[l] <= s.max[l] <= s.gN && s.real_[l] <= n
    {
      MaxCovers(s, n, x, limit, levels, l);
      PackedBounds(n, x, levels - l);
    }
    forall l | 1 <= l < levels
      ensures s.real_[l + 1] <= s.real_[l] * x < s.real_[l + 1] + x
    {
      assert s.real_[l] == CeilDiv(s.real_[l + 1], x);
    }
  }

  function Pow(x: nat, k: nat): (r: nat) {
    if k == 0 then 1 else x * Pow(x, k - 1)
  }

  lemma Distribute(a: nat, b: nat, c: nat)
    ensures (a + b) * c == a * c + b * c
  {
  }

  lemma RoundedTwice(n: nat, c: nat, y: nat, x: nat, P: nat)
    requires n <= c * P < n + P && c <= y < c + x
    ensures n <= y * P < n + x * P
  {
    var d: nat := y - c;
    Distribute(c, d, P);
    Distribute(d, x - d, P);
    MulLe(1, x - d, P);
  }

  lemma PowStep(x: nat, k: nat)
    ensures Pow(x, 0) == 1 && Pow(x, k + 1) == x * Pow(x, k)
  {
  }

  lemma MulAssociates(a: nat, b: nat, c: nat)
    ensures (a * b) * c == a * (b * c)
  {
  }

  /** Rounding up round by round is rounding up once. */
  lemma {:induction false} PackedOnce(n: nat, x: nat, k: nat)
    requires x > 0
    ensures n <= Packed(n, x, k) * Pow(x, k) < n + Pow(x, k)
  {
    hide CeilDiv, Packed, Pow;
    PackedStep(n, x, k);
    PowStep(x, k);
    if k > 0 {
      PackedOnce(n, x, k - 1);
      PackedStep(n, x, k - 1);
      PowStep(x, k - 1);
      var c, P := Packed(n, x, k), Pow(x, k - 1);
      RoundedTwice(n, Packed(n, x, k - 1), c * x, x, P);
      MulAssociates(c, x, P);
    }
  }

  lemma {:induction false} UnpackedOnce(cur: nat, x: nat, l: nat)
    requires l >= 1
    ensures Unpacked(cur, x, l) == cur * Pow(x, l - 1)
  {
    if l > 1 {
      UnpackedOnce(cur, x, l - 1);
      assert (cur * Pow(x, l - 2)) * x == cur * (x * Pow(x, l - 2));
    }
  }

  /** gN is the least multiple of x^(levels - 1) that is not below the number of blocks. */
  lemma DummyIdIs(s: Sizes, n: nat, x: nat, limit: nat, levels: nat)
    requires x > 0 && SizesOf(s, n, x, limit, levels) && StopsAt(n, x, limit, levels - 1)
    ensures s.gN == s.real_[1] * Pow(x, levels - 1)
    ensures n <= s.gN < n + Pow(x, levels - 1)
  {
    var k :| StopsAt(n, x, limit, k) && s.max[1] == Packed(n, x, k);
    StopsOnce(n, x, limit, k, levels - 1);
    PackedOnce(n, x, levels - 1);
    UnpackedOnce(s.max[1], x, levels);
  }

  lemma {:induction false} PowPositive(x: nat, k: nat)
    requires x > 0
    ensures Pow(x, k) >= 1
  {
    if k > 0 {
      PowPositive(x, k - 1);
      MulLe(1, x, Pow(x, k - 1));
    }
  }

  /** c is n divided by P and rounded up: c is at most q exactly when n is at most q * P. */
  lemma QuotientWithin(n: nat, c: nat, P: nat, q: nat)
    requires n <= c * P < n + P
    ensures c <= q <==> n <= q * P
  {
    if c <= q {
      MulLe(c, q, P);
    } else {
      MulLe(q + 1, c, P);
      Distribute(q, 1, P);
    }
  }

  /** gN is at most B exactly when the number of blocks is at most the largest multiple of x^(levels - 1) up to B. */
  lemma DummyIdWithin(s: Sizes, n: nat, x: nat, limit: nat, levels: nat, B: nat)
    requires x > 0 && SizesOf(s, n, x, limit, levels) && StopsAt(n, x, limit, levels - 1)
    ensures Pow(x, levels - 1) >= 1
    ensures s.gN <= B <==> n <= B / Pow(x, levels - 1) * Pow(x, levels - 1)
  {
    hide StopsAt, Pow;
    DummyIdIs(s, n, x, limit, levels);
    PowPositive(x, levels - 1);
    var c, P := s.real_[1], Pow(x, levels - 1);
    var q := B / P;
    assert B == P * q + B % P;
    QuotientWithin(n, c, P, q);
    if c <= q {
      MulLe(c, q, P);
    } else {
      MulLe(q + 1, c, P);
      Distribute(q, 1, P);
    }
  }

  /** A freshly serialized dummy: setId keeps 32 bits of gN. */
  function StoredDummy(gN: nat, data: seq<nat>): Block {
    Block(gN % UINT32, 0, data)
  }

  /** gN fits the 32 bits of an id, and a serialized dummy is recognized as one, exactly when the number of blocks
      rounded up to a multiple of x^(levels - 1) stays below 2^32. */
  lemma DummyIdFitsIff(s: Sizes, n: nat, x: nat, limit: nat, levels: nat, data: seq<nat>)
    requires x > 0 && SizesOf(s, n, x, limit, levels) && StopsAt(n, x, limit, levels - 1)
    ensures Pow(x, levels - 1) >= 1
    ensures s.gN < UINT32 <==> n <= (UINT32 - 1) / Pow(x, levels - 1) * Pow(x, levels - 1)
    ensures IsBlockDummy(StoredDummy(s.gN, data), s.gN) <==>
            n <= (UINT32 - 1) / Pow(x, levels - 1) * Pow(x, levels - 1)
  {
    hide SizesOf, StopsAt, Pow;
    DummyIdWithin(s, n, x, limit, levels, UINT32 - 1);
  }

  /** It need not fit: for the largest number of blocks, with the sizes that ship, every dummy is stored as block 0. */
  lemma DummyIdOverflows()
    ensures StopsAt(UINT32 - 1, 16, 10240, 6)
    ensures exists s: Sizes :: SizesOf(s, UINT32 - 1, 16, 10240, 7) && s.gN == UINT32 && StoredDummy(s.gN, []).id == 0
  {
    var n := UINT32 - 1;
    assert Packed(n, 16, 1) == 0x1000_0000;
    assert Packed(n, 16, 2) == 0x100_0000;
    assert Packed(n, 16, 3) == 0x10_0000;
    assert Packed(n, 16, 4) == 0x1_0000;
    assert Packed(n, 16, 5) == 0x1000;
    assert Packed(n, 16, 6) == 0x100;
    assert StopsAt(n, 16, 10240, 6);
    var real_ := seq(8, l requires 0 <= l < 8 => if l == 0 then Packed(n, 16, 6) else Packed(n, 16, 7 - l));
    var max := seq(8, l requires 0 <= l < 8 => Unpacked(0x100, 16, l));
    assert Unpacked(0x100, 16, 2) == 0x1000 && Unpacked(0x100, 16, 3) == 0x1_0000;
    assert Unpacked(0x100, 16, 4) == 0x10_0000 && Unpacked(0x100, 16, 5) == 0x100_0000;
    assert Unpacked(0x100, 16, 6) == 0x1000_0000 && Unpacked(0x100, 16, 7) == UINT32;
    assert SizesOf(Sizes(real_, max, UINT32), n, 16, 10240, 7);
  }

  lemma {:induction false} PackedShrinks(n: nat, x: nat, j: nat, k: nat)
    requires x > 0 && j <= k
    ensures Packed(n, x, k) <= Packed(n, x, j)
    decreases k
  {
    if j < k {
      PackedShrinks(n, x, j, k - 1);
      CeilDivShrinks(Packed(n, x, k - 1), x);
    }
  }

  /** No more than k rounds are made, so that the levels are numbered up to k + 1, exactly when the number of blocks is
      at most x^k times the number of labels that fit on the chip. */
  lemma RoundsWithinIff(n: nat, x: nat, limit: nat, rounds: nat, k: nat)
    requires x > 0 && StopsAt(n, x, limit, rounds)
    ensures rounds <= k <==> n <= limit / 4 * Pow(x, k)
  {
    hide CeilDiv, Pow;
    PackedOnce(n, x, k);
    QuotientWithin(n, Packed(n, x, k), Pow(x, k), limit / 4);
    if rounds <= k {
      PackedShrinks(n, x, rounds, k);
    } else {
      assert Packed(n, x, k) * 4 > limit;
    }
  }

  // ----- The depth of a level -----

  /** ceil(log2(n)) for n >= 1. */
  function CeilLog2(n: nat): (d: nat)
    requires n >= 1
    ensures n <= Pow2(d) && (d > 0 ==> Pow2(d - 1) < n)
  {
    if n == 1 then 0 else 1 + CeilLog2((n + 1) / 2)
  }

  function DepthOf(maxBlocks: nat, Z: nat): (d: nat)
    requires maxBlocks >= 1 && Z >= 1
  {
    CeilDivShrinks(maxBlocks, Z);
    CeilLog2(CeilDiv(maxBlocks, Z))
  }

  /** The leaves of a level alone hold all its blocks. */
  lemma {:induction false} LeavesCover(maxBlocks: nat, Z: nat)
    requires maxBlocks >= 1 && Z >= 1
    ensures Pow2(DepthOf(maxBlocks, Z)) * Z >= maxBlocks
    ensures DepthOf(maxBlocks, Z) > 0 ==> Pow2(DepthOf(maxBlocks, Z) - 1) * Z < maxBlocks
  {
    hide CeilDiv, CeilLog2, Pow2;
    CeilDivShrinks(maxBlocks, Z);
    var c, d := CeilDiv(maxBlocks, Z), DepthOf(maxBlocks, Z);
    MulLe(c, Pow2(d), Z);
    if d > 0 {
      MulLe(Pow2(d - 1), c - 1, Z);
      assert (c - 1) * Z == c * Z - Z;
    }
  }

  /** A level's tree is at most d deep exactly when 2^d leaf buckets would hold its blocks. */
  lemma DepthWithinIff(maxBlocks: nat, Z: nat, d: nat)
    requires maxBlocks >= 1 && Z >= 1
    ensures DepthOf(maxBlocks, Z) <= d <==> maxBlocks <= Pow2(d) * Z
  {
    hide DepthOf, Pow2;
    LeavesCover(maxBlocks, Z);
    var D := DepthOf(maxBlocks, Z);
    if D <= d {
      Pow2Monotone(D, d);
      MulLe(Pow2(D), Pow2(d), Z);
    } else {
      Pow2Monotone(d, D - 1);
      MulLe(Pow2(d), Pow2(D - 1), Z);
    }
  }

  /** At every level the leaves alone hold the real blocks, and the position map has a label for every child slot. */
  lemma LevelsFit(s: Sizes, n: nat, x: nat, limit: nat, levels: nat, Z: nat)
    requires x > 0 && n >= 1 && Z >= 1 && SizesOf(s, n, x, limit, levels) && StopsAt(n, x, limit, levels - 1)
    ensures forall l :: 1 <= l <= levels ==> 1 <= s.max[l] && s.real_[l] <= Pow2(DepthOf(s.max[l], Z)) * Z
    ensures forall l :: 1 <= l < levels ==> s.real_[l] * x <= s.max[l + 1]
  {
    SizesFit(s, n, x, limit, levels);
    forall l | 1 <= l <= levels
      ensures 1 <= s.max[l] && s.real_[l] <= Pow2(DepthOf(s.max[l], Z)) * Z
    {
      PackedBounds(n, x, levels - l);
      LeavesCover(s.max[l], Z);
    }
    forall l | 1 <= l < levels
      ensures s.real_[l] * x <= s.max[l + 1]
    {
      MulLe(s.real_[l], s.max[l], x);
      UnpackedStep(s.max[1], x, l + 1);
    }
  }
}
