/** The Merkle root of a block's transactions, computed in place.  A slot of the buffer holds one 32-byte hash; the hash of
    two slots is a parameter. */
module BlockMerkleRoot {
  import opened TreePaths

  type Hash = seq<nat>

  /** One layer up: hash neighbours, the last one with itself when it has none. */
  function NextLayer(h: (Hash, Hash) -> Hash, hs: seq<Hash>): (r: seq<Hash>)
    ensures |r| == (|hs| + 1) / 2
  {
    seq((|hs| + 1) / 2, j requires 0 <= j < (|hs| + 1) / 2 =>
      h(hs[2 * j], if 2 * j + 1 < |hs| then hs[2 * j + 1] else hs[2 * j]))
  }

  /** Layer by layer, as the enclave computes it. */
  function Root(h: (Hash, Hash) -> Hash, hs: seq<Hash>): Hash
    requires |hs| >= 1
    decreases |hs|
  {
    if |hs| == 1 then hs[0] else Root(h, NextLayer(h, hs))
  }

  // ----- The root as the value of a tree -----

  /** The number of nodes k layers above n leaves. */
  function Width(n: nat, k: nat): nat {
    if k == 0 then n else (Width(n, k - 1) + 1) / 2
  }

  /** Node j, k layers above the leaves, from the leaves below it. */
  function Node(h: (Hash, Hash) -> Hash, leaves: seq<Hash>, k: nat, j: nat): Hash
    requires j < Width(|leaves|, k)
    decreases k
  {
    if k == 0 then leaves[j]
    else
      var left := Node(h, leaves, k - 1, 2 * j);
      h(left, if 2 * j + 1 < Width(|leaves|, k - 1) then Node(h, leaves, k - 1, 2 * j + 1) else left)
  }

  /** The number of layers above n leaves. */
  function Height(n: nat): nat
    requires n >= 1
  {
    if n == 1 then 0 else Height((n + 1) / 2) + 1
  }

  lemma {:induction false} WidthUp(n: nat, k: nat)
    ensures Width((n + 1) / 2, k) == Width(n, k + 1)
  {
    if k > 0 {
      WidthUp(n, k - 1);
    }
  }

  lemma {:induction false} NodeUp(h: (Hash, Hash) -> Hash, leaves: seq<Hash>, k: nat, j: nat)
    requires j < Width(|NextLayer(h, leaves)|, k)
    ensures j < Width(|leaves|, k + 1)
    ensures Node(h, NextLayer(h, leaves), k, j) == Node(h, leaves, k + 1, j)
    decreases k
  {
    WidthUp(|leaves|, k);
    if k > 0 {
      WidthUp(|leaves|, k - 1);
      NodeUp(h, leaves, k - 1, 2 * j);
      if 2 * j + 1 < Width(|leaves|, k) {
        NodeUp(h, leaves, k - 1, 2 * j + 1);
      }
    }
  }

  lemma {:induction false} HeightIs(n: nat)
    requires n >= 1
    ensures Width(n, Height(n)) == 1
    decreases n
  {
    if n > 1 {
      HeightIs((n + 1) / 2);
      WidthUp(n, Height((n + 1) / 2));
    }
  }

  lemma RootOfOne(h: (Hash, Hash) -> Hash, hs: seq<Hash>)
    requires |hs| == 1
    ensures Width(1, Height(1)) == 1 && Root(h, hs) == Node(h, hs, Height(1), 0)
  {
    assert Height(1) == 0;
  }

  lemma RootUp(h: (Hash, Hash) -> Hash, hs: seq<Hash>)
    requires |hs| > 1
    ensures Root(h, hs) == Root(h, NextLayer(h, hs)) && Height(|hs|) == Height(|NextLayer(h, hs)|) + 1
  {
  }

  /** Working up layer by layer gives the value of the tree's root. */
  lemma {:induction false} RootIsTop(h: (Hash, Hash) -> Hash, hs: seq<Hash>)
    requires |hs| >= 1
    ensures Width(|hs|, Height(|hs|)) == 1 && Root(h, hs) == Node(h, hs, Height(|hs|), 0)
    decreases |hs|
  {
    hide NextLayer, Node, Width, Root, Height;
    HeightIs(|hs|);
    if |hs| == 1 {
      RootOfOne(h, hs);
    } else {
      RootUp(h, hs);
      var up := NextLayer(h, hs);
      RootIsTop(h, up);
      NodeUp(h, hs, Height(|up|), 0);
    }
  }

  // ----- The root of the parts -----

  lemma NextLayerSplits(h: (Hash, Hash) -> Hash, a: seq<Hash>, b: seq<Hash>)
    requires |a| % 2 == 0
    ensures NextLayer(h, a + b) == NextLayer(h, a) + NextLayer(h, b)
  {
    var all, left, right := NextLayer(h, a + b), NextLayer(h, a), NextLayer(h, b);
    var n := |a| / 2;
    assert |a| == 2 * n && |left| == n && |all| == n + |right|;
    forall j: nat | j < |all|
      ensures all[j] == (left + right)[j]
    {
      if j >= n {
        var i: nat := j - n;
        assert (a + b)[2 * j] == b[2 * i];
        assert all[j] == right[i];
      }
    }
  }

  lemma RootOfTwo(h: (Hash, Hash) -> Hash, a: Hash, b: Hash)
    ensures NextLayer(h, [a]) == [h(a, a)] && NextLayer(h, [a, b]) == [h(a, b)]
    ensures Root(h, [a]) == a && Root(h, [a, b]) == h(a, b)
  {
    assert NextLayer(h, [a, b]) == [h(a, b)];
    RootUp(h, [a, b]);
  }

  lemma HalfOfPow2(n: nat, k: nat)
    requires n == Pow2(k) && k > 0
    ensures n >= 2 && n % 2 == 0 && (n + 1) / 2 == Pow2(k - 1)
  {
  }

  /** The root over two full halves is the hash of their roots, the left one first. */
  lemma {:induction false} RootOfHalves(h: (Hash, Hash) -> Hash, a: seq<Hash>, b: seq<Hash>, k: nat)
    requires |a| == |b| == Pow2(k)
    ensures Root(h, a + b) == h(Root(h, a), Root(h, b))
    decreases k
  {
    hide NextLayer, Root, Height, Pow2;
    if k == 0 {
      PowerOfNone();
      RootOfTwo(h, a[0], b[0]);
      RootOfTwo(h, b[0], a[0]);
      assert a == [a[0]] && b == [b[0]] && a + b == [a[0], b[0]];
    } else {
      HalfOfPow2(|a|, k);
      RootUp(h, a);
      RootUp(h, b);
      RootUp(h, a + b);
      NextLayerSplits(h, a, b);
      RootOfHalves(h, NextLayer(h, a), NextLayer(h, b), k - 1);
    }
  }

  lemma PowerOfNone()
    ensures Pow2(0) == 1
  {
  }

  /** The last of an odd number of hashes counts twice. */
  lemma RootOfOdd(h: (Hash, Hash) -> Hash, hs: seq<Hash>, last: Hash)
    requires |hs| >= 2 && |hs| % 2 == 0
    ensures Root(h, hs + [last]) == Root(h, hs + [last, last])
  {
    hide NextLayer, Root, Height;
    NextLayerSplits(h, hs, [last]);
    NextLayerSplits(h, hs, [last, last]);
    RootOfTwo(h, last, last);
    RootUp(h, hs + [last]);
    RootUp(h, hs + [last, last]);
  }

  // ----- In place -----

  function PairHash(h: (Hash, Hash) -> Hash, hs: seq<Hash>, j: nat): Hash
    requires 2 * j + 1 < |hs|
  {
    h(hs[2 * j], hs[2 * j + 1])
  }

  /** The loop over pairs of slots: each hash is written over slots already read.  For an odd n the last pair reaches one
      slot beyond the n hashes; beyond is what lies behind the buffer, where that slot is not part of it. */
  method HashPairs(txHashes: array<Hash>, n: nat, h: (Hash, Hash) -> Hash, beyond: Hash)
    requires n <= txHashes.Length
    modifies txHashes
    ensures forall j :: 0 <= j < n / 2 ==> txHashes[j] == PairHash(h, old(txHashes[..]), j)
    ensures forall j :: (n + 1) / 2 <= j < txHashes.Length ==> txHashes[j] == old(txHashes[j])
  {
    var i := 0;
    ghost var p := 0;
    ghost var hs := txHashes[..];
    while i < n
      invariant i == 2 * p <= n + n % 2
      invariant forall j :: 0 <= j < p && j < n / 2 ==> txHashes[j] == PairHash(h, hs, j)
      invariant forall j :: p <= j < txHashes.Length ==> txHashes[j] == hs[j]
    {
      var output := h(txHashes[i], if i + 1 < txHashes.Length then txHashes[i + 1] else beyond);
      assert i + 1 < n ==> output == PairHash(h, hs, p);
      txHashes[i / 2] := output;
      i := i + 2;
      p := p + 1;
    }
  }

  /** The two branches before the tail call: the layer above, over the layer it is computed from. */
  method HashLayer(txHashes: array<Hash>, n: nat, h: (Hash, Hash) -> Hash, beyond: Hash) returns (m: nat)
    requires 2 <= n <= txHashes.Length
    modifies txHashes
    ensures m == NextSize(n) && txHashes[..m] == NextLayer(h, old(txHashes[..n]))
  {
    hide NextLayer;
    HashPairs(txHashes, n, h, beyond);
    if n % 2 == 0 {
      m := n / 2;
    } else {
      var duplicate := txHashes[n - 1];
      m := n / 2 + 1;
      txHashes[m - 1] := h(duplicate, duplicate);
    }
    LayerIs(h, old(txHashes[..]), n, txHashes[..m]);
    assert old(txHashes[..])[..n] == old(txHashes[..n]);
  }

  /** Hashes of all pairs, and of the last hash with itself when it is left over, are the next layer. */
  lemma LayerIs(h: (Hash, Hash) -> Hash, before: seq<Hash>, n: nat, after: seq<Hash>)
    requires n <= |before| && |after| == NextSize(n)
    requires forall j :: 0 <= j < n / 2 ==> 2 * j + 1 < |before| && after[j] == PairHash(h, before, j)
    requires n % 2 == 1 ==> after[n / 2] == h(before[n - 1], before[n - 1])
    ensures after == NextLayer(h, before[..n])
  {
    var layer := NextLayer(h, before[..n]);
    forall j: nat | j < |after|
      ensures after[j] == layer[j]
    {
      if j < n / 2 {
        assert after[j] == PairHash(h, before, j);
      }
    }
  }

  /** verifyMerkleRoot on n hashes, whatever lies behind the buffer.  It never returns for n == 0. */
  method VerifyMerkleRoot(txHashes: array<Hash>, n: nat, merkleRoot: Hash, h: (Hash, Hash) -> Hash,
                          beyond: Hash) returns (r: int)
    requires 1 <= n <= txHashes.Length
    modifies txHashes
    ensures r == 0 <==> Root(h, old(txHashes[..n])) == merkleRoot
    ensures r == 0 || r == -1
    decreases n
  {
    if n == 1 {
      return if txHashes[0] == merkleRoot then 0 else -1;
    }
    var m := HashLayer(txHashes, n, h, beyond);
    r := VerifyMerkleRoot(txHashes, m, merkleRoot, h, beyond);
  }

  /** The size of the next call, for n >= 0. */
  function NextSize(n: nat): nat {
    if n % 2 == 0 then n / 2 else n / 2 + 1
  }

  /** The size after k calls. */
  function SizeAfter(n: nat, k: nat): nat {
    if k == 0 then n else NextSize(SizeAfter(n, k - 1))
  }

  /** The chain of calls reaches the one-hash case exactly when there is a hash to begin with. */
  lemma ReachesOneIff(n: nat)
    ensures (exists k :: SizeAfter(n, k) == 1) <==> n >= 1
  {
    if n >= 1 {
      var k := ReachesOne(n);
      assert SizeAfter(n, k) == 1;
    } else {
      forall k: nat
        ensures SizeAfter(0, k) == 0
      {
        StaysZero(k);
      }
    }
  }

  lemma {:induction false} StaysZero(k: nat)
    ensures SizeAfter(0, k) == 0
  {
    if k > 0 {
      StaysZero(k - 1);
    }
  }

  lemma {:induction false} SizeAfterStep(n: nat, k: nat)
    ensures SizeAfter(NextSize(n), k) == SizeAfter(n, k + 1)
  {
    if k > 0 {
      SizeAfterStep(n, k - 1);
    }
  }

  lemma {:induction false} ReachesOne(n: nat) returns (k: nat)
    requires n >= 1
    ensures SizeAfter(n, k) == 1
    decreases n
  {
    if n == 1 {
      k := 0;
    } else {
      var l := ReachesOne(NextSize(n));
      SizeAfterStep(n, l);
      k := l + 1;
    }
  }
}
