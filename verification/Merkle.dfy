/** The hash tree kept over the buckets of a level, and its incremental maintenance along one path.  The hash function is a
    parameter; buckets are byte strings. */
module Merkle {
  import opened TreePaths
  import opened LocalStorage
  import LS = LocalStorage

  type Bytes = seq<nat>
  type Hash = seq<nat>

  // ----- The tree of hashes -----

  /** What is hashed for bucket n: its bytes, and above the leaves the hashes of its children. */
  function NodeHash(sha: Bytes -> Hash, bucket: Bytes, hashes: seq<Hash>, n: nat, N: nat): Hash
    requires 1 <= n && (n < N ==> 2 * n < |hashes|)
  {
    if n >= N then sha(bucket) else sha(bucket + hashes[2 * n - 1] + hashes[2 * n])
  }

  /** The hash of the subtree of bucket n, computed from all buckets. */
  function SubtreeHash(sha: Bytes -> Hash, buckets: seq<Bytes>, n: nat, N: nat): Hash
    requires 1 <= n <= |buckets| == 2 * N - 1
    decreases 2 * N - n
  {
    if n >= N then sha(buckets[n - 1])
    else sha(buckets[n - 1] + SubtreeHash(sha, buckets, 2 * n, N) + SubtreeHash(sha, buckets, 2 * n + 1, N))
  }

  /** All hashes, rebuilt from scratch. */
  function Rebuilt(sha: Bytes -> Hash, buckets: seq<Bytes>, N: nat): (r: seq<Hash>)
    requires |buckets| == 2 * N - 1
    ensures |r| == |buckets|
  {
    seq(|buckets|, k requires 0 <= k < |buckets| => SubtreeHash(sha, buckets, k + 1, N))
  }

  /** The hash of bucket n fits its bytes and the hashes of its children. */
  ghost predicate Fits(sha: Bytes -> Hash, buckets: seq<Bytes>, hashes: seq<Hash>, n: nat, N: nat) {
    && |buckets| == |hashes| == 2 * N - 1 && 1 <= n < 2 * N
    && hashes[n - 1] == NodeHash(sha, buckets[n - 1], hashes, n, N)
  }

  ghost predicate Consistent(sha: Bytes -> Hash, buckets: seq<Bytes>, hashes: seq<Hash>, N: nat) {
    forall n :: 1 <= n < 2 * N ==> Fits(sha, buckets, hashes, n, N)
  }

  /** Hashes that fit together locally are the rebuilt ones. */
  lemma {:induction false} ConsistentAt(sha: Bytes -> Hash, buckets: seq<Bytes>, hashes: seq<Hash>, n: nat, N: nat)
    requires |buckets| == |hashes| == 2 * N - 1 && Consistent(sha, buckets, hashes, N) && 1 <= n < 2 * N
    ensures hashes[n - 1] == SubtreeHash(sha, buckets, n, N)
    decreases 2 * N - n
  {
    assert Fits(sha, buckets, hashes, n, N);
    if n < N {
      ConsistentAt(sha, buckets, hashes, 2 * n, N);
      ConsistentAt(sha, buckets, hashes, 2 * n + 1, N);
    }
  }

  lemma ConsistentIffRebuilt(sha: Bytes -> Hash, buckets: seq<Bytes>, hashes: seq<Hash>, N: nat)
    requires |buckets| == |hashes| == 2 * N - 1
    ensures Consistent(sha, buckets, hashes, N) <==> hashes == Rebuilt(sha, buckets, N)
  {
    if Consistent(sha, buckets, hashes, N) {
      forall k | 0 <= k < |hashes|
        ensures hashes[k] == Rebuilt(sha, buckets, N)[k]
      {
        ConsistentAt(sha, buckets, hashes, k + 1, N);
      }
    }
    if hashes == Rebuilt(sha, buckets, N) {
      forall n: nat | 1 <= n < 2 * N
        ensures Fits(sha, buckets, hashes, n, N)
      {
        assert hashes[n - 1] == SubtreeHash(sha, buckets, n, N);
        if n < N {
          assert hashes[2 * n - 1] == SubtreeHash(sha, buckets, 2 * n, N);
          assert hashes[2 * n] == SubtreeHash(sha, buckets, 2 * n + 1, N);
        }
      }
    }
  }

  // ----- What a path brings along -----

  /** Entry k of the hashes downloaded with a path: for each bucket below the root the hashes of its parent's left
      and right child, then the root's. */
  function PathHashAt(hashes: seq<Hash>, node: nat, D: nat, k: nat): Hash
    requires Pow2(D) <= node < 2 * Pow2(D) && |hashes| == 2 * Pow2(D) - 1 && k <= 2 * D
  {
    var i := k / 2;
    ShiftByRange(node, D, i);
    if i == D then hashes[ShiftBy(node, D) - 1]
    else
      ShiftByRange(node, D, i + 1);
      Pow2Monotone(D - i - 1, D);
      hashes[2 * ShiftBy(node, i + 1) - 1 + k % 2]
  }

  function PathHash(hashes: seq<Hash>, node: nat, D: nat): (r: seq<Hash>)
    requires Pow2(D) <= node < 2 * Pow2(D) && |hashes| == 2 * Pow2(D) - 1
    ensures |r| == 2 * D + 1
  {
    seq(2 * D + 1, k requires 0 <= k <= 2 * D => PathHashAt(hashes, node, D, k))
  }

  /** The new hash of the bucket i steps above the leaf, from the new buckets and the old hashes of the siblings. */
  function NewHashAt(sha: Bytes -> Hash, path: seq<Bytes>, old_: seq<Hash>, node: nat, i: nat): Hash
    requires i < |path| && 2 * i <= |old_|
  {
    if i == 0 then sha(path[0])
    else
      var below := NewHashAt(sha, path, old_, node, i - 1);
      if ShiftBy(node, i - 1) % 2 == 0 then sha(path[i] + below + old_[2 * i - 1])
      else sha(path[i] + old_[2 * i - 2] + below)
  }

  function NewPathHash(sha: Bytes -> Hash, path: seq<Bytes>, old_: seq<Hash>, node: nat): (r: seq<Hash>)
    requires 2 * |path| <= |old_| + 2
    ensures |r| == |path|
  {
    seq(|path|, i requires 0 <= i < |path| => NewHashAt(sha, path, old_, node, i))
  }

  // ----- Write-backs -----

  /** The untrusted buckets and hashes of a level, and the root hash kept in the enclave. */
  datatype HashTree = HashTree(buckets: seq<Bytes>, hashes: seq<Hash>, root: Hash)

  ghost predicate Sized(t: HashTree, D: nat) {
    |t.buckets| == |t.hashes| == 2 * Pow2(D) - 1
  }

  /** A path is replaced; the root kept in the enclave is refreshed by the branch for inner buckets. */
  function WrittenBack(sha: Bytes -> Hash, t: HashTree, leaf: nat, path: seq<Bytes>, D: nat): (r: HashTree)
    requires Sized(t, D) && leaf < Pow2(D) && |path| == D + 1
    ensures Sized(r, D)
  {
    var node := leaf + Pow2(D);
    var new_ := NewPathHash(sha, path, PathHash(t.hashes, node, D), node);
    HashTree(Uploaded(t.buckets, node, path), Uploaded(t.hashes, node, new_), if D > 0 then new_[D] else t.root)
  }

  /** The stored hashes and the enclave's root are those of the buckets. */
  ghost predicate Faithful(sha: Bytes -> Hash, t: HashTree, D: nat) {
    Sized(t, D) && t.hashes == Rebuilt(sha, t.buckets, Pow2(D)) && t.root == t.hashes[0]
  }

  /** Bucket n lies on the path, i steps above the leaf. */
  predicate OnPath(node: nat, D: nat, n: nat, i: nat) {
    i <= D && ShiftBy(node, i) == n
  }

  ghost predicate OffPath(node: nat, D: nat, n: nat) {
    forall i: nat :: !OnPath(node, D, n, i)
  }

  lemma ChildOnPath(node: nat, D: nat, n: nat, c: nat, i: nat)
    requires Pow2(D) <= node < 2 * Pow2(D) && 1 <= n && (c == 2 * n || c == 2 * n + 1) && OnPath(node, D, c, i)
    ensures OnPath(node, D, n, i + 1)
  {
    assert ShiftBy(node, i + 1) == n;
    if i == D {
      ShiftByRange(node, D, D);
      assert false;
    }
  }

  lemma OnPathOnce(node: nat, D: nat, n: nat, i: nat, j: nat)
    requires Pow2(D) <= node < 2 * Pow2(D) && OnPath(node, D, n, i) && OnPath(node, D, n, j)
    ensures i == j
  {
    if i < j {
      ShiftByInjective(node, D, i, j);
    } else if j < i {
      ShiftByInjective(node, D, j, i);
    }
  }

  /** The sibling of a bucket on the path is off the path. */
  lemma SiblingOffPath(node: nat, D: nat, n: nat, c: nat, sibling: nat, i: nat)
    requires Pow2(D) <= node < 2 * Pow2(D) && OnPath(node, D, c, i) && 1 <= n
    requires (c == 2 * n && sibling == 2 * n + 1) || (c == 2 * n + 1 && sibling == 2 * n)
    ensures OffPath(node, D, sibling)
  {
    ChildOnPath(node, D, n, c, i);
    forall j: nat
      ensures !OnPath(node, D, sibling, j)
    {
      if OnPath(node, D, sibling, j) {
        ChildOnPath(node, D, n, sibling, j);
        OnPathOnce(node, D, n, i + 1, j + 1);
      }
    }
  }

  /** An upload replaces exactly the entries on the path. */
  lemma UploadedIs<T>(tree: seq<T>, node: nat, path: seq<T>, D: nat, n: nat)
    requires Pow2(D) <= node < 2 * Pow2(D) && |tree| == 2 * Pow2(D) - 1 && |path| == D + 1 && 1 <= n <= |tree|
    ensures forall i: nat :: OnPath(node, D, n, i) ==> Uploaded(tree, node, path)[n - 1] == path[i]
    ensures OffPath(node, D, n) ==> Uploaded(tree, node, path)[n - 1] == tree[n - 1]
  {
    UploadedAt(tree, node, path, n);
    if OffPath(node, D, n) {
      forall i | 0 <= i < |path|
        ensures ShiftBy(node, i) != n
      {
        assert !OnPath(node, D, n, i);
      }
    }
  }

  /** The hashes downloaded with the path are those of the two children of every bucket above the leaf. */
  lemma ChildrenDownloaded(hashes: seq<Hash>, node: nat, D: nat, n: nat, i: nat)
    requires Pow2(D) <= node < 2 * Pow2(D) && |hashes| == 2 * Pow2(D) - 1 && i < D && OnPath(node, D, n, i + 1)
    ensures 1 <= n < Pow2(D)
    ensures PathHash(hashes, node, D)[2 * i] == hashes[2 * n - 1] && PathHash(hashes, node, D)[2 * i + 1] == hashes[2 * n]
  {
    ShiftByRange(node, D, i + 1);
    Pow2Monotone(D - i - 1, D);
    assert PathHash(hashes, node, D)[2 * i] == PathHashAt(hashes, node, D, 2 * i);
    assert PathHash(hashes, node, D)[2 * i + 1] == PathHashAt(hashes, node, D, 2 * i + 1);
  }

  /** Of the children of a bucket on the path, one has its new hash and the other the downloaded one. */
  lemma ChildHashes(sha: Bytes -> Hash, t: HashTree, leaf: nat, path: seq<Bytes>, D: nat, n: nat, l: nat)
    requires Sized(t, D) && leaf < Pow2(D) && |path| == D + 1
    requires l < D && OnPath(leaf + Pow2(D), D, n, l + 1)
    ensures 1 <= n < Pow2(D)
    ensures var node := leaf + Pow2(D);
      var old_ := PathHash(t.hashes, node, D);
      var hashes := WrittenBack(sha, t, leaf, path, D).hashes;
      var below := NewHashAt(sha, path, old_, node, l);
      if ShiftBy(node, l) % 2 == 0 then hashes[2 * n - 1] == below && hashes[2 * n] == old_[2 * l + 1]
      else hashes[2 * n - 1] == old_[2 * l] && hashes[2 * n] == below
  {
    hide Uploaded, PathHash, PathHashAt, Pow2, NewHashAt;
    var node := leaf + Pow2(D);
    var new_ := NewPathHash(sha, path, PathHash(t.hashes, node, D), node);
    var c := ShiftBy(node, l);
    var sibling := if c % 2 == 0 then c + 1 else c - 1;
    assert OnPath(node, D, c, l);
    ChildrenDownloaded(t.hashes, node, D, n, l);
    SiblingOffPath(node, D, n, c, sibling, l);
    UploadedIs(t.hashes, node, new_, D, c);
    UploadedIs(t.hashes, node, new_, D, sibling);
    assert new_[l] == NewHashAt(sha, path, PathHash(t.hashes, node, D), node, l);
  }

  /** The hash of a bucket on the path fits its new bytes and the hashes of its children. */
  lemma PathNodeFits(sha: Bytes -> Hash, t: HashTree, leaf: nat, path: seq<Bytes>, D: nat, n: nat, i: nat)
    requires Sized(t, D) && leaf < Pow2(D) && |path| == D + 1
    requires 1 <= n < 2 * Pow2(D) && OnPath(leaf + Pow2(D), D, n, i)
    ensures var r := WrittenBack(sha, t, leaf, path, D);
      Fits(sha, r.buckets, r.hashes, n, Pow2(D))
  {
    hide Uploaded, PathHash, PathHashAt, Pow2;
    var node, N := leaf + Pow2(D), Pow2(D);
    var old_ := PathHash(t.hashes, node, D);
    var new_ := NewPathHash(sha, path, old_, node);
    UploadedIs(t.buckets, node, path, D, n);
    UploadedIs(t.hashes, node, new_, D, n);
    assert new_[i] == NewHashAt(sha, path, old_, node, i);
    if i > 0 {
      ChildHashes(sha, t, leaf, path, D, n, i - 1);
    }
  }

  /** Off the path neither the bucket nor the hashes of its children change. */
  lemma OffPathNodeFits(sha: Bytes -> Hash, t: HashTree, leaf: nat, path: seq<Bytes>, D: nat, n: nat)
    requires Sized(t, D) && leaf < Pow2(D) && |path| == D + 1
    requires OffPath(leaf + Pow2(D), D, n) && Fits(sha, t.buckets, t.hashes, n, Pow2(D))
    ensures var r := WrittenBack(sha, t, leaf, path, D);
      Fits(sha, r.buckets, r.hashes, n, Pow2(D))
  {
    hide Uploaded, PathHash, PathHashAt, Pow2, NewHashAt;
    var node, N := leaf + Pow2(D), Pow2(D);
    var new_ := NewPathHash(sha, path, PathHash(t.hashes, node, D), node);
    UploadedIs(t.buckets, node, path, D, n);
    UploadedIs(t.hashes, node, new_, D, n);
    if n < N {
      ChildOffPath(node, D, n, 2 * n);
      ChildOffPath(node, D, n, 2 * n + 1);
      UploadedIs(t.hashes, node, new_, D, 2 * n);
      UploadedIs(t.hashes, node, new_, D, 2 * n + 1);
    }
  }

  lemma ChildOffPath(node: nat, D: nat, n: nat, c: nat)
    requires Pow2(D) <= node < 2 * Pow2(D) && 1 <= n && (c == 2 * n || c == 2 * n + 1) && OffPath(node, D, n)
    ensures OffPath(node, D, c)
  {
    forall i: nat
      ensures !OnPath(node, D, c, i)
    {
      if OnPath(node, D, c, i) {
        ChildOnPath(node, D, n, c, i);
      }
    }
  }

  /** One write-back: the incrementally updated hashes and root are those rebuilt from all buckets. */
  lemma WriteBackKeepsFaithful(sha: Bytes -> Hash, t: HashTree, leaf: nat, path: seq<Bytes>, D: nat)
    requires Faithful(sha, t, D) && leaf < Pow2(D) && |path| == D + 1 && D >= 1
    ensures Faithful(sha, WrittenBack(sha, t, leaf, path, D), D)
  {
    var node, N := leaf + Pow2(D), Pow2(D);
    var r := WrittenBack(sha, t, leaf, path, D);
    ConsistentIffRebuilt(sha, t.buckets, t.hashes, N);
    forall n: nat | 1 <= n < 2 * N
      ensures Fits(sha, r.buckets, r.hashes, n, N)
    {
      hide WrittenBack, Rebuilt, Pow2;
      if i: nat :| OnPath(node, D, n, i) {
        PathNodeFits(sha, t, leaf, path, D, n, i);
      } else {
        OffPathNodeFits(sha, t, leaf, path, D, n);
      }
    }
    ConsistentIffRebuilt(sha, r.buckets, r.hashes, N);
    RootRefreshed(sha, t, leaf, path, D);
  }

  /** With a layer below the root, the enclave's root is the stored one. */
  lemma RootRefreshed(sha: Bytes -> Hash, t: HashTree, leaf: nat, path: seq<Bytes>, D: nat)
    requires Sized(t, D) && leaf < Pow2(D) && |path| == D + 1 && D >= 1
    ensures WrittenBack(sha, t, leaf, path, D).root == WrittenBack(sha, t, leaf, path, D).hashes[0]
  {
    hide Uploaded, PathHash, PathHashAt, NewHashAt;
    var node := leaf + Pow2(D);
    ShiftByRange(node, D, D);
    assert OnPath(node, D, 1, D);
    UploadedIs(t.hashes, node, NewPathHash(sha, path, PathHash(t.hashes, node, D), node), D, 1);
  }

  ghost predicate WriteBackSafe(D: nat) {
    forall sha: Bytes -> Hash, t: HashTree, leaf: nat, path: seq<Bytes> ::
      Faithful(sha, t, D) && leaf < Pow2(D) && |path| == D + 1 ==> Faithful(sha, WrittenBack(sha, t, leaf, path, D), D)
  }

  /** A tree of a single bucket has no inner bucket, and its root hash is not refreshed: every write-back is safe exactly
      when the tree has a layer below the root. */
  lemma WriteBackSafeIff(D: nat)
    ensures WriteBackSafe(D) <==> D >= 1
  {
    if D >= 1 {
      forall sha: Bytes -> Hash, t: HashTree, leaf: nat, path: seq<Bytes> |
        Faithful(sha, t, D) && leaf < Pow2(D) && |path| == D + 1
        ensures Faithful(sha, WrittenBack(sha, t, leaf, path, D), D)
      {
        WriteBackKeepsFaithful(sha, t, leaf, path, D);
      }
    } else {
      var sha: Bytes -> Hash := (s: Bytes) => s;
      var t := HashTree([[0]], [[0]], [0]);
      assert Faithful(sha, t, 0);
      var r := WrittenBack(sha, t, 0, [[1]], 0);
      assert r.root == [0];
      assert r.hashes[0] == NewHashAt(sha, [[1]], PathHash(t.hashes, 1, 0), 1, 0) == [1];
      assert !Faithful(sha, r, 0);
    }
  }

  // ----- Runs of write-backs -----

  datatype WriteBack = WriteBack(leaf: nat, path: seq<Bytes>)

  ghost predicate WellFormed(ws: seq<WriteBack>, D: nat) {
    forall i :: 0 <= i < |ws| ==> ws[i].leaf < Pow2(D) && |ws[i].path| == D + 1
  }

  function Run(sha: Bytes -> Hash, t: HashTree, ws: seq<WriteBack>, D: nat): (r: HashTree)
    requires Sized(t, D) && WellFormed(ws, D)
    ensures Sized(r, D)
    decreases |ws|
  {
    if ws == [] then t else Run(sha, WrittenBack(sha, t, ws[0].leaf, ws[0].path, D), ws[1..], D)
  }

  /** The comparisons verifyPath makes for the path of bucket node, from the leaf to the root.  The buffer of the downloaded
      hashes has one entry more than the download fills. */
  function Comparison(sha: Bytes -> Hash, path: seq<Bytes>, pathHash: seq<Hash>, root: Hash, node: nat, D: nat,
                      k: nat): bool
    requires k <= D && |path| == D + 1 && |pathHash| == 2 * D + 2
  {
    if k == 0 then sha(path[0]) == pathHash[node % 2]
    else if k == D then pathHash[2 * D] == root
    else sha(path[k] + pathHash[2 * k - 2] + pathHash[2 * k - 1]) == pathHash[2 * k + ShiftBy(node, k) % 2]
  }

  /** Comparison k for the path to `leaf`, as it is downloaded; the spare entry of the buffer is stale. */
  predicate Matches(sha: Bytes -> Hash, t: HashTree, leaf: nat, D: nat, stale: Hash, k: nat)
    requires |t.buckets| == |t.hashes| == 2 * Pow2(D) - 1 && leaf < Pow2(D) && k <= D
  {
    var node := leaf + Pow2(D);
    Comparison(sha, PathBuckets(t.buckets, node, D + 1), PathHash(t.hashes, node, D) + [stale], t.root, node, D, k)
  }

  /** What is downloaded for any leaf passes every comparison. */
  ghost predicate Verifies(sha: Bytes -> Hash, t: HashTree, D: nat) {
    Sized(t, D) &&
    forall leaf: nat, stale: Hash, k: nat :: leaf < Pow2(D) && k <= D ==> Matches(sha, t, leaf, D, stale, k)
  }

  /** The stored hash of a bucket below the root is downloaded in the place its parity selects. */
  lemma OwnHashDownloaded(hashes: seq<Hash>, node: nat, D: nat, k: nat)
    requires Pow2(D) <= node < 2 * Pow2(D) && |hashes| == 2 * Pow2(D) - 1 && k < D
    ensures 1 <= ShiftBy(node, k) <= |hashes|
    ensures PathHash(hashes, node, D)[2 * k + ShiftBy(node, k) % 2] == hashes[ShiftBy(node, k) - 1]
  {
    hide Pow2, ShiftBy, PathHash;
    var n := ShiftBy(node, k + 1);
    ShiftByUp(node, k);
    assert OnPath(node, D, n, k + 1);
    ChildrenDownloaded(hashes, node, D, n, k);
  }

  /** The hash stored for a bucket of the path, from what is downloaded with the path. */
  lemma StoredHash(sha: Bytes -> Hash, t: HashTree, leaf: nat, D: nat, k: nat)
    requires Faithful(sha, t, D) && leaf < Pow2(D) && k <= D
    ensures var node := leaf + Pow2(D);
      var path, downloaded, n := PathBuckets(t.buckets, node, D + 1), PathHash(t.hashes, node, D), ShiftBy(node, k);
      && 1 <= n <= |t.hashes|
      && t.hashes[n - 1] == if k == 0 then sha(path[0]) else sha(path[k] + downloaded[2 * k - 2] + downloaded[2 * k - 1])
  {
    hide PathBuckets, PathHash, PathHashAt, Faithful, ShiftBy, Pow2;
    var node := leaf + Pow2(D);
    var n := ShiftBy(node, k);
    FaithfulSized(sha, t, D);
    PathNode(node, D, k);
    PathBucketsAt(t.buckets, node, D + 1, k);
    FaithfulFits(sha, t, D, n);
    if k > 0 {
      ChildrenDownloaded(t.hashes, node, D, n, k - 1);
    }
  }

  lemma PathNode(node: nat, D: nat, k: nat)
    requires Pow2(D) <= node < 2 * Pow2(D) && k <= D
    ensures 1 <= ShiftBy(node, k) < 2 * Pow2(D) && OnPath(node, D, ShiftBy(node, k), k)
    ensures k == 0 ==> ShiftBy(node, k) == node
  {
    ShiftByRange(node, D, k);
    Pow2Monotone(D - k, D);
  }

  lemma FaithfulFits(sha: Bytes -> Hash, t: HashTree, D: nat, n: nat)
    requires Faithful(sha, t, D) && 1 <= n < 2 * Pow2(D)
    ensures Fits(sha, t.buckets, t.hashes, n, Pow2(D))
  {
    ConsistentIffRebuilt(sha, t.buckets, t.hashes, Pow2(D));
  }

  lemma FaithfulVerifies(sha: Bytes -> Hash, t: HashTree, leaf: nat, D: nat, stale: Hash, k: nat)
    requires Faithful(sha, t, D) && leaf < Pow2(D) && D >= 1 && k <= D
    ensures Matches(sha, t, leaf, D, stale, k)
  {
    hide PathBuckets, PathHash, PathHashAt, Rebuilt, Pow2, ShiftBy;
    var node := leaf + Pow2(D);
    if k == D {
      RootDownloaded(t.hashes, node, D);
    } else {
      OwnHashDownloaded(t.hashes, node, D, k);
      StoredHash(sha, t, leaf, D, k);
      ShiftByUp(node, 0);
    }
  }

  /** What comparison k rejects, for any buckets presented with the hashes of a faithful tree: below the root, exactly the
      buckets whose hash is not the stored one; at the root, none, as only the stored root hash is compared there. */
  lemma ComparisonIff(sha: Bytes -> Hash, t: HashTree, leaf: nat, D: nat, stale: Hash, path: seq<Bytes>, k: nat)
    requires Faithful(sha, t, D) && leaf < Pow2(D) && |path| == D + 1 && D >= 1 && k <= D
    ensures var node := leaf + Pow2(D);
      var downloaded, n := PathHash(t.hashes, node, D), ShiftBy(node, k);
      && 1 <= n <= |t.hashes|
      && (Comparison(sha, path, downloaded + [stale], t.root, node, D, k) <==>
            k == D || (if k == 0 then sha(path[0]) else sha(path[k] + downloaded[2 * k - 2] + downloaded[2 * k - 1])) == t.hashes[n - 1])
  {
    hide PathHash, PathHashAt, Rebuilt, Pow2, ShiftBy;
    var node := leaf + Pow2(D);
    PathNode(node, D, k);
    if k == D {
      RootDownloaded(t.hashes, node, D);
    } else {
      OwnHashDownloaded(t.hashes, node, D, k);
      ShiftByUp(node, 0);
    }
  }

  /** A hash function without collisions. */
  ghost predicate Injective(sha: Bytes -> Hash) {
    forall a, b :: sha(a) == sha(b) ==> a == b
  }

  lemma SuffixCancels(a: Bytes, b: Bytes, c: Bytes, d: Bytes)
    requires a + c + d == b + c + d
    ensures a == b
  {
    assert |a| == |b|;
    assert a == (a + c + d)[..|a|] && b == (b + c + d)[..|b|];
  }

  /** Without collisions every bucket below the root must be the stored one. */
  lemma OnlyStoredPass(sha: Bytes -> Hash, t: HashTree, leaf: nat, D: nat, stale: Hash, path: seq<Bytes>, k: nat)
    requires Faithful(sha, t, D) && Injective(sha) && leaf < Pow2(D) && |path| == D + 1 && k < D
    ensures var node := leaf + Pow2(D);
      Comparison(sha, path, PathHash(t.hashes, node, D) + [stale], t.root, node, D, k) <==>
      path[k] == PathBuckets(t.buckets, node, D + 1)[k]
  {
    hide PathHash, PathHashAt, PathBuckets, Rebuilt, Pow2, ShiftBy, Comparison;
    var node := leaf + Pow2(D);
    var downloaded, stored := PathHash(t.hashes, node, D), PathBuckets(t.buckets, node, D + 1);
    ComparisonIff(sha, t, leaf, D, stale, path, k);
    StoredHash(sha, t, leaf, D, k);
    if k > 0 && sha(path[k] + downloaded[2 * k - 2] + downloaded[2 * k - 1]) == sha(stored[k] + downloaded[2 * k - 2] + downloaded[2 * k - 1]) {
      SuffixCancels(path[k], stored[k], downloaded[2 * k - 2], downloaded[2 * k - 1]);
    }
  }

  lemma RootDownloaded(hashes: seq<Hash>, node: nat, D: nat)
    requires Pow2(D) <= node < 2 * Pow2(D) && |hashes| == 2 * Pow2(D) - 1
    ensures ShiftBy(node, D) == 1 && PathHashAt(hashes, node, D, 2 * D) == PathHash(hashes, node, D)[2 * D] == hashes[0]
  {
    ShiftByRange(node, D, D);
  }

  /** After any sequence of write-backs the hashes and the root are those rebuilt from all buckets, and whatever path is
      downloaded next passes every comparison. */
  lemma {:induction false} RunStaysFaithful(sha: Bytes -> Hash, t: HashTree, ws: seq<WriteBack>, D: nat)
    requires Faithful(sha, t, D) && WellFormed(ws, D) && D >= 1
    ensures Faithful(sha, Run(sha, t, ws, D), D)
    ensures Verifies(sha, Run(sha, t, ws, D), D)
    decreases |ws|
  {
    hide Faithful, Matches, WrittenBack;
    FaithfulSized(sha, t, D);
    if ws == [] {
      forall leaf: nat, stale: Hash, k: nat | leaf < Pow2(D) && k <= D
        ensures Matches(sha, t, leaf, D, stale, k)
      {
        FaithfulVerifies(sha, t, leaf, D, stale, k);
      }
    } else {
      WriteBackKeepsFaithful(sha, t, ws[0].leaf, ws[0].path, D);
      RunStaysFaithful(sha, WrittenBack(sha, t, ws[0].leaf, ws[0].path, D), ws[1..], D);
    }
  }

  lemma FaithfulSized(sha: Bytes -> Hash, t: HashTree, D: nat)
    requires Faithful(sha, t, D)
    ensures Sized(t, D)
  {
  }

  // ----- The objects -----

  lemma LeafHash(sha: Bytes -> Hash, buckets: seq<Bytes>, n: nat, N: nat)
    requires N <= n <= |buckets| == 2 * N - 1
    ensures SubtreeHash(sha, buckets, n, N) == sha(buckets[n - 1])
  {
  }

  lemma InnerHash(sha: Bytes -> Hash, buckets: seq<Bytes>, n: nat, N: nat)
    requires 1 <= n < N && |buckets| == 2 * N - 1
    ensures SubtreeHash(sha, buckets, n, N) ==
            sha(buckets[n - 1] + SubtreeHash(sha, buckets, 2 * n, N) + SubtreeHash(sha, buckets, 2 * n + 1, N))
  {
  }

  /** The two hashes copied for the bucket i steps above the leaf. */
  lemma PairIs(hashes: seq<Hash>, node: nat, D: nat, i: nat)
    requires Pow2(D) <= node < 2 * Pow2(D) && |hashes| == 2 * Pow2(D) - 1 && i < D
    ensures var temp := ShiftBy(node, i);
      && 2 <= temp <= |hashes| && (temp % 2 == 0 ==> temp < |hashes|)
      && PathHashAt(hashes, node, D, 2 * i) == hashes[if temp % 2 == 0 then temp - 1 else temp - 2]
      && PathHashAt(hashes, node, D, 2 * i + 1) == hashes[if temp % 2 == 0 then temp else temp - 1]
  {
    hide Pow2, ShiftBy, PathHashAt;
    var n := ShiftBy(node, i + 1);
    ShiftByUp(node, i);
    assert OnPath(node, D, n, i + 1);
    ChildrenDownloaded(hashes, node, D, n, i);
  }

  lemma NewHashStep(sha: Bytes -> Hash, path: seq<Bytes>, old_: seq<Hash>, node: nat, i: nat)
    requires i < |path| && 2 * i <= |old_|
    ensures i == 0 ==> NewHashAt(sha, path, old_, node, i) == sha(path[0])
    ensures i > 0 && ShiftBy(node, i - 1) % 2 == 0 ==>
      NewHashAt(sha, path, old_, node, i) == sha(path[i] + NewHashAt(sha, path, old_, node, i - 1) + old_[2 * i - 1])
    ensures i > 0 && ShiftBy(node, i - 1) % 2 != 0 ==>
      NewHashAt(sha, path, old_, node, i) == sha(path[i] + old_[2 * i - 2] + NewHashAt(sha, path, old_, node, i - 1))
  {
  }

  /** One level: the untrusted storage of its buckets and hashes, and the enclave's root hash. */
  class HashedLevel {
    const sha: Bytes -> Hash
    const D: nat
    const buckets: LS.LocalStorage<Bytes>
    const hashes: LS.LocalStorage<Hash>
    var merkleRoot: Hash

    ghost predicate Valid() {
      buckets.entries.Length == hashes.entries.Length == 2 * Pow2(D) - 1 && buckets.entries != hashes.entries
    }

    ghost function Tree(): HashTree
      reads this, buckets.entries, hashes.entries
    {
      HashTree(buckets.entries[..], hashes.entries[..], merkleRoot)
    }

    constructor (sha: Bytes -> Hash, D: nat)
      ensures Valid() && fresh(buckets.entries) && fresh(hashes.entries)
      ensures this.sha == sha && this.D == D
    {
      this.sha := sha;
      this.D := D;
      buckets := new LS.LocalStorage<Bytes>(2 * Pow2(D) - 1, []);
      hashes := new LS.LocalStorage<Hash>(2 * Pow2(D) - 1, []);
      merkleRoot := [];
    }

    /** The buckets from n on are stored, with the hashes of their subtrees. */
    ghost predicate Stored(contents: seq<Bytes>, n: nat)
      requires Valid() && |contents| == 2 * Pow2(D) - 1
      reads buckets.entries, hashes.entries
    {
      forall k :: 0 <= k < |contents| && n <= k + 1 ==>
        buckets.entries[k] == contents[k] && hashes.entries[k] == SubtreeHash(sha, contents, k + 1, Pow2(D))
    }

    method StoreBucket(ghost contents: seq<Bytes>, i: nat, bucket: Bytes, hash: Hash)
      requires Valid() && |contents| == 2 * Pow2(D) - 1 && 1 <= i <= |contents|
      requires bucket == contents[i - 1] && hash == SubtreeHash(sha, contents, i, Pow2(D))
      modifies this`merkleRoot, buckets.entries, hashes.entries
      ensures merkleRoot == hash
      ensures buckets.entries[..] == old(buckets.entries[..])[i - 1 := bucket]
      ensures hashes.entries[..] == old(hashes.entries[..])[i - 1 := hash]
      ensures old(Stored(contents, i + 1)) ==> Stored(contents, i)
    {
      hide SubtreeHash, Pow2;
      merkleRoot := hash;
      buckets.UploadObject(i, bucket);
      hashes.UploadObject(i, merkleRoot);
    }

    /** The hashing done by BuildTreeRecursive, for given buckets: the leaf buckets one by one, then every parent from the
        hashes of its children. */
    method Build(contents: seq<Bytes>)
      requires Valid() && |contents| == 2 * Pow2(D) - 1
      modifies this`merkleRoot, buckets.entries, hashes.entries
      ensures buckets.entries[..] == contents && Faithful(sha, Tree(), D)
    {
      hide SubtreeHash, Pow2;
      var N := Pow2(D);
      for i := N to 2 * N
        invariant forall k :: N - 1 <= k < i - 1 ==>
          buckets.entries[k] == contents[k] && hashes.entries[k] == SubtreeHash(sha, contents, k + 1, N)
        invariant i > N ==> merkleRoot == hashes.entries[i - 2]
      {
        LeafHash(sha, contents, i, N);
        StoreBucket(contents, i, contents[i - 1], sha(contents[i - 1]));
      }
      for i := N downto 1
        invariant Stored(contents, i)
        invariant i == 1 ==> merkleRoot == hashes.entries[0]
      {
        var hashLchild := hashes.FetchHash(2 * i);
        var hashRchild := hashes.FetchHash(2 * i + 1);
        InnerHash(sha, contents, i, N);
        StoreBucket(contents, i, contents[i - 1], sha(contents[i - 1] + hashLchild + hashRchild));
      }
      assert buckets.entries[..] == contents;
    }

    /** The hash half of LocalStorage::downloadPath.  The buffer is one entry larger than what is written to it. */
    method DownloadPathHash(leafLabel: nat) returns (pathHash: array<Hash>)
      requires Valid() && Pow2(D) <= leafLabel < 2 * Pow2(D)
      ensures fresh(pathHash) && pathHash.Length == 2 * D + 2
      ensures pathHash[..2 * D + 1] == PathHash(hashes.entries[..], leafLabel, D)
    {
      hide PathHashAt, Pow2;
      var temp := leafLabel;
      pathHash := new Hash[2 * D + 2];
      for i := 0 to D + 1
        invariant temp == ShiftBy(leafLabel, i)
        invariant forall k :: 0 <= k < 2 * i && k <= 2 * D ==> pathHash[k] == PathHashAt(hashes.entries[..], leafLabel, D, k)
      {
        if i != D {
          PairIs(hashes.entries[..], leafLabel, D, i);
          if temp % 2 == 0 {
            pathHash[2 * i] := hashes.entries[temp - 1];
            pathHash[2 * i + 1] := hashes.entries[temp];
          } else {
            pathHash[2 * i] := hashes.entries[temp - 2];
            pathHash[2 * i + 1] := hashes.entries[temp - 1];
          }
        } else {
          RootDownloaded(hashes.entries[..], leafLabel, D);
          pathHash[2 * i] := hashes.entries[temp - 1];
        }
        temp := temp / 2;
      }
    }

    /** ORAMTree::verifyPath: the comparisons it makes. */
    method VerifyPath(path: array<Bytes>, pathHash: array<Hash>, leaf: nat) returns (cmp: array<bool>)
      requires Valid() && path.Length == D + 1 && pathHash.Length == 2 * D + 2
      ensures fresh(cmp) && cmp.Length == D + 1
      ensures forall k :: 0 <= k <= D ==> cmp[k] == Comparison(sha, path[..], pathHash[..], merkleRoot, leaf, D, k)
    {
      cmp := new bool[D + 1];
      var temp := leaf;
      var lchildRetrieved, rchildRetrieved: Hash := [], [];
      for i := D + 1 downto 0
        invariant temp == ShiftBy(leaf, D + 1 - i)
        invariant i <= D && i > 0 ==> lchildRetrieved == pathHash[2 * (D - i)] && rchildRetrieved == pathHash[2 * (D - i) + 1]
        invariant forall k :: 0 <= k < D + 1 - i ==> cmp[k] == Comparison(sha, path[..], pathHash[..], merkleRoot, leaf, D, k)
      {
        if i == D {
          var child := sha(path[0]);
          lchildRetrieved := pathHash[0];
          rchildRetrieved := pathHash[1];
          cmp[0] := if temp % 2 == 0 then child == lchildRetrieved else child == rchildRetrieved;
        } else if i == 0 {
          var parentHashRetrieved := pathHash[2 * D];
          cmp[D] := parentHashRetrieved == merkleRoot;
        } else {
          var k := D - i;
          var parentHash := sha(path[k] + lchildRetrieved + rchildRetrieved);
          lchildRetrieved := pathHash[2 * k];
          rchildRetrieved := pathHash[2 * k + 1];
          cmp[k] := if temp % 2 == 0 then lchildRetrieved == parentHash else rchildRetrieved == parentHash;
        }
        temp := temp / 2;
      }
    }

    /** ORAMTree::CreateNewPathHash. */
    method CreateNewPathHash(path: array<Bytes>, oldPathHash: array<Hash>, leaf: nat) returns (newPathHash: array<Hash>)
      requires Valid() && path.Length == D + 1 && oldPathHash.Length == 2 * D + 2
      modifies this`merkleRoot
      ensures fresh(newPathHash) && newPathHash.Length == D + 1
      ensures newPathHash[..] == NewPathHash(sha, path[..], oldPathHash[..], leaf)
      ensures merkleRoot == if D > 0 then newPathHash[D] else old(merkleRoot)
    {
      hide NewHashAt, Pow2;
      var leafTemp, leafTempPrev := leaf, leaf;
      newPathHash := new Hash[D + 1];
      var oldPos := 0;
      for i := 0 to D + 1
        invariant leafTemp == ShiftBy(leaf, i) && (i > 0 ==> leafTempPrev == ShiftBy(leaf, i - 1))
        invariant oldPos == if i == 0 then 0 else 2 * (i - 1)
        invariant forall k :: 0 <= k < i ==> newPathHash[k] == NewHashAt(sha, path[..], oldPathHash[..], leaf, k)
        invariant merkleRoot == if i == D + 1 && D > 0 then newPathHash[D] else old(merkleRoot)
      {
        NewHashStep(sha, path[..], oldPathHash[..], leaf, i);
        if i == 0 {
          newPathHash[0] := sha(path[0]);
        } else {
          if leafTempPrev % 2 == 0 {
            newPathHash[i] := sha(path[i] + newPathHash[i - 1] + oldPathHash[oldPos + 1]);
          } else {
            newPathHash[i] := sha(path[i] + oldPathHash[oldPos] + newPathHash[i - 1]);
          }
          oldPos := oldPos + 2;
          if i == D {
            merkleRoot := newPathHash[i];
          }
        }
        leafTempPrev := leafTemp;
        leafTemp := leafTemp / 2;
      }
    }

    /** ORAMTree::ReadBucketsFromPath: download a path with its hashes and verify it. */
    method ReadBucketsFromPath(leaf: nat) returns (path: array<Bytes>, pathHash: array<Hash>, cmp: array<bool>)
      requires Valid() && leaf < Pow2(D)
      ensures fresh(path) && path[..] == PathBuckets(buckets.entries[..], leaf + Pow2(D), D + 1)
      ensures fresh(pathHash) && pathHash.Length == 2 * D + 2
      ensures pathHash[..2 * D + 1] == PathHash(hashes.entries[..], leaf + Pow2(D), D)
      ensures fresh(cmp) && cmp.Length == D + 1
      ensures forall k :: 0 <= k <= D ==> cmp[k] == Matches(sha, Tree(), leaf, D, pathHash[2 * D + 1], k)
    {
      hide PathHash, PathHashAt, PathBuckets, Comparison;
      var node := leaf + Pow2(D);
      path := buckets.DownloadPath(node, D);
      pathHash := DownloadPathHash(node);
      assert pathHash[..] == pathHash[..2 * D + 1] + [pathHash[2 * D + 1]];
      cmp := VerifyPath(path, pathHash, node);
    }

    /** One access of the level: read a path, and write new buckets back with their hashes. */
    method AccessPath(leaf: nat, newPath: array<Bytes>) returns (cmp: array<bool>)
      requires Valid() && D >= 1 && leaf < Pow2(D) && newPath.Length == D + 1
      requires newPath != buckets.entries && newPath != hashes.entries
      requires Faithful(sha, Tree(), D)
      modifies this`merkleRoot, buckets.entries, hashes.entries
      ensures cmp.Length == D + 1 && forall k :: 0 <= k <= D ==> cmp[k]
      ensures Tree() == WrittenBack(sha, old(Tree()), leaf, newPath[..], D)
      ensures Faithful(sha, Tree(), D)
    {
      hide Rebuilt, PathHash, PathHashAt, PathBuckets, NewHashAt, NewPathHash, Comparison, Uploaded, Pow2, Matches;
      ghost var t := Tree();
      var path, pathHash;
      path, pathHash, cmp := ReadBucketsFromPath(leaf);
      forall k | 0 <= k <= D
        ensures cmp[k]
      {
        FaithfulVerifies(sha, t, leaf, D, pathHash[2 * D + 1], k);
      }
      WriteBackKeepsFaithful(sha, t, leaf, newPath[..], D);
      var node := leaf + Pow2(D);
      NewHashesSame(sha, newPath[..], pathHash[..], PathHash(t.hashes, node, D), node, D);
      var newPathHash := CreateNewPathHash(newPath, pathHash, node);
      buckets.UploadPath(newPath, node);
      hashes.UploadPath(newPathHash, node);
    }
  }

  /** The spare entry of the buffer is not used. */
  lemma NewHashesSame(sha: Bytes -> Hash, path: seq<Bytes>, a: seq<Hash>, b: seq<Hash>, node: nat, D: nat)
    requires |path| == D + 1 && |a| == 2 * D + 2 && |b| == 2 * D + 1 && a[..2 * D + 1] == b
    ensures NewPathHash(sha, path, a, node) == NewPathHash(sha, path, b, node)
  {
    forall i | 0 <= i <= D
      ensures NewPathHash(sha, path, a, node)[i] == NewPathHash(sha, path, b, node)[i]
    {
      NewHashSame(sha, path, a, b, node, i);
    }
  }

  lemma {:induction false} NewHashSame(sha: Bytes -> Hash, path: seq<Bytes>, a: seq<Hash>, b: seq<Hash>, node: nat,
                                       i: nat)
    requires i < |path| && 2 * i <= |a| && 2 * i <= |b| && a[..2 * i] == b[..2 * i]
    ensures NewHashAt(sha, path, a, node, i) == NewHashAt(sha, path, b, node, i)
  {
    if i > 0 {
      assert a[..2 * i][..2 * i - 2] == a[..2 * i - 2] && b[..2 * i][..2 * i - 2] == b[..2 * i - 2];
      NewHashSame(sha, path, a, b, node, i - 1);
      assert a[2 * i - 1] == a[..2 * i][2 * i - 1] && a[2 * i - 2] == a[..2 * i][2 * i - 2];
      assert b[2 * i - 1] == b[..2 * i][2 * i - 1] && b[2 * i - 2] == b[..2 * i][2 * i - 2];
    }
  }
}
