/** The untrusted storage of one level: an array with one entry for each bucket of a heap-numbered tree.  The same
    addressing is used for the buckets and for their hashes.  A path is a sequence of entries, leaf first. */
module LocalStorage {
  import opened TreePaths

  /** The len entries met on the way up from bucket node. */
  function PathBuckets<T>(tree: seq<T>, node: nat, len: nat): (path: seq<T>)
    requires |tree| >= node && (len == 0 || Pow2(len - 1) <= node)
    ensures |path| == len
    decreases len
  {
    if len == 0 then []
    else [tree[node - 1]] + PathBuckets(tree, node / 2, len - 1)
  }

  /** The tree with the entries from bucket node upwards overwritten. */
  function Uploaded<T>(tree: seq<T>, node: nat, path: seq<T>): (r: seq<T>)
    requires |tree| >= node && (path == [] || Pow2(|path| - 1) <= node)
    ensures |r| == |tree|
    decreases |path|
  {
    if path == [] then tree
    else Uploaded(tree[node - 1 := path[0]], node / 2, path[1..])
  }

  lemma {:induction false} PathBucketsAt<T>(tree: seq<T>, node: nat, len: nat, i: nat)
    requires |tree| >= node && (len == 0 || Pow2(len - 1) <= node)
    requires i < len
    ensures 1 <= ShiftBy(node, i) <= |tree|
    ensures PathBuckets(tree, node, len)[i] == tree[ShiftBy(node, i) - 1]
    decreases len
  {
    if i > 0 {
      PathBucketsAt(tree, node / 2, len - 1, i - 1);
      ShiftByStep(node, i - 1);
    }
  }

  lemma {:induction false} PathBucketsFrame<T>(tree: seq<T>, node: nat, len: nat, n: nat, b: T)
    requires |tree| >= node && (len == 0 || Pow2(len - 1) <= node)
    requires node < n <= |tree|
    ensures PathBuckets(tree[n - 1 := b], node, len) == PathBuckets(tree, node, len)
    decreases len
  {
    if len > 0 {
      PathBucketsFrame(tree, node / 2, len - 1, n, b);
    }
  }

  /** After an upload an entry is the new one when its bucket lies on the path, and the old one elsewhere. */
  lemma {:induction false} UploadedAt<T>(tree: seq<T>, node: nat, path: seq<T>, n: nat)
    requires |tree| >= node && (path == [] || Pow2(|path| - 1) <= node)
    requires 1 <= n <= |tree|
    ensures forall i :: 0 <= i < |path| && ShiftBy(node, i) == n ==> Uploaded(tree, node, path)[n - 1] == path[i]
    ensures (forall i :: 0 <= i < |path| ==> ShiftBy(node, i) != n) ==> Uploaded(tree, node, path)[n - 1] == tree[n - 1]
    decreases |path|
  {
    if path != [] {
      var tree1 := tree[node - 1 := path[0]];
      UploadedAt(tree1, node / 2, path[1..], n);
      assert ShiftBy(node, 0) == node;
      forall i: nat | i < |path| - 1
        ensures ShiftBy(node / 2, i) == ShiftBy(node, i + 1) <= node / 2
      {
        ShiftByStep(node, i);
      }
    }
  }

  /** What is uploaded is what the next download of the same path returns. */
  lemma {:induction false} UploadedThenDownloaded<T>(tree: seq<T>, node: nat, path: seq<T>)
    requires |tree| >= node && (path == [] || Pow2(|path| - 1) <= node)
    ensures PathBuckets(Uploaded(tree, node, path), node, |path|) == path
    decreases |path|
  {
    if path != [] {
      var rest := Uploaded(tree[node - 1 := path[0]], node / 2, path[1..]);
      UploadedThenDownloaded(tree[node - 1 := path[0]], node / 2, path[1..]);
      UploadedKeepsAbove(tree[node - 1 := path[0]], node / 2, path[1..], node);
    }
  }

  lemma {:induction false} UploadedKeepsAbove<T>(tree: seq<T>, node: nat, path: seq<T>, n: nat)
    requires |tree| >= node && (path == [] || Pow2(|path| - 1) <= node) && node < n <= |tree|
    ensures Uploaded(tree, node, path)[n - 1] == tree[n - 1]
    decreases |path|
  {
    if path != [] {
      UploadedKeepsAbove(tree[node - 1 := path[0]], node / 2, path[1..], n);
    }
  }

  class LocalStorage<T(0)> {
    const entries: array<T>

    constructor (size: nat, initial: T)
      ensures fresh(entries) && entries.Length == size
      ensures forall n :: 0 <= n < size ==> entries[n] == initial
    {
      entries := new T[size](_ => initial);
    }

    /** LocalStorage::uploadObject for one bucket. */
    method UploadObject(objectKey: nat, data: T)
      requires 1 <= objectKey <= entries.Length
      modifies entries
      ensures entries[..] == old(entries[..])[objectKey - 1 := data]
    {
      entries[objectKey - 1] := data;
    }

    /** LocalStorage::fetchHash. */
    method FetchHash(objectKey: nat) returns (data: T)
      requires 1 <= objectKey <= entries.Length
      ensures data == entries[objectKey - 1]
    {
      data := entries[objectKey - 1];
    }

    /** LocalStorage::downloadPath, the buckets. */
    method DownloadPath(leafLabel: nat, D: nat) returns (path: array<T>)
      requires Pow2(D) <= leafLabel <= entries.Length
      ensures fresh(path) && path[..] == PathBuckets(entries[..], leafLabel, D + 1)
    {
      var temp := leafLabel;
      path := new T[D + 1];
      for i := 0 to D + 1
        invariant temp == ShiftBy(leafLabel, i)
        invariant forall j :: 0 <= j < i ==> path[j] == PathBuckets(entries[..], leafLabel, D + 1)[j]
      {
        PathBucketsAt(entries[..], leafLabel, D + 1, i);
        path[i] := entries[temp - 1];
        temp := temp / 2;
      }
    }

    /** LocalStorage::uploadPath. */
    method UploadPath(path: array<T>, leafLabel: nat)
      requires path.Length > 0 && Pow2(path.Length - 1) <= leafLabel <= entries.Length
      requires path != entries
      modifies entries
      ensures entries[..] == Uploaded(old(entries[..]), leafLabel, path[..])
    {
      var temp := leafLabel;
      for i := 0 to path.Length
        invariant temp == ShiftBy(leafLabel, i) && temp <= entries.Length
        invariant i < path.Length ==> Pow2(path.Length - 1 - i) <= temp
        invariant path[..] == old(path[..])
        invariant Uploaded(entries[..], temp, path[i..]) == Uploaded(old(entries[..]), leafLabel, path[..])
      {
        ghost var before := entries[..];
        entries[temp - 1] := path[i];
        assert entries[..] == before[temp - 1 := path[i]];
        assert path[i..][1..] == path[i + 1..];
        temp := temp / 2;
      }
    }
  }
}
