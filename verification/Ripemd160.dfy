/** Streaming RIPEMD-160: the buffering of CRIPEMD160 and the padding of ISO/IEC 10118-3:2004, clause 7.  The compression
    function is a parameter. */
module Ripemd160 {

  import opened ByteStrings

  type Word = w: nat | w < 0x1_0000_0000
  const UINT64: nat := 0x1_0000_0000_0000_0000

  datatype Chain = Chain(h0: Word, h1: Word, h2: Word, h3: Word, h4: Word)

  const INITIAL: Chain := Chain(0x67452301, 0xEFCDAB89, 0x98BADCFE, 0x10325476, 0xC3D2E1F0)

  type Compression = (Chain, seq<Byte>) -> Chain

  // ----- What is to be computed -----

  /** The chaining value after the first k blocks of 64 bytes. */
  function Absorbed(transform: Compression, data: seq<Byte>, k: nat): Chain
    requires 64 * k <= |data|
  {
    if k == 0 then INITIAL else transform(Absorbed(transform, data, k - 1), data[64 * (k - 1)..64 * k])
  }

  /** The number of bytes appended before the length field. */
  function PadLength(n: nat): nat {
    1 + (119 - n % 64) % 64
  }

  function Padding(n: nat): (r: seq<Byte>)
    ensures |r| == PadLength(n)
  {
    [0x80] + seq(PadLength(n) - 1, _ => 0)
  }

  /** The message, one bit, zeros, and the length of the message in bits modulo 2^64. */
  function Padded(message: seq<Byte>): seq<Byte> {
    message + Padding(|message|) + LittleEndian(|message| * 8 % UINT64, 8)
  }

  function Digest(transform: Compression, message: seq<Byte>): seq<Byte> {
    var padded := Padded(message);
    PaddedBlocks(|message|);
    Output(Absorbed(transform, padded, |padded| / 64))
  }

  function Output(s: Chain): seq<Byte> {
    LittleEndian(s.h0, 4) + LittleEndian(s.h1, 4) + LittleEndian(s.h2, 4) + LittleEndian(s.h3, 4) + LittleEndian(s.h4, 4)
  }

  // ----- Properties of the padding -----

  /** With p bytes of padding and the length field the message fills its last block. */
  predicate Fills(n: nat, p: nat) {
    (n + p + 8) % 64 == 0
  }

  /** The padded length is a multiple of 64, and no shorter padding would make it one. */
  lemma PaddedBlocks(n: nat)
    ensures Fills(n, PadLength(n))
    ensures forall p :: 1 <= p < PadLength(n) ==> !Fills(n, p)
  {
    var r := n % 64;
    forall p | 1 <= p < PadLength(n)
      ensures !Fills(n, p)
    {
      assert (n + p + 8) % 64 == (r + p + 8) % 64;
    }
    assert (n + PadLength(n) + 8) % 64 == (r + PadLength(n) + 8) % 64;
  }

  /** Byte by byte: the message, 0x80, zeros, and the number of bits, least significant byte first. */
  lemma PaddedAt(message: seq<Byte>, k: nat)
    requires k < |message| + PadLength(|message|) + 8
    ensures |Padded(message)| == |message| + PadLength(|message|) + 8
    ensures k < |Padded(message)| - 8 ==>
      Padded(message)[k] == if k < |message| then message[k] else if k == |message| then 0x80 else 0
    ensures k >= |Padded(message)| - 8 ==>
      Padded(message)[k] == Shifted(8 * |message| % 0x1_0000_0000_0000_0000, k - (|Padded(message)| - 8)) % 256
  {
    hide LittleEndian, PadLength;
    if k >= |message| + PadLength(|message|) {
      LittleEndianAt(8 * |message| % UINT64, 8, k - (|message| + PadLength(|message|)));
    }
  }

  lemma WordBytes(n: nat, a: Byte, b: Byte, c: Byte, d: Byte)
    requires n == a + 256 * (b + 256 * (c + 256 * d))
    ensures LittleEndian(n, 4) == [a, b, c, d]
  {
    hide LittleEndian;
    LittleEndianStep(n, 3);
    LowByte(a, b + 256 * (c + 256 * d));
    LittleEndianStep(b + 256 * (c + 256 * d), 2);
    LowByte(b, c + 256 * d);
    LittleEndianStep(c + 256 * d, 1);
    LowByte(c, d);
    LittleEndianStep(d, 0);
  }

  /** The initial words, as bytes: the digits counted up and down, and the pairs F0 to C3. */
  lemma InitialBytes()
    ensures Output(INITIAL) == [0x01, 0x23, 0x45, 0x67, 0x89, 0xAB, 0xCD, 0xEF, 0xFE, 0xDC, 0xBA, 0x98, 0x76, 0x54, 0x32, 0x10,
                                0xF0, 0xE1, 0xD2, 0xC3]
  {
    hide LittleEndian;
    WordBytes(0x67452301, 0x01, 0x23, 0x45, 0x67);
    WordBytes(0xEFCDAB89, 0x89, 0xAB, 0xCD, 0xEF);
    WordBytes(0x98BADCFE, 0xFE, 0xDC, 0xBA, 0x98);
    WordBytes(0x10325476, 0x76, 0x54, 0x32, 0x10);
    WordBytes(0xC3D2E1F0, 0xF0, 0xE1, 0xD2, 0xC3);
  }

  function WordOf(s: Chain, i: nat): Word
    requires i < 5
  {
    if i == 0 then s.h0 else if i == 1 then s.h1 else if i == 2 then s.h2 else if i == 3 then s.h3 else s.h4
  }

  /** Word i of the chain is at bytes 4i to 4i + 3, least significant byte first. */
  lemma OutputAt(s: Chain, i: nat, j: nat)
    requires i < 5 && j < 4
    ensures |Output(s)| == 20 && Output(s)[4 * i + j] == Shifted(WordOf(s, i), j) % 256
  {
    hide LittleEndian;
    LittleEndianAt(WordOf(s, i), 4, j);
  }

  /** The blocks of the padded message are compressed in order, starting from the initial words. */
  lemma DigestBlocks(transform: Compression, message: seq<Byte>, k: nat)
    requires 64 * (k + 1) <= |Padded(message)|
    ensures Absorbed(transform, Padded(message), 0) == INITIAL
    ensures Absorbed(transform, Padded(message), k + 1) ==
            transform(Absorbed(transform, Padded(message), k), Padded(message)[64 * k..64 * k + 64])
    ensures |Padded(message)| == 64 * (k + 1) ==>
      Digest(transform, message) == Output(Absorbed(transform, Padded(message), k + 1))
  {
  }

  /** Different messages stay different when padded, although the length field wraps around: messages of the same padded
      length differ in length by less than a block. */
  lemma {:induction false} PaddingInjective(a: seq<Byte>, b: seq<Byte>)
    requires Padded(a) == Padded(b)
    ensures a == b
  {
    hide LittleEndian, Padding;
    LastBytes(a);
    LastBytes(b);
    Pow256Values();
    LittleEndianInjective(|a| * 8 % UINT64, |b| * 8 % UINT64, 8);
    LengthsAgree(|a|, |b|);
    assert a == Padded(a)[..|a|] && b == Padded(b)[..|b|];
  }

  lemma LengthsAgree(m: nat, n: nat)
    requires m + PadLength(m) == n + PadLength(n) && m * 8 % UINT64 == n * 8 % UINT64
    ensures m == n
  {
    assert m * 8 == m * 8 / UINT64 * UINT64 + m * 8 % UINT64;
    assert n * 8 == n * 8 / UINT64 * UINT64 + n * 8 % UINT64;
  }

  lemma LastBytes(a: seq<Byte>)
    ensures |Padded(a)| == |a| + PadLength(|a|) + 8
    ensures Padded(a)[|Padded(a)| - 8..] == LittleEndian(|a| * 8 % UINT64, 8)
  {
    hide LittleEndian, Padding;
  }

  // ----- Streaming -----

  /** Blocks already absorbed do not depend on what is appended. */
  lemma {:induction false} AbsorbedPrefix(transform: Compression, data: seq<Byte>, more: seq<Byte>, k: nat)
    requires 64 * k <= |data|
    ensures Absorbed(transform, data + more, k) == Absorbed(transform, data, k)
  {
    if k > 0 {
      AbsorbedPrefix(transform, data, more, k - 1);
      assert (data + more)[64 * (k - 1)..64 * k] == data[64 * (k - 1)..64 * k];
    }
  }

  class CRIPEMD160 {
    const transform: Compression
    const buf: array<Byte>
    var s: Chain
    var bytes: nat
    /** What has been written so far. */
    ghost var message: seq<Byte>

    /** The first n bytes of `whole` have been taken in: full blocks absorbed, the rest buffered. */
    ghost predicate Taken(whole: seq<Byte>, n: nat)
      reads `s, `bytes, buf
    {
      && n <= |whole| && buf.Length == 64
      && bytes == n % UINT64
      && s == Absorbed(transform, whole, n / 64)
      && buf[..n % 64] == whole[n - n % 64..n]
    }

    ghost predicate Valid()
      reads this, buf
    {
      Taken(message, |message|)
    }

    constructor (transform: Compression)
      ensures Valid() && fresh(buf) && message == [] && this.transform == transform
    {
      this.transform := transform;
      buf := new Byte[64];
      s := INITIAL;
      bytes := 0;
      message := [];
    }

    /** memcpy of the next len bytes behind the bytes buffered. */
    method FillBuffer(ghost whole: seq<Byte>, ghost n: nat, data: seq<Byte>, pos: nat, bufsize: nat, len: nat)
      requires Taken(whole, n) && bufsize == n % 64 && bufsize + len <= 64
      requires pos + len <= |data| && n + len <= |whole| && data[pos..pos + len] == whole[n..n + len]
      modifies this`bytes, buf
      ensures bytes == (n + len) % UINT64
      ensures buf[..bufsize + len] == whole[n - bufsize..n + len]
    {
      for i := 0 to len
        invariant bytes == old(bytes) && buf[..bufsize + i] == whole[n - bufsize..n + i]
      {
        assert data[pos + i] == data[pos..pos + len][i] == whole[n..n + len][i] == whole[n + i];
        buf[bufsize + i] := data[pos + i];
        assert buf[..bufsize + (i + 1)] == whole[n - bufsize..n + i] + [whole[n + i]];
      }
      Wraps(n, len);
      bytes := (bytes + len) % UINT64;
    }

    /** Complete the block in the buffer and process it. */
    method FlushBuffer(ghost whole: seq<Byte>, ghost n: nat, data: seq<Byte>, bufsize: nat)
      requires Taken(whole, n) && bufsize == n % 64 && 0 < bufsize && 64 <= bufsize + |data|
      requires whole[n..] == data
      modifies this`bytes, this`s, buf
      ensures Taken(whole, n + 64 - bufsize) && (n + 64 - bufsize) % 64 == 0
    {
      hide Absorbed;
      ghost var k := n / 64;
      NextBlock(n, k);
      assert data[0..64 - bufsize] == whole[n..n + (64 - bufsize)];
      FillBuffer(whole, n, data, 0, bufsize, 64 - bufsize);
      assert buf[..] == buf[..64];
      BlockStep(transform, whole, k);
      s := transform(s, buf[..]);
    }

    /** Process a full chunk directly from the source. */
    method TakeChunk(ghost whole: seq<Byte>, ghost n: nat, chunk: seq<Byte>)
      requires Taken(whole, n) && n % 64 == 0 && n + 64 <= |whole| && chunk == whole[n..n + 64]
      modifies this`bytes, this`s
      ensures Taken(whole, n + 64)
    {
      hide Absorbed;
      BlockStep(transform, whole, n / 64);
      Wraps(n, 64);
      s := transform(s, chunk);
      bytes := (bytes + 64) % UINT64;
    }

    /** CRIPEMD160::Write. */
    method Write(data: seq<Byte>)
      requires Valid()
      modifies this, buf
      ensures Valid() && message == old(message) + data
    {
      hide Taken;
      ghost var n0 := |message|;
      ghost var whole := message + data;
      TakenPrefix(message, data);
      message := whole;
      var pos := 0;
      var bufsize := bytes % 64;
      if bufsize != 0 && bufsize + |data| >= 64 {
        assert whole[n0..] == data;
        FlushBuffer(whole, n0, data, bufsize);
        pos := 64 - bufsize;
        bufsize := 0;
      }
      pos := TakeChunks(whole, old(message), data, pos, bufsize);
      if |data| > pos {
        SliceBehind(old(message), data, pos, |data|);
        FillRest(whole, n0 + pos, data, pos, bufsize);
      }
    }

    /** The loop over full chunks; it is not entered while bytes are buffered. */
    method TakeChunks(ghost whole: seq<Byte>, ghost before: seq<Byte>, data: seq<Byte>, pos0: nat,
                      bufsize: nat) returns (pos: nat)
      requires pos0 <= |data| && whole == before + data
      requires Taken(whole, |before| + pos0) && bufsize == (|before| + pos0) % 64 && (bufsize != 0 ==> |data| < pos0 + 64)
      modifies this`bytes, this`s
      ensures pos <= |data| < pos + 64 && (bufsize != 0 ==> pos == pos0)
      ensures Taken(whole, |before| + pos) && bufsize == (|before| + pos) % 64
    {
      hide Taken;
      pos := pos0;
      while |data| >= pos + 64
        invariant pos <= |data| && (bufsize != 0 ==> pos == pos0)
        invariant Taken(whole, |before| + pos) && bufsize == (|before| + pos) % 64
      {
        SliceBehind(before, data, pos, pos + 64);
        TakeChunk(whole, |before| + pos, data[pos..pos + 64]);
        pos := pos + 64;
      }
    }

    /** Fill the buffer with what remains. */
    method FillRest(ghost whole: seq<Byte>, ghost n: nat, data: seq<Byte>, pos: nat, bufsize: nat)
      requires Taken(whole, n) && bufsize == n % 64 && pos < |data|
      requires data[pos..|data|] == whole[n..|whole|] && bufsize + (|data| - pos) < 64
      modifies this`bytes, buf
      ensures Taken(whole, |whole|)
    {
      hide Absorbed;
      ghost var m := |data| - pos;
      assert n + m == |whole| by { assert |data[pos..|data|]| == m; }
      FillBuffer(whole, n, data, pos, bufsize, |data| - pos);
      SameBlock(n, m);
    }

    lemma TakenPrefix(before: seq<Byte>, data: seq<Byte>)
      requires Taken(before, |before|)
      ensures Taken(before + data, |before|) && bytes % 64 == |before| % 64
    {
      hide Absorbed;
      AbsorbedPrefix(transform, before, data, |before| / 64);
      WrapsAligned(|before|);
    }

    /** CRIPEMD160::Finalize. */
    method Finalize() returns (hash: seq<Byte>)
      requires Valid()
      modifies this, buf
      ensures hash == Digest(transform, old(message))
      ensures Valid() && message == Padded(old(message))
    {
      hide Absorbed;
      ghost var n := |message|;
      PaddedBlocks(n);
      var sizedesc := LittleEndian(bytes * 8 % UINT64, 8);
      BitLength(n);
      SamePadding(n);
      Write(Padding(bytes));
      Write(sizedesc);
      hash := Output(s);
    }

    /** CRIPEMD160::Reset. */
    method Reset()
      requires Valid()
      modifies this
      ensures Valid() && message == []
    {
      bytes := 0;
      s := INITIAL;
      message := [];
    }
  }

  /** 64 divides 2^64, so the wrapped byte count still tells how much is buffered. */
  lemma Wraps(n: nat, k: nat)
    ensures (n % UINT64 + k) % UINT64 == (n + k) % UINT64
  {
  }

  lemma WrapsAligned(n: nat)
    ensures n % UINT64 % 64 == n % 64
  {
  }

  lemma NextBlock(n: nat, k: nat)
    requires k == n / 64
    ensures n - n % 64 == 64 * k
    ensures n + (64 - n % 64) == 64 * (k + 1) && (n + 64 - n % 64) / 64 == k + 1 && (n + 64 - n % 64) % 64 == 0
  {
  }

  lemma SameBlock(n: nat, m: nat)
    requires n % 64 + m < 64
    ensures (n + m) / 64 == n / 64 && (n + m) % 64 == n % 64 + m
  {
  }

  lemma SliceBehind(a: seq<Byte>, data: seq<Byte>, pos: nat, end: nat)
    requires pos <= end <= |data|
    ensures data[pos..end] == (a + data)[|a| + pos..|a| + end]
  {
  }

  lemma BitLength(n: nat)
    ensures n % UINT64 * 8 % UINT64 == n * 8 % UINT64
  {
    MultipleDropped(n % UINT64 * 8, n / UINT64 * 8);
  }

  lemma MultipleDropped(a: nat, k: nat)
    ensures (a + k * UINT64) % UINT64 == a % UINT64
  {
  }

  lemma SamePadding(n: nat)
    ensures PadLength(n % UINT64) == PadLength(n) && Padding(n % UINT64) == Padding(n)
  {
    WrapsAligned(n);
  }

  lemma BlockStep(transform: Compression, data: seq<Byte>, k: nat)
    requires 64 * (k + 1) <= |data|
    ensures Absorbed(transform, data, k + 1) == transform(Absorbed(transform, data, k), data[64 * k..64 * k + 64])
  {
  }

  function Joined(parts: seq<seq<Byte>>): seq<Byte> {
    if parts == [] then [] else parts[0] + Joined(parts[1..])
  }

  /** However a message is split into writes, the digest is the same. */
  method HashParts(transform: Compression, parts: seq<seq<Byte>>) returns (hash: seq<Byte>)
    ensures hash == Digest(transform, Joined(parts))
  {
    var hasher := new CRIPEMD160(transform);
    for i := 0 to |parts|
      invariant hasher.Valid() && fresh(hasher) && fresh(hasher.buf) && hasher.transform == transform
      invariant hasher.message + Joined(parts[i..]) == Joined(parts)
    {
      assert parts[i..][1..] == parts[i + 1..];
      hasher.Write(parts[i]);
    }
    assert hasher.message == Joined(parts);
    hash := hasher.Finalize();
  }
}
