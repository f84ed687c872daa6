/** Bitcoin transactions: serialization and deserialization.  Hexadecimal strings are modelled as the byte strings they
    denote; None stands for an exception. */
module Transaction {
  import opened ByteStrings
  import opened Options

  type Bytes = seq<Byte>

  // ----- Numbers -----

  /** int2bytes: big-endian in b bytes, or an exception. */
  function Int2Bytes(a: nat, b: nat): (r: Option<Bytes>)
    ensures r.Some? <==> a < Pow256(b)
  {
    if a < Pow256(b) then Some(BigEndian(a, b)) else None
  }

  /** encode_varint: the prefixes 0xfe and 0xff are chosen by comparison with 2^64 and 2^128, but four and eight bytes follow. */
  function EncodeVarint(value: nat): Option<Bytes> {
    if value < Pow256(1) - 3 then Int2Bytes(value, 1)
    else if value < Pow256(2) then Prefixed(253, Int2Bytes(value, 2))
    else if value < Pow256(8) then Prefixed(254, Int2Bytes(value, 4))
    else if value < Pow256(16) then Prefixed(255, Int2Bytes(value, 8))
    else None
  }

  function Prefixed(prefix: Byte, number: Option<Bytes>): Option<Bytes> {
    var bytes :- number;
    Some([prefix] + Reversed(bytes))
  }

  /** decode_varint. */
  function DecodeVarint(varint: Bytes): Option<nat> {
    if varint == [] then None
    else if |varint| > 1 then Some(FromBigEndian(Reversed(varint[1..])))
    else Some(FromBigEndian(varint))
  }

  /** The values encode_varint can represent, and how they begin. */
  lemma EncodeVarintIs(value: nat)
    ensures EncodeVarint(value).Some? <==> value < 0x1_0000_0000
    ensures value < 253 ==> EncodeVarint(value) == Some([value])
    ensures 253 <= value < 0x1_0000 ==> EncodeVarint(value) == Some([253] + LittleEndian(value, 2))
    ensures 0x1_0000 <= value < 0x1_0000_0000 ==> EncodeVarint(value) == Some([254] + LittleEndian(value, 4))
  {
    hide Pow256, LittleEndian, Reversed;
    Pow256Values();
    ReversedTwice(LittleEndian(value, 2));
    ReversedTwice(LittleEndian(value, 4));
    if value < 253 {
      OneByte(value);
    }
  }

  lemma OneByte(n: nat)
    requires n < 256
    ensures BigEndian(n, 1) == [n] && FromBigEndian([n]) == n
  {
    assert LittleEndian(n, 1) == [n];
    assert Reversed([n]) == [n];
    assert FromLittleEndian([n]) == n;
  }

  /** Decoding inverts encoding wherever encoding succeeds. */
  lemma VarintRoundTrip(value: nat)
    requires value < 0x1_0000_0000
    ensures EncodeVarint(value).Some? && DecodeVarint(EncodeVarint(value).value) == Some(value)
  {
    EncodeVarintIs(value);
    Pow256Values();
    if value < 253 {
      OneByte(value);
    } else {
      var k := if value < 0x1_0000 then 2 else 4;
      FromLittleEndianIs(value, k);
      ReversedTwice(LittleEndian(value, k));
      assert EncodeVarint(value).value[1..] == LittleEndian(value, k);
    }
  }

  // ----- Parsing -----

  /** parse_element, within the data that is left. */
  function Element(s: Bytes, size: nat): (r: Option<(Bytes, Bytes)>)
    ensures r.Some? ==> s == r.value.0 + r.value.1 && |r.value.0| == size
  {
    if size <= |s| then Some((s[..size], s[size..])) else None
  }

  function StorageLength(first: Byte): nat {
    if first <= 252 then 1 else if first == 253 then 3 else if first == 254 then 5 else 9
  }

  /** parse_varint followed by int(.., 16): the whole varint, prefix included, read as a big-endian number. */
  function Varint(s: Bytes): (r: Option<(nat, Bytes)>)
    ensures r.Some? ==> |r.value.1| < |s|
  {
    if s == [] then None
    else
      var raw :- Element(s, StorageLength(s[0]));
      Some((FromBigEndian(raw.0), raw.1))
  }

  lemma ElementOf(a: Bytes, rest: Bytes)
    ensures Element(a + rest, |a|) == Some((a, rest))
  {
  }

  lemma VarintOf(value: nat, rest: Bytes)
    requires value < 253
    ensures Varint([value] + rest) == Some((value, rest))
  {
    OneByte(value);
    ElementOf([value], rest);
  }

  lemma {:induction false} FromLittleEndianTop(s: Bytes)
    requires s != []
    ensures FromLittleEndian(s) >= s[|s| - 1] * Pow256(|s| - 1)
  {
    if |s| > 1 {
      FromLittleEndianTop(s[1..]);
      var top, p := s[|s| - 1], Pow256(|s| - 2);
      assert 256 * (top * p) == top * (256 * p);
    } else {
      assert Pow256(0) == 1 && FromLittleEndian(s[1..]) == 0;
    }
  }

  /** A varint of one byte is read as itself; the others are read as numbers that encode_varint starts differently. */
  lemma VarintRead(s: Bytes)
    requires Varint(s).Some?
    ensures s[0] < 253 ==> Varint(s) == Some((s[0] as nat, s[1..]))
    ensures s[0] == 253 ==> 0x1_0000 <= Varint(s).value.0
    ensures s[0] > 253 ==> 0x1_0000_0000 <= Varint(s).value.0
  {
    var raw := Element(s, StorageLength(s[0])).value.0;
    if s[0] < 253 {
      OneByte(s[0]);
      assert raw == [s[0]];
    } else {
      FromLittleEndianTop(Reversed(raw));
      assert Reversed(raw)[|raw| - 1] == s[0];
      Pow256Values();
      if s[0] == 253 {
        assert Pow256(2) * 253 >= 0x1_0000;
      } else {
        Pow256Grows(4, |raw| - 1);
        assert s[0] * Pow256(|raw| - 1) >= Pow256(|raw| - 1);
      }
    }
  }

  lemma {:induction false} Pow256Grows(a: nat, b: nat)
    requires a <= b
    ensures Pow256(a) <= Pow256(b)
    decreases b
  {
    if a < b {
      Pow256Grows(a, b - 1);
    }
  }

  /** A parsed varint is re-encoded to the bytes it was parsed from exactly when it is a single byte. */
  lemma VarintReencoded(s: Bytes, tail: Bytes)
    requires Varint(s).Some? && EncodeVarint(Varint(s).value.0).Some?
    requires EncodeVarint(Varint(s).value.0).value + tail == s
    ensures Varint(s).value.0 < 253
  {
    var value := Varint(s).value.0;
    VarintRead(s);
    EncodeVarintIs(value);
    assert s[0] == EncodeVarint(value).value[0];
  }

  // ----- Transactions -----

  datatype TxIn = TxIn(prevTxId: Bytes, prevOutIndex: nat, scriptSig: Bytes, nSequence: nat) {
    predicate Valid() {
      |prevTxId| == 32 && prevOutIndex < Pow256(4) && nSequence < Pow256(4)
    }
  }

  datatype TxOut = TxOut(value: nat, scriptPubKey: Bytes) {
    predicate Valid() {
      value < Pow256(8)
    }
  }

  datatype Tx = Tx(version: nat, ins: seq<TxIn>, outs: seq<TxOut>, nLockTime: nat) {
    ghost predicate Valid() {
      && version < Pow256(4) && nLockTime < Pow256(4)
      && (forall i :: 0 <= i < |ins| ==> ins[i].Valid())
      && (forall i :: 0 <= i < |outs| ==> outs[i].Valid())
    }

    /** All counts and script lengths are below 253. */
    ghost predicate Small() {
      |ins| < 253 && |outs| < 253 && SmallIns(ins) && SmallOuts(outs)
    }
  }

  ghost predicate SmallIns(ins: seq<TxIn>) {
    forall i :: 0 <= i < |ins| ==> |ins[i].scriptSig| < 253
  }

  ghost predicate SmallOuts(outs: seq<TxOut>) {
    forall i :: 0 <= i < |outs| ==> |outs[i].scriptPubKey| < 253
  }

  function SerializedIn(i: TxIn): Option<Bytes> {
    var index :- Int2Bytes(i.prevOutIndex, 4);
    var length :- EncodeVarint(|i.scriptSig|);
    var nSequence :- Int2Bytes(i.nSequence, 4);
    Some(Reversed(i.prevTxId) + (Reversed(index) + (length + (i.scriptSig + nSequence))))
  }

  function SerializedOut(o: TxOut): Option<Bytes> {
    var value :- Int2Bytes(o.value, 8);
    var length :- EncodeVarint(|o.scriptPubKey|);
    Some(Reversed(value) + (length + o.scriptPubKey))
  }

  function SerializedIns(ins: seq<TxIn>): Option<Bytes> {
    if ins == [] then Some([])
    else
      var first :- SerializedIn(ins[0]);
      var others :- SerializedIns(ins[1..]);
      Some(first + others)
  }

  function SerializedOuts(outs: seq<TxOut>): Option<Bytes> {
    if outs == [] then Some([])
    else
      var first :- SerializedOut(outs[0]);
      var others :- SerializedOuts(outs[1..]);
      Some(first + others)
  }

  /** TX.serialize. */
  function Serialized(t: Tx): Option<Bytes> {
    var version :- Int2Bytes(t.version, 4);
    var inputs :- EncodeVarint(|t.ins|);
    var ins :- SerializedIns(t.ins);
    var outputs :- EncodeVarint(|t.outs|);
    var outs :- SerializedOuts(t.outs);
    var nLockTime :- Int2Bytes(t.nLockTime, 4);
    Some(Reversed(version) + (inputs + (ins + (outputs + (outs + nLockTime)))))
  }

  function ParsedIn(s: Bytes): (r: Option<(TxIn, Bytes)>)
    ensures r.Some? ==> |r.value.1| < |s|
  {
    var id :- Element(s, 32);
    var index :- Element(id.1, 4);
    var length :- Varint(index.1);
    var script :- Element(length.1, length.0);
    var nSequence :- Element(script.1, 4);
    Some((TxIn(Reversed(id.0), FromBigEndian(Reversed(index.0)), script.0, FromBigEndian(nSequence.0)), nSequence.1))
  }

  function ParsedOut(s: Bytes): (r: Option<(TxOut, Bytes)>)
    ensures r.Some? ==> |r.value.1| < |s|
  {
    var value :- Element(s, 8);
    var length :- Varint(value.1);
    var script :- Element(length.1, length.0);
    Some((TxOut(FromBigEndian(Reversed(value.0)), script.0), script.1))
  }

  function ParsedIns(n: nat, s: Bytes): (r: Option<(seq<TxIn>, Bytes)>)
    ensures r.Some? ==> |r.value.0| == n
  {
    if n == 0 then Some(([], s))
    else
      var first :- ParsedIn(s);
      var others :- ParsedIns(n - 1, first.1);
      Some(([first.0] + others.0, others.1))
  }

  function ParsedOuts(n: nat, s: Bytes): (r: Option<(seq<TxOut>, Bytes)>)
    ensures r.Some? ==> |r.value.0| == n
  {
    if n == 0 then Some(([], s))
    else
      var first :- ParsedOut(s);
      var others :- ParsedOuts(n - 1, first.1);
      Some(([first.0] + others.0, others.1))
  }

  /** TX.deserialize: the whole string must be used. */
  function Parsed(s: Bytes): Option<Tx> {
    var version :- Element(s, 4);
    var inputs :- Varint(version.1);
    var ins :- ParsedIns(inputs.0, inputs.1);
    var outputs :- Varint(ins.1);
    var outs :- ParsedOuts(outputs.0, outputs.1);
    var nLockTime :- Element(outs.1, 4);
    if nLockTime.1 != [] then None
    else Some(Tx(FromBigEndian(Reversed(version.0)), ins.0, outs.0, FromBigEndian(nLockTime.0)))
  }

  // ----- Where the fields are -----

  /** A varint takes 1, 3, 5 or 9 bytes, by its first one, and all of them are read as one big-endian number. */
  lemma VarintAt(s: Bytes, size: nat)
    requires s != [] && size == if s[0] < 253 then 1 else if s[0] == 253 then 3 else if s[0] == 254 then 5 else 9
    ensures Varint(s) == if size <= |s| then Some((FromBigEndian(s[..size]), s[size..])) else None
  {
  }

  lemma InPieces(i: TxIn)
    requires SerializedIn(i).Some?
    ensures EncodeVarint(|i.scriptSig|).Some?
    ensures SerializedIn(i).value ==
            Reversed(i.prevTxId) + (LittleEndian(i.prevOutIndex, 4) +
                                    (EncodeVarint(|i.scriptSig|).value + (i.scriptSig + BigEndian(i.nSequence, 4))))
  {
    hide LittleEndian, EncodeVarint, Pow256;
    ReversedTwice(LittleEndian(i.prevOutIndex, 4));
  }

  /** An input, byte by byte: the id of the transaction from its last byte on, the index with its least significant byte
      first, the length and the bytes of the script, and the sequence number with its most significant byte first. */
  lemma SerializedInAt(i: TxIn, k: nat)
    requires SerializedIn(i).Some? && |i.prevTxId| == 32
    ensures EncodeVarint(|i.scriptSig|).Some?
    ensures var s, length, n := SerializedIn(i).value, EncodeVarint(|i.scriptSig|).value, |i.scriptSig|;
      && |s| == 32 + 4 + |length| + n + 4
      && (k < 32 ==> s[k] == i.prevTxId[31 - k])
      && (k < 4 ==> s[32 + k] == Shifted(i.prevOutIndex, k) % 256)
      && s[36..36 + |length|] == length && s[36 + |length|..36 + |length| + n] == i.scriptSig
      && (k < 4 ==> s[36 + |length| + n + k] == Shifted(i.nSequence, 3 - k) % 256)
  {
    hide LittleEndian, EncodeVarint, SerializedIn, Shifted;
    InPieces(i);
    if k < 4 {
      LittleEndianAt(i.prevOutIndex, 4, k);
      BigEndianAt(i.nSequence, 4, k);
    }
  }

  lemma OutPieces(o: TxOut)
    requires SerializedOut(o).Some?
    ensures EncodeVarint(|o.scriptPubKey|).Some?
    ensures SerializedOut(o).value == LittleEndian(o.value, 8) + (EncodeVarint(|o.scriptPubKey|).value + o.scriptPubKey)
  {
    hide LittleEndian, EncodeVarint, Pow256;
    ReversedTwice(LittleEndian(o.value, 8));
  }

  /** An output: the value with its least significant byte first, the length and the bytes of the script. */
  lemma SerializedOutAt(o: TxOut, k: nat)
    requires SerializedOut(o).Some?
    ensures EncodeVarint(|o.scriptPubKey|).Some?
    ensures var s, length := SerializedOut(o).value, EncodeVarint(|o.scriptPubKey|).value;
      && |s| == 8 + |length| + |o.scriptPubKey|
      && (k < 8 ==> s[k] == Shifted(o.value, k) % 256)
      && s[8..8 + |length|] == length && s[8 + |length|..] == o.scriptPubKey
  {
    hide LittleEndian, EncodeVarint, SerializedOut, Shifted;
    OutPieces(o);
    if k < 8 {
      LittleEndianAt(o.value, 8, k);
    }
  }

  /** Inputs, and outputs, follow each other in order. */
  lemma {:induction false} InsInOrder(a: seq<TxIn>, b: seq<TxIn>)
    requires SerializedIns(a).Some? && SerializedIns(b).Some?
    ensures SerializedIns(a + b) == Some(SerializedIns(a).value + SerializedIns(b).value)
  {
    hide SerializedIn;
    if a == [] {
      assert a + b == b && [] + SerializedIns(b).value == SerializedIns(b).value;
    } else {
      InsInOrder(a[1..], b);
      assert (a + b)[1..] == a[1..] + b && (a + b)[0] == a[0];
      var first, others, rest := SerializedIn(a[0]).value, SerializedIns(a[1..]).value, SerializedIns(b).value;
      assert first + (others + rest) == (first + others) + rest;
    }
  }

  lemma {:induction false} OutsInOrder(a: seq<TxOut>, b: seq<TxOut>)
    requires SerializedOuts(a).Some? && SerializedOuts(b).Some?
    ensures SerializedOuts(a + b) == Some(SerializedOuts(a).value + SerializedOuts(b).value)
  {
    hide SerializedOut;
    if a == [] {
      assert a + b == b && [] + SerializedOuts(b).value == SerializedOuts(b).value;
    } else {
      OutsInOrder(a[1..], b);
      assert (a + b)[1..] == a[1..] + b && (a + b)[0] == a[0];
      var first, others, rest := SerializedOut(a[0]).value, SerializedOuts(a[1..]).value, SerializedOuts(b).value;
      assert first + (others + rest) == (first + others) + rest;
    }
  }

  lemma OneEach(i: TxIn, o: TxOut)
    ensures SerializedIns([i]) == SerializedIn(i) && SerializedOuts([o]) == SerializedOut(o)
  {
    hide SerializedIn, SerializedOut;
    assert [i][1..] == [] && [o][1..] == [];
    if SerializedIn(i).Some? {
      assert SerializedIn(i).value + [] == SerializedIn(i).value;
    }
    if SerializedOut(o).Some? {
      assert SerializedOut(o).value + [] == SerializedOut(o).value;
    }
  }

  lemma Pieces(t: Tx)
    requires Serialized(t).Some?
    ensures EncodeVarint(|t.ins|).Some? && SerializedIns(t.ins).Some?
    ensures EncodeVarint(|t.outs|).Some? && SerializedOuts(t.outs).Some?
    ensures Serialized(t).value ==
            LittleEndian(t.version, 4)
            + (EncodeVarint(|t.ins|).value + (SerializedIns(t.ins).value
                                              + (EncodeVarint(|t.outs|).value + (SerializedOuts(t.outs).value + BigEndian(t.nLockTime, 4)))))
  {
    hide LittleEndian, EncodeVarint, Pow256, SerializedIns, SerializedOuts;
    ReversedTwice(LittleEndian(t.version, 4));
  }

  /** A transaction: version with its least significant byte first, the number of inputs and the inputs, the number of outputs
      and the outputs, and the lock time with its most significant byte first. */
  lemma SerializedAt(t: Tx, k: nat)
    requires Serialized(t).Some?
    ensures EncodeVarint(|t.ins|).Some? && SerializedIns(t.ins).Some?
    ensures EncodeVarint(|t.outs|).Some? && SerializedOuts(t.outs).Some?
    ensures var s, inputs, ins := Serialized(t).value, EncodeVarint(|t.ins|).value, SerializedIns(t.ins).value;
      var outputs, outs := EncodeVarint(|t.outs|).value, SerializedOuts(t.outs).value;
      var start, middle := 4 + |inputs|, 4 + |inputs| + |ins| + |outputs|;
      && |s| == middle + |outs| + 4
      && (k < 4 ==> s[k] == Shifted(t.version, k) % 256)
      && s[4..start] == inputs && s[start..start + |ins|] == ins
      && s[start + |ins|..middle] == outputs && s[middle..middle + |outs|] == outs
      && (k < 4 ==> s[middle + |outs| + k] == Shifted(t.nLockTime, 3 - k) % 256)
  {
    hide LittleEndian, EncodeVarint, SerializedIns, SerializedOuts, Serialized, Shifted;
    Pieces(t);
    if k < 4 {
      LittleEndianAt(t.version, 4, k);
      BigEndianAt(t.nLockTime, 4, k);
    }
  }

  // ----- Serializing, then deserializing -----

  lemma InRoundTrip(i: TxIn, rest: Bytes)
    requires i.Valid() && |i.scriptSig| < 253
    ensures SerializedIn(i).Some? && ParsedIn(SerializedIn(i).value + rest) == Some((i, rest))
  {
    hide Element, Varint, EncodeVarint, Pow256, BigEndian, FromBigEndian;
    EncodeVarintIs(|i.scriptSig|);
    var id, index, length := Reversed(i.prevTxId), Reversed(BigEndian(i.prevOutIndex, 4)), [|i.scriptSig|];
    var nSequence := BigEndian(i.nSequence, 4);
    var s3 := i.scriptSig + (nSequence + rest);
    assert SerializedIn(i).value + rest == id + (index + (length + s3));
    ElementOf(id, index + (length + s3));
    ElementOf(index, length + s3);
    VarintOf(|i.scriptSig|, s3);
    ElementOf(i.scriptSig, nSequence + rest);
    ElementOf(nSequence, rest);
    ReversedTwice(i.prevTxId);
    ReversedTwice(BigEndian(i.prevOutIndex, 4));
    FromBigEndianIs(i.prevOutIndex, 4);
    FromBigEndianIs(i.nSequence, 4);
  }

  lemma OutRoundTrip(o: TxOut, rest: Bytes)
    requires o.Valid() && |o.scriptPubKey| < 253
    ensures SerializedOut(o).Some? && ParsedOut(SerializedOut(o).value + rest) == Some((o, rest))
  {
    hide Element, Varint, EncodeVarint, Pow256, BigEndian, FromBigEndian;
    EncodeVarintIs(|o.scriptPubKey|);
    var value, length := Reversed(BigEndian(o.value, 8)), [|o.scriptPubKey|];
    var s2 := o.scriptPubKey + rest;
    assert SerializedOut(o).value + rest == value + (length + s2);
    ElementOf(value, length + s2);
    VarintOf(|o.scriptPubKey|, s2);
    ElementOf(o.scriptPubKey, rest);
    ReversedTwice(BigEndian(o.value, 8));
    FromBigEndianIs(o.value, 8);
  }

  lemma {:induction false} InsRoundTrip(ins: seq<TxIn>, rest: Bytes)
    requires (forall i :: 0 <= i < |ins| ==> ins[i].Valid()) && SmallIns(ins)
    ensures SerializedIns(ins).Some? && ParsedIns(|ins|, SerializedIns(ins).value + rest) == Some((ins, rest))
  {
    hide SerializedIn, ParsedIn;
    if ins == [] {
      assert [] + rest == rest;
    } else {
      InsRoundTrip(ins[1..], rest);
      var others := SerializedIns(ins[1..]).value;
      InRoundTrip(ins[0], others + rest);
      assert [ins[0]] + ins[1..] == ins;
      assert SerializedIns(ins).value + rest == SerializedIn(ins[0]).value + (others + rest);
    }
  }

  lemma {:induction false} OutsRoundTrip(outs: seq<TxOut>, rest: Bytes)
    requires (forall i :: 0 <= i < |outs| ==> outs[i].Valid()) && SmallOuts(outs)
    ensures SerializedOuts(outs).Some? && ParsedOuts(|outs|, SerializedOuts(outs).value + rest) == Some((outs, rest))
  {
    hide SerializedOut, ParsedOut;
    if outs == [] {
      assert [] + rest == rest;
    } else {
      OutsRoundTrip(outs[1..], rest);
      var others := SerializedOuts(outs[1..]).value;
      OutRoundTrip(outs[0], others + rest);
      assert [outs[0]] + outs[1..] == outs;
      assert SerializedOuts(outs).value + rest == SerializedOut(outs[0]).value + (others + rest);
    }
  }

  /** Every field is restored. */
  lemma {:induction false} RoundTrip(t: Tx)
    requires t.Valid() && t.Small()
    ensures Serialized(t).Some? && Parsed(Serialized(t).value) == Some(t)
  {
    hide Element, Varint, EncodeVarint, Pow256, BigEndian, FromBigEndian, SerializedIns, SerializedOuts, ParsedIns,
         ParsedOuts;
    EncodeVarintIs(|t.ins|);
    EncodeVarintIs(|t.outs|);
    var version, nLockTime := Reversed(BigEndian(t.version, 4)), BigEndian(t.nLockTime, 4);
    OutsRoundTrip(t.outs, nLockTime);
    var s4 := SerializedOuts(t.outs).value + nLockTime;
    InsRoundTrip(t.ins, [|t.outs|] + s4);
    var s2 := SerializedIns(t.ins).value + ([|t.outs|] + s4);
    assert Serialized(t).value == version + ([|t.ins|] + s2);
    ElementOf(version, [|t.ins|] + s2);
    VarintOf(|t.ins|, s2);
    VarintOf(|t.outs|, s4);
    ElementOf(nLockTime, []);
    assert nLockTime + [] == nLockTime;
    ReversedTwice(BigEndian(t.version, 4));
    FromBigEndianIs(t.version, 4);
    FromBigEndianIs(t.nLockTime, 4);
  }

  // ----- Deserializing, then serializing -----

  lemma Cancel(a: Bytes, b: Bytes, c: Bytes, d: Bytes)
    requires a + b == c + d && |a| == |c|
    ensures a == c && b == d
  {
    assert a == (a + b)[..|a|] && c == (c + d)[..|c|];
    assert b == (a + b)[|a|..] && d == (c + d)[|c|..];
  }

  lemma ReadBack(bytes: Bytes)
    ensures Reversed(BigEndian(FromBigEndian(Reversed(bytes)), |bytes|)) == bytes
    ensures BigEndian(FromBigEndian(bytes), |bytes|) == bytes
  {
    BigEndianIs(Reversed(bytes));
    BigEndianIs(bytes);
    ReversedTwice(bytes);
  }

  lemma VarintSmall(s: Bytes)
    requires Varint(s).Some? && Varint(s).value.0 < 253
    ensures EncodeVarint(Varint(s).value.0) == Some([s[0]]) && s == [s[0]] + Varint(s).value.1
  {
    VarintRead(s);
    EncodeVarintIs(Varint(s).value.0);
  }

  /** An input is put back as it was read if its script is short. */
  lemma InPutBack(s: Bytes)
    requires ParsedIn(s).Some?
    ensures var (i, rest) := ParsedIn(s).value;
      i.Valid() && (|i.scriptSig| < 253 ==> SerializedIn(i).Some? && SerializedIn(i).value + rest == s)
  {
    hide Element, Varint, EncodeVarint, Pow256, BigEndian, FromBigEndian;
    var id := Element(s, 32).value;
    var index := Element(id.1, 4).value;
    var length := Varint(index.1).value;
    var script := Element(length.1, length.0).value;
    var nSequence := Element(script.1, 4).value;
    ReadBack(id.0);
    ReadBack(index.0);
    ReadBack(nSequence.0);
    ReversedTwice(id.0);
    if length.0 < 253 {
      VarintSmall(index.1);
      var i := ParsedIn(s).value.0;
      assert SerializedIn(i).value == id.0 + (index.0 + ([index.1[0]] + (script.0 + nSequence.0)));
    }
  }

  /** And only then. */
  lemma InPutBackOnlyIf(s: Bytes, tail: Bytes)
    requires ParsedIn(s).Some? && SerializedIn(ParsedIn(s).value.0).Some?
    requires SerializedIn(ParsedIn(s).value.0).value + tail == s
    ensures |ParsedIn(s).value.0.scriptSig| < 253
  {
    hide Element, Varint, EncodeVarint, Pow256, BigEndian, FromBigEndian;
    var id := Element(s, 32).value;
    var index := Element(id.1, 4).value;
    var i := ParsedIn(s).value.0;
    var n := BigEndian(i.nSequence, 4);
    var length := EncodeVarint(|i.scriptSig|).value;
    ReversedTwice(id.0);
    var left, right := Reversed(i.prevTxId), Reversed(BigEndian(i.prevOutIndex, 4));
    Regrouped(left, right, length, i.scriptSig + n, tail);
    Cancel(left, right + (length + ((i.scriptSig + n) + tail)), id.0, id.1);
    Cancel(right, length + ((i.scriptSig + n) + tail), index.0, index.1);
    VarintReencoded(index.1, (i.scriptSig + n) + tail);
  }

  lemma Regrouped(a: Bytes, b: Bytes, c: Bytes, d: Bytes, tail: Bytes)
    ensures (a + (b + (c + d))) + tail == a + (b + (c + (d + tail)))
  {
  }

  lemma OutPutBack(s: Bytes)
    requires ParsedOut(s).Some?
    ensures var (o, rest) := ParsedOut(s).value;
      o.Valid() && (|o.scriptPubKey| < 253 ==> SerializedOut(o).Some? && SerializedOut(o).value + rest == s)
  {
    hide Element, Varint, EncodeVarint, Pow256, BigEndian, FromBigEndian;
    var value := Element(s, 8).value;
    var length := Varint(value.1).value;
    var script := Element(length.1, length.0).value;
    ReadBack(value.0);
    if length.0 < 253 {
      VarintSmall(value.1);
      var o := ParsedOut(s).value.0;
      assert SerializedOut(o).value == value.0 + ([value.1[0]] + script.0);
    }
  }

  lemma OutPutBackOnlyIf(s: Bytes, tail: Bytes)
    requires ParsedOut(s).Some? && SerializedOut(ParsedOut(s).value.0).Some?
    requires SerializedOut(ParsedOut(s).value.0).value + tail == s
    ensures |ParsedOut(s).value.0.scriptPubKey| < 253
  {
    hide Element, Varint, EncodeVarint, Pow256, BigEndian, FromBigEndian;
    var value := Element(s, 8).value;
    var o := ParsedOut(s).value.0;
    var length := EncodeVarint(|o.scriptPubKey|).value;
    assert Reversed(BigEndian(o.value, 8)) + ((length + o.scriptPubKey) + tail) == value.0 + value.1;
    Cancel(Reversed(BigEndian(o.value, 8)), (length + o.scriptPubKey) + tail, value.0, value.1);
    assert length + (o.scriptPubKey + tail) == value.1;
    VarintReencoded(value.1, o.scriptPubKey + tail);
  }

  lemma {:induction false} InsPutBack(n: nat, s: Bytes)
    requires ParsedIns(n, s).Some?
    ensures var (ins, rest) := ParsedIns(n, s).value;
      && (forall k :: 0 <= k < |ins| ==> ins[k].Valid())
      && (SmallIns(ins) ==> SerializedIns(ins).Some? && SerializedIns(ins).value + rest == s)
  {
    hide ParsedIn, SerializedIn;
    var (ins, rest) := ParsedIns(n, s).value;
    if n == 0 {
      assert [] + s == s;
    } else {
      InPutBack(s);
      var s1 := ParsedIn(s).value.1;
      InsPutBack(n - 1, s1);
      assert ins[1..] == ParsedIns(n - 1, s1).value.0;
      if SmallIns(ins) {
        assert SmallIns(ins[1..]);
        assert SerializedIns(ins).value + rest == SerializedIn(ins[0]).value + (SerializedIns(ins[1..]).value + rest);
      }
    }
  }

  lemma {:induction false} InsPutBackOnlyIf(n: nat, s: Bytes, tail: Bytes)
    requires ParsedIns(n, s).Some? && SerializedIns(ParsedIns(n, s).value.0).Some?
    requires SerializedIns(ParsedIns(n, s).value.0).value + tail == s
    ensures SmallIns(ParsedIns(n, s).value.0)
  {
    hide ParsedIn, SerializedIn;
    var ins := ParsedIns(n, s).value.0;
    if n > 0 {
      var s1 := ParsedIn(s).value.1;
      assert ins[1..] == ParsedIns(n - 1, s1).value.0;
      var first, others := SerializedIn(ins[0]).value, SerializedIns(ins[1..]).value;
      assert first + (others + tail) == s;
      InPutBackOnlyIf(s, others + tail);
      InPutBack(s);
      Cancel(first, others + tail, first, s1);
      InsPutBackOnlyIf(n - 1, s1, tail);
      assert forall k :: 0 < k < |ins| ==> ins[k] == ins[1..][k - 1];
    }
  }

  lemma {:induction false} OutsPutBack(n: nat, s: Bytes)
    requires ParsedOuts(n, s).Some?
    ensures var (outs, rest) := ParsedOuts(n, s).value;
      && (forall k :: 0 <= k < |outs| ==> outs[k].Valid())
      && (SmallOuts(outs) ==> SerializedOuts(outs).Some? && SerializedOuts(outs).value + rest == s)
  {
    hide ParsedOut, SerializedOut;
    var (outs, rest) := ParsedOuts(n, s).value;
    if n == 0 {
      assert [] + s == s;
    } else {
      OutPutBack(s);
      var s1 := ParsedOut(s).value.1;
      OutsPutBack(n - 1, s1);
      assert outs[1..] == ParsedOuts(n - 1, s1).value.0;
      if SmallOuts(outs) {
        assert SmallOuts(outs[1..]);
        assert SerializedOuts(outs).value + rest == SerializedOut(outs[0]).value + (SerializedOuts(outs[1..]).value + rest);
      }
    }
  }

  lemma {:induction false} OutsPutBackOnlyIf(n: nat, s: Bytes, tail: Bytes)
    requires ParsedOuts(n, s).Some? && SerializedOuts(ParsedOuts(n, s).value.0).Some?
    requires SerializedOuts(ParsedOuts(n, s).value.0).value + tail == s
    ensures SmallOuts(ParsedOuts(n, s).value.0)
  {
    hide ParsedOut, SerializedOut;
    var outs := ParsedOuts(n, s).value.0;
    if n > 0 {
      var s1 := ParsedOut(s).value.1;
      assert outs[1..] == ParsedOuts(n - 1, s1).value.0;
      var first, others := SerializedOut(outs[0]).value, SerializedOuts(outs[1..]).value;
      assert first + (others + tail) == s;
      OutPutBackOnlyIf(s, others + tail);
      OutPutBack(s);
      Cancel(first, others + tail, first, s1);
      OutsPutBackOnlyIf(n - 1, s1, tail);
      assert forall k :: 0 < k < |outs| ==> outs[k] == outs[1..][k - 1];
    }
  }

  /** Serializing what was deserialized gives the same bytes exactly when all counts and script lengths are below 253. */
  lemma {:induction false} PutBackIff(s: Bytes)
    requires Parsed(s).Some?
    ensures Parsed(s).value.Valid()
    ensures Serialized(Parsed(s).value) == Some(s) <==> Parsed(s).value.Small()
  {
    hide Element, Varint, EncodeVarint, Pow256, BigEndian, FromBigEndian, SerializedIns, SerializedOuts, ParsedIns,
         ParsedOuts;
    var t := Parsed(s).value;
    var version := Element(s, 4).value;
    var inputs := Varint(version.1).value;
    var ins := ParsedIns(inputs.0, inputs.1).value;
    var outputs := Varint(ins.1).value;
    var outs := ParsedOuts(outputs.0, outputs.1).value;
    var nLockTime := Element(outs.1, 4).value;
    ReadBack(version.0);
    ReadBack(nLockTime.0);
    InsPutBack(inputs.0, inputs.1);
    OutsPutBack(outputs.0, outputs.1);
    assert nLockTime.0 + [] == nLockTime.0;
    if t.Small() {
      VarintSmall(version.1);
      VarintSmall(ins.1);
    }
    if Serialized(t) == Some(s) {
      PutBackOnlyIf(s);
    }
  }

  /** Deserializing what was serialized restores the transaction exactly when all its counts and script lengths are below
      253. */
  lemma RoundTripIff(t: Tx)
    requires t.Valid() && Serialized(t).Some?
    ensures Parsed(Serialized(t).value) == Some(t) <==> t.Small()
  {
    hide Serialized, Parsed, Tx.Small, Tx.Valid;
    if t.Small() {
      RoundTrip(t);
    } else if Parsed(Serialized(t).value) == Some(t) {
      PutBackIff(Serialized(t).value);
    }
  }

  lemma PutBackOnlyIf(s: Bytes)
    requires Parsed(s).Some? && Serialized(Parsed(s).value) == Some(s)
    ensures Parsed(s).value.Small()
  {
    hide Element, Varint, EncodeVarint, Pow256, BigEndian, FromBigEndian, SerializedIns, SerializedOuts, ParsedIns,
         ParsedOuts;
    var t := Parsed(s).value;
    var version := Element(s, 4).value;
    var inputs := Varint(version.1).value;
    var ins := ParsedIns(inputs.0, inputs.1).value;
    var outputs := Varint(ins.1).value;
    var outs := ParsedOuts(outputs.0, outputs.1).value;
    var a, d := EncodeVarint(|t.ins|).value, EncodeVarint(|t.outs|).value;
    var b, e := SerializedIns(t.ins).value, SerializedOuts(t.outs).value;
    var end := e + BigEndian(t.nLockTime, 4);
    Cancel(Reversed(BigEndian(t.version, 4)), a + (b + (d + end)), version.0, version.1);
    VarintReencoded(version.1, b + (d + end));
    VarintSmall(version.1);
    Cancel(a, b + (d + end), a, inputs.1);
    InsPutBackOnlyIf(inputs.0, inputs.1, d + end);
    InsPutBack(inputs.0, inputs.1);
    Cancel(b, d + end, b, ins.1);
    VarintReencoded(ins.1, end);
    VarintSmall(ins.1);
    Cancel(d, end, d, outputs.1);
    OutsPutBackOnlyIf(outputs.0, outputs.1, BigEndian(t.nLockTime, 4));
  }

  // ----- The object -----

  /** What is left of the string at an offset; None once an element has been read past the end. */
  function Left(hex: Bytes, offset: nat): Option<Bytes> {
    if offset <= |hex| then Some(hex[offset..]) else None
  }

  function Prepended<T>(front: seq<T>, r: Option<(seq<T>, Bytes)>): Option<(seq<T>, Bytes)> {
    match r
    case None => None
    case Some((s, rest)) => Some((front + s, rest))
  }

  function Appended(front: Bytes, r: Option<Bytes>): Option<Bytes> {
    var s :- r;
    Some(front + s)
  }

  lemma ParsedInsStep(n: nat, s: Bytes, front: seq<TxIn>)
    requires n > 0
    ensures ParsedIn(s).None? ==> ParsedIns(n, s).None?
    ensures ParsedIn(s).Some? ==>
      Prepended(front, ParsedIns(n, s)) == Prepended(front + [ParsedIn(s).value.0], ParsedIns(n - 1, ParsedIn(s).value.1))
  {
    hide ParsedIn;
    if ParsedIn(s).Some? && ParsedIns(n - 1, ParsedIn(s).value.1).Some? {
      var i, others := ParsedIn(s).value.0, ParsedIns(n - 1, ParsedIn(s).value.1).value.0;
      assert front + ([i] + others) == front + [i] + others;
    }
  }

  lemma ParsedOutsStep(n: nat, s: Bytes, front: seq<TxOut>)
    requires n > 0
    ensures ParsedOut(s).None? ==> ParsedOuts(n, s).None?
    ensures ParsedOut(s).Some? ==>
      Prepended(front, ParsedOuts(n, s)) == Prepended(front + [ParsedOut(s).value.0], ParsedOuts(n - 1, ParsedOut(s).value.1))
  {
    hide ParsedOut;
    if ParsedOut(s).Some? && ParsedOuts(n - 1, ParsedOut(s).value.1).Some? {
      var o, others := ParsedOut(s).value.0, ParsedOuts(n - 1, ParsedOut(s).value.1).value.0;
      assert front + ([o] + others) == front + [o] + others;
    }
  }

  /** A step that parses at a position of the string: it yields what `parse` yields of what is left, and when that fails
      it raises an exception or leaves the offset past the end. */
  ghost predicate Reads<T>(before: Option<Bytes>, parse: Bytes -> Option<(T, Bytes)>, r: Option<T>,
                           after: Option<Bytes>) {
    if before.None? || parse(before.value).None? then r == None || after == None
    else r == Some(parse(before.value).value.0) && after == Some(parse(before.value).value.1)
  }

  function ParsedInSection(s: Bytes): Option<(seq<TxIn>, Bytes)> {
    var inputs :- Varint(s);
    ParsedIns(inputs.0, inputs.1)
  }

  function ParsedOutSection(s: Bytes): Option<(seq<TxOut>, Bytes)> {
    var outputs :- Varint(s);
    ParsedOuts(outputs.0, outputs.1)
  }

  function Outpoint(s: Bytes): Option<((Bytes, nat), Bytes)> {
    var id :- Element(s, 32);
    var index :- Number(id.1, 4, true);
    Some(((Reversed(id.0), index.0), index.1))
  }

  function ScriptWithLength(s: Bytes): Option<((nat, Bytes), Bytes)> {
    var length :- Varint(s);
    var script :- Element(length.1, length.0);
    Some(((length.0, script.0), script.1))
  }

  function InputFields(s: Bytes): Option<(((Bytes, nat), (nat, Bytes), nat), Bytes)> {
    var outpoint :- Outpoint(s);
    var script :- ScriptWithLength(outpoint.1);
    var nSequence :- Number(script.1, 4, false);
    Some(((outpoint.0, script.0, nSequence.0), nSequence.1))
  }

  lemma ParsedInIs(s: Bytes)
    ensures InputFields(s).None? ==> ParsedIn(s).None?
    ensures InputFields(s).Some? ==>
      var (f, rest) := InputFields(s).value;
      ParsedIn(s) == Some((TxIn(f.0.0, f.0.1, f.1.1, f.2), rest))
  {
    hide Element, Varint, FromBigEndian;
  }

  lemma ParsedOutIs(s: Bytes)
    ensures Number(s, 8, true).None? ==> ParsedOut(s).None?
    ensures Number(s, 8, true).Some? ==>
      var (amount, rest) := Number(s, 8, true).value;
      (ScriptWithLength(rest).None? ==> ParsedOut(s).None?) &&
      (ScriptWithLength(rest).Some? ==>
         ParsedOut(s) == Some((TxOut(amount, ScriptWithLength(rest).value.0.1), ScriptWithLength(rest).value.1)))
  {
    hide Element, Varint, FromBigEndian;
  }

  function Number(s: Bytes, size: nat, littleEndian: bool): Option<(nat, Bytes)> {
    var e :- Element(s, size);
    Some((FromBigEndian(if littleEndian then Reversed(e.0) else e.0), e.1))
  }

  /** The whole transaction, section by section. */
  function Sections(s: Bytes): Option<(Tx, Bytes)> {
    var version :- Number(s, 4, true);
    var both :- BothSections(version.1);
    var nLockTime :- Number(both.1, 4, false);
    Some((Tx(version.0, both.0.0, both.0.1, nLockTime.0), nLockTime.1))
  }

  function BothSections(s: Bytes): Option<((seq<TxIn>, seq<TxOut>), Bytes)> {
    var ins :- ParsedInSection(s);
    var outs :- ParsedOutSection(ins.1);
    Some(((ins.0, outs.0), outs.1))
  }

  lemma ParsedIs(s: Bytes)
    ensures Sections(s).None? ==> Parsed(s).None?
    ensures Sections(s).Some? ==> Parsed(s) == if Sections(s).value.1 == [] then Some(Sections(s).value.0) else None
  {
    hide Element, Varint, FromBigEndian, ParsedIns, ParsedOuts;
  }

  class TX {
    var version: nat
    var inputs: nat
    var outputs: nat
    var nLockTime: nat
    var prevTxId: seq<Bytes>
    var prevOutIndex: seq<nat>
    var scriptSig: seq<Bytes>
    var scriptSigLen: seq<nat>
    var nSequence: seq<nat>
    var value: seq<nat>
    var scriptPubKey: seq<Bytes>
    var scriptPubKeyLen: seq<nat>
    var offset: nat
    var hex: Bytes

    constructor ()
      ensures Ins(0) == [] && Outs(0) == [] && offset == 0 && Listed(0, 0)
    {
      version, inputs, outputs, nLockTime, offset := 0, 0, 0, 0, 0;
      prevTxId, prevOutIndex, scriptSig, scriptSigLen, nSequence := [], [], [], [], [];
      value, scriptPubKey, scriptPubKeyLen := [], [], [];
      hex := [];
    }

    /** The lists hold n inputs and m outputs. */
    predicate Listed(n: nat, m: nat)
      reads this
    {
      && |prevTxId| == |prevOutIndex| == |scriptSig| == |scriptSigLen| == |nSequence| == n
      && |value| == |scriptPubKey| == |scriptPubKeyLen| == m
    }

    function Ins(n: nat): (r: seq<TxIn>)
      requires n <= |prevTxId| && n <= |prevOutIndex| && n <= |scriptSig| && n <= |nSequence|
      reads this
      ensures |r| == n
    {
      seq(n, i requires 0 <= i < n reads this
             requires n <= |prevTxId| && n <= |prevOutIndex| && n <= |scriptSig| && n <= |nSequence| =>
               TxIn(prevTxId[i], prevOutIndex[i], scriptSig[i], nSequence[i]))
    }

    function Outs(m: nat): (r: seq<TxOut>)
      requires m <= |value| && m <= |scriptPubKey|
      reads this
      ensures |r| == m
    {
      seq(m, i requires 0 <= i < m reads this requires m <= |value| && m <= |scriptPubKey| => TxOut(value[i], scriptPubKey[i]))
    }

    /** The transaction the fields stand for. */
    function Contents(): Tx
      requires Listed(inputs, outputs)
      reads this
    {
      Tx(version, Ins(inputs), Outs(outputs), nLockTime)
    }

    /** parse_element: the slice may be cut short by the end of the string. */
    method ParseElement(size: nat) returns (element: Bytes)
      modifies this`offset
      ensures Reads(Left(hex, old(offset)), (s: Bytes) => Element(s, size), Some(element), Left(hex, offset))
      ensures old(offset) >= |hex| ==> element == []
    {
      var start := if offset <= |hex| then offset else |hex|;
      var end := if offset + size <= |hex| then offset + size else |hex|;
      element := hex[start..end];
      offset := offset + size;
      assert start + size <= |hex| ==> hex[start..][..size] == hex[start..end] && hex[start..][size..] == hex[start + size..];
    }

    /** parse_varint followed by int(.., 16). */
    method ParseVarint() returns (r: Option<nat>)
      modifies this`offset
      ensures Reads(Left(hex, old(offset)), (s: Bytes) => Varint(s), r, Left(hex, offset))
    {
      if offset >= |hex| {
        return None;
      }
      var size := hex[offset];
      var varint := ParseElement(StorageLength(size));
      return Some(FromBigEndian(varint));
    }

    /** int(.., 16) of an element, its bytes reversed first if it is stored in little-endian order. */
    method ParseNumber(size: nat, littleEndian: bool) returns (r: Option<nat>)
      requires size > 0
      modifies this`offset
      ensures Reads(Left(hex, old(offset)), (s: Bytes) => Number(s, size, littleEndian), r, Left(hex, offset))
    {
      var element := ParseElement(size);
      if element == [] {
        return None;
      }
      return Some(FromBigEndian(if littleEndian then Reversed(element) else element));
    }

    /** The transaction output an input spends: hash and index. */
    method ParseOutpoint() returns (r: Option<(Bytes, nat)>)
      modifies this`offset
      ensures Reads(Left(hex, old(offset)), (s: Bytes) => Outpoint(s), r, Left(hex, offset))
    {
      hide Element, FromBigEndian, Left;
      var id := ParseElement(32);
      var index := ParseNumber(4, true);
      if index.None? {
        return None;
      }
      return Some((Reversed(id), index.value));
    }

    /** A script with its length in front. */
    method ParseScript() returns (r: Option<(nat, Bytes)>)
      modifies this`offset
      ensures Reads(Left(hex, old(offset)), (s: Bytes) => ScriptWithLength(s), r, Left(hex, offset))
    {
      hide Element, Varint, Left;
      var length := ParseVarint();
      if length.None? {
        return None;
      }
      var script := ParseElement(length.value);
      return Some((length.value, script));
    }

    /** The fields of one input, in the order they are read. */
    method ParseInput() returns (r: Option<((Bytes, nat), (nat, Bytes), nat)>)
      modifies this`offset
      ensures Reads(Left(hex, old(offset)), (s: Bytes) => InputFields(s), r, Left(hex, offset))
    {
      hide Outpoint, ScriptWithLength, Number, Left;
      var outpoint := ParseOutpoint();
      if outpoint.None? {
        return None;
      }
      var script := ParseScript();
      if script.None? {
        return None;
      }
      var sequence := ParseNumber(4, false);
      if sequence.None? {
        return None;
      }
      return Some((outpoint.value, script.value, sequence.value));
    }

    /** One turn of the loop over the inputs; false stands for an exception. */
    method DeserializeInput(ghost m: nat) returns (ok: bool)
      requires Listed(|prevTxId|, m)
      modifies this`offset, this`prevTxId, this`prevOutIndex, this`scriptSig, this`scriptSigLen, this`nSequence
      ensures ok ==> Listed(|old(prevTxId)| + 1, m)
      ensures ok ==> Ins(|old(prevTxId)|) == old(Ins(|prevTxId|))
      ensures Reads(Left(hex, old(offset)), (s: Bytes) => ParsedIn(s),
                    if ok then Some(Ins(|old(prevTxId)| + 1)[|old(prevTxId)|]) else None, Left(hex, offset))
    {
      hide InputFields, ParsedIn, Left;
      var fields := ParseInput();
      if Left(hex, old(offset)).Some? {
        ParsedInIs(Left(hex, old(offset)).value);
      }
      if fields.None? {
        return false;
      }
      prevTxId := prevTxId + [fields.value.0.0];
      prevOutIndex := prevOutIndex + [fields.value.0.1];
      scriptSigLen := scriptSigLen + [fields.value.1.0];
      scriptSig := scriptSig + [fields.value.1.1];
      nSequence := nSequence + [fields.value.2];
      ok := true;
    }

    method DeserializeOutput(ghost n: nat) returns (ok: bool)
      requires Listed(n, |value|)
      modifies this`offset, this`value, this`scriptPubKey, this`scriptPubKeyLen
      ensures ok ==> Listed(n, |old(value)| + 1)
      ensures ok ==> Outs(|old(value)|) == old(Outs(|value|))
      ensures Reads(Left(hex, old(offset)), (s: Bytes) => ParsedOut(s),
                    if ok then Some(Outs(|old(value)| + 1)[|old(value)|]) else None, Left(hex, offset))
    {
      hide ScriptWithLength, ParsedOut, Number, Left;
      if Left(hex, offset).Some? {
        ParsedOutIs(Left(hex, offset).value);
      }
      var amount := ParseNumber(8, true);
      if amount.None? {
        return false;
      }
      var script := ParseScript();
      if script.None? {
        return false;
      }
      value := value + [amount.value];
      scriptPubKeyLen := scriptPubKeyLen + [script.value.0];
      scriptPubKey := scriptPubKey + [script.value.1];
      ok := true;
    }

    method DeserializeInputs(count: nat) returns (ok: bool)
      requires Listed(0, 0)
      modifies this`offset, this`prevTxId, this`prevOutIndex, this`scriptSig, this`scriptSigLen, this`nSequence
      ensures ok ==> Listed(count, 0)
      ensures Reads(Left(hex, old(offset)), (s: Bytes) => ParsedIns(count, s), if ok then Some(Ins(count)) else None, Left(hex, offset))
    {
      hide ParsedIn, Left;
      ghost var s0 := Left(hex, offset);
      if s0.Some? {
        NothingInFront(ParsedIns(count, s0.value));
      }
      for i := 0 to count
        invariant Listed(i, 0)
        invariant s0.Some? && Left(hex, offset).Some? ==>
          ParsedIns(count, s0.value) == Prepended(Ins(i), ParsedIns(count - i, Left(hex, offset).value))
        invariant s0.None? || Left(hex, offset).None? ==>
          Left(hex, offset).None? && (s0.Some? ==> ParsedIns(count, s0.value).None?)
      {
        ghost var before := Ins(i);
        if Left(hex, offset).Some? {
          ParsedInsStep(count - i, Left(hex, offset).value, before);
        }
        ok := DeserializeInput(0);
        if !ok {
          return;
        }
        assert Ins(i + 1) == before + [Ins(i + 1)[i]];
      }
      assert Ins(count) + [] == Ins(count);
      ok := true;
    }

    method DeserializeOutputs(count: nat) returns (ok: bool)
      requires Listed(|prevTxId|, 0)
      modifies this`offset, this`value, this`scriptPubKey, this`scriptPubKeyLen
      ensures ok ==> Listed(|prevTxId|, count)
      ensures Reads(Left(hex, old(offset)), (s: Bytes) => ParsedOuts(count, s), if ok then Some(Outs(count)) else None, Left(hex, offset))
    {
      hide ParsedOut, Left;
      ghost var s0 := Left(hex, offset);
      if s0.Some? {
        NothingInFront(ParsedOuts(count, s0.value));
      }
      for i := 0 to count
        invariant Listed(|prevTxId|, i)
        invariant s0.Some? && Left(hex, offset).Some? ==>
          ParsedOuts(count, s0.value) == Prepended(Outs(i), ParsedOuts(count - i, Left(hex, offset).value))
        invariant s0.None? || Left(hex, offset).None? ==>
          Left(hex, offset).None? && (s0.Some? ==> ParsedOuts(count, s0.value).None?)
      {
        ghost var before := Outs(i);
        if Left(hex, offset).Some? {
          ParsedOutsStep(count - i, Left(hex, offset).value, before);
        }
        ok := DeserializeOutput(|prevTxId|);
        if !ok {
          return;
        }
        assert Outs(i + 1) == before + [Outs(i + 1)[i]];
      }
      assert Outs(count) + [] == Outs(count);
      ok := true;
    }

    method DeserializeInputSection() returns (ok: bool)
      requires Listed(0, 0)
      modifies this`inputs, this`offset, this`prevTxId, this`prevOutIndex, this`scriptSig, this`scriptSigLen, this`nSequence
      ensures ok ==> Listed(inputs, 0)
      ensures Reads(Left(hex, old(offset)), (s: Bytes) => ParsedInSection(s), if ok then Some(Ins(inputs)) else None, Left(hex, offset))
    {
      hide Varint, Left, ParsedIns;
      var n := ParseVarint();
      if n.None? {
        return false;
      }
      inputs := n.value;
      ok := DeserializeInputs(inputs);
    }

    method DeserializeOutputSection() returns (ok: bool)
      requires Listed(|prevTxId|, 0)
      modifies this`outputs, this`offset, this`value, this`scriptPubKey, this`scriptPubKeyLen
      ensures ok ==> Listed(|prevTxId|, outputs)
      ensures Reads(Left(hex, old(offset)), (s: Bytes) => ParsedOutSection(s), if ok then Some(Outs(outputs)) else None, Left(hex, offset))
    {
      hide Varint, Left, ParsedOuts;
      var n := ParseVarint();
      if n.None? {
        return false;
      }
      outputs := n.value;
      ok := DeserializeOutputs(outputs);
    }

    method DeserializeSections() returns (ok: bool)
      requires Listed(0, 0)
      modifies this
      ensures hex == old(hex) && version == old(version)
      ensures ok ==> Listed(inputs, outputs)
      ensures Reads(Left(hex, old(offset)), (s: Bytes) => BothSections(s), if ok then Some((Ins(inputs), Outs(outputs))) else None,
                    Left(hex, offset))
    {
      hide ParsedInSection, ParsedOutSection, Left;
      ok := DeserializeInputSection();
      if !ok {
        return;
      }
      ghost var ins := Ins(inputs);
      ok := DeserializeOutputSection();
      assert Ins(inputs) == ins;
    }

    /** All the fields, section by section. */
    method DeserializeFields() returns (ok: bool)
      requires Listed(0, 0)
      modifies this
      ensures hex == old(hex)
      ensures ok ==> Listed(inputs, outputs)
      ensures Reads(Left(hex, old(offset)), (s: Bytes) => Sections(s), if ok then Some(Contents()) else None, Left(hex, offset))
    {
      hide BothSections, Number, Left;
      var v := ParseNumber(4, true);
      if v.None? {
        return false;
      }
      version := v.value;
      ok := DeserializeSections();
      if !ok {
        return;
      }
      ghost var ins, outs := Ins(inputs), Outs(outputs);
      var lock := ParseNumber(4, false);
      if lock.None? {
        return false;
      }
      nLockTime := lock.value;
      assert Ins(inputs) == ins && Outs(outputs) == outs;
    }

    /** TX.deserialize. */
    static method Deserialize(hexTx: Bytes) returns (r: Option<TX>)
      ensures match Parsed(hexTx)
        case None => r == None
        case Some(t) => r.Some? && fresh(r.value) && r.value.Listed(r.value.inputs, r.value.outputs) && r.value.Contents() == t
                        && r.value.offset == 0
    {
      hide Sections, Parsed;
      var tx := new TX();
      tx.hex := hexTx;
      assert hexTx[0..] == hexTx;
      ParsedIs(hexTx);
      var ok := tx.DeserializeFields();
      if !ok || tx.offset != |tx.hex| {
        return None;
      }
      tx.offset := 0;
      return Some(tx);
    }

    /** TX.serialize. */
    method Serialize() returns (r: Option<Bytes>)
      requires Listed(inputs, outputs)
      ensures r == Serialized(Contents())
    {
      hide SerializedIn, SerializedOut, EncodeVarint;
      var ver := Int2Bytes(version, 4);
      var ins := EncodeVarint(inputs);
      if ver.None? || ins.None? {
        return None;
      }
      var acc := Reversed(ver.value) + ins.value;
      var inBytes := SerializeInputs();
      var outs := EncodeVarint(outputs);
      if inBytes.None? || outs.None? {
        return None;
      }
      acc := acc + inBytes.value + outs.value;
      var outBytes := SerializeOutputs();
      var lock := Int2Bytes(nLockTime, 4);
      if outBytes.None? || lock.None? {
        return None;
      }
      acc := acc + outBytes.value + lock.value;
      assert acc == Reversed(ver.value) + (ins.value + (inBytes.value + (outs.value + (outBytes.value + lock.value))));
      return Some(acc);
    }

    method SerializeInputs() returns (r: Option<Bytes>)
      requires Listed(inputs, outputs)
      ensures r == SerializedIns(Ins(inputs))
    {
      hide SerializedIn;
      var acc: Bytes := [];
      NothingAppended(SerializedIns(Ins(inputs)));
      assert Ins(inputs)[0..] == Ins(inputs);
      for i := 0 to inputs
        invariant SerializedIns(Ins(inputs)) == Appended(acc, SerializedIns(Ins(inputs)[i..]))
      {
        ghost var left := Ins(inputs)[i..];
        assert left[0] == Ins(inputs)[i] && left[1..] == Ins(inputs)[i + 1..];
        var one := SerializeInput(i);
        if one.None? {
          return None;
        }
        AppendedTwice(acc, one.value, SerializedIns(left[1..]));
        acc := acc + one.value;
      }
      assert acc + [] == acc;
      return Some(acc);
    }

    method SerializeInput(i: nat) returns (r: Option<Bytes>)
      requires Listed(inputs, outputs) && i < inputs
      ensures r == SerializedIn(Ins(inputs)[i])
    {
      hide EncodeVarint;
      var acc := Reversed(prevTxId[i]);
      var index := Int2Bytes(prevOutIndex[i], 4);
      var length := EncodeVarint(|scriptSig[i]|);
      var sequence := Int2Bytes(nSequence[i], 4);
      if index.None? || length.None? || sequence.None? {
        return None;
      }
      acc := acc + Reversed(index.value);
      acc := acc + length.value;
      acc := acc + scriptSig[i];
      acc := acc + sequence.value;
      assert acc == Reversed(prevTxId[i]) + (Reversed(index.value) + (length.value + (scriptSig[i] + sequence.value)));
      return Some(acc);
    }

    method SerializeOutputs() returns (r: Option<Bytes>)
      requires Listed(inputs, outputs)
      ensures r == SerializedOuts(Outs(outputs))
    {
      hide SerializedOut;
      var acc: Bytes := [];
      NothingAppended(SerializedOuts(Outs(outputs)));
      assert Outs(outputs)[0..] == Outs(outputs);
      for i := 0 to outputs
        invariant SerializedOuts(Outs(outputs)) == Appended(acc, SerializedOuts(Outs(outputs)[i..]))
      {
        ghost var left := Outs(outputs)[i..];
        assert left[0] == Outs(outputs)[i] && left[1..] == Outs(outputs)[i + 1..];
        var one := SerializeOutput(i);
        if one.None? {
          return None;
        }
        AppendedTwice(acc, one.value, SerializedOuts(left[1..]));
        acc := acc + one.value;
      }
      assert acc + [] == acc;
      return Some(acc);
    }

    method SerializeOutput(i: nat) returns (r: Option<Bytes>)
      requires Listed(inputs, outputs) && i < outputs
      ensures r == SerializedOut(Outs(outputs)[i])
    {
      hide EncodeVarint;
      var amount := Int2Bytes(value[i], 8);
      var length := EncodeVarint(|scriptPubKey[i]|);
      if amount.None? || length.None? {
        return None;
      }
      var acc := Reversed(amount.value);
      acc := acc + length.value;
      acc := acc + scriptPubKey[i];
      assert acc == Reversed(amount.value) + (length.value + scriptPubKey[i]);
      return Some(acc);
    }
  }

  lemma NothingInFront<T>(r: Option<(seq<T>, Bytes)>)
    ensures Prepended([], r) == r
  {
    if r.Some? {
      assert [] + r.value.0 == r.value.0;
    }
  }

  lemma NothingAppended(r: Option<Bytes>)
    ensures Appended([], r) == r
  {
    if r.Some? {
      assert [] + r.value == r.value;
    }
  }

  lemma AppendedTwice(a: Bytes, b: Bytes, r: Option<Bytes>)
    ensures Appended(a, Appended(b, r)) == Appended(a + b, r)
  {
    if r.Some? {
      assert a + (b + r.value) == a + b + r.value;
    }
  }
}
