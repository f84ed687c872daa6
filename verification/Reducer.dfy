/** The UTXO reducer: what it takes from the raw bytes of the transactions of a block.  SHA-256 and the compression function
    of RIPEMD-160 are parameters. */
module Reducer {
  import opened ByteStrings
  import Ripemd160

  type Bytes = seq<Byte>

  // ----- The wire format -----

  /** The length prefix of the protocol. */
  function CompactSize(n: nat): (r: Bytes)
    requires n < Pow256(8)
    ensures |r| >= 1
  {
    if n <= 252 then [n]
    else if n < Pow256(2) then [253] + LittleEndian(n, 2)
    else if n < Pow256(4) then [254] + LittleEndian(n, 4)
    else [255] + LittleEndian(n, 8)
  }

  datatype Input = Input(prevTxHash: Bytes, position: Bytes, script: Bytes, sequence: Bytes) {
    predicate Valid() {
      |prevTxHash| == 32 && |position| == 4 && |sequence| == 4 && |script| < Pow256(8)
    }

    function Wire(): (r: Bytes)
      requires Valid()
    {
      prevTxHash + (position + (CompactSize(|script|) + (script + sequence)))
    }
  }

  datatype Output = Output(amount: Bytes, script: Bytes) {
    predicate Valid() {
      |amount| == 8 && |script| < Pow256(8)
    }

    /** The length of the script takes one byte. */
    predicate Short() {
      |script| < 253
    }

    function Wire(): (r: Bytes)
      requires Valid()
    {
      amount + (CompactSize(|script|) + script)
    }
  }

  ghost predicate ValidInputs(ins: seq<Input>) {
    |ins| < Pow256(8) && forall i :: 0 <= i < |ins| ==> ins[i].Valid()
  }

  ghost predicate ValidOutputs(outs: seq<Output>) {
    |outs| < Pow256(8) && forall i :: 0 <= i < |outs| ==> outs[i].Valid()
  }

  ghost predicate ShortScripts(outs: seq<Output>) {
    forall i :: 0 <= i < |outs| ==> outs[i].Short()
  }

  ghost function WireInputs(ins: seq<Input>): Bytes
    requires forall i :: 0 <= i < |ins| ==> ins[i].Valid()
  {
    if ins == [] then [] else ins[0].Wire() + WireInputs(ins[1..])
  }

  ghost function WireOutputs(outs: seq<Output>): Bytes
    requires forall i :: 0 <= i < |outs| ==> outs[i].Valid()
  {
    if outs == [] then [] else outs[0].Wire() + WireOutputs(outs[1..])
  }

  /** A transaction without witnesses. */
  ghost function Legacy(version: Bytes, ins: seq<Input>, outs: seq<Output>, lockTime: Bytes): Bytes
    requires ValidInputs(ins) && ValidOutputs(outs)
  {
    version + ((CompactSize(|ins|) + WireInputs(ins)) + ((CompactSize(|outs|) + WireOutputs(outs)) + lockTime))
  }

  // ----- The records -----

  datatype Hashes = Hashes(sha256: Bytes -> Bytes, transform: Ripemd160.Compression) {
    function KeyHash(key: Bytes): Bytes {
      Ripemd160.Digest(transform, sha256(key))
    }
  }

  /** The script of an input that spends a pay-to-public-key-hash output, judged by its length alone: a signature of
      script[0] bytes with its sighash byte counted in, and a public key of 33 or 65 bytes. */
  predicate Spends(script: Bytes) {
    script != [] && (|script| - 35 == script[0] || |script| - 67 == script[0])
  }

  function InputRecord(h: Hashes, i: Input): Bytes
    requires i.Valid() && Spends(i.script)
  {
    i.prevTxHash + seq(12, _ => 0) + h.KeyHash(i.script[2 + i.script[0]..]) + i.position
  }

  /** The records gained from inputs, in order. */
  ghost function InputRecords(h: Hashes, ins: seq<Input>): seq<Bytes>
    requires forall i :: 0 <= i < |ins| ==> ins[i].Valid()
  {
    if ins == [] then []
    else (if Spends(ins[0].script) then [InputRecord(h, ins[0])] else []) + InputRecords(h, ins[1..])
  }

  /** A pay-to-public-key-hash script, judged by its length and first byte. */
  predicate Pays(script: Bytes) {
    |script| == 25 && script[0] == 0x76
  }

  function OutputRecord(txHash: Bytes, blockHeight: nat, k: nat, o: Output): Bytes
    requires Pays(o.script)
  {
    txHash + o.amount + LittleEndian(blockHeight, 4) + o.script[3..23] + LittleEndian(k, 4)
  }

  /** The records gained from the outputs from number k on. */
  ghost function OutputRecords(txHash: Bytes, blockHeight: nat, k: nat, outs: seq<Output>): seq<Bytes>
    requires forall i :: 0 <= i < |outs| ==> outs[i].Valid()
    decreases |outs|
  {
    if outs == [] then []
    else (if Pays(outs[0].script) then [OutputRecord(txHash, blockHeight, k, outs[0])] else [])
         + OutputRecords(txHash, blockHeight, k + 1, outs[1..])
  }

  // ----- Reading -----

  /** Bytes found at an offset of the data. */
  ghost predicate At(hex: Bytes, offset: nat, bytes: Bytes) {
    offset + |bytes| <= |hex| && hex[offset..offset + |bytes|] == bytes
  }

  lemma AtSplit(hex: Bytes, offset: nat, a: Bytes, b: Bytes)
    requires At(hex, offset, a + b)
    ensures At(hex, offset, a) && At(hex, offset + |a|, b)
  {
    assert hex[offset..offset + |a|] == hex[offset..offset + |a + b|][..|a|];
    assert hex[offset + |a|..offset + |a| + |b|] == hex[offset..offset + |a + b|][|a|..];
  }

  lemma SliceOfSlice(hex: Bytes, a: nat, b: nat, c: nat, d: nat)
    requires a <= b <= |hex| && c <= d <= b - a
    ensures hex[a..b][c..d] == hex[a + c..a + d]
  {
    assert forall k :: 0 <= k < d - c ==> hex[a..b][c..d][k] == hex[a + c..a + d][k];
  }

  lemma AtByte(hex: Bytes, offset: nat, b: Bytes)
    requires At(hex, offset, b) && b != []
    ensures hex[offset] == b[0]
  {
    assert hex[offset] == hex[offset..offset + |b|][0];
  }

  /** getRealSizeFromCompactSize. */
  method GetRealSizeFromCompactSize(hex: Bytes, offset0: nat, ghost n: nat) returns (offset: nat, realSize: nat)
    requires n < Pow256(8) && At(hex, offset0, CompactSize(n))
    ensures realSize == n && offset == offset0 + |CompactSize(n)|
  {
    offset := offset0;
    AtByte(hex, offset0, CompactSize(n));
    Pow256Values();
    if hex[offset] <= 0xfc {
      realSize := hex[offset];
      offset := offset + 1;
    } else {
      var k := if hex[offset] == 0xfd then 2 else if hex[offset] == 0xfe then 4 else 8;
      AtSplit(hex, offset, [hex[offset]], LittleEndian(n, k));
      FromLittleEndianIs(n, k);
      offset := offset + 1;
      realSize := FromLittleEndian(hex[offset..offset + k]);
      offset := offset + k;
    }
  }

  datatype TxData = TxData(txhash: Bytes, hex: Bytes)

  class Reducer {
    const h: Hashes
    var vin: seq<Bytes>
    var vout: seq<Bytes>
    var txInputs: nat
    var txOutputs: nat

    constructor (h: Hashes)
      ensures this.h == h && vin == [] && vout == [] && txInputs == 0 && txOutputs == 0
    {
      this.h := h;
      vin, vout, txInputs, txOutputs := [], [], 0, 0;
    }

    /** One turn of the loop of getTxInputs. */
    method GetTxInput(hex: Bytes, offset0: nat, ghost i: Input) returns (offset: nat)
      requires i.Valid() && At(hex, offset0, i.Wire())
      modifies this`vin
      ensures offset == offset0 + |i.Wire()|
      ensures vin == old(vin) + if Spends(i.script) then [InputRecord(h, i)] else []
    {
      hide CompactSize, Pow256, At, Input.Wire, InputRecord, Spends;
      InputAt(hex, offset0, i);
      offset := offset0;
      var prevTxHash := hex[offset..offset + 32];
      offset := offset + 32;
      var position := hex[offset..offset + 4];
      offset := offset + 4;
      var scriptBytes;
      offset, scriptBytes := GetRealSizeFromCompactSize(hex, offset, |i.script|);
      RecordInput(hex, offset, prevTxHash, position, scriptBytes, i);
      offset := offset + scriptBytes + 4;
    }

    /** Keep the input if its script has the shape of a signature and a public key. */
    method RecordInput(hex: Bytes, offset: nat, prevTxHash: Bytes, position: Bytes, scriptBytes: nat, ghost i: Input)
      requires i.Valid() && At(hex, offset, i.script) && (i.script == [] ==> offset < |hex|)
      requires prevTxHash == i.prevTxHash && position == i.position && scriptBytes == |i.script|
      modifies this`vin
      ensures vin == old(vin) + if Spends(i.script) then [InputRecord(h, i)] else []
    {
      hide Pow256, Hashes.KeyHash;
      if i.script != [] {
        AtByte(hex, offset, i.script);
      }
      var inOffset := offset;
      var sigBytes: nat := hex[inOffset];
      inOffset := inOffset + 2 + sigBytes;
      if scriptBytes == sigBytes + 35 {
        KeyAt(hex, offset, i.script, 33);
        vin := vin + [prevTxHash + seq(12, _ => 0) + h.KeyHash(hex[inOffset..inOffset + 33]) + position];
      } else if scriptBytes == sigBytes + 67 {
        KeyAt(hex, offset, i.script, 65);
        vin := vin + [prevTxHash + seq(12, _ => 0) + h.KeyHash(hex[inOffset..inOffset + 65]) + position];
      }
    }

    /** getTxInputs. */
    method GetTxInputs(tx: TxData, offset0: nat, ghost ins: seq<Input>) returns (offset: nat)
      requires ValidInputs(ins) && At(tx.hex, offset0, CompactSize(|ins|) + WireInputs(ins))
      modifies this`vin, this`txInputs
      ensures offset == offset0 + |CompactSize(|ins|) + WireInputs(ins)|
      ensures vin == old(vin) + InputRecords(h, ins) && txInputs == old(txInputs) + |ins|
    {
      hide CompactSize, Pow256, At, InputRecord, Spends, Input.Wire;
      AtSplit(tx.hex, offset0, CompactSize(|ins|), WireInputs(ins));
      var vinSize;
      offset, vinSize := GetRealSizeFromCompactSize(tx.hex, offset0, |ins|);
      txInputs := txInputs + vinSize;
      for j := 0 to vinSize
        invariant txInputs == old(txInputs) + |ins|
        invariant At(tx.hex, offset, WireInputs(ins[j..]))
        invariant offset + |WireInputs(ins[j..])| == offset0 + |CompactSize(|ins|) + WireInputs(ins)|
        invariant vin + InputRecords(h, ins[j..]) == old(vin) + InputRecords(h, ins)
      {
        assert ins[j..][1..] == ins[j + 1..];
        AtSplit(tx.hex, offset, ins[j].Wire(), WireInputs(ins[j + 1..]));
        offset := GetTxInput(tx.hex, offset, ins[j]);
      }
    }

    /** One turn of the loop of getTxOutputs, for a script of any length.  The first byte of the length is taken for the
        whole of it: the turn ends at the end of the output exactly when the script is shorter than 253 bytes, and before
        it otherwise. */
    method GetTxOutput(tx: TxData, offset0: nat, blockHeight: nat, k: nat, ghost o: Output) returns (offset: nat)
      requires o.Valid() && At(tx.hex, offset0, o.Wire())
      modifies this`vout
      ensures offset0 + 8 < |tx.hex| && offset == offset0 + 9 + tx.hex[offset0 + 8]
      ensures offset == offset0 + |o.Wire()| <==> o.Short()
      ensures offset <= offset0 + |o.Wire()|
      ensures vout == old(vout) + if Pays(o.script) then [OutputRecord(tx.txhash, blockHeight, k, o)] else []
    {
      hide CompactSize, Pow256;
      OutputAt(tx.hex, offset0, o);
      OutputStepIff(tx.hex, offset0, o);
      offset := offset0;
      var amount := tx.hex[offset..offset + 8];
      offset := offset + 8;
      if tx.hex[offset] == 0x19 && tx.hex[offset + 1] == 0x76 {
        var key := tx.hex[offset + 4..offset + 24];
        SliceOfSlice(tx.hex, offset + 1, offset + 26, 3, 23);
        vout := vout + [tx.txhash + amount + LittleEndian(blockHeight, 4) + key + LittleEndian(k, 4)];
      }
      var length: nat := tx.hex[offset];
      offset := offset + 1 + length;
    }

    /** getTxOutputs. */
    method GetTxOutputs(tx: TxData, offset0: nat, blockHeight: nat, ghost outs: seq<Output>) returns (offset: nat)
      requires ValidOutputs(outs) && ShortScripts(outs) && At(tx.hex, offset0, CompactSize(|outs|) + WireOutputs(outs))
      modifies this`vout, this`txOutputs
      ensures offset == offset0 + |CompactSize(|outs|) + WireOutputs(outs)|
      ensures vout == old(vout) + OutputRecords(tx.txhash, blockHeight, 0, outs) && txOutputs == old(txOutputs) + |outs|
    {
      hide CompactSize, Pow256, At, OutputRecord, Pays;
      AtSplit(tx.hex, offset0, CompactSize(|outs|), WireOutputs(outs));
      var voutSize;
      offset, voutSize := GetRealSizeFromCompactSize(tx.hex, offset0, |outs|);
      txOutputs := txOutputs + voutSize;
      for k := 0 to voutSize
        invariant txOutputs == old(txOutputs) + |outs|
        invariant At(tx.hex, offset, WireOutputs(outs[k..]))
        invariant offset + |WireOutputs(outs[k..])| == offset0 + |CompactSize(|outs|) + WireOutputs(outs)|
        invariant vout + OutputRecords(tx.txhash, blockHeight, k, outs[k..]) ==
                  old(vout) + OutputRecords(tx.txhash, blockHeight, 0, outs)
      {
        assert outs[k..][1..] == outs[k + 1..];
        AtSplit(tx.hex, offset, outs[k].Wire(), WireOutputs(outs[k + 1..]));
        offset := GetTxOutput(tx, offset, blockHeight, k, outs[k]);
      }
    }

    /** The reducer on one legacy transaction: everything before the lock time is consumed. */
    method ReduceLegacy(tx: TxData, blockHeight: nat, ghost version: Bytes, ghost ins: seq<Input>,
                        ghost outs: seq<Output>,
                        ghost lockTime: Bytes)
      returns (offset: nat)
      requires ValidInputs(ins) && ValidOutputs(outs) && ShortScripts(outs)
      requires |version| == 4 == |lockTime| && tx.hex == Legacy(version, ins, outs, lockTime)
      requires ins != [] || outs == []
      modifies this`vin, this`vout, this`txInputs, this`txOutputs
      ensures offset <= |tx.hex| && tx.hex[offset..] == lockTime
      ensures vin == old(vin) + InputRecords(h, ins)
      ensures vout == old(vout) + OutputRecords(tx.txhash, blockHeight, 0, outs)
    {
      hide CompactSize, Pow256, WireInputs, WireOutputs, InputRecords, OutputRecords, At;
      ghost var a, b := CompactSize(|ins|) + WireInputs(ins), CompactSize(|outs|) + WireOutputs(outs);
      Layout(tx.hex, version, a, b, lockTime);
      TakenForSegWitIff(version, ins, outs, lockTime);
      offset := 4;
      if tx.hex[offset] == 0 && tx.hex[offset + 1] != 0 {
        assert false;
      }
      offset := GetTxInputs(tx, offset, ins);
      offset := GetTxOutputs(tx, offset, blockHeight, outs);
    }
  }

  lemma Layout(hex: Bytes, version: Bytes, a: Bytes, b: Bytes, lockTime: Bytes)
    requires |version| == 4 && hex == version + (a + (b + lockTime))
    ensures At(hex, 4, a) && At(hex, 4 + |a|, b)
    ensures 4 + |a| + |b| <= |hex| && hex[4 + |a| + |b|..] == lockTime
  {
    assert At(hex, 0, version + (a + (b + lockTime)));
    AtSplit(hex, 0, version, a + (b + lockTime));
    AtSplit(hex, 4, a, b + lockTime);
    AtSplit(hex, 4 + |a|, b, lockTime);
  }

  lemma WireIs(i: Input)
    requires i.Valid()
    ensures i.Wire() == i.prevTxHash + (i.position + (CompactSize(|i.script|) + (i.script + i.sequence)))
    ensures |i.Wire()| == 36 + |CompactSize(|i.script|)| + |i.script| + 4
  {
  }

  /** The length, the script and what follows it. */
  lemma ScriptAt(hex: Bytes, offset: nat, size: Bytes, script: Bytes, sequence: Bytes)
    requires At(hex, offset, size + (script + sequence)) && |sequence| == 4
    ensures At(hex, offset, size) && At(hex, offset + |size|, script)
    ensures offset + |size| + |script| + 4 <= |hex| && (script != [] ==> hex[offset + |size|] == script[0])
  {
    AtSplit(hex, offset, size, script + sequence);
    AtSplit(hex, offset + |size|, script, sequence);
    if script != [] {
      AtByte(hex, offset + |size|, script);
    }
  }

  lemma InputAt(hex: Bytes, offset: nat, i: Input)
    requires i.Valid() && At(hex, offset, i.Wire())
    ensures offset + |i.Wire()| <= |hex|
    ensures hex[offset..offset + 32] == i.prevTxHash && hex[offset + 32..offset + 36] == i.position
    ensures At(hex, offset + 36, CompactSize(|i.script|))
    ensures var start := offset + 36 + |CompactSize(|i.script|)|;
      && start + |i.script| + 4 == offset + |i.Wire()| <= |hex|
      && At(hex, start, i.script) && (i.script != [] ==> hex[start] == i.script[0])
  {
    hide CompactSize, Pow256, Input.Wire;
    WireIs(i);
    var tail := CompactSize(|i.script|) + (i.script + i.sequence);
    AtSplit(hex, offset, i.prevTxHash, i.position + tail);
    AtSplit(hex, offset + 32, i.position, tail);
    ScriptAt(hex, offset + 36, CompactSize(|i.script|), i.script, i.sequence);
  }

  lemma OutputAt(hex: Bytes, offset: nat, o: Output)
    requires o.Valid() && At(hex, offset, o.Wire())
    ensures offset + 8 < offset + |o.Wire()| <= |hex|
    ensures |o.Wire()| == 8 + |CompactSize(|o.script|)| + |o.script|
    ensures hex[offset..offset + 8] == o.amount && hex[offset + 8] == CompactSize(|o.script|)[0]
    ensures hex[offset + 8] == 25 <==> |o.script| == 25
    ensures |o.script| == 25 ==>
      offset + 34 <= |hex| && hex[offset + 9..offset + 34] == o.script && hex[offset + 9] == o.script[0]
  {
    hide Pow256;
    var size := CompactSize(|o.script|);
    AtSplit(hex, offset, o.amount, size + o.script);
    AtSplit(hex, offset + 8, size, o.script);
    AtByte(hex, offset + 8, size);
    if |o.script| == 25 {
      AtByte(hex, offset + 9, o.script);
    }
  }

  /** The public key is the end of the script. */
  lemma KeyAt(hex: Bytes, offset: nat, script: Bytes, size: nat)
    requires At(hex, offset, script) && script != [] && |script| == script[0] + 2 + size
    ensures var start := offset + 2 + script[0];
      start + size <= |hex| && hex[start..start + size] == script[2 + script[0]..]
  {
    assert script == script[..2 + script[0]] + script[2 + script[0]..];
    AtSplit(hex, offset, script[..2 + script[0]], script[2 + script[0]..]);
  }

  /** Going on by the first byte of the length lands on the end of the output exactly when the script is shorter than 253
      bytes, and inside the script otherwise. */
  lemma OutputStepIff(hex: Bytes, offset: nat, o: Output)
    requires o.Valid() && At(hex, offset, o.Wire())
    ensures offset + 8 < |hex|
    ensures offset + 9 + hex[offset + 8] == offset + |o.Wire()| <==> o.Short()
    ensures offset + 9 + hex[offset + 8] <= offset + |o.Wire()|
  {
    OutputAt(hex, offset, o);
    Pow256Values();
  }

  /** A legacy transaction is taken for a segregated-witness one, whose marker is a zero and whose flag is not, exactly when
      it has outputs but no inputs. */
  lemma TakenForSegWitIff(version: Bytes, ins: seq<Input>, outs: seq<Output>, lockTime: Bytes)
    requires |version| == 4 && ValidInputs(ins) && ValidOutputs(outs) && lockTime != []
    ensures var hex := Legacy(version, ins, outs, lockTime);
      |hex| > 5 && (hex[4] == 0 && hex[5] != 0 <==> ins == [] && outs != [])
  {
    hide Pow256;
    var hex := Legacy(version, ins, outs, lockTime);
    assert hex[4] == CompactSize(|ins|)[0];
    if ins == [] {
      assert hex[5] == CompactSize(|outs|)[0];
    }
  }

  // ----- What the records say -----

  /** The bytes of a length prefix. */
  lemma CompactSizeIs(n: nat)
    requires n < Pow256(8)
    ensures n < 253 ==> CompactSize(n) == [n]
    ensures 253 <= n < 0x1_0000 ==> CompactSize(n) == [0xfd, n % 256, n / 256]
    ensures 0x1_0000 <= n < 0x1_0000_0000 ==> CompactSize(n) == [0xfe] + LittleEndian(n, 4)
    ensures 0x1_0000_0000 <= n ==> CompactSize(n) == [0xff] + LittleEndian(n, 8)
  {
    hide Pow256, LittleEndian;
    Pow256Values();
    if 253 <= n < 0x1_0000 {
      LittleEndianStep(n, 1);
      LittleEndianStep(n / 256, 0);
    }
  }

  /** The record of an input: the output it names by transaction and index, no amount and no height, and the hash of the
      key it shows. */
  lemma InputRecordIs(h: Hashes, i: Input)
    requires i.Valid() && Spends(i.script)
    ensures var r := InputRecord(h, i);
      && |r| == 68 && r[..32] == i.prevTxHash && r[64..68] == i.position
      && (forall k :: 32 <= k < 44 ==> r[k] == 0)
      && r[44..64] == h.KeyHash(i.script[2 + i.script[0]..])
      && r[44..64] == Ripemd160.Digest(h.transform, h.sha256(i.script[2 + i.script[0]..]))
  {
    hide Ripemd160.Digest;
    KeyHashSize(h, i.script[2 + i.script[0]..]);
  }

  lemma KeyHashSize(h: Hashes, key: Bytes)
    ensures |h.KeyHash(key)| == 20
  {
  }

  /** The record of an output: its transaction, amount, height, key hash and index. */
  lemma OutputRecordIs(txHash: Bytes, blockHeight: nat, k: nat, o: Output)
    requires |txHash| == 32 && o.Valid() && Pays(o.script)
    ensures var r := OutputRecord(txHash, blockHeight, k, o);
      && |r| == 68 && r[..32] == txHash && r[32..40] == o.amount && r[40..44] == LittleEndian(blockHeight, 4)
      && r[44..64] == o.script[3..23] && r[64..68] == LittleEndian(k, 4)
  {
    hide LittleEndian;
  }

  /** A standard payment to the hash of a key: duplicate, hash, push the 20 bytes, compare, check. */
  function PayToKeyHash(hash: Bytes): Bytes {
    [0x76, 0xa9, 0x14] + hash + [0x88, 0xac]
  }

  /** A signature and a key, each pushed by its length. */
  function SignatureAndKey(signature: Bytes, key: Bytes): Bytes
    requires |signature| <= 75 && |key| <= 75
  {
    [|signature|] + signature + [|key|] + key
  }

  /** Payments to key hashes, and inputs that show a signature and a compressed or uncompressed key, are recorded under the
      hash of the key. */
  lemma StandardScripts(h: Hashes, hash: Bytes, signature: Bytes, key: Bytes)
    requires |hash| == 20 && |signature| <= 75 && (|key| == 33 || |key| == 65)
    ensures Pays(PayToKeyHash(hash)) && PayToKeyHash(hash)[3..23] == hash
    ensures var script := SignatureAndKey(signature, key);
      Spends(script) && script[2 + script[0]..] == key
  {
    var script := SignatureAndKey(signature, key);
    assert script == ([|signature|] + signature + [|key|]) + key;
  }

  /** Which records the outputs from number k on leave: one for each payment, in order, with its own index. */
  lemma {:induction false} OutputRecordsSplit(txHash: Bytes, blockHeight: nat, k: nat, a: seq<Output>, b: seq<Output>)
    requires forall i :: 0 <= i < |a| ==> a[i].Valid()
    requires forall i :: 0 <= i < |b| ==> b[i].Valid()
    ensures OutputRecords(txHash, blockHeight, k, a + b) ==
            OutputRecords(txHash, blockHeight, k, a) + OutputRecords(txHash, blockHeight, k + |a|, b)
    decreases |a|
  {
    hide OutputRecord, Pays;
    if a == [] {
      assert a + b == b;
    } else {
      OutputRecordsSplit(txHash, blockHeight, k + 1, a[1..], b);
      assert (a + b)[1..] == a[1..] + b && (a + b)[0] == a[0];
      var first := if Pays(a[0].script) then [OutputRecord(txHash, blockHeight, k, a[0])] else [];
      var others, rest := OutputRecords(txHash, blockHeight, k + 1, a[1..]), OutputRecords(txHash, blockHeight, k + |a|, b);
      assert first + (others + rest) == (first + others) + rest;
    }
  }

  lemma {:induction false} InputRecordsSplit(h: Hashes, a: seq<Input>, b: seq<Input>)
    requires forall i :: 0 <= i < |a| ==> a[i].Valid()
    requires forall i :: 0 <= i < |b| ==> b[i].Valid()
    ensures InputRecords(h, a + b) == InputRecords(h, a) + InputRecords(h, b)
  {
    hide InputRecord, Spends;
    if a == [] {
      assert a + b == b;
    } else {
      InputRecordsSplit(h, a[1..], b);
      assert (a + b)[1..] == a[1..] + b && (a + b)[0] == a[0];
      var first := if Spends(a[0].script) then [InputRecord(h, a[0])] else [];
      assert first + (InputRecords(h, a[1..]) + InputRecords(h, b)) == (first + InputRecords(h, a[1..])) + InputRecords(h, b);
    }
  }

  lemma OneRecord(h: Hashes, txHash: Bytes, blockHeight: nat, k: nat, i: Input, o: Output)
    requires i.Valid() && o.Valid()
    ensures OutputRecords(txHash, blockHeight, k, [o]) == if Pays(o.script) then [OutputRecord(txHash, blockHeight, k, o)] else []
    ensures InputRecords(h, [i]) == if Spends(i.script) then [InputRecord(h, i)] else []
  {
    assert [o][1..] == [] && [i][1..] == [];
  }

  lemma {:induction false} RecordsHave68Bytes(h: Hashes, ins: seq<Input>, txHash: Bytes, blockHeight: nat, k: nat,
                                              outs: seq<Output>)
    requires ValidInputs(ins) && ValidOutputs(outs) && |txHash| == 32
    ensures forall r :: r in InputRecords(h, ins) ==> |r| == 68
    ensures forall r :: r in OutputRecords(txHash, blockHeight, k, outs) ==> |r| == 68
    decreases |ins| + |outs|
  {
    if ins != [] {
      RecordsHave68Bytes(h, ins[1..], txHash, blockHeight, k, outs);
    } else if outs != [] {
      RecordsHave68Bytes(h, ins, txHash, blockHeight, k + 1, outs[1..]);
    }
  }
}
