/** The chainstate codecs: base-128 variable integers, compressed amounts, and the coins made of them.  Hexadecimal strings
    are modelled as the byte strings they denote, division as that of Python 2. */
module Chainstate {

  import opened ByteStrings
  import opened Options

  // ----- Base 128 -----

  /** The digits of n, most significant first; every digit but the last carries the continuation bit `flag` stands for. */
  function Digits(n: nat, flag: nat): (s: seq<Byte>)
    requires flag == 0 || flag == 128
    ensures |s| >= 1
  {
    if n <= 127 then [n + flag] else Digits(n / 128 - 1, 128) + [n % 128 + flag]
  }

  function Encoded(n: nat): (s: seq<Byte>)
    ensures |s| >= 1
  {
    Digits(n, 0)
  }

  /** b128_decode continued from the value acc; None where it runs off the end of the data. */
  function DecodedFrom(acc: nat, data: seq<Byte>): Option<nat>
    decreases |data|
  {
    if data == [] then None
    else
      var n := acc * 128 + data[0] % 128;
      if data[0] >= 128 then DecodedFrom(n + 1, data[1..]) else Some(n)
  }

  function Decoded(data: seq<Byte>): Option<nat> {
    DecodedFrom(0, data)
  }

  /** The position after the first byte without a continuation bit. */
  function Extent(data: seq<Byte>): (e: Option<nat>)
    ensures e.Some? ==> 1 <= e.value <= |data|
  {
    if data == [] then None
    else if data[0] < 128 then Some(1)
    else match Extent(data[1..])
      case None => None
      case Some(e) => Some(e + 1)
  }

  /** All bytes but the last, and only those, carry the continuation bit. */
  ghost predicate WellFormed(s: seq<Byte>) {
    s != [] && s[|s| - 1] < 128 && forall i :: 0 <= i < |s| - 1 ==> s[i] >= 128
  }

  lemma {:induction false} DigitsContinue(n: nat, flag: nat)
    requires flag == 0 || flag == 128
    ensures var s := Digits(n, flag);
      (forall i :: 0 <= i < |s| - 1 ==> s[i] >= 128) && (s[|s| - 1] >= 128 <==> flag == 128)
    decreases n
  {
    if n > 127 {
      DigitsContinue(n / 128 - 1, 128);
    }
  }

  lemma EncodedWellFormed(n: nat)
    ensures WellFormed(Encoded(n))
  {
    DigitsContinue(n, 0);
  }

  /** One byte below 128; a larger number is the encoding of one less than its quotient by 128, with the continuation bit
      set in its last byte too, and the remainder. */
  lemma EncodedIs(n: nat)
    ensures n <= 127 ==> Encoded(n) == [n]
    ensures n > 127 ==> Encoded(n) == Continued(Encoded(n / 128 - 1)) + [n % 128]
  {
    if n > 127 {
      DigitsContinued(n / 128 - 1);
    }
  }

  /** The string with the continuation bit of its last byte set. */
  function Continued(s: seq<Byte>): seq<Byte>
    requires s != [] && s[|s| - 1] < 128
  {
    s[|s| - 1 := s[|s| - 1] + 128]
  }

  lemma DigitsContinued(n: nat)
    ensures Encoded(n)[|Encoded(n)| - 1] < 128 && Digits(n, 128) == Continued(Encoded(n))
  {
    DigitsContinue(n, 0);
  }

  /** Decoding the leading digits of n leaves n + 1 in the accumulator. */
  lemma {:induction false} DigitsDecoded(n: nat, rest: seq<Byte>)
    ensures DecodedFrom(0, Digits(n, 128) + rest) == DecodedFrom(n + 1, rest)
    decreases n
  {
    if n <= 127 {
      assert ([n + 128] + rest)[1..] == rest;
    } else {
      var m, last: Byte := n / 128 - 1, n % 128 + 128;
      DigitsDecoded(m, [last] + rest);
      assert Digits(n, 128) + rest == Digits(m, 128) + ([last] + rest);
      assert ([last] + rest)[1..] == rest;
    }
  }

  /** Decoding inverts encoding, whatever follows. */
  lemma DecodedEncoded(n: nat, rest: seq<Byte>)
    ensures Decoded(Encoded(n) + rest) == Some(n)
  {
    if n > 127 {
      var m, last: Byte := n / 128 - 1, n % 128;
      DigitsDecoded(m, [last] + rest);
      assert Encoded(n) + rest == Digits(m, 128) + ([last] + rest);
    }
  }

  lemma {:induction false} ExtentIs(s: seq<Byte>, rest: seq<Byte>)
    requires WellFormed(s)
    ensures Extent(s + rest) == Some(|s|)
  {
    hide WellFormed;
    FirstDigit(s, []);
    if |s| > 1 {
      assert (s + rest)[1..] == s[1..] + rest;
      ExtentIs(s[1..], rest);
    }
  }

  /** What Extent marks off is well formed. */
  lemma {:induction false} ExtentWellFormed(data: seq<Byte>)
    requires Extent(data).Some?
    ensures WellFormed(data[..Extent(data).value])
  {
    if data[0] >= 128 {
      ExtentWellFormed(data[1..]);
      var e := Extent(data[1..]).value;
      assert data[..e + 1] == [data[0]] + data[1..][..e];
    }
  }

  /** Continuing from acc + 1 the digits of acc are the ones in front. */
  lemma {:induction false} EncodedDecodedFrom(acc: nat, s: seq<Byte>)
    requires WellFormed(s) && s != []
    ensures DecodedFrom(acc + 1, s).Some?
    ensures Encoded(DecodedFrom(acc + 1, s).value) == Digits(acc, 128) + s
    decreases |s|
  {
    hide DecodedFrom, Digits, WellFormed;
    var n := (acc + 1) * 128 + s[0] % 128;
    DigitBehind(acc, s);
    FirstDigit(s, Digits(acc, 128));
    if |s| > 1 {
      EncodedDecodedFrom(n, s[1..]);
    }
  }

  /** Every digit but the last carries the continuation bit. */
  lemma FirstDigit(s: seq<Byte>, front: seq<Byte>)
    requires WellFormed(s)
    ensures s != [] && (s[0] >= 128 <==> |s| > 1) && (|s| > 1 ==> WellFormed(s[1..]))
    ensures front + s == front + [s[0]] + s[1..] && (|s| == 1 ==> front + s == front + [s[0]])
  {
    assert forall i :: 0 <= i < |s[1..]| ==> s[1..][i] == s[i + 1];
  }

  /** One digit more: what is decoded, and how the value is encoded. */
  lemma DigitBehind(acc: nat, s: seq<Byte>)
    requires s != []
    ensures var n := (acc + 1) * 128 + s[0] % 128;
      if s[0] >= 128
      then DecodedFrom(acc + 1, s) == DecodedFrom(n + 1, s[1..]) && Digits(n, 128) == Digits(acc, 128) + [s[0]]
      else DecodedFrom(acc + 1, s) == Some(n) && Encoded(n) == Digits(acc, 128) + [s[0]]
  {
    var n := (acc + 1) * 128 + s[0] % 128;
    assert n / 128 - 1 == acc && n % 128 == s[0] % 128;
  }

  /** Encoding inverts decoding on well-formed byte strings: base 128 is a bijection. */
  lemma EncodedDecoded(s: seq<Byte>)
    requires WellFormed(s)
    ensures Decoded(s).Some? && Encoded(Decoded(s).value) == s
  {
    if |s| == 1 {
      assert s == [s[0]];
    } else {
      hide DecodedFrom, Digits;
      assert forall i :: 0 <= i < |s[1..]| ==> s[1..][i] == s[i + 1];
      var first: nat := s[0] % 128;
      EncodedDecodedFrom(first, s[1..]);
      assert Decoded(s) == DecodedFrom(first + 1, s[1..]);
      assert Digits(first, 128) == [s[0]];
    }
  }

  /** No encoding is a prefix of another one. */
  lemma PrefixFree(m: nat, n: nat, rest: seq<Byte>)
    requires Encoded(m) == Encoded(n) + rest
    ensures m == n && rest == []
  {
    DecodedEncoded(m, []);
    DecodedEncoded(n, rest);
    assert Encoded(m) + [] == Encoded(m);
    EncodedWellFormed(m);
    EncodedWellFormed(n);
    ExtentIs(Encoded(m), []);
    ExtentIs(Encoded(n), rest);
  }

  /** b128_encode: the digits are collected from the last to the first and then reversed. */
  method B128Encode(n0: nat) returns (data: seq<Byte>)
    ensures data == Encoded(n0)
  {
    var l, n := 0, n0;
    var tmp: seq<Byte> := [];
    while n > 127
      invariant l == |tmp|
      invariant Encoded(n0) == Digits(n, if l == 0 then 0 else 128) + Reversed(tmp)
      decreases n
    {
      var flag := if l != 0 then 128 else 0;
      assert Reversed(tmp + [n % 128 + flag]) == [n % 128 + flag] + Reversed(tmp);
      tmp := tmp + [n % 128 + flag];
      n := n / 128 - 1;
      l := l + 1;
    }
    tmp := tmp + [n % 128 + if l != 0 then 128 else 0];
    data := Reversed(tmp);
  }

  /** b128_decode. */
  method B128Decode(data: seq<Byte>) returns (r: Option<nat>)
    ensures r == Decoded(data)
  {
    var n: nat, i: nat := 0, 0;
    while i < |data|
      invariant i <= |data| && Decoded(data) == DecodedFrom(n, data[i..])
    {
      assert data[i..][1..] == data[i + 1..];
      var d: nat := data[i];
      n := n * 128 + d % 128;
      if d >= 128 {
        n := n + 1;
        i := i + 1;
      } else {
        return Some(n);
      }
    }
    return None;
  }

  /** parse_b128: the varint at the offset, and the offset after it. */
  method ParseB128(utxo: seq<Byte>, offset: nat) returns (r: Option<(seq<Byte>, nat)>)
    requires offset <= |utxo|
    ensures r.Some? <==> Extent(utxo[offset..]).Some?
    ensures r.Some? ==> r.value.1 == offset + Extent(utxo[offset..]).value <= |utxo| && r.value.0 == utxo[offset..r.value.1]
  {
    if offset == |utxo| {
      return None;
    }
    var data, pos := utxo[offset..offset + 1], offset + 1;
    var moreBytes := utxo[offset] >= 128;
    while moreBytes
      invariant offset < pos <= |utxo| && data == utxo[offset..pos]
      invariant if moreBytes then Extent(utxo[offset..]) == Shifted(Extent(utxo[pos..]), pos - offset)
                else Extent(utxo[offset..]) == Some(pos - offset)
      decreases |utxo| - pos, moreBytes
    {
      if pos == |utxo| {
        return None;
      }
      assert utxo[pos..][1..] == utxo[pos + 1..];
      data := data + [utxo[pos]];
      moreBytes := utxo[pos] >= 128;
      pos := pos + 1;
    }
    return Some((data, pos));
  }

  function Shifted(e: Option<nat>, k: nat): Option<nat> {
    match e
    case None => None
    case Some(n) => Some(n + k)
  }

  // ----- Amounts -----

  /** n multiplied by ten e times. */
  function Tenfold(n: nat, e: nat): (r: nat)
    ensures r >= n
  {
    if e == 0 then n else 10 * Tenfold(n, e - 1)
  }

  lemma {:induction false} TenfoldStep(n: nat, e: nat)
    ensures Tenfold(n, 0) == n
    ensures Tenfold(10 * n, e) == Tenfold(n, e + 1) == 10 * Tenfold(n, e)
  {
    if e > 0 {
      TenfoldStep(n, e - 1);
    }
  }

  /** Removing trailing decimal zeros, at most nine in all. */
  function Stripped(n: nat, e: nat): (r: (nat, nat))
    requires e <= 9
    ensures r.1 <= 9
    decreases 9 - e
  {
    if n % 10 == 0 && e < 9 then Stripped(n / 10, e + 1) else (n, e)
  }

  /** txout_compress. */
  method TxoutCompress(n0: nat) returns (x: nat)
    ensures x == Compressed(n0)
  {
    var n := n0;
    if n == 0 {
      return 0;
    }
    var e := 0;
    while n % 10 == 0 && e < 9
      invariant e <= 9 && Stripped(n0, 0) == Stripped(n, e)
      decreases 9 - e
    {
      n := n / 10;
      e := e + 1;
    }
    StrippedIs(n0, 0);
    if e < 9 {
      var d := n % 10;
      assert 1 <= d <= 9;
      n := n / 10;
      return 1 + (n * 9 + d - 1) * 10 + e;
    } else {
      return 1 + (n - 1) * 10 + 9;
    }
  }

  function Compressed(n: nat): (x: nat)
    ensures n == 0 <==> x == 0
  {
    if n == 0 then 0
    else
      var (m, e) := Stripped(n, 0);
      StrippedIs(n, 0);
      if e < 9 then 1 + (m / 10 * 9 + m % 10 - 1) * 10 + e else 1 + (m - 1) * 10 + 9
  }

  /** txout_decompress. */
  method TxoutDecompress(x0: nat) returns (n: nat)
    ensures n == Decompressed(x0)
  {
    var x := x0;
    if x == 0 {
      return 0;
    }
    x := x - 1;
    var e := x % 10;
    x := x / 10;
    if e < 9 {
      var d := x % 9 + 1;
      x := x / 9;
      n := x * 10 + d;
    } else {
      n := x + 1;
    }
    ghost var m, e0 := n, e;
    while e > 0
      invariant Tenfold(n, e) == Tenfold(m, e0)
    {
      TenfoldStep(n, e - 1);
      n := n * 10;
      e := e - 1;
    }
  }

  /** The significant part of a compressed amount. */
  function Mantissa(x: nat): nat
    requires x > 0
  {
    var y := (x - 1) / 10;
    if (x - 1) % 10 < 9 then y / 9 * 10 + y % 9 + 1 else y + 1
  }

  function Decompressed(x: nat): nat {
    if x == 0 then 0 else Tenfold(Mantissa(x), (x - 1) % 10)
  }

  lemma StrippedOnce(n: nat, e: nat)
    requires e < 9
    ensures Stripped(10 * n, e) == Stripped(n, e + 1)
  {
  }

  lemma {:induction false} StrippedIs(n: nat, e: nat)
    requires e <= 9 && n > 0
    ensures var (m, f) := Stripped(n, e);
      m > 0 && e <= f <= 9 && n == Tenfold(m, f - e) && (f < 9 ==> m % 10 != 0)
    decreases 9 - e
  {
    if n % 10 == 0 && e < 9 {
      StrippedIs(n / 10, e + 1);
      var (m, f) := Stripped(n / 10, e + 1);
      TenfoldStep(m, f - e - 1);
    }
  }

  lemma {:induction false} StrippedTenfold(m: nat, e: nat, f: nat)
    requires m > 0 && e <= f <= 9 && (f < 9 ==> m % 10 != 0)
    ensures Stripped(Tenfold(m, f - e), e) == (m, f)
    decreases f - e
  {
    if e < f {
      StrippedTenfold(m, e + 1, f);
      TenfoldStep(m, f - e - 1);
      StrippedOnce(Tenfold(m, f - e - 1), e);
    }
  }

  /** Decompressing inverts compressing. */
  lemma {:induction false} DecompressedCompressed(n: nat)
    ensures Decompressed(Compressed(n)) == n
  {
    if n > 0 {
      StrippedIs(n, 0);
      var (m, e) := Stripped(n, 0);
      var x := Compressed(n);
      if e < 9 {
        assert (x - 1) / 10 == m / 10 * 9 + (m % 10 - 1) && (x - 1) % 10 == e;
      } else {
        assert (x - 1) / 10 == m - 1 && (x - 1) % 10 == 9;
      }
      assert Mantissa(x) == m;
    }
  }

  /** Compressing inverts decompressing, on every natural number. */
  lemma {:induction false} CompressedDecompressed(x: nat)
    ensures Compressed(Decompressed(x)) == x
  {
    if x > 0 {
      var m, e := Mantissa(x), (x - 1) % 10;
      StrippedTenfold(m, 0, e);
      var y := (x - 1) / 10;
      if e < 9 {
        assert m / 10 == y / 9 && m % 10 == y % 9 + 1;
      }
      assert x == 1 + y * 10 + e;
    }
  }

  /** The amount (10q + d) * 10^e, with e below nine and a last significant digit d, is compressed to 10(9q + d - 1) + e + 1,
      and q * 10^9 to 10q. */
  lemma CompressedIs(q: nat, d: nat, e: nat)
    requires 1 <= d <= 9 && e < 9
    ensures Compressed(Tenfold(10 * q + d, e)) == 10 * (9 * q + d - 1) + e + 1
  {
    hide Stripped, Tenfold;
    StrippedTenfold(10 * q + d, 0, e);
    assert Tenfold(10 * q + d, e) > 0;
  }

  lemma CompressedLarge(q: nat)
    requires q > 0
    ensures Compressed(Tenfold(q, 9)) == 10 * q
  {
    hide Stripped, Tenfold;
    StrippedTenfold(q, 0, 9);
    assert Tenfold(q, 9) > 0;
  }

  // ----- Coins -----

  const NSPECIALSCRIPTS: nat := 6

  datatype Coin = Coin(height: nat, coinbase: bool, amount: nat, outType: nat, script: seq<Byte>) {
    /** The script has the length its type calls for, and for types 2 to 5 starts with the type itself. */
    predicate Valid() {
      if outType <= 1 then |script| == 20
      else if outType <= 5 then |script| == 33 && script[0] == outType
      else |script| == outType - NSPECIALSCRIPTS
    }

    function Code(): nat {
      2 * height + if coinbase then 1 else 0
    }

    /** The coin as the node stores it. */
    function Serialized(): seq<Byte> {
      Encoded(Code()) + Encoded(Compressed(amount)) + if 2 <= outType <= 5 then script else Encoded(outType) + script
    }
  }

  datatype Utxo = Utxo(txId: seq<Byte>, index: nat, coin: Coin)

  lemma TokenDecodes(data: seq<Byte>)
    requires Extent(data).Some?
    ensures Decoded(data[..Extent(data).value]).Some?
  {
    ExtentWellFormed(data);
    EncodedDecoded(data[..Extent(data).value]);
  }

  /** The varint at the front of the data, and its length. */
  function Token(data: seq<Byte>): (t: Option<(nat, nat)>)
    ensures t.Some? ==> 1 <= t.value.1 <= |data|
  {
    match Extent(data)
    case None => None
    case Some(e) =>
      TokenDecodes(data);
      Some((Decoded(data[..e]).value, e))
  }

  lemma TokenEncoded(n: nat, rest: seq<Byte>)
    ensures Token(Encoded(n) + rest) == Some((n, |Encoded(n)|))
    ensures (Encoded(n) + rest)[|Encoded(n)|..] == rest
  {
    EncodedWellFormed(n);
    ExtentIs(Encoded(n), rest);
    DecodedEncoded(n, []);
    assert (Encoded(n) + rest)[..|Encoded(n)|] == Encoded(n) + [];
  }

  lemma TokenIs(data: seq<Byte>)
    requires Token(data).Some?
    ensures data[..Token(data).value.1] == Encoded(Token(data).value.0)
  {
    ExtentWellFormed(data);
    EncodedDecoded(data[..Extent(data).value]);
  }

  function ScriptSize(outType: nat): nat {
    if outType <= 1 then 20 else if outType <= 5 then 33 else outType - NSPECIALSCRIPTS
  }

  /** What is made of the script: for types 2 to 5 the byte of the type belongs to it. */
  function ScriptOf(height: nat, coinbase: bool, amount: nat, outType: nat, coin: seq<Byte>, offset: nat): Option<Coin>
    requires 1 <= offset <= |coin|
  {
    var script := coin[if 2 <= outType <= 5 then offset - 1 else offset..];
    if |script| == ScriptSize(outType) then Some(Coin(height, coinbase, amount, outType, script)) else None
  }

  function DecodedCoin(coin: seq<Byte>): Option<Coin> {
    match Token(coin)
    case None => None
    case Some((code, a)) =>
      match Token(coin[a..])
      case None => None
      case Some((value, b)) =>
        match Token(coin[a + b..])
        case None => None
        case Some((outType, c)) => ScriptOf(code / 2, code % 2 == 1, Decompressed(value), outType, coin, a + b + c)
  }

  /** Every coin the node can store is decoded to exactly its fields. */
  lemma CoinRoundTrip(c: Coin)
    requires c.Valid()
    ensures DecodedCoin(c.Serialized()) == Some(c)
  {
    hide Encoded, Compressed, Decompressed, Token, ScriptOf;
    var code, value, outType := Encoded(c.Code()), Encoded(Compressed(c.amount)), Encoded(c.outType);
    var tail := if 2 <= c.outType <= 5 then c.script[1..] else c.script;
    SmallType(c.outType);
    assert 2 <= c.outType <= 5 ==> c.script == outType + tail;
    SerializedIs(c, tail);
    Layout(code, value, outType + tail);
    TokenEncoded(c.Code(), value + (outType + tail));
    TokenEncoded(Compressed(c.amount), outType + tail);
    TokenEncoded(c.outType, tail);
    DecompressedCompressed(c.amount);
    ScriptFound(c, code + value, outType, tail);
  }

  /** What is stored for a coin of each kind, byte by byte, and that it is decoded to the coin: a script of its own takes its
      length plus six as type, a 20-byte hash the type 0 or 1, and a public key starts with its type, 2 to 5. */
  lemma UncompressedCoin(height: nat, coinbase: bool, amount: nat, script: seq<Byte>)
    ensures DecodedCoin(Encoded(2 * height + if coinbase then 1 else 0) + Encoded(Compressed(amount))
                        + (Encoded(|script| + 6) + script))
            == Some(Coin(height, coinbase, amount, |script| + 6, script))
  {
    hide DecodedCoin, Compressed, Encoded;
    CoinRoundTrip(Coin(height, coinbase, amount, |script| + 6, script));
  }

  lemma HashCoin(height: nat, coinbase: bool, amount: nat, outType: Byte, hash: seq<Byte>)
    requires outType <= 1 && |hash| == 20
    ensures DecodedCoin(Encoded(2 * height + if coinbase then 1 else 0) + Encoded(Compressed(amount)) + ([outType] + hash))
            == Some(Coin(height, coinbase, amount, outType, hash))
  {
    hide DecodedCoin, Compressed, Encoded;
    SmallType(outType);
    CoinRoundTrip(Coin(height, coinbase, amount, outType, hash));
  }

  lemma KeyCoin(height: nat, coinbase: bool, amount: nat, outType: Byte, x: seq<Byte>)
    requires 2 <= outType <= 5 && |x| == 32
    ensures DecodedCoin(Encoded(2 * height + if coinbase then 1 else 0) + Encoded(Compressed(amount)) + ([outType] + x))
            == Some(Coin(height, coinbase, amount, outType, [outType] + x))
  {
    hide DecodedCoin, Compressed, Encoded;
    CoinRoundTrip(Coin(height, coinbase, amount, outType, [outType] + x));
  }

  lemma SerializedIs(c: Coin, tail: seq<Byte>)
    requires if 2 <= c.outType <= 5 then c.script == Encoded(c.outType) + tail else c.script == tail
    ensures c.Serialized() == Encoded(c.Code()) + (Encoded(Compressed(c.amount)) + (Encoded(c.outType) + tail))
  {
    hide Encoded, Compressed;
  }

  lemma Layout(a: seq<Byte>, b: seq<Byte>, c: seq<Byte>)
    ensures a + (b + c) == (a + b) + c
    ensures (a + (b + c))[|a|..] == b + c && (a + (b + c))[|a| + |b|..] == c
  {
  }

  /** The script is what follows the type, together with the type's byte where that belongs to it. */
  lemma ScriptFound(c: Coin, front: seq<Byte>, outType: seq<Byte>, tail: seq<Byte>)
    requires c.Valid() && |outType| >= 1
    requires if 2 <= c.outType <= 5 then |outType| == 1 && c.script == outType + tail else c.script == tail
    ensures ScriptOf(c.height, c.coinbase, c.amount, c.outType, front + (outType + tail), |front| + |outType|) == Some(c)
  {
    var coin := front + (outType + tail);
    assert coin[|front|..] == outType + tail;
    assert coin[|front| + |outType|..] == tail;
  }

  /** Small numbers are encoded as themselves. */
  lemma SmallType(n: nat)
    ensures n <= 127 ==> Encoded(n) == [n]
  {
  }

  /** Whatever is accepted is the serialization of the coin returned. */
  lemma DecodedCoinIs(coin: seq<Byte>)
    requires DecodedCoin(coin).Some?
    ensures var c := DecodedCoin(coin).value;
      c.Valid() && c.Serialized() == coin
  {
    hide Encoded, Compressed, Decompressed, Token;
    var c := DecodedCoin(coin).value;
    var (code, i) := Token(coin).value;
    var (value, j) := Token(coin[i..]).value;
    var (outType, k) := Token(coin[i + j..]).value;
    TokenIs(coin);
    TokenIs(coin[i..]);
    TokenIs(coin[i + j..]);
    CompressedDecompressed(value);
    SmallType(outType);
    Pieces(coin, i, j, k);
    assert c.Code() == code;
    SerializedIs(c, coin[i + j + k..]);
  }

  /** A string is its three tokens and the rest; with a last token of one byte, the rest can be taken to start there. */
  lemma Pieces(coin: seq<Byte>, i: nat, j: nat, k: nat)
    requires i + j + k <= |coin|
    ensures coin == coin[..i] + (coin[i..][..j] + (coin[i + j..][..k] + coin[i + j + k..]))
    ensures k >= 1 ==> coin[i + j..] == coin[i + j..][..k] + coin[i + j + k..]
    ensures k == 1 ==> coin[i + j + k - 1..] == coin[i + j..] && coin[i + j] == coin[i + j..][..k][0]
  {
  }

  /** decode_utxo accepts exactly the serializations of coins. */
  lemma DecodedCoinIff(coin: seq<Byte>)
    ensures DecodedCoin(coin).Some? <==> exists c: Coin :: c.Valid() && c.Serialized() == coin
  {
    if DecodedCoin(coin).Some? {
      DecodedCoinIs(coin);
    }
    if c: Coin :| c.Valid() && c.Serialized() == coin {
      CoinRoundTrip(c);
    }
  }

  /** The key of a coin: 'C', the transaction id, and the index of the output. */
  function DecodedUtxo(coin: seq<Byte>, outpoint: seq<Byte>): Option<Utxo> {
    if outpoint == [] || outpoint[0] != 0x43 || |outpoint| < 34 then None
    else
      match Decoded(outpoint[33..])
      case None => None
      case Some(index) =>
        match DecodedCoin(coin)
        case None => None
        case Some(c) => Some(Utxo(outpoint[1..33], index, c))
  }

  /** Accepted are exactly the keys made of 'C', 32 bytes of transaction id and a number, with the serialization of a coin. */
  lemma DecodedUtxoIff(coin: seq<Byte>, outpoint: seq<Byte>)
    ensures DecodedUtxo(coin, outpoint).Some? <==>
      && (exists txId: seq<Byte>, tail: seq<Byte> :: |txId| == 32 && outpoint == [0x43] + txId + tail && Decoded(tail).Some?)
      && (exists c: Coin :: c.Valid() && c.Serialized() == coin)
  {
    DecodedCoinIff(coin);
    if DecodedUtxo(coin, outpoint).Some? {
      assert outpoint == [0x43] + outpoint[1..33] + outpoint[33..];
    }
    if txId: seq<Byte>, tail: seq<Byte> :| |txId| == 32 && outpoint == [0x43] + txId + tail && Decoded(tail).Some? {
      assert outpoint[33..] == tail && tail != [];
    }
  }

  lemma OutpointRoundTrip(txId: seq<Byte>, index: nat, c: Coin)
    requires |txId| == 32 && c.Valid()
    ensures DecodedUtxo(c.Serialized(), [0x43] + txId + Encoded(index)) == Some(Utxo(txId, index, c))
  {
    var outpoint := [0x43] + txId + Encoded(index);
    assert outpoint[33..] == Encoded(index) + [];
    assert outpoint[1..33] == txId;
    DecodedEncoded(index, []);
    CoinRoundTrip(c);
  }

  /** One parse_b128 followed by b128_decode. */
  method ParseNumber(coin: seq<Byte>, offset: nat) returns (r: Option<(nat, nat)>)
    requires offset <= |coin|
    ensures match Token(coin[offset..])
      case None => r == None
      case Some((n, len)) => r == Some((n, offset + len))
  {
    var parsed := ParseB128(coin, offset);
    if parsed.None? {
      return None;
    }
    TokenDecodes(coin[offset..]);
    assert parsed.value.0 == coin[offset..][..Extent(coin[offset..]).value];
    var n := B128Decode(parsed.value.0);
    return Some((n.value, parsed.value.1));
  }

  /** decode_utxo for version 0.15 and later; None stands for a failed assertion or an unparsable number. */
  method DecodeUtxo(coin: seq<Byte>, outpoint: seq<Byte>) returns (r: Option<Utxo>)
    ensures r == DecodedUtxo(coin, outpoint)
  {
    hide Token, Decoded, Decompressed;
    if outpoint == [] || outpoint[0] != 0x43 || |outpoint| < 34 {
      return None;
    }
    var txId := outpoint[1..33];
    var txIndex := B128Decode(outpoint[33..]);
    if txIndex.None? {
      return None;
    }
    assert coin[0..] == coin;
    var code := ParseNumber(coin, 0);
    if code.None? {
      return None;
    }
    var offset := code.value.1;
    var height, coinbase := code.value.0 / 2, code.value.0 % 2 == 1;
    var data := ParseNumber(coin, offset);
    if data.None? {
      return None;
    }
    offset := data.value.1;
    var amount := TxoutDecompress(data.value.0);
    var type_ := ParseNumber(coin, offset);
    if type_.None? {
      return None;
    }
    var outType := type_.value.0;
    offset := type_.value.1;
    var dataSize;
    if outType == 0 || outType == 1 {
      dataSize := 20;
    } else if outType == 2 || outType == 3 || outType == 4 || outType == 5 {
      dataSize := 33;
      offset := offset - 1;
    } else {
      dataSize := outType - NSPECIALSCRIPTS;
    }
    var script := coin[offset..];
    if |script| != dataSize {
      return None;
    }
    return Some(Utxo(txId, txIndex.value, Coin(height, coinbase, amount, outType, script)));
  }
}
