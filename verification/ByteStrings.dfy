/** Byte strings and the numbers they denote. */
module ByteStrings {

  type Byte = b: nat | b < 256

  function Pow256(k: nat): (r: nat)
    ensures r >= 1
  {
    if k == 0 then 1 else 256 * Pow256(k - 1)
  }

  /** The k least significant bytes of n, in little-endian order. */
  function LittleEndian(n: nat, k: nat): (r: seq<Byte>)
    ensures |r| == k
  {
    if k == 0 then [] else [n % 256] + LittleEndian(n / 256, k - 1)
  }

  function FromLittleEndian(s: seq<Byte>): (n: nat)
    ensures n < Pow256(|s|)
  {
    if s == [] then 0 else s[0] + 256 * FromLittleEndian(s[1..])
  }

  function Reversed(s: seq<Byte>): (r: seq<Byte>)
    ensures |r| == |s| && forall i :: 0 <= i < |s| ==> r[i] == s[|s| - 1 - i]
  {
    seq(|s|, i requires 0 <= i < |s| => s[|s| - 1 - i])
  }

  lemma ReversedTwice(s: seq<Byte>)
    ensures Reversed(Reversed(s)) == s
  {
  }

  function BigEndian(n: nat, k: nat): (r: seq<Byte>)
    ensures |r| == k
  {
    Reversed(LittleEndian(n, k))
  }

  function FromBigEndian(s: seq<Byte>): (n: nat)
    ensures n < Pow256(|s|)
  {
    FromLittleEndian(Reversed(s))
  }

  lemma {:induction false} FromLittleEndianIs(n: nat, k: nat)
    requires n < Pow256(k)
    ensures FromLittleEndian(LittleEndian(n, k)) == n
    decreases k
  {
    if k > 0 {
      FromLittleEndianIs(n / 256, k - 1);
      assert LittleEndian(n, k)[1..] == LittleEndian(n / 256, k - 1);
    }
  }

  lemma LowByte(b: nat, rest: nat)
    requires b < 256
    ensures (b + 256 * rest) % 256 == b && (b + 256 * rest) / 256 == rest
  {
  }

  lemma LittleEndianStep(n: nat, k: nat)
    ensures LittleEndian(n, 0) == [] && LittleEndian(n, k + 1) == [n % 256] + LittleEndian(n / 256, k)
  {
  }

  lemma FromLittleEndianStep(s: seq<Byte>)
    requires s != []
    ensures FromLittleEndian(s) == s[0] + 256 * FromLittleEndian(s[1..])
  {
  }

  lemma {:induction false} LittleEndianIs(s: seq<Byte>)
    ensures LittleEndian(FromLittleEndian(s), |s|) == s
  {
    hide LittleEndian, FromLittleEndian;
    if s == [] {
      LittleEndianStep(FromLittleEndian(s), 0);
    } else {
      LittleEndianIs(s[1..]);
      FromLittleEndianStep(s);
      LowByte(s[0], FromLittleEndian(s[1..]));
      LittleEndianStep(FromLittleEndian(s), |s| - 1);
      assert s == [s[0]] + s[1..];
    }
  }

  lemma FromBigEndianIs(n: nat, k: nat)
    requires n < Pow256(k)
    ensures FromBigEndian(BigEndian(n, k)) == n
  {
    FromLittleEndianIs(n, k);
    ReversedTwice(LittleEndian(n, k));
  }

  lemma BigEndianIs(s: seq<Byte>)
    ensures BigEndian(FromBigEndian(s), |s|) == s
  {
    LittleEndianIs(Reversed(s));
    ReversedTwice(s);
  }

  /** n / 256^i, dividing one byte at a time. */
  function Shifted(n: nat, i: nat): nat {
    if i == 0 then n else Shifted(n, i - 1) / 256
  }

  lemma {:induction false} ShiftedStep(n: nat, i: nat)
    ensures Shifted(n / 256, i) == Shifted(n, i + 1)
  {
    if i > 0 {
      ShiftedStep(n, i - 1);
    }
  }

  /** Byte i of a little-endian number. */
  lemma {:induction false} LittleEndianAt(n: nat, k: nat, i: nat)
    requires i < k
    ensures LittleEndian(n, k)[i] == Shifted(n, i) % 256
    decreases k
  {
    if i > 0 {
      LittleEndianAt(n / 256, k - 1, i - 1);
      ShiftedStep(n, i - 1);
    }
  }

  /** Byte i of a big-endian number. */
  lemma BigEndianAt(n: nat, k: nat, i: nat)
    requires i < k
    ensures BigEndian(n, k)[i] == Shifted(n, k - 1 - i) % 256
  {
    LittleEndianAt(n, k, k - 1 - i);
  }

  lemma LittleEndianInjective(m: nat, n: nat, k: nat)
    requires LittleEndian(m, k) == LittleEndian(n, k) && m < Pow256(k) && n < Pow256(k)
    ensures m == n
  {
    FromLittleEndianIs(m, k);
    FromLittleEndianIs(n, k);
  }

  lemma Pow256Values()
    ensures Pow256(1) == 0x100 && Pow256(2) == 0x1_0000 && Pow256(4) == 0x1_0000_0000
    ensures Pow256(8) == 0x1_0000_0000_0000_0000
  {
  }
}
