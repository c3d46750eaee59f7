/** Model of `v2/utils/marshal.go`: the primitive codec of section 5 of RFC 4251.
  * Go strings and byte slices are both sequences of bytes. */
module Marshal {
  newtype byte = x: int | 0 <= x < 0x100
  type u32 = x: int | 0 <= x < 0x1_0000_0000
  type u64 = x: int | 0 <= x < 0x1_0000_0000_0000_0000

  const TWO_32: int := 0x1_0000_0000
  const TWO_64: int := 0x1_0000_0000_0000_0000

  /** The value a Go uint64 expression takes when its exact value is `x`. */
  function Wrap64(x: int): u64 {
    x % 0x1_0000_0000_0000_0000
  }

  lemma WrapSub(a: int, b: int)
    ensures Wrap64(a - Wrap64(b)) == Wrap64(a - b)
  {
  }

  lemma WrapAdd(a: int, b: int)
    ensures Wrap64(a + Wrap64(b)) == Wrap64(a + b)
  {
  }

  /** A conversion to uint32. */
  function Wrap32(x: int): u32 {
    x % 0x1_0000_0000
  }

  /** The `width` low-order base-256 digits of `v`, most significant first. */
  function BigEndian(v: nat, width: nat): (b: seq<byte>)
    ensures |b| == width
  {
    if width == 0 then [] else BigEndian(v / 0x100, width - 1) + [(v % 0x100) as byte]
  }

  function FromBigEndian(b: seq<byte>): (v: nat)
    ensures v < Pow256(|b|)
  {
    if b == [] then 0 else FromBigEndian(b[..|b| - 1]) * 0x100 + b[|b| - 1] as nat
  }

  function Pow256(n: nat): (p: nat)
    ensures p >= 1
  {
    if n == 0 then 1 else 0x100 * Pow256(n - 1)
  }

  lemma {:induction false} BigEndianRoundTrip(v: nat, width: nat)
    ensures FromBigEndian(BigEndian(v, width)) == v <==> v < Pow256(width)
  {
    if width == 0 {
    } else {
      hide BigEndian, FromBigEndian, Pow256;
      BigEndianRoundTrip(v / 0x100, width - 1);
      OneMoreDigit(v, width);
      FromAppended(BigEndian(v / 0x100, width - 1), (v % 0x100) as byte);
      LastDigit(v, FromBigEndian(BigEndian(v / 0x100, width - 1)), Pow256(width - 1));
    }
  }

  lemma OneMoreDigit(v: nat, width: nat)
    requires width > 0
    ensures BigEndian(v, width) == BigEndian(v / 0x100, width - 1) + [(v % 0x100) as byte]
    ensures Pow256(width) == 0x100 * Pow256(width - 1)
  {
  }

  lemma FromAppended(b: seq<byte>, d: byte)
    ensures FromBigEndian(b + [d]) == FromBigEndian(b) * 0x100 + d as nat
  {
    assert (b + [d])[..|b|] == b;
  }

  lemma LastDigit(v: nat, high: nat, p: nat)
    ensures high * 0x100 + v % 0x100 == v <==> high == v / 0x100
    ensures v < 0x100 * p <==> v / 0x100 < p
  {
  }

  lemma {:induction false} BigEndianInverse(b: seq<byte>)
    ensures BigEndian(FromBigEndian(b), |b|) == b
  {
    if b == [] {
    } else {
      var front, last := b[..|b| - 1], b[|b| - 1];
      BigEndianInverse(front);
      AppendDigit(FromBigEndian(front), last as nat);
      assert b == front + [last];
    }
  }

  lemma AppendDigit(x: nat, d: nat)
    requires d < 0x100
    ensures (x * 0x100 + d) / 0x100 == x && (x * 0x100 + d) % 0x100 == d
  {
  }

  /** Most significant digits first: a numeral's encoding is that of its high part followed by
    * that of its low part. */
  lemma {:induction false} BigEndianSplit(high: nat, low: nat, m: nat, n: nat)
    requires low < Pow256(n)
    ensures BigEndian(high * Pow256(n) + low, m + n) == BigEndian(high, m) + BigEndian(low, n)
  {
    if n == 0 {
    } else {
      var p := high * Pow256(n - 1);
      assert high * Pow256(n) == 0x100 * p;
      assert (0x100 * p + low) / 0x100 == p + low / 0x100 && (0x100 * p + low) % 0x100 == low % 0x100;
      BigEndianSplit(high, low / 0x100, m, n - 1);
    }
  }

  function MarshalUint32(i: u32): (b: seq<byte>)
    ensures |b| == 4
  {
    BigEndian(i, 4)
  }

  /** Go reads b[0] to b[3], so a shorter slice is a caller's error. */
  function UnmarshalUint32(b: seq<byte>): u32
    requires |b| >= 4
  {
    FromBigEndian(b[..4])
  }

  function MarshalUint64(i: u64): (b: seq<byte>)
    ensures |b| == 8
  {
    BigEndian(i, 8)
  }

  function UnmarshalUint64(b: seq<byte>): u64
    requires |b| >= 8
  {
    FromBigEndian(b[..8])
  }

  /** The length prefix is the low 32 bits of the length; the bytes follow in full. */
  function MarshalString(str: seq<byte>): (b: seq<byte>)
    ensures |b| == 4 + |str|
  {
    if str == [] then [0, 0, 0, 0] else MarshalUint32(Wrap32(|str|)) + str
  }

  lemma Uint32RoundTrip(i: u32, rest: seq<byte>)
    ensures UnmarshalUint32(MarshalUint32(i) + rest) == i
  {
    assert (MarshalUint32(i) + rest)[..4] == MarshalUint32(i);
    BigEndianRoundTrip(i, 4);
  }

  lemma Uint32Inverse(b: seq<byte>)
    requires |b| >= 4
    ensures MarshalUint32(UnmarshalUint32(b)) == b[..4]
  {
    BigEndianInverse(b[..4]);
  }

  lemma Uint64RoundTrip(i: u64, rest: seq<byte>)
    ensures UnmarshalUint64(MarshalUint64(i) + rest) == i
  {
    assert (MarshalUint64(i) + rest)[..8] == MarshalUint64(i);
    BigEndianRoundTrip(i, 8);
  }

  lemma Uint64Inverse(b: seq<byte>)
    requires |b| >= 8
    ensures MarshalUint64(UnmarshalUint64(b)) == b[..8]
  {
    BigEndianInverse(b[..8]);
  }

  lemma {:induction false} ZeroDigits(width: nat)
    ensures BigEndian(0, width) == seq(width, _ => 0 as byte)
  {
    if width == 0 {
    } else {
      ZeroDigits(width - 1);
    }
  }

  /** The layout of section 5 of RFC 4251, byte by byte. */
  lemma Uint32Layout(b0: byte, b1: byte, b2: byte, b3: byte)
    ensures var i := b0 as int * 0x100_0000 + b1 as int * 0x1_0000 + b2 as int * 0x100 + b3 as int;
            MarshalUint32(i) == [b0, b1, b2, b3]
  {
    var b := [b0, b1, b2, b3];
    assert b[..3] == [b0, b1, b2] && b[..3][..2] == [b0, b1] && b[..3][..2][..1] == [b0];
    assert FromBigEndian([b0]) == b0 as nat;
    assert FromBigEndian([b0, b1]) == b0 as nat * 0x100 + b1 as nat;
    assert FromBigEndian([b0, b1, b2]) == b0 as nat * 0x1_0000 + b1 as nat * 0x100 + b2 as nat;
    BigEndianInverse(b);
  }

  lemma Uint64Layout(high: u32, low: u32)
    ensures MarshalUint64(high * 0x1_0000_0000 + low) == MarshalUint32(high) + MarshalUint32(low)
  {
    BigEndianSplit(high, low, 4, 4);
  }

  /** The special case for the empty string agrees with the general one. */
  lemma StringIsPrefixed(str: seq<byte>)
    ensures MarshalString(str) == MarshalUint32(Wrap32(|str|)) + str
  {
  }

  /** A string's encoding starts with its length exactly when the length fits in 32 bits. */
  lemma StringPrefixExact(str: seq<byte>, rest: seq<byte>)
    ensures UnmarshalUint32(MarshalString(str) + rest) == |str| <==> |str| < TWO_32
    ensures (MarshalString(str) + rest)[4..] == str + rest
  {
    hide MarshalUint32, UnmarshalUint32, MarshalString;
    StringIsPrefixed(str);
    assert MarshalString(str) + rest == MarshalUint32(Wrap32(|str|)) + (str + rest);
    Uint32RoundTrip(Wrap32(|str|), str + rest);
  }
}
