/** Big-endian fixed-width integers, the primitives of the wire format. */
module Wire {
  import Rounding

  type byte = b: int | 0 <= b < 256

  /** Number of values a field of `width` bytes can hold. */
  function Range(width: nat): (r: nat)
    ensures r > 0
  {
    if width == 0 then 1 else 256 * Range(width - 1)
  }

  function BigEndian(value: nat, width: nat): (bytes: seq<byte>)
    ensures |bytes| == width
  {
    if width == 0 then [] else BigEndian(value / 256, width - 1) + [value % 256]
  }

  function FromBigEndian(bytes: seq<byte>): nat {
    if bytes == [] then 0 else 256 * FromBigEndian(bytes[..|bytes| - 1]) + bytes[|bytes| - 1]
  }

  /** The most significant byte comes first: byte i carries the weight of the bytes behind it. */
  lemma {:induction false} BigEndianAt(value: nat, width: nat, i: nat)
    requires i < width
    ensures BigEndian(value, width)[i] == value / Range(width - 1 - i) % 256
  {
    if i < width - 1 {
      BigEndianAt(value / 256, width - 1, i);
      Rounding.DivDiv(value, 256, Range(width - 2 - i));
    }
  }

  /** The sum of the bytes, each times its weight. */
  function Weighted(bytes: seq<byte>): nat {
    if bytes == [] then 0 else bytes[0] * Range(|bytes| - 1) + Weighted(bytes[1..])
  }

  lemma {:induction false} FromBigEndianIsWeighted(bytes: seq<byte>)
    ensures FromBigEndian(bytes) == Weighted(bytes)
  {
    if bytes != [] {
      FromBigEndianIsWeighted(bytes[1..]);
      LeadingByte(bytes[0], bytes[1..]);
      assert bytes == [bytes[0]] + bytes[1..];
    }
  }

  lemma {:induction false} LeadingByte(b: byte, rest: seq<byte>)
    ensures FromBigEndian([b] + rest) == b * Range(|rest|) + FromBigEndian(rest)
  {
    var all := [b] + rest;
    if rest == [] {
      assert all[..0] == [];
    } else {
      var front := rest[..|rest| - 1];
      LeadingByte(b, front);
      assert all[..|all| - 1] == [b] + front;
      assert b * (256 * Range(|front|)) == 256 * (b * Range(|front|));
    }
  }

  lemma {:induction false} DecodeEncoded(value: nat, width: nat)
    requires value < Range(width)
    ensures FromBigEndian(BigEndian(value, width)) == value
  {
    if width > 0 {
      DecodeEncoded(value / 256, width - 1);
      var bytes := BigEndian(value, width);
      assert bytes[..width - 1] == BigEndian(value / 256, width - 1);
    }
  }

  lemma {:induction false} EncodeDecoded(bytes: seq<byte>)
    ensures FromBigEndian(bytes) < Range(|bytes|)
    ensures BigEndian(FromBigEndian(bytes), |bytes|) == bytes
  {
    if bytes != [] {
      EncodeDecoded(bytes[..|bytes| - 1]);
    }
  }

  lemma Ranges()
    ensures Range(1) == 0x100 && Range(2) == 0x1_0000 && Range(4) == 0x1_0000_0000
    ensures Range(8) == 0x1_0000_0000_0000_0000
  {
  }

  // ----- signed 64-bit -----

  const I64_MAX: int := 0x7FFF_FFFF_FFFF_FFFF
  const I64_MIN: int := -0x8000_0000_0000_0000

  predicate InI64(x: int) {
    I64_MIN <= x <= I64_MAX
  }

  /** Two's complement. */
  function EncodeI64(x: int): (bytes: seq<byte>)
    requires InI64(x)
    ensures |bytes| == 8
  {
    BigEndian(if x < 0 then x + 0x1_0000_0000_0000_0000 else x, 8)
  }

  function DecodeI64(bytes: seq<byte>): (x: int)
    requires |bytes| == 8
    ensures InI64(x)
  {
    EncodeDecoded(bytes);
    Ranges();
    var u := FromBigEndian(bytes);
    if u > I64_MAX then u - 0x1_0000_0000_0000_0000 else u
  }

  lemma I64RoundTrip(x: int)
    requires InI64(x)
    ensures DecodeI64(EncodeI64(x)) == x
  {
    Ranges();
    DecodeEncoded(if x < 0 then x + 0x1_0000_0000_0000_0000 else x, 8);
  }

  /** Negative numbers wrap at 2^64. */
  lemma I64Bytes(x: int, i: nat)
    requires InI64(x) && i < 8
    ensures EncodeI64(x)[i] == x % 0x1_0000_0000_0000_0000 / Range(7 - i) % 256
  {
    hide BigEndian, Range;
    Wraps(x);
    BigEndianAt(x % 0x1_0000_0000_0000_0000, 8, i);
  }

  lemma Wraps(x: int)
    requires InI64(x)
    ensures x % 0x1_0000_0000_0000_0000 == if x < 0 then x + 0x1_0000_0000_0000_0000 else x
  {
  }
}
