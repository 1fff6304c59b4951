/**
 * Bytes, 32-bit unsigned integers and the two text conversions the
 * decoders lean on, each given by its meaning: the `hex` crate's
 * `encode_hex` (every byte becomes two lowercase hex digits, most
 * significant nibble first) and `u32::from_str_radix(_, 16)`.
 */
module Hex {
  import opened Errors

  type Byte = b: int | 0 <= b < 256

  const U32_LIMIT: nat := 0x1_0000_0000

  type U32 = n: int | 0 <= n < 0x1_0000_0000

  /** A `Vec<u8>` that the decoders always fill with exactly four bytes. */
  type Bytes4 = s: seq<Byte> | |s| == 4 witness [0, 0, 0, 0]

  // ---------------------------------------------------------------------
  // Order of bytes
  // ---------------------------------------------------------------------

  /** `s` back to front (`Vec::reverse`, `.into_iter().rev()`). */
  function Reversed<T>(s: seq<T>): (r: seq<T>)
    ensures |r| == |s|
  {
    if s == [] then [] else Reversed(s[1..]) + [s[0]]
  }

  lemma {:induction false} ReversedAt<T>(s: seq<T>, i: nat)
    requires i < |s|
    ensures Reversed(s)[i] == s[|s| - 1 - i]
  {
    if i < |s| - 1 {
      ReversedAt(s[1..], i);
    }
  }

  lemma ReversedTwice<T>(s: seq<T>)
    ensures Reversed(Reversed(s)) == s
  {
    forall i | 0 <= i < |s|
      ensures Reversed(Reversed(s))[i] == s[i]
    {
      ReversedAt(Reversed(s), i);
      ReversedAt(s, |s| - 1 - i);
    }
  }

  lemma ReversedAppend<T>(a: seq<T>, b: seq<T>)
    ensures Reversed(a + b) == Reversed(b) + Reversed(a)
  {
    forall i | 0 <= i < |a| + |b|
      ensures Reversed(a + b)[i] == (Reversed(b) + Reversed(a))[i]
    {
      ReversedAt(a + b, i);
      if i < |b| {
        ReversedAt(b, i);
      } else {
        ReversedAt(a, i - |b|);
      }
    }
  }

  /** The value of `bs` read most significant byte first. */
  function BigEndian(bs: seq<Byte>): nat
  {
    if bs == [] then 0 else BigEndian(bs[..|bs| - 1]) * 256 + bs[|bs| - 1]
  }

  /** 256 to the power `n`. */
  function Pow256(n: nat): nat
  {
    if n == 0 then 1 else 256 * Pow256(n - 1)
  }

  /** `n` bytes hold a value below 256^n. */
  lemma {:induction false} BigEndianBound(bs: seq<Byte>)
    ensures BigEndian(bs) < Pow256(|bs|)
  {
    if bs != [] {
      var init := bs[..|bs| - 1];
      BigEndianBound(init);
      assert BigEndian(init) + 1 <= Pow256(|init|);
      assert (BigEndian(init) + 1) * 256 <= Pow256(|init|) * 256;
    }
  }

  /** The four bytes of `b` read most significant first: b0·2^24 + b1·2^16 + b2·2^8 + b3. */
  function Be32(b: Bytes4): U32
  {
    (b[0] as int) * 0x100_0000 + (b[1] as int) * 0x1_0000 + (b[2] as int) * 0x100 + b[3]
  }

  /** The four bytes of `b` read least significant first: b0 + b1·2^8 + b2·2^16 + b3·2^24. */
  function Le32(b: Bytes4): U32
  {
    b[0] + (b[1] as int) * 0x100 + (b[2] as int) * 0x1_0000 + (b[3] as int) * 0x100_0000
  }

  /** The little-endian encoding of a `u32`: the inverse of `Le32`. */
  function LeBytes(n: U32): (b: Bytes4)
    ensures Le32(b) == n
  {
    var q1 := n / 0x100;
    var q2 := q1 / 0x100;
    var q3 := q2 / 0x100;
    [n % 0x100, q1 % 0x100, q2 % 0x100, q3]
  }

  lemma LeBytesOfLe32(b: Bytes4)
    ensures LeBytes(Le32(b)) == b
  {
    var n: int := Le32(b);
    var q1: int := (b[1] as int) + (b[2] as int) * 0x100 + (b[3] as int) * 0x1_0000;
    var q2: int := (b[2] as int) + (b[3] as int) * 0x100;
    assert n == q1 * 0x100 + b[0];
    assert n / 0x100 == q1 && n % 0x100 == b[0];
    assert q1 == q2 * 0x100 + b[1];
    assert q1 / 0x100 == q2 && q1 % 0x100 == b[1];
    assert q2 / 0x100 == b[3] && q2 % 0x100 == b[2];
  }

  lemma BigEndianOfFour(b: Bytes4)
    ensures BigEndian(b) == Be32(b)
  {
    assert b[..3][..2][..1][..0] == [];
    calc {
      BigEndian(b);
      BigEndian(b[..3]) * 256 + b[3];
      (BigEndian(b[..3][..2]) * 256 + b[2]) * 256 + b[3];
      ((BigEndian(b[..3][..2][..1]) * 256 + b[1]) * 256 + b[2]) * 256 + b[3];
      (((BigEndian(b[..3][..2][..1][..0]) * 256 + b[0]) * 256 + b[1]) * 256 + b[2]) * 256 + b[3];
    }
  }

  /** Reading the reversed bytes big-endian is reading the bytes little-endian. */
  lemma BigEndianOfReversed(b: Bytes4)
    ensures Be32(Reversed(b)) == Le32(b)
  {
    ReversedAt(b, 0);
    ReversedAt(b, 1);
    ReversedAt(b, 2);
    ReversedAt(b, 3);
  }

  // ---------------------------------------------------------------------
  // Hex text
  // ---------------------------------------------------------------------

  /** The lowercase hex digit of a nibble. */
  function HexChar(d: nat): (c: char)
    requires d < 16
  {
    if d < 10 then ('0' as int + d) as char else ('a' as int + d - 10) as char
  }

  /** The value of one hex digit in either case, as `char::to_digit(16)` gives it. */
  function HexDigitValue(c: char): (v: Option<nat>)
    ensures v.Some? ==> v.value < 16
  {
    if '0' <= c <= '9' then Some(c as int - '0' as int)
    else if 'a' <= c <= 'f' then Some(c as int - 'a' as int + 10)
    else if 'A' <= c <= 'F' then Some(c as int - 'A' as int + 10)
    else None
  }

  lemma HexCharValue(d: nat)
    requires d < 16
    ensures HexDigitValue(HexChar(d)) == Some(d)
  {
  }

  /** `s` is the lowercase hex text of `bs`: two digits per byte, in byte order. */
  ghost predicate IsHexOf(s: string, bs: seq<Byte>)
  {
    && |s| == 2 * |bs|
    && forall i :: 0 <= i < |bs| ==> s[2 * i] == HexChar(bs[i] / 16) && s[2 * i + 1] == HexChar(bs[i] % 16)
  }

  /** `bytes.encode_hex::<String>()`. */
  function EncodeHex(bs: seq<Byte>): string
  {
    if bs == [] then "" else EncodeHex(bs[..|bs| - 1]) + [HexChar(bs[|bs| - 1] / 16), HexChar(bs[|bs| - 1] % 16)]
  }

  lemma {:induction false} EncodeHexIsHexOf(bs: seq<Byte>)
    ensures IsHexOf(EncodeHex(bs), bs)
  {
    if bs != [] {
      var init := bs[..|bs| - 1];
      EncodeHexIsHexOf(init);
      var s := EncodeHex(bs);
      forall i | 0 <= i < |bs|
        ensures s[2 * i] == HexChar(bs[i] / 16) && s[2 * i + 1] == HexChar(bs[i] % 16)
      {
        if i < |init| {
          assert s[2 * i] == EncodeHex(init)[2 * i];
          assert s[2 * i + 1] == EncodeHex(init)[2 * i + 1];
          assert init[i] == bs[i];
        }
      }
    }
  }

  /** Hex text determines its bytes: encoding is injective. */
  lemma HexOfDeterminesBytes(s: string, a: seq<Byte>, b: seq<Byte>)
    requires IsHexOf(s, a) && IsHexOf(s, b)
    ensures a == b
  {
    forall i | 0 <= i < |a|
      ensures a[i] == b[i]
    {
      HexCharValue(a[i] / 16);
      HexCharValue(b[i] / 16);
      HexCharValue(a[i] % 16);
      HexCharValue(b[i] % 16);
    }
  }

  /** Bytes determine their hex text: it is a function of the bytes. */
  lemma HexOfDeterminesText(s: string, t: string, bs: seq<Byte>)
    requires IsHexOf(s, bs) && IsHexOf(t, bs)
    ensures s == t
  {
    forall j | 0 <= j < |s|
      ensures s[j] == t[j]
    {
      var i := j / 2;
      assert 0 <= i < |bs| && (j == 2 * i || j == 2 * i + 1);
      assert s[2 * i] == HexChar(bs[i] / 16) == t[2 * i];
      assert s[2 * i + 1] == HexChar(bs[i] % 16) == t[2 * i + 1];
    }
  }

  /** The value of a string of hex digits read left to right, or `None` if some character is not a hex digit. */
  function HexDigitsValue(s: string): Option<nat>
  {
    if s == [] then Some(0)
    else match (HexDigitsValue(s[..|s| - 1]), HexDigitValue(s[|s| - 1]))
      case (Some(v), Some(d)) => Some(v * 16 + d)
      case _ => None
  }

  /**
   * `u32::from_str_radix(s, 16)`: an optional leading `+`, then one or more
   * hex digits of either case whose value fits in 32 bits; anything else is
   * an error (the empty string, a lone `+`, a non-digit, an overflow).
   */
  function FromStrRadix16(s: string): Option<U32>
  {
    if s == [] then None
    else
      var digits := if s[0] == '+' then s[1..] else s;
      if digits == [] then None
      else match HexDigitsValue(digits)
        case Some(v) => if v < U32_LIMIT then Some(v) else None
        case None => None
  }

  lemma {:induction false} HexDigitsOfEncoding(bs: seq<Byte>)
    ensures HexDigitsValue(EncodeHex(bs)) == Some(BigEndian(bs))
  {
    if bs != [] {
      var init := bs[..|bs| - 1];
      var b := bs[|bs| - 1];
      var s := EncodeHex(bs);
      var v := BigEndian(init);
      assert HexDigitsValue(s[..|s| - 1]) == Some(v * 16 + b / 16) by {
        assert s[..|s| - 1] == EncodeHex(init) + [HexChar(b / 16)];
        assert s[..|s| - 1][..|s| - 2] == EncodeHex(init);
        HexDigitsOfEncoding(init);
        HexCharValue(b / 16);
      }
      HexCharValue(b % 16);
      assert (v * 16 + b / 16) * 16 + b % 16 == v * 256 + b;
    }
  }

  /**
   * Parsing the hex text of one to four bytes never fails and gives their
   * big-endian value: 8 hex digits always fit in a `u32`.
   */
  lemma ParseEncodedHex(bs: seq<Byte>)
    requires 1 <= |bs| <= 4
    ensures FromStrRadix16(EncodeHex(bs)) == Some(BigEndian(bs))
  {
    var s := EncodeHex(bs);
    EncodeHexIsHexOf(bs);
    assert s[2 * 0] == HexChar(bs[0] / 16) != '+';
    HexDigitsOfEncoding(bs);
    BigEndianBound(bs);
    Pow256UpToFour(|bs|);
  }

  lemma Pow256UpToFour(n: nat)
    requires n <= 4
    ensures Pow256(n) <= U32_LIMIT
  {
    assert Pow256(0) == 1;
    assert Pow256(1) == 0x100;
    assert Pow256(2) == 0x1_0000;
    assert Pow256(3) == 0x100_0000;
    assert Pow256(4) == U32_LIMIT;
  }

  /** `u32::from_str_radix(b.encode_hex::<String>().as_str(), 16).expect(..)` on four bytes. */
  function ParseU32Hex(b: Bytes4): (n: U32)
    ensures n == Be32(b)
  {
    ParseEncodedHex(b);
    BigEndianOfFour(b);
    FromStrRadix16(EncodeHex(b)).value
  }
}
