/**
 * The hex rendering of a digest: each byte through
 * Number.prototype.toString(16) and String.prototype.padStart(2, '0'), the
 * pieces joined.
 */
module Hex {
  import opened Wrappers

  type Nibble = x: int | 0 <= x < 16

  /** The lowercase digit toString(16) writes for a value below 16. */
  function HexDigit(d: Nibble): char
  {
    if d < 10 then ('0' as int + d) as char else ('a' as int + (d - 10)) as char
  }

  predicate IsHexDigit(c: char)
  {
    '0' <= c <= '9' || 'a' <= c <= 'f'
  }

  /** The value of a lowercase hex digit; None for every other character. */
  function DigitValue(c: char): (r: Option<Nibble>)
    ensures r.Some? <==> IsHexDigit(c)
    ensures r.Some? ==> HexDigit(r.value) == c
  {
    if '0' <= c <= '9' then Some(c as int - '0' as int)
    else if 'a' <= c <= 'f' then Some(c as int - 'a' as int + 10)
    else None
  }

  /** n.toString(16) for a non-negative integer: digits most significant first, no leading zero. */
  function ToStringRadix16(n: nat): string
    decreases n
  {
    if n < 16 then [HexDigit(n)] else ToStringRadix16(n / 16) + [HexDigit(n % 16)]
  }

  /** The number a string of hex digits denotes, most significant digit first. */
  function HexValue(s: string): nat
    requires forall i :: 0 <= i < |s| ==> IsHexDigit(s[i])
    decreases |s|
  {
    if s == [] then 0
    else HexValue(s[..|s| - 1]) * 16 + DigitValue(s[|s| - 1]).value
  }

  /** s.padStart(len, fill) for a one-character fill string. */
  function PadStart(s: string, len: nat, fill: char): (r: string)
    ensures |r| == if |s| >= len then |s| else len
    ensures r[|r| - |s|..] == s
    ensures forall i :: 0 <= i < |r| - |s| ==> r[i] == fill
  {
    if |s| >= len then s else seq(len - |s|, _ => fill) + s
  }

  /** b.toString(16).padStart(2, '0'). */
  function ByteToHex(b: Byte): string
  {
    PadStart(ToStringRadix16(b), 2, '0')
  }

  /** Array.from(bytes).map(render).join(''). */
  function MapJoin(bytes: seq<Byte>, render: Byte -> string): string
    decreases |bytes|
  {
    if bytes == [] then "" else render(bytes[0]) + MapJoin(bytes[1..], render)
  }

  /** The hex of a digest: every byte through ByteToHex, the pieces joined. */
  function Encode(bytes: seq<Byte>): string
  {
    MapJoin(bytes, ByteToHex)
  }

  /** Reads two lowercase hex digits per byte; None on an odd length or a non-digit. */
  function Decode(s: string): Option<seq<Byte>>
    decreases |s|
  {
    if |s| == 0 then Some([])
    else if |s| == 1 then None
    else
      match (DigitValue(s[0]), DigitValue(s[1]), Decode(s[2..]))
      case (Some(hi), Some(lo), Some(rest)) => Some([hi as int * 16 + lo] + rest)
      case _ => None
  }

  // ---------------------------------------------------------------------
  // Properties
  // ---------------------------------------------------------------------

  /** toString(16) writes the digits of n, with no leading zero. */
  lemma {:induction false} ToStringRadix16Value(n: nat)
    ensures forall i :: 0 <= i < |ToStringRadix16(n)| ==> IsHexDigit(ToStringRadix16(n)[i])
    ensures HexValue(ToStringRadix16(n)) == n
    ensures ToStringRadix16(n)[0] == '0' ==> n == 0
    decreases n
  {
    var r := ToStringRadix16(n);
    if n >= 16 {
      ToStringRadix16Value(n / 16);
      assert r[..|r| - 1] == ToStringRadix16(n / 16);
      assert r[0] == ToStringRadix16(n / 16)[0];
    }
  }

  /** A byte renders as exactly two digits, the high nibble first, zero-padded. */
  lemma ByteToHexDigits(b: Byte)
    ensures ByteToHex(b) == [HexDigit(b / 16), HexDigit(b % 16)]
  {
    if b >= 16 {
      assert ToStringRadix16(b / 16) == [HexDigit(b / 16)];
    }
  }

  /** Every character is a lowercase hex digit. */
  predicate AllHexDigits(s: string)
  {
    forall i :: 0 <= i < |s| ==> IsHexDigit(s[i])
  }

  lemma AllHexDigitsConcat(a: string, b: string)
    requires AllHexDigits(a) && AllHexDigits(b)
    ensures AllHexDigits(a + b)
  {
    forall i | 0 <= i < |a + b|
      ensures IsHexDigit((a + b)[i])
    {
      if i >= |a| {
        assert (a + b)[i] == b[i - |a|];
      }
    }
  }

  /** A renderer that writes every byte as its two nibbles' digits, high first. */
  predicate RendersNibbles(render: Byte -> string)
  {
    forall b: Byte :: render(b) == [HexDigit(b / 16), HexDigit(b % 16)]
  }

  lemma ByteToHexRendersNibbles()
    ensures RendersNibbles(ByteToHex)
  {
    forall b: Byte
      ensures ByteToHex(b) == [HexDigit(b / 16), HexDigit(b % 16)]
    {
      ByteToHexDigits(b);
    }
  }

  lemma {:induction false} MapJoinShape(bytes: seq<Byte>, render: Byte -> string)
    requires RendersNibbles(render)
    ensures |MapJoin(bytes, render)| == 2 * |bytes|
    ensures AllHexDigits(MapJoin(bytes, render))
    decreases |bytes|
  {
    if bytes != [] {
      MapJoinShape(bytes[1..], render);
      AllHexDigitsConcat(render(bytes[0]), MapJoin(bytes[1..], render));
    }
  }

  /** Twice as many characters as bytes, all of them lowercase hex digits. */
  lemma EncodeShape(bytes: seq<Byte>)
    ensures |Encode(bytes)| == 2 * |bytes|
    ensures AllHexDigits(Encode(bytes))
  {
    ByteToHexRendersNibbles();
    MapJoinShape(bytes, ByteToHex);
  }

  /** Two digits in front of a string decode to one byte in front of what the string decodes to. */
  lemma DecodeDigitPair(hi: Nibble, lo: Nibble, t: string)
    ensures Decode([HexDigit(hi), HexDigit(lo)] + t)
            == match Decode(t)
               case Some(rest) => Some([hi * 16 + lo] + rest)
               case None => None
  {
    var s := [HexDigit(hi), HexDigit(lo)] + t;
    assert s[2..] == t;
    assert DigitValue(s[0]) == Some(hi);
    assert DigitValue(s[1]) == Some(lo);
  }

  lemma {:induction false} DecodeMapJoin(bytes: seq<Byte>, render: Byte -> string)
    requires RendersNibbles(render)
    ensures Decode(MapJoin(bytes, render)) == Some(bytes)
    decreases |bytes|
  {
    if bytes != [] {
      var b, rest := bytes[0], bytes[1..];
      DecodeMapJoin(rest, render);
      DecodeDigitPair(b / 16, b % 16, MapJoin(rest, render));
      assert [b] + rest == bytes;
    }
  }

  /** Reading the hex back gives the digest bytes. */
  lemma DecodeEncode(bytes: seq<Byte>)
    ensures Decode(Encode(bytes)) == Some(bytes)
  {
    ByteToHexRendersNibbles();
    DecodeMapJoin(bytes, ByteToHex);
  }
}
