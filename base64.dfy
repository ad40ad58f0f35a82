/**
 * The browser's btoa/atob pair. btoa encodes a "binary string" (one character
 * per byte, U+0000 to U+00FF) with the Base64 encoding of section 4 of
 * RFC 4648; atob runs the forgiving-base64 decode of the HTML standard,
 * which also accepts ASCII whitespace and missing padding.
 */
module Base64 {
  import opened Wrappers

  /** The 6-bit value one Base64 character carries. */
  type Sextet = x: int | 0 <= x < 64

  const Pad: char := '='

  /** Table 1 of RFC 4648: the character for each 6-bit value. */
  function AlphabetChar(x: Sextet): char
  {
    if x < 26 then ('A' as int + x) as char
    else if x < 52 then ('a' as int + (x - 26)) as char
    else if x < 62 then ('0' as int + (x - 52)) as char
    else if x == 62 then '+'
    else '/'
  }

  /** The 6-bit value of an alphabet character; None for every other character. */
  function AlphabetValue(c: char): (r: Option<Sextet>)
    ensures r.Some? ==> AlphabetChar(r.value) == c
    ensures r.None? ==> forall x: Sextet :: AlphabetChar(x) != c
  {
    if 'A' <= c <= 'Z' then Some(c as int - 'A' as int)
    else if 'a' <= c <= 'z' then Some(c as int - 'a' as int + 26)
    else if '0' <= c <= '9' then Some(c as int - '0' as int + 52)
    else if c == '+' then Some(62)
    else if c == '/' then Some(63)
    else None
  }

  predicate InAlphabet(c: char)
  {
    AlphabetValue(c).Some?
  }

  /**
   * The 6-bit groups of a byte sequence: every three bytes give four groups;
   * a final one or two bytes give two or three groups whose missing low bits
   * are zero.
   */
  function Sextets(b: seq<Byte>): seq<Sextet>
    decreases |b|
  {
    if |b| == 0 then []
    else if |b| == 1 then [b[0] / 4, b[0] % 4 * 16]
    else if |b| == 2 then [b[0] / 4, b[0] % 4 * 16 + b[1] / 16, b[1] % 16 * 4]
    else [b[0] / 4, b[0] % 4 * 16 + b[1] / 16, b[1] % 16 * 4 + b[2] / 64, b[2] % 64] + Sextets(b[3..])
  }

  function Chars(x: seq<Sextet>): string
  {
    seq(|x|, i requires 0 <= i < |x| => AlphabetChar(x[i]))
  }

  /** The '=' characters that bring the output to a multiple of four characters. */
  function Padding(n: nat): string
  {
    if n % 3 == 1 then "==" else if n % 3 == 2 then "=" else ""
  }

  /** Base64 encoding, section 4 of RFC 4648. */
  function Encode(b: seq<Byte>): string
  {
    Chars(Sextets(b)) + Padding(|b|)
  }

  predicate IsAsciiWhitespace(c: char)
  {
    c == '\t' || c == '\n' || c == '\U{000C}' || c == '\r' || c == ' '
  }

  /** The input with every ASCII whitespace character removed and every other character kept. */
  function RemoveAsciiWhitespace(s: string): (r: string)
    ensures forall i :: 0 <= i < |r| ==> !IsAsciiWhitespace(r[i])
    ensures |r| <= |s|
  {
    if s == [] then []
    else (if IsAsciiWhitespace(s[0]) then [] else [s[0]]) + RemoveAsciiWhitespace(s[1..])
  }

  /** When the length is a multiple of four, drop one or two trailing '='. */
  function StripPadding(d: string): string
  {
    if |d| % 4 == 0 && |d| >= 2 && d[|d| - 2] == Pad && d[|d| - 1] == Pad then d[..|d| - 2]
    else if |d| % 4 == 0 && |d| >= 1 && d[|d| - 1] == Pad then d[..|d| - 1]
    else d
  }

  /** The 6-bit values of a string, or None when a character is outside the alphabet. */
  function Values(s: string): (r: Option<seq<Sextet>>)
    ensures r.Some? ==> |r.value| == |s|
    ensures r.Some? ==> forall i :: 0 <= i < |s| ==> AlphabetChar(r.value[i]) == s[i]
    ensures r.None? <==> exists i :: 0 <= i < |s| && !InAlphabet(s[i])
  {
    if s == [] then Some([])
    else
      match AlphabetValue(s[0])
      case None => None
      case Some(x) =>
        match Values(s[1..])
        case None => None
        case Some(xs) => Some([x] + xs)
  }

  /** The first byte of a group: all six bits of x0 and the top two of x1. */
  function High(x0: Sextet, x1: Sextet): Byte
  {
    x0 as int * 4 + x1 as int / 16
  }

  /** The second byte: the low four bits of x1 and the top four of x2. */
  function Middle(x1: Sextet, x2: Sextet): Byte
  {
    x1 as int % 16 * 16 + x2 as int / 4
  }

  /** The third byte: the low two bits of x2 and all six of x3. */
  function Low(x2: Sextet, x3: Sextet): Byte
  {
    x2 as int % 4 * 64 + x3 as int
  }

  /**
   * Bytes from 6-bit groups: four groups give three bytes; a final two or
   * three groups give one or two bytes, their leftover low bits dropped.
   */
  function Bytes(x: seq<Sextet>): seq<Byte>
    requires |x| % 4 != 1
    decreases |x|
  {
    if |x| == 0 then []
    else if |x| == 2 then [High(x[0], x[1])]
    else if |x| == 3 then [High(x[0], x[1]), Middle(x[1], x[2])]
    else [High(x[0], x[1]), Middle(x[1], x[2]), Low(x[2], x[3])] + Bytes(x[4..])
  }

  /** The forgiving-base64 decode that atob runs; None where atob throws. */
  function Decode(s: string): Option<seq<Byte>>
  {
    var d := StripPadding(RemoveAsciiWhitespace(s));
    if |d| % 4 == 1 then None
    else
      match Values(d)
      case None => None
      case Some(x) => Some(Bytes(x))
  }

  /**
   * atob throws InvalidCharacterError exactly when, after whitespace and
   * padding are removed, the length is 1 mod 4 or a character is outside the
   * alphabet.
   */
  lemma DecodeFails(s: string)
    ensures var d := StripPadding(RemoveAsciiWhitespace(s));
      Decode(s).None? <==> |d| % 4 == 1 || Values(d).None?
  {
  }

  /** A lone alphabet character is rejected by its length although every character is in the alphabet. */
  lemma DecodeLoneCharFails()
    ensures Values("A").Some? && Decode("A").None?
  {
    assert RemoveAsciiWhitespace("A") == "A";
  }

  /** A string whose every character holds one byte. */
  predicate IsBinary(s: string)
  {
    forall i :: 0 <= i < |s| ==> s[i] as int < 256
  }

  /** String.fromCharCode applied to each byte, concatenated. */
  function Latin1(b: seq<Byte>): (s: string)
    ensures IsBinary(s)
  {
    seq(|b|, i requires 0 <= i < |b| => b[i] as char)
  }

  /** charCodeAt of every character of a binary string. */
  function CharCodes(s: string): seq<Byte>
    requires IsBinary(s)
  {
    seq(|s|, i requires 0 <= i < |s| => s[i] as int)
  }

  /** btoa: None where it throws, on a character above U+00FF. */
  function Btoa(s: string): Option<string>
  {
    if IsBinary(s) then Some(Encode(CharCodes(s))) else None
  }

  /** atob: None where it throws, on input that is not forgiving-base64. */
  function Atob(s: string): (r: Option<string>)
    ensures r.Some? ==> IsBinary(r.value)
  {
    match Decode(s)
    case None => None
    case Some(b) => Some(Latin1(b))
  }

  // ---------------------------------------------------------------------
  // Properties
  // ---------------------------------------------------------------------

  lemma CharCodesLatin1(b: seq<Byte>)
    ensures CharCodes(Latin1(b)) == b
  {
  }

  lemma Latin1CharCodes(s: string)
    requires IsBinary(s)
    ensures Latin1(CharCodes(s)) == s
  {
  }

  /** Every character Encode emits is an alphabet character or '='. */
  lemma {:induction false} EncodeAlphabet(b: seq<Byte>)
    ensures forall i :: 0 <= i < |Encode(b)| ==> InAlphabet(Encode(b)[i]) || Encode(b)[i] == Pad
    ensures forall i :: 0 <= i < |Encode(b)| - 2 ==> InAlphabet(Encode(b)[i])
  {
    var x := Sextets(b);
    forall i | 0 <= i < |x|
      ensures InAlphabet(Chars(x)[i])
    {
      AlphabetValueOfChar(x[i]);
    }
  }

  /** The encoded length is 4 * ceil(n / 3). */
  lemma EncodeLength(b: seq<Byte>)
    ensures |Encode(b)| == 4 * ((|b| + 2) / 3)
    ensures |Encode(b)| % 4 == 0
  {
    SextetsLength(b);
    var n, q, r := |b|, |b| / 3, |b| % 3;
    assert n == 3 * q + r;
    assert (n + 2) / 3 == q + (if r == 0 then 0 else 1);
    assert |Encode(b)| == 4 * q + (if r == 0 then 0 else 4);
  }

  lemma AlphabetValueOfChar(x: Sextet)
    ensures AlphabetValue(AlphabetChar(x)) == Some(x)
  {
  }

  lemma {:induction false} ValuesOfChars(x: seq<Sextet>)
    ensures Values(Chars(x)) == Some(x)
    decreases |x|
  {
    if x != [] {
      var c := Chars(x);
      AlphabetValueOfChar(x[0]);
      assert c[0] == AlphabetChar(x[0]);
      assert c[1..] == Chars(x[1..]);
      ValuesOfChars(x[1..]);
      assert [x[0]] + x[1..] == x;
    }
  }

  /** Four groups per three bytes, and two or three for a final one or two bytes. */
  lemma {:induction false} SextetsLength(b: seq<Byte>)
    ensures |Sextets(b)| == |b| / 3 * 4 + (if |b| % 3 == 0 then 0 else |b| % 3 + 1)
    decreases |b|
  {
    if |b| >= 3 {
      SextetsLength(b[3..]);
      assert |b[3..]| / 3 == |b| / 3 - 1 && |b[3..]| % 3 == |b| % 3;
    }
  }

  /** Decoding the 6-bit groups of b gives back b. */
  lemma {:induction false} BytesOfSextets(b: seq<Byte>)
    ensures |Sextets(b)| % 4 != 1
    ensures Bytes(Sextets(b)) == b
    decreases |b|
  {
    if |b| >= 3 {
      BytesOfSextets(b[3..]);
      BytesOfSextetsStep(b);
    } else {
      BytesOfShort(b);
    }
  }

  /** A final one or two bytes come back from their two or three groups. */
  lemma BytesOfShort(b: seq<Byte>)
    requires |b| < 3
    ensures |Sextets(b)| % 4 != 1 && Bytes(Sextets(b)) == b
  {
    if |b| == 1 {
      GroupRoundTrip(b[0], 0, 0);
    } else if |b| == 2 {
      GroupRoundTrip(b[0], b[1], 0);
    }
  }

  lemma BytesOfSextetsStep(b: seq<Byte>)
    requires |b| >= 3
    requires |Sextets(b[3..])| % 4 != 1 && Bytes(Sextets(b[3..])) == b[3..]
    ensures |Sextets(b)| % 4 != 1 && Bytes(Sextets(b)) == b
  {
    SextetsCons(b);
    BytesOfGroup(b[0], b[1], b[2], Sextets(b[3..]));
    assert b == [b[0], b[1], b[2]] + b[3..];
  }

  lemma SextetsCons(b: seq<Byte>)
    requires |b| >= 3
    ensures Sextets(b) == [b[0] / 4, b[0] % 4 * 16 + b[1] / 16, b[1] % 16 * 4 + b[2] / 64, b[2] % 64] + Sextets(b[3..])
  {
  }

  /** One group of four 6-bit values decodes to the three bytes it was made from. */
  lemma BytesOfGroup(b0: Byte, b1: Byte, b2: Byte, rest: seq<Sextet>)
    requires |rest| % 4 != 1
    ensures var x: seq<Sextet> := [b0 / 4, b0 % 4 * 16 + b1 / 16, b1 % 16 * 4 + b2 / 64, b2 % 64] + rest;
            |x| % 4 != 1 && Bytes(x) == [b0, b1, b2] + Bytes(rest)
  {
    var x: seq<Sextet> := [b0 / 4, b0 % 4 * 16 + b1 / 16, b1 % 16 * 4 + b2 / 64, b2 % 64] + rest;
    assert x[4..] == rest;
    GroupRoundTrip(b0, b1, b2);
  }

  /** The four 6-bit groups of three bytes give the three bytes back. */
  lemma GroupRoundTrip(b0: Byte, b1: Byte, b2: Byte)
    ensures High(b0 / 4, b0 % 4 * 16 + b1 / 16) == b0
    ensures Middle(b0 % 4 * 16 + b1 / 16, b1 % 16 * 4 + b2 / 64) == b1
    ensures Low(b1 % 16 * 4 + b2 / 64, b2 % 64) == b2
  {
  }

  lemma {:induction false} NoWhitespaceUnchanged(s: string)
    requires forall i :: 0 <= i < |s| ==> !IsAsciiWhitespace(s[i])
    ensures RemoveAsciiWhitespace(s) == s
    decreases |s|
  {
    if s != [] {
      NoWhitespaceUnchanged(s[1..]);
    }
  }

  /** Whitespace removal keeps every other character, as often as it occurs. */
  lemma {:induction false} RemoveAsciiWhitespaceKeeps(s: string)
    ensures forall c :: !IsAsciiWhitespace(c) ==> multiset(RemoveAsciiWhitespace(s))[c] == multiset(s)[c]
    decreases |s|
  {
    if s != [] {
      assert s == [s[0]] + s[1..];
      RemoveAsciiWhitespaceKeeps(s[1..]);
    }
  }

  /** Whitespace removal works character by character, so it keeps the order of what it keeps. */
  lemma {:induction false} RemoveAsciiWhitespaceConcat(a: string, b: string)
    ensures RemoveAsciiWhitespace(a + b) == RemoveAsciiWhitespace(a) + RemoveAsciiWhitespace(b)
    decreases |a|
  {
    if a != [] {
      var head := if IsAsciiWhitespace(a[0]) then [] else [a[0]];
      assert (a + b)[0] == a[0] && (a + b)[1..] == a[1..] + b;
      assert RemoveAsciiWhitespace(a + b) == head + RemoveAsciiWhitespace(a[1..] + b);
      RemoveAsciiWhitespaceConcat(a[1..], b);
      AppendAssoc(head, RemoveAsciiWhitespace(a[1..]), RemoveAsciiWhitespace(b));
    } else {
      assert a + b == b;
    }
  }

  /** Encode emits no ASCII whitespace, so atob's whitespace removal keeps it intact. */
  lemma EncodeKeptByWhitespaceRemoval(b: seq<Byte>)
    ensures RemoveAsciiWhitespace(Encode(b)) == Encode(b)
  {
    var e := Encode(b);
    EncodeAlphabet(b);
    forall i | 0 <= i < |e|
      ensures !IsAsciiWhitespace(e[i])
    {
      if InAlphabet(e[i]) {
        var v := AlphabetValue(e[i]).value;
        assert AlphabetChar(v) == e[i];
      }
    }
    NoWhitespaceUnchanged(e);
  }

  /** atob's padding removal takes off exactly the '=' that Encode appended. */
  lemma StripPaddingOfEncode(b: seq<Byte>)
    ensures StripPadding(Encode(b)) == Chars(Sextets(b))
  {
    var x := Sextets(b);
    var e := Encode(b);
    EncodeLength(b);
    if |x| > 0 {
      AlphabetValueOfChar(x[|x| - 1]);
      assert Chars(x)[|x| - 1] != Pad;
      assert e[|x| - 1] == Chars(x)[|x| - 1];
    }
    if |b| % 3 == 1 {
      assert e[..|e| - 2] == Chars(x);
    } else if |b| % 3 == 2 {
      assert e[..|e| - 1] == Chars(x);
    } else {
      assert e == Chars(x);
    }
  }

  /** atob undoes btoa: decoding an encoding gives back the bytes (RFC 4648 section 4). */
  lemma DecodeEncode(b: seq<Byte>)
    ensures Decode(Encode(b)) == Some(b)
  {
    EncodeKeptByWhitespaceRemoval(b);
    StripPaddingOfEncode(b);
    BytesOfSextets(b);
    ValuesOfChars(Sextets(b));
  }

  /** The browser round trip the envelope relies on: atob(btoa(s)) == s for every binary string. */
  lemma AtobBtoa(s: string)
    requires IsBinary(s)
    ensures Btoa(s).Some? && Atob(Btoa(s).value) == Some(s)
  {
    DecodeEncode(CharCodes(s));
    Latin1CharCodes(s);
  }

  /** btoa accepts exactly the binary strings. */
  lemma BtoaDefined(s: string)
    ensures Btoa(s).Some? <==> IsBinary(s)
  {
  }
}
