/**
  The "base64" encoding of section 4 of RFC 4648, with '=' padding: the
  encoding Go's base64.StdEncoding.EncodeToString produces. Encode is what
  the mapper stores for request bodies and multipart files when bytes are
  to be encoded; Decode is its strict inverse (canonical padding bits),
  used to state that nothing is lost.
*/
module Base64 {
  import opened Wrappers

  type byte = b: int | 0 <= b < 256

  /** The alphabet of Table 1 of RFC 4648. */
  function Char(i: int): (c: char)
    requires 0 <= i < 64
  {
    if i < 26 then ('A' as int + i) as char
    else if i < 52 then ('a' as int + (i - 26)) as char
    else if i < 62 then ('0' as int + (i - 52)) as char
    else if i == 62 then '+'
    else '/'
  }

  /** The position of c in the alphabet, or -1 when c is not one of its letters. */
  function Index(c: char): (i: int)
    ensures -1 <= i < 64
  {
    if 'A' <= c <= 'Z' then c as int - 'A' as int
    else if 'a' <= c <= 'z' then c as int - 'a' as int + 26
    else if '0' <= c <= '9' then c as int - '0' as int + 52
    else if c == '+' then 62
    else if c == '/' then 63
    else -1
  }

  /** Looking a letter up finds its position. */
  lemma IndexOfChar(i: int)
    requires 0 <= i < 64
    ensures Index(Char(i)) == i
  {
  }

  /** Every letter found in the alphabet is the letter at its position. */
  lemma CharOfIndex(c: char)
    requires Index(c) >= 0
    ensures Char(Index(c)) == c
  {
  }

  /** Three bytes become four letters of six bits each. */
  function EncodeBlock(b0: byte, b1: byte, b2: byte): string
  {
    [Char(b0 / 4), Char((b0 % 4) * 16 + b1 / 16), Char((b1 % 16) * 4 + b2 / 64), Char(b2 % 64)]
  }

  /** The encoding of b: full blocks, then one or two padded letters-groups for a short tail. */
  function Encode(b: seq<byte>): (s: string)
    ensures |s| == 4 * ((|b| + 2) / 3)
    decreases |b|
  {
    if |b| == 0 then ""
    else if |b| == 1 then [Char(b[0] / 4), Char((b[0] % 4) * 16), '=', '=']
    else if |b| == 2 then [Char(b[0] / 4), Char((b[0] % 4) * 16 + b[1] / 16), Char((b[1] % 16) * 4), '=']
    else EncodeBlock(b[0], b[1], b[2]) + Encode(b[3..])
  }

  /** Whether c is one of the 64 letters of the alphabet. */
  predicate IsLetter(c: char)
  {
    Index(c) >= 0
  }

  /** Four letters of six bits each become three bytes. */
  function DecodeBlock(c0: int, c1: int, c2: int, c3: int): seq<byte>
    requires 0 <= c0 < 64 && 0 <= c1 < 64 && 0 <= c2 < 64 && 0 <= c3 < 64
  {
    [c0 * 4 + c1 / 16, (c1 % 16) * 16 + c2 / 4, (c2 % 4) * 64 + c3]
  }

  /**
    A final group that ends in '=': "xy==" is one byte and "xyz=" two; the
    bits under the padding must be zero.
  */
  function DecodePadded(s: string): Option<seq<byte>>
    requires |s| == 4
  {
    if !IsLetter(s[0]) || !IsLetter(s[1]) || s[3] != '=' then None
    else
      var c0, c1 := Index(s[0]), Index(s[1]);
      if s[2] == '=' then
        if c1 % 16 == 0 then Some([c0 * 4 + c1 / 16]) else None
      else if IsLetter(s[2]) && Index(s[2]) % 4 == 0 then
        Some([c0 * 4 + c1 / 16, (c1 % 16) * 16 + Index(s[2]) / 4])
      else None
  }

  /**
    Strict decoding: None for a length that is not a multiple of four, a
    letter outside the alphabet, padding anywhere but at the end of the
    last group, or non-zero bits hidden under the padding.
  */
  function Decode(s: string): (r: Option<seq<byte>>)
    decreases |s|
  {
    if |s| == 0 then Some([])
    else if |s| < 4 then None
    else if s[3] == '=' then
      if |s| == 4 then DecodePadded(s[..4]) else None
    else if !(IsLetter(s[0]) && IsLetter(s[1]) && IsLetter(s[2]) && IsLetter(s[3])) then None
    else
      match Decode(s[4..])
      case None => None
      case Some(rest) => Some(DecodeBlock(Index(s[0]), Index(s[1]), Index(s[2]), Index(s[3])) + rest)
  }

  /** The six-bit groups of one block give its three bytes back. */
  lemma DecodeBlockArith(b0: byte, b1: byte, b2: byte)
    ensures var c0, c1, c2, c3 := b0 / 4, (b0 % 4) * 16 + b1 / 16, (b1 % 16) * 4 + b2 / 64, b2 % 64;
      DecodeBlock(c0, c1, c2, c3) == [b0, b1, b2]
  {
  }

  /** The three bytes of a block give its six-bit groups back. */
  lemma EncodeBlockArith(c0: int, c1: int, c2: int, c3: int)
    requires 0 <= c0 < 64 && 0 <= c1 < 64 && 0 <= c2 < 64 && 0 <= c3 < 64
    ensures var b := DecodeBlock(c0, c1, c2, c3);
      b[0] / 4 == c0 && (b[0] % 4) * 16 + b[1] / 16 == c1 && (b[1] % 16) * 4 + b[2] / 64 == c2 && b[2] % 64 == c3
  {
  }

  /** The groups of a two-byte tail give its bytes back. */
  lemma TailArith(b0: byte, b1: byte)
    ensures var c0, c1, c2 := b0 / 4, (b0 % 4) * 16 + b1 / 16, (b1 % 16) * 4;
      0 <= c0 < 64 && 0 <= c1 < 64 && 0 <= c2 < 64 && c2 % 4 == 0 && c0 * 4 + c1 / 16 == b0 && (c1 % 16) * 16 + c2 / 4 == b1
  {
  }

  /** How Decode treats a text that starts with a group of four letters. */
  lemma DecodeFullGroup(s: string)
    requires |s| >= 4 && IsLetter(s[0]) && IsLetter(s[1]) && IsLetter(s[2]) && IsLetter(s[3])
    requires Decode(s[4..]).Some?
    ensures Decode(s) == Some(DecodeBlock(Index(s[0]), Index(s[1]), Index(s[2]), Index(s[3])) + Decode(s[4..]).value)
  {
    assert Index('=') < 0;
  }

  /** How Decode treats a final group with padding. */
  lemma DecodeLastGroup(s: string)
    requires |s| == 4 && s[3] == '='
    ensures Decode(s) == DecodePadded(s)
  {
    assert s[..4] == s;
  }

  /** A final group "xy==" of two letters. */
  lemma DecodePaddedOne(c0: int, c1: int)
    requires 0 <= c0 < 64 && 0 <= c1 < 64 && c1 % 16 == 0
    ensures Decode([Char(c0), Char(c1), '=', '=']) == Some([c0 * 4 + c1 / 16])
  {
    IndexOfChar(c0);
    IndexOfChar(c1);
    DecodeLastGroup([Char(c0), Char(c1), '=', '=']);
  }

  /** A final group "xyz=" of three letters. */
  lemma DecodePaddedTwo(c0: int, c1: int, c2: int)
    requires 0 <= c0 < 64 && 0 <= c1 < 64 && 0 <= c2 < 64 && c2 % 4 == 0
    ensures Decode([Char(c0), Char(c1), Char(c2), '=']) == Some([c0 * 4 + c1 / 16, (c1 % 16) * 16 + c2 / 4])
  {
    IndexOfChar(c0);
    IndexOfChar(c1);
    IndexOfChar(c2);
    assert Index('=') < 0;
    DecodeLastGroup([Char(c0), Char(c1), Char(c2), '=']);
  }

  /** The groups of a one-byte tail give its byte back. */
  lemma OneByteArith(b0: byte)
    ensures var c0, c1 := b0 / 4, (b0 % 4) * 16;
      0 <= c0 < 64 && 0 <= c1 < 64 && c1 % 16 == 0 && c0 * 4 + c1 / 16 == b0
  {
  }

  /** One trailing byte: two letters and two padding characters that decode to it. */
  lemma DecodeEncodeOne(b: seq<byte>)
    requires |b| == 1
    ensures Decode(Encode(b)) == Some(b)
  {
    var c0, c1 := b[0] / 4, (b[0] % 4) * 16;
    assert Encode(b) == [Char(c0), Char(c1), '=', '='];
    OneByteArith(b[0]);
    DecodePaddedOne(c0, c1);
    assert [c0 * 4 + c1 / 16] == b;
  }

  /** The letters of a two-byte tail. */
  lemma EncodeTwo(b0: byte, b1: byte)
    ensures Encode([b0, b1]) == [Char(b0 / 4), Char((b0 % 4) * 16 + b1 / 16), Char((b1 % 16) * 4), '=']
  {
  }

  /** The letters of a two-byte tail decode to it. */
  lemma DecodeTwo(b0: byte, b1: byte)
    ensures Decode([Char(b0 / 4), Char((b0 % 4) * 16 + b1 / 16), Char((b1 % 16) * 4), '=']) == Some([b0, b1])
  {
    TailArith(b0, b1);
    DecodePaddedTwo(b0 / 4, (b0 % 4) * 16 + b1 / 16, (b1 % 16) * 4);
  }

  /** Two trailing bytes: three letters and one padding character that decode to them. */
  lemma DecodeEncodeTwo(b: seq<byte>)
    requires |b| == 2
    ensures Decode(Encode(b)) == Some(b)
  {
    assert b == [b[0], b[1]];
    EncodeTwo(b[0], b[1]);
    DecodeTwo(b[0], b[1]);
  }

  /** Decoding an encoding gives the bytes back. */
  lemma {:induction false} DecodeEncode(b: seq<byte>)
    ensures Decode(Encode(b)) == Some(b)
    decreases |b|
  {
    if |b| == 1 {
      DecodeEncodeOne(b);
    } else if |b| == 2 {
      DecodeEncodeTwo(b);
    } else if |b| >= 3 {
      var c0, c1, c2, c3 := b[0] / 4, (b[0] % 4) * 16 + b[1] / 16, (b[1] % 16) * 4 + b[2] / 64, b[2] % 64;
      var s := EncodeBlock(b[0], b[1], b[2]) + Encode(b[3..]);
      calc {
        Decode(Encode(b));
        Decode(s);
        { assert s[..4] == [Char(c0), Char(c1), Char(c2), Char(c3)];
          assert s[4..] == Encode(b[3..]);
          IndexOfChar(c0); IndexOfChar(c1); IndexOfChar(c2); IndexOfChar(c3);
          DecodeEncode(b[3..]);
          DecodeFullGroup(s); }
        Some(DecodeBlock(c0, c1, c2, c3) + b[3..]);
        { DecodeBlockArith(b[0], b[1], b[2]); assert [b[0], b[1], b[2]] + b[3..] == b; }
        Some(b);
      }
    }
  }

  /** Re-encoding the byte of a final group "xy==". */
  lemma EncodePaddedOne(c0: int, c1: int)
    requires 0 <= c0 < 64 && 0 <= c1 < 64 && c1 % 16 == 0
    ensures Encode([c0 * 4 + c1 / 16]) == [Char(c0), Char(c1), '=', '=']
  {
    var b0 := c0 * 4 + c1 / 16;
    assert b0 / 4 == c0 && (b0 % 4) * 16 == c1;
  }

  /** Re-encoding the two bytes of a final group "xyz=". */
  lemma EncodePaddedTwo(c0: int, c1: int, c2: int)
    requires 0 <= c0 < 64 && 0 <= c1 < 64 && 0 <= c2 < 64 && c2 % 4 == 0
    ensures Encode([c0 * 4 + c1 / 16, (c1 % 16) * 16 + c2 / 4]) == [Char(c0), Char(c1), Char(c2), '=']
  {
    var b0, b1 := c0 * 4 + c1 / 16, (c1 % 16) * 16 + c2 / 4;
    assert b0 / 4 == c0 && (b0 % 4) * 16 + b1 / 16 == c1 && (b1 % 16) * 4 == c2;
  }

  /** A padded final group decodes to one or two bytes that encode back to it. */
  lemma EncodePadded(s: string)
    requires |s| == 4 && DecodePadded(s).Some?
    ensures Encode(DecodePadded(s).value) == s
  {
    var c0, c1 := Index(s[0]), Index(s[1]);
    CharOfIndex(s[0]);
    CharOfIndex(s[1]);
    if s[2] == '=' {
      EncodePaddedOne(c0, c1);
      assert s == [s[0], s[1], '=', '='];
    } else {
      CharOfIndex(s[2]);
      EncodePaddedTwo(c0, c1, Index(s[2]));
      assert s == [s[0], s[1], s[2], '='];
    }
  }

  /** Encoding three bytes ahead of more bytes. */
  lemma EncodeFullGroup(block: seq<byte>, rest: seq<byte>)
    requires |block| == 3
    ensures Encode(block + rest) == EncodeBlock(block[0], block[1], block[2]) + Encode(rest)
  {
    assert (block + rest)[3..] == rest;
  }

  /** Re-encoding the three bytes of a full group gives its four letters. */
  lemma EncodeDecodedBlock(c0: int, c1: int, c2: int, c3: int)
    requires 0 <= c0 < 64 && 0 <= c1 < 64 && 0 <= c2 < 64 && 0 <= c3 < 64
    ensures var b := DecodeBlock(c0, c1, c2, c3); EncodeBlock(b[0], b[1], b[2]) == [Char(c0), Char(c1), Char(c2), Char(c3)]
  {
    EncodeBlockArith(c0, c1, c2, c3);
  }

  /** A decodable text whose first group has no padding starts with four letters and goes on decodably. */
  lemma DecodedFullGroup(s: string)
    requires |s| >= 4 && s[3] != '=' && Decode(s).Some?
    ensures IsLetter(s[0]) && IsLetter(s[1]) && IsLetter(s[2]) && IsLetter(s[3])
    ensures Decode(s[4..]).Some?
  {
  }

  /** Re-encoding a full group followed by a tail that re-encodes to the rest of the text. */
  lemma EncodeDecodedGroup(s: string)
    requires |s| >= 4 && IsLetter(s[0]) && IsLetter(s[1]) && IsLetter(s[2]) && IsLetter(s[3])
    requires Decode(s[4..]).Some? && Encode(Decode(s[4..]).value) == s[4..]
    ensures Decode(s).Some? && Encode(Decode(s).value) == s
  {
    var c0, c1, c2, c3 := Index(s[0]), Index(s[1]), Index(s[2]), Index(s[3]);
    var block := DecodeBlock(c0, c1, c2, c3);
    var rest := Decode(s[4..]).value;
    DecodeFullGroup(s);
    calc {
      Encode(Decode(s).value);
      Encode(block + rest);
      { EncodeFullGroup(block, rest); }
      EncodeBlock(block[0], block[1], block[2]) + Encode(rest);
      { EncodeDecodedBlock(c0, c1, c2, c3); }
      [Char(c0), Char(c1), Char(c2), Char(c3)] + s[4..];
      { CharOfIndex(s[0]); CharOfIndex(s[1]); CharOfIndex(s[2]); CharOfIndex(s[3]); }
      [s[0], s[1], s[2], s[3]] + s[4..];
      { assert s == [s[0], s[1], s[2], s[3]] + s[4..]; }
      s;
    }
  }

  /** Encoding a successful decoding gives the text back: Decode is exactly the inverse of Encode. */
  lemma {:induction false} EncodeDecode(s: string)
    requires Decode(s).Some?
    ensures Encode(Decode(s).value) == s
    decreases |s|
  {
    if |s| >= 4 {
      if s[3] == '=' {
        DecodeLastGroup(s);
        EncodePadded(s);
      } else {
        DecodedFullGroup(s);
        EncodeDecode(s[4..]);
        EncodeDecodedGroup(s);
      }
    }
  }

  /** Different byte strings never share an encoding. */
  lemma EncodeInjective(a: seq<byte>, b: seq<byte>)
    requires Encode(a) == Encode(b)
    ensures a == b
  {
    DecodeEncode(a);
    DecodeEncode(b);
  }

  /** The encoding is empty exactly for the empty byte string. */
  lemma EncodeEmpty(b: seq<byte>)
    ensures Encode(b) == "" <==> b == []
  {
  }
}
