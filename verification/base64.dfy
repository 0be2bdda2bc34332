/** `Convert.ToBase64String`: the base64 encoding of section 4 of RFC 4648 (alphabet
    A-Z a-z 0-9 + /, '=' padding, no line breaks), and a decoder that inverts it. */
module Base64 {
  import opened Wrappers
  import opened Primitives

  /** The character for a 6-bit value (Table 1 of RFC 4648). */
  function AlphabetChar(v: int): (c: char)
    requires 0 <= v < 64
    ensures SextetOf(c) == Some(v)
  {
    if v < 26 then ('A' as int + v) as char
    else if v < 52 then ('a' as int + v - 26) as char
    else if v < 62 then ('0' as int + v - 52) as char
    else if v == 62 then '+'
    else '/'
  }

  /** The 6-bit value of an alphabet character; `None` for anything else, '=' included. */
  function SextetOf(c: char): (r: Option<int>)
    ensures r.Some? ==> 0 <= r.value < 64
  {
    if 'A' <= c <= 'Z' then Some(c as int - 'A' as int)
    else if 'a' <= c <= 'z' then Some(c as int - 'a' as int + 26)
    else if '0' <= c <= '9' then Some(c as int - '0' as int + 52)
    else if c == '+' then Some(62)
    else if c == '/' then Some(63)
    else None
  }

  predicate IsAlphabetChar(c: char) {
    SextetOf(c).Some?
  }

  const Pad: char := '='

  /** The four characters of a full 3-byte group. */
  function EncodeGroup(b0: byte, b1: byte, b2: byte): (q: string)
    ensures |q| == 4 && forall i :: 0 <= i < 4 ==> IsAlphabetChar(q[i])
  {
    [AlphabetChar(b0 / 4), AlphabetChar((b0 % 4) * 16 + b1 / 16), AlphabetChar((b1 % 16) * 4 + b2 / 64), AlphabetChar(b2 % 64)]
  }

  /** A final group of one byte: two characters and two pads. */
  function EncodeLastOne(b0: byte): (q: string)
    ensures |q| == 4 && IsAlphabetChar(q[0]) && IsAlphabetChar(q[1]) && q[2] == Pad && q[3] == Pad
  {
    [AlphabetChar(b0 / 4), AlphabetChar((b0 % 4) * 16), Pad, Pad]
  }

  /** A final group of two bytes: three characters and one pad. */
  function EncodeLastTwo(b0: byte, b1: byte): (q: string)
    ensures |q| == 4 && IsAlphabetChar(q[0]) && IsAlphabetChar(q[1]) && IsAlphabetChar(q[2]) && q[3] == Pad
  {
    [AlphabetChar(b0 / 4), AlphabetChar((b0 % 4) * 16 + b1 / 16), AlphabetChar((b1 % 16) * 4), Pad]
  }

  /** Encodes each full 3-byte group as 4 characters; a final group of 1 or 2 bytes is
      zero-filled and padded with '=' to 4 characters. */
  function Encode(bs: seq<byte>): (s: string)
    ensures |s| == 4 * ((|bs| + 2) / 3)
    decreases |bs|
  {
    if |bs| == 0 then ""
    else if |bs| == 1 then EncodeLastOne(bs[0])
    else if |bs| == 2 then EncodeLastTwo(bs[0], bs[1])
    else
      EncodeGroup(bs[0], bs[1], bs[2]) + Encode(bs[3..])
  }

  /** Every character of an encoding is from the alphabet, except '=' padding, which
      occurs only in the last two positions. */
  lemma {:induction false} EncodeAlphabet(bs: seq<byte>)
    ensures forall i :: 0 <= i < |Encode(bs)| ==>
      IsAlphabetChar(Encode(bs)[i]) || (Encode(bs)[i] == Pad && i >= |Encode(bs)| - 2)
    decreases |bs|
  {
    if |bs| >= 3 {
      EncodeAlphabet(bs[3..]);
      var q, rest := EncodeGroup(bs[0], bs[1], bs[2]), Encode(bs[3..]);
      var s := Encode(bs);
      assert s == q + rest;
      forall i | 0 <= i < |s|
        ensures IsAlphabetChar(s[i]) || (s[i] == Pad && i >= |s| - 2)
      {
        if i >= 4 {
          assert s[i] == rest[i - 4];
        } else {
          assert s[i] == q[i];
        }
      }
    }
  }

  /** The bytes of one group of four characters; padding is accepted only in the final
      group, and the bits a pad leaves over must be zero (section 3.5 of RFC 4648), so
      every byte sequence has exactly one encoding that decodes to it. */
  function DecodeGroup(q: string, final: bool): Option<seq<byte>>
    requires |q| == 4
  {
    var v0, v1, v2, v3 := SextetOf(q[0]), SextetOf(q[1]), SextetOf(q[2]), SextetOf(q[3]);
    if v0.None? || v1.None? then None
    else if final && q[2] == Pad && q[3] == Pad then
      if v1.value % 16 != 0 then None
      else Some([FirstByte(v0.value, v1.value)])
    else if v2.None? then None
    else if final && q[3] == Pad then
      if v2.value % 4 != 0 then None
      else Some([FirstByte(v0.value, v1.value), SecondByte(v1.value, v2.value)])
    else if v3.None? then None
    else Some([FirstByte(v0.value, v1.value), SecondByte(v1.value, v2.value), ThirdByte(v2.value, v3.value)])
  }

  /** The byte spread over the first 6 + 2 bits of a group. */
  function FirstByte(v0: int, v1: int): byte
    requires 0 <= v0 < 64 && 0 <= v1 < 64
  {
    v0 * 4 + v1 / 16
  }

  /** The byte spread over the next 4 + 4 bits of a group. */
  function SecondByte(v1: int, v2: int): byte
    requires 0 <= v1 < 64 && 0 <= v2 < 64
  {
    (v1 % 16) * 16 + v2 / 4
  }

  /** The byte spread over the last 2 + 6 bits of a group. */
  function ThirdByte(v2: int, v3: int): byte
    requires 0 <= v2 < 64 && 0 <= v3 < 64
  {
    (v2 % 4) * 64 + v3
  }

  /** Splitting three bytes into sextets and regrouping them gives the bytes back. */
  lemma GroupArithmetic(b0: byte, b1: byte, b2: byte)
    ensures FirstByte(b0 / 4, (b0 % 4) * 16 + b1 / 16) == b0
    ensures SecondByte((b0 % 4) * 16 + b1 / 16, (b1 % 16) * 4 + b2 / 64) == b1
    ensures ThirdByte((b1 % 16) * 4 + b2 / 64, b2 % 64) == b2
  {
  }

  /** Decodes base64 text; `None` when the text is not a padded base64 encoding. */
  function Decode(s: string): Option<seq<byte>>
    decreases |s|
  {
    if |s| == 0 then Some([])
    else if |s| < 4 then None
    else match DecodeGroup(s[..4], |s| == 4)
      case None => None
      case Some(group) =>
        match Decode(s[4..])
        case None => None
        case Some(rest) => Some(group + rest)
  }

  lemma DecodeEncodeGroup(b0: byte, b1: byte, b2: byte, final: bool)
    ensures DecodeGroup(EncodeGroup(b0, b1, b2), final) == Some([b0, b1, b2])
  {
    var v1, v2 := (b0 % 4) * 16 + b1 / 16, (b1 % 16) * 4 + b2 / 64;
    var q := EncodeGroup(b0, b1, b2);
    assert SextetOf(q[0]) == Some(b0 / 4) && SextetOf(q[1]) == Some(v1);
    assert SextetOf(q[2]) == Some(v2) && SextetOf(q[3]) == Some(b2 % 64);
    assert q[2] != Pad && q[3] != Pad;
    GroupArithmetic(b0, b1, b2);
  }

  lemma DecodeEncodeLastOne(b0: byte)
    ensures DecodeGroup(EncodeLastOne(b0), true) == Some([b0])
  {
    var q := EncodeLastOne(b0);
    assert SextetOf(q[0]) == Some(b0 / 4) && SextetOf(q[1]) == Some((b0 % 4) * 16);
    assert ((b0 % 4) * 16) % 16 == 0;
    assert q[2] == Pad && q[3] == Pad;
    GroupArithmetic(b0, 0, 0);
  }

  lemma DecodeEncodeLastTwo(b0: byte, b1: byte)
    ensures DecodeGroup(EncodeLastTwo(b0, b1), true) == Some([b0, b1])
  {
    var v1, v2 := (b0 % 4) * 16 + b1 / 16, (b1 % 16) * 4;
    var q := EncodeLastTwo(b0, b1);
    assert SextetOf(q[0]) == Some(b0 / 4) && SextetOf(q[1]) == Some(v1) && SextetOf(q[2]) == Some(v2);
    assert v2 % 4 == 0 by { DivMod4(v2, b1 % 16, 0); }
    assert q[2] != Pad && q[3] == Pad;
    GroupArithmetic(b0, b1, 0);
  }

  /** Decoding a full group followed by decodable text. */
  lemma DecodeGroupThenRest(q: string, rest: string, group: seq<byte>, tail: seq<byte>)
    requires |q| == 4
    requires DecodeGroup(q, |rest| == 0) == Some(group)
    requires Decode(rest) == Some(tail)
    ensures Decode(q + rest) == Some(group + tail)
  {
    var s := q + rest;
    assert s[..4] == q;
    assert s[4..] == rest;
  }

  /** A text of exactly one group decodes as a final group. */
  lemma DecodeSingleGroup(q: string)
    requires |q| == 4
    ensures Decode(q) == DecodeGroup(q, true)
  {
    assert q[..4] == q;
    assert Decode(q[4..]) == Some([]);
    if DecodeGroup(q, true).Some? {
      assert DecodeGroup(q, true).value + [] == DecodeGroup(q, true).value;
    }
  }

  /** Decoding an encoding gives the bytes back. */
  lemma {:induction false} DecodeEncode(bs: seq<byte>)
    ensures Decode(Encode(bs)) == Some(bs)
    decreases |bs|
  {
    if |bs| == 1 {
      DecodeEncodeShort(bs);
    } else if |bs| == 2 {
      DecodeEncodeShort(bs);
    } else if |bs| >= 3 {
      DecodeEncode(bs[3..]);
      DecodeEncodeFullGroup(bs);
    }
  }

  /** One or two bytes: a single padded group. */
  lemma DecodeEncodeShort(bs: seq<byte>)
    requires 1 <= |bs| <= 2
    ensures Decode(Encode(bs)) == Some(bs)
  {
    var s := Encode(bs);
    if |bs| == 1 {
      DecodeEncodeLastOne(bs[0]);
      assert bs == [bs[0]];
    } else {
      DecodeEncodeLastTwo(bs[0], bs[1]);
      assert bs == [bs[0], bs[1]];
    }
    DecodeSingleGroup(s);
  }

  /** A full group in front of text that decodes to the remaining bytes. */
  lemma DecodeEncodeFullGroup(bs: seq<byte>)
    requires |bs| >= 3 && Decode(Encode(bs[3..])) == Some(bs[3..])
    ensures Decode(Encode(bs)) == Some(bs)
  {
    EncodeFirstGroup(bs);
    var rest := Encode(bs[3..]);
    DecodeEncodeGroup(bs[0], bs[1], bs[2], |rest| == 0);
    DecodeGroupThenRest(EncodeGroup(bs[0], bs[1], bs[2]), rest, [bs[0], bs[1], bs[2]], bs[3..]);
  }

  /** Three or more bytes encode as their first group followed by the rest. */
  lemma EncodeFirstGroup(bs: seq<byte>)
    requires |bs| >= 3
    ensures bs == [bs[0], bs[1], bs[2]] + bs[3..]
    ensures Encode(bs) == EncodeGroup(bs[0], bs[1], bs[2]) + Encode(bs[3..])
  {
    var head := bs[..3];
    assert head == [bs[0], bs[1], bs[2]];
    assert bs == head + bs[3..];
  }

  /** The alphabet character of a sextet is the character it was read from. */
  lemma AlphabetCharOfSextet(c: char)
    requires SextetOf(c).Some?
    ensures AlphabetChar(SextetOf(c).value) == c
  {
  }

  /** Regrouping the sextets of a decoded group gives the sextets back. */
  lemma SextetArithmetic(v0: int, v1: int, v2: int, v3: int)
    requires 0 <= v0 < 64 && 0 <= v1 < 64 && 0 <= v2 < 64 && 0 <= v3 < 64
    ensures FirstByte(v0, v1) / 4 == v0
    ensures (FirstByte(v0, v1) % 4) * 16 + SecondByte(v1, v2) / 16 == v1
    ensures (SecondByte(v1, v2) % 16) * 4 + ThirdByte(v2, v3) / 64 == v2
    ensures ThirdByte(v2, v3) % 64 == v3
  {
    var b0, b1, b2 := FirstByte(v0, v1), SecondByte(v1, v2), ThirdByte(v2, v3);
    assert b0 / 4 == v0 && b0 % 4 == v1 / 16 by { DivMod4(b0, v0, v1 / 16); }
    assert b1 / 16 == v1 % 16 && b1 % 16 == v2 / 4 by { DivMod16(b1, v1 % 16, v2 / 4); }
    assert b2 / 64 == v2 % 4 && b2 % 64 == v3 by { DivMod64(b2, v2 % 4, v3); }
  }

  /** A group that decodes is the encoding of the bytes it decodes to. */
  lemma EncodeDecodeGroup(q: string, final: bool)
    requires |q| == 4 && DecodeGroup(q, final).Some?
    ensures var g := DecodeGroup(q, final).value;
      && 1 <= |g| <= 3
      && (|g| < 3 ==> final)
      && Encode(g) == q
  {
    var g := DecodeGroup(q, final).value;
    var v0, v1 := SextetOf(q[0]).value, SextetOf(q[1]).value;
    AlphabetCharOfSextet(q[0]);
    AlphabetCharOfSextet(q[1]);
    if |g| == 1 {
      var b0 := FirstByte(v0, v1);
      SextetArithmetic(v0, v1, 0, 0);
      assert (b0 % 4) * 16 == v1 by { DivMod16(v1, v1 / 16, 0); }
      assert Encode(g) == EncodeLastOne(b0);
    } else if |g| == 2 {
      var v2 := SextetOf(q[2]).value;
      AlphabetCharOfSextet(q[2]);
      var b0, b1 := FirstByte(v0, v1), SecondByte(v1, v2);
      SextetArithmetic(v0, v1, v2, 0);
      assert (b1 % 16) * 4 == v2 by { DivMod16(b1, v1 % 16, v2 / 4); DivMod4(v2, v2 / 4, 0); }
      assert Encode(g) == EncodeLastTwo(b0, b1);
    } else {
      var v2, v3 := SextetOf(q[2]).value, SextetOf(q[3]).value;
      AlphabetCharOfSextet(q[2]);
      AlphabetCharOfSextet(q[3]);
      SextetArithmetic(v0, v1, v2, v3);
      assert g[3..] == [];
      assert Encode(g) == EncodeGroup(g[0], g[1], g[2]) + Encode([]);
    }
  }

  /** The converse round trip: text that decodes is the encoding of what it decodes to,
      so `Encode` is the only encoder whose output decodes to a given byte sequence. */
  lemma {:induction false} EncodeDecode(s: string)
    requires Decode(s).Some?
    ensures Encode(Decode(s).value) == s
    decreases |s|
  {
    if |s| > 0 {
      var q, rest := s[..4], s[4..];
      assert s == q + rest;
      var g := DecodeGroup(q, |s| == 4).value;
      EncodeDecodeGroup(q, |s| == 4);
      EncodeDecode(rest);
      var tail := Decode(rest).value;
      assert Decode(s).value == g + tail;
      if |g| == 3 {
        assert (g + tail)[..3] == g && (g + tail)[3..] == tail;
        assert Encode(g) == EncodeGroup(g[0], g[1], g[2]) + Encode([]);
        assert Encode(g + tail) == EncodeGroup(g[0], g[1], g[2]) + Encode(tail);
      } else {
        assert tail == [] && rest == [];
        assert g + tail == g;
      }
    }
  }

  /** Two texts that decode to the same bytes are the same text. */
  lemma DecodeInjective(s: string, t: string)
    requires Decode(s).Some? && Decode(s) == Decode(t)
    ensures s == t
  {
    EncodeDecode(s);
    EncodeDecode(t);
  }
}
