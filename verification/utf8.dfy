/** `Encoding.UTF8.GetBytes`: the UTF-8 encoding form of RFC 3629, applied to a string of
    Unicode scalar values, and a decoder that inverts it. */
module Utf8 {
  import opened Wrappers
  import opened Primitives

  predicate IsContinuation(b: byte) {
    0x80 <= b < 0xC0
  }

  /** The 1 to 4 bytes of one scalar value. */
  function EncodeScalar(c: char): (bs: seq<byte>)
    ensures 1 <= |bs| <= 4
    ensures |bs| == 1 <==> c as int < 0x80
  {
    var cp := c as int;
    var q1, r1 := cp / 64, cp % 64;
    var q2, r2 := q1 / 64, q1 % 64;
    var q3, r3 := q2 / 64, q2 % 64;
    if cp < 0x80 then [cp]
    else if cp < 0x800 then [0xC0 + q1, 0x80 + r1]
    else if cp < 0x1_0000 then [0xE0 + q2, 0x80 + r2, 0x80 + r1]
    else [0xF0 + q3, 0x80 + r3, 0x80 + r2, 0x80 + r1]
  }

  /** The UTF-8 bytes of a string, scalar by scalar. */
  function Encode(s: string): (bs: seq<byte>)
    ensures |s| <= |bs| <= 4 * |s|
  {
    if |s| == 0 then [] else EncodeScalar(s[0]) + Encode(s[1..])
  }

  predicate IsScalarValue(cp: int) {
    0 <= cp < 0xD800 || 0xE000 <= cp < 0x11_0000
  }

  /** A decoded code point, provided it is a scalar value and at least `least`, the
      smallest value that needs that many bytes: RFC 3629 forbids overlong forms. */
  function ToScalar(cp: int, least: int, length: nat): Option<(char, nat)> {
    if IsScalarValue(cp) && cp >= least then Some((cp as char, length)) else None
  }

  /** Decodes the scalar value at the front of `bs` and says how many bytes it used. */
  function DecodeFirst(bs: seq<byte>): (r: Option<(char, nat)>)
    ensures r.Some? ==> 1 <= r.value.1 <= |bs|
  {
    if |bs| == 0 then None
    else if bs[0] < 0x80 then Some((bs[0] as char, 1))
    else if 0xC0 <= bs[0] < 0xE0 && |bs| >= 2 && IsContinuation(bs[1]) then
      ToScalar((bs[0] as int - 0xC0) * 64 + (bs[1] as int - 0x80), 0x80, 2)
    else if 0xE0 <= bs[0] < 0xF0 && |bs| >= 3 && IsContinuation(bs[1]) && IsContinuation(bs[2]) then
      ToScalar(((bs[0] as int - 0xE0) * 64 + (bs[1] as int - 0x80)) * 64 + (bs[2] as int - 0x80), 0x800, 3)
    else if 0xF0 <= bs[0] < 0xF8 && |bs| >= 4 && IsContinuation(bs[1]) && IsContinuation(bs[2]) && IsContinuation(bs[3]) then
      ToScalar((((bs[0] as int - 0xF0) * 64 + (bs[1] as int - 0x80)) * 64 + (bs[2] as int - 0x80)) * 64 + (bs[3] as int - 0x80), 0x1_0000, 4)
    else None
  }

  /** Decodes a whole byte sequence, or fails on malformed input. */
  function Decode(bs: seq<byte>): Option<string>
    decreases |bs|
  {
    if |bs| == 0 then Some("")
    else match DecodeFirst(bs)
      case None => None
      case Some((c, n)) =>
        match Decode(bs[n..])
        case None => None
        case Some(rest) => Some([c] + rest)
  }

  lemma DecodeFirstOfScalar(c: char, rest: seq<byte>)
    ensures DecodeFirst(EncodeScalar(c) + rest) == Some((c, |EncodeScalar(c)|))
  {
    var cp := c as int;
    var bs := EncodeScalar(c) + rest;
    if cp >= 0x800 && cp < 0x1_0000 {
      assert ((bs[0] as int - 0xE0) * 64 + (bs[1] as int - 0x80)) * 64 + (bs[2] as int - 0x80) == cp;
    } else if cp >= 0x1_0000 {
      assert (((bs[0] as int - 0xF0) * 64 + (bs[1] as int - 0x80)) * 64 + (bs[2] as int - 0x80)) * 64 + (bs[3] as int - 0x80) == cp;
    }
  }

  /** Decoding the encoding of a string gives the string back. */
  lemma {:induction false} DecodeEncode(s: string)
    ensures Decode(Encode(s)) == Some(s)
  {
    if |s| > 0 {
      var head := EncodeScalar(s[0]);
      var bs := Encode(s);
      DecodeFirstOfScalar(s[0], Encode(s[1..]));
      assert bs[|head|..] == Encode(s[1..]);
      DecodeEncode(s[1..]);
      assert [s[0]] + s[1..] == s;
    }
  }

  /** ASCII text encodes to one byte per character, each the character's code. */
  lemma {:induction false} EncodeAscii(s: string)
    requires forall i :: 0 <= i < |s| ==> s[i] as int < 0x80
    ensures |Encode(s)| == |s|
    ensures forall i :: 0 <= i < |s| ==> Encode(s)[i] == s[i] as int
  {
    if |s| > 0 {
      EncodeAscii(s[1..]);
      assert Encode(s) == [s[0] as int] + Encode(s[1..]);
    }
  }

  /** The bytes a scalar value is decoded from are its encoding. */
  lemma EncodeDecodeFirst(bs: seq<byte>)
    requires DecodeFirst(bs).Some?
    ensures var (c, n) := DecodeFirst(bs).value; EncodeScalar(c) == bs[..n]
  {
    var (c, n) := DecodeFirst(bs).value;
    var cp := c as int;
    if n == 2 {
      DivMod64(cp, bs[0] as int - 0xC0, bs[1] as int - 0x80);
    } else if n == 3 {
      var hi := (bs[0] as int - 0xE0) * 64 + (bs[1] as int - 0x80);
      DivMod64(cp, hi, bs[2] as int - 0x80);
      DivMod64(hi, bs[0] as int - 0xE0, bs[1] as int - 0x80);
    } else if n == 4 {
      var hi := (bs[0] as int - 0xF0) * 64 + (bs[1] as int - 0x80);
      var mid := hi * 64 + (bs[2] as int - 0x80);
      DivMod64(cp, mid, bs[3] as int - 0x80);
      DivMod64(mid, hi, bs[2] as int - 0x80);
      DivMod64(hi, bs[0] as int - 0xF0, bs[1] as int - 0x80);
    }
  }

  /** The converse round trip: bytes that decode are the encoding of what they decode to,
      so no other byte sequence (an overlong form, say) decodes to the same text. */
  lemma {:induction false} EncodeDecode(bs: seq<byte>)
    requires Decode(bs).Some?
    ensures Encode(Decode(bs).value) == bs
    decreases |bs|
  {
    if |bs| > 0 {
      var (c, n) := DecodeFirst(bs).value;
      var tail := Decode(bs[n..]).value;
      assert Decode(bs) == Some([c] + tail);
      EncodeDecodeFirst(bs);
      EncodeDecode(bs[n..]);
      assert Encode([c] + tail) == EncodeScalar(c) + Encode(tail) by {
        assert ([c] + tail)[0] == c && ([c] + tail)[1..] == tail;
      }
      assert bs == bs[..n] + bs[n..];
    }
  }

  /** Two byte sequences that decode to the same text are the same bytes. */
  lemma DecodeInjective(bs: seq<byte>, cs: seq<byte>)
    requires Decode(bs).Some? && Decode(bs) == Decode(cs)
    ensures bs == cs
  {
    EncodeDecode(bs);
    EncodeDecode(cs);
  }
}
