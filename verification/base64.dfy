/**
 Base 64 as `base64.b64encode` and `base64.b64decode` perform it: the
 encoding of section 4 of RFC 4648, and CPython's lenient decoder
 (`binascii.a2b_base64` outside strict mode), which skips characters outside
 the alphabet, stops at a complete padding sequence and otherwise raises
 `binascii.Error` when a group is left unfinished.
 */
module Base64 {
  import opened Wrappers
  import opened Bytes
  import Text

  /** The character for a 6-bit value, table 1 of RFC 4648. */
  function StdChar(v: int): (c: char)
    requires 0 <= v < 64
  {
    if v < 26 then ('A' as int + v) as char
    else if v < 52 then ('a' as int + v - 26) as char
    else if v < 62 then ('0' as int + v - 52) as char
    else if v == 62 then '+'
    else '/'
  }

  /** The 6-bit value of an alphabet character, `None` for anything else (`table_a2b_base64`). */
  function StdValue(c: char): (v: Option<int>)
    ensures v.Some? ==> 0 <= v.value < 64 && StdChar(v.value) == c
  {
    if 'A' <= c <= 'Z' then Some(c as int - 'A' as int)
    else if 'a' <= c <= 'z' then Some(c as int - 'a' as int + 26)
    else if '0' <= c <= '9' then Some(c as int - '0' as int + 52)
    else if c == '+' then Some(62)
    else if c == '/' then Some(63)
    else None
  }

  /** Table 1 of RFC 4648 is a bijection between 6-bit values and the alphabet. */
  lemma StdValueChar(v: int)
    requires 0 <= v < 64
    ensures StdValue(StdChar(v)) == Some(v)
  {
  }

  predicate IsStdChar(c: char) {
    StdValue(c).Some?
  }

  /** The four characters of one complete 24-bit group. */
  function Quad(b0: Byte, b1: Byte, b2: Byte): string {
    [StdChar(b0 / 4), StdChar(b0 % 4 * 16 + b1 / 16), StdChar(b1 % 16 * 4 + b2 / 64), StdChar(b2 % 64)]
  }

  /**
   The data characters of the encoding: one quad per complete group, and for
   a final group of one or two bytes the two or three characters that carry
   its bits, the unused low bits set to zero.
   */
  function EncodeUnpadded(bs: seq<Byte>): (s: string)
    ensures |s| == (4 * |bs| + 2) / 3
    ensures forall i :: 0 <= i < |s| ==> IsStdChar(s[i])
    decreases |bs|
  {
    if |bs| == 0 then ""
    else if |bs| == 1 then [StdChar(bs[0] / 4), StdChar(bs[0] % 4 * 16)]
    else if |bs| == 2 then [StdChar(bs[0] / 4), StdChar(bs[0] % 4 * 16 + bs[1] / 16), StdChar(bs[1] % 16 * 4)]
    else Quad(bs[0], bs[1], bs[2]) + EncodeUnpadded(bs[3..])
  }

  /** How many `=` complete the final quantum of `n` bytes. */
  function PadLength(n: nat): (p: nat)
    ensures p < 3 && (n + p) % 3 == 0
  {
    (3 - n % 3) % 3
  }

  /** `base64.b64encode(bs)`: the data characters followed by the `=` padding. */
  function Encode(bs: seq<Byte>): (s: string)
    ensures |s| == 4 * ((|bs| + 2) / 3)
  {
    var n := |bs|;
    assert (4 * n + 2) / 3 + PadLength(n) == 4 * ((n + 2) / 3) by {
      var q, r := n / 3, n % 3;
      assert n == 3 * q + r;
      assert (4 * n + 2) / 3 == 4 * q + (4 * r + 2) / 3;
      assert (n + 2) / 3 == q + (r + 2) / 3;
    }
    EncodeUnpadded(bs) + Text.Repeat('=', PadLength(n))
  }

  /** Stripping trailing `=` from an encoding leaves exactly its data characters. */
  lemma StripEncode(bs: seq<Byte>)
    ensures Text.RStrip(Encode(bs), '=') == EncodeUnpadded(bs)
  {
    var e := Encode(bs);
    var d := EncodeUnpadded(bs);
    assert e == d + Text.Repeat('=', PadLength(|bs|));
    assert e[..|d|] == d;
    assert |d| > 0 ==> IsStdChar(e[|d| - 1]) && e[|d| - 1] != '=';
    Text.RStripExact(e, '=', |d|);
  }

  /** Why `b64decode` raises `binascii.Error` (or `ValueError` for a non-ASCII `str`). */
  datatype DecodeError =
    | NonAscii            // the str argument has a character beyond ASCII
    | OneCharTooMany      // one data character past a multiple of four
    | IncorrectPadding    // two or three data characters left without padding

  /** The 8-bit value a decoder step emits is a byte. */
  predicate LeftFits(quadPos: nat, left: int) {
    && 0 <= left
    && (quadPos == 1 ==> left < 64)
    && (quadPos == 2 ==> left < 16)
    && (quadPos == 3 ==> left < 4)
  }

  /**
   The decoding loop of `binascii.a2b_base64`: `quadPos` is the position in
   the current group, `left` the bits not yet emitted and `pads` the `=` seen
   since the last data character while at least two characters of the group
   were present.
   */
  function Run(s: string, quadPos: nat, left: int, pads: nat, out: seq<Byte>): (r: Result<seq<Byte>, DecodeError>)
    requires quadPos < 4 && LeftFits(quadPos, left)
    ensures r.Success? ==> |out| <= |r.value|
    decreases |s|
  {
    if s == [] then
      if quadPos == 0 then Success(out)
      else if quadPos == 1 then Failure(OneCharTooMany)
      else Failure(IncorrectPadding)
    else if s[0] == '=' then
      if quadPos >= 2 && quadPos + pads + 1 >= 4 then Success(out)
      else Run(s[1..], quadPos, left, if quadPos >= 2 then pads + 1 else pads, out)
    else
      match StdValue(s[0])
      case None => Run(s[1..], quadPos, left, pads, out)
      case Some(v) =>
        if quadPos == 0 then Run(s[1..], 1, v, 0, out)
        else if quadPos == 1 then Run(s[1..], 2, v % 16, 0, out + [left * 4 + v / 16])
        else if quadPos == 2 then Run(s[1..], 3, v % 4, 0, out + [left * 16 + v / 4])
        else Run(s[1..], 0, 0, 0, out + [left * 64 + v])
  }

  predicate IsAscii(s: string) {
    forall i :: 0 <= i < |s| ==> s[i] as int < 128
  }

  /** `base64.b64decode(s)` for a `str` argument, without `validate`. */
  function Decode(s: string): (r: Result<seq<Byte>, DecodeError>)
    ensures !IsAscii(s) ==> r == Failure(NonAscii)
  {
    if !IsAscii(s) then Failure(NonAscii) else Run(s, 0, 0, 0, [])
  }

  /** A complete group decodes to its three bytes and leaves the decoder at the start of a group. */
  lemma RunQuad(b0: Byte, b1: Byte, b2: Byte, rest: string, pads: nat, out: seq<Byte>)
    ensures Run(Quad(b0, b1, b2) + rest, 0, 0, pads, out) == Run(rest, 0, 0, 0, out + [b0, b1, b2])
  {
    var s := Quad(b0, b1, b2) + rest;
    var v0, v1, v2, v3 := b0 / 4, b0 % 4 * 16 + b1 / 16, b1 % 16 * 4 + b2 / 64, b2 % 64;
    StdValueChar(v0);
    StdValueChar(v1);
    StdValueChar(v2);
    StdValueChar(v3);
    var s1, s2, s3 := s[1..], s[2..], s[3..];
    assert s[0] == StdChar(v0) && s1[0] == StdChar(v1) && s2[0] == StdChar(v2) && s3[0] == StdChar(v3);
    assert s1 == s[1..] && s2 == s1[1..] && s3 == s2[1..] && s3[1..] == rest;
    assert v0 * 4 + v1 / 16 == b0;
    assert v1 % 16 * 16 + v2 / 4 == b1;
    assert v2 % 4 * 64 + v3 == b2;
    assert Run(s, 0, 0, pads, out) == Run(s1, 1, v0, 0, out);
    assert Run(s1, 1, v0, 0, out) == Run(s2, 2, v1 % 16, 0, out + [b0]);
    assert Run(s2, 2, v1 % 16, 0, out + [b0]) == Run(s3, 3, v2 % 4, 0, out + [b0] + [b1]);
    assert Run(s3, 3, v2 % 4, 0, out + [b0] + [b1]) == Run(rest, 0, 0, 0, out + [b0] + [b1] + [b2]);
    assert out + [b0] + [b1] + [b2] == out + [b0, b1, b2];
  }

  /** A final group of one byte leaves the decoder two characters into a group. */
  lemma RunTailOne(bs: seq<Byte>, rest: string, out: seq<Byte>)
    requires |bs| == 1
    ensures Run(EncodeUnpadded(bs) + rest, 0, 0, 0, out) == Run(rest, 2, 0, 0, out + bs)
  {
    var v0, v1 := bs[0] / 4, bs[0] % 4 * 16;
    StdValueChar(v0);
    StdValueChar(v1);
    var s := EncodeUnpadded(bs) + rest;
    var s1 := s[1..];
    assert s[0] == StdChar(v0) && s1[0] == StdChar(v1) && s1[1..] == rest;
    assert v0 * 4 + v1 / 16 == bs[0] && v1 % 16 == 0;
    assert Run(s, 0, 0, 0, out) == Run(s1, 1, v0, 0, out);
    assert out + [bs[0]] == out + bs;
  }

  /** A final group of two bytes leaves the decoder three characters into a group. */
  lemma RunTailTwo(bs: seq<Byte>, rest: string, out: seq<Byte>)
    requires |bs| == 2
    ensures Run(EncodeUnpadded(bs) + rest, 0, 0, 0, out) == Run(rest, 3, 0, 0, out + bs)
  {
    var v0, v1, v2 := bs[0] / 4, bs[0] % 4 * 16 + bs[1] / 16, bs[1] % 16 * 4;
    StdValueChar(v0);
    StdValueChar(v1);
    StdValueChar(v2);
    var s := EncodeUnpadded(bs) + rest;
    var s1, s2 := s[1..], s[2..];
    assert s[0] == StdChar(v0) && s1[0] == StdChar(v1) && s2[0] == StdChar(v2);
    assert s2 == s1[1..] && s2[1..] == rest;
    assert v0 * 4 + v1 / 16 == bs[0] && v1 % 16 * 16 + v2 / 4 == bs[1] && v2 % 4 == 0;
    assert Run(s, 0, 0, 0, out) == Run(s1, 1, v0, 0, out);
    assert Run(s1, 1, v0, 0, out) == Run(s2, 2, v1 % 16, 0, out + [bs[0]]);
    assert out + [bs[0]] + [bs[1]] == out + bs;
  }

  /** Where in a group the decoder stands after the data characters of `n` bytes. */
  function EndPos(n: nat): (p: nat)
    ensures p < 4
  {
    if n % 3 == 0 then 0 else if n % 3 == 1 then 2 else 3
  }

  lemma EndPosShift(n: nat)
    requires n >= 3
    ensures EndPos(n) == EndPos(n - 3)
  {
    assert n % 3 == (n - 3) % 3;
  }

  /**
   Running the decoder over the data characters of an encoding emits the
   encoded bytes; it ends at the start of a group when the length is a
   multiple of three, and two or three characters into one otherwise.
   */
  lemma {:induction false} RunUnpadded(bs: seq<Byte>, rest: string, out: seq<Byte>)
    ensures Run(EncodeUnpadded(bs) + rest, 0, 0, 0, out) == Run(rest, EndPos(|bs|), 0, 0, out + bs)
    decreases |bs|
  {
    if |bs| == 0 {
      assert EncodeUnpadded(bs) + rest == rest && out + bs == out;
    } else if |bs| == 1 {
      RunTailOne(bs, rest, out);
    } else if |bs| == 2 {
      RunTailTwo(bs, rest, out);
    } else {
      var tail, out3 := bs[3..], out + [bs[0], bs[1], bs[2]];
      EndPosShift(|bs|);
      assert EndPos(|tail|) == EndPos(|bs|);
      assert out3 + tail == out + bs;
      RunUnpaddedQuad(bs, rest, out);
      RunUnpadded(tail, rest, out3);
    }
  }

  /** The first complete group of the data characters decodes to the first three bytes. */
  lemma RunUnpaddedQuad(bs: seq<Byte>, rest: string, out: seq<Byte>)
    requires |bs| >= 3
    ensures Run(EncodeUnpadded(bs) + rest, 0, 0, 0, out)
      == Run(EncodeUnpadded(bs[3..]) + rest, 0, 0, 0, out + [bs[0], bs[1], bs[2]])
  {
    EncodeUnpaddedCons(bs, rest);
    RunQuad(bs[0], bs[1], bs[2], EncodeUnpadded(bs[3..]) + rest, 0, out);
  }

  lemma EncodeUnpaddedCons(bs: seq<Byte>, rest: string)
    requires |bs| >= 3
    ensures EncodeUnpadded(bs) + rest == Quad(bs[0], bs[1], bs[2]) + (EncodeUnpadded(bs[3..]) + rest)
  {
  }

  /** Every character of an encoding is ASCII. */
  lemma EncodeAscii(bs: seq<Byte>)
    ensures IsAscii(Encode(bs))
  {
    var e := Encode(bs);
    var d := EncodeUnpadded(bs);
    forall i | 0 <= i < |e|
      ensures e[i] as int < 128
    {
      if i < |d| {
        assert e[i] == d[i] && IsStdChar(d[i]);
      }
    }
  }

  /** The padding of an encoding completes the group the data characters left open. */
  lemma RunPadding(n: nat, out: seq<Byte>)
    ensures Run(Text.Repeat('=', PadLength(n)), EndPos(n), 0, 0, out) == Success(out)
  {
    var pad := Text.Repeat('=', PadLength(n));
    if n % 3 == 2 {
      assert pad == "=";
    } else if n % 3 == 1 {
      assert pad == "==" && pad[1..] == "=";
    } else {
      assert pad == "";
    }
  }

  /** `b64decode` inverts `b64encode` on every byte string. */
  lemma DecodeEncode(bs: seq<Byte>)
    ensures Decode(Encode(bs)) == Success(bs)
  {
    var pad := Text.Repeat('=', PadLength(|bs|));
    EncodeAscii(bs);
    RunUnpadded(bs, pad, []);
    RunPadding(|bs|, [] + bs);
    assert [] + bs == bs;
  }

  /**
   Without its padding, the encoding of a byte string whose length is not a
   multiple of three is rejected with "Incorrect padding"; with a length that
   is a multiple of three there was no padding and it decodes back.
   */
  lemma DecodeUnpadded(bs: seq<Byte>)
    ensures |bs| % 3 == 0 ==> Decode(EncodeUnpadded(bs)) == Success(bs)
    ensures |bs| % 3 != 0 ==> Decode(EncodeUnpadded(bs)) == Failure(IncorrectPadding)
  {
    var e := EncodeUnpadded(bs);
    assert IsAscii(e) by {
      forall i | 0 <= i < |e|
        ensures e[i] as int < 128
      {
        assert IsStdChar(e[i]);
      }
    }
    RunUnpadded(bs, "", []);
    assert e + "" == e && [] + bs == bs;
  }
}
