/**
 UTF-8 as Python's `str.encode('utf-8')` and `bytes.decode('utf-8',
 errors='ignore')` apply it: the encoding form of section 3.9 of the Unicode
 Standard (Table 3-6), and a decoder that accepts exactly the well-formed
 byte sequences of Table 3-7 and silently drops each maximal ill-formed
 subpart, as CPython's decoder does with the `ignore` handler.
 */
module Utf8 {
  import opened Bytes

  /** The bytes of one scalar value. */
  function EncodeChar(c: char): (bs: seq<Byte>)
    ensures 1 <= |bs| <= 4
    ensures (c as int < 0x80) <==> |bs| == 1
  {
    var cp := c as int;
    if cp < 0x80 then [cp]
    else if cp < 0x800 then [0xC0 + cp / 64, 0x80 + cp % 64]
    else if cp < 0x1_0000 then [0xE0 + cp / 4096, 0x80 + (cp / 64) % 64, 0x80 + cp % 64]
    else [0xF0 + cp / 262144, 0x80 + (cp / 4096) % 64, 0x80 + (cp / 64) % 64, 0x80 + cp % 64]
  }

  /** `text.encode('utf-8')`. */
  function Encode(s: string): (bs: seq<Byte>)
    ensures |s| <= |bs| <= 4 * |s|
  {
    if s == [] then [] else EncodeChar(s[0]) + Encode(s[1..])
  }

  predicate IsContinuation(b: Byte) {
    0x80 <= b <= 0xBF
  }

  /** Total length of the sequence a lead byte starts, 0 for a byte that cannot lead. */
  function SequenceLength(lead: Byte): (n: nat)
    ensures n <= 4
  {
    if lead < 0x80 then 1
    else if lead < 0xC2 then 0
    else if lead < 0xE0 then 2
    else if lead < 0xF0 then 3
    else if lead < 0xF5 then 4
    else 0
  }

  /** Whether `b` may follow `lead` as the second byte of a well-formed sequence (Table 3-7). */
  predicate SecondByteOk(lead: Byte, b: Byte) {
    if lead == 0xE0 then 0xA0 <= b <= 0xBF
    else if lead == 0xED then 0x80 <= b <= 0x9F
    else if lead == 0xF0 then 0x90 <= b <= 0xBF
    else if lead == 0xF4 then 0x80 <= b <= 0x8F
    else IsContinuation(b)
  }

  /** What the decoder does at the front of the remaining bytes. */
  datatype Step =
    | Decoded(c: char, used: nat)  // a well-formed sequence of `used` bytes
    | Dropped(used: nat)           // a maximal ill-formed subpart of `used` bytes

  function StepLength(st: Step): nat {
    match st
    case Decoded(_, n) => n
    case Dropped(n) => n
  }

  function Scalar2(b0: Byte, b1: Byte): char
    requires 0xC2 <= b0 <= 0xDF && IsContinuation(b1)
  {
    ((b0 as int - 0xC0) * 64 + (b1 as int - 0x80)) as char
  }

  function Scalar3(b0: Byte, b1: Byte, b2: Byte): char
    requires 0xE0 <= b0 <= 0xEF && SecondByteOk(b0, b1) && IsContinuation(b2)
  {
    ((b0 as int - 0xE0) * 4096 + (b1 as int - 0x80) * 64 + (b2 as int - 0x80)) as char
  }

  function Scalar4(b0: Byte, b1: Byte, b2: Byte, b3: Byte): char
    requires 0xF0 <= b0 <= 0xF4 && SecondByteOk(b0, b1) && IsContinuation(b2) && IsContinuation(b3)
  {
    ((b0 as int - 0xF0) * 262144 + (b1 as int - 0x80) * 4096 + (b2 as int - 0x80) * 64 + (b3 as int - 0x80)) as char
  }

  /** Decode one scalar value, or find the ill-formed bytes to drop, at the front of `bs`. */
  function DecodeStep(bs: seq<Byte>): (st: Step)
    requires |bs| > 0
    ensures 1 <= StepLength(st) <= |bs|
    ensures st.Decoded? ==> StepLength(st) == SequenceLength(bs[0])
  {
    var n := SequenceLength(bs[0]);
    if n == 1 then Decoded(bs[0] as char, 1)
    else if n == 0 then Dropped(1)
    else if |bs| < 2 || !SecondByteOk(bs[0], bs[1]) then Dropped(1)
    else if n == 2 then Decoded(Scalar2(bs[0], bs[1]), 2)
    else if |bs| < 3 || !IsContinuation(bs[2]) then Dropped(2)
    else if n == 3 then Decoded(Scalar3(bs[0], bs[1], bs[2]), 3)
    else if |bs| < 4 || !IsContinuation(bs[3]) then Dropped(3)
    else Decoded(Scalar4(bs[0], bs[1], bs[2], bs[3]), 4)
  }

  /** `data.decode('utf-8', errors='ignore')`. */
  function DecodeIgnore(bs: seq<Byte>): (s: string)
    ensures |s| <= |bs|
    decreases |bs|
  {
    if bs == [] then ""
    else
      var st := DecodeStep(bs);
      match st
      case Decoded(c, n) => [c] + DecodeIgnore(bs[n..])
      case Dropped(n) => DecodeIgnore(bs[n..])
  }

  /** The decoder reads back exactly the character a single encoding step wrote. */
  lemma DecodeStepEncodeChar(c: char, rest: seq<Byte>)
    ensures DecodeStep(EncodeChar(c) + rest) == Decoded(c, |EncodeChar(c)|)
  {
    var cp := c as int;
    if cp < 0x80 {
    } else if cp < 0x800 {
      DecodeTwo(c, rest);
    } else if cp < 0x1_0000 {
      DecodeThree(c, rest);
    } else {
      DecodeFour(c, rest);
    }
  }

  lemma DecodeTwo(c: char, rest: seq<Byte>)
    requires 0x80 <= c as int < 0x800
    ensures DecodeStep(EncodeChar(c) + rest) == Decoded(c, 2)
  {
    var cp := c as int;
    var b0, b1 := 0xC0 + cp / 64, 0x80 + cp % 64;
    assert EncodeChar(c) == [b0, b1];
    assert (b0 - 0xC0) * 64 + (b1 - 0x80) == cp;
    assert Scalar2(b0, b1) == c;
    var bs := EncodeChar(c) + rest;
    assert bs[0] == b0 && bs[1] == b1;
  }

  lemma DecodeThree(c: char, rest: seq<Byte>)
    requires 0x800 <= c as int < 0x1_0000
    ensures DecodeStep(EncodeChar(c) + rest) == Decoded(c, 3)
  {
    var cp := c as int;
    var hi, mid, lo := cp / 4096, (cp / 64) % 64, cp % 64;
    assert cp == hi * 4096 + mid * 64 + lo;
    assert hi == 0 ==> mid >= 32;
    assert hi == 13 ==> mid < 32;
    var b0, b1, b2 := 0xE0 + hi, 0x80 + mid, 0x80 + lo;
    assert EncodeChar(c) == [b0, b1, b2];
    assert SecondByteOk(b0, b1);
    assert Scalar3(b0, b1, b2) == c;
    var bs := EncodeChar(c) + rest;
    assert bs[0] == b0 && bs[1] == b1 && bs[2] == b2;
  }

  lemma DecodeFour(c: char, rest: seq<Byte>)
    requires 0x1_0000 <= c as int
    ensures DecodeStep(EncodeChar(c) + rest) == Decoded(c, 4)
  {
    var cp := c as int;
    FourDigits(cp);
    var top, hi, mid, lo := cp / 262144, (cp / 4096) % 64, (cp / 64) % 64, cp % 64;
    var b0, b1, b2, b3 := 0xF0 + top, 0x80 + hi, 0x80 + mid, 0x80 + lo;
    assert EncodeChar(c) == [b0, b1, b2, b3];
    assert SecondByteOk(b0, b1);
    assert Scalar4(b0, b1, b2, b3) == c;
    var bs := EncodeChar(c) + rest;
    assert bs[0] == b0 && bs[1] == b1 && bs[2] == b2 && bs[3] == b3;
  }

  /** The four 6-bit groups of a supplementary code point, and the ranges Table 3-7 asks of them. */
  lemma FourDigits(cp: int)
    requires 0x1_0000 <= cp <= 0x10_FFFF
    ensures cp == (cp / 262144) * 262144 + ((cp / 4096) % 64) * 4096 + ((cp / 64) % 64) * 64 + cp % 64
    ensures 0 <= cp / 262144 <= 4
    ensures cp / 262144 == 0 ==> (cp / 4096) % 64 >= 16
    ensures cp / 262144 == 4 ==> (cp / 4096) % 64 < 16
  {
    var q1, lo := cp / 64, cp % 64;
    var q2, mid := q1 / 64, q1 % 64;
    var top, hi := q2 / 64, q2 % 64;
    assert cp == q2 * 4096 + mid * 64 + lo;
    assert cp / 4096 == q2;
    assert cp == top * 262144 + hi * 4096 + mid * 64 + lo;
    assert cp / 262144 == top;
  }

  /** Decoding what `encode('utf-8')` produced gives the text back, whatever the `ignore` handler would drop. */
  lemma {:induction false} DecodeEncode(s: string)
    ensures DecodeIgnore(Encode(s)) == s
    decreases |s|
  {
    if s != [] {
      var head := EncodeChar(s[0]);
      var rest := Encode(s[1..]);
      DecodeStepEncodeChar(s[0], rest);
      assert (head + rest)[|head|..] == rest;
      DecodeEncode(s[1..]);
      assert [s[0]] + s[1..] == s;
    }
  }
}
