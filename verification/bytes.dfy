/**
 Bytes as Python's `bytes`/`bytearray` hold them, the exclusive-or the
 cipher applies to them, and the hexadecimal text form of `bytes.hex()` and
 `bytes.fromhex()`.
 */
module Bytes {
  import opened Wrappers

  /** One element of a Python `bytes` value. */
  type Byte = b: int | 0 <= b < 256

  /** Exclusive-or of the low `n` bits of `a` and `b`, one bit at a time. */
  function XorBits(a: nat, b: nat, n: nat): (r: nat)
    ensures r < Pow2(n)
  {
    if n == 0 then 0 else (a % 2 + b % 2) % 2 + 2 * XorBits(a / 2, b / 2, n - 1)
  }

  function Pow2(n: nat): (p: nat)
    ensures p >= 1
  {
    if n == 0 then 1 else 2 * Pow2(n - 1)
  }

  /** The width of a byte. */
  const ByteBits: nat := 8

  lemma ByteBound()
    ensures Pow2(ByteBits) == 256
  {
    assert Pow2(8) == 256;
  }

  /** Bitwise exclusive-or of two bytes (Python's `^` on values below 256). */
  function Xor(a: Byte, b: Byte): Byte
  {
    ByteBound();
    XorBits(a, b, ByteBits)
  }

  /** Combining twice with the same `k` restores any `a` of at most `n` bits. */
  lemma {:induction false} XorBitsCancel(a: nat, k: nat, n: nat)
    requires a < Pow2(n)
    ensures XorBits(XorBits(a, k, n), k, n) == a
  {
    if n > 0 {
      var bit := (a % 2 + k % 2) % 2;
      var high := XorBits(a / 2, k / 2, n - 1);
      var once := bit + 2 * high;
      assert once == XorBits(a, k, n);
      HalveSplit(bit, high);
      assert XorBits(once, k, n) == (bit + k % 2) % 2 + 2 * XorBits(high, k / 2, n - 1);
      HalveBelow(a, n);
      XorBitsCancel(a / 2, k / 2, n - 1);
      CancelBit(a, k);
    } else {
      assert a == 0;
    }
  }

  lemma CancelBit(a: nat, k: nat)
    ensures ((a % 2 + k % 2) % 2 + k % 2) % 2 + 2 * (a / 2) == a
  {
  }

  lemma HalveSplit(bit: nat, high: nat)
    requires bit < 2
    ensures (bit + 2 * high) % 2 == bit && (bit + 2 * high) / 2 == high
  {
  }

  lemma HalveBelow(a: nat, n: nat)
    requires 0 < n && a < Pow2(n)
    ensures a / 2 < Pow2(n - 1)
  {
  }

  lemma {:induction false} XorBitsSelf(a: nat, n: nat)
    ensures XorBits(a, a, n) == 0
  {
    if n > 0 {
      XorBitsSelf(a / 2, n - 1);
    }
  }

  lemma {:induction false} XorBitsZero(k: nat, n: nat)
    requires k < Pow2(n)
    ensures XorBits(0, k, n) == k
  {
    if n > 0 {
      XorBitsZero(k / 2, n - 1);
    } else {
      assert k == 0;
    }
  }

  /** A byte combined with itself is zero. */
  lemma XorSelf(a: Byte)
    ensures Xor(a, a) == 0
  {
    XorBitsSelf(a, ByteBits);
  }

  /** Zero combined with a byte is that byte. */
  lemma XorZero(k: Byte)
    ensures Xor(0, k) == k
  {
    ByteBound();
    XorBitsZero(k, ByteBits);
  }

  /** Exclusive-or with the same byte twice is the identity. */
  lemma XorCancel(a: Byte, k: Byte)
    ensures Xor(Xor(a, k), k) == a
  {
    ByteBound();
    XorBitsCancel(a, k, ByteBits);
  }

  /**
   The loop `out[i] = b ^ key[i % len(key)]` over `enumerate(data)`: each
   byte is combined with the key byte at its position modulo the key length.
   */
  function CyclicXor(data: seq<Byte>, key: seq<Byte>): (out: seq<Byte>)
    requires |key| > 0
    ensures |out| == |data|
    ensures forall i :: 0 <= i < |data| ==> out[i] == Xor(data[i], key[i % |key|])
    decreases |data|
  {
    if |data| == 0 then []
    else
      var n := |data| - 1;
      CyclicXor(data[..n], key) + [Xor(data[n], key[n % |key|])]
  }

  /** Data no longer than the key is combined position by position, without wrapping. */
  lemma CyclicXorShort(data: seq<Byte>, key: seq<Byte>)
    requires 0 < |key| && |data| <= |key|
    ensures forall i :: 0 <= i < |data| ==> CyclicXor(data, key)[i] == Xor(data[i], key[i])
  {
    var out := CyclicXor(data, key);
    forall i | 0 <= i < |data|
      ensures out[i] == Xor(data[i], key[i])
    {
      ModBelow(i, |key|);
    }
  }

  /** A sequence that agrees with the position-wise exclusive-or of short data is its cyclic exclusive-or. */
  lemma CyclicXorIs(data: seq<Byte>, key: seq<Byte>, target: seq<Byte>)
    requires 0 < |key| && |data| <= |key| && |target| == |data|
    requires forall i :: 0 <= i < |data| ==> target[i] == Xor(data[i], key[i])
    ensures CyclicXor(data, key) == target
  {
    CyclicXorShort(data, key);
  }

  lemma ModBelow(i: int, n: int)
    requires 0 <= i < n
    ensures i % n == i
  {
  }

  /** Applying the cyclic exclusive-or twice with the same key restores the data. */
  lemma CyclicXorInvolution(data: seq<Byte>, key: seq<Byte>)
    requires |key| > 0
    ensures CyclicXor(CyclicXor(data, key), key) == data
  {
    var once := CyclicXor(data, key);
    var twice := CyclicXor(once, key);
    forall i | 0 <= i < |data|
      ensures twice[i] == data[i]
    {
      XorCancel(data[i], key[i % |key|]);
    }
  }

  /** The lower-case digits `bytes.hex()` writes. */
  const HexDigits: string := "0123456789abcdef"

  /** The value of one ASCII hexadecimal digit of either case, as `int(c, 16)` reads it. */
  function HexValue(c: char): (v: Option<int>)
    ensures v.Some? ==> 0 <= v.value < 16
    ensures v.Some? <==> ('0' <= c <= '9' || 'a' <= c <= 'f' || 'A' <= c <= 'F')
  {
    if '0' <= c <= '9' then Some(c as int - '0' as int)
    else if 'a' <= c <= 'f' then Some(c as int - 'a' as int + 10)
    else if 'A' <= c <= 'F' then Some(c as int - 'A' as int + 10)
    else None
  }

  predicate IsHexDigit(c: char) {
    HexValue(c).Some?
  }

  /** Every digit `bytes.hex()` writes reads back as its own value. */
  lemma HexDigitsRoundTrip(v: int)
    requires 0 <= v < 16
    ensures HexValue(HexDigits[v]) == Some(v)
  {
  }

  /** `bytes(bs).hex()`: two lower-case digits per byte, high nibble first. */
  function Hex(bs: seq<Byte>): (s: string)
    ensures |s| == 2 * |bs|
    ensures forall i :: 0 <= i < |s| ==> IsHexDigit(s[i])
  {
    if bs == [] then ""
    else [HexDigits[bs[0] / 16], HexDigits[bs[0] % 16]] + Hex(bs[1..])
  }

  /** The hex form of a concatenation is the concatenation of the hex forms. */
  lemma {:induction false} HexAppend(a: seq<Byte>, b: seq<Byte>)
    ensures Hex(a + b) == Hex(a) + Hex(b)
    decreases |a|
  {
    if a == [] {
      assert a + b == b;
    } else {
      assert (a + b)[1..] == a[1..] + b;
      HexAppend(a[1..], b);
    }
  }

  /** The ASCII whitespace `bytes.fromhex` skips between byte pairs. */
  predicate IsAsciiSpace(c: char) {
    c == ' ' || c == '\t' || c == '\n' || c == '\r' || c == '\U{0B}' || c == '\U{0C}'
  }

  /**
   `bytes.fromhex(s)`: whitespace between byte pairs is skipped, every byte
   is exactly two hexadecimal digits of either case, and anything else
   (an odd digit, a non-hex character) raises `ValueError`, here `None`.
   */
  function FromHex(s: string): (r: Option<seq<Byte>>)
    ensures r.Some? ==> 2 * |r.value| <= |s|
  {
    if s == [] then Some([])
    else if IsAsciiSpace(s[0]) then FromHex(s[1..])
    else if |s| >= 2 && HexValue(s[0]).Some? && HexValue(s[1]).Some? then
      match FromHex(s[2..])
      case None => None
      case Some(rest) => Some([HexValue(s[0]).value * 16 + HexValue(s[1]).value] + rest)
    else None
  }

  /** The two digits `bytes.hex()` writes for `b` are read back as `b`, in front of the rest. */
  lemma FromHexByte(b: Byte, rest: string)
    ensures FromHex([HexDigits[b / 16], HexDigits[b % 16]] + rest) == match FromHex(rest)
      case None => None
      case Some(tail) => Some([b] + tail)
  {
    var s := [HexDigits[b / 16], HexDigits[b % 16]] + rest;
    HexDigitsRoundTrip(b / 16);
    HexDigitsRoundTrip(b % 16);
    assert !IsAsciiSpace(s[0]);
    assert s[2..] == rest;
  }

  /** `bytes.fromhex` inverts `bytes.hex`. */
  lemma {:induction false} FromHexHex(bs: seq<Byte>)
    ensures FromHex(Hex(bs)) == Some(bs)
    decreases |bs|
  {
    if bs != [] {
      var tail := bs[1..];
      assert Hex(bs) == [HexDigits[bs[0] / 16], HexDigits[bs[0] % 16]] + Hex(tail);
      FromHexByte(bs[0], Hex(tail));
      FromHexHex(tail);
      assert [bs[0]] + tail == bs;
    }
  }

  /** Any even-length run of hex digits parses, to half as many bytes. */
  lemma {:induction false} FromHexDigits(s: string)
    requires |s| % 2 == 0
    requires forall i :: 0 <= i < |s| ==> IsHexDigit(s[i])
    ensures FromHex(s).Some? && 2 * |FromHex(s).value| == |s|
    decreases |s|
  {
    if s != [] {
      assert !IsAsciiSpace(s[0]) by { assert IsHexDigit(s[0]); }
      FromHexDigits(s[2..]);
    }
  }
}
