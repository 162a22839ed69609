/**
 `RomanDecoderWheel`: a stateful filter over hex text. Each call advances the
 wheel's angle by a fixed step, cuts the text into 8-character slices (the
 last one possibly shorter), and keeps, in order, the slices whose scaled
 norm passes a threshold.

 The threshold test `sqrt(Σ c²) · r · (cos(8θ) + 1.5) / 2.5 <= 2` is floating
 point; it is the `Gate` parameter here, given the wheel after the angle
 advance and the squared norm `Octo.NormSquared` of the slice's exact
 coefficient vector, the quantity the source takes the square root of.
 Everything else is exact.
 */
module Wheel {
  import opened Wrappers
  import opened Bytes
  import Octo

  /**
   The wheel's fields. The angle is kept as `thetaOverPi`, the angle divided
   by π, so that its fixed advance is an exact rational.
   */
  datatype RomanDecoderWheel = RomanDecoderWheel(plane: string, freq: real, hue: real, thetaOverPi: real, r: real)

  /** `RomanDecoderWheel(plane, freq, hue)`: angle zero, radius `hue / 1000`. */
  function NewWheel(plane: string, freq: real, hue: real): RomanDecoderWheel {
    RomanDecoderWheel(plane, freq, hue, 0.0, hue / 1000.0)
  }

  /** The angle advance of one call, `2π·(freq/432)/8`, divided by π. */
  function StepOverPi(freq: real): real {
    2.0 * (freq / 432.0) / 8.0
  }

  /** The floating-point keep decision: wheel after the advance, squared norm of the slice's vector. */
  type Gate = (RomanDecoderWheel, real) -> bool

  /** The 8-character slices `s[i:i+8]` for `i` in `range(0, len(s), 8)`. */
  function Chunks(s: string): (cs: seq<string>)
    ensures Concat(cs) == s
    ensures forall i :: 0 <= i < |cs| ==> 0 < |cs[i]| <= 8
    ensures forall i :: 0 <= i < |cs| - 1 ==> |cs[i]| == 8
    decreases |s|
  {
    if s == [] then []
    else if |s| <= 8 then
      assert Concat([s]) == s + "";
      [s]
    else
      var tail := Chunks(s[8..]);
      assert Concat([s[..8]] + tail) == s[..8] + Concat(tail) by {
        assert ([s[..8]] + tail)[1..] == tail;
      }
      [s[..8]] + tail
  }

  function Concat(cs: seq<string>): string {
    if cs == [] then "" else cs[0] + Concat(cs[1..])
  }

  lemma {:induction false} ConcatAppend(a: seq<string>, b: seq<string>)
    ensures Concat(a + b) == Concat(a) + Concat(b)
    decreases |a|
  {
    if a == [] {
      assert a + b == b;
    } else {
      assert (a + b)[1..] == a[1..] + b;
      ConcatAppend(a[1..], b);
    }
  }

  /** `int(c, 16)` for one character, with the `ValueError` caught as 0. */
  function DigitOrZero(c: char): (v: int)
    ensures 0 <= v < 16
    ensures IsHexDigit(c) ==> Some(v) == HexValue(c)
    ensures !IsHexDigit(c) ==> v == 0
  {
    match HexValue(c)
    case Some(v) => v
    case None => 0
  }

  /** `oct_coeffs[j % 8] += int(c, 16)` over the first `n` characters of the slice. */
  function AddDigits(chunk: string, n: nat): (c: seq<int>)
    requires n <= |chunk|
    ensures |c| == 8
  {
    if n == 0 then [0, 0, 0, 0, 0, 0, 0, 0]
    else
      var prev := AddDigits(chunk, n - 1);
      var k := (n - 1) % 8;
      prev[k := prev[k] + DigitOrZero(chunk[n - 1])]
  }

  /**
   The coefficient vector of a slice of at most eight characters: position
   `k` holds the value of the `k`-th hex digit, and 0 for a non-hex
   character or past the end.
   */
  lemma {:induction false} AddDigitsShort(chunk: string, n: nat)
    requires n <= |chunk| <= 8
    ensures forall k :: 0 <= k < 8 ==>
      AddDigits(chunk, n)[k] == (if k < n then DigitOrZero(chunk[k]) else 0)
  {
    if n > 0 {
      AddDigitsShort(chunk, n - 1);
    }
  }

  /** The `SimpleOcto` a slice is read as. */
  function ChunkOcto(chunk: string): (o: Octo.SimpleOcto)
    requires |chunk| <= 8
    ensures forall k :: 0 <= k < 8 ==> 0.0 <= o.coeffs[k] <= 15.0
    ensures forall k :: 0 <= k < |chunk| ==> o.coeffs[k] == DigitOrZero(chunk[k]) as real
    ensures forall k :: |chunk| <= k < 8 ==> o.coeffs[k] == 0.0
  {
    var c := AddDigits(chunk, |chunk|);
    AddDigitsShort(chunk, |chunk|);
    Octo.Make(seq(8, k requires 0 <= k < 8 => c[k] as real))
  }

  /** Whether the wheel, already advanced, keeps a slice. */
  predicate Keeps(w: RomanDecoderWheel, gate: Gate, chunk: string)
    requires |chunk| <= 8
  {
    gate(w, Octo.NormSquared(ChunkOcto(chunk)))
  }

  /**
   What the gate is shown for a slice: a squared norm of at most 225 per
   character, because every coefficient is a digit value below 16.
   */
  lemma ChunkNormBound(chunk: string)
    requires |chunk| <= 8
    ensures 0.0 <= Octo.NormSquared(ChunkOcto(chunk)) <= 225.0 * |chunk| as real
  {
    var o := ChunkOcto(chunk);
    Octo.SumSquaresBound(o.coeffs, |chunk|, 15.0);
    Octo.SumSquaresZeros(o.coeffs, |chunk|);
  }

  /** The slices the advanced wheel keeps, in input order. */
  function Kept(w: RomanDecoderWheel, gate: Gate, cs: seq<string>): (ks: seq<string>)
    requires forall i :: 0 <= i < |cs| ==> |cs[i]| <= 8
    ensures forall i :: 0 <= i < |ks| ==> |ks[i]| <= 8 && Keeps(w, gate, ks[i])
    ensures forall i :: 0 <= i < |cs| && Keeps(w, gate, cs[i]) ==> cs[i] in ks
    ensures |cs| == 1 ==> ks == if Keeps(w, gate, cs[0]) then cs else []
    decreases |cs|
  {
    if cs == [] then []
    else
      var rest := Kept(w, gate, cs[1..]);
      assert forall i :: 1 <= i < |cs| ==> cs[i] == cs[1..][i - 1];
      if Keeps(w, gate, cs[0]) then [cs[0]] + rest else rest
  }

  /** Filtering a joined list filters each part in turn, so the kept slices stay in input order. */
  lemma {:induction false} KeptAppend(w: RomanDecoderWheel, gate: Gate, xs: seq<string>, ys: seq<string>)
    requires forall i :: 0 <= i < |xs| ==> |xs[i]| <= 8
    requires forall i :: 0 <= i < |ys| ==> |ys[i]| <= 8
    ensures Kept(w, gate, xs + ys) == Kept(w, gate, xs) + Kept(w, gate, ys)
    decreases |xs|
  {
    if xs == [] {
      assert xs + ys == ys;
    } else {
      assert (xs + ys)[1..] == xs[1..] + ys;
      KeptAppend(w, gate, xs[1..], ys);
    }
  }

  /** A slice the gate accepts is kept as often as it occurs, and any other slice never. */
  lemma {:induction false} KeptCount(w: RomanDecoderWheel, gate: Gate, cs: seq<string>, chunk: string)
    requires forall i :: 0 <= i < |cs| ==> |cs[i]| <= 8
    requires |chunk| <= 8
    ensures multiset(Kept(w, gate, cs))[chunk] == if Keeps(w, gate, chunk) then multiset(cs)[chunk] else 0
    decreases |cs|
  {
    if cs != [] {
      KeptCount(w, gate, cs[1..], chunk);
      assert cs == [cs[0]] + cs[1..];
      assert multiset(cs) == multiset([cs[0]]) + multiset(cs[1..]);
    }
  }

  /** The kept slices, concatenated, are an in-order sub-concatenation of all slices. */
  lemma {:induction false} KeptSubConcat(w: RomanDecoderWheel, gate: Gate, cs: seq<string>)
    requires forall i :: 0 <= i < |cs| ==> |cs[i]| <= 8
    ensures SubConcat(Concat(Kept(w, gate, cs)), cs)
    ensures multiset(Concat(Kept(w, gate, cs))) <= multiset(Concat(cs))
    decreases |cs|
  {
    if cs != [] {
      var rest := Kept(w, gate, cs[1..]);
      KeptSubConcat(w, gate, cs[1..]);
      assert Concat(cs) == cs[0] + Concat(cs[1..]);
      assert multiset(Concat(cs)) == multiset(cs[0]) + multiset(Concat(cs[1..]));
      if Keeps(w, gate, cs[0]) {
        var ks := [cs[0]] + rest;
        assert ks[1..] == rest;
        var out := Concat(ks);
        assert out == cs[0] + Concat(rest);
        assert out[..|cs[0]|] == cs[0];
        assert out[|cs[0]|..] == Concat(rest);
        assert multiset(out) == multiset(cs[0]) + multiset(Concat(rest));
      }
    }
  }

  /**
   `out` is the in-order concatenation of some of `pieces`: each piece is
   either skipped or matched as the next stretch of `out`.
   */
  ghost predicate SubConcat(out: string, pieces: seq<string>)
    decreases |pieces|
  {
    if pieces == [] then out == []
    else
      || (|out| >= |pieces[0]| && out[..|pieces[0]|] == pieces[0] && SubConcat(out[|pieces[0]|..], pieces[1..]))
      || SubConcat(out, pieces[1..])
  }

  /** A sub-concatenation is never longer than the whole concatenation. */
  lemma {:induction false} SubConcatLength(out: string, pieces: seq<string>)
    requires SubConcat(out, pieces)
    ensures |out| <= |Concat(pieces)|
    decreases |pieces|
  {
    if pieces != [] {
      if |out| >= |pieces[0]| && out[..|pieces[0]|] == pieces[0] && SubConcat(out[|pieces[0]|..], pieces[1..]) {
        SubConcatLength(out[|pieces[0]|..], pieces[1..]);
      } else {
        SubConcatLength(out, pieces[1..]);
      }
    }
  }

  /**
   `decode_data(hex_str)`: the wheel with its angle advanced by one step and
   nothing else changed, and the concatenation of the slices it keeps.
   */
  function DecodeData(w: RomanDecoderWheel, hex: string, gate: Gate): (res: (RomanDecoderWheel, string))
    ensures res.0 == w.(thetaOverPi := w.thetaOverPi + StepOverPi(w.freq))
    ensures multiset(res.1) <= multiset(hex)
    ensures |res.1| <= |hex|
    ensures forall i :: 0 <= i < |Chunks(hex)| ==>
      (Keeps(res.0, gate, Chunks(hex)[i]) <==> Chunks(hex)[i] in Kept(res.0, gate, Chunks(hex)))
  {
    var advanced := w.(thetaOverPi := w.thetaOverPi + StepOverPi(w.freq));
    var kept := Kept(advanced, gate, Chunks(hex));
    KeptSubConcat(advanced, gate, Chunks(hex));
    SubConcatLength(Concat(kept), Chunks(hex));
    (advanced, Concat(kept))
  }

  /** On a single slice the wheel returns the slice when its gate accepts it, and nothing otherwise. */
  lemma DecodeDataOneSlice(w: RomanDecoderWheel, chunk: string, gate: Gate)
    requires 0 < |chunk| <= 8
    ensures var res := DecodeData(w, chunk, gate);
      res.1 == if Keeps(res.0, gate, chunk) then chunk else ""
  {
    var res := DecodeData(w, chunk, gate);
    assert Chunks(chunk) == [chunk];
    assert Kept(res.0, gate, [chunk][1..]) == [];
  }

  /** Slicing restarts every eight characters, so text split at a multiple of eight is sliced part by part. */
  lemma {:induction false} ChunksAppend(a: string, b: string)
    requires |a| % 8 == 0
    ensures Chunks(a + b) == Chunks(a) + Chunks(b)
    decreases |a|
  {
    if a == [] {
      assert a + b == b;
    } else {
      assert (a + b)[8..] == a[8..] + b;
      assert (a + b)[..8] == a[..8];
      ChunksAppend(a[8..], b);
    }
  }

  /**
   Text split at a multiple of eight decodes part by part with the same
   advanced wheel. With `DecodeDataOneSlice` this fixes the output for every
   input: each slice in order, kept exactly when the gate accepts it.
   */
  lemma DecodeDataAppend(w: RomanDecoderWheel, a: string, b: string, gate: Gate)
    requires |a| % 8 == 0
    ensures DecodeData(w, a + b, gate).1 == DecodeData(w, a, gate).1 + DecodeData(w, b, gate).1
  {
    var adv := DecodeData(w, a, gate).0;
    ChunksAppend(a, b);
    KeptAppend(adv, gate, Chunks(a), Chunks(b));
    ConcatAppend(Kept(adv, gate, Chunks(a)), Kept(adv, gate, Chunks(b)));
  }

  /** The output is the in-order concatenation of some of the input's slices. */
  lemma DecodeDataSubConcat(w: RomanDecoderWheel, hex: string, gate: Gate)
    ensures SubConcat(DecodeData(w, hex, gate).1, Chunks(hex))
  {
    var res := DecodeData(w, hex, gate);
    var cs := Chunks(hex);
    KeptSubConcat(res.0, gate, cs);
  }

  /** A gate that keeps every slice makes the wheel return its input. */
  lemma DecodeDataKeepAll(w: RomanDecoderWheel, hex: string, gate: Gate)
    requires forall x, n :: gate(x, n)
    ensures DecodeData(w, hex, gate).1 == hex
  {
    var res := DecodeData(w, hex, gate);
    var cs := Chunks(hex);
    KeptAll(res.0, gate, cs);
    assert Concat(cs) == hex;
  }

  lemma {:induction false} KeptAll(w: RomanDecoderWheel, gate: Gate, cs: seq<string>)
    requires forall i :: 0 <= i < |cs| ==> |cs[i]| <= 8
    requires forall x, n :: gate(x, n)
    ensures Kept(w, gate, cs) == cs
    decreases |cs|
  {
    if cs != [] {
      KeptAll(w, gate, cs[1..]);
    }
  }

  /** A gate that keeps nothing makes the wheel return the empty string. */
  lemma DecodeDataKeepNone(w: RomanDecoderWheel, hex: string, gate: Gate)
    requires forall x, n :: !gate(x, n)
    ensures DecodeData(w, hex, gate).1 == ""
  {
    var res := DecodeData(w, hex, gate);
    var cs := Chunks(hex);
    KeptNone(res.0, gate, cs);
  }

  lemma {:induction false} KeptNone(w: RomanDecoderWheel, gate: Gate, cs: seq<string>)
    requires forall i :: 0 <= i < |cs| ==> |cs[i]| <= 8
    requires forall x, n :: !gate(x, n)
    ensures Kept(w, gate, cs) == []
    decreases |cs|
  {
    if cs != [] {
      KeptNone(w, gate, cs[1..]);
    }
  }

  /** Over one piece, a sub-concatenation is the piece or nothing. */
  lemma SubConcatOne(out: string, a: string)
    requires SubConcat(out, [a])
    ensures out == a || out == ""
  {
    assert [a][1..] == [];
    if |out| >= |a| && out[..|a|] == a && SubConcat(out[|a|..], []) {
      assert out == out[..|a|] + out[|a|..];
    }
  }

  /** Over two pieces, a sub-concatenation is both, either one, or nothing. */
  lemma SubConcatTwo(out: string, a: string, b: string)
    requires SubConcat(out, [a, b])
    ensures out == a + b || out == a || out == b || out == ""
  {
    assert [a, b][1..] == [b];
    if |out| >= |a| && out[..|a|] == a && SubConcat(out[|a|..], [b]) {
      SubConcatOne(out[|a|..], b);
      assert out == out[..|a|] + out[|a|..];
    } else {
      SubConcatOne(out, b);
    }
  }

  /**
   On 16 characters, or on either of their 8-character halves, or on nothing,
   a wheel returns the whole, one half, the other half or nothing.
   */
  lemma DecodeDataHalves(w: RomanDecoderWheel, h: string, x: string, gate: Gate)
    requires |h| == 16
    requires x == h || x == h[..8] || x == h[8..] || x == ""
    ensures var out := DecodeData(w, x, gate).1;
      out == h || out == h[..8] || out == h[8..] || out == ""
  {
    var out := DecodeData(w, x, gate).1;
    DecodeDataSubConcat(w, x, gate);
    if x == h {
      assert Chunks(h) == [h[..8], h[8..]] by {
        assert Chunks(h[8..]) == [h[8..]];
      }
      SubConcatTwo(out, h[..8], h[8..]);
      assert h[..8] + h[8..] == h;
    } else if x != "" {
      assert Chunks(x) == [x];
      SubConcatOne(out, x);
    }
  }
}
