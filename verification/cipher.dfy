/**
 The per-code cipher table of `AdvancedLanguageEngine`: an 8-byte harmonic
 key from the code's frequency, mixed through the four spiral wheels, and the
 checksum the engine calls the quantum signature.
 */
module Cipher {
  import opened Wrappers
  import opened Bytes
  import Text
  import opened Wheel
  import opened Catalog

  /** Python's `int(x)` on a finite float: truncation toward zero. */
  function Trunc(x: real): (n: int)
    ensures x >= 0.0 ==> n == x.Floor
    ensures x < 0.0 ==> n == -((-x).Floor)
  {
    if x >= 0.0 then x.Floor else -((-x).Floor)
  }

  /** The `i`-th harmonic byte, `int(f * i) % 256`. */
  function Harmonic(f: real, i: int): Byte {
    Trunc(f * i as real) % 256
  }

  /** The first `n` harmonics, appended in the order of the source's loop. */
  function Harmonics(f: real, n: nat): (h: seq<Byte>)
    ensures |h| == n
    ensures forall i :: 0 <= i < n ==> h[i] == Harmonic(f, i + 1)
  {
    if n == 0 then [] else Harmonics(f, n - 1) + [Harmonic(f, n)]
  }

  /** `_generate_frequency_encryption_key`: harmonics 1 to 8. */
  function FrequencyKey(f: real): (k: seq<Byte>)
    ensures |k| == 8
    ensures forall i :: 0 <= i < 8 ==> k[i] == Trunc(f * (i + 1) as real) % 256
  {
    Harmonics(f, 8)
  }

  /** The 440 Hz key is 440·i mod 256 for i = 1..8. */
  lemma FrequencyKey440()
    ensures FrequencyKey(440.0) == [184, 112, 40, 224, 152, 80, 8, 192]
  {
    var k := FrequencyKey(440.0);
    assert k[0] == 184 && k[1] == 112 && k[2] == 40 && k[3] == 224;
    assert k[4] == 152 && k[5] == 80 && k[6] == 8 && k[7] == 192;
  }

  /** `Σ v·(i+1)` over the first `n` entries of the key. */
  function WeightedSum(key: seq<Byte>, n: nat): (s: int)
    requires n <= |key|
    ensures 0 <= s
  {
    if n == 0 then 0 else WeightedSum(key, n - 1) + key[n - 1] * n
  }

  /** `_generate_quantum_signature`: the weighted sum modulo 65536. */
  function QuantumSignature(key: seq<Byte>): (sig: int)
    ensures 0 <= sig < 65536
  {
    WeightedSum(key, |key|) % 65536
  }

  /** For an 8-byte key the weighted sum is at most 9180, so the modulus never wraps. */
  lemma SignatureNoWrap(key: seq<Byte>)
    requires |key| == 8
    ensures QuantumSignature(key) == WeightedSum(key, 8) <= 9180
  {
    WeightedSumBound(key, 8);
  }

  /** `255 · (1 + 2 + ... + n)`, the largest weighted sum of `n` bytes. */
  function MaxWeightedSum(n: nat): nat {
    if n == 0 then 0 else MaxWeightedSum(n - 1) + 255 * n
  }

  lemma {:induction false} WeightedSumBound(key: seq<Byte>, n: nat)
    requires n <= |key|
    ensures WeightedSum(key, n) <= MaxWeightedSum(n)
  {
    if n > 0 {
      WeightedSumBound(key, n - 1);
      assert key[n - 1] * n <= 255 * n by {
        assert (255 - key[n - 1]) * n >= 0;
      }
    }
  }

  /** A final cipher key: eight bytes. */
  type Key = k: seq<Byte> | |k| == 8 witness [0, 0, 0, 0, 0, 0, 0, 0]

  /** One value of the `frequency_cipher` table. */
  datatype CipherEntry = CipherEntry(baseFrequency: real, encryptionKey: Key, quantumSignature: int, octabitLevel: int)

  /** What every entry of the table satisfies. */
  predicate WellFormedEntry(e: CipherEntry) {
    && e.octabitLevel == 3
    && e.quantumSignature == QuantumSignature(e.encryptionKey)
    && KeyCandidate(FrequencyKey(e.baseFrequency), e.encryptionKey)
  }

  /** Every wheel of `after` is the matching wheel of `before` advanced `n` steps. */
  predicate AdvancedBy(before: seq<RomanDecoderWheel>, after: seq<RomanDecoderWheel>, n: nat) {
    && |after| == |before|
    && forall i :: 0 <= i < |before| ==>
         after[i] == before[i].(thetaOverPi := before[i].thetaOverPi + n as real * StepOverPi(before[i].freq))
  }

  /** `for wheel in self.roman_wheels: decoded = wheel.decode_data(decoded)`. */
  function RunWheels(ws: seq<RomanDecoderWheel>, hex: string, gate: Gate): (res: (seq<RomanDecoderWheel>, string))
    ensures AdvancedBy(ws, res.0, 1)
    ensures multiset(res.1) <= multiset(hex)
    ensures |res.1| <= |hex|
    decreases |ws|
  {
    if ws == [] then ([], hex)
    else
      var first := DecodeData(ws[0], hex, gate);
      var others := RunWheels(ws[1..], first.1, gate);
      AdvancedByCons(ws, first.0, others.0);
      ([first.0] + others.0, others.1)
  }

  /** A wheel advanced once in front of the others advanced once. */
  lemma AdvancedByCons(ws: seq<RomanDecoderWheel>, w: RomanDecoderWheel, rest: seq<RomanDecoderWheel>)
    requires |ws| > 0 && w == ws[0].(thetaOverPi := ws[0].thetaOverPi + StepOverPi(ws[0].freq))
    requires AdvancedBy(ws[1..], rest, 1)
    ensures AdvancedBy(ws, [w] + rest, 1)
  {
    var after := [w] + rest;
    forall i | 0 <= i < |ws|
      ensures after[i] == ws[i].(thetaOverPi := ws[i].thetaOverPi + 1 as real * StepOverPi(ws[i].freq))
    {
      if i > 0 {
        assert after[i] == rest[i - 1] && ws[i] == ws[1..][i - 1];
      }
    }
  }

  /** However many wheels run, 16 characters come out whole, halved, or empty. */
  lemma {:induction false} RunWheelsHalves(ws: seq<RomanDecoderWheel>, h: string, x: string, gate: Gate)
    requires |h| == 16
    requires x == h || x == h[..8] || x == h[8..] || x == ""
    ensures var out := RunWheels(ws, x, gate).1;
      out == h || out == h[..8] || out == h[8..] || out == ""
    decreases |ws|
  {
    if ws != [] {
      var once := DecodeData(ws[0], x, gate).1;
      DecodeDataHalves(ws[0], h, x, gate);
      RunWheelsHalves(ws[1..], h, once, gate);
    }
  }

  function ZeroBytes(n: nat): (z: seq<Byte>)
    ensures |z| == n && forall i :: 0 <= i < n ==> z[i] == 0
  {
    if n == 0 then [] else ZeroBytes(n - 1) + [0]
  }

  /**
   The modulation bytes: the wheel output padded with `'0'` or cut back to the
   base key's hex length, then parsed; the `ValueError` fallback is an
   all-zero buffer of half that length.
   */
  function ModulationBytes(decoded: string, hexLength: nat): (mod: seq<Byte>)
  {
    match FromHex(Text.FitTo(decoded, hexLength, '0'))
    case Some(bs) => bs
    case None => ZeroBytes(hexLength / 2)
  }

  /** Text of hex digits fitted to 16 characters always parses, so the fallback never runs. */
  lemma ModulationParses(decoded: string)
    requires forall i :: 0 <= i < |decoded| ==> IsHexDigit(decoded[i])
    ensures FromHex(Text.FitTo(decoded, 16, '0')).Some?
    ensures |ModulationBytes(decoded, 16)| == 8
  {
    var fitted := Text.FitTo(decoded, 16, '0');
    assert forall i :: 0 <= i < 16 ==> IsHexDigit(fitted[i]) by {
      forall i | 0 <= i < 16
        ensures IsHexDigit(fitted[i])
      {
        if i < |decoded| {
          if |decoded| <= 16 {
            assert fitted[..|decoded|][i] == decoded[i];
          }
        }
      }
    }
    FromHexDigits(fitted);
  }

  /** The wheel output of a hex string is itself all hex digits. */
  lemma HexSurvives(hex: string, out: string)
    requires forall i :: 0 <= i < |hex| ==> IsHexDigit(hex[i])
    requires multiset(out) <= multiset(hex)
    ensures forall i :: 0 <= i < |out| ==> IsHexDigit(out[i])
  {
    forall i | 0 <= i < |out|
      ensures IsHexDigit(out[i])
    {
      assert out[i] in multiset(out);
      assert out[i] in multiset(hex);
      var j :| 0 <= j < |hex| && hex[j] == out[i];
    }
  }

  /**
   `add_cipher`: derive the base key, mix its hex form through the wheels,
   fit and parse it, and XOR it with the base key. Returns the advanced wheels
   and the new entry.
   */
  function AddCipher(ws: seq<RomanDecoderWheel>, f: real, gate: Gate): (res: (seq<RomanDecoderWheel>, CipherEntry))
    ensures AdvancedBy(ws, res.0, 1)
    ensures WellFormedEntry(res.1) && res.1.baseFrequency == f
  {
    var baseKey := FrequencyKey(f);
    var baseHex := Hex(baseKey);
    var (ws', decoded) := RunWheels(ws, baseHex, gate);
    HexSurvives(baseHex, decoded);
    ModulationParses(decoded);
    RunWheelsHalves(ws, baseHex, baseHex, gate);
    MixedKeyCandidate(baseKey, decoded);
    var mod := ModulationBytes(decoded, |baseHex|);
    var finalKey := CyclicXor(mod, baseKey);
    (ws', CipherEntry(f, finalKey, QuantumSignature(finalKey), 3))
  }

  /**
   The only keys the four-wheel mixing can yield from a base key `b`, one per
   way the wheels can leave its hex form: all of it kept (the key cancels
   to zeros), none of it (the base key), only its first half, or only its
   second half (the halves folded together).
   */
  predicate KeyCandidate(b: seq<Byte>, key: seq<Byte>)
    requires |b| == 8
  {
    || key == ZeroBytes(8)
    || key == b
    || key == ZeroBytes(4) + b[4..]
    || key == FoldedHalves(b)
  }

  /** The second half XORed onto the first, followed by the second half. */
  function FoldedHalves(b: seq<Byte>): (k: seq<Byte>)
    requires |b| == 8
  {
    seq(4, j requires 0 <= j < 4 => Xor(b[j + 4], b[j])) + b[4..]
  }

  lemma HexZeros()
    ensures Hex(ZeroBytes(4)) == "00000000"
    ensures Hex(ZeroBytes(8)) == "0000000000000000"
  {
    assert ZeroBytes(4) == [0, 0, 0, 0];
    assert ZeroBytes(8) == [0, 0, 0, 0, 0, 0, 0, 0];
  }

  lemma HexHalves(b: seq<Byte>)
    requires |b| == 8
    ensures Hex(b)[..8] == Hex(b[..4]) && Hex(b)[8..] == Hex(b[4..])
  {
    HexAppend(b[..4], b[4..]);
    assert b[..4] + b[4..] == b;
  }

  /** Half of the hex form, fitted back to 16 characters, is that half's bytes followed by zeros. */
  lemma FitHalf(half: seq<Byte>)
    requires |half| == 4
    ensures Text.FitTo(Hex(half), 16, '0') == Hex(half + ZeroBytes(4))
  {
    HexZeros();
    HexAppend(half, ZeroBytes(4));
    assert Text.Repeat('0', 8) == "00000000";
  }

  lemma FitEmpty()
    ensures Text.FitTo("", 16, '0') == Hex(ZeroBytes(8))
  {
    HexZeros();
    assert Text.Repeat('0', 16) == "0000000000000000";
  }

  /** All of the hex form kept: the key cancels to zeros. */
  lemma MixWhole(b: seq<Byte>)
    requires |b| == 8
    ensures CyclicXor(ModulationBytes(Hex(b), 16), b) == ZeroBytes(8)
  {
    ModulationWhole(b);
    XorWhole(b);
  }

  lemma ModulationWhole(b: seq<Byte>)
    requires |b| == 8
    ensures ModulationBytes(Hex(b), 16) == b
  {
    FromHexHex(b);
    assert Text.FitTo(Hex(b), 16, '0') == Hex(b);
  }

  lemma XorWhole(b: seq<Byte>)
    requires |b| == 8
    ensures CyclicXor(b, b) == ZeroBytes(8)
  {
    var zeros := ZeroBytes(8);
    forall i | 0 <= i < 8
      ensures zeros[i] == Xor(b[i], b[i])
    {
      XorSelf(b[i]);
    }
    CyclicXorIs(b, b, zeros);
  }

  lemma ModulationFirstHalf(b: seq<Byte>)
    requires |b| == 8
    ensures ModulationBytes(Hex(b)[..8], 16) == b[..4] + ZeroBytes(4)
  {
    HexHalves(b);
    FitHalf(b[..4]);
    FromHexHex(b[..4] + ZeroBytes(4));
  }

  lemma ModulationSecondHalf(b: seq<Byte>)
    requires |b| == 8
    ensures ModulationBytes(Hex(b)[8..], 16) == b[4..] + ZeroBytes(4)
  {
    HexHalves(b);
    FitHalf(b[4..]);
    FromHexHex(b[4..] + ZeroBytes(4));
  }

  lemma ModulationNothing()
    ensures ModulationBytes("", 16) == ZeroBytes(8)
  {
    FitEmpty();
    FromHexHex(ZeroBytes(8));
  }

  lemma XorFirstHalf(b: seq<Byte>)
    requires |b| == 8
    ensures CyclicXor(b[..4] + ZeroBytes(4), b) == ZeroBytes(4) + b[4..]
  {
    var mod := b[..4] + ZeroBytes(4);
    var target := ZeroBytes(4) + b[4..];
    forall i | 0 <= i < 8
      ensures target[i] == Xor(mod[i], b[i])
    {
      if i < 4 {
        assert mod[i] == b[i] && target[i] == 0;
        XorSelf(b[i]);
      } else {
        assert mod[i] == 0 && target[i] == b[i];
        XorZero(b[i]);
      }
    }
    CyclicXorIs(mod, b, target);
  }

  lemma XorSecondHalf(b: seq<Byte>)
    requires |b| == 8
    ensures CyclicXor(b[4..] + ZeroBytes(4), b) == FoldedHalves(b)
  {
    var mod := b[4..] + ZeroBytes(4);
    var target := FoldedHalves(b);
    FoldedHalvesAt(b);
    forall i | 0 <= i < 8
      ensures target[i] == Xor(mod[i], b[i])
    {
      if i >= 4 {
        assert mod[i] == 0;
        XorZero(b[i]);
      }
    }
    CyclicXorIs(mod, b, target);
  }

  lemma FoldedHalvesAt(b: seq<Byte>)
    requires |b| == 8
    ensures |FoldedHalves(b)| == 8
    ensures forall i :: 0 <= i < 4 ==> FoldedHalves(b)[i] == Xor(b[i + 4], b[i])
    ensures forall i :: 4 <= i < 8 ==> FoldedHalves(b)[i] == b[i]
  {
  }

  /** Only the first half kept: its bytes cancel, the second half survives. */
  lemma MixFirstHalf(b: seq<Byte>)
    requires |b| == 8
    ensures CyclicXor(ModulationBytes(Hex(b)[..8], 16), b) == ZeroBytes(4) + b[4..]
  {
    ModulationFirstHalf(b);
    XorFirstHalf(b);
  }

  /** Only the second half kept: it is folded onto the first half, and survives as the second. */
  lemma MixSecondHalf(b: seq<Byte>)
    requires |b| == 8
    ensures CyclicXor(ModulationBytes(Hex(b)[8..], 16), b)
      == FoldedHalves(b)
  {
    ModulationSecondHalf(b);
    XorSecondHalf(b);
  }

  /** Nothing kept: the base key comes through unchanged. */
  lemma MixNothing(b: seq<Byte>)
    requires |b| == 8
    ensures CyclicXor(ModulationBytes("", 16), b) == b
  {
    ModulationNothing();
    var zeros := ZeroBytes(8);
    forall i | 0 <= i < 8
      ensures b[i] == Xor(zeros[i], b[i])
    {
      XorZero(b[i]);
    }
    CyclicXorIs(zeros, b, b);
  }

  /** Mixing the base key with the modulation bytes gives one of the four candidates. */
  lemma MixedKeyCandidate(b: seq<Byte>, decoded: string)
    requires |b| == 8
    requires var h := Hex(b); decoded == h || decoded == h[..8] || decoded == h[8..] || decoded == ""
    ensures KeyCandidate(b, CyclicXor(ModulationBytes(decoded, 16), b))
  {
    var h := Hex(b);
    if decoded == h {
      MixWhole(b);
    } else if decoded == h[..8] {
      MixFirstHalf(b);
    } else if decoded == h[8..] {
      MixSecondHalf(b);
    } else {
      MixNothing(b);
    }
  }

  /** The frequency of the last entry with code `c`: the one whose cipher stays in the table. */
  function LastFrequency(langs: seq<Language>, c: string): real
    requires c in Codes(langs)
    decreases |langs|
  {
    if c in Codes(langs[1..]) then LastFrequency(langs[1..], c) else langs[0].frequency
  }

  lemma AdvancedByNothing(ws: seq<RomanDecoderWheel>)
    ensures AdvancedBy(ws, ws, 0)
  {
  }

  /** Advancing by one step, then by `n`, is advancing by `m == n + 1`. */
  lemma AdvancedByStep(ws: seq<RomanDecoderWheel>, ws1: seq<RomanDecoderWheel>, ws2: seq<RomanDecoderWheel>, n: nat, m: nat)
    requires AdvancedBy(ws, ws1, 1) && AdvancedBy(ws1, ws2, n)
    requires m == n + 1
    ensures AdvancedBy(ws, ws2, m)
  {
    forall i | 0 <= i < |ws|
      ensures ws2[i] == ws[i].(thetaOverPi := ws[i].thetaOverPi + m as real * StepOverPi(ws[i].freq))
    {
      var step := StepOverPi(ws[i].freq);
      assert ws1[i].freq == ws[i].freq;
      assert m as real * step == 1 as real * step + n as real * step;
    }
  }

  /** One call of `add_cipher`: the wheels before, a frequency; the wheels after and the entry. */
  type Step = (seq<RomanDecoderWheel>, real) -> (seq<RomanDecoderWheel>, CipherEntry)

  /** `add_cipher` through the wheel gate `gate`, as a step of the table build. */
  function CipherStep(gate: Gate): (step: Step)
    ensures AdvancesOnce(step) && MakesEntries(step)
  {
    var step := (ws, f) => AddCipher(ws, f, gate);
    assert forall ws, f :: step(ws, f) == AddCipher(ws, f, gate);
    step
  }

  /** Each step advances every wheel once. */
  ghost predicate AdvancesOnce(step: Step) {
    forall ws, f :: AdvancedBy(ws, step(ws, f).0, 1)
  }

  /** Each step yields a well-formed entry for the frequency it was given. */
  ghost predicate MakesEntries(step: Step) {
    forall ws, f :: WellFormedEntry(step(ws, f).1) && step(ws, f).1.baseFrequency == f
  }

  /**
   `_initialize_octabit_encryption`: one step per entry, in order, each
   storing its entry under the entry's code in `table`; with
   `CipherStep(gate)` each step is `add_cipher`.
   */
  function BuildTable(langs: seq<Language>, ws: seq<RomanDecoderWheel>, table: map<string, CipherEntry>, step: Step)
    : (map<string, CipherEntry>, seq<RomanDecoderWheel>)
    decreases |langs|
  {
    if langs == [] then
      (table, ws)
    else
      var added := step(ws, langs[0].frequency);
      BuildTable(langs[1..], added.0, table[langs[0].code := added.1], step)
  }

  /** Building the table adds exactly the catalog's codes to the keys. */
  lemma {:induction false} BuildTableKeys(langs: seq<Language>, ws: seq<RomanDecoderWheel>, table: map<string, CipherEntry>, step: Step)
    ensures BuildTable(langs, ws, table, step).0.Keys == table.Keys + Codes(langs)
    decreases |langs|
  {
    if langs != [] {
      var added := step(ws, langs[0].frequency);
      var table1 := table[langs[0].code := added.1];
      assert Codes(langs) == {langs[0].code} + Codes(langs[1..]);
      BuildTableKeys(langs[1..], added.0, table1, step);
    }
  }

  /** Building the table leaves every entry whose code is not in the catalog alone. */
  lemma {:induction false} BuildTableFrame(langs: seq<Language>, ws: seq<RomanDecoderWheel>, table: map<string, CipherEntry>, step: Step, c: string)
    requires c in table && c !in Codes(langs)
    ensures var t := BuildTable(langs, ws, table, step).0; c in t && t[c] == table[c]
    decreases |langs|
  {
    if langs != [] {
      var added := step(ws, langs[0].frequency);
      var table1 := table[langs[0].code := added.1];
      assert c != langs[0].code && c !in Codes(langs[1..]);
      BuildTableFrame(langs[1..], added.0, table1, step, c);
    }
  }

  /** Building the table advances every wheel once per catalog entry. */
  lemma {:induction false} BuildTableAdvances(langs: seq<Language>, ws: seq<RomanDecoderWheel>, table: map<string, CipherEntry>, step: Step)
    requires AdvancesOnce(step)
    ensures AdvancedBy(ws, BuildTable(langs, ws, table, step).1, |langs|)
    decreases |langs|
  {
    if langs == [] {
      AdvancedByNothing(ws);
    } else {
      var added := step(ws, langs[0].frequency);
      var table1 := table[langs[0].code := added.1];
      var rest := BuildTable(langs[1..], added.0, table1, step);
      BuildTableAdvances(langs[1..], added.0, table1, step);
      AdvancedByStep(ws, added.0, rest.1, |langs[1..]|, |langs|);
    }
  }

  /**
   Every code of the catalog gets a well-formed entry for its frequency; a
   code met twice keeps the entry of its last occurrence.
   */
  lemma {:induction false} BuildTableEntries(langs: seq<Language>, ws: seq<RomanDecoderWheel>, table: map<string, CipherEntry>, step: Step)
    requires MakesEntries(step)
    ensures var t := BuildTable(langs, ws, table, step).0;
      forall c :: c in Codes(langs) ==> c in t && WellFormedEntry(t[c]) && t[c].baseFrequency == LastFrequency(langs, c)
    decreases |langs|
  {
    if langs != [] {
      var added := step(ws, langs[0].frequency);
      var table1 := table[langs[0].code := added.1];
      BuildTableEntries(langs[1..], added.0, table1, step);
      if langs[0].code !in Codes(langs[1..]) {
        BuildTableFrame(langs[1..], added.0, table1, step, langs[0].code);
      }
    }
  }
}
