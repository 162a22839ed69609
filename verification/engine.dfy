/**
 `AdvancedLanguageEngine`: the per-code octabit cipher (UTF-8 bytes XORed
 with the code's key, written as unpadded URL-safe base 64), language
 detection, the placeholder translator, the processing pipeline that ties
 them together, and the listing of supported programming languages.
 */
module Engine {
  import opened Wrappers
  import opened Bytes
  import Utf8
  import Base64
  import Text
  import opened Wheel
  import opened Catalog
  import opened Cipher

  /** The engine's state that its operations read: the cipher table and the wheels. */
  datatype Engine = Engine(frequencyCipher: map<string, CipherEntry>, romanWheels: seq<RomanDecoderWheel>)

  /** The four wheels `RomanDecoderWheel('xy', 432 + 3i, 580 + 10i)` for `i` in `range(4)`. */
  function InitialWheels(): (ws: seq<RomanDecoderWheel>)
    ensures |ws| == 4
    ensures forall i :: 0 <= i < 4 ==> ws[i] == NewWheel("xy", 432.0 + 3.0 * i as real, 580.0 + 10.0 * i as real)
  {
    seq(4, i requires 0 <= i < 4 => NewWheel("xy", 432.0 + 3.0 * i as real, 580.0 + 10.0 * i as real))
  }

  /** An engine whose cipher table is built from `langs`, in order, through the initial wheels. */
  function EngineFor(langs: seq<Language>, gate: Gate): (e: Engine)
    ensures e.frequencyCipher.Keys == Codes(langs)
    ensures forall c :: c in e.frequencyCipher ==>
      WellFormedEntry(e.frequencyCipher[c]) && e.frequencyCipher[c].baseFrequency == LastFrequency(langs, c)
    ensures AdvancedBy(InitialWheels(), e.romanWheels, |langs|)
  {
    var ws := InitialWheels();
    var step := CipherStep(gate);
    var built := BuildTable(langs, ws, map[], step);
    BuildTableKeys(langs, ws, map[], step);
    BuildTableEntries(langs, ws, map[], step);
    BuildTableAdvances(langs, ws, map[], step);
    Engine(built.0, built.1)
  }

  /**
   The constructor: the wheels, then `_initialize_octabit_encryption`, which
   adds a cipher for every natural, programming and protocol code in that
   order, all through the same four wheels.
   */
  function NewEngine(gate: Gate): (e: Engine)
    ensures e.frequencyCipher.Keys == Codes(AllLanguages)
    ensures forall c :: c in e.frequencyCipher ==>
      WellFormedEntry(e.frequencyCipher[c]) && e.frequencyCipher[c].baseFrequency == LastFrequency(AllLanguages, c)
    ensures AdvancedBy(InitialWheels(), e.romanWheels, |AllLanguages|)
  {
    EngineFor(AllLanguages, gate)
  }

  // ---------------------------------------------------------------------
  // The URL-safe alphabet (section 5 of RFC 4648) by character replacement
  // ---------------------------------------------------------------------

  /** The characters of the alphabet of table 2 of RFC 4648. */
  predicate IsUrlChar(c: char) {
    'A' <= c <= 'Z' || 'a' <= c <= 'z' || '0' <= c <= '9' || c == '-' || c == '_'
  }

  /** `.replace('+', '-').replace('/', '_')`. */
  function ToUrlSafe(s: string): string {
    Text.Replace(Text.Replace(s, "+", "-"), "/", "_")
  }

  /** `.replace('-', '+').replace('_', '/')`. */
  function FromUrlSafe(s: string): string {
    Text.Replace(Text.Replace(s, "-", "+"), "_", "/")
  }

  /** The two replacements map each character on its own. */
  lemma ToUrlSafeAt(s: string)
    ensures |ToUrlSafe(s)| == |s|
    ensures forall i :: 0 <= i < |s| ==>
      ToUrlSafe(s)[i] == (if s[i] == '+' then '-' else if s[i] == '/' then '_' else s[i])
  {
    Text.ReplaceOneChar(s, '+', '-');
    Text.ReplaceOneChar(Text.Replace(s, "+", "-"), '/', '_');
  }

  lemma FromUrlSafeAt(s: string)
    ensures |FromUrlSafe(s)| == |s|
    ensures forall i :: 0 <= i < |s| ==>
      FromUrlSafe(s)[i] == (if s[i] == '-' then '+' else if s[i] == '_' then '/' else s[i])
  {
    Text.ReplaceOneChar(s, '-', '+');
    Text.ReplaceOneChar(Text.Replace(s, "-", "+"), '_', '/');
  }

  /** Standard base 64 text becomes URL-safe text, and switching back restores it. */
  lemma UrlSafeRoundTrip(s: string)
    requires forall i :: 0 <= i < |s| ==> Base64.IsStdChar(s[i])
    ensures forall i :: 0 <= i < |ToUrlSafe(s)| ==> IsUrlChar(ToUrlSafe(s)[i])
    ensures FromUrlSafe(ToUrlSafe(s)) == s
  {
    var u := ToUrlSafe(s);
    ToUrlSafeAt(s);
    FromUrlSafeAt(u);
    forall i | 0 <= i < |s|
      ensures IsUrlChar(u[i]) && FromUrlSafe(u)[i] == s[i]
    {
      assert Base64.IsStdChar(s[i]);
    }
  }

  // ---------------------------------------------------------------------
  // Encryption and decryption with one key
  // ---------------------------------------------------------------------

  /** The bytes the cipher base-64 encodes: the UTF-8 form XORed with the key. */
  function Scrambled(text: string, key: Key): (out: seq<Byte>)
    ensures |out| == |Utf8.Encode(text)|
  {
    CyclicXor(Utf8.Encode(text), key)
  }

  /**
   `_apply_frequency_encryption`: the scrambled bytes in base 64 with the
   padding stripped and the URL-safe substitutions applied. The result is
   URL-safe text without `+`, `/` or `=`, and has exactly the data characters
   of the encoding.
   */
  function ApplyFrequencyEncryption(text: string, key: Key): (enc: string)
    ensures forall i :: 0 <= i < |enc| ==> IsUrlChar(enc[i])
    ensures forall i :: 0 <= i < |enc| ==> enc[i] != '+' && enc[i] != '/' && enc[i] != '='
    ensures |enc| == (4 * |Utf8.Encode(text)| + 2) / 3
  {
    var out := Scrambled(text, key);
    Base64.StripEncode(out);
    UrlSafeRoundTrip(Base64.EncodeUnpadded(out));
    ToUrlSafeAt(Base64.EncodeUnpadded(out));
    ToUrlSafe(Text.RStrip(Base64.Encode(out), '='))
  }

  /**
   `_reverse_frequency_encryption` as the source writes it: undo the URL-safe
   substitutions and decode without restoring the padding; a decoding error
   returns the argument itself.
   */
  function ReverseFrequencyEncryptionAsWritten(enc: string, key: Key): (dec: string)
    ensures Base64.Decode(FromUrlSafe(enc)).Failure? ==> dec == enc
  {
    match Base64.Decode(FromUrlSafe(enc))
    case Failure(_) => enc
    case Success(data) => Utf8.DecodeIgnore(CyclicXor(data, key))
  }

  /** How many `=` complete text of length `n` to a multiple of four (Python's `-n % 4`). */
  function RepadLength(n: nat): (p: nat)
    ensures p < 4 && (n + p) % 4 == 0
  {
    (4 - n % 4) % 4
  }

  /**
   `_reverse_frequency_encryption` with the stripped padding put back before
   decoding; otherwise as written.
   */
  function ReverseFrequencyEncryption(enc: string, key: Key): (dec: string)
    ensures Base64.Decode(FromUrlSafe(enc) + Text.Repeat('=', RepadLength(|enc|))).Failure? ==> dec == enc
  {
    var std := FromUrlSafe(enc);
    FromUrlSafeAt(enc);
    match Base64.Decode(std + Text.Repeat('=', RepadLength(|std|)))
    case Failure(_) => enc
    case Success(data) => Utf8.DecodeIgnore(CyclicXor(data, key))
  }

  /** Decoding the scrambled bytes' encoding and XORing again gives the text back. */
  lemma Unscramble(text: string, key: Key)
    ensures Utf8.DecodeIgnore(CyclicXor(Scrambled(text, key), key)) == text
  {
    CyclicXorInvolution(Utf8.Encode(text), key);
    Utf8.DecodeEncode(text);
  }

  /** The ciphertext switched back to the standard alphabet is the unpadded encoding. */
  lemma CiphertextStd(text: string, key: Key)
    ensures FromUrlSafe(ApplyFrequencyEncryption(text, key)) == Base64.EncodeUnpadded(Scrambled(text, key))
  {
    var out := Scrambled(text, key);
    Base64.StripEncode(out);
    UrlSafeRoundTrip(Base64.EncodeUnpadded(out));
  }

  /**
   As written, decryption inverts encryption when the text's UTF-8 form has a
   multiple of three bytes: the encoding then had no padding to lose.
   */
  lemma AsWrittenRoundTripAligned(text: string, key: Key)
    requires |Utf8.Encode(text)| % 3 == 0
    ensures ReverseFrequencyEncryptionAsWritten(ApplyFrequencyEncryption(text, key), key) == text
  {
    CiphertextStd(text, key);
    Base64.DecodeUnpadded(Scrambled(text, key));
    Unscramble(text, key);
  }

  /**
   As written, for every other length the decoder rejects the unpadded text
   and decryption hands back the ciphertext.
   */
  lemma AsWrittenRoundTripMisaligned(text: string, key: Key)
    requires |Utf8.Encode(text)| % 3 != 0
    ensures ReverseFrequencyEncryptionAsWritten(ApplyFrequencyEncryption(text, key), key)
      == ApplyFrequencyEncryption(text, key)
  {
    CiphertextStd(text, key);
    Base64.DecodeUnpadded(Scrambled(text, key));
  }

  /** The one-letter text "a" does not survive the round trip as written, whatever the key. */
  lemma AsWrittenCounterexample(key: Key)
    ensures ReverseFrequencyEncryptionAsWritten(ApplyFrequencyEncryption("a", key), key) != "a"
  {
    assert Utf8.Encode("a") == [97];
    AsWrittenRoundTripMisaligned("a", key);
    assert |ApplyFrequencyEncryption("a", key)| == 2;
  }

  /** The padding the repair adds is exactly the padding the encoder stripped. */
  lemma RepadEncodeUnpadded(bs: seq<Byte>)
    ensures Base64.EncodeUnpadded(bs) + Text.Repeat('=', RepadLength(|Base64.EncodeUnpadded(bs)|)) == Base64.Encode(bs)
  {
    var n := |bs|;
    var q, r := n / 3, n % 3;
    assert n == 3 * q + r;
    assert (4 * n + 2) / 3 == 4 * q + (4 * r + 2) / 3;
    assert RepadLength((4 * n + 2) / 3) == Base64.PadLength(n);
  }

  /** With the padding restored, decryption inverts encryption for every text and key. */
  lemma RoundTrip(text: string, key: Key)
    ensures ReverseFrequencyEncryption(ApplyFrequencyEncryption(text, key), key) == text
  {
    var enc := ApplyFrequencyEncryption(text, key);
    var out := Scrambled(text, key);
    CiphertextStd(text, key);
    FromUrlSafeAt(enc);
    RepadEncodeUnpadded(out);
    Base64.DecodeEncode(out);
    Unscramble(text, key);
  }

  // ---------------------------------------------------------------------
  // Encryption by language code
  // ---------------------------------------------------------------------

  /** `encrypt_with_octabit`: a code without a cipher passes the text through. */
  function EncryptWithOctabit(e: Engine, text: string, language: string): (enc: string)
    ensures language !in e.frequencyCipher ==> enc == text
    ensures language in e.frequencyCipher ==> forall i :: 0 <= i < |enc| ==> IsUrlChar(enc[i])
  {
    if language in e.frequencyCipher then
      ApplyFrequencyEncryption(text, e.frequencyCipher[language].encryptionKey)
    else text
  }

  /** `decrypt_with_octabit` as written: a code without a cipher passes the text through. */
  function DecryptWithOctabitAsWritten(e: Engine, text: string, language: string): (dec: string)
    ensures language !in e.frequencyCipher ==> dec == text
  {
    if language in e.frequencyCipher then
      ReverseFrequencyEncryptionAsWritten(text, e.frequencyCipher[language].encryptionKey)
    else text
  }

  /** `decrypt_with_octabit` over the repaired reverse step. */
  function DecryptWithOctabit(e: Engine, text: string, language: string): (dec: string)
    ensures language !in e.frequencyCipher ==> dec == text
  {
    if language in e.frequencyCipher then
      ReverseFrequencyEncryption(text, e.frequencyCipher[language].encryptionKey)
    else text
  }

  /** As written, a known code round-trips text whose UTF-8 length is a multiple of three. */
  lemma DecryptEncryptAsWritten(e: Engine, text: string, language: string)
    requires |Utf8.Encode(text)| % 3 == 0
    ensures DecryptWithOctabitAsWritten(e, EncryptWithOctabit(e, text, language), language) == text
  {
    if language in e.frequencyCipher {
      AsWrittenRoundTripAligned(text, e.frequencyCipher[language].encryptionKey);
    }
  }

  /** Decryption inverts encryption for every code, known or not, and every text. */
  lemma DecryptEncrypt(e: Engine, text: string, language: string)
    ensures DecryptWithOctabit(e, EncryptWithOctabit(e, text, language), language) == text
  {
    if language in e.frequencyCipher {
      RoundTrip(text, e.frequencyCipher[language].encryptionKey);
    }
  }

  // ---------------------------------------------------------------------
  // Detection and translation
  // ---------------------------------------------------------------------

  /** The marks that make `detect_language` answer Spanish: ¿ ¡ ñ á é í ó ú. */
  const SpanishMarks: string := "\U{BF}\U{A1}\U{F1}\U{E1}\U{E9}\U{ED}\U{F3}\U{FA}"

  /** `detect_language`: Spanish exactly when one of the marks occurs, English otherwise. */
  function DetectLanguage(text: string): (lang: string)
    ensures lang == "es-ES" || lang == "en-US"
    ensures lang == "es-ES" <==> exists i :: 0 <= i < |text| && text[i] in SpanishMarks
  {
    if Text.ContainsAny(text, SpanishMarks) then "es-ES" else "en-US"
  }

  /** Plain ASCII text is always taken for English: every mark lies beyond ASCII. */
  lemma DetectAscii(text: string)
    requires forall i :: 0 <= i < |text| ==> text[i] as int < 128
    ensures DetectLanguage(text) == "en-US"
  {
    forall i | 0 <= i < |text|
      ensures text[i] !in SpanishMarks
    {
    }
  }

  /** What `translate` returns. */
  datatype Translation = Translation(text: string, confidence: real)

  /** The word map of the en-US to es-ES case, in its insertion order. */
  function Substitute(text: string): string {
    var t1 := Text.Replace(text, "Hello", "Hola");
    var t2 := Text.Replace(t1, "World", "Mundo");
    var t3 := Text.Replace(t2, "world", "mundo");
    Text.Replace(t3, "hello", "hola")
  }

  /**
   `translate`: the same language echoes the text at 0.95; English to Spanish
   substitutes four words and tags the result at 0.9; any other pair only
   tags the text with the target at 0.7.
   */
  function Translate(text: string, source: string, target: string): (t: Translation)
    ensures t.confidence == 0.95 <==> source == target
    ensures t.confidence == 0.9 <==> source != target && source == "en-US" && target == "es-ES"
    ensures t.confidence == 0.95 || t.confidence == 0.9 || t.confidence == 0.7
    ensures source == target ==> t.text == text
    ensures t.confidence == 0.9 ==> t.text == "[ES] " + Substitute(text)
    ensures t.confidence == 0.7 ==> t.text == "[" + target + "] " + text
  {
    if source == target then Translation(text, 0.95)
    else if source == "en-US" && target == "es-ES" then Translation("[ES] " + Substitute(text), 0.9)
    else Translation("[" + target + "] " + text, 0.7)
  }

  /** Outside the English-to-Spanish case the translation ends with the text itself. */
  lemma TranslateKeepsText(text: string, source: string, target: string)
    requires !(source != target && source == "en-US" && target == "es-ES")
    ensures var t := Translate(text, source, target).text;
      |text| <= |t| && t[|t| - |text|..] == text
  {
  }

  /** A replacement no longer than its pattern cannot lengthen the text. */
  lemma {:induction false} ReplaceNotLonger(s: string, pat: string, rep: string)
    requires 0 < |pat| && |rep| <= |pat|
    ensures |Text.Replace(s, pat, rep)| <= |s|
    decreases |s|
  {
    if |s| >= |pat| {
      if s[..|pat|] == pat {
        ReplaceNotLonger(s[|pat|..], pat, rep);
      } else {
        ReplaceNotLonger(s[1..], pat, rep);
      }
    }
  }

  /** The Spanish substitution never lengthens the text: each word maps to one no longer. */
  lemma SubstituteNotLonger(text: string)
    ensures |Substitute(text)| <= |text|
  {
    var t1 := Text.Replace(text, "Hello", "Hola");
    var t2 := Text.Replace(t1, "World", "Mundo");
    var t3 := Text.Replace(t2, "world", "mundo");
    ReplaceNotLonger(text, "Hello", "Hola");
    ReplaceNotLonger(t1, "World", "Mundo");
    ReplaceNotLonger(t2, "world", "mundo");
    ReplaceNotLonger(t3, "hello", "hola");
  }

  /** Text with none of the four words is only tagged. */
  lemma SubstituteKeywordFree(text: string)
    requires !Text.Occurs("Hello", text) && !Text.Occurs("World", text)
    requires !Text.Occurs("world", text) && !Text.Occurs("hello", text)
    ensures Substitute(text) == text
  {
    Text.ReplaceAbsent(text, "Hello", "Hola");
    Text.ReplaceAbsent(text, "World", "Mundo");
    Text.ReplaceAbsent(text, "world", "mundo");
    Text.ReplaceAbsent(text, "hello", "hola");
  }

  // ---------------------------------------------------------------------
  // The processing pipeline
  // ---------------------------------------------------------------------

  /** The recognised keys of the options dictionary; `None` is an absent key. */
  datatype Options = Options(sourceLanguage: Option<string>, targetLanguage: Option<string>, encryptionEnabled: Option<bool>)

  /** The dictionary `process_language` returns; `encryptedInput` is `None` for JSON null. */
  datatype Processed = Processed(
    input: string,
    detectedLanguage: string,
    encryptedInput: Option<string>,
    translatedContent: string,
    translationConfidence: real)

  /** The source language, with `'auto'` resolved by detection. */
  function Detected(input: string, opts: Options): (lang: string)
    ensures opts.sourceLanguage.GetOr("auto") == "auto" ==> lang == DetectLanguage(input)
    ensures opts.sourceLanguage.GetOr("auto") != "auto" ==> lang == opts.sourceLanguage.value
  {
    var source := opts.sourceLanguage.GetOr("auto");
    if source == "auto" then DetectLanguage(input) else source
  }

  /**
   `process_language`: resolve the source language, encrypt the input under
   its code when encryption is on (the default), and translate what came
   out of that step, which is the ciphertext whenever one was produced.
   */
  function ProcessLanguage(e: Engine, input: string, opts: Options): (r: Processed)
    ensures r.input == input && r.detectedLanguage == Detected(input, opts)
    ensures r.encryptedInput.None? <==>
      (!opts.encryptionEnabled.GetOr(true) || EncryptWithOctabit(e, input, r.detectedLanguage) == input)
    ensures r.encryptedInput.Some? ==> DecryptWithOctabit(e, r.encryptedInput.value, r.detectedLanguage) == input
    ensures r.encryptedInput.Some? && |Utf8.Encode(input)| % 3 == 0 ==>
      DecryptWithOctabitAsWritten(e, r.encryptedInput.value, r.detectedLanguage) == input
    ensures var t := Translate(r.encryptedInput.GetOr(input), r.detectedLanguage, opts.targetLanguage.GetOr("en-US"));
      r.translatedContent == t.text && r.translationConfidence == t.confidence
  {
    var detected := Detected(input, opts);
    var target := opts.targetLanguage.GetOr("en-US");
    var enabled := opts.encryptionEnabled.GetOr(true);
    var enc := if enabled then EncryptWithOctabit(e, input, detected) else input;
    var trans := Translate(enc, detected, target);
    DecryptEncrypt(e, input, detected);
    DecryptEncryptAligned(e, input, detected);
    Processed(input, detected, if enabled && enc != input then Some(enc) else None, trans.text, trans.confidence)
  }

  /** Without a cipher for the resolved code, the input itself is translated and nothing is reported as encrypted. */
  lemma ProcessUnknownCode(e: Engine, input: string, opts: Options)
    requires Detected(input, opts) !in e.frequencyCipher
    ensures ProcessLanguage(e, input, opts).encryptedInput == None
    ensures ProcessLanguage(e, input, opts).translatedContent
      == Translate(input, Detected(input, opts), opts.targetLanguage.GetOr("en-US")).text
  {
  }

  lemma DecryptEncryptAligned(e: Engine, text: string, language: string)
    ensures |Utf8.Encode(text)| % 3 == 0 ==>
      DecryptWithOctabitAsWritten(e, EncryptWithOctabit(e, text, language), language) == text
  {
    if |Utf8.Encode(text)| % 3 == 0 {
      DecryptEncryptAsWritten(e, text, language);
    }
  }

  // ---------------------------------------------------------------------
  // Listing the programming languages
  // ---------------------------------------------------------------------

  /** One entry of the `languages` list of `list_supported_codes`. */
  datatype CodeInfo = CodeInfo(name: string, extension: string, frequency: real)

  /** The listing `list_supported_codes` returns. */
  datatype CodeListing = CodeListing(count: nat, languages: seq<CodeInfo>)

  function InfoName(x: CodeInfo): string {
    x.name
  }

  /** The entries in catalog order, before sorting. */
  function ProgrammingEntries(): (xs: seq<CodeInfo>)
    ensures |xs| == |ProgrammingLanguages|
    ensures forall i :: 0 <= i < |xs| ==>
      xs[i] == CodeInfo(ProgrammingLanguages[i].code, ProgrammingLanguages[i].extension, ProgrammingLanguages[i].frequency)
  {
    assert forall i :: 0 <= i < |ProgrammingLanguages| ==> ProgrammingLanguages[i].Programming?;
    seq(|ProgrammingLanguages|, i requires 0 <= i < |ProgrammingLanguages| =>
      CodeInfo(ProgrammingLanguages[i].code, ProgrammingLanguages[i].extension, ProgrammingLanguages[i].frequency))
  }

  /**
   `list_supported_codes`: every programming language exactly once, ordered
   by name, with the count of entries.
   */
  function ListSupportedCodes(): (r: CodeListing)
    ensures r.count == |r.languages| == 19
    ensures multiset(r.languages) == multiset(ProgrammingEntries())
    ensures Text.SortedBy(r.languages, InfoName)
  {
    var sorted := Text.SortBy(ProgrammingEntries(), InfoName);
    assert |sorted| == |multiset(sorted)| == |ProgrammingEntries()|;
    CodeListing(|sorted|, sorted)
  }
}
