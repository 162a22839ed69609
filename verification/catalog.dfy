/**
 The engine's static `supported_languages` table: natural languages,
 programming languages and protocol codes, each with the frequency its
 cipher key is derived from.
 */
module Catalog {

  datatype Language =
    | Natural(code: string, name: string, voice: string, frequency: real)
    | Programming(code: string, extension: string, frequency: real)
    | Protocol(code: string, kind: string, frequency: real)

  const NaturalLanguages: seq<Language> := [
    Natural("en-US", "English (US)", "en-US-AriaNeural", 440.0),
    Natural("es-ES", "Spanish", "es-ES-ElviraNeural", 493.88),
    Natural("fr-FR", "French", "fr-FR-DeniseNeural", 523.25),
    Natural("de-DE", "German", "de-DE-KatjaNeural", 587.33),
    Natural("it-IT", "Italian", "it-IT-ElsaNeural", 659.25),
    Natural("pt-BR", "Portuguese", "pt-BR-FranciscaNeural", 698.46),
    Natural("ru-RU", "Russian", "ru-RU-SvetlanaNeural", 783.99),
    Natural("ja-JP", "Japanese", "ja-JP-NanamiNeural", 880.0),
    Natural("zh-CN", "Chinese (Simplified)", "zh-CN-XiaoxiaoNeural", 987.77),
    Natural("ko-KR", "Korean", "ko-KR-SunHiNeural", 1046.50),
    Natural("ar-SA", "Arabic", "ar-SA-ZariyahNeural", 1174.66),
    Natural("hi-IN", "Hindi", "hi-IN-SwaraNeural", 1318.51),
    Natural("tr-TR", "Turkish", "tr-TR-EmelNeural", 1396.91),
    Natural("th-TH", "Thai", "th-TH-AcharaNeural", 1567.98),
    Natural("vi-VN", "Vietnamese", "vi-VN-HoaiMyNeural", 1760.0),
    Natural("nl-NL", "Dutch", "nl-NL-ColetteNeural", 1975.53)
  ]

  /** Programming languages; the code is the language's name. */
  const ProgrammingLanguages: seq<Language> := [
    Programming("JavaScript", ".js", 432.0),
    Programming("Python", ".py", 458.0),
    Programming("Java", ".java", 484.0),
    Programming("C++", ".cpp", 512.0),
    Programming("C#", ".cs", 542.0),
    Programming("Go", ".go", 574.0),
    Programming("Rust", ".rs", 608.0),
    Programming("TypeScript", ".ts", 645.0),
    Programming("Ruby", ".rb", 683.0),
    Programming("PHP", ".php", 724.0),
    Programming("Swift", ".swift", 767.0),
    Programming("Kotlin", ".kt", 813.0),
    Programming("Scala", ".scala", 861.0),
    Programming("Haskell", ".hs", 912.0),
    Programming("Clojure", ".clj", 967.0),
    Programming("Elixir", ".ex", 1025.0),
    Programming("GRBL", ".gcode", 1084.0),
    Programming("Fernet", ".fernet", 1147.0),
    Programming("OctaLang", ".octa", 1213.0)
  ]

  const ProtocolCodes: seq<Language> := [
    Protocol("proto:stratum.notify", "stratum", 433.0),
    Protocol("proto:stratum.set_difficulty", "stratum", 434.0),
    Protocol("proto:stratum.submit", "stratum", 435.0),
    Protocol("proto:json-rpc", "json", 436.0),
    Protocol("proto:blockheader.hex", "hex", 437.0),
    Protocol("proto:merkle.hex", "hex", 438.0),
    Protocol("proto:coinbase.hex", "hex", 439.0),
    Protocol("proto:nbits", "numeric", 440.5),
    Protocol("proto:ntime", "numeric", 441.0),
    Protocol("proto:nonce", "numeric", 441.5),
    Protocol("proto:extranonce", "alphanumeric", 442.0),
    Protocol("proto:sha256-hash", "hex", 442.5),
    Protocol("proto:base64", "base64", 443.0),
    Protocol("proto:f2pool-tag", "ascii", 443.5)
  ]

  /** The order in which cipher entries are added: natural, programming, protocol. */
  const AllLanguages: seq<Language> := NaturalLanguages + ProgrammingLanguages + ProtocolCodes

  /** The codes of a list of entries. */
  function Codes(langs: seq<Language>): set<string>
    decreases |langs|
  {
    if langs == [] then {} else {langs[0].code} + Codes(langs[1..])
  }

  /** A code is among the codes of a catalog exactly when some entry carries it. */
  lemma {:induction false} CodesMembers(langs: seq<Language>, c: string)
    ensures c in Codes(langs) <==> exists i :: 0 <= i < |langs| && langs[i].code == c
    decreases |langs|
  {
    if langs != [] {
      CodesMembers(langs[1..], c);
      if c in Codes(langs[1..]) {
        var i :| 0 <= i < |langs[1..]| && langs[1..][i].code == c;
        assert langs[i + 1].code == c;
      }
      if exists i :: 0 <= i < |langs| && langs[i].code == c {
        var i :| 0 <= i < |langs| && langs[i].code == c;
        if i > 0 {
          assert langs[1..][i - 1].code == c;
        }
      }
    }
  }
}
