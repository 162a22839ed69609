# Seraphina language engine, spiral wheels and octabit core — a Dafny model

This project models the computational core of the `seraphina_agi` package.

- **The octabit cipher of `AdvancedLanguageEngine`.**
  - Per-code key derivation from a harmonic base key, mixed through four `RomanDecoderWheel`s.
  - The cipher table built over the natural, programming and protocol catalogs.
  - Encryption: cyclic XOR of the UTF-8 bytes, then base 64 with the padding stripped and the URL-safe substitutions.
  - Decryption, with its error path.
  - The helpers `detect_language`, `translate`, `process_language` and `list_supported_codes`.
- **`roman_wheel.py`.**
  - `SimpleOcto`: its constructor, `multiply` and `power`.
  - `RomanDecoderWheel.decode_data`, with its floating-point keep test abstracted as a gate. A short trailing slice is evaluated like any other, and may be kept.
- **The deterministic parts of `LinuxOctaBitQuantumCore`.**
  - The seeded timestamp and the 32-bit LCG.
  - The recursive 8×8×8 lattice and the three armor layers.
  - The report of `run`.

The model is purely functional. Python's mutable state is threaded explicitly:

- the wheels' angle;
- the cipher table;
- the PRNG state.

Modules, in dependency order:

| module | what it holds |
|---|---|
| `Wrappers` | `Option` and `Result` |
| `Bytes` | bytes, bitwise XOR, cyclic XOR, `bytes.hex()` and `bytes.fromhex()` |
| `Utf8` | `str.encode('utf-8')` per Table 3-6 of the Unicode Standard; `bytes.decode('utf-8', errors='ignore')`, which drops each maximal ill-formed subpart (Table 3-7) |
| `Text` | `str.replace`, `rstrip`, `ljust`-and-cut, code-point order, and an insertion sort standing in for `list.sort` |
| `Base64` | the encoder of section 4 of RFC 4648; CPython's lenient `a2b_base64` decoding loop, including its `Incorrect padding` error |
| `Octo` | `SimpleOcto` over exact reals |
| `Wheel` | `RomanDecoderWheel` and `decode_data` |
| `Catalog` | the static `supported_languages` table |
| `Cipher` | key derivation, the quantum signature, `add_cipher`, the table build |
| `Engine` | the engine object and its public operations |
| `QuantumCore` | the octabit core |

## Model

| member | source | states |
|---|---|---|
| Bytes.CyclicXor | seraphina_agi/advanced_language_engine.py:148-151 | output has the input's length, and byte i is `data[i] ^ key[i % len(key)]` |
| Bytes.XorCancel | seraphina_agi/advanced_language_engine.py:150-151 | XORing a byte twice with the same key byte gives the byte back |
| Bytes.CyclicXorInvolution | seraphina_agi/advanced_language_engine.py:160-162 | the decryption loop undoes the encryption loop for every data and non-empty key |
| Bytes.Hex | seraphina_agi/advanced_language_engine.py:123 | `hex()` writes two hex digits per byte |
| Bytes.FromHexHex | seraphina_agi/advanced_language_engine.py:129 | `bytes.fromhex` gives back exactly the bytes `hex()` wrote |
| Bytes.FromHexDigits | seraphina_agi/advanced_language_engine.py:128-131 | an even-length run of hex digits always parses, to half as many bytes, so the `ValueError` fallback needs other input |
| Utf8.DecodeEncode | seraphina_agi/advanced_language_engine.py:148 | decoding the UTF-8 form with `errors='ignore'` gives every text back |
| Base64.Encode | seraphina_agi/advanced_language_engine.py:152 | `b64encode` output is 4·⌈n/3⌉ characters |
| Base64.EncodeUnpadded | seraphina_agi/advanced_language_engine.py:152 | the data characters number ⌊(4n+2)/3⌋ and all lie in the standard alphabet |
| Base64.StripEncode | seraphina_agi/advanced_language_engine.py:152 | `rstrip('=')` removes exactly the padding and no data character |
| Base64.DecodeEncode | seraphina_agi/advanced_language_engine.py:157 | `b64decode` inverts `b64encode` on every byte string |
| Base64.DecodeUnpadded | seraphina_agi/advanced_language_engine.py:157-159 | the stripped encoding decodes back when n % 3 == 0; otherwise it is rejected with "Incorrect padding" |
| Text.RStripExact | seraphina_agi/advanced_language_engine.py:152 | `rstrip(c)` keeps exactly the longest prefix that does not end in c |
| Text.ReplaceOneChar | seraphina_agi/advanced_language_engine.py:152 | replacing one character by another changes exactly the positions holding it |
| Text.FitTo | seraphina_agi/advanced_language_engine.py:127 | `ljust(n, '0')[:n]` has length n: a short input is a prefix followed by `'0'`s, a long one is cut |
| Text.InsertBySorted | seraphina_agi/advanced_language_engine.py:90 | inserting into a sequence sorted by key keeps it sorted |
| Text.SortBy | seraphina_agi/advanced_language_engine.py:90 | `sort(key=...)` returns a permutation of its input, ordered by key under code-point order |
| Octo.Make | seraphina_agi/roman_wheel.py:6-8 | always eight coefficients: the first min(n, 8) inputs in order, then zeros |
| Octo.MultiplySymmetric | seraphina_agi/roman_wheel.py:13-18 | `a.multiply(b) == b.multiply(a)` |
| Octo.MultiplyOne | seraphina_agi/roman_wheel.py:13-18 | `[1, 0, …, 0]` is a left unit of `multiply` |
| Octo.SumSquaresBound | seraphina_agi/roman_wheel.py:10-11 | with coefficients in [0, b], the squared norm over the first n coefficients is at most n·b² |
| Octo.Power | seraphina_agi/roman_wheel.py:20-23 | `power(2)` has scalar part a0² − Σ ai² and vector part 2·a0·ai; any other d returns the value itself |
| Wheel.DigitOrZero | seraphina_agi/roman_wheel.py:41-44 | a hex digit gives its value, and any other character gives 0 instead of raising |
| Wheel.Chunks | seraphina_agi/roman_wheel.py:37-38 | the slices concatenate back to the input; all are non-empty with at most 8 characters; all but the last have exactly 8 |
| Wheel.ChunkOcto | seraphina_agi/roman_wheel.py:39-45 | coefficient k is the k-th character's digit value (0 for a non-hex character or past the end), so every coefficient lies in [0, 15] |
| Wheel.ChunkNormBound | seraphina_agi/roman_wheel.py:39-46 | the squared norm of a slice's vector is between 0 and 225 per character, since each coefficient is a digit value below 16 |
| Wheel.Kept | seraphina_agi/roman_wheel.py:46-47 | every kept slice passes the gate, every slice that passes is kept, and a single slice is kept exactly when it passes |
| Wheel.KeptAppend | seraphina_agi/roman_wheel.py:36-47 | filtering a joined list of slices filters each part in turn, so kept slices keep their input order |
| Wheel.KeptCount | seraphina_agi/roman_wheel.py:46-47 | a slice that passes the gate is kept as many times as it occurs, and one that fails is never kept |
| Wheel.DecodeData | seraphina_agi/roman_wheel.py:33-48 | only the angle changes, by 2π·freq/432/8; output characters are a sub-multiset of the input's, so empty input gives empty output and the output is never longer |
| Wheel.DecodeDataOneSlice | seraphina_agi/roman_wheel.py:45-48 | on one slice of 1 to 8 characters the output is the slice when the advanced wheel's gate accepts its squared norm, and empty otherwise |
| Wheel.DecodeDataAppend | seraphina_agi/roman_wheel.py:36-48 | text split at a multiple of 8 characters decodes to the concatenation of the parts' outputs; with the one-slice case this fixes the output for every input |
| Wheel.DecodeDataSubConcat | seraphina_agi/roman_wheel.py:36-48 | the output is an in-order concatenation of a subset of the input's slices, the short trailing slice included |
| Wheel.DecodeDataKeepAll | seraphina_agi/roman_wheel.py:46-48 | a gate that accepts everything returns the input |
| Wheel.DecodeDataKeepNone | seraphina_agi/roman_wheel.py:46-48 | a gate that accepts nothing returns the empty string |
| Wheel.DecodeDataHalves | seraphina_agi/roman_wheel.py:36-48 | on 16 characters, or on either 8-character half of them, the output is the 16 characters, one of the halves, or empty |
| Catalog.CodesMembers | seraphina_agi/advanced_language_engine.py:140-143 | a code is among the table's codes exactly when some catalog entry carries it |
| Cipher.FrequencyKey | seraphina_agi/advanced_language_engine.py:111-115 | the base key has 8 bytes, and byte i is `int(f·(i+1)) % 256` |
| Cipher.FrequencyKey440 | seraphina_agi/advanced_language_engine.py:111-115 | f = 440 gives [184, 112, 40, 224, 152, 80, 8, 192] |
| Cipher.QuantumSignature | seraphina_agi/advanced_language_engine.py:117-118 | the signature lies in [0, 65536) |
| Cipher.SignatureNoWrap | seraphina_agi/advanced_language_engine.py:117-118 | for an 8-byte key the weighted sum is at most 9180, so the modulus never wraps |
| Cipher.RunWheels | seraphina_agi/advanced_language_engine.py:125-126 | every wheel advances once; the output is no longer than the input and draws its characters from it |
| Cipher.RunWheelsHalves | seraphina_agi/advanced_language_engine.py:124-126 | after any number of wheels, the 16-character base hex comes out whole, as one 8-character half, or empty |
| Cipher.ModulationParses | seraphina_agi/advanced_language_engine.py:127-131 | the fitted wheel output always parses to 8 bytes, so the zero-buffer fallback never runs |
| Cipher.MixedKeyCandidate | seraphina_agi/advanced_language_engine.py:122-132 | the final key is one of four: all zeros, the base key, the base key with its first half zeroed, or the halves folded together |
| Cipher.AddCipher | seraphina_agi/advanced_language_engine.py:121-138 | advances every wheel once; the entry has the given frequency, an 8-byte key of the four-candidate form, its signature, and octabit level 3 |
| Cipher.CipherStep | seraphina_agi/advanced_language_engine.py:121-138 | as a step of the table build, `add_cipher` advances every wheel once and always makes a well-formed entry |
| Cipher.BuildTableKeys | seraphina_agi/advanced_language_engine.py:140-144 | the build adds exactly the catalog's codes as keys |
| Cipher.BuildTableFrame | seraphina_agi/advanced_language_engine.py:140-144 | an entry whose code is not in the catalog is left unchanged |
| Cipher.BuildTableAdvances | seraphina_agi/advanced_language_engine.py:140-144 | every wheel advances once per catalog entry |
| Cipher.BuildTableEntries | seraphina_agi/advanced_language_engine.py:133-144 | every catalog code gets a well-formed entry for the frequency of its last occurrence |
| Engine.EngineFor | seraphina_agi/advanced_language_engine.py:78-82 | a table over a catalog has exactly its codes and well-formed entries, and its wheels have advanced once per entry |
| Engine.NewEngine | seraphina_agi/advanced_language_engine.py:78-82 | the constructor's table covers the natural, programming and protocol codes, with wheels advanced 49 steps |
| Engine.UrlSafeRoundTrip | seraphina_agi/advanced_language_engine.py:152-157 | the URL-safe substitutions map standard base 64 into the alphabet of section 5 of RFC 4648, and the reverse substitutions restore it |
| Engine.ApplyFrequencyEncryption | seraphina_agi/advanced_language_engine.py:146-152 | the ciphertext is URL-safe, has no `+`, `/` or `=`, and has ⌊(4n+2)/3⌋ characters for n UTF-8 bytes |
| Engine.ReverseFrequencyEncryptionAsWritten | seraphina_agi/advanced_language_engine.py:154-163 | when base 64 decoding fails, the argument is returned unchanged |
| Engine.AsWrittenRoundTripAligned | seraphina_agi/advanced_language_engine.py:146-163 | as written, decrypt inverts encrypt when the UTF-8 length is a multiple of 3 |
| Engine.AsWrittenRoundTripMisaligned | seraphina_agi/advanced_language_engine.py:152-159 | as written, for any other length decrypt returns the ciphertext |
| Engine.AsWrittenCounterexample | seraphina_agi/advanced_language_engine.py:152-159 | as written, "a" does not survive encrypt then decrypt, under any key |
| Engine.ReverseFrequencyEncryption | seraphina_agi/advanced_language_engine.py:154-163 | with the padding restored, a decoding failure still returns the argument unchanged |
| Engine.RoundTrip | seraphina_agi/advanced_language_engine.py:146-163 | with the padding restored, decrypt inverts encrypt for every text and key |
| Engine.EncryptWithOctabit | seraphina_agi/advanced_language_engine.py:165-169 | an unknown code returns the text; a known one returns URL-safe text |
| Engine.DecryptWithOctabitAsWritten | seraphina_agi/advanced_language_engine.py:171-175 | an unknown code returns the text |
| Engine.DecryptWithOctabit | seraphina_agi/advanced_language_engine.py:171-175 | an unknown code returns the text |
| Engine.DecryptEncryptAsWritten | seraphina_agi/advanced_language_engine.py:165-175 | as written, any code round-trips text whose UTF-8 length is a multiple of 3 |
| Engine.DecryptEncrypt | seraphina_agi/advanced_language_engine.py:165-175 | with the padding restored, every code round-trips every text |
| Engine.DetectLanguage | seraphina_agi/advanced_language_engine.py:177-180 | 'es-ES' exactly when one of ¿¡ñáéíóú occurs, otherwise 'en-US' |
| Engine.DetectAscii | seraphina_agi/advanced_language_engine.py:177-180 | pure ASCII text is always English |
| Engine.Translate | seraphina_agi/advanced_language_engine.py:182-191 | same language gives the text at 0.95; exactly en-US→es-ES gives "[ES] " plus the substituted text at 0.9; anything else gives "[target] " plus the text at 0.7 |
| Engine.TranslateKeepsText | seraphina_agi/advanced_language_engine.py:183-184 | outside en-US→es-ES, the translation ends with the original text |
| Engine.SubstituteNotLonger | seraphina_agi/advanced_language_engine.py:186-189 | the word substitution never lengthens the text |
| Engine.SubstituteKeywordFree | seraphina_agi/advanced_language_engine.py:186-189 | text containing none of the four words is unchanged by the substitution |
| Engine.Detected | seraphina_agi/advanced_language_engine.py:195-199 | 'auto' or an absent source language means detection; any other value is used as given |
| Engine.ProcessLanguage | seraphina_agi/advanced_language_engine.py:193-209 | `encrypted_input` is None exactly when encryption is off or the ciphertext equals the input; otherwise it decrypts back to the input under the repaired decryption, and under the as-written decryption when the UTF-8 length is a multiple of 3; the translation and its confidence are those of the reported ciphertext, or of the input when none is reported |
| Engine.ProcessUnknownCode | seraphina_agi/advanced_language_engine.py:199-206 | for a code without a cipher, nothing is reported as encrypted and the input itself is translated |
| Engine.ListSupportedCodes | seraphina_agi/advanced_language_engine.py:85-91 | the count equals the list's length, 19; the list is a permutation of the programming catalog, sorted by name |
| QuantumCore.SeededTimestamp | seraphina_agi/linux_octabit_quantum_core.py:49-52 | the timestamp is the first 13 hex digits and lies below 2^52, so the modulus 2^53−1 never changes it |
| QuantumCore.InitPrng | seraphina_agi/linux_octabit_quantum_core.py:62-65 | the initial state is the first 8 hex digits, and lies below 2^32 |
| QuantumCore.SeededRandom | seraphina_agi/linux_octabit_quantum_core.py:55-59 | the new state is the LCG step of the old one, or of the digest's state when none existed; it lies below 2^32; the value lies in [0, 1) and times 2^32 gives the state |
| QuantumCore.SphereTopology | seraphina_agi/linux_octabit_quantum_core.py:91-102 | 8×8×8 copies of the node with density 8, 64 connections and state 'entangled' |
| QuantumCore.GenerateRecursiveLattice | seraphina_agi/linux_octabit_quantum_core.py:90-113 | recursion level is d; the inner lattice is present exactly when d > 0, at level d − 1 |
| QuantumCore.GeneratedChain | seraphina_agi/linux_octabit_quantum_core.py:90-113 | a lattice of depth d ≥ 0 nests exactly d lattices, each with the standard topology and one level below its parent |
| QuantumCore.TripleLatticeArmor | seraphina_agi/linux_octabit_quantum_core.py:79-88 | exactly 3 layers, at recursion levels 0, 1 and 2, nesting 0, 1 and 2 lattices |
| QuantumCore.NewCore | seraphina_agi/linux_octabit_quantum_core.py:67-77 | construction sets the PRNG state from the digest, builds 3 armor layers and turns deception on |
| QuantumCore.GenerateQuantumInbotCode | seraphina_agi/linux_octabit_quantum_core.py:143-161 | one LCG draw is stored back; the code carries the seeded timestamp and a signature in [0, 1) |
| QuantumCore.Run | seraphina_agi/linux_octabit_quantum_core.py:164-175 | `run` changes only the PRNG state, by one draw; the report says "operational", has stealth active exactly when deception is on, counts the armor layers, carries the seeded timestamp, and its signature times 2^32 is the stored state |
| QuantumCore.RunTwice | seraphina_agi/linux_octabit_quantum_core.py:55-59 | a second `run` reports the same timestamp and a signature that is the LCG step of the state the first run stored |
| QuantumCore.RunFresh | seraphina_agi/linux_octabit_quantum_core.py:168-175 | a fresh core reports 3 armor layers with stealth active, and its first signature times 2^32 is the LCG step after the digest's first 8 digits |

## Left out

- **SHA-256.** The digest is a foreign call. `QuantumCore` takes the seed's digest as an input: any 64 lower-case hex digits. `_generate_octabit_key` and `_generate_quantum_salt` are not modelled: they only hash constants, and nothing in the cipher reads them.
- **Floating point.**
  - The wheel's keep test (`sqrt`, `cos(8θ)`, the scaling, `<= 2`) is the `Gate` parameter. The gate receives the advanced wheel and the exact squared norm of the slice's coefficient vector.
  - Frequencies are exact reals, and `int(f·i)` is truncation of the exact product. A float product that rounds across an integer would differ.
  - The PRNG's `state / 2^32` is exact real division. Float division is exact there too, because the state is below 2^32.
- **Characters `int(c, 16)` accepts beyond ASCII.** The wheel reads only ASCII hex digits; any other character counts as 0. Python's `int` also accepts Unicode decimal digits and ignores surrounding whitespace. This cannot matter in the engine, because the wheels only ever see `hex()` output.
- **Surrogate code points.** `str.encode('utf-8')` raises on lone surrogates. Dafny's `char` has no surrogates, so that error path does not exist in the model.
- **Option values of other types.** `options` values are modelled with their documented types. A non-boolean truthy `encryption_enabled`, or a non-string language, is not modelled.
- **Prints and descriptive dictionaries.** All `print` banners are left out. Also left out: `explain_coding_capabilities`, `deploy_galilean_spiral`, the `divine_frequencies` and `galilean_spiral` dictionaries, and the stealth layer's constant flags. Only `deception_active` is kept, because `run` reports it.
- **Other files.** The HTTP server and CLI (`run_agi.py`), voice I/O (`voice.py`), packaging and the package's re-exports are not part of this model.
- **Ties in sorting.** `Text.SortBy` does not state stability. The programming catalog's names are distinct, so ties cannot occur.
- **A worked translation example.** No concrete translation (e.g. "Hello world" to Spanish) is stated. `Engine.Translate` states the general rule.
- **Decryption as written.** Decryption inverts encryption only when the UTF-8 length is a multiple of 3 (see Findings). The as-written members model that, and the other members use the repaired decryption.

## Findings

| source | as written | input that shows it | evidently intended | confidence | as-written member | corrected member |
|---|---|---|---|---|---|---|
| seraphina_agi/advanced_language_engine.py:152-159 | encryption strips the `=` padding, and decryption passes the unpadded text to `b64decode` without restoring it; for a UTF-8 length that is not a multiple of 3 the decoder raises "Incorrect padding", and decryption returns the ciphertext | the text "a" under any known code: the ciphertext has 2 characters, and decrypting it returns those 2 characters | decryption restores `-len % 4` `=` characters before decoding, so decrypt inverts encrypt for every text | high (not executed) | Engine.ReverseFrequencyEncryptionAsWritten, Engine.AsWrittenCounterexample | Engine.ReverseFrequencyEncryption, Engine.RoundTrip |
