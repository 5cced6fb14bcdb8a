# BIP 39 mnemonics in bcoin, modelled in Dafny

This project models bcoin's `Mnemonic` object (`lib/hd/mnemonic.js`). The
object implements BIP 39 ("Mnemonic code for generating deterministic keys"),
sections "Generating the mnemonic" and "From mnemonic to seed". It holds
five fields:

- a bit length (`bits`);
- a language (`language`);
- the entropy bytes (`entropy`);
- a cached phrase (`phrase`);
- a passphrase (`passphrase`).

Its methods do the following:

- generate the phrase from the entropy (`getPhrase`);
- parse a phrase back into entropy (`fromPhrase`);
- load the object from options, entropy, JSON or a binary record;
- wipe the object (`destroy`).

The model is layered like the program:

- `Bits` (bits.dfy): a byte buffer as a string of bits, most significant bit
  of each byte first. JavaScript's `>>>`, `<<` and `|` are written out on
  natural numbers.
- `Registry` (registry.dfy): the six languages in their fixed order,
  `getWordlist` and `getLanguage`. The primitives the code calls but does not
  define are gathered in an `Env` value, and `Env.Valid()` states the only
  facts the model relies on about them. Those primitives are the wordlists,
  SHA-256, UTF-8 and the PBKDF2 seed derivation.
- `Text` (text.dfy): `Array.prototype.join`, `split(/[ 　]+/)` and
  hexadecimal text.
- `PhraseCodec` (phrase_codec.dfy): the specification functions.
  - `EncodeWords`/`EncodePhrase` give the phrase for some entropy.
  - `Decode` gives what `fromPhrase` recovers, with its errors in the
    source's order.
  - The round trip between them is proved here.
- `Wire` (wire.dfy) and `Json` (json.dfy): the binary and JSON forms.
  - Binary: a little-endian u16, a u8 language index, the entropy, then two
    UTF-8 strings with a Bitcoin CompactSize length prefix.
  - Both forms have round-trip lemmas.
- `MnemonicModel` (mnemonic.dfy): the object itself, as a class whose
  methods assign its fields.
  - `getPhrase`'s nested read loops and `fromPhrase`'s nested OR loops into a
    zeroed `array<byte>`, and its checksum loop, are methods with loop
    invariants.
  - Each is proved to compute exactly what the `PhraseCodec` functions
    specify.

Representation choices:

- A thrown exception is an `Err`/`Fail` result naming the failed check (see
  `Results.Error`). A method that fails leaves the fields as the source would
  leave them at the throw.
- JavaScript's `null` phrase and the empty phrase behave alike everywhere
  (`if (this.phrase)`), so both are the empty string.
- An absent language, the `undefined` that `fromRaw` can store, is `None`.
- `crypto.randomBytes(bits / 8)` is a `random` argument of the methods that
  may need fresh entropy.

## Model

| member | source | states |
|---|---|---|
| MnemonicModel.Mnemonic.constructor | lib/hd/mnemonic.js:36-44 | A new object without options has 128 bits, English, no entropy, no phrase and an empty passphrase |
| MnemonicModel.Mnemonic.FromOptions | lib/hd/mnemonic.js:71-105 | The checks run one after another: bit length, then language, then passphrase, then phrase, then entropy. A failing step keeps what earlier steps stored. The result and every field are given for each case, including `fromPhrase`'s `Decode` outcome and `fromEntropy`'s length check |
| MnemonicModel.Mnemonic.FromOptionsText | lib/hd/mnemonic.js:71-97 | A bare string given as options is the phrase. A non-empty one loads exactly as `fromPhrase` loads it: the fields hold what `Decode` recovers, or nothing changes and the error is `Decode`'s. The empty string changes nothing |
| MnemonicModel.Mnemonic.Destroy | lib/hd/mnemonic.js:121-130 | Every byte of the old entropy buffer is zero afterwards; the fields are back at their defaults |
| MnemonicModel.Mnemonic.ToSeed | lib/hd/mnemonic.js:138-148 | The passphrase given, or the stored one when none is given, becomes the stored passphrase. A cached phrase is used as is and nothing else changes. Otherwise an absent or unsupported language fails with nothing but the passphrase changed. With a supported language the entropy is the stored buffer, or a fresh one holding the random bytes; the call succeeds exactly when it holds `bits / 8` bytes, and then the cached phrase is `EncodePhrase` of it and the seed is the 64-byte derivation from that phrase and "mnemonic" + passphrase. Otherwise it fails with the size error and no phrase |
| MnemonicModel.Mnemonic.GetEntropy | lib/hd/mnemonic.js:169-176 | Stored entropy is kept; missing entropy becomes a fresh buffer holding the random bytes. The result is that buffer exactly when it holds `bits / 8` bytes, else an error |
| MnemonicModel.Mnemonic.GetPhrase | lib/hd/mnemonic.js:183-230 | A cached phrase is returned with nothing changed. An unknown language fails with nothing changed. Otherwise the phrase returned and cached is `EncodePhrase` of the entropy, or an error when the entropy has the wrong size |
| MnemonicModel.ReadIndex | lib/hd/mnemonic.js:211-217 | The eleven shift-and-OR steps yield the 11-bit MSB-first value at the given bit offset |
| MnemonicModel.ReadStep | lib/hd/mnemonic.js:212-216 | One step: shifting the index left by one and ORing in `(buf[oct] >>> (7 - bit)) & 1` appends bit `pos`. It also shows that `(pos - bit) / 8` is the byte holding that bit |
| MnemonicModel.ReadWords | lib/hd/mnemonic.js:193-219 | The words read from the entropy followed by the digest bytes are exactly `EncodeWords` of the entropy |
| MnemonicModel.WordAt | lib/hd/mnemonic.js:203-217 | The buffer of `ceil((bits + bits/32) / 8)` bytes holds all the bits read. The 11 bits at offset `11 * i` are word `i`'s index, and that index is below 2048 |
| MnemonicModel.BufferLayout | lib/hd/mnemonic.js:198-209 | For a valid length the checksum needs one digest byte, and `(bits + bits/32) / 11` is `3 * bits / 32` words |
| MnemonicModel.BufferBits | lib/hd/mnemonic.js:203-206 | The bits of the buffer, up to the checksum's end, are `PhraseBits`: the entropy, then the digest's leading `bits / 32` bits |
| PhraseCodec.EncodeWords | lib/hd/mnemonic.js:196-219 | The phrase has exactly `3 * bits / 32` words |
| PhraseCodec.EncodePhrase | lib/hd/mnemonic.js:183-230 | Splitting the generated phrase gives back exactly the words read from the entropy, in order |
| PhraseCodec.ValidBitsValues | lib/hd/mnemonic.js:77-79 | The bit lengths the checks admit are exactly 128, 160, 192, 224 and 256 |
| PhraseCodec.EncodeWordsSpec | lib/hd/mnemonic.js:209-219 | Word `i` is the wordlist entry at the 11-bit MSB-first value read at bit offset `11 * i` of the entropy followed by its checksum bits |
| PhraseCodec.PhraseBits | lib/hd/mnemonic.js:196-206 | The bit string read holds `bits + bits / 32` bits, a whole number of 11-bit indices |
| PhraseCodec.PhraseBitsChecksum | lib/hd/mnemonic.js:196-206 | The bits after the entropy are the leading bits of the SHA-256 digest |
| PhraseCodec.Index11 | lib/hd/mnemonic.js:211-217 | An 11-bit index is below 2048, and writing it back as 11 bits gives the same bits |
| PhraseCodec.Indices | lib/hd/mnemonic.js:209-219 | There is one index per 11 bits |
| PhraseCodec.PackIndices | lib/hd/mnemonic.js:261-275 | Writing the indices gives 11 bits per index |
| PhraseCodec.PackIndicesOfIndices | lib/hd/mnemonic.js:209-275 | The writer loop inverts the reader loop: packing the indices read from a bit string gives the bit string back |
| PhraseCodec.LengthCheck | lib/hd/mnemonic.js:244-253 | The length rule admits exactly 12 to 26 words. The checksum width `11 * words mod 32` is then never 0 and below 32, the entropy width is valid, and the two add up to `11 * words`. Otherwise it fails with the length error |
| PhraseCodec.EncodedLength | lib/hd/mnemonic.js:244-253 | The word count of a generated phrase passes the length rule with the generator's bit length and checksum width `bits / 32` |
| PhraseCodec.WordIndices | lib/hd/mnemonic.js:261-266 | Each looked-up index is in range and names the word looked up |
| PhraseCodec.RecoverEntropy | lib/hd/mnemonic.js:255-290 | The recovered entropy has `bits / 8` bytes; the only possible failure is a checksum mismatch |
| PhraseCodec.Decode | lib/hd/mnemonic.js:238-298 | A decoded phrase has 12 to 26 words and a valid bit length with `bits / 8` entropy bytes, in one of the six languages |
| PhraseCodec.DecodeEarlyFailure | lib/hd/mnemonic.js:244-258 | A phrase with a bad length fails with the length error. A phrase whose first word is in no list fails with the language error |
| PhraseCodec.DecodeWordCount | lib/hd/mnemonic.js:244-253 | Fewer than 12 or more than 26 words are rejected with the length error |
| PhraseCodec.DecodeAfterLanguage | lib/hd/mnemonic.js:258-297 | Once the length and the language are settled, a word missing from the list fails with the unknown-word error. Otherwise the result is the checksum outcome over the rebuilt bits |
| PhraseCodec.EncodedWords | lib/hd/mnemonic.js:209-266 | Every generated word is a separator-free word of the list, and looking it up gives back the index it was read from |
| PhraseCodec.RecoverEncoded | lib/hd/mnemonic.js:209-290 | Rebuilding the bits from a generated phrase gives the entropy back, and its checksum matches |
| PhraseCodec.PhraseRoundTrip | lib/hd/mnemonic.js:183-298 | Decoding the phrase generated in the language at position `li` recovers the entropy, its bit length and that language, provided no earlier language lists the first word |
| PhraseCodec.LanguagePosition | lib/hd/mnemonic.js:56-63 | Each language's position in the list is its own index; the six names are distinct |
| PhraseCodec.IndexOfWord | lib/hd/mnemonic.js:263 | In a list of distinct words, looking up the word at position `v` gives `v` |
| MnemonicModel.Mnemonic.FromPhrase | lib/hd/mnemonic.js:238-298 | On success every field holds what `Decode` recovers and the phrase is the input verbatim; the passphrase is kept. On failure the error is `Decode`'s and no field changes |
| MnemonicModel.WriteIndex | lib/hd/mnemonic.js:268-274 | ORing the eleven bits of an index in at a bit offset sets exactly those bits that are 1 in the index; every other bit keeps its value |
| MnemonicModel.PackWords | lib/hd/mnemonic.js:261-275 | It reports a missing word exactly when some word is not in the list. Otherwise the zeroed buffer afterwards holds the packed indices of all words, then zeros |
| MnemonicModel.PackStep | lib/hd/mnemonic.js:261-275 | ORing one more word's bits into the buffer keeps it holding the packed indices so far |
| MnemonicModel.PackSnoc | lib/hd/mnemonic.js:261-275 | Packing one more index appends its 11 bits after those already packed |
| MnemonicModel.ZeroBits | lib/hd/mnemonic.js:255-256 | A zero-filled buffer has no bit set |
| MnemonicModel.ChecksumMatches | lib/hd/mnemonic.js:281-288 | It succeeds exactly when the first `cbits` bits of the tail and of the digest agree |
| MnemonicModel.RecoveredBits | lib/hd/mnemonic.js:277-288 | After the word loop, the head slice of the buffer is the entropy the packed bits spell. The checksum loop passes exactly when the packed checksum bits equal the digest's leading bits |
| MnemonicModel.RecoveredEntropy | lib/hd/mnemonic.js:277 | `ent.slice(0, ent.length - cbytes)` is the bytes spelled by the first `bits` packed bits |
| MnemonicModel.RecoveredChecksum | lib/hd/mnemonic.js:278-288 | The bit-by-bit comparison over `ent.slice(ent.length - cbytes)` compares exactly the packed checksum bits with the digest's |
| MnemonicModel.BufferSplit | lib/hd/mnemonic.js:247-278 | The zeroed buffer of `ceil((bits + cbits) / 8)` bytes holds all the bits; removing the `ceil(cbits / 8)` checksum bytes leaves `bits / 8` bytes |
| MnemonicModel.RecoverBuffer | lib/hd/mnemonic.js:255-290 | A missing word gives the unknown-word error. Otherwise the result is `RecoverEntropy`'s: the entropy, or the checksum error |
| MnemonicModel.Mnemonic.FromEntropy | lib/hd/mnemonic.js:318-332 | It succeeds exactly when the length is valid and the language is absent or supported. On success the caller's buffer is stored without a copy and the cached phrase is kept; on failure nothing changes, with the first failed check's error |
| Registry.GetWordlist | lib/hd/mnemonic.js:371-388 | The six language names give their own lists; any other name fails |
| Registry.WordlistOf | lib/hd/mnemonic.js:371-388 | A supported language's list is a list of 2048 distinct separator-free words |
| Registry.FindLanguage | lib/hd/mnemonic.js:355-360 | From position `from` on, the search finds a language exactly when some list holds the word, and it finds the first such list |
| Registry.GetLanguage | lib/hd/mnemonic.js:352-363 | It finds a language exactly when some list holds the word, and then the first one in the fixed order; otherwise the language error |
| Registry.GetLanguageOf | lib/hd/mnemonic.js:352-363 | If list `li` holds the word and no earlier one does, the language found is `li`'s |
| Registry.IndexOf | lib/hd/mnemonic.js:263 | The position found holds the item and no earlier position does; -1 exactly when the item is absent |
| Registry.Separator | lib/hd/mnemonic.js:222-225 | The separator is one separator character: U+3000 exactly for Japanese, a space otherwise |
| Text.Split | lib/hd/mnemonic.js:244 | Splitting always yields at least one piece |
| Text.FirstSeparator | lib/hd/mnemonic.js:244 | The position found is the first separator at or after `i`, or the end |
| Text.RunEnd | lib/hd/mnemonic.js:244 | The position found ends the run of separators starting at `i` |
| Text.SplitJoin | lib/hd/mnemonic.js:221-244 | Splitting words joined by one separator gives the words back |
| Text.JoinLength | lib/hd/mnemonic.js:222-225 | Joining puts exactly one separator between neighbouring words and none at either end, so the text is the words' total length plus `(n - 1)` separators |
| Text.HexEncode | lib/hd/mnemonic.js:399 | Hex text has two digits per byte |
| Text.HexDecode | lib/hd/mnemonic.js:424 | Decoding gives at most one byte per two characters |
| Text.HexRoundTrip | lib/hd/mnemonic.js:399-424 | Decoding the hex text of a buffer gives the buffer back |
| Json.ToObject | lib/hd/mnemonic.js:395-403 | The object passes every type check of `fromJSON` exactly when the language is present. It carries the bit length, two hex digits per entropy byte, the phrase and the passphrase |
| Json.FromObject | lib/hd/mnemonic.js:411-429 | The checks succeed exactly when every field has its type, the bit length is valid and the hex text has `bits / 4` characters. Each failure names the first failed check. On success the fields are copied, and the language is not checked against the six |
| Json.JsonRoundTrip | lib/hd/mnemonic.js:395-429 | Reading back the object written for a valid length and matching entropy restores every field |
| Json.JsonNeedsLanguage | lib/hd/mnemonic.js:395-414 | An object written with no language is rejected when read back |
| MnemonicModel.Mnemonic.ToJSON | lib/hd/mnemonic.js:395-403 | The entropy is the stored buffer, or a fresh one holding the random bytes. The call succeeds exactly when that buffer holds `bits / 8` bytes and a phrase is cached or the language is supported; it fails with the size error first, then the language error. The phrase afterwards is the cached one, or `EncodePhrase` of the entropy on success. The object holds the bit length, the language, the entropy, that phrase and the passphrase |
| MnemonicModel.Mnemonic.FromJSON | lib/hd/mnemonic.js:411-429 | On success every field comes from the object, with the entropy decoded from hex; on failure nothing changes |
| Wire.LE | lib/hd/mnemonic.js:452-453 | A little-endian field has exactly the width written |
| Wire.FromLEOfLE | lib/hd/mnemonic.js:452-474 | Reading back a `k`-byte little-endian field gives the number written modulo 256^k, so a number that fits comes back unchanged |
| Wire.Varint | lib/hd/mnemonic.js:455-456 | A CompactSize prefix takes 1 to 9 bytes |
| Wire.VarString | lib/hd/mnemonic.js:455-456 | A length-prefixed string ends with the string's UTF-8 bytes, after a prefix of 1 to 9 bytes |
| Wire.Serialize | lib/hd/mnemonic.js:452-456 | The record's size is 3 header bytes, the entropy and the two prefixed strings; the entropy sits right after the 3 header bytes |
| Wire.ReadVarint | lib/hd/mnemonic.js:476-477 | A successful CompactSize read consumes 1, 3, 5 or 9 bytes, all within the data |
| Wire.ReadVarString | lib/hd/mnemonic.js:476-477 | A successful string read moves forward and stays within the data |
| Wire.ReadVarintOf | lib/hd/mnemonic.js:476-477 | A CompactSize prefix reads back as the length written |
| Wire.ReadVarStringOf | lib/hd/mnemonic.js:476-477 | A length-prefixed UTF-8 string reads back as the string written |
| Wire.ParseRaw | lib/hd/mnemonic.js:472-477 | At most the five fields are read |
| Wire.ParseStrings | lib/hd/mnemonic.js:476-477 | The two string reads come after the three header reads |
| Wire.CheckRaw | lib/hd/mnemonic.js:479-482 | The record is accepted exactly when all five reads succeeded, the language index named a language and the bit length is valid |
| Wire.ReadLEOf | lib/hd/mnemonic.js:452-474 | BufferReader's bounds-checked `readU16` and `readU8` give back the bits and the language index as written, moving the offset by the field's width |
| Wire.SerializeLayout | lib/hd/mnemonic.js:452-456 | The record is the u16, the u8, the entropy and the two strings, in that order and at those offsets |
| Wire.StringsRoundTrip | lib/hd/mnemonic.js:455-477 | The phrase and the passphrase read back as written |
| Wire.RawRoundTrip | lib/hd/mnemonic.js:446-485 | Reading back a record `toRaw` writes restores every field: the bounds-checked reads all succeed, `readBytes` gives the entropy back, and the language index maps back to its name through `Mnemonic.languages` |
| MnemonicModel.Mnemonic.ToRaw | lib/hd/mnemonic.js:446-462 | An unsupported or absent language fails first, with nothing changed. Otherwise the entropy is the stored buffer, or a fresh one holding the random bytes, and the call succeeds exactly when it holds `bits / 8` bytes, else it fails with the size error. The phrase afterwards is the cached one, or `EncodePhrase` of the entropy on success. The record is `Serialize` of the bit length, the language's index, the entropy, that phrase and the passphrase |
| MnemonicModel.Mnemonic.FromRaw | lib/hd/mnemonic.js:470-485 | Each field is assigned as soon as it is read. The outcome is `CheckRaw` of the reads. A short record or a failed check leaves the fields read so far assigned |
| Bits.BitsOfOr | lib/hd/mnemonic.js:216 | JavaScript's OR on numbers is the bitwise disjunction of their binary digits |
| Bits.OrBounds | lib/hd/mnemonic.js:216 | The bitwise OR of two numbers is at least each operand and at most their sum |
| Bits.ShrDiv | lib/hd/mnemonic.js:216 | `x >>> k` is `x` divided by 2^k, rounded down |
| Bits.ShlMul | lib/hd/mnemonic.js:215 | `x << k` is `x` times 2^k |
| Bits.SetBitAt | lib/hd/mnemonic.js:270-273 | ORing `b << (7 - bit)` into `s[oct]` sets bit `pos` when `b` is 1 and leaves every other bit unchanged; the byte stays a byte |
| Bits.BitsOfShr | lib/hd/mnemonic.js:216 | `(v >>> (n - 1 - j)) & 1` is bit `j` of `v`'s `n`-bit MSB-first form |
| Bits.ReadBitsVal | lib/hd/mnemonic.js:211-217 | Reading bits one by one into a number gives the value of that slice of the bit view |
| Bits.FromToBits | lib/hd/mnemonic.js:203-277 | Viewing bytes as bits and packing the bits back gives the bytes back |
| Bits.ToFromBits | lib/hd/mnemonic.js:203-277 | Packing bits into bytes and viewing them as bits again gives the bits back |

## Left out

- `toKey`, `toString`, `inspect`, `isMnemonic` and the static constructors
  (`Mnemonic.fromOptions`, `Mnemonic.fromPhrase`, `Mnemonic.fromEntropy`,
  `Mnemonic.fromJSON`, `Mnemonic.fromRaw`) are not modelled. They wrap the
  modelled methods, or call HD key code that is not part of this model.
- `lib/bcoin/node.js` is not modelled. It is node wiring with no mnemonic
  logic.
- External primitives are parameters in `Env`, constrained only by
  `Env.Valid()`:
  - SHA-256 gives 32 bytes.
  - The wordlist files are six lists of 2048 distinct words without separators.
  - UTF-8 decoding inverts encoding.
  - PBKDF2-HMAC-SHA512 over NFKD-normalised strings (`nfkd`) gives 64 bytes.
  - Their contents and algorithms are not modelled.
- `crypto.randomBytes` is the `random` argument.
- `utils.binarySearch` over a sorted wordlist is modelled as `IndexOf`, a
  linear search. For a sorted list of distinct words both give the same
  answer.
- The `assert(typeof ...)` and `utils.isNumber` checks on option values are
  not modelled, because the model's types already fix them. JavaScript
  numbers are unbounded integers here.
- `Buffer` aliasing is not modelled. `readBytes`, `slice` and `new Buffer(hex)`
  give fresh arrays in the model, where Node may share memory with the input
  buffer. `fromEntropy` does store the caller's array itself, as the source
  does.
- Node's hex decoding is modelled only as far as `HexDecode` goes: whole
  pairs of hex digits up to the first pair that is not one.
- `constants.hd.MIN_ENTROPY` and `constants.hd.MAX_ENTROPY` come from
  `bcoin.constants`, which is not part of this model. They are fixed
  here as `PhraseCodec.MinEntropy` = 128 and `PhraseCodec.MaxEntropy` = 256,
  BIP 39's bounds. Everything that uses `ValidBits` depends on them:
  - the 12-to-26-word rule of `LengthCheck`;
  - the checksum-width check of `fromPhrase` never failing, since with a
    maximum of 256 no admitted word count has `11 * words mod 32 == 0`;
  - the single digest byte of `BufferLayout`;
  - `ValidBitsValues`;
  - the length checks of `fromOptions`, `fromEntropy`, `fromJSON` and
    `fromRaw`.
- MnemonicModel.Mnemonic.GetPhrase: requires `ValidBits(bits)` when no phrase
  is cached. With any invalid bit length, such as one a failed `fromRaw` left
  behind, the source would still read `bits + bits / 32` bits; the model does
  not cover that state.
- MnemonicModel.Mnemonic.GetPhrase: requires `|random| == bits / 8` when no
  entropy is stored, because `randomBytes(bits / 8)` always has that length.
- MnemonicModel.Mnemonic.ToSeed: carries the same two requirements as
  `GetPhrase`, because it calls `getPhrase`.
- MnemonicModel.Mnemonic.ToJSON: carries the same two requirements as
  `GetPhrase`, because it calls `getPhrase`.
- MnemonicModel.Mnemonic.ToRaw: carries the same two requirements as
  `GetPhrase`, because it calls `getPhrase`.
- MnemonicModel.Mnemonic.GetEntropy: reads `bits / 8` as its floor when `bits`
  is not a multiple of 8. The source passes the fraction to `randomBytes`,
  and then it or the length assertion throws; the model reports the size
  error.
- MnemonicModel.Mnemonic.FromRaw: reads `bits / 8` as its floor when `bits` is
  not a multiple of 8. The source passes the fraction to `readBytes`, so its
  later reads start at a fractional offset. The record is refused either way,
  because such a bit length fails the final check, but the fields assigned
  before the throw may differ.
- Wire.StringsRoundTrip: rests on `Env.Valid()`'s assumption that UTF-8
  decoding inverts encoding. A JavaScript string holding a lone surrogate is
  written as U+FFFD and does not read back as written; neither this lemma nor
  `Wire.RawRoundTrip` covers such strings.
- Wire.RawRoundTrip: stated for bit lengths below 2^16 and strings whose UTF-8
  form is shorter than 2^64 bytes, the widths the writer can hold.
- MnemonicModel.Mnemonic.constructor: takes no options. `new Mnemonic(options)`
  is this constructor followed by `MnemonicModel.Mnemonic.FromOptions`; where
  that call fails, the source throws the same error out of the constructor.
- MnemonicModel.Mnemonic.ToRaw: the optional `writer` argument is not
  modelled. The model always builds and returns a fresh record. With a
  caller's `BufferWriter`, the source appends to it and returns it
  unrendered. If `getEntropy` or `getPhrase` then throws, that writer keeps
  the 3-byte partial record already written (`writeU16`, `writeU8`).
- Seed derivation is modelled only through `toSeed`'s passphrase bookkeeping
  and the `Env` function that stands for PBKDF2.
- `fromEntropy` leaves a cached phrase in place, so after it the phrase may
  no longer match the entropy. The model keeps this behaviour:
  `FromEntropy` ensures `phrase == old(phrase)`, and `ToSeed`, `ToJSON` and
  `ToRaw` then use the cached phrase, not one generated from the new entropy.
- The language of a phrase is the first list, in the fixed order, that holds
  its first word; the model keeps this (`GetLanguage`). A phrase generated in
  a later language whose first word also appears in an earlier list is
  decoded against the earlier list, which is why `PhraseRoundTrip` requires
  that no earlier list holds the first word.
