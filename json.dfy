/**
 * The JSON form of a mnemonic (`toJSON`/`fromJSON`): the bit length as a
 * number, the language, the entropy as hex text, the phrase and the passphrase.
 */
module Json {
  import opened Bits
  import opened Results
  import opened Text
  import opened PhraseCodec

  /** The JSON values the mnemonic's object can hold. */
  datatype Value = Number(n: int) | Str(s: string) | Undefined

  /** The object `toJSON` returns and `fromJSON` reads. */
  datatype Object = Object(bits: Value, language: Value, entropy: Value, phrase: Value, passphrase: Value)

  /** The fields `fromJSON` assigns. */
  datatype Fields = Fields(bits: nat, language: string, entropy: seq<byte>, phrase: string, passphrase: string)

  /** `toJSON`, given the entropy and the phrase it fetched; an absent language stays `undefined`. */
  function ToObject(bits: nat, language: Option<string>, entropy: seq<byte>, phrase: string, passphrase: string)
    : (r: Object)
    ensures WellTyped(r) <==> language.Some?
    ensures && r.bits == Number(bits) && r.entropy.Str? && |r.entropy.s| == 2 * |entropy|
            && r.phrase == Str(phrase) && r.passphrase == Str(passphrase)
    ensures language.Some? ==> r.language == Str(language.value)
  {
    Object(Number(bits), if language.Some? then Str(language.value) else Undefined,
           Str(HexEncode(entropy)), Str(phrase), Str(passphrase))
  }

  /** Every field has the type `fromJSON` asserts for it. */
  predicate WellTyped(json: Object)
  {
    && json.bits.Number? && json.language.Str? && json.entropy.Str?
    && json.phrase.Str? && json.passphrase.Str?
  }

  /**
   * The checks of `fromJSON`, in order: each field has its type, the bit
   * length is valid, and the hex text holds `bits / 8` bytes' worth of digits.
   * The language is not checked against the supported ones.
   */
  function FromObject(json: Object): (r: Result<Fields>)
    ensures r.Ok? <==> WellTyped(json) && ValidBits(json.bits.n) && json.bits.n == 4 * |json.entropy.s|
    ensures r.Ok? ==> && r.value.bits == json.bits.n && r.value.language == json.language.s
                      && r.value.phrase == json.phrase.s && r.value.passphrase == json.passphrase.s
                      && |r.value.entropy| <= r.value.bits / 8
    ensures !WellTyped(json) ==> r == Err(MalformedSerialization)
    ensures WellTyped(json) && !ValidBits(json.bits.n) ==> r == Err(InvalidEntropyLength)
    ensures WellTyped(json) && ValidBits(json.bits.n) && r.Err? ==> r.error == EntropySizeMismatch
  {
    if !WellTyped(json) then Err(MalformedSerialization)
    else if !ValidBits(json.bits.n) then Err(InvalidEntropyLength)
    else if 2 * json.bits.n != 8 * |json.entropy.s| then Err(EntropySizeMismatch)
    else Ok(Fields(json.bits.n, json.language.s, HexDecode(json.entropy.s), json.phrase.s, json.passphrase.s))
  }

  /**
   * JSON round trip: `fromJSON` accepts what `toJSON` produces for a valid
   * bit length and matching entropy, and restores every field.
   */
  lemma JsonRoundTrip(bits: nat, language: string, entropy: seq<byte>, phrase: string, passphrase: string)
    requires ValidBits(bits) && 8 * |entropy| == bits
    ensures FromObject(ToObject(bits, Some(language), entropy, phrase, passphrase))
            == Ok(Fields(bits, language, entropy, phrase, passphrase))
  {
    HexRoundTrip(entropy);
  }

  /** `fromJSON` rejects an object whose language is missing, whatever else it holds. */
  lemma JsonNeedsLanguage(bits: nat, entropy: seq<byte>, phrase: string, passphrase: string)
    ensures FromObject(ToObject(bits, None, entropy, phrase, passphrase)) == Err(MalformedSerialization)
  {
  }
}
