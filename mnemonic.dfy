/**
 * The `Mnemonic` object: a bit length, a language, entropy bytes, a cached
 * phrase and a passphrase, updated in place by its methods. Phrase generation
 * and phrase parsing are loops over bits, proved against `EncodePhrase` and
 * `Decode`; the JSON and binary forms are proved against `Json` and `Wire`.
 *
 * JavaScript's `null` phrase and the empty phrase behave alike everywhere
 * (`if (this.phrase)`), so both are the empty string here. An absent
 * language (`undefined`, which `fromRaw` can store) is `None`.
 */
module MnemonicModel {
  import opened Bits
  import opened Results
  import opened Registry
  import opened Text
  import opened PhraseCodec
  import opened Wire
  import opened Json

  /**
   * The options object of `fromOptions`. An empty string stands for an absent
   * or empty (falsy) option; `bits` is checked against `null` instead.
   */
  datatype Options = Options(bits: Option<int>, language: string, passphrase: string, phrase: string,
                             entropy: array?<byte>)

  /** A bare string given as options is the phrase. */
  function PhraseOptions(text: string): Options
  {
    Options(None, "", "", text, null)
  }

  /** The buffer `getPhrase` reads: the entropy followed by enough digest bytes to hold the checksum. */
  lemma BufferBits(ent: seq<byte>, digest: seq<byte>, m: nat)
    requires |digest| == 32 && ValidBits(8 * |ent|) && m <= 32
    requires 8 * |ent| + 8 * |ent| / 32 <= 8 * (|ent| + m)
    ensures ToBits(ent + digest[..m])[..8 * |ent| + 8 * |ent| / 32] == PhraseBits(ent, digest)
  {
    ToBitsAppend(ent, digest[..m]);
    ToBitsPrefix(digest, m);
  }

  /** The inner loop of `getPhrase`: eleven bits read MSB first from bit offset `start`. */
  method ReadIndex(buffer: seq<byte>, start: nat) returns (index: nat)
    requires start + 11 <= 8 * |buffer|
    ensures index == Val(ToBits(buffer)[start .. start + 11])
  {
    index := 0;
    var j := 0;
    while j < 11
      invariant 0 <= j <= 11
      invariant index == ReadBits(buffer, start, j)
    {
      var pos := start + j;
      var bit := pos % 8;
      var oct := (pos - bit) / 8;
      ReadStep(buffer, start, j, index);
      index := Or(Shl(index, 1), Shr(buffer[oct], 7 - bit) % 2);
      j := j + 1;
    }
    ReadBitsVal(buffer, start, 11);
  }

  /** One step of `ReadIndex`: shifting in bit `start + j` extends the value read so far by that bit. */
  lemma ReadStep(buffer: seq<byte>, start: nat, j: nat, index: nat)
    requires start + j < 8 * |buffer|
    requires index == ReadBits(buffer, start, j)
    ensures var pos := start + j;
      && (pos - pos % 8) / 8 == pos / 8 < |buffer|
      && Or(Shl(index, 1), Shr(buffer[pos / 8], 7 - pos % 8) % 2) == ReadBits(buffer, start, j + 1)
  {
    var pos := start + j;
    Octet(pos);
    var b := Shr(buffer[pos / 8], 7 - pos % 8) % 2;
    assert BitAt(buffer, pos) == (b == 1);
    ShiftIn(index, b);
  }

  /**
   * The word loop of `getPhrase`: the entropy and the leading digest bytes
   * are laid out in one buffer and the word at each 11-bit index read from
   * it is appended. The words are `EncodeWords` of the entropy.
   */
  method ReadWords(wordlist: seq<string>, ent: seq<byte>, digest: seq<byte>) returns (words: seq<string>)
    requires |wordlist| == 2048 && |digest| == 32 && ValidBits(8 * |ent|)
    ensures words == EncodeWords(wordlist, ent, digest)
  {
    var bits := 8 * |ent|;
    var total := bits + bits / 32;
    var size := (total + 7) / 8;
    var count := total / 11;
    BufferLayout(|ent|);
    var extra := size - |ent|;
    assert extra == 1;
    var buffer := ent + digest[..extra];
    ghost var expected := EncodeWords(wordlist, ent, digest);
    assert count == |expected|;
    words := [];
    var i := 0;
    while i < count
      invariant 0 <= i <= count
      invariant |words| == i
      invariant forall k :: 0 <= k < i ==> words[k] == expected[k]
    {
      WordAt(wordlist, ent, digest, buffer, i);
      var index := ReadIndex(buffer, 11 * i);
      words := words + [wordlist[index]];
      i := i + 1;
    }
    assert words == expected;
  }

  /** Word `i` of the phrase is the one at the 11-bit index read at bit `11 * i` of the buffer. */
  lemma WordAt(wordlist: seq<string>, ent: seq<byte>, digest: seq<byte>, buffer: seq<byte>, i: nat)
    requires |wordlist| == 2048 && |digest| == 32 && ValidBits(8 * |ent|)
    requires buffer == ent + digest[..1]
    requires i < 3 * (8 * |ent|) / 32
    ensures 11 * i + 11 <= 8 * |buffer|
    ensures var v := Val(ToBits(buffer)[11 * i .. 11 * i + 11]);
            v < 2048 && EncodeWords(wordlist, ent, digest)[i] == wordlist[v]
  {
    BufferLayout(|ent|);
    BufferBits(ent, digest, 1);
    EncodeWordsSpec(wordlist, ent, digest, i);
    assert ToBits(buffer)[11 * i .. 11 * i + 11] == PhraseBits(ent, digest)[11 * i .. 11 * i + 11];
  }

  /** For a valid length the checksum fits in one digest byte, and the bits make 3 words per 32 entropy bits. */
  lemma BufferLayout(n: nat)
    requires ValidBits(8 * n)
    ensures (8 * n + 8 * n / 32 + 7) / 8 - n == 1
    ensures (8 * n + 8 * n / 32) / 11 == 3 * (8 * n) / 32
  {
    var q := n / 4;
    assert n == 4 * q && 4 <= q <= 8;
    assert 8 * n / 32 == q && 3 * (8 * n) / 32 == 3 * q;
    assert 8 * n + q == 33 * q;
  }

  /** The inner loop of `fromPhrase`: OR the eleven bits of `index` into `ent` at bit offset `start`. */
  method WriteIndex(ent: array<byte>, start: nat, index: nat)
    requires index < 2048 && start + 11 <= 8 * ent.Length
    modifies ent
    ensures forall p :: 0 <= p < 8 * ent.Length ==>
      BitAt(ent[..], p) == (BitAt(old(ent[..]), p) || (start <= p < start + 11 && BitsOf(index, 11)[p - start]))
  {
    var j := 0;
    while j < 11
      invariant 0 <= j <= 11
      invariant forall p :: 0 <= p < 8 * ent.Length ==>
        BitAt(ent[..], p) == (BitAt(old(ent[..]), p) || (start <= p < start + j && BitsOf(index, 11)[p - start]))
    {
      var pos := start + j;
      var bit := pos % 8;
      var oct := (pos - bit) / 8;
      assert oct == pos / 8;
      var b := Shr(index, 10 - j) % 2;
      BitsOfShr(index, 11, j);
      SetBitAt(ent[..], pos, b);
      ent[oct] := Or(ent[oct], Shl(b, 7 - bit));
      j := j + 1;
    }
  }

  /**
   * The word loop of `fromPhrase`: look every word up and OR its index into
   * the zeroed buffer at bit offset `11 * i`; stop at the first word missing
   * from the list.
   */
  method PackWords(ent: array<byte>, wordlist: seq<string>, words: seq<string>) returns (missing: bool)
    requires |wordlist| <= 2048 && 11 * |words| <= 8 * ent.Length
    requires forall k :: 0 <= k < ent.Length ==> ent[k] == 0
    modifies ent
    ensures missing <==> exists i :: 0 <= i < |words| && words[i] !in wordlist
    ensures !missing ==> forall p :: 0 <= p < 8 * ent.Length ==>
      BitAt(ent[..], p) == (p < 11 * |words| && PackIndices(WordIndices(wordlist, words))[p])
  {
    ZeroBits(ent[..]);
    ghost var idx: seq<nat> := [];
    var i := 0;
    while i < |words|
      invariant 0 <= i <= |words|
      invariant |idx| == i
      invariant forall k :: 0 <= k < i ==> words[k] in wordlist && idx[k] == IndexOf(wordlist, words[k])
      invariant forall p :: 0 <= p < 8 * ent.Length ==> BitAt(ent[..], p) == (p < 11 * i && PackIndices(idx)[p])
    {
      var start := 11 * i;
      var index := IndexOf(wordlist, words[i]);
      if index == -1 {
        return true;
      }
      ghost var before := ent[..];
      WriteIndex(ent, start, index);
      PackStep(before, ent[..], idx, index, start);
      idx := idx + [index];
      i := i + 1;
    }
    assert idx == WordIndices(wordlist, words);
    return false;
  }

  /** A zeroed buffer has no bit set. */
  lemma ZeroBits(s: seq<byte>)
    requires forall k :: 0 <= k < |s| ==> s[k] == 0
    ensures forall p :: 0 <= p < 8 * |s| ==> !BitAt(s, p)
  {
    forall p | 0 <= p < 8 * |s|
      ensures !BitAt(s, p)
    {
      BitAtByte(s, p);
      BitsOfZero(8, p % 8);
    }
  }

  /** ORing the bits of one more index into the buffer keeps it holding the packed indices. */
  lemma PackStep(before: seq<byte>, after: seq<byte>, idx: seq<nat>, index: nat, start: nat)
    requires |after| == |before| && start == 11 * |idx| && start + 11 <= 8 * |before|
    requires forall p :: 0 <= p < 8 * |before| ==> BitAt(before, p) == (p < start && PackIndices(idx)[p])
    requires forall p :: 0 <= p < 8 * |after| ==>
      BitAt(after, p) == (BitAt(before, p) || (start <= p < start + 11 && BitsOf(index, 11)[p - start]))
    ensures forall p :: 0 <= p < 8 * |after| ==>
      BitAt(after, p) == (p < start + 11 && PackIndices(idx + [index])[p])
  {
    PackSnoc(idx, index);
  }

  /** Packing one more index appends its eleven bits. */
  lemma PackSnoc(idx: seq<nat>, index: nat)
    ensures forall p :: 0 <= p < 11 * (|idx| + 1) ==>
      PackIndices(idx + [index])[p] == (if p < 11 * |idx| then PackIndices(idx)[p] else BitsOf(index, 11)[p - 11 * |idx|])
  {
    var i := |idx|;
    var next := idx + [index];
    forall p | 0 <= p < 11 * (i + 1)
      ensures PackIndices(next)[p] == (if p < 11 * i then PackIndices(idx)[p] else BitsOf(index, 11)[p - 11 * i])
    {
      if p >= 11 * i {
        assert p / 11 == i && p % 11 == p - 11 * i;
      } else {
        assert next[p / 11] == idx[p / 11];
      }
    }
  }

  /** The checksum loop of `fromPhrase`: the first `cbits` bits of `tail` and `chk` agree. */
  method ChecksumMatches(tail: seq<byte>, chk: seq<byte>, cbits: nat) returns (ok: bool)
    requires cbits <= 8 * |tail| && cbits <= 8 * |chk|
    ensures ok <==> forall k :: 0 <= k < cbits ==> BitAt(tail, k) == BitAt(chk, k)
  {
    var i := 0;
    while i < cbits
      invariant 0 <= i <= cbits
      invariant forall k :: 0 <= k < i ==> BitAt(tail, k) == BitAt(chk, k)
    {
      var bit := i % 8;
      var oct := (i - bit) / 8;
      assert oct == i / 8;
      var b := Shr(tail[oct], 7 - bit) % 2;
      var c := Shr(chk[oct], 7 - bit) % 2;
      if b != c {
        assert BitAt(tail, i) != BitAt(chk, i);
        return false;
      }
      i := i + 1;
    }
    return true;
  }

  /**
   * After the word loop of `fromPhrase` the buffer holds the packed indices
   * and zeros after them: its first `bits / 8` bytes are the entropy they
   * spell, and the checksum loop over the rest compares the checksum bits.
   */
  lemma RecoveredBits(s: seq<byte>, packed: seq<bool>, bits: nat, cbits: nat, chk: seq<byte>)
    requires bits % 8 == 0 && |packed| == bits + cbits && bits + cbits <= 8 * |s|
    requires cbits <= 8 * |chk|
    requires forall p :: 0 <= p < 8 * |s| ==> BitAt(s, p) == (p < |packed| && packed[p])
    ensures FromBits(packed[..bits]) == s[..bits / 8]
    ensures (forall k :: 0 <= k < cbits ==> BitAt(s[bits / 8..], k) == BitAt(chk, k))
            <==> packed[bits .. bits + cbits] == ToBits(chk)[..cbits]
  {
    RecoveredEntropy(s, packed, bits);
    RecoveredChecksum(s, packed, bits, cbits, chk);
  }

  /** The first `bits / 8` bytes of the buffer are the bytes the first `bits` packed bits spell. */
  lemma RecoveredEntropy(s: seq<byte>, packed: seq<bool>, bits: nat)
    requires bits % 8 == 0 && bits <= |packed| && bits <= 8 * |s|
    requires forall p :: 0 <= p < 8 * |s| ==> BitAt(s, p) == (p < |packed| && packed[p])
    ensures FromBits(packed[..bits]) == s[..bits / 8]
  {
    var m := bits / 8;
    ToBitsPrefix(s, m);
    assert ToBits(s[..m]) == packed[..bits];
    FromToBits(s[..m]);
  }

  /** The checksum loop compares exactly the packed bits after the entropy with the digest's leading bits. */
  lemma RecoveredChecksum(s: seq<byte>, packed: seq<bool>, bits: nat, cbits: nat, chk: seq<byte>)
    requires bits % 8 == 0 && |packed| == bits + cbits && bits + cbits <= 8 * |s|
    requires cbits <= 8 * |chk|
    requires forall p :: 0 <= p < 8 * |s| ==> BitAt(s, p) == (p < |packed| && packed[p])
    ensures (forall k :: 0 <= k < cbits ==> BitAt(s[bits / 8..], k) == BitAt(chk, k))
            <==> packed[bits .. bits + cbits] == ToBits(chk)[..cbits]
  {
    var m := bits / 8;
    assert 8 * m == bits;
    forall k | 0 <= k < cbits
      ensures BitAt(s[m..], k) == packed[bits + k]
    {
      BitAtSuffix(s, m, k);
    }
    if forall k :: 0 <= k < cbits ==> BitAt(s[m..], k) == BitAt(chk, k) {
      assert packed[bits .. bits + cbits] == ToBits(chk)[..cbits];
    }
    if packed[bits .. bits + cbits] == ToBits(chk)[..cbits] {
      forall k | 0 <= k < cbits
        ensures BitAt(s[m..], k) == BitAt(chk, k)
      {
        assert packed[bits .. bits + cbits][k] == ToBits(chk)[..cbits][k];
      }
    }
  }

  /** The zeroed buffer of `fromPhrase` holds the entropy bytes followed by `ceil(cbits / 8)` checksum bytes. */
  lemma BufferSplit(bits: nat, cbits: nat)
    requires bits % 8 == 0
    ensures (bits + cbits + 7) / 8 - (cbits + 7) / 8 == bits / 8
    ensures bits + cbits <= 8 * ((bits + cbits + 7) / 8)
  {
    assert bits == 8 * (bits / 8);
  }

  /**
   * The buffer half of `fromPhrase`, once the length and the wordlist are
   * known: zero a buffer, OR in every word's index, split off the entropy
   * and compare the checksum bits. The result is `RecoverEntropy`'s, or
   * `UnknownWord` when a word is missing from the list.
   */
  method RecoverBuffer(env: Env, wordlist: seq<string>, words: seq<string>, bits: nat, cbits: nat)
    returns (r: Result<seq<byte>>)
    requires env.Valid() && |wordlist| <= 2048
    requires bits % 8 == 0 && cbits < 32 && bits + cbits == 11 * |words|
    ensures (exists i :: 0 <= i < |words| && words[i] !in wordlist) ==> r == Err(UnknownWord)
    ensures (forall i :: 0 <= i < |words| ==> words[i] in wordlist) ==>
              r == RecoverEntropy(env, wordlist, words, bits, cbits)
  {
    var cbytes := (cbits + 7) / 8;
    var ent := new byte[(bits + cbits + 7) / 8](_ => 0);
    BufferSplit(bits, cbits);
    var missing := PackWords(ent, wordlist, words);
    if missing {
      return Err(UnknownWord);
    }
    var len := ent.Length - cbytes;
    var entropy := ent[..len];
    var tail := ent[len..];
    var chk := env.sha256(entropy);
    RecoveredBits(ent[..], PackIndices(WordIndices(wordlist, words)), bits, cbits, chk);
    var ok := ChecksumMatches(tail, chk, cbits);
    if !ok {
      return Err(ChecksumMismatch);
    }
    return Ok(entropy);
  }

  class Mnemonic {
    /** SHA-256, UTF-8, key stretching and the wordlists the object works with. */
    const env: Env

    var bits: nat
    var language: Option<string>
    var entropy: array?<byte>
    var phrase: string
    var passphrase: string

    /** `new Mnemonic()`: 128 bits, English, no entropy, no phrase, empty passphrase. */
    constructor(env: Env)
      requires env.Valid()
      ensures this.env == env
      ensures bits == MinEntropy && language == Some(English) && entropy == null
      ensures phrase == "" && passphrase == ""
    {
      this.env := env;
      bits := MinEntropy;
      language := Some(English);
      entropy := null;
      phrase := "";
      passphrase := "";
    }

    /**
     * `destroy`: zero the entropy buffer in place, then drop it and reset
     * every field to its default.
     */
    method Destroy()
      modifies this, entropy
      ensures bits == MinEntropy && language == Some(English) && entropy == null
      ensures phrase == "" && passphrase == ""
      ensures old(entropy) != null ==> forall k :: 0 <= k < old(entropy).Length ==> old(entropy)[k] == 0
    {
      bits := MinEntropy;
      language := Some(English);
      if entropy != null {
        var e := entropy;
        var i := 0;
        while i < e.Length
          invariant 0 <= i <= e.Length
          invariant forall k :: 0 <= k < i ==> e[k] == 0
          modifies e
        {
          e[i] := 0;
          i := i + 1;
        }
        entropy := null;
      }
      phrase := "";
      passphrase := "";
    }

    /**
     * `getEntropy`: keep the stored entropy, or store `random` (the result of
     * `randomBytes(bits / 8)`) when there is none; then insist that it holds
     * `bits / 8` bytes.
     */
    method GetEntropy(random: seq<byte>) returns (r: Result<array<byte>>)
      requires entropy == null ==> |random| == bits / 8
      modifies this
      ensures bits == old(bits) && language == old(language)
      ensures phrase == old(phrase) && passphrase == old(passphrase)
      ensures entropy != null
      ensures old(entropy) != null ==> entropy == old(entropy)
      ensures old(entropy) == null ==> fresh(entropy) && entropy[..] == random
      ensures r.Ok? <==> 8 * entropy.Length == bits
      ensures r.Ok? ==> r.value == entropy
      ensures r.Err? ==> r.error == EntropySizeMismatch
    {
      if entropy == null {
        entropy := new byte[|random|](k requires 0 <= k < |random| => random[k]);
      }
      if 8 * entropy.Length != bits {
        return Err(EntropySizeMismatch);
      }
      return Ok(entropy);
    }

    /**
     * `getPhrase`: return the cached phrase if there is one; otherwise look
     * up the wordlist, fetch the entropy, read 11-bit indices from the
     * entropy followed by its SHA-256 digest, join the words and cache the
     * result. The phrase built is `EncodePhrase` of the entropy.
     */
    method GetPhrase(random: seq<byte>) returns (r: Result<string>)
      requires env.Valid()
      requires entropy == null ==> |random| == bits / 8
      requires phrase == "" ==> ValidBits(bits)
      modifies this
      ensures bits == old(bits) && language == old(language) && passphrase == old(passphrase)
      ensures old(phrase) != "" ==> r == Ok(old(phrase)) && unchanged(this)
      ensures old(phrase) == "" && (old(language).None? || old(language).value !in Languages) ==>
                r == Err(UnsupportedLanguage) && unchanged(this)
      ensures old(phrase) == "" && old(language).Some? && old(language).value in Languages ==>
                && entropy != null
                && (old(entropy) != null ==> entropy == old(entropy))
                && (old(entropy) == null ==> fresh(entropy) && entropy[..] == random)
                && if 8 * entropy.Length == bits
                   then r == Ok(EncodePhrase(env, language.value, entropy[..])) && phrase == r.value
                   else r == Err(EntropySizeMismatch) && phrase == ""
    {
      if phrase != "" {
        return Ok(phrase);
      }
      if language.None? {
        return Err(UnsupportedLanguage);
      }
      var list := GetWordlist(env, language.value);
      if list.Err? {
        return Err(list.error);
      }
      var wordlist := list.value;
      var got := GetEntropy(random);
      if got.Err? {
        return Err(got.error);
      }
      var words := ReadWords(wordlist, got.value[..], env.sha256(got.value[..]));
      phrase := Join(words, Separator(language.value));
      return Ok(phrase);
    }

    /**
     * `fromPhrase`: split the phrase, check its length, infer the language
     * from the first word, OR every word's index into a zeroed buffer,
     * split off the entropy and compare the checksum bit by bit. The fields
     * change only when every check passes, and then hold what `Decode`
     * recovers; otherwise the error is `Decode`'s.
     */
    method FromPhrase(text: string) returns (r: Outcome)
      requires env.Valid()
      modifies this
      ensures var d := Decode(env, text);
        if d.Ok? then
          && r == Done && bits == d.value.bits && language == Some(d.value.language)
          && entropy != null && fresh(entropy) && entropy[..] == d.value.entropy
          && phrase == text && passphrase == old(passphrase)
        else r == Fail(d.error) && unchanged(this)
    {
      var words := Split(text);
      var length := LengthCheck(|words|);
      if length.Err? {
        DecodeEarlyFailure(env, text);
        return Fail(length.error);
      }
      var (entBits, cbits) := length.value;
      var lang := GetLanguage(env, words[0]);
      if lang.Err? {
        DecodeEarlyFailure(env, text);
        return Fail(lang.error);
      }
      var wordlist := GetWordlist(env, lang.value).value;
      WordlistOf(env, lang.value);
      ValidBitsBytes(entBits);
      var got := RecoverBuffer(env, wordlist, words, entBits, cbits);
      DecodeAfterLanguage(env, text, lang.value, entBits, cbits);
      if got.Err? {
        return Fail(got.error);
      }
      var entropySeq := got.value;
      var len := |entropySeq|;
      bits := entBits;
      language := Some(lang.value);
      entropy := new byte[len](k requires 0 <= k < len => entropySeq[k]);
      phrase := text;
      return Done;
    }

    /**
     * `fromEntropy`: adopt the caller's buffer (no copy) and its bit length,
     * and the language when one is given. A cached phrase is kept as it is.
     */
    method FromEntropy(e: array<byte>, lang: string) returns (r: Outcome)
      modifies this
      ensures r == Done <==> ValidBits(8 * e.Length) && (lang == "" || lang in Languages)
      ensures r == Done ==> && entropy == e && bits == 8 * e.Length
                            && language == (if lang == "" then old(language) else Some(lang))
                            && phrase == old(phrase) && passphrase == old(passphrase)
      ensures r.Fail? ==> unchanged(this)
      ensures r.Fail? ==> r.error == if ValidBits(8 * e.Length) then UnsupportedLanguage else InvalidEntropyLength
    {
      if !ValidBits(8 * e.Length) {
        return Fail(InvalidEntropyLength);
      }
      if lang != "" && IndexOf(Languages, lang) == -1 {
        return Fail(UnsupportedLanguage);
      }
      entropy := e;
      bits := 8 * e.Length;
      if lang != "" {
        language := Some(lang);
      }
      return Done;
    }

    /**
     * `fromOptions`: check and store the bit length, the language and the
     * passphrase one after another, then load the phrase if one is given,
     * else the entropy. A failing step leaves the earlier steps' fields set.
     */
    method FromOptions(options: Options) returns (r: Outcome)
      requires env.Valid()
      modifies this
      ensures options.bits.Some? && !ValidBits(options.bits.value) ==>
                r == Fail(InvalidEntropyLength) && unchanged(this)
      ensures var bits1 := if options.bits.Some? then options.bits.value else old(bits);
              var language1 := if options.language != "" then Some(options.language) else old(language);
              var passphrase1 := if options.passphrase != "" then options.passphrase else old(passphrase);
              (options.bits.None? || ValidBits(options.bits.value)) ==>
              if options.language != "" && options.language !in Languages then
                && r == Fail(UnsupportedLanguage) && bits == bits1 && language == old(language)
                && entropy == old(entropy) && phrase == old(phrase) && passphrase == old(passphrase)
              else if options.phrase != "" then
                var d := Decode(env, options.phrase);
                && passphrase == passphrase1
                && if d.Ok? then
                     && r == Done && bits == d.value.bits && language == Some(d.value.language)
                     && entropy != null && fresh(entropy) && entropy[..] == d.value.entropy
                     && phrase == options.phrase
                   else
                     && r == Fail(d.error) && bits == bits1 && language == language1
                     && entropy == old(entropy) && phrase == old(phrase)
              else if options.entropy != null then
                var e := options.entropy;
                && language == language1 && phrase == old(phrase) && passphrase == passphrase1
                && if ValidBits(8 * e.Length) then r == Done && entropy == e && bits == 8 * e.Length
                   else r == Fail(InvalidEntropyLength) && entropy == old(entropy) && bits == bits1
              else
                && r == Done && bits == bits1 && language == language1 && entropy == old(entropy)
                && phrase == old(phrase) && passphrase == passphrase1
    {
      if options.bits.Some? {
        if !ValidBits(options.bits.value) {
          return Fail(InvalidEntropyLength);
        }
        bits := options.bits.value;
      }
      if options.language != "" {
        if IndexOf(Languages, options.language) == -1 {
          return Fail(UnsupportedLanguage);
        }
        language := Some(options.language);
      }
      if options.passphrase != "" {
        passphrase := options.passphrase;
      }
      if options.phrase != "" {
        r := FromPhrase(options.phrase);
        return;
      }
      if options.entropy != null {
        r := FromEntropy(options.entropy, "");
        return;
      }
      return Done;
    }

    /**
     * `fromOptions` given a bare string: the string is taken as the phrase, so
     * a non-empty one loads exactly as `fromPhrase` loads it, and the empty
     * string changes nothing.
     */
    method FromOptionsText(text: string) returns (r: Outcome)
      requires env.Valid()
      modifies this
      ensures passphrase == old(passphrase)
      ensures var same := && bits == old(bits) && language == old(language)
                          && entropy == old(entropy) && phrase == old(phrase);
        if text == "" then r == Done && same
        else var d := Decode(env, text);
          if d.Ok? then
            && r == Done && bits == d.value.bits && language == Some(d.value.language)
            && entropy != null && fresh(entropy) && entropy[..] == d.value.entropy && phrase == text
          else r == Fail(d.error) && same
    {
      r := FromOptions(PhraseOptions(text));
    }

    /**
     * `toSeed`: store the passphrase given (or keep the stored one when none
     * is), then stretch the phrase with "mnemonic" and the passphrase as salt.
     */
    method ToSeed(pass: string, random: seq<byte>) returns (r: Result<seq<byte>>)
      requires env.Valid()
      requires entropy == null ==> |random| == bits / 8
      requires phrase == "" ==> ValidBits(bits)
      modifies this
      ensures passphrase == (if pass == "" then old(passphrase) else pass)
      ensures bits == old(bits) && language == old(language)
      ensures old(phrase) != "" ==> && r == Ok(env.deriveSeed(old(phrase), "mnemonic" + passphrase))
                                    && phrase == old(phrase) && entropy == old(entropy)
      ensures old(phrase) == "" && (old(language).None? || old(language).value !in Languages) ==>
                r == Err(UnsupportedLanguage) && phrase == "" && entropy == old(entropy)
      ensures old(phrase) == "" && old(language).Some? && old(language).value in Languages ==>
                && entropy != null
                && (old(entropy) != null ==> entropy == old(entropy))
                && (old(entropy) == null ==> fresh(entropy) && entropy[..] == random)
                && if 8 * entropy.Length == bits
                   then && phrase == EncodePhrase(env, language.value, entropy[..])
                        && r == Ok(env.deriveSeed(phrase, "mnemonic" + passphrase))
                   else r == Err(EntropySizeMismatch) && phrase == ""
      ensures r.Ok? ==> |r.value| == 64
    {
      if pass != "" {
        passphrase := pass;
      }
      var got := GetPhrase(random);
      if got.Err? {
        return Err(got.error);
      }
      return Ok(env.deriveSeed(got.value, "mnemonic" + passphrase));
    }

    /** `toJSON`: the fields, with the entropy fetched as hex and the phrase fetched or generated. */
    method ToJSON(random: seq<byte>) returns (r: Result<Object>)
      requires env.Valid()
      requires entropy == null ==> |random| == bits / 8
      requires phrase == "" ==> ValidBits(bits)
      modifies this
      ensures bits == old(bits) && language == old(language) && passphrase == old(passphrase)
      ensures entropy != null
      ensures old(entropy) != null ==> entropy == old(entropy)
      ensures old(entropy) == null ==> fresh(entropy) && entropy[..] == random
      ensures r.Ok? <==> && 8 * entropy.Length == bits
                         && (old(phrase) != "" || (old(language).Some? && old(language).value in Languages))
      ensures r.Err? ==> r.error == if 8 * entropy.Length != bits then EntropySizeMismatch else UnsupportedLanguage
      ensures phrase == (if old(phrase) != "" || r.Err? then old(phrase) else EncodePhrase(env, language.value, entropy[..]))
      ensures r.Ok? ==> r.value == ToObject(bits, language, entropy[..], phrase, passphrase)
    {
      var ent := GetEntropy(random);
      if ent.Err? {
        return Err(ent.error);
      }
      var text := GetPhrase(random);
      if text.Err? {
        return Err(text.error);
      }
      return Ok(ToObject(bits, language, ent.value[..], text.value, passphrase));
    }

    /** `fromJSON`: all checks first, then every field from the object, the entropy decoded from hex. */
    method FromJSON(json: Object) returns (r: Outcome)
      modifies this
      ensures var f := FromObject(json);
        if f.Ok? then
          && r == Done && bits == f.value.bits && language == Some(f.value.language)
          && entropy != null && fresh(entropy) && entropy[..] == f.value.entropy
          && phrase == f.value.phrase && passphrase == f.value.passphrase
        else r == Fail(f.error) && unchanged(this)
    {
      var f := FromObject(json);
      if f.Err? {
        return Fail(f.error);
      }
      var fields := f.value;
      bits := fields.bits;
      language := Some(fields.language);
      entropy := new byte[|fields.entropy|](k requires 0 <= k < |fields.entropy| => fields.entropy[k]);
      phrase := fields.phrase;
      passphrase := fields.passphrase;
      return Done;
    }

    /** `toRaw`: the language must be a supported one; then the fields in `Serialize`'s layout. */
    method ToRaw(random: seq<byte>) returns (r: Result<seq<byte>>)
      requires env.Valid()
      requires entropy == null ==> |random| == bits / 8
      requires phrase == "" ==> ValidBits(bits)
      modifies this
      ensures bits == old(bits) && language == old(language) && passphrase == old(passphrase)
      ensures (old(language).None? || old(language).value !in Languages) ==>
                r == Err(UnsupportedLanguage) && unchanged(this)
      ensures old(language).Some? && old(language).value in Languages ==>
                && entropy != null
                && (old(entropy) != null ==> entropy == old(entropy))
                && (old(entropy) == null ==> fresh(entropy) && entropy[..] == random)
                && (r.Ok? <==> 8 * entropy.Length == bits)
                && (r.Err? ==> r.error == EntropySizeMismatch)
      ensures phrase == (if old(phrase) != "" || r.Err? then old(phrase) else EncodePhrase(env, language.value, entropy[..]))
      ensures r.Ok? ==> && language.Some? && language.value in Languages && entropy != null
                        && r.value == Serialize(env, bits, IndexOf(Languages, language.value), entropy[..],
                                                phrase, passphrase)
    {
      var index := if language.Some? then IndexOf(Languages, language.value) else -1;
      if index == -1 {
        return Err(UnsupportedLanguage);
      }
      var ent := GetEntropy(random);
      if ent.Err? {
        return Err(ent.error);
      }
      var text := GetPhrase(random);
      assert text.Ok?;
      return Ok(Serialize(env, bits, index, ent.value[..], text.value, passphrase));
    }

    /**
     * `fromRaw`: assign each field as soon as it is read, then check the
     * language and the bit length. A read past the end or a failed check
     * leaves the fields read so far assigned.
     */
    method FromRaw(data: seq<byte>) returns (r: Outcome)
      modifies this
      ensures var p := ParseRaw(env, data);
        && r == CheckRaw(p)
        && bits == (if p.read >= 1 then p.fields.bits else old(bits))
        && language == (if p.read >= 2 then p.fields.language else old(language))
        && (if p.read >= 3 then entropy != null && fresh(entropy) && entropy[..] == p.fields.entropy
            else entropy == old(entropy))
        && phrase == (if p.read >= 4 then p.fields.phrase else old(phrase))
        && passphrase == (if p.read >= 5 then p.fields.passphrase else old(passphrase))
    {
      var b := ReadLE(data, 0, 2);
      if b.None? {
        return Fail(MalformedSerialization);
      }
      bits := b.value.value;
      var l := ReadLE(data, b.value.next, 1);
      if l.None? {
        return Fail(MalformedSerialization);
      }
      language := LanguageAt(l.value.value);
      var e := ReadBytes(data, l.value.next, bits / 8);
      if e.None? {
        return Fail(MalformedSerialization);
      }
      var bytes := e.value.value;
      entropy := new byte[|bytes|](k requires 0 <= k < |bytes| => bytes[k]);
      var ph := ReadVarString(env, data, e.value.next);
      if ph.None? {
        return Fail(MalformedSerialization);
      }
      phrase := ph.value.value;
      var pp := ReadVarString(env, data, ph.value.next);
      if pp.None? {
        return Fail(MalformedSerialization);
      }
      passphrase := pp.value.value;
      if language.None? {
        return Fail(UnsupportedLanguage);
      }
      if !ValidBits(bits) {
        return Fail(InvalidEntropyLength);
      }
      return Done;
    }
  }
}
