/**
 * The phrase codec as functions: what `getPhrase` computes from the entropy
 * (section "Generating the mnemonic" of BIP 39) and what `fromPhrase`
 * recovers from a phrase, with the round trip between them. The class in
 * mnemonic.dfy is proved against these definitions.
 */
module PhraseCodec {
  import opened Bits
  import opened Results
  import opened Registry
  import opened Text

  /** `constants.hd.MIN_ENTROPY` and `constants.hd.MAX_ENTROPY`. */
  const MinEntropy := 128
  const MaxEntropy := 256

  /** A bit length the mnemonic accepts. */
  predicate ValidBits(bits: int)
  {
    MinEntropy <= bits <= MaxEntropy && bits % 32 == 0
  }

  /** The valid bit lengths are exactly the five of BIP 39: 128, 160, 192, 224 and 256. */
  lemma ValidBitsValues(bits: int)
    ensures ValidBits(bits) <==> bits in {128, 160, 192, 224, 256}
  {
    if ValidBits(bits) {
      var k := bits / 32;
      assert bits == 32 * k && 4 <= k <= 8;
    }
  }

  /** A valid bit length is a whole number of bytes. */
  lemma ValidBitsBytes(bits: int)
    requires ValidBits(bits)
    ensures bits % 8 == 0 && bits / 8 * 8 == bits
  {
    assert bits == 32 * (bits / 32);
  }

  /**
   * The bit string the words are read from: the entropy, then the first
   * `bits / 32` bits of its SHA-256 digest.
   */
  function PhraseBits(ent: seq<byte>, digest: seq<byte>): (r: seq<bool>)
    requires |digest| == 32 && ValidBits(8 * |ent|)
    ensures |r| == 8 * |ent| + 8 * |ent| / 32
    ensures |r| % 11 == 0
  {
    ToBits(ent) + ToBits(digest)[..8 * |ent| / 32]
  }

  /** Eleven bits, MSB first, as a wordlist index. */
  function Index11(c: seq<bool>): (r: nat)
    requires |c| == 11
    ensures r < 2048 && BitsOf(r, 11) == c
  {
    ValBound(c);
    assert Pow2(11) == 2048;
    BitsOfVal(c);
    Val(c)
  }

  /** The 11-bit indices at bit offsets 0, 11, 22, ... */
  function Indices(c: seq<bool>): (r: seq<nat>)
    requires |c| % 11 == 0
    ensures |r| == |c| / 11
  {
    seq(|c| / 11, i requires 0 <= i < |c| / 11 => Index11(c[11 * i .. 11 * i + 11]))
  }

  /** The reverse direction: each index written as 11 bits, MSB first, one after another. */
  function PackIndices(idx: seq<nat>): (r: seq<bool>)
    ensures |r| == 11 * |idx|
  {
    seq(11 * |idx|, p requires 0 <= p < 11 * |idx| => BitsOf(idx[p / 11], 11)[p % 11])
  }

  /** Writing the indices read from a bit string gives the bit string back. */
  lemma PackIndicesOfIndices(c: seq<bool>)
    requires |c| % 11 == 0
    ensures PackIndices(Indices(c)) == c
  {
    var idx := Indices(c);
    forall p | 0 <= p < |c|
      ensures PackIndices(idx)[p] == c[p]
    {
      var i := p / 11;
      assert idx[i] == Index11(c[11 * i .. 11 * i + 11]);
    }
  }

  /**
   * The words of the phrase for `ent`: word `i` is the wordlist entry at
   * the 11-bit index read at bit offset `11 * i` of `PhraseBits`.
   */
  function EncodeWords(wordlist: seq<string>, ent: seq<byte>, digest: seq<byte>): (r: seq<string>)
    requires |wordlist| == 2048 && |digest| == 32 && ValidBits(8 * |ent|)
    ensures |r| == 3 * (8 * |ent|) / 32
  {
    var idx := Indices(PhraseBits(ent, digest));
    seq(|idx|, i requires 0 <= i < |idx| => wordlist[idx[i]])
  }

  /** The phrase `getPhrase` builds for `ent` in `language`. */
  function EncodePhrase(env: Env, language: string, ent: seq<byte>): (r: string)
    requires env.Valid() && language in Languages && ValidBits(8 * |ent|)
    ensures Split(r) == EncodeWords(GetWordlist(env, language).value, ent, env.sha256(ent))
  {
    var wordlist := GetWordlist(env, language).value;
    var words := EncodeWords(wordlist, ent, env.sha256(ent));
    WordlistOf(env, language);
    EncodedWords(wordlist, ent, env.sha256(ent));
    SplitJoin(words, Separator(language));
    Join(words, Separator(language))
  }

  /** Every word of an encoded phrase is in the wordlist, at the index read from the bits. */
  lemma EncodeWordsSpec(wordlist: seq<string>, ent: seq<byte>, digest: seq<byte>, i: nat)
    requires |wordlist| == 2048 && |digest| == 32 && ValidBits(8 * |ent|)
    requires i < 3 * (8 * |ent|) / 32
    ensures 11 * i + 11 <= |PhraseBits(ent, digest)|
    ensures var v := Val(PhraseBits(ent, digest)[11 * i .. 11 * i + 11]);
            v < 2048 && EncodeWords(wordlist, ent, digest)[i] == wordlist[v]
  {
    var pb := PhraseBits(ent, digest);
    assert EncodeWords(wordlist, ent, digest)[i] == wordlist[Indices(pb)[i]];
  }

  /** The bits after the entropy are the leading bits of the digest. */
  lemma PhraseBitsChecksum(ent: seq<byte>, digest: seq<byte>, p: nat)
    requires |digest| == 32 && ValidBits(8 * |ent|) && p < 8 * |ent| / 32
    ensures PhraseBits(ent, digest)[8 * |ent| + p] == BitAt(digest, p)
  {
  }

  /** What `fromPhrase` recovers. */
  datatype Recovered = Recovered(bits: nat, language: string, entropy: seq<byte>)

  /**
   * The length rule of `fromPhrase` for `count` words: `count * 11` bits,
   * of which `count * 11 mod 32` are checksum and the rest entropy. With
   * entropy bounds 128..256 it admits exactly 12 to 26 words, and the
   * zero-checksum case cannot arise within them.
   */
  function LengthCheck(count: nat): (r: Result<(nat, nat)>)
    ensures r.Ok? <==> 12 <= count <= 26
    ensures r.Ok? ==> ValidBits(r.value.0) && r.value.0 % 8 == 0 && 0 < r.value.1 < 32
                      && r.value.0 + r.value.1 == 11 * count
    ensures r.Err? ==> r.error == InvalidEntropyLength
  {
    var total := 11 * count;
    var cbits := total % 32;
    var bits := total - cbits;
    var failure :=
      if bits < MinEntropy || bits > MaxEntropy || bits % 32 != 0 then Some(InvalidEntropyLength)
      else if cbits == 0 then Some(AmbiguousChecksum)
      else None;
    if failure.Some? then Err(failure.value) else Ok((bits, cbits))
  }

  /** The word count of a phrase for a valid bit length passes the length rule with that bit length. */
  lemma EncodedLength(bits: nat)
    requires ValidBits(bits)
    ensures LengthCheck(3 * bits / 32) == Ok((bits, bits / 32))
  {
    var q := bits / 32;
    assert bits == 32 * q && 4 <= q <= 8;
    assert 3 * bits / 32 == 3 * q;
    assert 11 * (3 * q) == 32 * q + q;
    assert (32 * q + q) % 32 == q;
  }

  /** The indices of words all present in `wordlist`. */
  function WordIndices(wordlist: seq<string>, words: seq<string>): (r: seq<nat>)
    requires forall i :: 0 <= i < |words| ==> words[i] in wordlist
    ensures |r| == |words|
    ensures forall i :: 0 <= i < |words| ==> r[i] < |wordlist| && wordlist[r[i]] == words[i]
  {
    seq(|words|, i requires 0 <= i < |words| => IndexOf(wordlist, words[i]) as nat)
  }

  /**
   * The second half of `fromPhrase`, once the length and the language are
   * known: write the words' indices as bits, split off the entropy and
   * compare the checksum bit by bit.
   */
  function RecoverEntropy(env: Env, wordlist: seq<string>, words: seq<string>, bits: nat, cbits: nat)
    : (r: Result<seq<byte>>)
    requires env.Valid()
    requires forall i :: 0 <= i < |words| ==> words[i] in wordlist
    requires bits % 8 == 0 && cbits < 32 && bits + cbits == 11 * |words|
    ensures r.Ok? ==> 8 * |r.value| == bits
    ensures r.Err? ==> r.error == ChecksumMismatch
  {
    var packed := PackIndices(WordIndices(wordlist, words));
    var entropy := FromBits(packed[..bits]);
    if packed[bits .. bits + cbits] != ToBits(env.sha256(entropy))[..cbits] then Err(ChecksumMismatch)
    else Ok(entropy)
  }

  /**
   * `fromPhrase` as a function: split, check the length, infer the language
   * from the first word, look every word up, rebuild the bits and compare the
   * checksum. The checks run in the source's order, so the error is the
   * source's.
   */
  function Decode(env: Env, phrase: string): (r: Result<Recovered>)
    requires env.Valid()
    ensures r.Ok? ==> ValidBits(r.value.bits) && 8 * |r.value.entropy| == r.value.bits
                      && r.value.language in Languages
    ensures r.Ok? ==> 12 <= |Split(phrase)| <= 26
  {
    var words := Split(phrase);
    var length := LengthCheck(|words|);
    if length.Err? then Err(length.error)
    else
      var language := GetLanguage(env, words[0]);
      if language.Err? then Err(language.error)
      else
        var wordlist := GetWordlist(env, language.value).value;
        if exists i :: 0 <= i < |words| && words[i] !in wordlist then Err(UnknownWord)
        else
          var entropy := RecoverEntropy(env, wordlist, words, length.value.0, length.value.1);
          if entropy.Err? then Err(entropy.error)
          else Ok(Recovered(length.value.0, language.value, entropy.value))
  }

  lemma LanguagePosition(li: nat)
    requires li < 6
    ensures IndexOf(Languages, Languages[li]) == li
  {
    assert Languages[li] !in Languages[..li];
  }

  /** In a wordlist of distinct words, a word's position is the index it was taken from. */
  lemma IndexOfWord(wordlist: seq<string>, v: nat)
    requires IsWordlist(wordlist) && v < |wordlist|
    ensures IndexOf(wordlist, wordlist[v]) == v
  {
    var r := IndexOf(wordlist, wordlist[v]);
    assert forall k :: 0 <= k < r ==> wordlist[..r][k] == wordlist[k];
  }

  /** The words of an encoded phrase are separator-free words of the list, at the indices read. */
  lemma EncodedWords(wordlist: seq<string>, ent: seq<byte>, digest: seq<byte>)
    requires IsWordlist(wordlist) && |digest| == 32 && ValidBits(8 * |ent|)
    ensures var words := EncodeWords(wordlist, ent, digest);
      && (forall i :: 0 <= i < |words| ==> IsWord(words[i]) && words[i] in wordlist)
      && WordIndices(wordlist, words) == Indices(PhraseBits(ent, digest))
  {
    var words := EncodeWords(wordlist, ent, digest);
    var idx := Indices(PhraseBits(ent, digest));
    forall i | 0 <= i < |words|
      ensures IsWord(words[i]) && words[i] in wordlist
    {
      assert words[i] == wordlist[idx[i]];
    }
    var found := WordIndices(wordlist, words);
    forall i | 0 <= i < |words|
      ensures found[i] == idx[i]
    {
      assert words[i] == wordlist[idx[i]];
      IndexOfWord(wordlist, idx[i]);
    }
  }

  /** The bits rebuilt from an encoded phrase give back the entropy, and its checksum matches. */
  lemma RecoverEncoded(env: Env, wordlist: seq<string>, ent: seq<byte>)
    requires env.Valid() && IsWordlist(wordlist) && ValidBits(8 * |ent|)
    ensures var words := EncodeWords(wordlist, ent, env.sha256(ent));
      && (forall i :: 0 <= i < |words| ==> words[i] in wordlist)
      && RecoverEntropy(env, wordlist, words, 8 * |ent|, 8 * |ent| / 32) == Ok(ent)
  {
    var digest := env.sha256(ent);
    var bits := 8 * |ent|;
    var cbits := bits / 32;
    var pb := PhraseBits(ent, digest);
    var words := EncodeWords(wordlist, ent, digest);
    EncodedWords(wordlist, ent, digest);
    PackIndicesOfIndices(pb);
    var packed := PackIndices(WordIndices(wordlist, words));
    assert packed == pb;
    assert packed[..bits] == ToBits(ent);
    FromToBits(ent);
    assert packed[bits .. bits + cbits] == ToBits(digest)[..cbits];
  }

  /**
   * Round trip: decoding the phrase encoded for `ent` in the language at
   * position `li` recovers `ent`, its bit length and that language, provided
   * no language earlier in the order also lists the first word.
   */
  lemma PhraseRoundTrip(env: Env, li: nat, ent: seq<byte>)
    requires env.Valid() && li < 6 && ValidBits(8 * |ent|)
    requires forall j :: 0 <= j < li ==>
               EncodeWords(env.wordlists[li], ent, env.sha256(ent))[0] !in env.wordlists[j]
    ensures Decode(env, EncodePhrase(env, Languages[li], ent))
            == Ok(Recovered(8 * |ent|, Languages[li], ent))
  {
    var language := Languages[li];
    var wordlist := env.wordlists[li];
    assert IsWordlist(wordlist);
    LanguagePosition(li);
    assert GetWordlist(env, language).value == wordlist;
    var bits := 8 * |ent|;
    var words := EncodeWords(wordlist, ent, env.sha256(ent));
    EncodedWords(wordlist, ent, env.sha256(ent));
    var phrase := EncodePhrase(env, language, ent);
    SplitJoin(words, Separator(language));
    assert Split(phrase) == words;
    EncodedLength(bits);
    GetLanguageOf(env, words[0], li);
    RecoverEncoded(env, wordlist, ent);
    DecodeAfterLanguage(env, phrase, language, bits, bits / 32);
  }

  /** Once the length and the language are known, the decoder looks the words up and checks the checksum. */
  lemma DecodeAfterLanguage(env: Env, phrase: string, language: string, bits: nat, cbits: nat)
    requires env.Valid()
    requires LengthCheck(|Split(phrase)|).Ok? && LengthCheck(|Split(phrase)|).value == (bits, cbits)
    requires GetLanguage(env, Split(phrase)[0]) == Ok(language)
    ensures var words := Split(phrase);
      var wordlist := GetWordlist(env, language).value;
      && ((exists i :: 0 <= i < |words| && words[i] !in wordlist) ==> Decode(env, phrase) == Err(UnknownWord))
      && ((forall i :: 0 <= i < |words| ==> words[i] in wordlist) ==>
            var entropy := RecoverEntropy(env, wordlist, words, bits, cbits);
            Decode(env, phrase) == if entropy.Err? then Err(entropy.error) else Ok(Recovered(bits, language, entropy.value)))
  {
  }

  /** The decoder stops at the length check, then at the language check, with their errors. */
  lemma DecodeEarlyFailure(env: Env, phrase: string)
    requires env.Valid()
    ensures LengthCheck(|Split(phrase)|).Err? ==> Decode(env, phrase) == Err(InvalidEntropyLength)
    ensures LengthCheck(|Split(phrase)|).Ok? && GetLanguage(env, Split(phrase)[0]).Err? ==>
              Decode(env, phrase) == Err(UnknownLanguage)
  {
  }

  /** The decoder accepts only phrases whose word count lies in 12..26. */
  lemma DecodeWordCount(env: Env, phrase: string)
    requires env.Valid()
    requires |Split(phrase)| < 12 || |Split(phrase)| > 26
    ensures Decode(env, phrase) == Err(InvalidEntropyLength)
  {
  }
}
