/**
 * The language registry: the fixed language order, the per-language
 * wordlists, and the primitives the mnemonic code calls but does not define
 * (SHA-256, UTF-8, PBKDF2 over NFKD-normalised strings). These are gathered
 * in an `Env` value whose `Valid()` states the only facts the model relies on.
 */
module Registry {
  import opened Bits
  import opened Results

  /** `Mnemonic.languages`, in the order the binary form indexes them. */
  const Languages: seq<string> :=
    ["simplified chinese", "traditional chinese", "english", "french", "italian", "japanese"]

  const English := "english"
  const Japanese := "japanese"

  /** Words a wordlist may hold: the phrase splitter must give them back whole. */
  predicate IsSeparator(c: char)
  {
    c == ' ' || c == '\U{3000}'
  }

  predicate IsWord(w: string)
  {
    w != [] && forall i :: 0 <= i < |w| ==> !IsSeparator(w[i])
  }

  /** 2048 distinct words. */
  predicate IsWordlist(w: seq<string>)
  {
    && |w| == 2048
    && (forall i, j :: 0 <= i < j < |w| ==> w[i] != w[j])
    && (forall i :: 0 <= i < |w| ==> IsWord(w[i]))
  }

  datatype Env = Env(
    wordlists: seq<seq<string>>,              // `./words/*.js`, in `Languages` order
    sha256: seq<byte> -> seq<byte>,           // `crypto.sha256`
    utf8Encode: string -> seq<byte>,          // `Buffer.from(s, 'utf8')`
    utf8Decode: seq<byte> -> string,          // `buf.toString('utf8')`
    deriveSeed: (string, string) -> seq<byte> // `crypto.pbkdf2(nfkd(p), nfkd(s), 2048, 64, 'sha512')`
  )
  {
    ghost predicate Valid()
    {
      && |wordlists| == 6
      && (forall i :: 0 <= i < 6 ==> IsWordlist(wordlists[i]))
      && (forall e :: |sha256(e)| == 32)
      && (forall s :: utf8Decode(utf8Encode(s)) == s)
      && (forall p, s :: |deriveSeed(p, s)| == 64)
    }
  }

  /**
   * Position of `x` in `s`, or -1. Stands for both `Array.prototype.indexOf`
   * and `utils.binarySearch` over a sorted wordlist, whose result is the same.
   */
  function IndexOf<T(==)>(s: seq<T>, x: T): (r: int)
    ensures -1 <= r < |s|
    ensures r == -1 <==> x !in s
    ensures r >= 0 ==> s[r] == x && x !in s[..r]
  {
    if s == [] then -1
    else if s[0] == x then 0
    else
      var k := IndexOf(s[1..], x);
      assert s[1..][..k + 1] == s[1..k + 2];
      if k == -1 then -1 else k + 1
  }

  /** `Mnemonic.getWordlist`: the switch over the six language names. */
  function GetWordlist(env: Env, language: string): (r: Result<seq<string>>)
    requires |env.wordlists| == 6
    ensures r.Ok? <==> language in Languages
    ensures r.Ok? ==> r.value == env.wordlists[IndexOf(Languages, language)]
    ensures r.Err? ==> r.error == UnsupportedLanguage
  {
    if language == "simplified chinese" then Ok(env.wordlists[0])
    else if language == "traditional chinese" then Ok(env.wordlists[1])
    else if language == "english" then Ok(env.wordlists[2])
    else if language == "french" then Ok(env.wordlists[3])
    else if language == "italian" then Ok(env.wordlists[4])
    else if language == "japanese" then Ok(env.wordlists[5])
    else Err(UnsupportedLanguage)
  }

  /** The list `getWordlist` returns for a supported language is a wordlist. */
  lemma WordlistOf(env: Env, language: string)
    requires env.Valid() && language in Languages
    ensures IsWordlist(GetWordlist(env, language).value)
  {
  }

  /** The search loop of `getLanguage`, from the language at position `from` on. */
  function FindLanguage(env: Env, word: string, from: nat): (r: Result<string>)
    requires env.Valid() && from <= 6
    ensures r.Ok? <==> exists i :: from <= i < 6 && word in env.wordlists[i]
    ensures r.Err? ==> r.error == UnknownLanguage
    ensures r.Ok? ==> exists i :: from <= i < 6 && r.value == Languages[i] && word in env.wordlists[i]
                                  && forall j :: from <= j < i ==> word !in env.wordlists[j]
    decreases 6 - from
  {
    if from == 6 then Err(UnknownLanguage)
    else if IndexOf(GetWordlist(env, Languages[from]).value, word) != -1 then Ok(Languages[from])
    else FindLanguage(env, word, from + 1)
  }

  /** `Mnemonic.getLanguage`: the first language, in the fixed order, whose list holds `word`. */
  function GetLanguage(env: Env, word: string): (r: Result<string>)
    requires env.Valid()
    ensures r.Ok? <==> exists i :: 0 <= i < 6 && word in env.wordlists[i]
    ensures r.Err? ==> r.error == UnknownLanguage
    ensures r.Ok? ==> exists i :: 0 <= i < 6 && r.value == Languages[i] && word in env.wordlists[i]
                                  && forall j :: 0 <= j < i ==> word !in env.wordlists[j]
  {
    FindLanguage(env, word, 0)
  }

  /** When no earlier list holds `word`, the language found is the one whose list does. */
  lemma GetLanguageOf(env: Env, word: string, li: nat)
    requires env.Valid() && li < 6 && word in env.wordlists[li]
    requires forall j :: 0 <= j < li ==> word !in env.wordlists[j]
    ensures GetLanguage(env, word) == Ok(Languages[li])
  {
    var r := GetLanguage(env, word);
    var i :| 0 <= i < 6 && r.value == Languages[i] && word in env.wordlists[i]
             && forall j :: 0 <= j < i ==> word !in env.wordlists[j];
    assert i == li;
  }

  /** The word separator `getPhrase` joins with: U+3000 for Japanese, a space otherwise. */
  function Separator(language: string): (r: string)
    ensures |r| == 1 && IsSeparator(r[0])
    ensures r == "\U{3000}" <==> language == Japanese
  {
    if language == Japanese then "\U{3000}" else " "
  }
}
