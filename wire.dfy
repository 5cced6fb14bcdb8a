/**
 * The binary form of a mnemonic (`toRaw`/`fromRaw`): a little-endian u16
 * bit length, a u8 language index, `bits / 8` entropy bytes, then the phrase
 * and the passphrase as UTF-8 strings with a Bitcoin CompactSize length
 * prefix, as bcoin's BufferWriter and BufferReader lay them out.
 */
module Wire {
  import opened Bits
  import opened Results
  import opened Registry
  import opened PhraseCodec

  function Pow256(k: nat): (r: nat)
    ensures r >= 1
  {
    if k == 0 then 1 else 256 * Pow256(k - 1)
  }

  /** The largest length a CompactSize prefix can carry, plus one. */
  const VarintLimit: nat := 0x1_0000_0000_0000_0000

  /** `k` bytes of `n`, least significant first: `writeU8`, `writeU16`, `writeU32`, `writeU64`. */
  function LE(n: nat, k: nat): (r: seq<byte>)
    ensures |r| == k
  {
    if k == 0 then [] else [n % 256] + LE(n / 256, k - 1)
  }

  /** The number little-endian bytes spell: `readU8`, `readU16`, `readU32`, `readU64`. */
  function FromLE(b: seq<byte>): nat
  {
    if b == [] then 0 else b[0] + 256 * FromLE(b[1..])
  }

  /**
   * Reading back a `k`-byte little-endian field gives the number written,
   * reduced modulo 256^k: the writer keeps only the low `k` bytes.
   */
  lemma {:induction false} FromLEOfLE(n: nat, k: nat)
    ensures FromLE(LE(n, k)) == n % Pow256(k)
    ensures n < Pow256(k) ==> FromLE(LE(n, k)) == n
  {
    if k > 0 {
      FromLEOfLE(n / 256, k - 1);
      assert LE(n, k)[1..] == LE(n / 256, k - 1);
      DivDiv(n, 256, Pow256(k - 1));
    }
    if n < Pow256(k) {
      DivUnique(n, Pow256(k), 0, n);
    }
  }

  /** `writeVarint`: Bitcoin's CompactSize. */
  function Varint(n: nat): (r: seq<byte>)
    ensures 1 <= |r| <= 9
  {
    if n < 0xfd then [n]
    else if n <= 0xffff then [0xfd] + LE(n, 2)
    else if n <= 0xffff_ffff then [0xfe] + LE(n, 4)
    else [0xff] + LE(n, 8)
  }

  /** `writeVarString(s, 'utf8')`: the byte length, then the bytes. */
  function VarString(env: Env, s: string): (r: seq<byte>)
    ensures |env.utf8Encode(s)| + 1 <= |r| <= |env.utf8Encode(s)| + 9
    ensures r[|r| - |env.utf8Encode(s)|..] == env.utf8Encode(s)
  {
    Varint(|env.utf8Encode(s)|) + env.utf8Encode(s)
  }

  /** `toRaw`'s byte layout. */
  function Serialize(env: Env, bits: nat, language: nat, entropy: seq<byte>, phrase: string, passphrase: string)
    : (r: seq<byte>)
    ensures |r| == 3 + |entropy| + |VarString(env, phrase)| + |VarString(env, passphrase)|
    ensures r[3 .. 3 + |entropy|] == entropy
  {
    LE(bits, 2) + LE(language, 1) + entropy + VarString(env, phrase) + VarString(env, passphrase)
  }

  /** A value read and the reader's offset after it. */
  datatype Read<T> = Read(value: T, next: nat)

  /** Read `k` little-endian bytes at `off`; `None` where BufferReader's bounds assertion throws. */
  function ReadLE(data: seq<byte>, off: nat, k: nat): (r: Option<Read<nat>>)
    ensures r.Some? <==> off + k <= |data|
    ensures r.Some? ==> r.value.next == off + k && r.value.value == FromLE(data[off .. off + k])
  {
    if off + k <= |data| then Some(Read(FromLE(data[off .. off + k]), off + k)) else None
  }

  /** `readBytes(n)`. */
  function ReadBytes(data: seq<byte>, off: nat, n: nat): (r: Option<Read<seq<byte>>>)
    ensures r.Some? <==> off + n <= |data|
    ensures r.Some? ==> r.value.next == off + n && r.value.value == data[off .. off + n]
  {
    if off + n <= |data| then Some(Read(data[off .. off + n], off + n)) else None
  }

  /** `readVarint`: a one-byte value, or a 0xfd/0xfe/0xff marker and a 2/4/8-byte value. */
  function ReadVarint(data: seq<byte>, off: nat): (r: Option<Read<nat>>)
    ensures r.Some? ==> r.value.next - off in {1, 3, 5, 9} && r.value.next <= |data|
  {
    match ReadLE(data, off, 1)
    case None => None
    case Some(first) =>
      if first.value == 0xfd then ReadLE(data, first.next, 2)
      else if first.value == 0xfe then ReadLE(data, first.next, 4)
      else if first.value == 0xff then ReadLE(data, first.next, 8)
      else Some(first)
  }

  /** `readVarString('utf8')`. */
  function ReadVarString(env: Env, data: seq<byte>, off: nat): (r: Option<Read<string>>)
    ensures r.Some? ==> off < r.value.next <= |data|
  {
    match ReadVarint(data, off)
    case None => None
    case Some(size) =>
      match ReadBytes(data, size.next, size.value)
      case None => None
      case Some(bytes) => Some(Read(env.utf8Decode(bytes.value), bytes.next))
  }

  lemma ReadVarintOf(data: seq<byte>, off: nat, n: nat)
    requires n < VarintLimit
    requires off + |Varint(n)| <= |data| && data[off .. off + |Varint(n)|] == Varint(n)
    ensures ReadVarint(data, off) == Some(Read(n, off + |Varint(n)|))
  {
    var v := Varint(n);
    assert FromLE(data[off .. off + 1]) == v[0];
    if n >= 0xfd {
      var k := |v| - 1;
      assert data[off + 1 .. off + 1 + k] == v[1..];
      assert Pow256(2) == 0x1_0000 && Pow256(4) == 0x1_0000_0000 && Pow256(8) == VarintLimit;
      FromLEOfLE(n, k);
    }
  }

  lemma ReadVarStringOf(env: Env, data: seq<byte>, off: nat, s: string)
    requires env.Valid() && |env.utf8Encode(s)| < VarintLimit
    requires off + |VarString(env, s)| <= |data| && data[off .. off + |VarString(env, s)|] == VarString(env, s)
    ensures ReadVarString(env, data, off) == Some(Read(s, off + |VarString(env, s)|))
  {
    var bytes := env.utf8Encode(s);
    var v := Varint(|bytes|);
    var w := VarString(env, s);
    assert w == v + bytes;
    var window := data[off .. off + |w|];
    assert window == w;
    assert data[off .. off + |v|] == window[..|v|];
    assert w[..|v|] == v;
    ReadVarintOf(data, off, |bytes|);
    assert data[off + |v| .. off + |v| + |bytes|] == window[|v|..];
    assert w[|v|..] == bytes;
  }

  /** The fields `fromRaw` assigns, in its order. */
  datatype RawFields = RawFields(bits: nat, language: Option<string>, entropy: seq<byte>, phrase: string, passphrase: string)

  /**
   * How far `fromRaw` got: `read` fields were assigned before a read threw
   * (5 when all were); `fields` holds them, and defaults past `read`.
   */
  datatype RawParse = RawParse(read: nat, fields: RawFields)

  /** `Mnemonic.languages[i]`, `undefined` past the end. */
  function LanguageAt(i: nat): (r: Option<string>)
    ensures r.Some? <==> i < |Languages|
    ensures r.Some? ==> r.value == Languages[i]
  {
    if i < |Languages| then Some(Languages[i]) else None
  }

  /** The reads of `fromRaw`, each one starting where the previous one stopped. */
  function ParseRaw(env: Env, data: seq<byte>): (p: RawParse)
    ensures p.read <= 5
  {
    var blank := RawFields(0, None, [], "", "");
    match ReadLE(data, 0, 2)
    case None => RawParse(0, blank)
    case Some(bits) =>
      var f1 := blank.(bits := bits.value);
      match ReadLE(data, bits.next, 1)
      case None => RawParse(1, f1)
      case Some(language) =>
        var f2 := f1.(language := LanguageAt(language.value));
        match ReadBytes(data, language.next, bits.value / 8)
        case None => RawParse(2, f2)
        case Some(entropy) => ParseStrings(env, data, entropy.next, f2.(entropy := entropy.value))
  }

  /** The last two reads of `fromRaw`: the phrase and the passphrase, from offset `off`. */
  function ParseStrings(env: Env, data: seq<byte>, off: nat, f3: RawFields): (p: RawParse)
    ensures 3 <= p.read <= 5
  {
    match ReadVarString(env, data, off)
    case None => RawParse(3, f3)
    case Some(phrase) =>
      var f4 := f3.(phrase := phrase.value);
      match ReadVarString(env, data, phrase.next)
      case None => RawParse(4, f4)
      case Some(passphrase) => RawParse(5, f4.(passphrase := passphrase.value))
  }

  /** The assertions `fromRaw` runs after its reads: a known language, then a valid bit length. */
  function CheckRaw(p: RawParse): (r: Outcome)
    ensures r == Done <==> p.read == 5 && p.fields.language.Some? && ValidBits(p.fields.bits)
  {
    if p.read != 5 then Fail(MalformedSerialization)
    else if p.fields.language.None? then Fail(UnsupportedLanguage)
    else if !ValidBits(p.fields.bits) then Fail(InvalidEntropyLength)
    else Done
  }

  lemma ReadLEOf(data: seq<byte>, off: nat, n: nat, k: nat)
    requires n < Pow256(k) && off + k <= |data| && data[off .. off + k] == LE(n, k)
    ensures ReadLE(data, off, k) == Some(Read(n, off + k))
  {
    FromLEOfLE(n, k);
  }

  /** The layout of `Serialize`, field by field. */
  lemma SerializeLayout(env: Env, bits: nat, language: nat, entropy: seq<byte>, phrase: string, passphrase: string)
    ensures var data := Serialize(env, bits, language, entropy, phrase, passphrase);
      var o := 3 + |entropy|;
      var p1 := VarString(env, phrase);
      var p2 := VarString(env, passphrase);
      && |data| == o + |p1| + |p2|
      && data[0..2] == LE(bits, 2) && data[2..3] == LE(language, 1) && data[3..o] == entropy
      && data[o .. o + |p1|] == p1 && data[o + |p1| .. o + |p1| + |p2|] == p2
  {
    var p1 := VarString(env, phrase);
    var p2 := VarString(env, passphrase);
    var head := LE(bits, 2) + LE(language, 1) + entropy;
    var data := Serialize(env, bits, language, entropy, phrase, passphrase);
    assert data == head + p1 + p2;
    assert data[..|head|] == head;
    assert head[0..2] == LE(bits, 2) && head[2..3] == LE(language, 1) && head[3..] == entropy;
  }

  /** The two strings `toRaw` writes last read back whole. */
  lemma StringsRoundTrip(env: Env, data: seq<byte>, off: nat, f: RawFields, phrase: string, passphrase: string)
    requires env.Valid()
    requires |env.utf8Encode(phrase)| < VarintLimit && |env.utf8Encode(passphrase)| < VarintLimit
    requires var p1 := VarString(env, phrase);
             var p2 := VarString(env, passphrase);
             && off + |p1| + |p2| <= |data|
             && data[off .. off + |p1|] == p1 && data[off + |p1| .. off + |p1| + |p2|] == p2
    ensures ParseStrings(env, data, off, f) == RawParse(5, f.(phrase := phrase, passphrase := passphrase))
  {
    var p1 := VarString(env, phrase);
    ReadVarStringOf(env, data, off, phrase);
    ReadVarStringOf(env, data, off + |p1|, passphrase);
  }

  /**
   * Binary round trip: reading back what `toRaw` writes gives every field
   * back, with the language index mapped to its name.
   */
  lemma RawRoundTrip(env: Env, bits: nat, language: nat, entropy: seq<byte>, phrase: string, passphrase: string)
    requires env.Valid() && bits < 0x1_0000 && language < |Languages| && |entropy| == bits / 8
    requires |env.utf8Encode(phrase)| < VarintLimit && |env.utf8Encode(passphrase)| < VarintLimit
    ensures ParseRaw(env, Serialize(env, bits, language, entropy, phrase, passphrase))
            == RawParse(5, RawFields(bits, Some(Languages[language]), entropy, phrase, passphrase))
  {
    var data := Serialize(env, bits, language, entropy, phrase, passphrase);
    var o := 3 + |entropy|;
    SerializeLayout(env, bits, language, entropy, phrase, passphrase);
    assert Pow256(2) == 0x1_0000 && Pow256(1) == 256;
    ReadLEOf(data, 0, bits, 2);
    ReadLEOf(data, 2, language, 1);
    assert ReadBytes(data, 3, bits / 8) == Some(Read(entropy, o));
    var f3 := RawFields(bits, Some(Languages[language]), entropy, "", "");
    StringsRoundTrip(env, data, o, f3, phrase, passphrase);
  }
}
