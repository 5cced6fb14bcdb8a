/**
 * String helpers the mnemonic code takes from JavaScript and Node.js:
 * `Array.prototype.join`, `String.prototype.split(/[ 　]+/)`, and the
 * hex text form of a Buffer.
 */
module Text {
  import opened Bits
  import opened Registry

  /** `words.join(sep)`. */
  function Join(words: seq<string>, sep: string): string
  {
    if words == [] then ""
    else if |words| == 1 then words[0]
    else words[0] + sep + Join(words[1..], sep)
  }

  /** The combined length of `words`. */
  function TotalLength(words: seq<string>): nat
  {
    if words == [] then 0 else |words[0]| + TotalLength(words[1..])
  }

  /** `join` puts one separator between each pair of neighbours and none at either end. */
  lemma {:induction false} JoinLength(words: seq<string>, sep: string)
    requires |words| >= 1
    ensures |Join(words, sep)| == TotalLength(words) + (|words| - 1) * |sep|
  {
    if |words| > 1 {
      JoinLength(words[1..], sep);
    }
  }

  /** The first index at or after `i` holding a separator, or `|s|`. */
  function FirstSeparator(s: string, i: nat): (r: nat)
    requires i <= |s|
    ensures i <= r <= |s|
    ensures forall k :: i <= k < r ==> !IsSeparator(s[k])
    ensures r < |s| ==> IsSeparator(s[r])
    decreases |s| - i
  {
    if i == |s| || IsSeparator(s[i]) then i else FirstSeparator(s, i + 1)
  }

  /** The end of the run of separators that starts at `i`. */
  function RunEnd(s: string, i: nat): (r: nat)
    requires i <= |s|
    ensures i <= r <= |s|
    ensures forall k :: i <= k < r ==> IsSeparator(s[k])
    ensures r < |s| ==> !IsSeparator(s[r])
    decreases |s| - i
  {
    if i == |s| || !IsSeparator(s[i]) then i else RunEnd(s, i + 1)
  }

  /**
   * `s.split(/[ 　]+/)`: the pieces between maximal runs of separators.
   * A leading or trailing run yields an empty first or last piece, and the
   * empty string yields one empty piece, as in JavaScript.
   */
  function Split(s: string): (r: seq<string>)
    ensures |r| >= 1
    decreases |s|
  {
    var k := FirstSeparator(s, 0);
    if k == |s| then [s] else [s[..k]] + Split(s[RunEnd(s, k)..])
  }

  lemma {:induction false} JoinStart(words: seq<string>, sep: string)
    requires |words| >= 1 && words[0] != []
    ensures |Join(words, sep)| >= 1 && Join(words, sep)[0] == words[0][0]
  {
  }

  /**
   * Splitting a join of separator-free words on a separator gives the words back.
   */
  lemma {:induction false} SplitJoin(words: seq<string>, sep: string)
    requires |words| >= 1
    requires forall i :: 0 <= i < |words| ==> IsWord(words[i])
    requires |sep| == 1 && IsSeparator(sep[0])
    ensures Split(Join(words, sep)) == words
  {
    var w := words[0];
    if |words| == 1 {
      assert FirstSeparator(w, 0) == |w|;
    } else {
      var rest := Join(words[1..], sep);
      var s := w + sep + rest;
      assert Join(words, sep) == s;
      JoinStart(words[1..], sep);
      assert s[|w| + 1] == rest[0] == words[1][0];
      assert IsWord(w);
      assert forall k :: 0 <= k < |w| ==> s[k] == w[k];
      assert s[|w|] == sep[0];
      assert FirstSeparator(s, 0) == |w|;
      assert RunEnd(s, |w|) == |w| + 1;
      assert s[..|w|] == w;
      assert s[|w| + 1..] == rest;
      SplitJoin(words[1..], sep);
      assert words == [w] + words[1..];
    }
  }

  /** A nibble as a lower-case hex digit. */
  function HexDigit(d: nat): char
    requires d < 16
  {
    if d < 10 then ('0' as int + d) as char else ('a' as int + d - 10) as char
  }

  /** The value of a hex digit of either case, or -1. */
  function HexValue(c: char): int
  {
    if '0' <= c <= '9' then c as int - '0' as int
    else if 'a' <= c <= 'f' then c as int - 'a' as int + 10
    else if 'A' <= c <= 'F' then c as int - 'A' as int + 10
    else -1
  }

  /** `buf.toString('hex')`. */
  function HexEncode(b: seq<byte>): (r: string)
    ensures |r| == 2 * |b|
  {
    if b == [] then "" else [HexDigit(b[0] / 16), HexDigit(b[0] % 16)] + HexEncode(b[1..])
  }

  /** `new Buffer(s, 'hex')`: whole pairs of hex digits, up to the first pair that is not one. */
  function HexDecode(s: string): (r: seq<byte>)
    ensures |r| <= |s| / 2
  {
    if |s| < 2 || HexValue(s[0]) < 0 || HexValue(s[1]) < 0 then []
    else [16 * HexValue(s[0]) + HexValue(s[1])] + HexDecode(s[2..])
  }

  /** Decoding the hex text of a buffer gives the buffer back. */
  lemma {:induction false} HexRoundTrip(b: seq<byte>)
    ensures HexDecode(HexEncode(b)) == b
  {
    if b != [] {
      var s := HexEncode(b);
      assert HexValue(HexDigit(b[0] / 16)) == b[0] / 16;
      assert HexValue(HexDigit(b[0] % 16)) == b[0] % 16;
      assert s[2..] == HexEncode(b[1..]);
      HexRoundTrip(b[1..]);
    }
  }
}
