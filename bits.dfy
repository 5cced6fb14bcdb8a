/**
 * Bit-level view of byte buffers. JavaScript's `>>>`, `<<` and `|` on
 * non-negative numbers are written out as halving, doubling and a binary
 * digit-by-digit OR; a byte buffer is viewed as a string of bits, most
 * significant bit of each byte first, which is the order BIP 39 reads them in.
 */
module Bits {

  /** One element of a Node.js Buffer. */
  type byte = x: int | 0 <= x < 256

  function Pow2(n: nat): (r: nat)
    ensures r >= 1
  {
    if n == 0 then 1 else 2 * Pow2(n - 1)
  }

  /** `x >>> k` for a non-negative `x`: `k` halvings, rounding down. */
  function Shr(x: nat, k: nat): nat
  {
    if k == 0 then x else Shr(x / 2, k - 1)
  }

  /** `x << k`: `k` doublings. */
  function Shl(x: nat, k: nat): nat
  {
    if k == 0 then x else 2 * Shl(x, k - 1)
  }

  /** `x | y` on non-negative numbers, one binary digit at a time. */
  function Or(x: nat, y: nat): nat
    decreases x + y
  {
    if x == 0 then y
    else if y == 0 then x
    else 2 * Or(x / 2, y / 2) + (if x % 2 == 1 || y % 2 == 1 then 1 else 0)
  }

  /** A quotient and remainder are determined by any remainder in range. */
  lemma DivUnique(x: int, m: int, q: int, r: int)
    requires m > 0 && 0 <= r < m && x == m * q + r
    ensures x / m == q && x % m == r
  {
    var d := q - x / m;
    assert m * d == x % m - r by {
      assert x == m * (x / m) + x % m;
      assert m * q - m * (x / m) == m * d;
    }
  }

  /** Dividing by `a` and then by `b` is dividing by `a * b`; the remainders combine likewise. */
  lemma DivDiv(x: nat, a: nat, b: nat)
    requires a > 0 && b > 0
    ensures x / a / b == x / (a * b)
    ensures x % (a * b) == x % a + a * (x / a % b)
  {
    var h := x / a;
    var q, r := h / b, h % b;
    assert h == b * q + r;
    assert x == a * h + x % a;
    assert a * r <= a * (b - 1);
    assert x == (a * b) * q + (a * r + x % a) by {
      assert a * (b * q + r) == (a * b) * q + a * r;
    }
    DivUnique(x, a * b, q, a * r + x % a);
  }

  /** `x >>> k` is `x` divided by `2^k`, rounded down. */
  lemma {:induction false} ShrDiv(x: nat, k: nat)
    ensures Shr(x, k) == x / Pow2(k)
  {
    if k > 0 {
      ShrDiv(x / 2, k - 1);
      DivDiv(x, 2, Pow2(k - 1));
    }
  }

  /** `x << k` is `x` times `2^k`. */
  lemma {:induction false} ShlMul(x: nat, k: nat)
    ensures Shl(x, k) == x * Pow2(k)
  {
    if k > 0 {
      ShlMul(x, k - 1);
    }
  }

  /** `x | y` is at least each operand and at most their sum. */
  lemma {:induction false} OrBounds(x: nat, y: nat)
    ensures x <= Or(x, y) && y <= Or(x, y) && Or(x, y) <= x + y
    decreases x + y
  {
    if x != 0 && y != 0 {
      OrBounds(x / 2, y / 2);
    }
  }

  /** The low `n` bits of `v`, most significant first. */
  function BitsOf(v: nat, n: nat): (r: seq<bool>)
    ensures |r| == n
  {
    if n == 0 then [] else BitsOf(v / 2, n - 1) + [v % 2 == 1]
  }

  /** The number an MSB-first bit string spells. */
  function Val(c: seq<bool>): nat
  {
    if c == [] then 0 else 2 * Val(c[..|c| - 1]) + (if c[|c| - 1] then 1 else 0)
  }

  lemma {:induction false} ValBound(c: seq<bool>)
    ensures Val(c) < Pow2(|c|)
  {
    if c != [] {
      ValBound(c[..|c| - 1]);
    }
  }

  /** Reading `n` bits as a number and writing the number back as `n` bits is the identity. */
  lemma {:induction false} BitsOfVal(c: seq<bool>)
    ensures BitsOf(Val(c), |c|) == c
  {
    if c != [] {
      var init := c[..|c| - 1];
      BitsOfVal(init);
      assert c == init + [c[|c| - 1]];
    }
  }

  /** Writing a number below 2^n as `n` bits and reading them back is the identity. */
  lemma {:induction false} ValBitsOf(v: nat, n: nat)
    requires v < Pow2(n)
    ensures Val(BitsOf(v, n)) == v
  {
    if n > 0 {
      ValBitsOf(v / 2, n - 1);
      var c := BitsOf(v, n);
      assert c[..n - 1] == BitsOf(v / 2, n - 1);
    }
  }

  /** Bit `j` of the MSB-first view is `(v >>> (n - 1 - j)) & 1`. */
  lemma {:induction false} BitsOfShr(v: nat, n: nat, j: nat)
    requires j < n
    ensures BitsOf(v, n)[j] == (Shr(v, n - 1 - j) % 2 == 1)
  {
    if j < n - 1 {
      BitsOfShr(v / 2, n - 1, j);
    }
  }

  lemma {:induction false} BitsOfZero(n: nat, j: nat)
    requires j < n
    ensures !BitsOf(0, n)[j]
  {
    if j < n - 1 {
      BitsOfZero(n - 1, j);
    }
  }

  /** `|` is the bitwise disjunction. */
  lemma {:induction false} BitsOfOr(x: nat, y: nat, n: nat, j: nat)
    requires j < n
    ensures BitsOf(Or(x, y), n)[j] == (BitsOf(x, n)[j] || BitsOf(y, n)[j])
  {
    if x == 0 || y == 0 {
      BitsOfZero(n, j);
    } else if j < n - 1 {
      BitsOfOr(x / 2, y / 2, n - 1, j);
    }
  }

  /** `b << k` for a single bit `b` sets exactly bit `k` (counted from the least significant end). */
  lemma {:induction false} BitsOfShl(b: nat, k: nat, n: nat, j: nat)
    requires b <= 1 && k < n && j < n
    ensures BitsOf(Shl(b, k), n)[j] == (b == 1 && j == n - 1 - k)
  {
    if k == 0 {
      if j < n - 1 {
        BitsOfZero(n - 1, j);
      }
    } else if j < n - 1 {
      BitsOfShl(b, k - 1, n - 1, j);
    }
  }

  lemma {:induction false} OrBound(x: nat, y: nat, n: nat)
    requires x < Pow2(n) && y < Pow2(n)
    ensures Or(x, y) < Pow2(n)
  {
    if x != 0 && y != 0 {
      OrBound(x / 2, y / 2, n - 1);
    }
  }

  lemma {:induction false} ShlBound(b: nat, k: nat, n: nat)
    requires b <= 1 && k < n
    ensures Shl(b, k) < Pow2(n)
  {
    if k > 0 {
      ShlBound(b, k - 1, n - 1);
    }
  }

  /** `x | (b << k)` stays a byte. */
  lemma OrShlByte(x: byte, b: nat, k: nat)
    requires b <= 1 && k < 8
    ensures Or(x, Shl(b, k)) < 256
  {
    assert Pow2(8) == 256;
    ShlBound(b, k, 8);
    OrBound(x, Shl(b, k), 8);
  }

  /** Bit `p` of a buffer, MSB first: `(s[p >> 3] >>> (7 - (p & 7))) & 1`. */
  function BitAt(s: seq<byte>, p: nat): bool
    requires p < 8 * |s|
  {
    Shr(s[p / 8], 7 - p % 8) % 2 == 1
  }

  function ToBits(s: seq<byte>): (r: seq<bool>)
    ensures |r| == 8 * |s|
  {
    seq(8 * |s|, p requires 0 <= p < 8 * |s| => BitAt(s, p))
  }

  /** Eight bits, MSB first, as one byte. */
  function ByteOf(c: seq<bool>): byte
    requires |c| == 8
  {
    ValBound(c);
    assert Pow2(8) == 256;
    Val(c)
  }

  function FromBits(c: seq<bool>): (r: seq<byte>)
    requires |c| % 8 == 0
    ensures |r| == |c| / 8
  {
    seq(|c| / 8, k requires 0 <= k < |c| / 8 => ByteOf(c[8 * k .. 8 * k + 8]))
  }

  lemma BitAtByte(s: seq<byte>, p: nat)
    requires p < 8 * |s|
    ensures BitAt(s, p) == BitsOf(s[p / 8], 8)[p % 8]
  {
    BitsOfShr(s[p / 8], 8, p % 8);
  }

  lemma ByteSlice(s: seq<byte>, k: nat)
    requires k < |s|
    ensures ToBits(s)[8 * k .. 8 * k + 8] == BitsOf(s[k], 8)
  {
    var bits := ToBits(s);
    forall q | 0 <= q < 8
      ensures bits[8 * k + q] == BitsOf(s[k], 8)[q]
    {
      var p := 8 * k + q;
      assert p / 8 == k && p % 8 == q;
      BitAtByte(s, p);
    }
  }

  /** Bytes to bits and back is the identity. */
  lemma FromToBits(s: seq<byte>)
    ensures FromBits(ToBits(s)) == s
  {
    assert Pow2(8) == 256;
    forall k | 0 <= k < |s|
      ensures FromBits(ToBits(s))[k] == s[k]
    {
      ByteSlice(s, k);
      ValBitsOf(s[k], 8);
    }
  }

  /** Bits to bytes and back is the identity. */
  lemma ToFromBits(c: seq<bool>)
    requires |c| % 8 == 0
    ensures ToBits(FromBits(c)) == c
  {
    var s := FromBits(c);
    forall p | 0 <= p < |c|
      ensures ToBits(s)[p] == c[p]
    {
      var k, q := p / 8, p % 8;
      assert p == 8 * k + q && k < |s|;
      var chunk := c[8 * k .. 8 * k + 8];
      assert s[k] == ByteOf(chunk);
      BitAtByte(s, p);
      BitsOfVal(chunk);
      assert chunk[q] == c[p];
    }
  }

  lemma ToBitsAppend(a: seq<byte>, b: seq<byte>)
    ensures ToBits(a + b) == ToBits(a) + ToBits(b)
  {
    forall p | 0 <= p < 8 * |a + b|
      ensures ToBits(a + b)[p] == (ToBits(a) + ToBits(b))[p]
    {
      if p >= 8 * |a| {
        assert (p - 8 * |a|) / 8 == p / 8 - |a|;
        assert (p - 8 * |a|) % 8 == p % 8;
      }
    }
  }

  lemma ToBitsPrefix(s: seq<byte>, k: nat)
    requires k <= |s|
    ensures ToBits(s[..k]) == ToBits(s)[..8 * k]
  {
    ToBitsAppend(s[..k], s[k..]);
    assert s == s[..k] + s[k..];
  }

  /** `(x << 1) | b` for one bit `b` appends `b` to the binary digits of `x`. */
  lemma ShiftIn(x: nat, b: nat)
    requires b <= 1
    ensures Or(Shl(x, 1), b) == 2 * x + b
  {
    if x != 0 && b != 0 {
      assert Or(x, 0) == x;
    }
  }

  /** The `n` bits of a buffer from bit `start` on, read MSB first as a number. */
  function ReadBits(s: seq<byte>, start: nat, n: nat): nat
    requires start + n <= 8 * |s|
  {
    if n == 0 then 0 else 2 * ReadBits(s, start, n - 1) + (if BitAt(s, start + n - 1) then 1 else 0)
  }

  /** Reading bits one by one gives the value of the slice of the bit view. */
  lemma {:induction false} ReadBitsVal(s: seq<byte>, start: nat, n: nat)
    requires start + n <= 8 * |s|
    ensures ReadBits(s, start, n) == Val(ToBits(s)[start .. start + n])
  {
    if n > 0 {
      var last := start + n - 1;
      var init := ToBits(s)[start .. last];
      ReadBitsVal(s, start, n - 1);
      ToBitsSlice(s, start, last);
      ValSnoc(init, BitAt(s, last));
      assert ToBits(s)[start .. start + n] == init + [BitAt(s, last)];
    }
  }

  /** `(pos - (pos & 7)) / 8` is the byte that holds bit `pos`. */
  lemma Octet(pos: nat)
    ensures (pos - pos % 8) / 8 == pos / 8 && pos / 8 * 8 <= pos
  {
  }

  /** One more bit at the end doubles the value and adds the bit. */
  lemma {:induction false} ValSnoc(c: seq<bool>, b: bool)
    ensures Val(c + [b]) == 2 * Val(c) + (if b then 1 else 0)
  {
    assert (c + [b])[..|c|] == c;
  }

  /** The bits from `a` to `b + 1` of a buffer are those up to `b`, then bit `b`. */
  lemma ToBitsSlice(s: seq<byte>, a: nat, b: nat)
    requires a <= b < 8 * |s|
    ensures ToBits(s)[a .. b + 1] == ToBits(s)[a .. b] + [BitAt(s, b)]
  {
  }

  /** Bit `k` of the bytes from `m` on is bit `8 * m + k` of the whole buffer. */
  lemma BitAtSuffix(s: seq<byte>, m: nat, k: nat)
    requires m <= |s| && k < 8 * (|s| - m)
    ensures BitAt(s, 8 * m + k) == BitAt(s[m..], k)
  {
    assert (8 * m + k) / 8 == m + k / 8;
    assert (8 * m + k) % 8 == k % 8;
  }

  /**
   * `s[pos >> 3] |= b << (7 - (pos & 7))` sets bit `pos` when `b` is 1 and
   * leaves every other bit as it was.
   */
  lemma SetBitAt(s: seq<byte>, pos: nat, b: nat)
    requires pos < 8 * |s| && b <= 1
    ensures Or(s[pos / 8], Shl(b, 7 - pos % 8)) < 256
    ensures var t := s[pos / 8 := Or(s[pos / 8], Shl(b, 7 - pos % 8))];
      forall p :: 0 <= p < 8 * |t| ==> BitAt(t, p) == (BitAt(s, p) || (p == pos && b == 1))
  {
    OrShlByte(s[pos / 8], b, 7 - pos % 8);
    var t := s[pos / 8 := Or(s[pos / 8], Shl(b, 7 - pos % 8))];
    forall p | 0 <= p < 8 * |t|
      ensures BitAt(t, p) == (BitAt(s, p) || (p == pos && b == 1))
    {
      if p / 8 == pos / 8 {
        BitAtByte(t, p);
        BitAtByte(s, p);
        BitsOfOr(s[pos / 8], Shl(b, 7 - pos % 8), 8, p % 8);
        BitsOfShl(b, 7 - pos % 8, 8, p % 8);
      }
    }
  }
}
