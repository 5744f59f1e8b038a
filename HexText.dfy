/**
 * Hexadecimal text as the source handles it: a socket set to the 'hex'
 * encoding delivers every byte as two lowercase digits, and both core
 * files work on those strings with `slice`, `indexOf`, `parseInt(_, 16)`
 * and `^`.
 */
module HexText {
  import opened Wrappers

  const HEX_DIGITS := "0123456789abcdef"

  predicate IsLowerHexDigit(c: char) {
    '0' <= c <= '9' || 'a' <= c <= 'f'
  }

  predicate IsHexDigit(c: char) {
    IsLowerHexDigit(c) || 'A' <= c <= 'F'
  }

  predicate IsLowerHex(s: string) {
    forall i :: 0 <= i < |s| ==> IsLowerHexDigit(s[i])
  }

  predicate IsHex(s: string) {
    forall i :: 0 <= i < |s| ==> IsHexDigit(s[i])
  }

  function Min(a: int, b: int): int {
    if a < b then a else b
  }

  function Max(a: int, b: int): int {
    if a < b then b else a
  }

  function Pow(b: nat, e: nat): (r: nat)
    ensures b > 0 ==> r > 0
  {
    if e == 0 then 1 else b * Pow(b, e - 1)
  }

  /** `toLowerCase` on one character; only ASCII letters change. */
  function LowerChar(c: char): char {
    if 'A' <= c <= 'Z' then (c as int + 32) as char else c
  }

  /** `toLowerCase` on a string. */
  function Lower(s: string): (r: string)
    ensures |r| == |s|
    ensures IsHex(s) ==> IsLowerHex(r)
    ensures IsLowerHex(s) ==> r == s
  {
    seq(|s|, i requires 0 <= i < |s| => LowerChar(s[i]))
  }

  lemma LowerConcat(a: string, b: string)
    ensures Lower(a + b) == Lower(a) + Lower(b)
  {
  }

  /** The value of one lowercase hexadecimal digit. */
  function DigitValue(c: char): (r: nat)
    requires IsLowerHexDigit(c)
    ensures r < 16 && HEX_DIGITS[r] == c
  {
    if c <= '9' then c as int - '0' as int else c as int - 'a' as int + 10
  }

  lemma LowerHexSlice(s: string, i: nat, j: nat)
    requires IsLowerHex(s) && i <= j <= |s|
    ensures IsLowerHex(s[i..j])
  {
  }

  lemma LowerHexConcat(a: string, b: string)
    requires IsLowerHex(a) && IsLowerHex(b)
    ensures IsLowerHex(a + b)
  {
  }

  /** Big-endian value of a string of lowercase hexadecimal digits. */
  function HexNat(s: string): nat
    requires IsLowerHex(s)
  {
    if s == [] then 0 else HexNat(s[..|s| - 1]) * 16 + DigitValue(s[|s| - 1])
  }

  lemma {:induction false} HexNatBound(s: string)
    requires IsLowerHex(s)
    ensures HexNat(s) < Pow(16, |s|)
  {
    if s != [] {
      var p := s[..|s| - 1];
      HexNatBound(p);
      assert HexNat(p) * 16 <= (Pow(16, |p|) - 1) * 16;
    }
  }

  lemma HexNatAppend(s: string, c: char)
    requires IsLowerHex(s) && IsLowerHexDigit(c)
    ensures HexNat(s + [c]) == HexNat(s) * 16 + DigitValue(c)
  {
    assert (s + [c])[..|s|] == s;
  }

  /** The longest prefix of `s` made of lowercase hexadecimal digits. */
  function HexPrefix(s: string): (p: string)
    ensures p <= s && IsLowerHex(p)
    ensures IsLowerHex(s) ==> p == s
    ensures |p| < |s| ==> !IsLowerHexDigit(s[|p|])
  {
    if s == [] || !IsLowerHexDigit(s[0]) then []
    else [s[0]] + HexPrefix(s[1..])
  }

  /**
   * `parseInt(s, 16)` on the strings the model meets: the value of the
   * longest hexadecimal prefix, and `None` (NaN) when there is none.
   */
  function ParseHex(s: string): (r: Option<nat>)
    ensures r.None? <==> (s == [] || !IsLowerHexDigit(s[0]))
    ensures IsLowerHex(s) && s != [] ==> r == Some(HexNat(s))
  {
    var p := HexPrefix(s);
    if p == [] then None else Some(HexNat(p))
  }

  /**
   * `s.slice(i, j)` for non-negative bounds: both bounds are clamped to
   * the length and an inverted range is empty.
   */
  function Slice(s: string, i: nat, j: nat): (r: string)
    ensures |r| == if i < j && i < |s| then Min(j, |s|) - i else 0
  {
    if i < j && i < |s| then s[i..Min(j, |s|)] else []
  }

  /** Within bounds, `slice` is the subsequence. */
  lemma SliceRange(s: string, i: nat, j: nat)
    ensures i <= j <= |s| ==> Slice(s, i, j) == s[i..j]
  {
  }

  /** A slice of a slice is one slice of the original, within the outer bounds. */
  lemma SliceOfSlice(s: string, i: nat, j: nat, a: nat, b: nat)
    ensures Slice(Slice(s, i, j), a, b) == Slice(s, i + a, Min(i + b, j))
  {
    var t := Slice(s, i, j);
    if i < j && i < |s| {
      assert t == s[i..Min(j, |s|)];
      if a < b && a < |t| {
        var q := Min(b, |t|);
        assert forall k :: 0 <= k < q - a ==> t[a..q][k] == s[i + a..i + q][k];
        assert Slice(t, a, b) == t[a..q] == s[i + a..i + q];
      }
    }
  }

  /** Slicing what is left after the first `w` characters shifts the bounds by `w`. */
  lemma SliceDrop(s: string, w: nat, a: nat, b: nat)
    ensures Slice(Slice(s, w, |s|), a, b) == Slice(s, w + a, w + b)
  {
    var t := Slice(s, w, |s|);
    if w < |s| {
      assert t == s[w..];
      var p := Min(a, |t|);
      var q := Min(b, |t|);
      if p < q {
        assert Slice(t, a, b) == t[p..q] == s[w + p..w + q];
      }
    }
  }

  /** `s.slice(off).slice(w)` is `s.slice(off + w)`. */
  lemma SliceTail(s: string, off: nat, w: nat)
    ensures Slice(Slice(s, off, |s|), w, |Slice(s, off, |s|)|) == Slice(s, off + w, |s|)
  {
    var t := Slice(s, off, |s|);
    SliceDrop(s, off, w, |t|);
    assert Slice(s, off + w, off + |t|) == Slice(s, off + w, |s|);
  }

  /** A byte value, as `parseInt` of two hexadecimal digits gives it. */
  type Byte = x: int | 0 <= x < 256

  /** The bitwise XOR `a ^ b` of two non-negative integers. */
  function Xor(a: nat, b: nat): nat
    decreases a + b
  {
    if a == 0 then b
    else if b == 0 then a
    else 2 * Xor(a / 2, b / 2) + (if a % 2 == b % 2 then 0 else 1)
  }

  lemma {:induction false} XorBound(a: nat, b: nat, k: nat)
    requires a < Pow(2, k) && b < Pow(2, k)
    ensures Xor(a, b) < Pow(2, k)
    decreases a + b
  {
    if a != 0 && b != 0 {
      assert k > 0;
      XorBound(a / 2, b / 2, k - 1);
    }
  }

  /** The XOR of two bytes, `a ^ b` in the source. */
  function XorByte(a: Byte, b: Byte): (r: Byte)
    ensures r == Xor(a, b)
  {
    assert Pow(2, 8) == 256;
    XorBound(a, b, 8);
    Xor(a, b)
  }

  /** The byte whose two digits start at character `2 * i`. */
  function ByteAt(s: string, i: nat): (b: Byte)
    requires IsLowerHex(s) && 2 * i + 2 <= |s|
    ensures b == HexNat(s[2 * i..2 * i + 2])
  {
    var pair := s[2 * i..2 * i + 2];
    assert pair[..1] == [s[2 * i]] && pair[..1][..0] == [];
    assert HexNat(pair[..1]) == DigitValue(s[2 * i]);
    DigitValue(s[2 * i]) * 16 + DigitValue(s[2 * i + 1])
  }

  /** The running XOR of the first `n` bytes of a hex string. */
  function XorPrefix(s: string, n: nat): Byte
    requires IsLowerHex(s) && 2 * n <= |s|
  {
    if n == 0 then 0 else XorByte(XorPrefix(s, n - 1), ByteAt(s, n - 1))
  }

  /** The XOR of a sequence of bytes. */
  function XorBytes(bs: seq<Byte>): Byte {
    if bs == [] then 0 else XorByte(XorBytes(bs[..|bs| - 1]), bs[|bs| - 1])
  }

  lemma DigitOfHex(v: nat)
    requires v < 16
    ensures IsLowerHexDigit(HEX_DIGITS[v]) && DigitValue(HEX_DIGITS[v]) == v
  {
  }

  /** The two lowercase digits of one byte. */
  function HexByte(b: Byte): string {
    [HEX_DIGITS[b / 16], HEX_DIGITS[b % 16]]
  }

  /** The lowercase hex text of a byte sequence, as the 'hex' socket encoding gives it. */
  function ToHex(bs: seq<Byte>): (r: string)
    ensures |r| == 2 * |bs| && IsLowerHex(r)
  {
    if bs == [] then [] else HexByte(bs[0]) + ToHex(bs[1..])
  }

  lemma {:induction false} ToHexConcat(a: seq<Byte>, b: seq<Byte>)
    ensures ToHex(a + b) == ToHex(a) + ToHex(b)
  {
    if a != [] {
      assert (a + b)[1..] == a[1..] + b;
      ToHexConcat(a[1..], b);
    } else {
      assert a + b == b;
    }
  }

  /** The bytes from `i` on are spelled by the characters from `2 * i` on. */
  lemma {:induction false} ToHexDrop(bs: seq<Byte>, i: nat)
    requires i <= |bs|
    ensures ToHex(bs)[2 * i..] == ToHex(bs[i..])
  {
    if i > 0 {
      ToHexDrop(bs[1..], i - 1);
      assert ToHex(bs)[2..] == ToHex(bs[1..]);
      assert bs[1..][i - 1..] == bs[i..];
    }
  }

  /** The first `j` bytes are spelled by the first `2 * j` characters. */
  lemma ToHexTake(bs: seq<Byte>, j: nat)
    requires j <= |bs|
    ensures ToHex(bs)[..2 * j] == ToHex(bs[..j])
  {
    var front, back := bs[..j], bs[j..];
    assert bs == front + back;
    ToHexConcat(front, back);
    PrefixOfConcat(ToHex(front), ToHex(back));
  }

  lemma PrefixOfConcat<T>(x: seq<T>, y: seq<T>)
    ensures (x + y)[..|x|] == x
  {
  }

  lemma TakeOfDrop<T>(s: seq<T>, a: nat, b: nat)
    requires a <= b <= |s|
    ensures s[a..][..b - a] == s[a..b]
  {
  }

  /** Bytes `i` to `j` are spelled by characters `2 * i` to `2 * j`. */
  lemma ToHexSlice(bs: seq<Byte>, i: nat, j: nat)
    requires i <= j <= |bs|
    ensures ToHex(bs)[2 * i..2 * j] == ToHex(bs[i..j])
  {
    var rest := bs[i..];
    var h, hr := ToHex(bs), ToHex(rest);
    ToHexDrop(bs, i);
    ToHexTake(rest, j - i);
    TakeOfDrop(bs, i, j);
    TakeOfDrop(h, 2 * i, 2 * j);
  }

  lemma HexNatOfByte(b: Byte)
    ensures IsLowerHex(HexByte(b)) && HexNat(HexByte(b)) == b
  {
    var h := HexByte(b);
    DigitOfHex(b / 16);
    DigitOfHex(b % 16);
    assert h[..1] == [h[0]] && h[..1][..0] == [];
    assert HexNat(h[..1]) == b / 16;
  }

  lemma {:induction false} ByteAtToHex(bs: seq<Byte>, i: nat)
    requires i < |bs|
    ensures ByteAt(ToHex(bs), i) == bs[i]
  {
    if i == 0 {
      var h := ToHex(bs);
      assert h[..2] == HexByte(bs[0]);
      HexNatOfByte(bs[0]);
    } else {
      ByteAtToHex(bs[1..], i - 1);
      assert ToHex(bs)[2..] == ToHex(bs[1..]);
    }
  }

  lemma {:induction false} XorPrefixToHex(bs: seq<Byte>, n: nat)
    requires n <= |bs|
    ensures XorPrefix(ToHex(bs), n) == XorBytes(bs[..n])
  {
    if n > 0 {
      XorPrefixToHex(bs, n - 1);
      ByteAtToHex(bs, n - 1);
      assert bs[..n][..n - 1] == bs[..n - 1];
    }
  }

  /** Bytes `i` and `i + 1` are spelled by characters `2 * i` to `2 * i + 4`. */
  lemma {:induction false} ToHexPairAt(bs: seq<Byte>, i: nat)
    requires i + 1 < |bs|
    ensures ToHex(bs)[2 * i..2 * i + 4] == HexByte(bs[i]) + HexByte(bs[i + 1])
  {
    if i > 0 {
      ToHexPairAt(bs[1..], i - 1);
      assert ToHex(bs)[2..] == ToHex(bs[1..]);
    } else {
      assert ToHex(bs[1..]) == HexByte(bs[1]) + ToHex(bs[2..]);
    }
  }

  /** Four digits read big-endian: the first byte times 256 plus the second. */
  lemma HexNatPair(x: Byte, y: Byte)
    ensures IsLowerHex(HexByte(x) + HexByte(y)) && HexNat(HexByte(x) + HexByte(y)) == 256 * x + y
  {
    var hx := HexByte(x);
    HexNatOfByte(x);
    DigitOfHex(y / 16);
    DigitOfHex(y % 16);
    var s1 := hx + [HEX_DIGITS[y / 16]];
    HexNatAppend(hx, HEX_DIGITS[y / 16]);
    HexNatAppend(s1, HEX_DIGITS[y % 16]);
    assert s1 + [HEX_DIGITS[y % 16]] == hx + HexByte(y);
  }
}
