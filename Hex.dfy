/**
 * The hexadecimal and address codec shared by the encoder and the parser:
 * nibble <-> upper-case hex character, one byte as two characters, and the
 * fixed-width 3-character (standard) and 8-character (extended) addresses.
 * Only upper-case hex digits are valid on the wire.
 */
module Hex {

  /** An unsigned 8-bit value (`uint8_t`). */
  type byte = x: int | 0 <= x < 0x100

  /** An unsigned 32-bit value (`uint32_t`). */
  type uint32 = x: int | 0 <= x < 0x1_0000_0000

  /** What `charToNibble` returns for a character that is not a hex digit. */
  const Invalid: nat := 0xFF

  predicate IsHexDigit(c: char) {
    ('0' <= c <= '9') || ('A' <= c <= 'F')
  }

  predicate AllHex(s: seq<char>) {
    forall k | 0 <= k < |s| :: IsHexDigit(s[k])
  }

  /** The digit for a nibble: '0'..'9' for 0..9 and 'A'..'F' for 10..15. */
  function NibbleToChar(n: nat): (c: char)
    requires n < 16
    ensures IsHexDigit(c)
    ensures n < 10 ==> c as int == '0' as int + n
    ensures 10 <= n ==> c as int == 'A' as int + (n - 10)
  {
    if n < 10 then ('0' as int + n) as char else ('A' as int + (n - 10)) as char
  }

  /** The nibble an upper-case hex digit stands for; `Invalid` for any other
      character, lower-case 'a'..'f' included. */
  function CharToNibble(c: char): (n: nat)
    ensures IsHexDigit(c) <==> n < 16
    ensures !IsHexDigit(c) ==> n == Invalid
    ensures '0' <= c <= '9' ==> n == c as int - '0' as int
    ensures 'A' <= c <= 'F' ==> n == c as int - 'A' as int + 10
  {
    if '0' <= c <= '9' then c as int - '0' as int
    else if 'A' <= c <= 'F' then c as int - 'A' as int + 10
    else Invalid
  }

  lemma NibbleRoundTrip(n: nat)
    requires n < 16
    ensures CharToNibble(NibbleToChar(n)) == n
  {
  }

  lemma CharRoundTrip(c: char)
    requires CharToNibble(c) != Invalid
    ensures NibbleToChar(CharToNibble(c)) == c
  {
  }

  /** Two characters for one byte, high nibble first. */
  function HexByte(b: byte): (h: seq<char>)
    ensures |h| == 2 && AllHex(h)
    ensures CharToNibble(h[0]) * 16 + CharToNibble(h[1]) == b
  {
    [NibbleToChar(b / 0x10), NibbleToChar(b % 0x10)]
  }

  /** Two hex digits, read as a byte, are written back as themselves. */
  lemma HexByteOfDigits(hi: char, lo: char)
    requires IsHexDigit(hi) && IsHexDigit(lo)
    ensures CharToNibble(hi) * 16 + CharToNibble(lo) < 0x100
    ensures HexByte(CharToNibble(hi) * 16 + CharToNibble(lo)) == [hi, lo]
  {
    var b := CharToNibble(hi) * 16 + CharToNibble(lo);
    assert b / 0x10 == CharToNibble(hi) && b % 0x10 == CharToNibble(lo);
    CharRoundTrip(hi);
    CharRoundTrip(lo);
  }

  /** The characters of a byte stream: byte i at positions 2i and 2i+1. */
  function HexStream(data: seq<byte>): (h: seq<char>)
    ensures |h| == 2 * |data| && AllHex(h)
  {
    if data == [] then [] else HexByte(data[0]) + HexStream(data[1..])
  }

  /** Byte i sits at positions 2i and 2i + 1, high nibble first. */
  lemma {:induction false} HexStreamAt(data: seq<byte>, i: nat)
    requires i < |data|
    ensures HexStream(data)[2 * i..2 * i + 2] == HexByte(data[i])
  {
    if i > 0 {
      HexStreamAt(data[1..], i - 1);
      assert HexStream(data)[2 * i..2 * i + 2] == HexStream(data[1..])[2 * (i - 1)..2 * (i - 1) + 2];
    }
  }

  lemma {:induction false} HexStreamAppend(a: seq<byte>, b: seq<byte>)
    ensures HexStream(a + b) == HexStream(a) + HexStream(b)
  {
    if a == [] {
      assert a + b == b;
    } else {
      assert (a + b)[1..] == a[1..] + b;
      HexStreamAppend(a[1..], b);
    }
  }

  function Pow16(w: nat): (p: nat)
    ensures p > 0
  {
    if w == 0 then 1 else 16 * Pow16(w - 1)
  }

  /** Reference definition of a fixed-width big-endian hex rendering: the
      low `w` nibbles of `a`, most significant first. */
  function HexDigits(a: nat, w: nat): (h: seq<char>)
    ensures |h| == w && AllHex(h)
  {
    if w == 0 then [] else HexDigits(a / 16, w - 1) + [NibbleToChar(a % 16)]
  }

  /** The big-endian value of a run of hex digits. */
  function HexValue(s: seq<char>): (v: nat)
    requires AllHex(s)
    ensures v < Pow16(|s|)
  {
    if s == [] then 0 else HexValue(s[..|s| - 1]) * 16 + CharToNibble(s[|s| - 1])
  }

  lemma {:induction false} ValueOfDigits(a: nat, w: nat)
    requires a < Pow16(w)
    ensures HexValue(HexDigits(a, w)) == a
  {
    if w > 0 {
      var h := HexDigits(a, w);
      var q, r := a / 16, a % 16;
      assert HexValue(h[..w - 1]) == q by {
        assert h[..w - 1] == HexDigits(q, w - 1);
        ValueOfDigits(q, w - 1);
      }
      assert CharToNibble(h[w - 1]) == r by {
        NibbleRoundTrip(r);
      }
      assert q * 16 + r == a;
    }
  }

  lemma {:induction false} DigitsOfValue(s: seq<char>)
    requires AllHex(s)
    ensures HexDigits(HexValue(s), |s|) == s
  {
    if s != [] {
      var init := s[..|s| - 1];
      var v := HexValue(s);
      assert v / 16 == HexValue(init);
      assert v % 16 == CharToNibble(s[|s| - 1]);
      DigitsOfValue(init);
      CharRoundTrip(s[|s| - 1]);
      assert s == init + [s[|s| - 1]];
    }
  }

  /** Two hex-digit strings of the same width with the same value are equal. */
  lemma HexValueInjective(s: seq<char>, t: seq<char>)
    requires AllHex(s) && AllHex(t) && |s| == |t|
    requires HexValue(s) == HexValue(t)
    ensures s == t
  {
    DigitsOfValue(s);
    DigitsOfValue(t);
  }

  /** Bits 11..0 of `address`, as `encodeAddress` writes them. */
  function AddressHex(address: uint32): (h: seq<char>)
    ensures |h| == 3 && AllHex(h)
  {
    [ NibbleToChar((address / 0x100) % 0x10),
      NibbleToChar((address / 0x10) % 0x10),
      NibbleToChar(address % 0x10) ]
  }

  /** Bits 31..0 of `address`, as `encodeExtendedAddress` writes them. */
  function ExtAddressHex(address: uint32): (h: seq<char>)
    ensures |h| == 8 && AllHex(h)
  {
    [ NibbleToChar((address / 0x1000_0000) % 0x10),
      NibbleToChar((address / 0x100_0000) % 0x10),
      NibbleToChar((address / 0x10_0000) % 0x10),
      NibbleToChar((address / 0x1_0000) % 0x10),
      NibbleToChar((address / 0x1000) % 0x10),
      NibbleToChar((address / 0x100) % 0x10),
      NibbleToChar((address / 0x10) % 0x10),
      NibbleToChar(address % 0x10) ]
  }

  /** `encodeAddress` writes the three low nibbles, most significant first. */
  lemma AddressHexIsDigits(address: uint32)
    ensures AddressHex(address) == HexDigits(address, 3)
  {
    var a0 := address;
    var a1 := a0 / 16;
    var a2 := a1 / 16;
    assert a2 == address / 0x100;
    assert HexDigits(a2, 1) == [NibbleToChar(a2 % 16)];
    assert HexDigits(a1, 2) == HexDigits(a2, 1) + [NibbleToChar(a1 % 16)];
    assert HexDigits(a0, 3) == HexDigits(a1, 2) + [NibbleToChar(a0 % 16)];
  }

  /** `encodeExtendedAddress` writes all eight nibbles, most significant first. */
  lemma ExtAddressHexIsDigits(address: uint32)
    ensures ExtAddressHex(address) == HexDigits(address, 8)
  {
    var a0 := address;
    var a1 := a0 / 16;
    var a2 := a1 / 16;
    var a3 := a2 / 16;
    var a4 := a3 / 16;
    var a5 := a4 / 16;
    var a6 := a5 / 16;
    var a7 := a6 / 16;
    assert a2 == address / 0x100;
    assert a3 == address / 0x1000;
    assert a4 == address / 0x1_0000;
    assert a5 == address / 0x10_0000;
    assert a6 == address / 0x100_0000;
    assert a7 == address / 0x1000_0000;
    var n7, n6, n5, n4 := NibbleToChar(a7 % 16), NibbleToChar(a6 % 16), NibbleToChar(a5 % 16), NibbleToChar(a4 % 16);
    var n3, n2, n1, n0 := NibbleToChar(a3 % 16), NibbleToChar(a2 % 16), NibbleToChar(a1 % 16), NibbleToChar(a0 % 16);
    assert HexDigits(a7, 1) == [n7];
    assert HexDigits(a6, 2) == [n7, n6];
    assert HexDigits(a5, 3) == [n7, n6, n5];
    assert HexDigits(a4, 4) == [n7, n6, n5, n4];
    assert HexDigits(a3, 5) == [n7, n6, n5, n4, n3];
    assert HexDigits(a2, 6) == [n7, n6, n5, n4, n3, n2];
    assert HexDigits(a1, 7) == [n7, n6, n5, n4, n3, n2, n1];
    assert HexDigits(a0, 8) == [n7, n6, n5, n4, n3, n2, n1, n0];
  }

  /** A write that changed exactly `after[at..at + |piece|]` to `piece`. */
  lemma SpliceFromPoints(before: seq<char>, after: seq<char>, at: nat, piece: seq<char>)
    requires |after| == |before| && at + |piece| <= |before|
    requires forall k | 0 <= k < |before| && (k < at || at + |piece| <= k) :: after[k] == before[k]
    requires forall k | 0 <= k < |piece| :: after[at + k] == piece[k]
    ensures after == before[..at] + piece + before[at + |piece|..]
  {
  }

  /** Writes `HexByte(b)` into `dest[at..at + 2]` and nothing else. */
  method EncodeHexByte(b: byte, dest: array<char>, at: nat)
    requires at + 2 <= dest.Length
    modifies dest
    ensures dest[..] == old(dest[..])[..at] + HexByte(b) + old(dest[..])[at + 2..]
  {
    dest[at] := NibbleToChar(b / 0x10);
    dest[at + 1] := NibbleToChar(b % 0x10);
    SpliceFromPoints(old(dest[..]), dest[..], at, HexByte(b));
  }

  /** Writes the three characters of `AddressHex(address)` at `dest[at..]`. */
  method EncodeAddress(address: uint32, dest: array<char>, at: nat)
    requires at + 3 <= dest.Length
    modifies dest
    ensures dest[..] == old(dest[..])[..at] + AddressHex(address) + old(dest[..])[at + 3..]
  {
    dest[at] := NibbleToChar((address / 0x100) % 0x10);
    dest[at + 1] := NibbleToChar((address / 0x10) % 0x10);
    dest[at + 2] := NibbleToChar(address % 0x10);
    SpliceFromPoints(old(dest[..]), dest[..], at, AddressHex(address));
  }

  /** Writes the eight characters of `ExtAddressHex(address)` at `dest[at..]`. */
  method EncodeExtendedAddress(address: uint32, dest: array<char>, at: nat)
    requires at + 8 <= dest.Length
    modifies dest
    ensures dest[..] == old(dest[..])[..at] + ExtAddressHex(address) + old(dest[..])[at + 8..]
  {
    dest[at] := NibbleToChar((address / 0x1000_0000) % 0x10);
    dest[at + 1] := NibbleToChar((address / 0x100_0000) % 0x10);
    dest[at + 2] := NibbleToChar((address / 0x10_0000) % 0x10);
    dest[at + 3] := NibbleToChar((address / 0x1_0000) % 0x10);
    dest[at + 4] := NibbleToChar((address / 0x1000) % 0x10);
    dest[at + 5] := NibbleToChar((address / 0x100) % 0x10);
    dest[at + 6] := NibbleToChar((address / 0x10) % 0x10);
    dest[at + 7] := NibbleToChar(address % 0x10);
    SpliceFromPoints(old(dest[..]), dest[..], at, ExtAddressHex(address));
  }

  /** Writing `piece` right after `done` extends the written run by `piece`. */
  lemma Splice(orig: seq<char>, at: nat, done: seq<char>, piece: seq<char>, before: seq<char>, after: seq<char>)
    requires at + |done| + |piece| <= |orig|
    requires before == orig[..at] + done + orig[at + |done|..]
    requires after == before[..at + |done|] + piece + before[at + |done| + |piece|..]
    ensures after == orig[..at] + (done + piece) + orig[at + |done| + |piece|..]
  {
    assert before[..at + |done|] == orig[..at] + done;
    assert before[at + |done| + |piece|..] == orig[at + |done| + |piece|..];
  }

  /** A piece written at the very start is the head of the result. */
  lemma SpliceHead(orig: seq<char>, piece: seq<char>, after: seq<char>)
    requires |piece| <= |orig| && after == orig[..0] + piece + orig[|piece|..]
    ensures after[..|piece|] == piece
  {
    assert orig[..0] + piece == piece;
  }

  /** The digits of the first i + 1 bytes are those of the first i and then
      those of byte i. */
  lemma HexStreamSnoc(data: seq<byte>, i: nat)
    requires i < |data|
    ensures HexStream(data[..i + 1]) == HexStream(data[..i]) + HexByte(data[i])
  {
    HexStreamAppend(data[..i], [data[i]]);
    assert data[..i + 1] == data[..i] + [data[i]];
    assert HexStream([data[i]]) == HexByte(data[i]) + HexStream([]);
  }

  /** Writes `HexStream(data)` into `dest[at..at + 2 * |data|]` and nothing else. */
  method EncodeHexStream(data: seq<byte>, dest: array<char>, at: nat)
    requires at + 2 * |data| <= dest.Length
    modifies dest
    ensures dest[..] == old(dest[..])[..at] + HexStream(data) + old(dest[..])[at + 2 * |data|..]
  {
    ghost var orig := dest[..];
    for i := 0 to |data|
      invariant dest[..] == orig[..at] + HexStream(data[..i]) + orig[at + 2 * i..]
    {
      var j := at + 2 * i;
      ghost var before := dest[..];
      EncodeHexByte(data[i], dest, j);
      HexStreamSnoc(data, i);
      Splice(orig, at, HexStream(data[..i]), HexByte(data[i]), before, dest[..]);
    }
    assert data[..|data|] == data;
  }
}
