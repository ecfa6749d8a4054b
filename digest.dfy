/**
 * From a seed string to a 32-bit number: the UTF-8 encoding of
 * `TextEncoder`, the SHA-256 digest (a parameter of the model), the
 * lower-case hex rendering built by `hashString`, and `hashToNumber`, which
 * reads the first eight hex digits with `parseInt(…, 16)`.
 */
module Digest {
  import opened Text

  type byte = x: int | 0 <= x < 256

  /** A SHA-256 digest: exactly 32 bytes. */
  type Digest32 = d: seq<byte> | |d| == 32 witness seq(32, _ => 0)

  /** One scalar value in UTF-8: one byte for ASCII, up to four otherwise. */
  function Utf8Char(c: char): (bs: seq<byte>)
    ensures 1 <= |bs| <= 4
    ensures c as int < 0x80 <==> |bs| == 1
    ensures c as int < 0x80 ==> bs == [c as int]
    ensures |bs| > 1 ==> bs[0] >= 0xC0 && forall i :: 1 <= i < |bs| ==> 0x80 <= bs[i] < 0xC0
  {
    var n := c as int;
    if n < 0x80 then [n]
    else if n < 0x800 then [0xC0 + n / 0x40, 0x80 + n % 0x40]
    else if n < 0x1_0000 then [0xE0 + n / 0x1000, 0x80 + (n / 0x40) % 0x40, 0x80 + n % 0x40]
    else [0xF0 + n / 0x4_0000, 0x80 + (n / 0x1000) % 0x40, 0x80 + (n / 0x40) % 0x40, 0x80 + n % 0x40]
  }

  /**
   * `new TextEncoder().encode(s)`: the characters' UTF-8 sequences one after
   * another; an ASCII string encodes to its own code points.
   */
  function Utf8Encode(s: string): (bs: seq<byte>)
    ensures |s| <= |bs| <= 4 * |s|
    ensures (forall i :: 0 <= i < |s| ==> s[i] as int < 0x80) ==>
              |bs| == |s| && forall i :: 0 <= i < |s| ==> bs[i] == s[i] as int
  {
    if s == [] then []
    else
      var init := s[..|s| - 1];
      assert forall i :: 0 <= i < |init| ==> init[i] == s[i];
      Utf8Encode(init) + Utf8Char(s[|s| - 1])
  }

  predicate IsLowerHexDigit(c: char) { '0' <= c <= '9' || 'a' <= c <= 'f' }

  /** The digits `parseInt(…, 16)` accepts, in either case. */
  predicate IsHexDigit(c: char) { IsLowerHexDigit(c) || 'A' <= c <= 'F' }

  predicate IsLowerHex(s: string) { forall i :: 0 <= i < |s| ==> IsLowerHexDigit(s[i]) }

  lemma LowerHexAppend(h: string, t: string)
    requires IsLowerHex(h) && IsLowerHex(t)
    ensures IsLowerHex(h + t)
  {
    forall i | 0 <= i < |h + t| ensures IsLowerHexDigit((h + t)[i]) {
      if i < |h| { assert (h + t)[i] == h[i]; } else { assert (h + t)[i] == t[i - |h|]; }
    }
  }

  function HexDigit(n: nat): (c: char)
    requires n < 16
    ensures IsLowerHexDigit(c)
  {
    if n < 10 then ('0' as int + n) as char else ('a' as int + n - 10) as char
  }

  function HexDigitValue(c: char): (n: nat)
    requires IsHexDigit(c)
    ensures n < 16
  {
    if '0' <= c <= '9' then c as int - '0' as int
    else if 'a' <= c <= 'f' then c as int - 'a' as int + 10
    else c as int - 'A' as int + 10
  }

  lemma HexDigitRoundTrip(n: nat)
    requires n < 16
    ensures HexDigitValue(HexDigit(n)) == n
  {
  }

  /** The value of a string of hex digits, most significant first. */
  function HexValue(s: string): nat
    requires forall i :: 0 <= i < |s| ==> IsHexDigit(s[i])
  {
    if s == [] then 0 else HexValue(s[..|s| - 1]) * 16 + HexDigitValue(s[|s| - 1])
  }

  /**
   * `n.toString(16)` for a non-negative integer: lower-case hex digits
   * without leading zeros, reading back as `n`.
   */
  function ToRadix16(n: nat): (r: string)
    ensures 1 <= |r| && IsLowerHex(r)
    ensures HexValue(r) == n
    ensures r[0] == '0' ==> n == 0
    ensures n < 16 <==> |r| == 1
    ensures n < 256 ==> |r| <= 2
  {
    if n < 16 then
      HexDigitRoundTrip(n);
      [HexDigit(n)]
    else
      var r := ToRadix16(n / 16) + [HexDigit(n % 16)];
      assert r[..|r| - 1] == ToRadix16(n / 16);
      HexDigitRoundTrip(n % 16);
      r
  }

  /** The two lower-case hex digits of a byte, high nibble first. */
  function ByteHex(b: byte): (r: string)
    ensures |r| == 2 && IsLowerHex(r)
    ensures HexValue(r) == b
  {
    var r := [HexDigit(b / 16), HexDigit(b % 16)];
    HexDigitRoundTrip(b / 16);
    HexDigitRoundTrip(b % 16);
    assert r[..1] == [HexDigit(b / 16)];
    assert [HexDigit(b / 16)][..0] == [];
    assert HexValue(r[..1]) == b / 16;
    r
  }

  /**
   * `b.toString(16).padStart(2, '0')` is the two digits of the byte: the
   * single digit of a byte below 16 gets a leading `0`.
   */
  lemma ByteHexPadded(b: byte)
    ensures PadStart(ToRadix16(b), 2, '0') == ByteHex(b)
  {
    if b < 16 {
      PaddedDigit(b);
    } else {
      TwoDigits(b);
    }
  }

  lemma PaddedDigit(b: byte)
    requires b < 16
    ensures PadStart(ToRadix16(b), 2, '0') == ByteHex(b)
  {
    var x := HexDigit(b);
    assert ToRadix16(b) == [x];
    PadSingle(x);
  }

  lemma PadSingle(x: char)
    ensures PadStart([x], 2, '0') == ['0', x]
  {
    assert Fill(1, '0') == ['0'];
  }

  lemma TwoDigits(b: byte)
    requires b >= 16
    ensures ToRadix16(b) == ByteHex(b)
  {
    var hi := b / 16;
    assert ToRadix16(hi) == [HexDigit(hi)];
  }

  /** The value of bytes read as one big-endian unsigned integer. */
  function BigEndian(bs: seq<byte>): nat
  {
    if bs == [] then 0 else BigEndian(bs[..|bs| - 1]) * 256 + bs[|bs| - 1]
  }

  function Pow256(n: nat): nat
  {
    if n == 0 then 1 else 256 * Pow256(n - 1)
  }

  lemma {:induction false} BigEndianBound(bs: seq<byte>)
    ensures BigEndian(bs) < Pow256(|bs|)
  {
    if bs != [] {
      BigEndianBound(bs[..|bs| - 1]);
    }
  }

  lemma HexValueAppendByte(h: string, b: byte)
    requires IsLowerHex(h)
    ensures IsLowerHex(h + ByteHex(b))
    ensures HexValue(h + ByteHex(b)) == HexValue(h) * 256 + b
  {
    var r := h + ByteHex(b);
    assert r[..|r| - 1] == h + [HexDigit(b / 16)];
    assert (h + [HexDigit(b / 16)])[..|h|] == h;
    HexDigitRoundTrip(b / 16);
    HexDigitRoundTrip(b % 16);
  }

  /**
   * `Array.from(bytes).map(b => …padStart(2, '0')).join('')`: two lower-case
   * hex digits per byte, reading back as the bytes' big-endian value.
   */
  function HexOf(bs: seq<byte>): (r: string)
    ensures |r| == 2 * |bs| && IsLowerHex(r)
  {
    if bs == [] then ""
    else
      var h, t := HexOf(bs[..|bs| - 1]), ByteHex(bs[|bs| - 1]);
      LowerHexAppend(h, t);
      h + t
  }

  /** The hex rendering reads back as the bytes' big-endian value. */
  lemma {:induction false} HexOfValue(bs: seq<byte>)
    ensures HexValue(HexOf(bs)) == BigEndian(bs)
  {
    if bs != [] {
      HexOfValue(bs[..|bs| - 1]);
      HexValueAppendByte(HexOf(bs[..|bs| - 1]), bs[|bs| - 1]);
    }
  }

  /** Byte `i` is rendered, zero-padded, at positions `2 * i` and `2 * i + 1`. */
  lemma {:induction false} HexOfAt(bs: seq<byte>, i: nat)
    requires i < |bs|
    ensures HexOf(bs)[2 * i .. 2 * i + 2] == ByteHex(bs[i])
  {
    var k := |bs| - 1;
    var init := bs[..k];
    var h, t := HexOf(init), ByteHex(bs[k]);
    assert HexOf(bs) == h + t;
    var at := 2 * i;
    if i == k {
      RightOfAppend(h, t);
    } else {
      HexOfAt(init, i);
      LeftOfAppend(h, t, at, at + 2);
      assert init[i] == bs[i];
    }
  }

  lemma {:induction false} HexOfAppend(a: seq<byte>, b: seq<byte>)
    ensures HexOf(a + b) == HexOf(a) + HexOf(b)
    decreases |b|
  {
    if b == [] {
      assert a + b == a;
    } else {
      var front, x := b[..|b| - 1], b[|b| - 1];
      assert b == front + [x];
      assert a + b == (a + front) + [x];
      HexOfSnoc(a + front, x);
      HexOfSnoc(front, x);
      HexOfAppend(a, front);
      AppendAssoc(HexOf(a), HexOf(front), ByteHex(x));
    }
  }

  /** One more byte appends its two digits. */
  lemma HexOfSnoc(p: seq<byte>, x: byte)
    ensures HexOf(p + [x]) == HexOf(p) + ByteHex(x)
  {
    var q := p + [x];
    assert q[..|q| - 1] == p;
    assert q[|q| - 1] == x;
  }

  lemma {:induction false} HexPrefixOfDigits(s: string)
    ensures (forall i :: 0 <= i < |s| ==> IsHexDigit(s[i])) ==> HexPrefix(s) == s
  {
    if s != [] && IsHexDigit(s[0]) {
      HexPrefixOfDigits(s[1..]);
    }
  }

  /** The longest prefix of `s` made of hex digits. */
  function HexPrefix(s: string): (p: string)
    ensures |p| <= |s| && p == s[..|p|]
    ensures forall i :: 0 <= i < |p| ==> IsHexDigit(p[i])
    ensures |p| < |s| ==> !IsHexDigit(s[|p|])
  {
    if s == [] || !IsHexDigit(s[0]) then ""
    else [s[0]] + HexPrefix(s[1..])
  }

  /**
   * `parseInt(s, 16)` on a string that starts without sign, blank or `0x`:
   * the value of the leading hex digits, `None` (NaN) when there are none.
   */
  function ParseIntHex(s: string): (r: Option<nat>)
    ensures r.None? <==> (s == [] || !IsHexDigit(s[0]))
    ensures (forall i :: 0 <= i < |s| ==> IsHexDigit(s[i])) && s != [] ==> r == Some(HexValue(s))
  {
    var p := HexPrefix(s);
    HexPrefixOfDigits(s);
    if p == [] then None else Some(HexValue(p))
  }

  /** `hashToNumber(hash)`: `parseInt(hash.substring(0, 8), 16)`. */
  function HashToNumber(hash: string): (r: Option<nat>)
    ensures hash == [] || !IsHexDigit(hash[0]) <==> r.None?
  {
    var end := if |hash| < 8 then |hash| else 8;
    ParseIntHex(hash[..end])
  }

  /**
   * On the hex rendering of a digest, `hashToNumber` is defined and is the
   * big-endian value of the digest's first four bytes, an unsigned 32-bit
   * integer.
   */
  lemma {:induction false} HashToNumberOfDigest(d: Digest32)
    ensures HashToNumber(HexOf(d)) == Some(BigEndian(d[..4]))
    ensures BigEndian(d[..4]) < 0x1_0000_0000
  {
    var h, p := HexOf(d), d[..4];
    assert HashToNumber(h) == ParseIntHex(h[..8]);
    HexOfPrefix(d, 4);
    ParseHexOfBytes(p);
    Uint32Bound(p);
  }

  /** Four bytes read big-endian make an unsigned 32-bit integer. */
  lemma Uint32Bound(p: seq<byte>)
    requires |p| == 4
    ensures BigEndian(p) < 0x1_0000_0000
  {
    BigEndianBound(p);
    assert Pow256(4) == 0x1_0000_0000 by {
      assert Pow256(1) == 256;
      assert Pow256(2) == 0x1_0000;
      assert Pow256(3) == 0x100_0000;
    }
  }

  lemma {:induction false} HexOfPrefix(bs: seq<byte>, k: nat)
    requires k <= |bs|
    ensures HexOf(bs)[..2 * k] == HexOf(bs[..k])
  {
    assert bs == bs[..k] + bs[k..];
    HexOfAppend(bs[..k], bs[k..]);
  }

  lemma ParseHexOfBytes(bs: seq<byte>)
    requires bs != []
    ensures ParseIntHex(HexOf(bs)) == Some(BigEndian(bs))
  {
    HexOfValue(bs);
  }

  /**
   * `hashString(s)`: the hex rendering of the SHA-256 digest of the UTF-8
   * encoding of `s`; always 64 lower-case hex digits.
   */
  function HashString(sha256: seq<byte> -> Digest32, s: string): (h: string)
    ensures |h| == 64 && IsLowerHex(h)
  {
    HexOf(sha256(Utf8Encode(s)))
  }
}
