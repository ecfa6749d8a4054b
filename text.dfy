/**
 * The JavaScript string built-ins the scheduler relies on, as functions on
 * `seq<char>`: `split` with a one-character separator, `padStart`,
 * `String(n)` of an integer, `replace` with a character
 * class and the global flag, and `Array.prototype.join`.
 */
module Text {

  /** A value that may be missing (`NaN`, no match, an impossible date). */
  datatype Option<T> = None | Some(value: T)

  predicate IsDigit(c: char) { '0' <= c <= '9' }

  /** A text of decimal digits only. */
  predicate AllDigits(s: string) {
    forall i :: 0 <= i < |s| ==> IsDigit(s[i])
  }

  function DigitChar(n: nat): (c: char)
    requires n < 10
    ensures IsDigit(c) && c as int - '0' as int == n
  {
    ('0' as int + n) as char
  }

  function DigitValue(c: char): nat
    requires IsDigit(c)
  {
    c as int - '0' as int
  }

  function Pow10(n: nat): nat
  {
    if n == 0 then 1 else 10 * Pow10(n - 1)
  }

  /** The value of a string of decimal digits, most significant first. */
  function DigitsValue(s: string): nat
    requires AllDigits(s)
  {
    if s == [] then 0 else DigitsValue(s[..|s| - 1]) * 10 + DigitValue(s[|s| - 1])
  }

  /**
   * `String(n)` for a non-negative integer: decimal digits without leading
   * zeros. Reading the digits back gives `n`.
   */
  function NatToDecimal(n: nat): (r: string)
    ensures 1 <= |r|
    ensures AllDigits(r)
    ensures DigitsValue(r) == n
    ensures r[0] == '0' ==> n == 0
  {
    if n < 10 then [DigitChar(n)]
    else
      var r := NatToDecimal(n / 10) + [DigitChar(n % 10)];
      assert r[..|r| - 1] == NatToDecimal(n / 10);
      r
  }

  /** `String(n)` (or template-literal interpolation) of an integer. */
  function IntToDecimal(n: int): (r: string)
    ensures n < 0 <==> (|r| > 0 && r[0] == '-')
    ensures n >= 0 ==> r == NatToDecimal(n)
    ensures n < 0 ==> r[1..] == NatToDecimal(-n)
  {
    if n < 0 then "-" + NatToDecimal(-n) else NatToDecimal(n)
  }

  /** Different integers have different decimal texts. */
  lemma IntToDecimalInjective(a: int, b: int)
    ensures IntToDecimal(a) == IntToDecimal(b) <==> a == b
  {
    if IntToDecimal(a) == IntToDecimal(b) {
      if a < 0 {
        assert IntToDecimal(a)[1..] == IntToDecimal(b)[1..];
        assert DigitsValue(NatToDecimal(-a)) == DigitsValue(NatToDecimal(-b));
      } else {
        assert DigitsValue(NatToDecimal(a)) == DigitsValue(NatToDecimal(b));
      }
    }
  }

  lemma {:induction false} NatToDecimalLength(n: nat, w: nat)
    requires n < Pow10(w)
    ensures |NatToDecimal(n)| <= w || (w == 0 && n == 0)
  {
    if n >= 10 {
      NatToDecimalLength(n / 10, w - 1);
    }
  }

  /** `n` copies of `c`. */
  function Fill(n: nat, c: char): (r: string)
    ensures |r| == n && forall i :: 0 <= i < n ==> r[i] == c
  {
    if n == 0 then [] else Fill(n - 1, c) + [c]
  }

  /** `s.padStart(w, c)` with a one-character filler. */
  function PadStart(s: string, w: nat, c: char): (r: string)
    ensures |s| >= w ==> r == s
    ensures |s| < w ==> |r| == w
    ensures |r| >= |s| && r[|r| - |s|..] == s
    ensures forall i :: 0 <= i < |r| - |s| ==> r[i] == c
  {
    if |s| >= w then s else Fill(w - |s|, c) + s
  }

  lemma {:induction false} LeadingZeros(z: string, s: string)
    requires forall i :: 0 <= i < |z| ==> z[i] == '0'
    requires AllDigits(s)
    ensures AllDigits(z + s)
    ensures DigitsValue(z + s) == DigitsValue(s)
  {
    if s == [] {
      assert z + s == z;
      ZerosValue(z);
    } else {
      var t := z + s;
      assert t[..|t| - 1] == z + s[..|s| - 1];
      LeadingZeros(z, s[..|s| - 1]);
    }
  }

  lemma {:induction false} ZerosValue(z: string)
    requires forall i :: 0 <= i < |z| ==> z[i] == '0'
    ensures AllDigits(z)
    ensures DigitsValue(z) == 0
  {
    if z != [] {
      ZerosValue(z[..|z| - 1]);
    }
  }

  /** Padding digits with zeros keeps them digits of the same value. */
  lemma PadDigits(d: string, w: nat)
    requires AllDigits(d)
    ensures AllDigits(PadStart(d, w, '0'))
    ensures DigitsValue(PadStart(d, w, '0')) == DigitsValue(d)
  {
    if |d| < w {
      var z := Fill(w - |d|, '0');
      assert PadStart(d, w, '0') == z + d;
      LeadingZeros(z, d);
    }
  }

  /**
   * `String(n).padStart(w, '0')`: a field of exactly `w` digits from which
   * `n` reads back, whenever `n` fits in `w` digits.
   */
  function ZeroPad(n: nat, w: nat): (r: string)
    requires 0 < w && n < Pow10(w)
    ensures |r| == w
    ensures AllDigits(r)
    ensures DigitsValue(r) == n
  {
    var d := NatToDecimal(n);
    NatToDecimalLength(n, w);
    PadDigits(d, w);
    PadStart(d, w, '0')
  }

  /**
   * `parts.join(String(sep))`, the inverse of `Split`: `JoinLines` with a
   * one-character separator (`JoinIsJoinLines`), kept free of a contract so
   * that the proofs about `Split` unfold it cheaply.
   */
  function Join(parts: seq<string>, sep: char): string
    requires |parts| >= 1
  {
    if |parts| == 1 then parts[0] else parts[0] + [sep] + Join(parts[1..], sep)
  }

  /** `Join` is `JoinLines` with the separator as a one-character text. */
  lemma {:induction false} JoinIsJoinLines(parts: seq<string>, sep: char)
    requires |parts| >= 1
    ensures Join(parts, sep) == JoinLines(parts, [sep])
  {
    if |parts| > 1 {
      JoinIsJoinLines(parts[1..], sep);
    }
  }

  /**
   * `s.split(sep)` for a one-character separator: the pieces between the
   * occurrences of `sep`, always at least one, none containing `sep`, and
   * joining them with `sep` gives `s` back.
   */
  function Split(s: string, sep: char): (parts: seq<string>)
    ensures |parts| >= 1
    ensures forall i :: 0 <= i < |parts| ==> sep !in parts[i]
    ensures Join(parts, sep) == s
    ensures |parts[0]| <= |s| && parts[0] == s[..|parts[0]|]
  {
    if s == [] then [""]
    else
      var rest := Split(s[1..], sep);
      if s[0] == sep then
        assert ([""] + rest)[1..] == rest;
        [""] + rest
      else
        var parts := [[s[0]] + rest[0]] + rest[1..];
        assert |rest| > 1 ==> parts[1..] == rest[1..];
        parts
  }

  lemma {:induction false} SplitWithoutSeparator(s: string, sep: char)
    requires sep !in s
    ensures Split(s, sep) == [s]
  {
    if s != [] {
      SplitWithoutSeparator(s[1..], sep);
    }
  }

  /** Splitting at the first separator: the text before it is the first piece. */
  lemma {:induction false} SplitAtFirst(a: string, sep: char, d: string)
    requires sep !in a
    ensures Split(a + [sep] + d, sep) == [a] + Split(d, sep)
  {
    var s := a + [sep] + d;
    if a == [] {
      assert s[1..] == d;
    } else {
      assert s[1..] == a[1..] + [sep] + d;
      SplitAtFirst(a[1..], sep, d);
      assert [a[0]] + a[1..] == a;
    }
  }

  /** The right operand of a concatenation is the slice after the left one. */
  lemma RightOfAppend<T>(x: seq<T>, y: seq<T>)
    ensures (x + y)[|x| .. |x| + |y|] == y
  {
  }

  /** A slice within the left operand of a concatenation is a slice of it. */
  lemma LeftOfAppend<T>(x: seq<T>, y: seq<T>, lo: nat, hi: nat)
    requires lo <= hi <= |x|
    ensures (x + y)[lo .. hi] == x[lo .. hi]
  {
  }

  /** The three operands of `a + b + c` are its leading, middle and trailing slices. */
  lemma ThreeParts<T>(a: seq<T>, b: seq<T>, c: seq<T>)
    ensures |a + b + c| == |a| + |b| + |c|
    ensures (a + b + c)[..|a|] == a && (a + b + c)[|a|..|a| + |b|] == b && (a + b + c)[|a| + |b|..] == c
  {
  }

  lemma AppendAssoc<T>(x: seq<T>, y: seq<T>, z: seq<T>)
    ensures (x + y) + z == x + (y + z)
  {
  }

  /** `s.replace(/[...]/g, '')`: `s` with every character of `cs` removed. */
  function RemoveChars(s: string, cs: set<char>): (r: string)
    ensures |r| <= |s|
    ensures forall i :: 0 <= i < |r| ==> r[i] !in cs && r[i] in s
    ensures (forall i :: 0 <= i < |s| ==> s[i] !in cs) ==> r == s
  {
    if s == [] then ""
    else if s[|s| - 1] in cs then RemoveChars(s[..|s| - 1], cs)
    else RemoveChars(s[..|s| - 1], cs) + [s[|s| - 1]]
  }

  lemma {:induction false} RemoveCharsAppend(a: string, b: string, cs: set<char>)
    ensures RemoveChars(a + b, cs) == RemoveChars(a, cs) + RemoveChars(b, cs)
  {
    if b != [] {
      var ab := a + b;
      assert ab[..|ab| - 1] == a + b[..|b| - 1];
      RemoveCharsAppend(a, b[..|b| - 1], cs);
    } else {
      assert a + b == a;
    }
  }

  /** `lines.join(sep)` for a string separator. */
  function JoinLines(lines: seq<string>, sep: string): (r: string)
    ensures lines == [] ==> r == ""
    ensures |lines| == 1 ==> r == lines[0]
    ensures |lines| >= 1 ==> |r| >= |lines[0]| && r[..|lines[0]|] == lines[0]
    ensures |lines| >= 1 ==> |r| >= |lines[|lines| - 1]| && r[|r| - |lines[|lines| - 1]|..] == lines[|lines| - 1]
  {
    if lines == [] then ""
    else if |lines| == 1 then lines[0]
    else lines[0] + sep + JoinLines(lines[1..], sep)
  }

  /**
   * Joining two non-empty runs of lines is joining each and putting one
   * separator between them: with `JoinLines([x], sep) == x` this fixes the
   * joined text as every line in order with `sep` between neighbours.
   */
  lemma {:induction false} JoinLinesAppend(a: seq<string>, b: seq<string>, sep: string)
    requires a != [] && b != []
    ensures JoinLines(a + b, sep) == JoinLines(a, sep) + sep + JoinLines(b, sep)
  {
    var ab := a + b;
    if |a| == 1 {
      assert ab[1..] == b;
    } else {
      var tail := a[1..];
      assert ab[1..] == tail + b;
      JoinLinesAppend(tail, b, sep);
      var x, rest, last := a[0] + sep, JoinLines(tail, sep), JoinLines(b, sep);
      AppendAssoc(x, rest + sep, last);
      AppendAssoc(x, rest, sep);
    }
  }
}
