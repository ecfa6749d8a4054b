/**
 * Normalisation and validation of the two participant addresses
 * (`value.trim().toLowerCase()` and `isValidEmail`), and the two checks
 * `generateSchedule` makes before it touches any state.
 */
module Email {
  import opened Text

  /**
   * The characters that `String.prototype.trim` strips and that the regular
   * expression class `\s` matches: the ECMAScript WhiteSpace and
   * LineTerminator code points.
   */
  predicate IsWhitespace(c: char) {
    c == '\t' || c == '\n' || c == '\U{000B}' || c == '\U{000C}' || c == '\r' || c == ' '
    || c == '\U{00A0}' || c == '\U{1680}' || ('\U{2000}' <= c <= '\U{200A}')
    || c == '\U{2028}' || c == '\U{2029}' || c == '\U{202F}' || c == '\U{205F}'
    || c == '\U{3000}' || c == '\U{FEFF}'
  }

  function TrimStart(s: string): (r: string)
    ensures |r| <= |s| && r == s[|s| - |r|..]
    ensures forall k :: 0 <= k < |s| - |r| ==> IsWhitespace(s[k])
    ensures r == [] || !IsWhitespace(r[0])
  {
    if s != [] && IsWhitespace(s[0]) then TrimStart(s[1..]) else s
  }

  function TrimEnd(s: string): (r: string)
    ensures |r| <= |s| && r == s[..|r|]
    ensures forall k :: |r| <= k < |s| ==> IsWhitespace(s[k])
    ensures r == [] || !IsWhitespace(r[|r| - 1])
  {
    if s != [] && IsWhitespace(s[|s| - 1]) then TrimEnd(s[..|s| - 1]) else s
  }

  /** How many whitespace characters `s.trim()` cuts from the front of `s`. */
  function LeadingWhitespace(s: string): (n: nat)
    ensures n <= |s|
  {
    |s| - |TrimStart(s)|
  }

  /**
   * `s.trim()`: a contiguous slice of `s` that neither starts nor ends with
   * whitespace, everything cut off on either side being whitespace.
   */
  function Trim(s: string): (r: string)
    ensures r == [] || (!IsWhitespace(r[0]) && !IsWhitespace(r[|r| - 1]))
    ensures LeadingWhitespace(s) + |r| <= |s|
    ensures r == s[LeadingWhitespace(s)..LeadingWhitespace(s) + |r|]
    ensures forall k :: 0 <= k < LeadingWhitespace(s) ==> IsWhitespace(s[k])
    ensures forall k :: LeadingWhitespace(s) + |r| <= k < |s| ==> IsWhitespace(s[k])
  {
    var t := TrimStart(s);
    var r := TrimEnd(t);
    var i := |s| - |t|;
    assert r == s[i..i + |r|];
    r
  }

  lemma TrimIdempotent(s: string)
    ensures Trim(Trim(s)) == Trim(s)
  {
    var r := Trim(s);
    TrimUnchanged(r);
  }

  lemma TrimUnchanged(s: string)
    requires s == [] || (!IsWhitespace(s[0]) && !IsWhitespace(s[|s| - 1]))
    ensures Trim(s) == s
  {
  }

  function LowerChar(c: char): (d: char)
    ensures 'A' <= c <= 'Z' ==> d as int == c as int + 32
    ensures !('A' <= c <= 'Z') ==> d == c
  {
    if 'A' <= c <= 'Z' then (c as int + 32) as char else c
  }

  /**
   * `s.toLowerCase()` on the ASCII letters: the same length, no upper-case
   * ASCII letter left, every other character kept.
   */
  function ToLower(s: string): (r: string)
    ensures |r| == |s|
    ensures forall i :: 0 <= i < |r| ==> !('A' <= r[i] <= 'Z')
    ensures forall i :: 0 <= i < |r| ==> (r[i] == s[i] || 'A' <= s[i] <= 'Z')
    ensures forall i :: 0 <= i < |r| && 'A' <= s[i] <= 'Z' ==> r[i] as int == s[i] as int + 32
    ensures forall i :: 0 <= i < |r| ==> (IsWhitespace(r[i]) <==> IsWhitespace(s[i]))
  {
    seq(|s|, i requires 0 <= i < |s| => LowerChar(s[i]))
  }

  lemma ToLowerKeepsLowerCase(s: string)
    requires forall i :: 0 <= i < |s| ==> !('A' <= s[i] <= 'Z')
    ensures ToLower(s) == s
  {
  }

  lemma ToLowerIdempotent(s: string)
    ensures ToLower(ToLower(s)) == ToLower(s)
  {
  }

  /** `value.trim().toLowerCase()`, as applied to each form field. */
  function Normalize(raw: string): (e: string)
    ensures e == [] || (!IsWhitespace(e[0]) && !IsWhitespace(e[|e| - 1]))
    ensures forall i :: 0 <= i < |e| ==> !('A' <= e[i] <= 'Z')
  {
    ToLower(Trim(raw))
  }

  /** A character of the class `[^\s@]`. */
  predicate Plain(c: char) { c != '@' && !IsWhitespace(c) }

  /** A match of `[^\s@]+`. */
  predicate PlainRun(s: string) {
    |s| > 0 && forall i :: 0 <= i < |s| ==> Plain(s[i])
  }

  /**
   * The language of `^[^\s@]+@[^\s@]+\.[^\s@]+$`, read off the pattern: a
   * run, `@`, a run, `.`, a run (`.` itself is plain, so the middle and last
   * runs may hold further dots).
   */
  ghost predicate MatchesEmailPattern(s: string) {
    exists a, b, c :: PlainRun(a) && PlainRun(b) && PlainRun(c) && s == a + "@" + b + "." + c
  }

  /** A dot with at least one character on each side. */
  predicate HasInnerDot(d: string) {
    exists k :: 0 < k < |d| - 1 && d[k] == '.'
  }

  /**
   * `isValidEmail(s)`: the regular-expression test decided by splitting at
   * `@` — no whitespace, exactly one `@`, a non-empty local part and a
   * domain with an inner dot. Equivalent to the pattern's language.
   */
  function IsValidEmail(s: string): (ok: bool)
    ensures ok <==> MatchesEmailPattern(s)
  {
    ValidIffMatches(s);
    SplitShaped(s)
  }

  /** The regular-expression test as decided from the `@`-split of `s`. */
  predicate SplitShaped(s: string) {
    var parts := Split(s, '@');
    (forall i :: 0 <= i < |s| ==> !IsWhitespace(s[i]))
      && |parts| == 2 && parts[0] != [] && HasInnerDot(parts[1])
  }

  lemma ValidIffMatches(s: string)
    ensures MatchesEmailPattern(s) <==> SplitShaped(s)
  {
    if MatchesEmailPattern(s) {
      MatchIsSplitShaped(s);
    }
    if SplitShaped(s) {
      SplitShapedMatches(s);
    }
  }

  lemma MatchIsSplitShaped(s: string)
    requires MatchesEmailPattern(s)
    ensures SplitShaped(s)
  {
    var a, b, c :| PlainRun(a) && PlainRun(b) && PlainRun(c) && s == a + "@" + b + "." + c;
    var d := b + "." + c;
    assert s == a + ['@'] + d;
    DottedPlain(b, c);
    AtJoinShaped(a, d);
  }

  /** `b.c` of two runs is plain throughout and has an inner dot. */
  lemma DottedPlain(b: string, c: string)
    requires PlainRun(b) && PlainRun(c)
    ensures var d := b + "." + c; (forall i :: 0 <= i < |d| ==> Plain(d[i])) && HasInnerDot(d)
  {
    var d := b + "." + c;
    forall i | 0 <= i < |d| ensures Plain(d[i]) {
      if i < |b| { assert d[i] == b[i]; }
      else if i > |b| { assert d[i] == c[i - |b| - 1]; }
    }
    assert d[|b|] == '.';
  }

  /** A run, `@` and a plain domain with an inner dot split into exactly those two parts. */
  lemma AtJoinShaped(a: string, d: string)
    requires PlainRun(a) && HasInnerDot(d)
    requires forall i :: 0 <= i < |d| ==> Plain(d[i])
    ensures SplitShaped(a + ['@'] + d)
  {
    AtSplitTwo(a, d);
    PlainAroundAt(a, d);
  }

  lemma AtSplitTwo(a: string, d: string)
    requires forall i :: 0 <= i < |a| ==> Plain(a[i])
    requires forall i :: 0 <= i < |d| ==> Plain(d[i])
    ensures Split(a + ['@'] + d, '@') == [a, d]
  {
    assert '@' !in a by { assert forall i :: 0 <= i < |a| ==> a[i] != '@'; }
    assert '@' !in d by { assert forall i :: 0 <= i < |d| ==> d[i] != '@'; }
    SplitAtFirst(a, '@', d);
    SplitWithoutSeparator(d, '@');
  }

  lemma PlainAroundAt(a: string, d: string)
    requires forall i :: 0 <= i < |a| ==> Plain(a[i])
    requires forall i :: 0 <= i < |d| ==> Plain(d[i])
    ensures var s := a + ['@'] + d; forall i :: 0 <= i < |s| ==> !IsWhitespace(s[i])
  {
    var s := a + ['@'] + d;
    forall i | 0 <= i < |s| ensures !IsWhitespace(s[i]) {
      if i < |a| { assert s[i] == a[i]; }
      else if i > |a| { assert s[i] == d[i - |a| - 1]; }
    }
  }

  lemma SplitShapedMatches(s: string)
    requires SplitShaped(s)
    ensures MatchesEmailPattern(s)
  {
    var parts := Split(s, '@');
    var a, d := parts[0], parts[1];
    assert parts[1..] == [d];
    assert Join(parts[1..], '@') == d;
    assert s == a + ['@'] + d;
    var k :| 0 < k < |d| - 1 && d[k] == '.';
    var b, c := d[..k], d[k + 1..];
    assert d == b + "." + c;
    assert s == a + "@" + b + "." + c;
    forall i | 0 <= i < |a| ensures Plain(a[i]) { assert a[i] == s[i]; }
    forall i | 0 <= i < |d| ensures Plain(d[i]) { assert d[i] == s[|a| + 1 + i]; }
    assert PlainRun(b) by { forall i | 0 <= i < |b| ensures Plain(b[i]) { assert b[i] == d[i]; } }
    assert PlainRun(c) by { forall i | 0 <= i < |c| ensures Plain(c[i]) { assert c[i] == d[k + 1 + i]; } }
  }

  /** Why `generateSchedule` stops early. */
  datatype InputError =
    | MissingEmail  // either field is empty after trimming
    | InvalidEmail  // either field fails `isValidEmail`

  datatype Checked = Accepted(email1: string, email2: string) | Rejected(error: InputError)

  /**
   * The checks at the head of `generateSchedule`, in their order: emptiness
   * first, then the pattern; on success the normalised addresses.
   */
  function CheckInputs(raw1: string, raw2: string): (r: Checked)
    ensures r.Rejected? <==> !IsValidEmail(Normalize(raw1)) || !IsValidEmail(Normalize(raw2))
    ensures r == Rejected(MissingEmail) <==> Normalize(raw1) == [] || Normalize(raw2) == []
    ensures r.Accepted? ==>
              r.email1 == Normalize(raw1) && r.email2 == Normalize(raw2)
              && MatchesEmailPattern(r.email1) && MatchesEmailPattern(r.email2)
  {
    var e1, e2 := Normalize(raw1), Normalize(raw2);
    if e1 == [] || e2 == [] then Rejected(MissingEmail)
    else if !IsValidEmail(e1) || !IsValidEmail(e2) then Rejected(InvalidEmail)
    else Accepted(e1, e2)
  }

  /** Two empty fields are rejected as missing. */
  lemma EmptyRejected()
    ensures CheckInputs("", "") == Rejected(MissingEmail)
  {
  }

  /** `"not-an-email"`, which has no `@`, is rejected as invalid, whatever the other address is. */
  lemma NoAtRejected(other: string)
    requires Normalize(other) != []
    ensures CheckInputs("not-an-email", other) == Rejected(InvalidEmail)
  {
    NotAnEmailNormal();
    AtlessRejected("not-an-email", other);
  }

  lemma NotAnEmailNormal()
    ensures Normalize("not-an-email") == "not-an-email" && '@' !in "not-an-email"
  {
    var e := "not-an-email";
    assert e[0] == 'n' && e[|e| - 1] == 'l';
    TrimUnchanged(e);
    ToLowerKeepsLowerCase(e);
  }

  /** A normalised address without `@` is rejected as invalid, whatever the other one is. */
  lemma AtlessRejected(e: string, other: string)
    requires Normalize(e) == e && e != [] && '@' !in e
    requires Normalize(other) != []
    ensures CheckInputs(e, other) == Rejected(InvalidEmail)
  {
    SplitWithoutSeparator(e, '@');
    assert !SplitShaped(e);
  }

  /** `email.split('@')[0]`: the text before the first `@`, or all of it. */
  function Username(email: string): (u: string)
    ensures |u| <= |email| && u == email[..|u|]
    ensures '@' !in u
    ensures |u| < |email| ==> email[|u|] == '@'
  {
    var parts := Split(email, '@');
    assert |parts| > 1 ==> email == parts[0] + ['@'] + Join(parts[1..], '@');
    parts[0]
  }
}
