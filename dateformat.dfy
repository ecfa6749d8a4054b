/**
 * `Date.prototype.toISOString` and the compact UTC stamp that
 * `formatDateForICS` and `formatDateForGoogle` cut out of it (both are the
 * same expression): the basic format `YYYYMMDDTHHMMSSZ` of ISO 8601 that
 * iCalendar DATE-TIME values use (section 3.3.5 of RFC 5545), and the
 * `start/end` pair of a Google Calendar link.
 */
module DateFormat {
  import opened Text
  import opened Calendar

  lemma Pow10Small()
    ensures Pow10(2) == 100 && Pow10(3) == 1000 && Pow10(4) == 10000
  {
  }

  /** `String(n).padStart(2, '0')` for the two-digit fields. */
  function Two(n: nat): (r: string)
    requires n < 100
    ensures |r| == 2 && AllDigits(r) && DigitsValue(r) == n
  {
    Pow10Small();
    ZeroPad(n, 2)
  }

  /**
   * The year as `toISOString` prints it: four digits for years 0 to 9999,
   * otherwise a sign and at least six digits (the expanded years of the
   * date time string format of ECMA-262).
   */
  function YearField(year: int): (r: string)
    ensures 0 <= year <= 9999 ==> |r| == 4 && AllDigits(r) && DigitsValue(r) == year
    ensures !(0 <= year <= 9999) ==>
              |r| >= 7 && r[0] == (if year < 0 then '-' else '+') && AllDigits(r[1..])
    ensures forall i :: 0 <= i < |r| ==> IsDigit(r[i]) || r[i] == '-' || r[i] == '+'
  {
    Pow10Small();
    if 0 <= year <= 9999 then ZeroPad(year, 4)
    else
      var digits := PadStart(NatToDecimal(if year < 0 then -year else year), 6, '0');
      PadDigits(NatToDecimal(if year < 0 then -year else year), 6);
      Signed(if year < 0 then '-' else '+', digits)
  }

  /** A sign followed by digits. */
  function Signed(sign: char, digits: string): (r: string)
    requires AllDigits(digits)
    ensures |r| == |digits| + 1 && r[0] == sign && r[1..] == digits
    ensures forall i :: 0 <= i < |r| ==> IsDigit(r[i]) || r[i] == sign
  {
    [sign] + digits
  }

  /** `YYYY-MM-DD`. */
  function IsoDate(f: DateTime): string
    requires ValidDateTime(f)
  {
    YearField(f.year) + "-" + Two(f.month) + "-" + Two(f.day)
  }

  /** `HH:mm:ss`. */
  function IsoTime(f: DateTime): string
    requires ValidDateTime(f)
  {
    Two(f.hour) + ":" + Two(f.minute) + ":" + Two(f.second)
  }

  /** `.sssZ`. */
  function IsoFraction(f: DateTime): string
    requires ValidDateTime(f)
  {
    Pow10Small();
    ['.'] + (ZeroPad(f.ms, 3) + "Z")
  }

  /** `YYYY-MM-DDTHH:mm:ss.sssZ`. */
  function IsoString(f: DateTime): string
    requires ValidDateTime(f)
  {
    IsoDate(f) + "T" + IsoTime(f) + IsoFraction(f)
  }

  /**
   * `date.toISOString()`: the ISO string of the UTC fields of `t`. Whatever
   * the year, it ends in `THH:mm:ss.sssZ`, and the `.` before the
   * milliseconds is its only `.`, which is where `split('.')` cuts it.
   */
  function ToIsoString(t: int): (r: string)
    ensures TimeTail(r)
    ensures '.' !in r[..|r| - 5]
  {
    var f := Decompose(t);
    IsoTail(f);
    IsoString(f)
  }

  /**
   * The last 14 characters are `THH:mm:ss.sssZ`: the marks in place and
   * digits between them, after at least ten characters of date.
   */
  predicate TimeTail(r: string) {
    |r| >= 24 && r[|r| - 14] == 'T' && r[|r| - 11] == ':' && r[|r| - 8] == ':'
    && r[|r| - 5] == '.' && r[|r| - 1] == 'Z'
    && forall i :: |r| - 14 < i < |r| - 1 && i != |r| - 11 && i != |r| - 8 && i != |r| - 5 ==> IsDigit(r[i])
  }

  /** A date of at least ten characters, `T`, a time `HH:mm:ss` and `.sssZ`. */
  lemma TimeTailJoined(d: string, h: string, mi: string, s: string, z: string)
    requires |d| >= 10 && |h| == 2 && |mi| == 2 && |s| == 2 && |z| == 3
    requires AllDigits(h) && AllDigits(mi) && AllDigits(s) && AllDigits(z)
    ensures TimeTail(d + "T" + (h + ":" + mi + ":" + s) + (['.'] + (z + "Z")))
  {
    var m := h + ":" + mi + ":" + s;
    DigitsAround(h, ':', mi, ':', s);
    var r := d + "T" + m + (['.'] + (z + "Z"));
    var n := |d|;
    forall i | |r| - 14 < i < |r| - 1 && i != |r| - 11 && i != |r| - 8 && i != |r| - 5
      ensures IsDigit(r[i])
    {
      if i < n + 9 {
        assert r[i] == m[i - n - 1];
      } else {
        assert r[i] == z[i - n - 10];
      }
    }
    assert r[n] == 'T' && r[n + 3] == m[2] && r[n + 6] == m[5] && r[n + 9] == '.';
  }

  lemma IsoTail(f: DateTime)
    requires ValidDateTime(f)
    ensures var r := IsoString(f); TimeTail(r) && '.' !in r[..|r| - 5]
  {
    var head := IsoDate(f) + "T" + IsoTime(f);
    var fr := IsoFraction(f);
    Pow10Small();
    assert |fr| == 5 && fr[0] == '.' && fr[4] == 'Z';
    assert IsoString(f) == head + fr;
    assert (head + fr)[..|head|] == head;
    var y := YearField(f.year);
    assert '.' !in y;
    DotFreeHead(y, Two(f.month), Two(f.day), Two(f.hour), Two(f.minute), Two(f.second));
    TimeTailJoined(IsoDate(f), Two(f.hour), Two(f.minute), Two(f.second), ZeroPad(f.ms, 3));
  }

  /** The date, `T` and the time hold digits, signs, `-`, `T` and `:`, never a `.`. */
  lemma {:induction false} DotFreeHead(y: string, mo: string, d: string, h: string, mi: string, s: string)
    requires |y| >= 4 && '.' !in y
    requires |mo| == 2 && |d| == 2 && |h| == 2 && |mi| == 2 && |s| == 2
    requires AllDigits(mo) && AllDigits(d) && AllDigits(h) && AllDigits(mi) && AllDigits(s)
    ensures var head := y + "-" + mo + "-" + d + "T" + (h + ":" + mi + ":" + s);
      |head| >= 19 && head[|head| - 9] == 'T' && '.' !in head
  {
    DigitsLack(mo, '.');
    DigitsLack(d, '.');
    DigitsLack(h, '.');
    DigitsLack(mi, '.');
    DigitsLack(s, '.');
  }

  /** The positions of `YYYY-MM-DDTHH:mm:ss.sssZ` that hold no digit. */
  predicate IsoMark(i: int) {
    i == 4 || i == 7 || i == 10 || i == 13 || i == 16 || i == 19 || i == 23
  }

  /**
   * For the years 0 to 9999, `toISOString` gives the 24 characters
   * `YYYY-MM-DDTHH:mm:ss.sssZ` of the date time string format of ECMA-262
   * (section 21.4.1.32): digits everywhere but the marks.
   */
  lemma IsoLayout(t: int)
    requires 0 <= Decompose(t).year <= 9999
    ensures IsoShaped(ToIsoString(t))
  {
    IsoStringLayout(Decompose(t));
  }

  lemma IsoStringLayout(f: DateTime)
    requires ValidDateTime(f) && 0 <= f.year <= 9999
    ensures IsoShaped(IsoString(f))
  {
    DigitsAround(YearField(f.year), '-', Two(f.month), '-', Two(f.day));
    DigitsAround(Two(f.hour), ':', Two(f.minute), ':', Two(f.second));
    Pow10Small();
    IsoJoined(IsoDate(f), IsoTime(f), ZeroPad(f.ms, 3));
  }

  /** `YYYY-MM-DDTHH:mm:ss.sssZ`: 24 characters, the marks in place and digits elsewhere. */
  predicate IsoShaped(r: string) {
    |r| == 24 && r[4] == '-' && r[7] == '-' && r[10] == 'T' && r[13] == ':' && r[16] == ':'
    && r[19] == '.' && r[23] == 'Z'
    && forall i :: 0 <= i < 24 && !IsoMark(i) ==> IsDigit(r[i])
  }

  /** A date `YYYY-MM-DD`, `T`, a time `HH:mm:ss` and `.sssZ` make an ISO string. */
  lemma IsoJoined(d: string, m: string, z: string)
    requires |d| == 10 && d[4] == '-' && d[7] == '-'
    requires forall i :: 0 <= i < 10 && i != 4 && i != 7 ==> IsDigit(d[i])
    requires |m| == 8 && m[2] == ':' && m[5] == ':'
    requires forall i :: 0 <= i < 8 && i != 2 && i != 5 ==> IsDigit(m[i])
    requires |z| == 3 && AllDigits(z)
    ensures IsoShaped(d + "T" + m + (['.'] + (z + "Z")))
  {
    var r := d + "T" + m + (['.'] + (z + "Z"));
    forall i | 0 <= i < 24 && !IsoMark(i) ensures IsDigit(r[i]) {
      if i < 10 {
        assert r[i] == d[i];
      } else if i < 19 {
        assert r[i] == m[i - 11];
      } else {
        assert r[i] == z[i - 20];
      }
    }
    assert r[4] == d[4] && r[7] == d[7] && r[13] == m[2] && r[16] == m[5];
  }

  /** Digits, a mark, two digits, a mark, two digits. */
  lemma DigitsAround(a: string, x: char, b: string, y: char, c: string)
    requires AllDigits(a) && AllDigits(b) && AllDigits(c) && |b| == 2 && |c| == 2
    ensures var r := a + [x] + b + [y] + c;
      |r| == |a| + 6 && r[|a|] == x && r[|a| + 3] == y
      && forall i :: 0 <= i < |r| && i != |a| && i != |a| + 3 ==> IsDigit(r[i])
  {
    var r := a + [x] + b + [y] + c;
    forall i | 0 <= i < |r| && i != |a| && i != |a| + 3 ensures IsDigit(r[i]) {
      if i < |a| {
        assert r[i] == a[i];
      } else if i < |a| + 3 {
        assert r[i] == b[i - |a| - 1];
      } else {
        assert r[i] == c[i - |a| - 4];
      }
    }
  }

  /** The characters that `.replace(/[-:]/g, '')` deletes. */
  const Separators: set<char> := {'-', ':'}

  /**
   * `date.toISOString().replace(/[-:]/g, '').split('.')[0] + 'Z'`: the ISO
   * string without its separators and its fraction of a second. The result
   * holds no `-`, `:` or `.` and ends in `Z`.
   */
  function FormatCompactUtc(t: int): (r: string)
    ensures |r| >= 1 && r[|r| - 1] == 'Z'
    ensures '-' !in r && ':' !in r && '.' !in r
  {
    Compacted(ToIsoString(t))
  }

  /** `.replace(/[-:]/g, '').split('.')[0] + 'Z'` applied to the text `iso`. */
  function Compacted(iso: string): (r: string)
    ensures |r| >= 1 && r[|r| - 1] == 'Z'
    ensures '-' !in r && ':' !in r && '.' !in r
  {
    var s := RemoveChars(iso, Separators);
    var head := Split(s, '.')[0];
    PrefixLacks(s, |head|, '-');
    PrefixLacks(s, |head|, ':');
    head + "Z"
  }

  lemma PrefixLacks(s: string, k: nat, c: char)
    requires k <= |s| && c !in s
    ensures c !in s[..k]
  {
    assert forall i :: 0 <= i < k ==> s[..k][i] == s[i];
  }

  /** The compact date `YYYYMMDD` and time `HHMMSS` of valid fields. */
  function CompactDate(f: DateTime): string
    requires ValidDateTime(f)
  {
    RemoveChars(YearField(f.year), Separators) + Two(f.month) + Two(f.day)
  }

  function CompactTime(f: DateTime): (r: string)
    requires ValidDateTime(f)
    ensures |r| == 6 && AllDigits(r)
  {
    var hh, mm, ss := Two(f.hour), Two(f.minute), Two(f.second);
    DigitsJoin(hh, mm, ss);
    hh + mm + ss
  }

  lemma DigitsKept(s: string)
    requires AllDigits(s)
    ensures RemoveChars(s, Separators) == s
  {
  }

  lemma {:induction false} RemoveAround(a: string, sep: char, b: string, c: string)
    requires sep in Separators
    ensures RemoveChars(a + [sep] + b + [sep] + c, Separators)
            == RemoveChars(a, Separators) + RemoveChars(b, Separators) + RemoveChars(c, Separators)
  {
    var cs := Separators;
    assert RemoveChars([sep], cs) == [];
    RemoveCharsAppend(a, [sep], cs);
    RemoveCharsAppend(a + [sep], b, cs);
    RemoveCharsAppend(a + [sep] + b, [sep], cs);
    RemoveCharsAppend(a + [sep] + b + [sep], c, cs);
  }

  lemma RemoveFromDate(f: DateTime)
    requires ValidDateTime(f)
    ensures RemoveChars(IsoDate(f), Separators) == CompactDate(f)
  {
    RemoveAround(YearField(f.year), '-', Two(f.month), Two(f.day));
    DigitsKept(Two(f.month));
    DigitsKept(Two(f.day));
  }

  lemma RemoveFromTime(f: DateTime)
    requires ValidDateTime(f)
    ensures RemoveChars(IsoTime(f), Separators) == CompactTime(f)
  {
    RemoveAround(Two(f.hour), ':', Two(f.minute), Two(f.second));
    DigitsKept(Two(f.hour));
    DigitsKept(Two(f.minute));
    DigitsKept(Two(f.second));
  }

  /** The compact date, `T` and the compact time. */
  function CompactHead(f: DateTime): string
    requires ValidDateTime(f)
  {
    CompactDate(f) + "T" + CompactTime(f)
  }

  lemma DigitsLack(s: string, c: char)
    requires AllDigits(s) && !IsDigit(c)
    ensures c !in s
  {
  }

  lemma {:induction false} DigitsAndMarksKept(z: string)
    requires AllDigits(z)
    ensures RemoveChars(['.'] + (z + "Z"), Separators) == ['.'] + (z + "Z")
  {
    DigitsLack(z, '-');
    DigitsLack(z, ':');
  }

  lemma FractionKept(f: DateTime)
    requires ValidDateTime(f)
    ensures RemoveChars(IsoFraction(f), Separators) == IsoFraction(f)
  {
    Pow10Small();
    DigitsAndMarksKept(ZeroPad(f.ms, 3));
  }

  lemma {:induction false} RemoveFromIso(f: DateTime)
    requires ValidDateTime(f)
    ensures RemoveChars(IsoString(f), Separators) == CompactHead(f) + IsoFraction(f)
  {
    FractionKept(f);
    RemoveAroundT(IsoDate(f), IsoTime(f), IsoFraction(f));
    RemoveFromDate(f);
    RemoveFromTime(f);
  }

  lemma {:induction false} RemoveAroundT(d: string, m: string, fr: string)
    requires RemoveChars(fr, Separators) == fr
    ensures RemoveChars(d + "T" + m + fr, Separators)
            == RemoveChars(d, Separators) + "T" + RemoveChars(m, Separators) + fr
  {
    var cs := Separators;
    assert RemoveChars("T", cs) == "T";
    RemoveCharsAppend(d, "T", cs);
    RemoveCharsAppend(d + "T", m, cs);
    RemoveCharsAppend(d + "T" + m, fr, cs);
  }

  /** A character that is not a digit, a sign or `T`. */
  predicate NotStampChar(c: char) {
    !IsDigit(c) && c != '-' && c != '+' && c != 'T'
  }

  lemma {:induction false} NotStampCharAround(y: string, m: string, d: string, time: string, c: char)
    requires NotStampChar(c) && c !in y && AllDigits(m) && AllDigits(d) && AllDigits(time)
    ensures c !in y + m + d + "T" + time
  {
    DigitsLack(m, c);
    DigitsLack(d, c);
    DigitsLack(time, c);
  }

  /** The compact date and time hold nothing but digits, a sign and `T`. */
  lemma NotStampCharNotInHead(f: DateTime, c: char)
    requires ValidDateTime(f) && NotStampChar(c)
    ensures c !in CompactHead(f)
  {
    var yf := YearField(f.year);
    assert c !in yf;
    var y := RemoveChars(yf, Separators);
    assert c !in y;
    NotStampCharAround(y, Two(f.month), Two(f.day), CompactTime(f), c);
  }

  /**
   * The compact stamp is the compact date, `T`, the compact time and `Z`:
   * only the separators and the fraction of a second are gone.
   */
  lemma {:induction false} CompactParts(t: int)
    ensures FormatCompactUtc(t) == CompactHead(Decompose(t)) + "Z"
  {
    var f := Decompose(t);
    RemoveFromIso(f);
    NotStampCharNotInHead(f, '.');
    var head := CompactHead(f);
    Pow10Small();
    var ms := ZeroPad(f.ms, 3) + "Z";
    AppendAssoc(head, ['.'], ms);
    SplitAtFirst(head, '.', ms);
  }

  lemma {:induction false} DigitsJoin(a: string, b: string, c: string)
    requires AllDigits(a) && AllDigits(b) && AllDigits(c)
    ensures AllDigits(a + b + c)
  {
  }

  lemma StampShape(f: DateTime)
    requires ValidDateTime(f) && 0 <= f.year <= 9999
    ensures CompactDate(f) == YearField(f.year) + Two(f.month) + Two(f.day)
    ensures |CompactDate(f)| == 8 && AllDigits(CompactDate(f))
  {
    DigitsKept(YearField(f.year));
    DigitsJoin(YearField(f.year), Two(f.month), Two(f.day));
  }

  /**
   * For the years 0 to 9999 the stamp is the 16 characters
   * `YYYYMMDDTHHMMSSZ` of the UTC fields of `t`.
   */
  lemma CompactForm(t: int)
    requires 0 <= Decompose(t).year <= 9999
    ensures FormatCompactUtc(t) == CompactDate(Decompose(t)) + "T" + CompactTime(Decompose(t)) + "Z"
    ensures |CompactDate(Decompose(t))| == 8 && AllDigits(CompactDate(Decompose(t)))
    ensures |FormatCompactUtc(t)| == 16
  {
    CompactParts(t);
    StampShape(Decompose(t));
  }

  /**
   * Reads a `YYYYMMDDTHHMMSSZ` stamp back to the UTC instant it names, or
   * `None` when the text is not such a stamp of an existing date and time.
   */
  function ParseCompactUtc(s: string): Option<int> {
    if |s| != 16 || s[8] != 'T' || s[15] != 'Z' || !AllDigits(s[..8]) || !AllDigits(s[9..15]) then None
    else FieldsInstant(s[..8], s[9..15])
  }

  /** The instant named by the digits `YYYYMMDD` and `HHMMSS`, if it exists. */
  function FieldsInstant(date: string, time: string): Option<int>
    requires |date| == 8 && AllDigits(date) && |time| == 6 && AllDigits(time)
  {
    var f := DateTime(DigitsValue(date[..4]), DigitsValue(date[4..6]), DigitsValue(date[6..]),
                      DigitsValue(time[..2]), DigitsValue(time[2..4]), DigitsValue(time[4..]), 0);
    if ValidDateTime(f) then Some(Compose(f)) else None
  }

  /** Where `ParseCompactUtc` finds the date and the time of a stamp. */
  lemma {:induction false} StampSlices(d: string, m: string)
    requires |d| == 8 && |m| == 6
    ensures |d + "T" + m + "Z"| == 16
    ensures (d + "T" + m + "Z")[..8] == d && (d + "T" + m + "Z")[9..15] == m
    ensures (d + "T" + m + "Z")[8] == 'T' && (d + "T" + m + "Z")[15] == 'Z'
  {
  }

  /** The digits of valid fields read back to the fields, with no milliseconds. */
  lemma ReadFields(f: DateTime)
    requires ValidDateTime(f) && 0 <= f.year <= 9999
    ensures |CompactDate(f)| == 8 && AllDigits(CompactDate(f))
    ensures FieldsInstant(CompactDate(f), CompactTime(f)) == Some(Compose(f.(ms := 0)))
  {
    StampShape(f);
    ThreeParts(YearField(f.year), Two(f.month), Two(f.day));
    ThreeParts(Two(f.hour), Two(f.minute), Two(f.second));
  }

  lemma {:induction false} ParseStamp(f: DateTime)
    requires ValidDateTime(f) && 0 <= f.year <= 9999
    ensures ParseCompactUtc(CompactHead(f) + "Z") == Some(Compose(f.(ms := 0)))
  {
    ReadFields(f);
    StampSlices(CompactDate(f), CompactTime(f));
  }

  lemma MsField(t: int)
    ensures Decompose(t).ms == t % 1000
  {
    var msOfDay := t % MsPerDay;
    assert msOfDay % MsPerHour % MsPerMinute % MsPerSecond == t % 1000;
  }

  /**
   * The stamp names the instant it was made from: reading it back gives `t`
   * itself when `t` is a whole second, and in general the instant with the
   * same fields and no milliseconds, which is `t - t % 1000`.
   */
  lemma ParseFormat(t: int)
    requires 0 <= Decompose(t).year <= 9999 && t % 1000 == 0
    ensures ParseCompactUtc(FormatCompactUtc(t)) == Some(t)
  {
    StampReadsBack(t);
    WholeSecond(t);
  }

  lemma StampReadsBack(t: int)
    requires 0 <= Decompose(t).year <= 9999
    ensures ParseCompactUtc(FormatCompactUtc(t)) == Some(Compose(Decompose(t).(ms := 0)))
  {
    CompactParts(t);
    ParseStamp(Decompose(t));
  }

  lemma WholeSecond(t: int)
    ensures Compose(Decompose(t).(ms := 0)) == t - t % 1000
  {
    MsField(t);
    DropMs(Decompose(t));
  }

  lemma DropMs(f: DateTime)
    requires 1 <= f.month <= 12
    ensures Compose(f.(ms := 0)) == Compose(f) - f.ms
  {
  }

  /**
   * The `dates` parameter of `createGoogleCalendarUrl`: the stamp of the
   * start, `/`, and the stamp of one hour later.
   */
  function GoogleDates(start: int): string {
    FormatCompactUtc(start) + "/" + FormatCompactUtc(start + MsPerHour)
  }

  /**
   * The two halves of `dates` read back to the event start (given in whole
   * seconds) and to the instant exactly one hour later.
   */
  lemma GoogleDatesSpanOneHour(start: int)
    requires start % 1000 == 0
    requires 0 <= Decompose(start).year <= 9999 && 0 <= Decompose(start + MsPerHour).year <= 9999
    ensures Split(GoogleDates(start), '/') == [FormatCompactUtc(start), FormatCompactUtc(start + MsPerHour)]
    ensures ParseCompactUtc(FormatCompactUtc(start)) == Some(start)
    ensures ParseCompactUtc(FormatCompactUtc(start + MsPerHour)) == Some(start + MsPerHour)
  {
    GoogleDatesHalves(start);
    ParseFormat(start);
    HourLaterWholeSecond(start);
    ParseFormat(start + MsPerHour);
  }

  lemma HourLaterWholeSecond(t: int)
    requires t % 1000 == 0
    ensures (t + MsPerHour) % 1000 == 0
  {
    assert t + MsPerHour == 1000 * (t / 1000 + 3600);
  }

  /** `dates` splits at its one `/` into the start and end stamps. */
  lemma GoogleDatesHalves(start: int)
    ensures Split(GoogleDates(start), '/') == [FormatCompactUtc(start), FormatCompactUtc(start + MsPerHour)]
  {
    NoSlash(start);
    NoSlash(start + MsPerHour);
    SplitPair(FormatCompactUtc(start), FormatCompactUtc(start + MsPerHour), '/');
  }

  lemma {:induction false} SplitPair(a: string, b: string, sep: char)
    requires sep !in a && sep !in b
    ensures Split(a + [sep] + b, sep) == [a, b]
  {
    SplitAtFirst(a, sep, b);
    SplitWithoutSeparator(b, sep);
  }

  lemma NoSlash(t: int)
    ensures '/' !in FormatCompactUtc(t)
  {
    CompactParts(t);
    NotStampCharNotInHead(Decompose(t), '/');
  }
}
