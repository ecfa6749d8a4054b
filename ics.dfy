/**
 * The iCalendar text of `downloadAllICS` (RFC 5545): a VCALENDAR header,
 * two VEVENT blocks per year entry (section 3.6.1 of RFC 5545), and the
 * closing line, as a list of lines that the page joins with CRLF.
 */
module Ics {
  import opened Text
  import opened Email
  import opened Calendar
  import opened DateFormat
  import opened Schedule

  /** The five opening lines of the calendar. */
  const CalendarHeader: seq<string> :=
    ["BEGIN:VCALENDAR", "VERSION:2.0", "PRODID:-//6 Month Catchup//Random Scheduler//EN",
     "CALSCALE:GREGORIAN", "METHOD:REQUEST"]

  const CalendarFooter := "END:VCALENDAR"

  /** The separator of `icsContent.join('\r\n')`. */
  const LineBreak := "\r\n"

  /** Lines in one VEVENT block, from `BEGIN:VEVENT` to `END:VEVENT`. */
  const BlockLength := 13

  /**
   * What every block shares: the two addresses, the title built from their
   * user names, the `DTSTAMP` text, the `Date.now()` readings, where
   * `clock(k)` is the reading taken while the `k`-th event is written, and
   * the stamp function `formatDateForICS`.
   */
  datatype IcsContext = IcsContext(
    email1: string, email2: string, title: string, stamp: string,
    clock: nat -> nat, format: int -> string, uid: (nat, nat) -> string, describe: int -> string)

  // The fixed texts of the file, one constant each.
  const BeginEvent := "BEGIN:VEVENT"
  const EndEvent := "END:VEVENT"
  const StartTag := "DTSTART:"
  const EndTag := "DTEND:"
  const StampTag := "DTSTAMP:"
  const UidTag := "UID:"
  const UidDomain := "@6monthcatchup.github.io"
  const OrganizerTag := "ORGANIZER:mailto:"
  const SummaryTag := "SUMMARY:"
  const DescriptionTag := "DESCRIPTION:"
  const AttendeeTag := "ATTENDEE;ROLE=REQ-PARTICIPANT;"
  const AcceptedAttendeeTag := AttendeeTag + "PARTSTAT=ACCEPTED;RSVP=FALSE:mailto:"
  const InvitedAttendeeTag := AttendeeTag + "PARTSTAT=NEEDS-ACTION;RSVP=TRUE:mailto:"
  const StatusLine := "STATUS:CONFIRMED"
  const SequenceLine := "SEQUENCE:0"
  const TitleHead := "Random Catchup - "
  const TitleJoin := " <> "
  const DescriptionHead := "Random catch-up call for "
  const DescriptionBody := "\\n\\nScheduled via 6monthcatchup - two random times per year to catch up!\\n\\nParticipants:\\n"
  const EscapedNewline := "\\n"
  const DescriptionTail := "\\n\\nHow you connect is up to you - video call\\, phone\\, coffee\\, etc."

  /**
   * `Random Catchup - ${email1Username} <> ${email2Username}`: the title
   * names the user names only, so no `@` of an address appears in it.
   */
  function EventTitle(email1: string, email2: string): (r: string)
    ensures |r| >= |TitleHead| && r[..|TitleHead|] == TitleHead
    ensures '@' !in r
  {
    var u1, u2 := Username(email1), Username(email2);
    assert '@' !in TitleHead && '@' !in TitleJoin;
    TitleHead + u1 + TitleJoin + u2
  }

  /**
   * The context `downloadAllICS` builds from `eventData` and `new Date()`:
   * its stamps are `formatDateForICS`, its `UID` values the page's template
   * and its descriptions the page's text, for every year.
   */
  function Context(email1: string, email2: string, nowMs: int, clock: nat -> nat): (cx: IcsContext)
    ensures CompactStamps(cx) && CounterUids(cx) && cx.stamp == FormatCompactUtc(nowMs)
    ensures forall year :: cx.describe(year) == Description(year, email1, email2)
  {
    IcsContext(email1, email2, EventTitle(email1, email2), FormatCompactUtc(nowMs), clock, FormatCompactUtc, Uid,
               year => Description(year, email1, email2))
  }

  /**
   * The `DESCRIPTION` value, with the line breaks and commas escaped as the
   * page writes them (`\\n` and `\\,`, two characters each).
   */
  function Description(year: int, email1: string, email2: string): (r: string)
    ensures var n, y := |DescriptionHead|, IntToDecimal(year);
      |r| > n + |y| && r[..n] == DescriptionHead && r[n..n + |y|] == y
  {
    var y := IntToDecimal(year);
    var rest := DescriptionBody + email1 + EscapedNewline + email2 + DescriptionTail;
    ThreeParts(DescriptionHead, y, rest);
    DescriptionHead + y + rest
  }

  /** The `UID` value `${Date.now()}-${eventCounter}@6monthcatchup.github.io`. */
  function Uid(now: nat, counter: nat): (r: string)
    ensures |r| > |UidDomain| && r[|r| - |UidDomain|..] == UidDomain
  {
    NatToDecimal(now) + "-" + NatToDecimal(counter) + UidDomain
  }

  /**
   * The texts that vary between blocks: the two stamps of the event, the
   * `DTSTAMP` value, the `UID` value, the title, the description and the two
   * addresses.
   */
  datatype EventText = EventText(
    start: string, end: string, stamp: string, uid: string,
    title: string, description: string, email1: string, email2: string)

  /** The thirteen lines pushed for one event, from `BEGIN:VEVENT` to `END:VEVENT`. */
  function VEvent(e: EventText): (r: seq<string>)
    ensures |r| == BlockLength && r[0] == BeginEvent && r[BlockLength - 1] == EndEvent
  {
    [ BeginEvent,
      StartTag + e.start,
      EndTag + e.end,
      StampTag + e.stamp,
      UidTag + e.uid,
      OrganizerTag + e.email1,
      SummaryTag + e.title,
      DescriptionTag + e.description,
      AcceptedAttendeeTag + e.email1,
      InvitedAttendeeTag + e.email2,
      StatusLine,
      SequenceLine,
      EndEvent ]
  }

  /** The texts of the event numbered `counter`, a catch-up of `year` starting at `start`. */
  function EventTextOf(cx: IcsContext, start: int, year: int, counter: nat): EventText {
    EventText(cx.format(start), cx.format(start + MsPerHour), cx.stamp,
              cx.uid(cx.clock(counter), counter), cx.title,
              cx.describe(year), cx.email1, cx.email2)
  }

  /**
   * The events in the order they are written: for entry `k`, its `date1`
   * as event `2k+1` and its `date2` as event `2k+2`.
   */
  function Occurrences(cx: IcsContext, events: seq<YearEvents>): (texts: seq<EventText>)
    ensures |texts| == 2 * |events|
  {
    seq(2 * |events|, j requires 0 <= j < 2 * |events| =>
      EventTextOf(cx, EventStart(events, j), events[j / 2].year, j + 1))
  }

  /** The catch-up written as event `j`: `date1` of entry `j / 2` for even `j`, else its `date2`. */
  function EventStart(events: seq<YearEvents>, j: nat): int
    requires j < 2 * |events|
  {
    if j % 2 == 0 then events[j / 2].date1 else events[j / 2].date2
  }

  /** The blocks of a list of events, one after the other. */
  function Render(texts: seq<EventText>): seq<string> {
    if texts == [] then [] else Render(texts[..|texts| - 1]) + VEvent(texts[|texts| - 1])
  }

  /** Two more events add their two blocks at the end. */
  lemma RenderTwoMore(texts: seq<EventText>, a: EventText, b: EventText)
    ensures Render(texts + [a, b]) == Render(texts) + VEvent(a) + VEvent(b)
  {
    assert (texts + [a, b])[..|texts| + 1] == texts + [a];
    assert (texts + [a])[..|texts|] == texts;
  }

  /** The header, the blocks of the events and the footer. */
  function Framed(texts: seq<EventText>): seq<string> {
    CalendarHeader + Render(texts) + [CalendarFooter]
  }

  /** The whole line list before it is joined. */
  function IcsLines(cx: IcsContext, events: seq<YearEvents>): (r: seq<string>)
    ensures |r| == |CalendarHeader| + 2 * BlockLength * |events| + 1
    ensures r[0] == "BEGIN:VCALENDAR" && r[|r| - 1] == CalendarFooter
  {
    RenderLength(Occurrences(cx, events));
    Framed(Occurrences(cx, events))
  }

  /** How many lines are exactly `line`. */
  function Count(lines: seq<string>, line: string): nat {
    if lines == [] then 0
    else Count(lines[..|lines| - 1], line) + (if lines[|lines| - 1] == line then 1 else 0)
  }

  // ---------------------------------------------------------------------
  // Shape of the file

  /** Thirteen lines per event. */
  lemma {:induction false} RenderLength(texts: seq<EventText>)
    ensures |Render(texts)| == BlockLength * |texts|
  {
    if texts != [] {
      RenderLength(texts[..|texts| - 1]);
    }
  }

  /** Event `j` fills the lines `13j` to `13j + 12` of the blocks. */
  lemma {:induction false} RenderAt(texts: seq<EventText>, j: nat)
    requires j < |texts|
    ensures |Render(texts)| == BlockLength * |texts|
    ensures Render(texts)[BlockLength * j .. BlockLength * j + BlockLength] == VEvent(texts[j])
  {
    var k := |texts| - 1;
    var prefix := texts[..k];
    var head, last := Render(prefix), VEvent(texts[k]);
    assert Render(texts) == head + last;
    RenderLength(prefix);
    if j < k {
      RenderAt(prefix, j);
      assert prefix[j] == texts[j];
    }
    BlockOfAppend(head, last, k, j, VEvent(texts[j]));
  }

  /** Block `j` of `k` blocks followed by one more block. */
  lemma BlockOfAppend(head: seq<string>, last: seq<string>, k: nat, j: nat, block: seq<string>)
    requires |head| == BlockLength * k && |last| == BlockLength && j <= k
    requires j < k ==> head[BlockLength * j .. BlockLength * j + BlockLength] == block
    requires j == k ==> last == block
    ensures (head + last)[BlockLength * j .. BlockLength * j + BlockLength] == block
  {
    if j < k {
      LeftOfAppend(head, last, BlockLength * j, BlockLength * j + BlockLength);
    } else {
      RightOfAppend(head, last);
    }
  }

  /**
   * The file opens with `BEGIN:VCALENDAR` and closes with `END:VCALENDAR`,
   * both as its first and last lines and as the first and last characters
   * of the joined text, and has the five header lines, two blocks per entry
   * and the footer.
   */
  lemma IcsFrame(cx: IcsContext, events: seq<YearEvents>)
    ensures var lines := IcsLines(cx, events);
      |lines| == |CalendarHeader| + 2 * BlockLength * |events| + 1
      && lines[0] == "BEGIN:VCALENDAR" && lines[|lines| - 1] == "END:VCALENDAR"
    ensures var text := JoinLines(IcsLines(cx, events), LineBreak);
      |text| >= 15 && text[..15] == "BEGIN:VCALENDAR" && text[|text| - 13..] == "END:VCALENDAR"
  {
    RenderLength(Occurrences(cx, events));
  }

  /**
   * The blocks follow the header in order: event `j` fills the thirteen
   * lines from `5 + 13j` on, opening with `BEGIN:VEVENT`, closing with
   * `END:VEVENT` and carrying its stamps and its `UID` value in lines 1, 2
   * and 4 of the block.
   */
  lemma FramedBlock(texts: seq<EventText>, j: nat)
    requires j < |texts|
    ensures var lines := Framed(texts);
      var at := |CalendarHeader| + BlockLength * j;
      |lines| == |CalendarHeader| + BlockLength * |texts| + 1
      && lines[at .. at + BlockLength] == VEvent(texts[j])
      && lines[at] == BeginEvent && lines[at + BlockLength - 1] == EndEvent
      && lines[at + 1] == StartTag + texts[j].start && lines[at + 1][..8] == StartTag && lines[at + 1][8..] == texts[j].start
      && lines[at + 2] == EndTag + texts[j].end && lines[at + 2][..6] == EndTag && lines[at + 2][6..] == texts[j].end
      && lines[at + 4] == UidTag + texts[j].uid
      && lines[at + 7] == DescriptionTag + texts[j].description
  {
    RenderAt(texts, j);
    var lines := Framed(texts);
    var at := |CalendarHeader| + BlockLength * j;
    assert lines[at .. at + BlockLength] == Render(texts)[BlockLength * j .. BlockLength * j + BlockLength];
    var block := VEvent(texts[j]);
    assert lines[at] == block[0];
    assert lines[at + 7] == block[7];
    assert lines[at + 1] == block[1];
    assert lines[at + 2] == block[2];
    assert lines[at + 4] == block[4];
    assert lines[at + 12] == block[12];
  }

  /**
   * Event `j` shows the stamps of its catch-up and of one hour later, the
   * `UID` of number `j + 1` and the description of its entry's year.
   */
  lemma OccurrenceAt(cx: IcsContext, events: seq<YearEvents>, j: nat)
    requires j < 2 * |events|
    ensures var e := Occurrences(cx, events)[j];
      e.start == cx.format(EventStart(events, j)) && e.end == cx.format(EventStart(events, j) + MsPerHour)
      && e.uid == cx.uid(cx.clock(j + 1), j + 1) && e.description == cx.describe(events[j / 2].year)
      && e.stamp == cx.stamp && e.title == cx.title && e.email1 == cx.email1 && e.email2 == cx.email2
  {
  }

  /** Writing one more entry appends its two events, numbered on from the others. */
  lemma OccurrencesSnoc(cx: IcsContext, events: seq<YearEvents>, ev: YearEvents)
    ensures var n := |events|;
      Occurrences(cx, events + [ev]) == Occurrences(cx, events)
        + [EventTextOf(cx, ev.date1, ev.year, 2 * n + 1), EventTextOf(cx, ev.date2, ev.year, 2 * n + 2)]
  {
    var n := |events|;
    var a, b := Occurrences(cx, events + [ev]), Occurrences(cx, events);
    forall j | 0 <= j < 2 * n ensures a[j] == b[j] {
      assert (events + [ev])[j / 2] == events[j / 2];
    }
    assert (events + [ev])[n] == ev;
  }

  // ---------------------------------------------------------------------
  // Counting the blocks

  lemma {:induction false} CountAppend(a: seq<string>, b: seq<string>, line: string)
    ensures Count(a + b, line) == Count(a, line) + Count(b, line)
  {
    if b == [] {
      assert a + b == a;
    } else {
      assert (a + b)[..|a + b| - 1] == a + b[..|b| - 1];
      CountAppend(a, b[..|b| - 1], line);
    }
  }

  /** A block holds one `BEGIN:VEVENT` line and one `END:VEVENT` line. */
  lemma VEventCount(e: EventText)
    ensures Count(VEvent(e), BeginEvent) == 1
    ensures Count(VEvent(e), EndEvent) == 1
  {
    var lines := VEvent(e);
    NotMarker(StartTag, e.start);
    NotMarker(EndTag, e.end);
    NotMarker(StampTag, e.stamp);
    NotMarker(UidTag, e.uid);
    NotMarker(OrganizerTag, e.email1);
    NotMarker(SummaryTag, e.title);
    NotMarker(DescriptionTag, e.description);
    assert AttendeeTag[0] == 'A';
    NotMarker(AcceptedAttendeeTag, e.email1);
    NotMarker(InvitedAttendeeTag, e.email2);
    NotMarker(StatusLine, "");
    NotMarker(SequenceLine, "");
    assert StatusLine + "" == StatusLine && SequenceLine + "" == SequenceLine;
    CountLines(lines, BeginEvent, 0);
    CountLines(lines, EndEvent, 12);
  }

  /** A line opening with a letter other than `B` and `E` is neither marker. */
  lemma NotMarker(tag: string, value: string)
    requires |tag| > 0 && tag[0] != 'B' && tag[0] != 'E'
    ensures tag + value != BeginEvent && tag + value != EndEvent
  {
    assert (tag + value)[0] == tag[0];
  }

  /** A list in which exactly the line at `at` equals `line` counts it once. */
  lemma {:induction false} CountLines(lines: seq<string>, line: string, at: nat)
    requires at < |lines| && lines[at] == line
    requires forall j :: 0 <= j < |lines| && j != at ==> lines[j] != line
    ensures Count(lines, line) == 1
  {
    var k := |lines| - 1;
    if at < k {
      CountLines(lines[..k], line, at);
    } else {
      CountNone(lines[..k], line);
    }
  }

  lemma {:induction false} CountNone(lines: seq<string>, line: string)
    requires forall j :: 0 <= j < |lines| ==> lines[j] != line
    ensures Count(lines, line) == 0
  {
    if lines != [] {
      CountNone(lines[..|lines| - 1], line);
    }
  }

  lemma {:induction false} RenderCount(texts: seq<EventText>)
    ensures Count(Render(texts), BeginEvent) == |texts|
    ensures Count(Render(texts), EndEvent) == |texts|
  {
    if texts != [] {
      var k := |texts| - 1;
      RenderCount(texts[..k]);
      VEventCount(texts[k]);
      CountAppend(Render(texts[..k]), VEvent(texts[k]), BeginEvent);
      CountAppend(Render(texts[..k]), VEvent(texts[k]), EndEvent);
    }
  }

  /** The file holds exactly two VEVENT blocks per entry. */
  lemma IcsEventCount(cx: IcsContext, events: seq<YearEvents>)
    ensures Count(IcsLines(cx, events), BeginEvent) == 2 * |events|
    ensures Count(IcsLines(cx, events), EndEvent) == 2 * |events|
  {
    FramedCount(Occurrences(cx, events));
  }

  lemma FramedCount(texts: seq<EventText>)
    ensures Count(Framed(texts), BeginEvent) == |texts|
    ensures Count(Framed(texts), EndEvent) == |texts|
  {
    var body := Render(texts);
    RenderCount(texts);
    CountNone(CalendarHeader, BeginEvent);
    CountNone(CalendarHeader, EndEvent);
    CountNone([CalendarFooter], BeginEvent);
    CountNone([CalendarFooter], EndEvent);
    CountAppend(CalendarHeader, body, BeginEvent);
    CountAppend(CalendarHeader, body, EndEvent);
    CountAppend(CalendarHeader + body, [CalendarFooter], BeginEvent);
    CountAppend(CalendarHeader + body, [CalendarFooter], EndEvent);
  }

  // ---------------------------------------------------------------------
  // Times and identifiers

  /** `stamp` is a 16-character compact stamp naming the instant `t`. */
  predicate ReadsBack(stamp: string, t: int) {
    |stamp| == 16 && ParseCompactUtc(stamp) == Some(t)
  }

  /**
   * The stamp of an instant in whole seconds whose year is between 0 and
   * 9999 has sixteen characters and reads back to the instant.
   */
  lemma StampOfYear(t: int, year: int)
    requires StartOfYearUtc(year) <= t < StartOfYearUtc(year + 2) && t % 1000 == 0
    requires 0 <= year <= 9998
    ensures |FormatCompactUtc(t)| == 16 && ParseCompactUtc(FormatCompactUtc(t)) == Some(t)
  {
    InstantYearBetween(t, year, year + 2);
    CompactForm(t);
    ParseFormat(t);
  }

  lemma StampsOfHour(start: int, year: int)
    requires StartOfYearUtc(year) <= start < StartOfYearUtc(year + 1) && OnTheHour(start)
    requires 0 <= year <= 9998
    ensures ReadsBack(FormatCompactUtc(start), start)
    ensures ReadsBack(FormatCompactUtc(start + MsPerHour), start + MsPerHour)
  {
    HourBounds(start, year);
    StampOfYear(start, year);
    StampOfYear(start + MsPerHour, year);
  }

  lemma HourBounds(start: int, year: int)
    requires StartOfYearUtc(year) <= start < StartOfYearUtc(year + 1) && OnTheHour(start)
    ensures start % 1000 == 0 && (start + MsPerHour) % 1000 == 0
    ensures start + MsPerHour < StartOfYearUtc(year + 2)
  {
    YearSpan(year + 1);
    WholeSecondOfHour(start);
    HourLaterWholeSecond(start);
  }

  lemma WholeSecondOfHour(t: int)
    requires OnTheHour(t)
    ensures t % 1000 == 0
  {
    var k := t / MsPerHour;
    assert t == MsPerHour * k;
    assert t == 1000 * (3600 * k);
  }

  /** The stamp format `downloadAllICS` uses, `formatDateForICS`. */
  ghost predicate CompactStamps(cx: IcsContext) {
    cx.format == FormatCompactUtc
  }

  /** The `UID` template `downloadAllICS` uses. */
  ghost predicate CounterUids(cx: IcsContext) {
    cx.uid == Uid
  }

  /**
   * Across the whole file, block `j` is event `j`: it opens with
   * `BEGIN:VEVENT` and closes with `END:VEVENT`, its `DTSTART` and `DTEND`
   * lines carry the stamps of its catch-up and of one hour later, its `UID`
   * line carries the number `j + 1` with the clock reading taken for it, and
   * its `DESCRIPTION` line names its entry's year.
   */
  lemma IcsEventLines(cx: IcsContext, events: seq<YearEvents>, j: nat)
    requires j < 2 * |events|
    ensures var lines := IcsLines(cx, events);
      var t := EventStart(events, j);
      var at := |CalendarHeader| + BlockLength * j;
      at + BlockLength < |lines|
      && lines[at] == BeginEvent && lines[at + BlockLength - 1] == EndEvent
      && lines[at + 1] == StartTag + cx.format(t)
      && lines[at + 2] == EndTag + cx.format(t + MsPerHour)
      && lines[at + 4] == UidTag + cx.uid(cx.clock(j + 1), j + 1)
      && lines[at + 7] == DescriptionTag + cx.describe(events[j / 2].year)
  {
    FramedBlock(Occurrences(cx, events), j);
    OccurrenceAt(cx, events, j);
  }

  /**
   * With the page's stamp format, the stamps of an instant on the hour in a
   * year from 0 to 9998 and of one hour later are 16-character stamps that
   * read back to those instants: together with `IcsEventLines` and
   * `ScheduleShape` (every catch-up of the schedule is on the hour inside
   * its year), the `DTSTART` and `DTEND` lines of every event name its
   * catch-up and exactly one hour later.
   */
  lemma FormatsOfHour(cx: IcsContext, start: int, year: int)
    requires CompactStamps(cx)
    requires StartOfYearUtc(year) <= start < StartOfYearUtc(year + 1) && OnTheHour(start)
    requires 0 <= year <= 9998
    ensures ReadsBack(cx.format(start), start) && ReadsBack(cx.format(start + MsPerHour), start + MsPerHour)
  {
    StampsOfHour(start, year);
  }

  /** No two blocks of the file share a `UID` line. */
  lemma IcsUidsDistinct(cx: IcsContext, events: seq<YearEvents>, i: nat, j: nat)
    requires CounterUids(cx)
    requires i < j < 2 * |events|
    ensures var lines := IcsLines(cx, events);
      var a, b := |CalendarHeader| + BlockLength * i + 4, |CalendarHeader| + BlockLength * j + 4;
      b < |lines| && lines[a] != lines[b]
  {
    var texts := Occurrences(cx, events);
    OccurrenceUid(cx, events, i);
    OccurrenceUid(cx, events, j);
    UidInjective(cx.clock(i + 1), i + 1, cx.clock(j + 1), j + 1);
    FramedUidsDistinct(texts, i, j);
  }

  lemma FramedUidsDistinct(texts: seq<EventText>, i: nat, j: nat)
    requires i < j < |texts| && texts[i].uid != texts[j].uid
    ensures var lines := Framed(texts);
      var a, b := |CalendarHeader| + BlockLength * i + 4, |CalendarHeader| + BlockLength * j + 4;
      b < |lines| && lines[a] != lines[b]
  {
    FramedBlock(texts, i);
    FramedBlock(texts, j);
    var a, b := UidTag + texts[i].uid, UidTag + texts[j].uid;
    assert a[|UidTag|..] == texts[i].uid && b[|UidTag|..] == texts[j].uid;
  }

  lemma OccurrenceUid(cx: IcsContext, events: seq<YearEvents>, j: nat)
    requires CounterUids(cx)
    requires j < 2 * |events|
    ensures Occurrences(cx, events)[j].uid == Uid(cx.clock(j + 1), j + 1)
  {
    OccurrenceAt(cx, events, j);
  }

  /**
   * A `UID` value names both the clock reading and the event number, so two
   * events with different numbers get different identifiers even when
   * `Date.now()` returns the same millisecond for both.
   */
  lemma UidInjective(now1: nat, counter1: nat, now2: nat, counter2: nat)
    ensures Uid(now1, counter1) == Uid(now2, counter2) <==> now1 == now2 && counter1 == counter2
  {
    if Uid(now1, counter1) == Uid(now2, counter2) {
      var d1, d2 := NatToDecimal(now1), NatToDecimal(now2);
      var e1, e2 := NatToDecimal(counter1) + UidDomain, NatToDecimal(counter2) + UidDomain;
      UidHalves(now1, counter1);
      UidHalves(now2, counter2);
      SplitPair(d1, e1, '-');
      SplitPair(d2, e2, '-');
      assert d1 == d2 && e1 == e2;
      CancelSuffix(NatToDecimal(counter1), NatToDecimal(counter2), UidDomain);
    }
  }

  lemma CancelSuffix<T>(a: seq<T>, b: seq<T>, s: seq<T>)
    requires a + s == b + s
    ensures a == b
  {
    assert |a| == |b|;
    assert a == (a + s)[..|a|];
    assert b == (b + s)[..|b|];
  }

  lemma UidHalves(now: nat, counter: nat)
    ensures Uid(now, counter) == NatToDecimal(now) + ['-'] + (NatToDecimal(counter) + UidDomain)
    ensures '-' !in NatToDecimal(now)
    ensures '-' !in NatToDecimal(counter) + UidDomain
  {
    var d, c := NatToDecimal(now), NatToDecimal(counter);
    assert forall i :: 0 <= i < |d| ==> d[i] != '-';
    assert forall i :: 0 <= i < |c| ==> c[i] != '-';
    assert d + "-" + c + UidDomain == d + ['-'] + (c + UidDomain);
  }
}
