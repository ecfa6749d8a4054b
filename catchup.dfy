/**
 * The page's state `eventData` and the two handlers that work on it:
 * `generateSchedule`, which validates the two addresses and fills in ten
 * years of catch-ups, and `downloadAllICS`, which writes them out as one
 * iCalendar file. The clock readings and the SHA-256 function are
 * parameters.
 */
module Catchup {
  import opened Text
  import opened Email
  import opened Digest
  import opened Calendar
  import opened Schedule
  import opened Ics

  /** `eventData`: the two normalised addresses and the generated entries. */
  class EventData {
    var email1: string
    var email2: string
    var events: seq<YearEvents>

    /** The initial state: both addresses empty, no entries. */
    constructor ()
      ensures email1 == "" && email2 == "" && events == []
    {
      email1 := "";
      email2 := "";
      events := [];
    }

    /**
     * `generateSchedule` with the two raw field values and the year the
     * clock reports. Inputs that fail the checks leave the state as it was;
     * otherwise the state holds the normalised addresses and the ten entries
     * from `currentYear` on, whatever it held before.
     */
    method GenerateSchedule(raw1: string, raw2: string, currentYear: int, sha256: seq<byte> -> Digest32)
      returns (outcome: Checked)
      modifies this
      ensures outcome == CheckInputs(raw1, raw2)
      ensures outcome.Rejected? ==>
                email1 == old(email1) && email2 == old(email2) && events == old(events)
      ensures outcome.Accepted? ==>
                email1 == outcome.email1 && email2 == outcome.email2
                && events == ScheduleFor(sha256, email1, email2, currentYear, YearsToGenerate)
    {
      outcome := CheckInputs(raw1, raw2);
      if outcome.Rejected? {
        return;
      }
      StoreSchedule(outcome, currentYear, sha256);
    }

    /**
     * The accepted branch of `generateSchedule`: it stores the two
     * normalised addresses, empties the entries and pushes the ten years.
     */
    method StoreSchedule(accepted: Checked, currentYear: int, sha256: seq<byte> -> Digest32)
      requires accepted.Accepted?
      modifies this
      ensures email1 == accepted.email1 && email2 == accepted.email2
      ensures events == ScheduleFor(sha256, email1, email2, currentYear, YearsToGenerate)
    {
      email1 := accepted.email1;
      email2 := accepted.email2;
      events := [];
      PushYears(accepted.email1, accepted.email2, currentYear, sha256);
    }

    /**
     * The loop of `generateSchedule`: starting from no entries, it pushes
     * the entry of each of the `YEARS_TO_GENERATE` years from `currentYear`
     * on, in ascending order, and touches nothing else.
     */
    method PushYears(e1: string, e2: string, currentYear: int, sha256: seq<byte> -> Digest32)
      requires events == []
      modifies this
      ensures email1 == old(email1) && email2 == old(email2)
      ensures events == ScheduleFor(sha256, e1, e2, currentYear, YearsToGenerate)
    {
      var i := 0;
      while i < YearsToGenerate
        invariant 0 <= i <= YearsToGenerate
        invariant email1 == old(email1) && email2 == old(email2)
        invariant events == ScheduleFor(sha256, e1, e2, currentYear, i)
      {
        var year := currentYear + i;
        var yearData := YearEntry(sha256, e1, e2, year);
        ScheduleForSnoc(sha256, e1, e2, currentYear, i, year, events, yearData);
        events := events + [yearData];
        i := i + 1;
      }
    }

    /**
     * `downloadAllICS` up to the text handed to the download: the lines of
     * the calendar joined with CRLF, and the event counter, which ends one
     * past the number of VEVENT blocks written. `nowMs` is the instant of
     * `new Date()` and `clock(k)` the value of `Date.now()` while the `k`-th
     * event is written.
     */
    method DownloadAllIcs(nowMs: int, clock: nat -> nat) returns (content: string, eventCounter: nat)
      ensures content == JoinLines(IcsLines(Context(email1, email2, nowMs, clock), events), LineBreak)
      ensures eventCounter == 2 * |events| + 1
    {
      var cx := Context(email1, email2, nowMs, clock);
      var icsContent;
      icsContent, eventCounter := WriteEvents(cx, events, CalendarHeader);
      icsContent := icsContent + [CalendarFooter];
      content := JoinLines(icsContent, LineBreak);
    }
  }

  /**
   * The loop of `downloadAllICS`: for every entry in order, the block of its
   * `date1` and then the block of its `date2`, each numbered by the event
   * counter, which starts at 1 and goes up by one per block. The renderers
   * of `cx` stand for the stamp, `UID` and description expressions.
   */
  method WriteEvents(cx: IcsContext, events: seq<YearEvents>, head: seq<string>)
    returns (icsContent: seq<string>, eventCounter: nat)
    ensures icsContent == head + Render(Occurrences(cx, events))
    ensures eventCounter == 2 * |events| + 1
  {
    icsContent := head;
    eventCounter := 1;
    var i := 0;
    while i < |events|
      invariant 0 <= i <= |events|
      invariant eventCounter == 2 * i + 1
      invariant icsContent == head + Render(Occurrences(cx, events[..i]))
    {
      var yearData := events[i];
      var first := EventTextOf(cx, yearData.date1, yearData.year, eventCounter);
      icsContent := icsContent + VEvent(first);
      eventCounter := eventCounter + 1;
      var second := EventTextOf(cx, yearData.date2, yearData.year, eventCounter);
      icsContent := icsContent + VEvent(second);
      eventCounter := eventCounter + 1;
      EntryWritten(cx, events, i, head);
      i := i + 1;
    }
    assert events[..i] == events;
  }

  /** Writing entry `i` after the blocks of the entries before it gives the blocks of the first `i + 1`. */
  lemma EntryWritten(cx: IcsContext, events: seq<YearEvents>, i: nat, head: seq<string>)
    requires i < |events|
    ensures var ev := events[i];
      head + Render(Occurrences(cx, events[..i]))
        + VEvent(EventTextOf(cx, ev.date1, ev.year, 2 * i + 1)) + VEvent(EventTextOf(cx, ev.date2, ev.year, 2 * i + 2))
      == head + Render(Occurrences(cx, events[..i + 1]))
  {
    var ev, before := events[i], events[..i];
    var written := Occurrences(cx, before);
    var first, second := EventTextOf(cx, ev.date1, ev.year, 2 * i + 1), EventTextOf(cx, ev.date2, ev.year, 2 * i + 2);
    var r, vf, vs := Render(written), VEvent(first), VEvent(second);
    assert events[..i + 1] == before + [ev];
    OccurrencesSnoc(cx, before, ev);
    assert Occurrences(cx, events[..i + 1]) == written + [first, second];
    RenderTwoMore(written, first, second);
    assert Render(Occurrences(cx, events[..i + 1])) == r + vf + vs;
    AppendAssoc(head, r, vf);
    AppendAssoc(head, r + vf, vs);
  }

  /**
   * The body of the loop of `generateSchedule` for one year: the two seeds,
   * their digests read as numbers, the two hours of the year, their
   * instants, sorted. It computes the entry `Derive` specifies.
   */
  method YearEntry(sha256: seq<byte> -> Digest32, e1: string, e2: string, year: int) returns (entry: YearEvents)
    ensures entry == Derive(sha256, e1, e2, year)
  {
    var hash1 := HashString(sha256, Seed(e1, e2, year));
    var hash2 := HashString(sha256, Seed(e2, e1, year));
    HourFromHash(sha256, Seed(e1, e2, year), year);
    HourFromHash(sha256, Seed(e2, e1, year), year);

    var hoursInYear := if IsLeapYear(year) then HoursInLeapYear else HoursInCommonYear;

    var hourOfYear1 := HashToNumber(hash1).value % hoursInYear;
    var hourOfYear2 := HashToNumber(hash2).value % hoursInYear;

    var date1 := HourOfYearToDate(hourOfYear1, year);
    var date2 := HourOfYearToDate(hourOfYear2, year);

    var sortedDates := SortTwo(date1, date2);
    EntryDerived(sha256, e1, e2, year, date1, date2);
    entry := YearEvents(year, sortedDates.0, sortedDates.1);
  }

  /** `hashToNumber(hash) % hoursInYear` on the digest of a seed is that seed's hour of the year. */
  lemma HourFromHash(sha256: seq<byte> -> Digest32, seed: string, year: int)
    ensures HashToNumber(HashString(sha256, seed)).Some?
    ensures HashToNumber(HashString(sha256, seed)).value
              % (if IsLeapYear(year) then HoursInLeapYear else HoursInCommonYear)
            == HourOfYear(sha256, seed, year)
  {
    SeedNumberOfHash(sha256, seed);
  }

  /** The sorted pair of the two catch-ups of a year is that year's entry. */
  lemma EntryDerived(sha256: seq<byte> -> Digest32, email1: string, email2: string, year: int, date1: int, date2: int)
    requires date1 == HourOfYearToDate(HourOfYear(sha256, Seed(email1, email2, year), year), year)
    requires date2 == HourOfYearToDate(HourOfYear(sha256, Seed(email2, email1, year), year), year)
    ensures YearEvents(year, SortTwo(date1, date2).0, SortTwo(date1, date2).1) == Derive(sha256, email1, email2, year)
  {
  }
}
