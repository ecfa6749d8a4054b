/**
 * The derivation at the heart of `generateSchedule`: for each year, two
 * seeds from the two addresses and the year, two hours of the year read off
 * their SHA-256 digests, the two instants of those hours, sorted. The digest
 * function is a parameter, so every property below holds for any hash.
 */
module Schedule {
  import opened Text
  import opened Digest
  import opened Calendar

  /** `YEARS_TO_GENERATE`. */
  const YearsToGenerate := 10

  /** One entry of `eventData.events`: a year and its two catch-ups. */
  datatype YearEvents = YearEvents(year: int, date1: int, date2: int)

  /**
   * The seed `first + second + year`: `email1 + email2 + year` for the first
   * catch-up and `email2 + email1 + year` for the second.
   */
  function Seed(first: string, second: string, year: int): (s: string)
    ensures |s| > |first| + |second|
    ensures s[..|first|] == first && s[|first|..|first| + |second|] == second
    ensures s[|first| + |second|..] == IntToDecimal(year)
  {
    var d := IntToDecimal(year);
    ThreeParts(first, second, d);
    first + second + d
  }

  /**
   * For one ordered pair of addresses, the seeds of different years differ,
   * so each year's catch-ups are read off a digest of their own.
   */
  lemma SeedYearInjective(first: string, second: string, y1: int, y2: int)
    ensures Seed(first, second, y1) == Seed(first, second, y2) <==> y1 == y2
  {
    var p := first + second;
    if Seed(first, second, y1) == Seed(first, second, y2) {
      assert Seed(first, second, y1)[|p|..] == IntToDecimal(y1);
      assert Seed(first, second, y2)[|p|..] == IntToDecimal(y2);
      IntToDecimalInjective(y1, y2);
    }
  }

  /**
   * `hashToNumber(await hashString(seed))`: the big-endian value of the
   * first four bytes of the seed's digest, an unsigned 32-bit integer
   * (`SeedNumberOfHash` shows it is what the page computes).
   */
  function SeedNumber(sha256: seq<byte> -> Digest32, seed: string): (n: nat)
    ensures n < 0x1_0000_0000
  {
    var d := sha256(Utf8Encode(seed));
    Uint32Bound(d[..4]);
    BigEndian(d[..4])
  }

  /** Reading the hex digest of the seed with `hashToNumber` gives `SeedNumber`. */
  lemma SeedNumberOfHash(sha256: seq<byte> -> Digest32, seed: string)
    ensures HashToNumber(HashString(sha256, seed)) == Some(SeedNumber(sha256, seed))
  {
    HashToNumberOfDigest(sha256(Utf8Encode(seed)));
  }

  /** `hashToNumber(hash) % hoursInYear`: an hour the year has. */
  function HourOfYear(sha256: seq<byte> -> Digest32, seed: string, year: int): (h: nat)
    ensures h < HoursInYear(year)
  {
    var n := SeedNumber(sha256, seed);
    if IsLeapYear(year) then n % HoursInLeapYear else n % HoursInCommonYear
  }

  /** `hourOfYearToDate(hourOfYear, year)` for the seed of one catch-up. */
  function CatchupInstant(sha256: seq<byte> -> Digest32, first: string, second: string, year: int): (t: int)
    ensures StartOfYearUtc(year) <= t < StartOfYearUtc(year + 1)
    ensures OnTheHour(t)
  {
    HourOfYearToDate(HourOfYear(sha256, Seed(first, second, year), year), year)
  }

  /**
   * The entry pushed for `year`: the two catch-up instants in ascending
   * order (`[date1, date2].sort((a, b) => a - b)`), both within the year and
   * on the hour.
   */
  function Derive(sha256: seq<byte> -> Digest32, email1: string, email2: string, year: int): (ev: YearEvents)
    ensures ev.year == year && ev.date1 <= ev.date2
    ensures var d1, d2 := CatchupInstant(sha256, email1, email2, year), CatchupInstant(sha256, email2, email1, year);
            (ev.date1, ev.date2) == (d1, d2) || (ev.date1, ev.date2) == (d2, d1)
    ensures StartOfYearUtc(year) <= ev.date1 && ev.date2 < StartOfYearUtc(year + 1)
    ensures OnTheHour(ev.date1) && OnTheHour(ev.date2)
  {
    var d1 := CatchupInstant(sha256, email1, email2, year);
    var d2 := CatchupInstant(sha256, email2, email1, year);
    assert OnTheHour(d1) && OnTheHour(d2);
    var pair := SortTwo(d1, d2);
    YearEvents(year, pair.0, pair.1)
  }

  /** `[a, b].sort((x, y) => x - y)`: the two values in ascending order. */
  function SortTwo(a: int, b: int): (r: (int, int))
    ensures r.0 <= r.1
    ensures r == (a, b) || r == (b, a)
  {
    if a <= b then (a, b) else (b, a)
  }

  /**
   * Swapping the addresses swaps the two seeds and so the two instants;
   * after sorting, the entry is the same. The schedule depends on the pair
   * of addresses, not on which field each was typed in.
   */
  lemma DeriveSymmetric(sha256: seq<byte> -> Digest32, email1: string, email2: string, year: int)
    ensures Derive(sha256, email1, email2, year) == Derive(sha256, email2, email1, year)
  {
  }

  /**
   * The entries `entry(from)`, `entry(from + 1)`, …, one per year for `n`
   * consecutive years, in order.
   */
  function Entries(entry: int -> YearEvents, from: int, n: nat): (s: seq<YearEvents>)
    ensures |s| == n
  {
    seq(n, k => entry(from + k))
  }

  /** Entry `i` is the one of year `from + i`. */
  lemma EntriesAt(entry: int -> YearEvents, from: int, n: nat, i: nat)
    requires i < n
    ensures Entries(entry, from, n)[i] == entry(from + i)
  {
  }

  /** One more year appends the entry of `year`, the year after the last. */
  lemma EntriesSnoc(entry: int -> YearEvents, from: int, n: nat, year: int)
    requires year == from + n
    ensures Entries(entry, from, n + 1) == Entries(entry, from, n) + [entry(year)]
  {
    var s, t := Entries(entry, from, n + 1), Entries(entry, from, n) + [entry(year)];
    forall k | 0 <= k < n + 1 ensures s[k] == t[k] {
      if k == n {
        assert s[k] == entry(year);
      }
    }
  }

  /** The entry of each year for the two addresses. */
  function DeriveFor(sha256: seq<byte> -> Digest32, email1: string, email2: string): int -> YearEvents {
    year => Derive(sha256, email1, email2, year)
  }

  /** The entries for `n` consecutive years from `from`, in order. */
  function ScheduleFor(sha256: seq<byte> -> Digest32, email1: string, email2: string, from: int, n: nat): (s: seq<YearEvents>)
    ensures |s| == n
    ensures forall i {:trigger s[i].year} :: 0 <= i < n ==> s[i].year == from + i
  {
    Entries(DeriveFor(sha256, email1, email2), from, n)
  }

  /**
   * The schedule of `n` years followed by the entry of `year`, the year
   * after the last, is the schedule of `n + 1` years.
   */
  lemma ScheduleForSnoc(sha256: seq<byte> -> Digest32, email1: string, email2: string, from: int, n: nat,
                        year: int, events: seq<YearEvents>, entry: YearEvents)
    requires year == from + n
    requires events == ScheduleFor(sha256, email1, email2, from, n)
    requires entry == Derive(sha256, email1, email2, year)
    ensures events + [entry] == ScheduleFor(sha256, email1, email2, from, n + 1)
  {
    EntriesSnoc(DeriveFor(sha256, email1, email2), from, n, year);
  }

  /** Entry `i` of the schedule is the entry `Derive` gives for its year, `from + i`. */
  lemma ScheduleAt(sha256: seq<byte> -> Digest32, email1: string, email2: string, from: int, n: nat, i: nat, year: int)
    requires i < n && year == from + i
    ensures ScheduleFor(sha256, email1, email2, from, n)[i] == Derive(sha256, email1, email2, year)
  {
    EntriesAt(DeriveFor(sha256, email1, email2), from, n, i);
    DeriveForYear(sha256, email1, email2, year);
  }

  lemma DeriveForYear(sha256: seq<byte> -> Digest32, email1: string, email2: string, year: int)
    ensures DeriveFor(sha256, email1, email2)(year) == Derive(sha256, email1, email2, year)
  {
  }

  /** What one entry promises: its pair sorted, inside its year and on the hour. */
  predicate InYear(ev: YearEvents) {
    ev.date1 <= ev.date2
    && StartOfYearUtc(ev.year) <= ev.date1 && ev.date2 < StartOfYearUtc(ev.year + 1)
    && OnTheHour(ev.date1) && OnTheHour(ev.date2)
  }

  /**
   * What the entries promise together: one per year, the years consecutive
   * from the first, and every entry in its year.
   */
  predicate WellFormed(events: seq<YearEvents>) {
    (forall i :: 0 <= i < |events| ==> InYear(events[i]))
    && (forall i :: 0 < i < |events| ==> events[i].year == events[i - 1].year + 1)
  }

  /**
   * The schedule holds `n` entries whose years run `from`, `from + 1`, …,
   * strictly ascending, and every entry keeps the promises of `Derive`.
   */
  lemma ScheduleShape(sha256: seq<byte> -> Digest32, email1: string, email2: string, from: int, n: nat)
    ensures var s := ScheduleFor(sha256, email1, email2, from, n);
      |s| == n && WellFormed(s) && forall i :: 0 <= i < n ==> s[i].year == from + i
  {
    var s := ScheduleFor(sha256, email1, email2, from, n);
    forall i | 0 <= i < n ensures InYear(s[i]) {
      ScheduleAt(sha256, email1, email2, from, n, i, from + i);
    }
  }

  /** The schedule does not depend on the order of the two addresses. */
  lemma ScheduleSymmetric(sha256: seq<byte> -> Digest32, email1: string, email2: string, from: int, n: nat)
    ensures ScheduleFor(sha256, email1, email2, from, n) == ScheduleFor(sha256, email2, email1, from, n)
  {
    var s, t := ScheduleFor(sha256, email1, email2, from, n), ScheduleFor(sha256, email2, email1, from, n);
    forall i | 0 <= i < n ensures s[i] == t[i] {
      var year := from + i;
      ScheduleAt(sha256, email1, email2, from, n, i, year);
      ScheduleAt(sha256, email2, email1, from, n, i, year);
      DeriveSymmetric(sha256, email1, email2, year);
    }
  }
}
