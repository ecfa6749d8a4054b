# 6monthcatchup — a Dafny model of the scheduling page

6monthcatchup is a static web page. It takes two e-mail addresses and gives
the pair two catch-up calls a year for the next ten years. It does not use
randomness. Each call time comes from the SHA-256 digest of a seed built from
the two addresses and the year, so the same pair always gets the same times.
The page exports the calls as one iCalendar file and as Google Calendar
links.

The model covers `script.js`:

- `Text`: the string operations the page uses.
  - `String(n)` and `padStart`.
  - `split` and `join`.
  - `replace` with a character class.
  - `Array.join` on lines.
- `Email`: input handling.
  - `trim().toLowerCase()`.
  - The address pattern `^[^\s@]+@[^\s@]+\.[^\s@]+$`.
  - The two checks at the start of `generateSchedule`.
  - The user name before `@`.
- `Digest`:
  - `hashString`: UTF-8 encoding, then the digest, then lower-case hex with two digits per byte.
  - `hashToNumber`: `parseInt` of the first eight hex digits.
- `Calendar`:
  - `isLeapYear`.
  - The UTC field decomposition of a time value, as ECMA-262 defines it (section 21.4.1), and `Date.UTC` (section 21.4.3.4).
  - `hourOfYearToDate`.
- `DateFormat`:
  - `toISOString`.
  - The compact stamp `formatDateForICS` / `formatDateForGoogle`, and reading it back.
  - The `dates` parameter of `createGoogleCalendarUrl`.
- `Schedule`: the per-year derivation. For each year it builds two seeds, takes two hours of the year and their instants, and sorts them. It also defines the ten-year schedule as a function.
- `Ics`: the lines `downloadAllICS` writes.
  - The header and the footer.
  - Thirteen lines per event.
  - The `UID` and `DESCRIPTION` texts.
- `Catchup`: the page state `eventData` as a class.
  - `generateSchedule` and `downloadAllICS` are its methods, each with its loop.
  - Each method is proved against the functions above.

The SHA-256 function is a parameter: `sha256: seq<byte> -> Digest32`. Every property holds for any function of that type. The clock readings are also parameters:
- `new Date().getFullYear()`;
- `new Date()` for `DTSTAMP`;
- `Date.now()` for each `UID`.

Time values are integers of milliseconds.

Swapping the two addresses swaps the two seeds (`email1 + email2 + year` and `email2 + email1 + year`). The pair of instants is sorted before it is pushed, so a year's entry does not depend on which field holds which address (`Schedule.DeriveSymmetric`, `Schedule.ScheduleSymmetric`).

## Model

| member | source | states |
|---|---|---|
| Text.NatToDecimal | script.js:50 | the decimal text of a number: non-empty, digits only, no leading zero, and it reads back to the number |
| Text.IntToDecimal | script.js:50 | `String(year)` for any integer: a leading `-` exactly when the year is negative, then the digits of its magnitude |
| Text.PadStart | script.js:82 | `padStart(w, c)`: leaves a text of width `w` or more alone; otherwise gives exactly width `w`, ending in the text and filled with `c` in front |
| Text.PadDigits | script.js:179-183 | padding a decimal digit string with `0`, as `toISOString` pads its month, day, time and millisecond fields and the six-digit magnitude of a year outside 0 to 9999, keeps it all digits and keeps its value |
| Text.ZeroPad | script.js:179-183 | a decimal field of `toISOString` (`String(n).padStart(w, '0')` for the two-digit fields, the three-digit milliseconds and the four-digit year) has exactly the width asked for, holds only digits and reads back to the number |
| Text.Split | script.js:179 | `split(sep)`: at least one part, no part holds the separator, joining the parts with the separator gives the text back, and the first part is a prefix of the text |
| Text.SplitAtFirst | script.js:179 | splitting at a first separator gives the text before it, then the split of the rest |
| Text.SplitWithoutSeparator | script.js:179 | a text without the separator splits into itself alone |
| Text.RemoveChars | script.js:179 | `replace(/[-:]/g, '')`: the result holds none of the removed characters, only characters of the input, and equals the input when there is nothing to remove |
| Text.RemoveCharsAppend | script.js:179 | removing characters distributes over concatenation |
| Text.JoinLines | script.js:250 | `join('\r\n')`: no lines give the empty text, one line gives that line, and the joined text starts with the first line and ends with the last |
| Text.JoinIsJoinLines | script.js:250 | joining parts with a one-character separator, the inverse that `Split` is stated against, is `join` of those parts with that separator as a text, so `Array.prototype.join` is one function in the model |
| Text.JoinLinesAppend | script.js:250 | joining two non-empty runs of lines is joining each and putting one separator between them, so every line appears in order with one separator between neighbours |
| Text.IntToDecimalInjective | script.js:50 | two integers have the same decimal text exactly when they are equal |
| Email.Trim | script.js:24-25 | `trim()`: the result is the slice that remains once the whitespace runs at both ends are cut; it starts and ends with non-whitespace |
| Email.TrimIdempotent | script.js:24-25 | trimming twice is trimming once |
| Email.ToLower | script.js:24-25 | `toLowerCase()` on ASCII: same length, each capital becomes its own lower-case letter (code plus 32), no capital is left, every other character is unchanged |
| Email.ToLowerIdempotent | script.js:24-25 | lower-casing twice is lower-casing once |
| Email.Normalize | script.js:24-25 | a normalised address has no whitespace at either end and no capital letter |
| Email.IsValidEmail | script.js:87-89 | the test is true exactly when the text matches `^[^\s@]+@[^\s@]+\.[^\s@]+$` |
| Email.ValidIffMatches | script.js:87-89 | matching the pattern is the same as: one `@`, a non-empty local part, and a domain with an inner dot, all free of whitespace |
| Email.CheckInputs | script.js:24-36 | a pair is rejected exactly when either normalised address fails the pattern; it is rejected as missing exactly when either one is empty; an accepted pair carries the normalised addresses |
| Email.EmptyRejected | script.js:28-31 | two empty fields are rejected as missing |
| Email.NoAtRejected | script.js:33-36 | `not-an-email` with a non-empty second field is rejected as invalid |
| Email.AtlessRejected | script.js:33-36 | any non-empty normalised address without `@` is rejected as invalid |
| Email.Username | script.js:198-199 | `split('@')[0]`: a prefix of the address holding no `@`; when shorter than the address, an `@` follows it |
| Digest.Utf8Encode | script.js:74-75 | `TextEncoder.encode`: at least one and at most four bytes per character on average (the total length lies between the length of the text and four times it), and the bytes are the character codes when the text is ASCII |
| Digest.ToRadix16 | script.js:82 | `toString(16)`: non-empty lower-case hex that reads back to the number; one digit exactly below 16, at most two below 256 |
| Digest.ByteHex | script.js:82 | two lower-case hex digits that read back to the byte |
| Digest.ByteHexPadded | script.js:82 | `b.toString(16).padStart(2, '0')` is exactly that pair of digits, high digit first, for every byte |
| Digest.HexOf | script.js:81-82 | the hex of a byte string is two lower-case hex digits per byte |
| Digest.HexOfValue | script.js:81-82 | the hex text reads back to the big-endian value of the bytes |
| Digest.HexOfAt | script.js:81-82 | the two hex digits at position `2i` are those of byte `i` |
| Digest.HexOfAppend | script.js:81-82 | the hex of a concatenation is the concatenation of the hexes |
| Digest.HexOfPrefix | script.js:97 | the first `2k` hex digits are the hex of the first `k` bytes |
| Digest.HexPrefix | script.js:97 | the longest prefix of hex digits, followed by a non-hex character when it is shorter than the text |
| Digest.ParseIntHex | script.js:97 | `parseInt(s, 16)`: `NaN` exactly when the text is empty or starts with a non-hex character; the value of the text when it is all hex |
| Digest.ParseHexOfBytes | script.js:97 | reading the hex of a non-empty byte string gives its big-endian value |
| Digest.HashToNumber | script.js:95-98 | `hashToNumber`: `NaN` exactly when the hash is empty or starts with a non-hex character |
| Digest.HashToNumberOfDigest | script.js:95-98 | on the hex of a digest, `hashToNumber` is the big-endian value of its first four bytes, below 2^32 |
| Digest.HashString | script.js:72-85 | `hashString` gives 64 lower-case hex digits |
| Calendar.IsLeapYear | script.js:91-93 | `isLeapYear`: every leap year is a multiple of 4, a multiple of 4 that is not a century is a leap year, and a century is a leap year exactly when it is a multiple of 400 |
| Calendar.LeapRuleInJs | script.js:91-93 | `isLeapYear` with JavaScript's truncating `%` holds for exactly the years of the Gregorian rule, negative years included |
| Calendar.HoursInYear | script.js:53 | `hoursInYear` is 24 times the days of the year; it is 8784 exactly for a leap year, else 8760 |
| Calendar.LeapYearExamples | script.js:91-93 | 2000 and 2024 are leap years; 1900 and 2023 are not; 2000 has 8784 hours and 1900 has 8760 |
| Calendar.YearLength | script.js:101 | from January 1 of `y` to January 1 of `y + 1` there are 366 days in a leap year and 365 otherwise |
| Calendar.GregorianCycle | script.js:91-93 | the leap-year rule repeats every 400 years, and 400 years hold 146097 days |
| Calendar.YearSpan | script.js:101-103 | the time from the start of a year to the start of the next is the year's `hoursInYear` hours |
| Calendar.DateUtcNewYear | script.js:101 | `Date.UTC(year, 0, 1, 0, 0, 0)`: the start of `1900 + year` for years 0 to 99, the start of `year` otherwise |
| Calendar.HourOfYearToDateAsWritten | script.js:100-104 | as written: for the years 0 to 99 the instant is never before January 1 of `1900 + year`; for every other year an hour the year has lands inside the year |
| Calendar.TwoDigitYearMisplaced | script.js:100-104 | as written, hour 0 of year 50 is the start of 1950, not of year 50, and the last hour accepted for year 0 falls after 1900 |
| Calendar.HourOfYearToDate | script.js:100-104 | for an hour the year has, the instant lies inside the year; it is on a whole hour; for every year outside 0 to 99 it equals the code as written |
| Calendar.HourOfYearToDateInjective | script.js:100-104 | two hours of one year give the same instant exactly when they are the same hour |
| Calendar.Decompose | script.js:182-184 | the UTC fields of a time value are valid, compose back to it, and name the year that contains it |
| Calendar.DecomposeCompose | script.js:182-184 | the fields of a composed date and time are those it was composed from |
| Calendar.ComposeInjective | script.js:182-184 | two valid dates and times that compose to one instant are equal |
| DateFormat.ToIsoString | script.js:179-183 | `toISOString`, for any year: at least 24 characters whose last 14 are `THH:mm:ss.sssZ` (the marks `T`, `:`, `:`, `.`, `Z` in place and digits between them), and the `.` before the milliseconds is the only `.`, so `split('.')[0]` in both formatters cuts exactly there |
| DateFormat.IsoLayout | script.js:179 | for the years 0 to 9999, `toISOString` gives the 24 characters `YYYY-MM-DDTHH:mm:ss.sssZ`, digits everywhere but the marks |
| DateFormat.FormatCompactUtc | script.js:182-184 | the stamp ends in `Z` and holds no `-`, `:` or `.` |
| DateFormat.Compacted | script.js:179 | `.replace(/[-:]/g, '').split('.')[0] + 'Z'` of any text ends in `Z` and holds no `-`, `:` or `.` |
| DateFormat.CompactForm | script.js:182-184 | for the years 0 to 9999 the stamp is the 16 characters `YYYYMMDDTHHMMSSZ`, the date part eight digits |
| DateFormat.StampReadsBack | script.js:182-184 | reading a stamp back gives the instant with the same fields and no milliseconds |
| DateFormat.ParseFormat | script.js:178-184 | a stamp of a whole second reads back to that instant, so no information is lost |
| DateFormat.GoogleDates | script.js:273 | `${startTime}/${endTime}`, where the end is the start plus one hour |
| DateFormat.GoogleDatesSpanOneHour | script.js:260-273 | `dates` splits at `/` into the two stamps, which read back to the start and to exactly one hour later |
| Schedule.Seed | script.js:50-51 | the seeds `email1 + email2 + year` and `email2 + email1 + year`: the first address, then the second, then `String(year)`, which is non-empty (so the seed is longer than the two addresses) and whose meaning `Text.IntToDecimal` states; `Schedule.SeedYearInjective` shows the year can be told back from the seed |
| Schedule.SeedYearInjective | script.js:50-51 | for one ordered pair of addresses, the seeds `first + second + year` of two years are equal exactly when the years are |
| Schedule.SeedNumber | script.js:95-98 | the number of a seed is below 2^32 |
| Schedule.SeedNumberOfHash | script.js:50-56 | `hashToNumber(hashString(seed))` is that number, with no `NaN` |
| Schedule.HourOfYear | script.js:53-56 | `hashToNumber(hash) % hoursInYear` is an hour the year has |
| Schedule.CatchupInstant | script.js:59-60 | the instant of a catch-up lies within its year and is on a whole hour |
| Schedule.SortTwo | script.js:63 | the sort of two instants is ordered and is the pair in one order or the other |
| Schedule.Derive | script.js:47-65 | the entry of a year has that year, `date1 <= date2`, and is the two catch-ups of the year in one order or the other, both within the year and on the hour |
| Schedule.DeriveSymmetric | script.js:50-63 | swapping the two addresses gives the same entry |
| Schedule.Entries | script.js:46-47 | one entry per year, `n` in all |
| Schedule.EntriesSnoc | script.js:46-65 | one more year appends that year's entry at the end |
| Schedule.ScheduleForSnoc | script.js:46-65 | the schedule of `n + 1` years is that of `n` years plus the derived entry of year `from + n` |
| Schedule.ScheduleFor | script.js:46-66 | the list the loop pushes for `YEARS_TO_GENERATE` years from the current one: one entry per year, entry `i` for year `from + i` |
| Schedule.ScheduleAt | script.js:46-65 | entry `i` of the schedule is the derived entry of year `from + i` |
| Schedule.ScheduleShape | script.js:46-66 | the schedule has one entry per year, in ascending years from the first, each ordered and inside its year |
| Schedule.ScheduleSymmetric | script.js:50-63 | the whole schedule does not depend on the order of the two addresses |
| Ics.EventTitle | script.js:198-200 | the title starts with `Random Catchup - ` and holds no `@`, so neither address appears in it whole |
| Ics.Context | script.js:195-217 | the context `downloadAllICS` builds uses `formatDateForICS` for the stamps and for `DTSTAMP`, the page's `UID` template and the page's description for every year |
| Ics.Description | script.js:217 | the description starts with `Random catch-up call for ` followed by the year's decimal text |
| Ics.Uid | script.js:214 | a `UID` value ends in `@6monthcatchup.github.io` |
| Ics.VEvent | script.js:209-223 | an event is thirteen lines, the first `BEGIN:VEVENT` and the last `END:VEVENT` |
| Ics.VEventCount | script.js:209-223 | an event block holds exactly one `BEGIN:VEVENT` line and one `END:VEVENT` line |
| Ics.IcsLines | script.js:187-248 | the file's lines are the five header lines, thirteen per event for two events per entry, and the footer; the first is `BEGIN:VCALENDAR` and the last `END:VCALENDAR` |
| Ics.Occurrences | script.js:204-246 | two events per entry |
| Ics.OccurrenceAt | script.js:204-246 | event `j` has the start of its entry's `date1` (even `j`) or `date2` (odd `j`), an end one hour later, `UID` number `j + 1` and the description of its entry's year |
| Ics.OccurrencesSnoc | script.js:204-246 | one more entry appends its two events, numbered `2n + 1` and `2n + 2` |
| Ics.RenderLength | script.js:209-223 | thirteen lines per event |
| Ics.RenderTwoMore | script.js:209-245 | writing two more events appends their two blocks |
| Ics.IcsFrame | script.js:187-250 | the file has the five header lines, thirteen per event and the footer; its text starts with `BEGIN:VCALENDAR` and ends with `END:VCALENDAR` |
| Ics.FramedBlock | script.js:209-223 | the block of event `j` fills the thirteen lines from `5 + 13j`, from `BEGIN:VEVENT` to `END:VEVENT`, with its stamps, `UID` and description in place |
| Ics.IcsEventLines | script.js:204-246 | in the file, the block of event `j` carries the stamp of its start, of one hour later, `UID` number `j + 1` and its year's description |
| Ics.IcsEventCount | script.js:202-246 | the file has `2n` `BEGIN:VEVENT` and `2n` `END:VEVENT` lines for `n` entries |
| Ics.FramedCount | script.js:209-248 | one `BEGIN:VEVENT` line per event block |
| Ics.StampOfYear | script.js:206-207 | a whole-second stamp of the years 0 to 9999 has 16 characters and reads back to its instant |
| Ics.StampsOfHour | script.js:206-207 | the `DTSTART` and `DTEND` stamps of a catch-up read back to its start and to one hour later |
| Ics.FormatsOfHour | script.js:206-207 | the same for any context whose stamp function is `formatDateForICS` |
| Ics.OccurrenceUid | script.js:214 | event `j` carries `UID` `${Date.now()}-${j + 1}@6monthcatchup.github.io` |
| Ics.UidInjective | script.js:214 | two `UID` values are equal exactly when the clock readings and the counters are |
| Ics.IcsUidsDistinct | script.js:203-224 | the `UID` lines of any two events in one file differ, whatever the clock reads |
| Catchup.EventData.constructor | script.js:7-11 | the initial state: both addresses empty, no entries |
| Catchup.EventData.GenerateSchedule | script.js:23-70 | the outcome is the input check; a rejected input leaves the state as it was; otherwise the state holds the normalised addresses and exactly the ten-year schedule from the current year |
| Catchup.EventData.StoreSchedule | script.js:38-66 | an accepted pair is stored, and the entries become exactly the ten-year schedule of that pair from the current year |
| Catchup.EventData.PushYears | script.js:46-66 | starting from no entries, the loop pushes the derived entry of each of the ten years in ascending order and leaves the addresses alone |
| Catchup.YearEntry | script.js:47-65 | the loop body of one year computes that year's derived entry |
| Catchup.HourFromHash | script.js:50-56 | on a seed's hash, `hashToNumber` is never `NaN`, and its remainder by `hoursInYear` is the seed's hour of the year |
| Catchup.EventData.DownloadAllIcs | script.js:186-250 | the text handed to the download is the calendar's lines joined with CRLF, and the counter ends one past the number of events |
| Catchup.WriteEvents | script.js:203-246 | the loop writes the blocks of every event in order after the header, and counts them from 1 |
| Catchup.EntryWritten | script.js:204-245 | writing the two blocks of entry `i` extends the blocks of the first `i` entries to those of the first `i + 1` |

## Left out

- SHA-256 itself (`crypto.subtle.digest`) is a parameter. Every property holds for any 32-byte digest function.
- `async`/`await`: each `await` is modelled as the value it yields. So two overlapping runs of `generateSchedule` (a second submit while a digest is still being computed) are not modelled; on the page both push into the same, newest `events` array.
- `crypto.subtle.digest` can fail, and outside a secure context `crypto.subtle` is undefined. `hashString` then throws after script.js:39-41 have already replaced the addresses and emptied `events`, leaving the page half-updated. The model's `sha256` is total, so GenerateSchedule always fills ten entries.
- A JavaScript string is a sequence of UTF-16 code units; the model's `string` is a sequence of Unicode scalar values. A lone surrogate cannot be represented, though the address pattern accepts one and `TextEncoder` encodes it as the bytes EF BF BD.
- The DOM is not modelled. This covers:
  - the event listeners;
  - reading the two fields;
  - the `alert` messages (modelled as the `Rejected` outcome and its reason);
  - `displayResults`;
  - the Blob, link and click of the download.
- `formatDateTime`'s locale formatting is not modelled. It feeds only the display.
- `createGoogleCalendarUrl` is modelled only as far as the stamps and its `dates` parameter (`DateFormat.GoogleDates`). The `URLSearchParams` percent-encoding, the `text`, `details` and `add` parameters and the URL prefix are not modelled.
- The clock readings are parameters:
  - `new Date().getFullYear()` is the integer `currentYear`;
  - `new Date()` is `nowMs`;
  - each `Date.now()` is `clock(k)`.
- Numbers are integers, not IEEE doubles. Every value the page computes is an integer far below 2^53, so nothing is rounded. The ±8.64e15 ms limit on time values (`Invalid Date`) is not modelled.
- Email.ToLower: only ASCII letters are mapped; `toLowerCase` on other scripts' letters is not modelled.
- Digest.ParseIntHex: the sign, the leading whitespace and the `0x` prefix that `parseInt` also accepts are not modelled. `hashString` never yields them.
- Digest.HashToNumber: inherits that gap for an arbitrary text: a leading sign, whitespace or `0x` would be read by `parseInt` but gives `NaN` in the model. On the page its argument is always a lower-case hex digest, where the two agree (`Digest.HashToNumberOfDigest`).
- The stamps are proved to read back only for the years 0 to 9999 (`DateFormat.CompactForm`, `DateFormat.ParseFormat`). Outside that range `toISOString` writes a signed six-digit year; the model writes it, but no read-back is stated for it.
- In `downloadAllICS` the texts that vary by event are built through an `IcsContext` record. It carries the stamp, `UID` and description functions, and `Ics.Context` states that the page's own are used. The two copies of the block in the loop body are one function, `Ics.VEvent`.
- `eventData.events` holds `Date` objects; the model holds their time values.
- Ics.Uid: the `Date.now()` readings are natural numbers, so a clock set before 1970, whose reading is negative, is not modelled; its `UID` would start with `-`.
- Schedule.CatchupInstant, Schedule.Derive, Catchup.YearEntry, Catchup.EventData.GenerateSchedule, Catchup.EventData.StoreSchedule and Catchup.EventData.PushYears are built on the corrected `Calendar.HourOfYearToDate` (see Findings). For a year from 0 to 99 the page anchors the hours at January 1 of `1900 + year` (`Date.UTC`, script.js:101), while the model anchors them in the year itself. For every other year `HourOfYearToDate` equals the code as written, so these members model the page exactly there.

## Findings

| source | as written | input that shows it | evidently intended | confidence | as-written member | corrected member |
|---|---|---|---|---|---|---|
| script.js:101 | `Date.UTC(year, 0, 1, 0, 0, 0)` reads the years 0 to 99 as 1900 to 1999, so `hourOfYearToDate` anchors a two-digit year in the twentieth century | `hourOfYearToDate(0, 50)` gives 1950-01-01T00:00:00Z, not January 1 of year 50 | the instant `hourOfYear` hours after January 1 of `year` itself, inside that year for every hour the year has | not executed | Calendar.HourOfYearToDateAsWritten, Calendar.TwoDigitYearMisplaced | Calendar.HourOfYearToDate |
