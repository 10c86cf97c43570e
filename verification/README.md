# Stream key check — a Dafny model

The program is a small publishing hook for a streaming server. A publisher
sends its address and a composite stream name `username/streamkey`. The hook:

- splits the name on `/`;
- looks up a matching, unsuspended, not-blacklisted record in a document store;
- reads the record's `end_duration` as a Kolkata wall time in the layout
  `DD/MM/YYYY, hh:mm:ss AM`;
- accepts the stream when that moment is still in the future;
- writes each decision into an in-memory log that keeps the newest 100 entries
  and numbers every entry with a counter that starts at 1.

The model has six modules, one per file:

- `Wrappers` (`wrappers.dfy`): `Option` with the `:-` failure propagation.
- `Calendar` (`calendar.dfy`): the proleptic Gregorian calendar and the date
  checks the date-time parser applies. It counts seconds since 1970 with a
  closed-form day count, and proves that count equal to a year-by-year walk.
  It proves that comparing second counts decides the field-by-field order of
  naive date-times.
- `Timestamp` (`timestamp.dfy`): the parse of `end_duration` with
  `%d/%m/%Y, %I:%M:%S %p`, as the parser does it:
  - numeric fields take one up to two (year: four) digits greedily;
  - literals must match exactly;
  - AM/PM is read in either letter case;
  - second 60 is accepted as a leap second;
  - leftover text is an error.

  The module also covers the 12-hour/24-hour conversion, rendering with the
  same layout, the fixed +05:30 Kolkata offset, and the expiry test against
  the UTC clock.
- `Credential` (`credential.dfy`): `str::split` on `/` as a function with its
  inverse `Join`. Segment 0 is the account and segment 1 the secret.
- `AuditLog` (`audit_log.dfy`): the log list and counter, one append as one
  atomic state transition, the snapshot, and the effect of any sequence of
  appends.
- `Validation` (`validation.dfy`): `check_stream_key`. Its three collaborators
  become parameters:
  - the store client set-up (connection string parse, client creation) is an
    outcome;
  - the query is a function from the filter to an answer;
  - the UTC clock is whole seconds since the epoch, together with the time
    stamp text the log would record.

  The function returns `Ok(valid)`, `Err(message)` or a panic, together with
  the log after the call.

Instants are integer seconds. The clock is passed as the floor of the UTC time.
Stored expiries are whole seconds, so for them "expiry <= now" is the same with
or without the fraction. A leap-second expiry `:60` counts as the first second
of the next minute. This matches the ordering of the naive date-time type,
which sorts it after `:59` and before the next minute.

Two orderings in the code shape the outcomes:
- A name without `/` panics: `.nth(1).unwrap()` fails while the query filter
  is built, before any lookup, and nothing is logged (`Validation.NameWithoutSlashPanics`, `Validation.BobPanics`).
- The connection string parse and the client creation run before the name is
  split. When either fails, a malformed name gets that `Err`, not a panic
  (`Validation.SetupErrorsComeFirst`). A server that cannot be reached is
  only noticed by the query, after the split, so it is a `LookupFailed`
  answer and a malformed name still panics.

## Model

| member | source | states |
|---|---|---|
| Calendar.DaysBeforeYearMatchesWalk | src/main.rs:114-118 | The closed-form day count before 1 January of any year equals walking year by year from 1970, adding 366 for leap years and 365 otherwise. |
| Calendar.LeapYearsStep | src/main.rs:114-118 | The leap-year count through year n exceeds the count through n − 1 by one exactly when n is a Gregorian leap year. |
| Calendar.DayInYear | src/main.rs:114-118 | Every valid date's day number lies inside its own year's span. |
| Calendar.DayNumberOrder | src/main.rs:114-122 | For valid dates, one date is earlier in the calendar if and only if its day number is smaller. |
| Calendar.SecondsOrder | src/main.rs:114-122 | For valid date-times (the right one not a leap second), field-by-field order holds if and only if the second counts are ordered the same way. |
| Calendar.ToSeconds | src/main.rs:114-122 | For a clock reading (second 0..59), the second count divided by 86400 is the day number of the date, and the remainder is the second of that day. Together with `Calendar.SecondsOrder` this makes the count the ordering key of the naive date-times. |
| Calendar.DayOf2000 | src/main.rs:114-118 | 1 January 2000 is day 10957 after the epoch, fixing the epoch of the count. |
| Timestamp.To24 | src/main.rs:110-111 | A 12-hour reading 1..12 maps to an hour 0..23 that is 12 or later exactly for PM and agrees with the reading modulo 12 (12 AM is 0, 12 PM is 12). |
| Timestamp.ClockRoundTrip | src/main.rs:110-111 | The 24-to-12-hour conversion and the 12-to-24-hour conversion are inverse to each other. |
| Timestamp.Assemble | src/main.rs:110-111 | Field values are accepted only as a calendar-valid date-time. |
| Timestamp.ParseExpiry | src/main.rs:110-111 | Any successful parse of an `end_duration` text is a valid calendar date-time. |
| Timestamp.ParseText | src/main.rs:110-111 | The text `DD/MM/YYYY, hh:mm:ss AM` of any field values parses if and only if the date is a real calendar date, the hour is 01..12, minutes are 0..59 and seconds 0..60. It then yields those fields with the hour on the 24-hour clock. |
| Timestamp.ParsedTextHasLayout | src/main.rs:110-111 | Only text in the layout parses. A successful parse is `D/M/Y, h:m:s X`: one or two digits each for day, month, hour, minute and second, one to four for the year, and AM or PM in any letter case. The digits show the parsed fields, the hour on the 12-hour clock, and the marker matches the half of the day. |
| Timestamp.LayoutParses | src/main.rs:110-111 | Conversely, any text in that layout that shows a valid date-time, padded or not, parses to that date-time. |
| Timestamp.ParseExpiryIff | src/main.rs:110-111 | A text parses to a given date-time if and only if the date-time is valid and the text shows it in the layout. |
| Timestamp.FormatRoundTrip | src/main.rs:110-111 | Rendering any valid date-time of years 0..9999 with the layout and parsing it back returns the same date-time. |
| Timestamp.NewYearMidnight | src/main.rs:110-111 | `01/01/YYYY, 12:00:00 AM` parses to hour 0 of 1 January of that year. |
| Timestamp.ExampleExpiry | src/main.rs:110-111 | `01/01/2099, 12:00:00 AM` parses to 2099-01-01 00:00:00. |
| Timestamp.IsExpired | src/main.rs:102-122 | The expiry test fails exactly when the text does not parse. Otherwise, for the Kolkata wall time of now (any clock reading whose second count is now + 19800), it reports expired exactly when the stored wall time is not after that reading field by field. The boundary counts as expired. |
| Timestamp.KolkataToUtc | src/main.rs:114-118 | The UTC instant of a Kolkata wall time is at or before the UTC instant of another Kolkata clock reading exactly when the first wall time is not after the second field by field: the fixed +05:30 offset keeps the naive order. |
| Timestamp.KolkataEpoch | src/main.rs:113-117 | Kolkata is ahead of UTC: 05:30 on 1 January 1970 in Kolkata is UTC instant 0, so the +05:30 offset is subtracted when moving to UTC. |
| Credential.Split | src/main.rs:87-88 | Splitting yields at least one segment, no segment contains the separator, and joining the segments with the separator gives back the text. There is a second segment exactly when the text contains the separator. |
| Credential.SplitUnique | src/main.rs:87-88 | Splitting the join of any separator-free segments returns exactly those segments, so the split is the unique such cut. |
| Credential.ParseName | src/main.rs:87-88 | The name has no account/secret pair if and only if it contains no `/`. Otherwise the account is the text before the first `/` and the secret is the text up to the next `/` or the end. |
| Credential.ParseNameOf | src/main.rs:87-88 | Any account and secret without `/`, followed by nothing or by further `/`-segments, are read back unchanged. |
| Credential.ExampleName | src/main.rs:87-88 | `alice/SECRET123` names account `alice` with secret `SECRET123`. |
| AuditLog.Init | src/main.rs:37-40 | The starting log is empty with counter 1 and satisfies the log invariant. |
| AuditLog.Append | src/main.rs:42-62 | An append advances the counter by exactly one and puts the new entry last, numbered with the counter's prior value. |
| AuditLog.AppendKeepsValid | src/main.rs:48-61 | An append preserves the invariant: the serial numbers run consecutively up to counter − 1, and the list holds min(counter − 1, 100) entries. |
| AuditLog.AppendKeepsNewest | src/main.rs:55-59 | The list after an append is the newest 100 of the old list plus the new entry: only the oldest entry is dropped at capacity, and the others keep their order and contents. |
| AuditLog.Snapshot | src/main.rs:66-70 | For a log satisfying the invariant, the snapshot has at most 100 entries. Its serial numbers strictly increase and end at counter − 1. It holds exactly 100 entries once 100 or more were made. |
| AuditLog.AppendAllKeepsNewest | src/main.rs:42-62 | Any sequence of appends leaves the counter advanced by their number and the list equal to the newest 100 of the old list followed by every new entry, numbered from the old counter in order. |
| AuditLog.NewestNumbering | src/main.rs:48-61 | The newest entries of a history numbered from 1 carry consecutive numbers ending at the history's length. |
| AuditLog.HistoryFromStart | src/main.rs:37-62 | From the empty log, after n appends the snapshot is the newest (at most 100) of the n entries numbered 1..n, and the counter is n + 1. |
| AuditLog.FirstEvicted | src/main.rs:55-59 | After more than 100 appends from the start, entry number 1 is no longer in the snapshot. |
| Validation.FilterFor | src/main.rs:86-91 | A query exists exactly when the name contains `/`. It then asks for stream key = segment 1 and user name = segment 0 of the name, and carries the publisher's address for the blacklist test. |
| Validation.Judge | src/main.rs:99-129 | For a found record: a missing `end_duration` panics with that cause, and text that does not parse panics with the parse cause. Either way the log is untouched. Otherwise the result is Ok, valid exactly when the expiry in UTC is strictly after now, and it appends one accepted or expired entry. |
| Validation.CheckStreamKey | src/main.rs:71-134 | An error or a panic leaves the log unchanged. `Ok(true)` appends one "Stream key accepted" entry under the full name. `Ok(false)` appends one "Stream key not found" or "Stream key expired" entry. |
| Validation.OneEntryPerDecision | src/main.rs:71-134 | Every call preserves the log invariant. The counter moves by one exactly when the call returns Ok and stays put otherwise. The new entry's subject is the whole unsplit name. |
| Validation.AcceptedIff | src/main.rs:71-134 | The stream is accepted if and only if the client set-up succeeds, the name has a `/`, and the query for (stream key = segment 1, user name = segment 0, address) finds a record. That record's `end_duration` must parse, and its UTC instant must be strictly after now. |
| Validation.RejectedIff | src/main.rs:71-134 | `Ok(false)` is returned if and only if the client set-up succeeds, the name has a `/`, and the query for (segment 1, segment 0, address) finds nothing, or finds a record whose `end_duration` parses to a UTC instant at or before now. |
| Validation.PanicIff | src/main.rs:71-111 | The check panics if and only if the configuration is missing, or the client set-up succeeds and either the name has no `/` or the record found has a missing or unparseable `end_duration`. |
| Validation.MissingConfigPanics | src/main.rs:73-74 | A missing database URL or name panics before anything else, and nothing is logged. |
| Validation.MissingEndDurationPanics | src/main.rs:107 | A found record without an `end_duration` text panics, and nothing is logged. |
| Validation.MalformedExpiryPanics | src/main.rs:110-111 | A found record whose `end_duration` does not parse panics rather than counting as expired, and nothing is logged. |
| Validation.NotFoundPath | src/main.rs:131-133 | No matching record gives `Ok(false)` with one "Stream key not found" entry. |
| Validation.ExpiryBoundary | src/main.rs:121-125 | An expiry whose UTC instant equals now is already expired: `Ok(false)` with one "Stream key expired" entry. |
| Validation.FoundRecordDecides | src/main.rs:99-129 | For a found record with a parseable expiry, the outcome is `Ok(now < expiry in UTC)`, logged as accepted or expired accordingly. |
| Validation.FoundRecordJudged | src/main.rs:93-99 | A record found by the query on the split name is handed to the expiry judgement unchanged. |
| Validation.WallClockDecides | src/main.rs:102-129 | For a found record whose `end_duration` is present and parses, the outcome is Ok(stored wall time is after the Kolkata wall time of now). |
| Validation.NameWithoutSlashPanics | src/main.rs:86-88 | Once the client set-up succeeds, a name without `/` panics while the filter is built, before any query, and nothing is logged. |
| Validation.BobPanics | src/main.rs:86-88 | The name `bob` panics and leaves the log unchanged. |
| Validation.SetupErrorsComeFirst | src/main.rs:76-79 | A failing connection or client set-up returns `Err` with the matching message prefix, whatever the name, and leaves the log unchanged. |
| Validation.QueryErrorNotLogged | src/main.rs:93-95 | A failing query returns `Err("Error finding stream key: " + reason)` and leaves the log unchanged. |

## Left out

- The HTTP layer (routes, catchers, the status mapping of `check_data_handler`, server start-up): transport plumbing around the decision.
- The document store: the client is an outcome (`Setup`) and the query a function from the filter to an answer. The `suspend: false` condition and the `$nin` blacklist semantics belong to the store and are not modelled. The filter carries the address, so a store that honours the blacklist can be plugged in.
- Environment variables: a missing `DATABASE_URL` or `DATABASE_NAME` is the single outcome `MissingConfig`, a panic. The message text of `expect` is not modelled.
- Concurrency: the two locks are held for a whole append, so an append is one atomic step. Interleavings of concurrent requests are a sequence of such steps (`AuditLog.AppendAll`).
- Wall-clock reads: the UTC clock is a parameter in whole seconds. The log's local time stamp is an opaque text parameter, because the server's local time zone is not known to the program.
- Historical time-zone data: Asia/Kolkata is taken as a fixed +05:30. Offsets before 1945 differ and are not modelled. The fixed offset has no gaps or folds, so `.earliest()` always succeeds.
- Timestamp.ParseExpiry: the parser's tolerance of leading whitespace before numeric fields, and of zero or more whitespace characters where the layout has a space (so the parser accepts `01/01/2099,12:00:00AM`), is not modelled, so the model rejects some texts the parser accepts. Signed or longer-than-four-digit years are also not modelled.
- Timestamp.FormatRoundTrip: stated for years 0..9999 only. Other years render with a sign or more digits, and the model's four-digit year field does not read those back.
- AuditLog.Append: the counter is unbounded, while the Rust handler's counter is a `usize`. Wrap-around would need 2^64 appends.
- Diagnostic printing and JSON serialisation of the snapshot.
