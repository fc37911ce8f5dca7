# Supervictor: verification model

Supervictor collects readings ("uplinks") from small devices, keeps them in one of two
stores, classifies every registered device by how recently it was heard from, raises alerts
when a device goes dark and streams uplinks live to dashboards. The device itself speaks
HTTP with hand-written printers and parsers over fixed-capacity buffers, and runs a small
portal with its own HTTP and DNS responders. This project models that logic in Dafny and
proves what it promises over all inputs, all histories and all interleavings.

| modules | what they model |
|---|---|
| `Calendar`, `Text`, `Rfc3339` | `time.rs`: the closed-form calendar, the timestamp printer and parser, and the byte order of printed timestamps |
| `Records`, `Sqlite`, `Dynamo`, `Backends`, `Concurrency` | the two stores as objects over their tables, one notion of "latest", the two stores run side by side, and the interleavings of the two-lock status update |
| `Fleet`, `Watchdog` | classification, the snapshot join, the summary, and the ticking watchdog over whole runs of the system |
| `Sse`, `Ingest` | the live event fan-out as a transition system, and the uplink route that feeds it |
| `HttpText`, `HttpClient`, `Portal`, `HttpRoundTrip` | the device's HTTP client, the portal's request parser and response printers, and both round trips between them |
| `Dns` | the name walker and the DNS responder, against sections 3 and 4 of RFC 1035 |
| `Options` | the option type |

Pure Rust code is a function with lemmas about it. Code that works step by step is a method
or a class with its own fields and loops, proved against such a function: the two stores, the
event hub with its 64-slot ring, the watchdog loop, the fixed-capacity strings and vectors,
the printers, the response parser and the DNS responder. Timestamps and DNS messages are
bytes; HTTP text is a sequence of Unicode scalar values whose capacity is counted in UTF-8
bytes.

## Main results

1. Up to year 9999, printed timestamps compare byte by byte exactly as the instants they
   print, for every mix of 0, 3, 6 and 9 fraction digits. Section 5.1 of RFC 3339 promises
   this only for equal numbers of fraction digits. It holds here because `+` sorts below `.`
   and below every digit, and both stores rely on it (`TextOrderIsTimeOrder`,
   `LatestIsChronological`). For all instants, it holds exactly between years of equally many
   digits, or when the earlier year is at most the leading digits of the later
   (`TextOrderExactly`).
2. The closed-form calendar is the Gregorian calendar, found by counting days forward, and
   printing then parsing is exact: up to year 9999 it gives the second back, from year 10000
   on it gives nothing. Exactly which texts the parser takes, and for which second, is proved
   for all texts, and so is what every printed text says (`CivilCountsForward`, `RoundTrip`,
   `ParseExactly`, `PrintedExactly`).
3. After any history of writes the two stores answer every next write alike and their fleet
   snapshots agree, except that the firmware version may differ between rows of one device
   with the same newest timestamp; the exact condition is proved (`SnapshotsAgree`,
   `SnapshotsEqualExactly`). So is the one under which `get_uplinks` gives the same rows
   (`GetUplinksAgreeExactly`).
4. Over every run with a non-decreasing clock, "recovered from dark" is caused by an uplink
   and "went dark" means exactly that all uplinks are old, although the clock, the device list
   and the rows are read at different moments. The tick that seeds the loop, and a failed one,
   report nothing (`RecoveryHasACause`, `WentDarkExactly`, `SeedAndFailedTicksAreSilent`).
5. Over every interleaving, what is published is exactly what was sent, each event client sees
   an ordered, duplicate-free part of it since it subscribed, every event is accounted for, no
   client affects another, and a client loses nothing exactly when its forwarder never found
   itself behind the ring nor an event met a full queue. Over the joint interleaving of
   requests and clients, every event delivered has a stored record (`DeliveredHasRecord`).
6. What the device posts the portal reads back, and what the portal answers, errors included,
   the device reads back. The Content-Length of an error response is always the size of its
   body, and for every message it is known exactly when that body is a JSON object: when two
   bytes were left for its closing and no control character was kept
   (`ErrorBodyIsJsonExactly`).
7. The DNS walk is exactly the decoding of length-prefixed labels. A decoder following RFC 1035
   that expands names consumes the response to its last byte exactly when the query asked one
   question whose name it can expand within 255 octets: labels of at most 63 bytes, ended by
   a zero byte or by a pointer to one of the few names that the header's bytes spell. It then
   finds one A record under the question's own name (`AnswerDecodesExactly`).

## Where the code and its documentation differ

The model follows the code.

- `parse_rfc3339_unix` also accepts `-00:00`, a missing offset, second 60, day 31 of any month
  and a leading sign in a number field (`time.rs:21-60` documents `Z` or `+00:00`).
  `ParserTakesFebruary31` is a concrete case, and `ParseThenFormat` says exactly when parsing
  and printing gives a date and time back.
- `summarize` documents that a revoked device going quiet is not an alert (`fleet.rs:135-136`),
  but the watchdog reports devices of every status: `InactiveDevicesStillAlert` is such a run,
  and `RevokedSparedExactly` says when a tick's alerts are free of revoked devices.
- `push_json_str` documents "safe JSON string embedding" (`server.rs:31`). It leaves control
  characters raw, and the error body of a message of 117 plain characters loses its closing
  quotation mark and brace, so that an unterminated object goes out under a Content-Length
  that matches it (`LineFeedIsNotJson`, `LongMessageStaysOpen`).
- `build_dns_response` documents an answer for any query (`dns.rs:31-33`). A question whose name
  is a pointer to itself is answered too, with names that expand to nothing
  (`SelfPointerIsAnswered`), and so is a query that asks no question or several.
- `sqlite.rs:172-173` relies on SQLite taking the other columns from the row with the maximum.
  Among rows with equal maxima that leaves the choice open, and so does the model
  (`AnyTiedRowMayBeChosen`).
- `get_uplinks` takes an unsigned limit; SQLite clamps it to a signed 64-bit value, DynamoDB
  cuts it to 32 bits, so that 0 and some large limits fail there and 2^32 + 1 returns one row
  (`GetUplinksAgreeExactly`).
- `snapshot_now` falls back to time 0 when the clock does not parse, which happens from year
  10000 on (`SnapshotNowReadsTheClock`).

## Model

| member | source | states |
|---|---|---|
| Calendar.DaysOfCivil | supervictor/endpoint/src/time.rs:62-97 | the formatter's date of every day number is a valid Gregorian date, and the parser's day number of it is that day |
| Calendar.CivilOfDays | supervictor/endpoint/src/time.rs:62-97 | the formatter's date of the parser's day number is the date itself, for every valid date from 1970-01-01 on |
| Calendar.DaysOfNextDay | supervictor/endpoint/src/time.rs:62-69 | the calendar successor of a valid date (any year) has the next day number |
| Calendar.CivilSuccessor | supervictor/endpoint/src/time.rs:87-97 | the next day number is printed as the calendar successor, by the leap-year rule of Appendix C of RFC 3339 |
| Calendar.CivilCountsForward | supervictor/endpoint/src/time.rs:87-97 | the closed form refines the calendar that counts days forward one at a time from 1970-01-01 |
| Calendar.CivilIsMonotone | supervictor/endpoint/src/time.rs:87-97 | later day numbers are later dates |
| Calendar.FourDigitYears | supervictor/endpoint/src/time.rs:87-101 | years have four digits exactly for the days before 10000-01-01 |
| Text.PaddedDigits | supervictor/endpoint/src/time.rs:101-108 | zero-padded printing gives digits that denote the number, and exactly the asked width when it fits |
| Text.PaddedOrder | supervictor/endpoint/src/time.rs:101-108 | zero-padded numbers of one width compare, byte by byte, as the numbers do |
| Text.LexExactly | supervictor/endpoint/src/store/sqlite.rs:172-201 | a text sorts first exactly when it is a proper prefix of the other or has the smaller byte where they first differ |
| Rfc3339.RoundTrip | supervictor/endpoint/src/time.rs:26-113 | for every number of seconds and nanoseconds, the printed text parses back to the second before year 10000 and does not parse from then on |
| Rfc3339.ParseThenFormat | supervictor/endpoint/src/time.rs:26-113 | parsing then printing any accepted text gives its date and time back exactly when its fields are plain digits naming a valid date and a second below 60 |
| Rfc3339.ParserTakesFebruary31 | supervictor/endpoint/src/time.rs:43 | the concrete text `2025-02-31T00:00:00Z` is taken as March 3 |
| Rfc3339.ParseDigitFields | supervictor/endpoint/src/time.rs:26-75 | the second or refusal the parser returns on any text whose six fields are digits, from the numbers they denote |
| Rfc3339.ParseExactly | supervictor/endpoint/src/time.rs:26-75 | a text parses to a second exactly when its separators stand, its six fields are numbers in range, its tail is an optional fraction and `Z`, `+00:00`, `-00:00` or nothing, and its day is not before 1970, and the second is the one these name |
| Rfc3339.OtherOffsetsAreRefused | supervictor/endpoint/src/time.rs:57-60 | the concrete text `2025-01-01T00:00:00+05:00` is refused |
| Rfc3339.DaysAddUp | supervictor/endpoint/src/time.rs:66-69 | a day beyond the end of its month counts on into the next, for the dates that the parser takes and the calendar does not have |
| Rfc3339.PrintedExactly | supervictor/endpoint/src/time.rs:78-112 | a printed timestamp of a four-digit year has the date reached by counting days, the time of day, the nanoseconds in the fewest groups of three digits, and `+00:00` |
| Rfc3339.PrintedInUtc | supervictor/endpoint/src/time.rs:111 | every printed timestamp, of whatever year, ends with `+00:00` |
| Rfc3339.TextOrderIsTimeOrder | supervictor/endpoint/src/time.rs:77-113 | up to year 9999, byte order of printed timestamps is the order of (seconds, nanoseconds), and printing is injective, over all mixes of fraction lengths |
| Rfc3339.TextOrderExactly | supervictor/endpoint/src/time.rs:77-113 | for all instants, an earlier one prints a smaller text exactly when both years have equally many digits or the earlier is at most the leading digits of the later |
| Rfc3339.FractionOrder | supervictor/endpoint/src/time.rs:99-111 | fractions printed with 0, 3, 6 or 9 digits, followed by the offset, compare as their values |
| Rfc3339.SlicesAreSafe | supervictor/endpoint/src/time.rs:42-56 | the parser's two unchecked slices never split a UTF-8 character |
| Rfc3339.FormatterFits | supervictor/endpoint/src/time.rs:78-97 | the formatter's 64-bit arithmetic never wraps for any u64 of seconds |
| Rfc3339.ParserFits | supervictor/endpoint/src/time.rs:37-74 | the year field is small, every signed value on the way to the day number is small for every date accepted, and every parsed instant is at most 10000-01-01, so the parser's arithmetic never wraps |
| Records.PrintedOrder | supervictor/endpoint/src/time.rs:14-19 | stored timestamps, being printed clock readings, compare as those readings and parse to their second |
| Records.LatestExists | supervictor/endpoint/src/store/sqlite.rs:172-175 | a device that ever uplinked has a row with the textually greatest timestamp |
| Records.LatestTextUnique | supervictor/endpoint/src/store/sqlite.rs:172-175 | all latest rows of a device carry one timestamp |
| Records.LatestIsChronological | supervictor/endpoint/src/store/sqlite.rs:172-175 | a row carries the textual maximum exactly when no row of its device is chronologically later |
| Sqlite.SqliteStore.PutDevice | supervictor/endpoint/src/store/sqlite.rs:54-74 | inserts the record, or reports that the id exists and changes nothing; ids stay unique |
| Sqlite.SqliteStore.GetDevice | supervictor/endpoint/src/store/sqlite.rs:76-102 | finds the one row with the id, if there is one |
| Sqlite.SqliteStore.PutUplink | supervictor/endpoint/src/store/sqlite.rs:129-142 | appends the row and changes nothing else |
| Sqlite.SqliteStore.UpdateStatus | supervictor/endpoint/src/store/sqlite.rs:145-161 | the first lock section: only the status of the row with the id changes, and the count says whether there was one |
| Sqlite.SqliteStore.SetDeviceStatus | supervictor/endpoint/src/store/sqlite.rs:144-165 | without interference, returns the record with its new status, or not-found and no change |
| Sqlite.SqliteStore.LatestUplinks | supervictor/endpoint/src/store/sqlite.rs:167-193 | one row per device that ever uplinked, each carrying its device's greatest timestamp |
| Sqlite.SqliteStore.GetUplinks | supervictor/endpoint/src/store/sqlite.rs:195-221 | the device's rows in descending order cut at the limit: with the rows left out they are, counted with repetition, all rows of the device |
| Sqlite.StepKeepsUnique | supervictor/endpoint/src/store/sqlite.rs:31-38 | no operation makes a second row of one id |
| Sqlite.NewestDescends | supervictor/endpoint/src/store/sqlite.rs:195-221 | returned rows belong to the device and run chronologically downwards |
| Sqlite.NewestLeavesOutOlder | supervictor/endpoint/src/store/sqlite.rs:195-221 | no row left out by the limit is chronologically newer than one returned |
| Sqlite.HeadIsLatest | supervictor/endpoint/src/store/sqlite.rs:167-221 | the first row of `get_uplinks` carries the timestamp that `latest_uplinks` gives the device |
| Sqlite.GetUplinksExactly | supervictor/endpoint/src/store/sqlite.rs:195-221 | the number of rows returned is the limit or all stored rows of the device, and no row is returned more often than it was stored |
| Sqlite.LatestUplinksAreChronological | supervictor/endpoint/src/store/sqlite.rs:167-193 | exactly the devices that ever uplinked have a row, exactly one, with the chronologically greatest time |
| Dynamo.DeviceToItem | supervictor/endpoint/src/store/dynamo.rs:36-82 | the item has exactly the named attributes, each with its field, the subject only when there is one, and `item_to_device` gives back the record |
| Dynamo.ItemToDeviceExactly | supervictor/endpoint/src/store/dynamo.rs:57-82 | an item is a device exactly when its four mandatory attributes are texts, and a subject that is not a text counts as none |
| Dynamo.AsI32Exactly | supervictor/endpoint/src/store/dynamo.rs:215 | the limit sent is the limit modulo 2^32 as a signed 32-bit number |
| Dynamo.DynamoStore.PutDevice | supervictor/endpoint/src/store/dynamo.rs:86-110 | the conditional put: a new record through its item, or already-exists and no change |
| Dynamo.DynamoStore.SetDeviceStatus | supervictor/endpoint/src/store/dynamo.rs:153-191 | the conditional update of one status, returning the new record, or not-found and no change |
| Dynamo.DynamoStore.PutUplink | supervictor/endpoint/src/store/dynamo.rs:135-151 | writes the message under (device, time), overwriting an equal key |
| Dynamo.DynamoStore.ListDevices | supervictor/endpoint/src/store/dynamo.rs:128-133 | every device record once, in no particular order |
| Dynamo.DynamoStore.GetUplinks | supervictor/endpoint/src/store/dynamo.rs:207-253 | the device's greatest keys in strictly descending order, up to the limit as an i32, and failure when that is not positive |
| Dynamo.DynamoStore.LatestUplinks | supervictor/endpoint/src/store/dynamo.rs:196-205 | the latest message of each registered device that has one, each device once |
| Dynamo.OneMessageIsLatest | supervictor/endpoint/src/store/dynamo.rs:193-205 | a query with limit one returns the latest message, and nothing exactly when there is none |
| Concurrency.RowIsFirstPutWithLastStatus | supervictor/endpoint/src/store/sqlite.rs:54-165 | under every interleaving of lock sections a row is the record of its first put with the status last written: owner, subject and creation time never change |
| Concurrency.RowExactly | supervictor/endpoint/src/store/sqlite.rs:54-165 | the row of an id is the record of its first put with the status of the last update since, or its own, found from the events alone |
| Concurrency.OneRowPerId | supervictor/endpoint/src/store/sqlite.rs:54-74 | no interleaving makes two rows of one id |
| Concurrency.ExactlyTheFirstPutWins | supervictor/endpoint/src/store/sqlite.rs:54-74 | of all puts of one id, exactly the first wins |
| Concurrency.SectionsMakeTheCall | supervictor/endpoint/src/store/sqlite.rs:144-165 | the two sections with nothing in between are the whole operation of the store |
| Concurrency.CallReturnsLastWritten | supervictor/endpoint/src/store/sqlite.rs:144-165 | a call whose update matched never returns not-found, and the status it returns is the last one written at or after its own update |
| Concurrency.UndisturbedCallReturnsItsOwn | supervictor/endpoint/src/store/sqlite.rs:144-165 | a call that no other update comes between returns the status it wrote |
| Concurrency.AnotherStatusMayComeBack | supervictor/endpoint/src/store/sqlite.rs:144-165 | a concrete interleaving in which another caller's status is returned |
| Fleet.LatestMapRow | supervictor/endpoint/src/fleet.rs:102-113 | with one row per device, the collected map holds each device's row and nothing else |
| Fleet.EntryExactly | supervictor/endpoint/src/fleet.rs:100-133 | each entry has its record's id, owner and status, and its row's time and firmware, or neither |
| Fleet.ClassExactly | supervictor/endpoint/src/fleet.rs:45-59 | a class is unknown exactly when there is no timestamp or it does not parse; otherwise it goes by the seconds since, below 900, below 7200 or beyond |
| Fleet.ClassByAge | supervictor/endpoint/src/fleet.rs:14-59 | a stored uplink is fresh below 15 minutes of age or ahead of the clock, dark from two hours on, stale in between |
| Fleet.LaterIsFresher | supervictor/endpoint/src/fleet.rs:45-59 | of two stored uplinks the later one has the better class, and neither is Unknown |
| Fleet.JoinedText | supervictor/endpoint/src/fleet.rs:100-133 | a snapshot entry carries the device's latest timestamp, or none exactly when it never uplinked, and the class of that timestamp |
| Fleet.SnapshotIsBestOverHistory | supervictor/endpoint/src/fleet.rs:45-133 | a device's class is the best class over all its stored uplinks, and Unknown exactly when it has none |
| Fleet.StalenessOnlyWorsens | supervictor/endpoint/src/fleet.rs:45-59 | time alone never improves a class |
| Fleet.Summarize | supervictor/endpoint/src/fleet.rs:137-156 | each of the seven counts is the number of places with that status and class |
| Fleet.SummaryPartitions | supervictor/endpoint/src/fleet.rs:137-156 | every device is active or inactive, and every active device is in exactly one class |
| Fleet.SummaryOnlyWorsens | supervictor/endpoint/src/fleet.rs:100-156 | without writes, later summaries have no more fresh and no fewer dark devices, and the same totals and never-seen count |
| Fleet.SnapshotNowReadsTheClock | supervictor/endpoint/src/fleet.rs:159-161 | the clock read through its own text is the clock, and 0 from year 10000 on |
| Backends.RunsRelated | supervictor/endpoint/src/store/dynamo.rs:86-191 | after every history both stores hold the same devices, and the keyed store the last payload written under each key |
| Backends.MessagesAreLastRows | supervictor/endpoint/src/store/dynamo.rs:135-151 | after every history the keyed store holds, under each key, the last row the other store got for it, and nothing else |
| Backends.RepliesAgree | supervictor/endpoint/src/store/sqlite.rs:54-165 | after every history both stores answer every next write alike |
| Backends.SqlServes | supervictor/endpoint/src/store/sqlite.rs:167-193 | `latest_uplinks` of the row store serves every device its latest timestamp |
| Backends.DynServes | supervictor/endpoint/src/store/dynamo.rs:196-205 | `latest_uplinks` of the keyed store serves every registered device its latest timestamp, of the same history |
| Backends.SnapshotsAgree | supervictor/endpoint/src/fleet.rs:100-133 | after every history the two snapshots list the same devices with the same owner, status, last uplink and class, with no condition on the history |
| Backends.SnapshotsEqualExactly | supervictor/endpoint/src/fleet.rs:100-133 | a device's entries are equal for every row SQLite may choose exactly when its newest rows carry the firmware of the last one written |
| Backends.DistinctKeysSettleTies | supervictor/endpoint/src/store/dynamo.rs:135-151 | histories whose uplinks have distinct (device, time) keys meet that condition |
| Backends.AnyTiedRowMayBeChosen | supervictor/endpoint/src/store/sqlite.rs:172-175 | every latest row of a device is in some result the row store may return |
| Backends.TiesCanDisagree | supervictor/endpoint/src/store/dynamo.rs:135-151 | a concrete history with two uplinks under one key after which the two stores' snapshot entries differ |
| Backends.GetUplinksAgreeExactly | supervictor/endpoint/src/store/dynamo.rs:207-253 | for a device with distinct times, `get_uplinks` gives the same rows on both stores exactly when the limit cut to 32 bits is positive and is the limit itself or reaches all rows |
| Watchdog.Run | supervictor/endpoint/src/watchdog.rs:25-84 | the first tick and failed ticks report nothing; every other reports the difference between the dark devices of its snapshot and of the last successful one |
| Watchdog.WentDarkTwiceRecoveredBetween | supervictor/endpoint/src/watchdog.rs:70-83 | over every run of ticks, a device is reported dark twice only if it was reported recovered in between |
| Watchdog.DarkIffOldestNews | supervictor/endpoint/src/watchdog.rs:64-68 | a snapshot shows a device dark exactly when it is registered and its latest row is dark, each as of the moment it was read |
| Watchdog.RecoveryHasACause | supervictor/endpoint/src/watchdog.rs:43-84 | over every run, a recovery implies an uplink of the device stored between the reading of its rows for the last successful snapshot, which showed it dark, and for this one |
| Watchdog.WentDarkExactly | supervictor/endpoint/src/watchdog.rs:43-84 | over every run, a device goes dark exactly when it is registered, was not dark before, has uplinked, and every uplink it stored is at least two hours old |
| Watchdog.SeedAndFailedTicksAreSilent | supervictor/endpoint/src/watchdog.rs:27-51 | over every run, the tick that seeds the loop and failed ticks report nothing, whatever is dark |
| Watchdog.RunSeesTheTicks | supervictor/endpoint/src/watchdog.rs:43-84 | the loop's log on the ticks of a run is the run's alerts |
| Watchdog.SqliteGivesSnapshots | supervictor/endpoint/src/fleet.rs:100-133 | what the row store returns in two separate reads is a snapshot in the watchdog's sense |
| Watchdog.DynamoGivesSnapshots | supervictor/endpoint/src/store/dynamo.rs:196-205 | so is what the keyed store returns in the snapshot's scan, the later scan inside `latest_uplinks` and one query per device found by it |
| Watchdog.InactiveDevicesStillAlert | supervictor/endpoint/src/watchdog.rs:64-76 | a run the system can make, in which a revoked device that goes quiet is reported, although the summary of the same snapshot does not count it dark |
| Watchdog.RevokedSparedExactly | supervictor/endpoint/src/watchdog.rs:64-76 | a tick's alerts are free of revoked devices exactly when no device revoked at its listing goes dark |
| Sse.StepKeepsHub | supervictor/endpoint/src/ui/sse.rs:35-84 | every step keeps order, absence of duplicates, the account of every event and the queue bound of every client |
| Sse.EveryRunIsSafe | supervictor/endpoint/src/ui/sse.rs:35-84 | these hold in every state of every interleaving |
| Sse.OnlySubscribersAreClients | supervictor/endpoint/src/ui/sse.rs:60-62 | over every run, the clients are exactly those that subscribed |
| Sse.StartsWhereItSubscribes | supervictor/endpoint/src/ui/sse.rs:61 | over every run, a client starts after exactly the events sent before it subscribed |
| Sse.HeldSinceSubscribing | supervictor/endpoint/src/ui/sse.rs:61-84 | what it is handed or waits for it is some of the events sent from then on, in order and without repetition |
| Sse.ForwardExactly | supervictor/endpoint/src/ui/sse.rs:64-83 | more than 64 events behind, a forwarder goes to the oldest still there; otherwise it takes the next, and only a client that left or has sixteen waiting does not get it |
| Sse.PollExactly | supervictor/endpoint/src/ui/sse.rs:51-57 | a connected client with something waiting is handed the head of its queue |
| Sse.ClientsAreIsolated | supervictor/endpoint/src/ui/sse.rs:59-84 | a client's state depends only on its own steps and the publishes |
| Sse.EverySendIsPublished | supervictor/endpoint/src/ui/sse.rs:41-43 | over every interleaving, the published events are exactly those sent, in order, whatever the clients do |
| Sse.LossesAreCounted | supervictor/endpoint/src/ui/sse.rs:67-82 | a client has lost events exactly when at some step its forwarder was behind the ring or its queue full |
| Sse.LosesNothingExactly | supervictor/endpoint/src/ui/sse.rs:67-82 | a connected client holds every event its forwarder passed exactly when that never happened |
| Sse.EventHub.Send | supervictor/endpoint/src/ui/sse.rs:41-43 | `send` on a ring of the last 64 events is a publish step |
| Sse.EventHub.Open | supervictor/endpoint/src/ui/sse.rs:60-62 | a new client starts at the tail with an empty queue and nothing delivered; no other client changes |
| Sse.EventHub.ForwardTurn | supervictor/endpoint/src/ui/sse.rs:64-83 | one turn of the forwarder, reading only the ring, is a forward step over the whole history |
| Sse.EventHub.PollNext | supervictor/endpoint/src/ui/sse.rs:51-57 | hands over the head of the queue, if there is one |
| Sse.EventHub.Close | supervictor/endpoint/src/ui/sse.rs:72-75 | a client that leaves takes its queue with it; no other client changes |
| Ingest.Handle | supervictor/endpoint/src/handlers.rs:22-68 | each error has its exact condition and leaves the store unchanged; otherwise exactly one row is appended, with the message's id, reading and firmware and the time of receipt |
| Ingest.Uplink | supervictor/endpoint/src/routes.rs:81-102 | an event is published exactly when the handler accepted, and carries its device and reading |
| Ingest.PublishedAreStored | supervictor/endpoint/src/routes.rs:91-99 | under every interleaving of requests, readings published and in flight are, counted with repetition, exactly the stored ones |
| Ingest.NoEventWithoutRecord | supervictor/endpoint/src/routes.rs:91-99 | every published event has a stored record with its device and reading |
| Ingest.StoredTimesArePrinted | supervictor/endpoint/src/handlers.rs:48-58 | over every run of requests that read the clock, every stored row carries a printed timestamp |
| Ingest.HubStaysSafe | supervictor/endpoint/src/routes.rs:91-99 | the fan-out stays safe when requests and clients interleave freely |
| Ingest.DeliveredHasRecord | supervictor/endpoint/src/routes.rs:91-99 | over that joint interleaving, every event delivered to a client or waiting for it has a stored record with its device and reading |
| HttpText.Digits | supervictor/edge/src/network/http.rs:74-81 | the digit loop produces the digits of the value, least significant first, within its buffer |
| HttpText.DecimalDenotes | supervictor/edge/src/network/http.rs:70-88 | printed decimals are digits that denote the number |
| HttpText.DecimalIsShortest | supervictor/edge/src/network/http.rs:70-88 | printed decimals have no leading zeros |
| HttpText.TrimExactly | supervictor/edge/src/network/http.rs:141-143 | trimming takes the whitespace off both ends and nothing else |
| HttpText.LinesHaveEnds | supervictor/edge/src/network/http.rs:118-119 | a text is its lines, each followed by LF or CRLF, the last perhaps by nothing |
| HttpText.LinesAreUnique | supervictor/edge/src/network/http.rs:118-119 | there is only one way to take a text apart into such lines |
| HttpText.JoinedLines | supervictor/edge/src/network/http.rs:173-189 | joining the lines of a text gives it back exactly when no line ends with CR and the last line is not terminated |
| HttpText.WordsKeepTheText | supervictor/edge/src/network/server.rs:15-17 | splitting a line at whitespace gives nonempty words free of whitespace and loses nothing else |
| HttpText.WordsExactly | supervictor/edge/src/network/server.rs:15-17 | whitespace before a word is skipped, and a word ends at whitespace or at the end |
| HttpText.SeparatorIsFirst | supervictor/edge/src/network/server.rs:24 | the separator found is the first occurrence, and none is found only if there is none |
| HttpText.SeparatorAfterHeader | supervictor/edge/src/network/server.rs:22-27 | the first separator of a message ends its header, whatever the body contains |
| HttpClient.PostRequest | supervictor/edge/src/network/http.rs:38-67 | the whole request exactly when it fits 512 bytes, and the right error otherwise: never a truncated request, never an empty body for an unserialised payload |
| HttpClient.GetRequest | supervictor/edge/src/network/http.rs:17-35 | the whole request exactly when it fits 192 bytes |
| HttpClient.PushUsize | supervictor/edge/src/network/http.rs:70-88 | prints the whole decimal, or fails only if the whole request does not fit |
| HttpClient.ParseHeader | supervictor/edge/src/network/http.rs:137-168 | fails exactly when a tracked value does not fit its field; otherwise sets the one field the line names |
| HttpClient.HeaderValueExactly | supervictor/edge/src/network/http.rs:137-143 | a header line gives a value exactly when it is a key of that name, the first colon and the value, both without the whitespace around them |
| HttpClient.SameNameExactly | supervictor/edge/src/network/http.rs:145-160 | names are the same exactly when they differ in the case of ASCII letters only |
| HttpClient.LastValueExactly | supervictor/edge/src/network/http.rs:107-116 | a later header takes the place of an earlier one, and without any the field stays empty |
| HttpClient.PartsExactly | supervictor/edge/src/network/http.rs:131-174 | headers are the lines up to the first empty one, the body those after it, and without an empty line there is no body |
| HttpClient.NothingIsMalformed | supervictor/edge/src/network/http.rs:121-126 | an empty response is an error |
| HttpClient.ReadBody | supervictor/edge/src/network/http.rs:170-189 | the remaining lines joined by newlines, exactly when they fit 1024 bytes |
| HttpClient.ParseResponse | supervictor/edge/src/network/http.rs:91-192 | succeeds exactly when there is a first line, every tracked header fits, superseded ones included, and the body fits; fields hold the last header's trimmed value |
| Portal.PushJsonStr | supervictor/edge/src/network/server.rs:32-48 | pushes the escaped characters one by one, each if it fits |
| Portal.RequestLineIsUsable | supervictor/edge/src/network/server.rs:13-19 | for every request the method and path contain no whitespace and the path is never empty |
| Portal.RequestLineExactly | supervictor/edge/src/network/server.rs:13-19 | the first two words of the first line are the method and the path, for which a missing method is empty and a missing path is `/` |
| Portal.BodyFollowsFirstSeparator | supervictor/edge/src/network/server.rs:22-27 | a request with a separator is its header, the first separator and the body; a request without one has an empty body |
| Portal.WriteUsize | supervictor/edge/src/network/server.rs:53-69 | pushes the decimal digits one by one, each if it fits |
| Portal.BuildResponseHeader | supervictor/edge/src/network/server.rs:72-88 | never exceeds 256 bytes, and is the sequence of pushes whose results are ignored |
| Portal.BuildErrorResponse | supervictor/edge/src/network/server.rs:101-117 | never exceeds 256 bytes, for every status and message |
| Portal.ResponseHeaderWhole | supervictor/edge/src/network/server.rs:72-88 | with a content type of at most 32 bytes nothing is dropped |
| Portal.ResponseHeaderExactly | supervictor/edge/src/network/server.rs:72-88 | the header is printed in full, with its extra headers, exactly when it fits 256 bytes |
| Portal.ErrorResponseWhole | supervictor/edge/src/network/server.rs:101-117 | every piece of an error response is printed whole, and its body as its own buffer holds it |
| Portal.ErrorResponseText | supervictor/edge/src/network/server.rs:108-116 | the text of every error response, piece by piece |
| Portal.ErrorBodyCompleteExactly | supervictor/edge/src/network/server.rs:103-106 | the error body holds the whole message and its closing exactly when the escaped message fits 116 bytes |
| Portal.ErrorBodyIsJsonExactly | supervictor/edge/src/network/server.rs:102-106 | for every message, the error body is a JSON object exactly when at most 126 bytes were used before its closing and no control character was kept |
| Portal.AsciiErrorBodyIsJsonExactly | supervictor/edge/src/network/server.rs:102-106 | for an ASCII message, exactly when the escaped message fits 116 bytes and has no control character |
| Portal.CutBodyUnescapes | supervictor/edge/src/network/server.rs:102-106 | unescaping any body, closed or cut, gives the message without the characters that did not fit, unless half an escape fills the last byte |
| Portal.LongMessageStaysOpen | supervictor/edge/src/network/server.rs:102-106 | the body of 117 plain characters is not a JSON object |
| Portal.LineFeedIsNotJson | supervictor/edge/src/network/server.rs:32-48 | neither is that of a single line feed |
| Portal.WideCharacterIsDropped | supervictor/edge/src/network/server.rs:32-48 | 116 plain characters and one of four bytes escape to 120 bytes, and the body is a JSON object without the last |
| Portal.LaterCharactersMayFit | supervictor/edge/src/network/server.rs:32-48 | a character that does not fit is dropped and a later, shorter one is kept |
| Portal.UnescapeUndoesEscape | supervictor/edge/src/network/server.rs:32-48 | reading the escapes back gives the message |
| HttpRoundTrip.MessageParts | supervictor/edge/src/network/server.rs:13-27 | both parsers take a message apart into its lines, its headers and its body |
| HttpRoundTrip.PostRoundTrip | supervictor/edge/src/network/http.rs:38-67 | the portal reads back the method, path and payload of a posted request, and its Content-Length denotes the payload's bytes |
| HttpRoundTrip.PostText | supervictor/edge/src/network/http.rs:46-64 | the text of a POST request, piece by piece |
| HttpRoundTrip.GetRoundTrip | supervictor/edge/src/network/http.rs:17-35 | the portal reads back the method and path of a GET request, and an empty body |
| HttpRoundTrip.GetText | supervictor/edge/src/network/http.rs:22-33 | the text of a GET request, piece by piece |
| HttpRoundTrip.NoPathIsRoot | supervictor/edge/src/network/http.rs:17-43 | a request for no path in particular reads back with the path `/` |
| HttpRoundTrip.ResponseRoundTrip | supervictor/edge/src/network/server.rs:72-88 | the client reads back the content type, the length and the body with normalised newlines, which is the body itself exactly when it is line-stable |
| HttpRoundTrip.SixHeadersRoundTrip | supervictor/edge/src/network/http.rs:91-192 | a response with all six tracked headers is read into its fields exactly when each fits 64, 32, 128, 32, 8 and 32 bytes and the body 1024 |
| HttpRoundTrip.SupersededMustFit | supervictor/edge/src/network/http.rs:110-115 | a tracked header that does not fit fails the response, even one that a later header would replace |
| HttpRoundTrip.ErrorRoundTrip | supervictor/edge/src/network/server.rs:101-117 | the Content-Length of an error response is the size of its body even when the message was cut, and an uncut message reads back |
| HttpRoundTrip.ClientReadsError | supervictor/edge/src/network/http.rs:91-192 | the client's parser accepts every error response and finds the JSON content type, the body's length and the body with normalised newlines |
| Dns.FindQnameEnd | supervictor/edge/src/network/dns.rs:14-29 | the loop ends on every input, at the end of the walk |
| Dns.WalkDecodesNames | supervictor/edge/src/network/dns.rs:14-29 | the walk ends at an offset exactly when the bytes before encode a list of labels and a zero byte or pointer, and that list is unique |
| Dns.EncodedNameEnds | supervictor/edge/src/network/dns.rs:14-29 | the walk finds the end of every name encoded as in section 3.1 of RFC 1035, between any prefix and suffix |
| Dns.BuildDnsResponse | supervictor/edge/src/network/dns.rs:34-80 | answers exactly the queries of at least 17 bytes whose name and question end within them and whose answer fits 512 bytes |
| Dns.PlainQueryIsAnswered | supervictor/edge/src/network/dns.rs:34-80 | a query for a plainly encoded name, with any header and anything after the question, is answered exactly when the answer fits, byte by byte, with 192.168.4.1 |
| Dns.CutQueryIsNotAnswered | supervictor/edge/src/network/dns.rs:61-65 | a question that is cut short is not answered |
| Dns.AnswerShape | supervictor/edge/src/network/dns.rs:34-80 | the answer has 16 bytes more than header and question, copies id and question, and its name ends where the query's does |
| Dns.SameWalk | supervictor/edge/src/network/dns.rs:14-29 | the walk depends only on the bytes up to its end |
| Dns.AnswerDecodesExactly | supervictor/edge/src/network/dns.rs:34-80 | a decoder of section 4.1 of RFC 1035 that expands names consumes the answer to its last byte exactly when the query asks one question whose name expands within 255 octets, and finds one A record for that question's own name with the gateway's address |
| Dns.PlainQuestionDecodes | supervictor/edge/src/network/dns.rs:34-80 | for a plainly encoded name of at most 255 octets the names found are that name |
| Dns.SelfPointerIsAnswered | supervictor/edge/src/network/dns.rs:23-26 | a query whose name is a pointer to itself is answered, and the answer does not decode |

## Left out

- Eventually consistent DynamoDB reads: the queries and scans of dynamo.rs ask for no consistency, and the model reads the current state. Reads that lag behind would break main results 3 and 4 for that store.
- The SQLite and DynamoDB engines, the AWS SDK, pagination, I/O failures and lock poisoning: tables are abstract state, and a failed snapshot is one outcome of a tick.
- The order in which SQLite lists devices without `ORDER BY`, and the row ids of uplinks: no code depends on them.
- JSON encoding and decoding: a decoded message and a serialised payload are parameters, a stored payload is its reading and firmware version, and an event that does not serialise does not occur.
- `get_device` of the DynamoDB store: a lookup by key that would only add an easy member.
- `created_at`, `owner_id` and `subject_dn` are opaque strings; registration requests and their validation would only add easy members.
- axum routing, middleware, authentication, pages, static files, configuration, store selection, TLS, sockets, Wi-Fi, Embassy tasks and build scripts.
- The internals of tokio's channels: a broadcast ring of 64 and a bounded queue of 16 with their documented behaviour. An event sent while nobody listens joins the history, which later subscribers cannot see; the channel is never closed.
- `build_redirect`, `build_status_json`, `build_configure_response`, `parse_configure_body` and `format_ip_octets`: the same push-by-push printing as the modelled ones, or JSON decoding.
- Watchdog.Run: takes the results of finitely many ticks, where the loop runs for ever; the summary line it logs is `Fleet.Summarize`.
- HttpClient.PushUsize: takes values of at most ten digits, which the scratch buffer of http.rs:74 can hold; no caller passes more.
- Portal.WriteUsize: takes values of at most seven digits, which the scratch buffer of server.rs:58 can hold; larger lengths panic in the code.
- Portal.BuildResponseHeader: inherits that limit for its length.
- Ingest.Uplink: the route's two actions are one method on the objects; their interleavings with other requests are `Ingest.PublishedAreStored`.
- Dns.AnswerDecodesExactly: reads "a prior occurrence" in section 4.1.4 of RFC 1035 as a name that lies wholly before the one pointing to it. A decoder that only asks for an earlier offset also reads on from the id's bytes into the question when they hold a longer length.
