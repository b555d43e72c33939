# Reminder bot core, modelled in Dafny

The bot (one file, `bot.js`) keeps reminders for a Telegram chat. Three chat
commands drive it:

- `!напомни <event> <time>` creates a reminder. It parses the text with one
  regular expression and computes when the reminder fires. It stores the
  reminder in an SQLite table and arms a `setTimeout` that later sends
  `Напоминаю: <event>` and deletes the row.
- `!лист` lists the stored reminders.
- `!удалить <event>` deletes the first reminder with that exact event text.

The model covers the logic inside those handlers:

| module | file | what it is |
|---|---|---|
| `Wrappers` | `wrappers.dfy` | `Option` and `Result` |
| `Decimal` | `decimal.dfy` | `parseInt` on digit runs, the decimal rendering of numbers, `padStart(2, '0')` |
| `Calendar` | `calendar.dfy` | the ECMAScript `Date` arithmetic the handlers use, on an integer millisecond clock: `MakeDay`/`MakeDate`, the year/month/date/hour/minute getters, `new Date(y, m, d, h, mi)` and `setDate` |
| `CreateCommand` | `command.dfy` | the create pattern of line 97 as a deterministic scanner returning the captured groups or `InvalidFormat`, and the field extraction of lines 115-123 and 139-141 |
| `FireTime` | `resolve.dfy` | the candidate date, the rollover to "today's day + 1" and the timer delay (lines 139-172) |
| `ReminderStore` | `store.dfy` | the `reminders` table with its AUTOINCREMENT counter: insert, delete by id, lookup by event text |
| `ListReply` | `listing.dfy` | the `!лист` reply text |
| `Bot` | `bot.dfy` | the three handlers and the timer callback as steps of a state machine over (table, pending timers), with the lifecycle invariant and properties of arbitrary runs |

Modelling choices:

- Timestamps are integers on one local clock, with no time zone and no DST.
  The clock reading `now` is a parameter.
- A timer firing is an explicit step: the reminder text is sent, then the row
  with the timer's id is deleted. Any pending timer may fire at any point of a
  run.
- Rows are kept in insertion order. This is an assumption: `SELECT *` without
  `ORDER BY` promises no order. A full scan of a rowid table does come back in
  rowid order, and AUTOINCREMENT ids only grow.
- The create pattern is
  `^!напомни\s+([a-zA-Zа-яА-Я\s]+)\s+(\d{1,2})[:.](\d{2})\s*(\d{1,2})[.:](\d{2})?$`.
  It is reproduced with JavaScript's full `\s` class and the letter ranges
  exactly as written, so `ё` and `Ё` are excluded.
- Group 1 is not trimmed. The character just before the time always goes to
  the second `\s+`. When the text before the time holds a letter, the first
  `\s+` takes the whole leading whitespace run and group 1 takes everything
  after it, trailing whitespace included. When the text before the time is all
  whitespace, group 1 is a single whitespace character.
- The time-only branch (lines 159-182) repeats the date branch's insert and
  timer code line for line. The rows below that cite lines 154-158 cover both
  copies.
- `new Date(y, ...)` reads a year 0..99 as 1900..1999. This is modelled; the
  lemmas that give exact fire times assume the clock is not in years 0..99.

Behaviour of the code that is easy to miss:

- The format hint (line 102) offers `событие ЧЧ:ММ`, but the pattern always
  requires group 4 and the separator after it. A bare `<event> HH:MM` is
  rejected (`CreateCommand.BareTimeRejected`). A time-only command needs text
  such as `обед 12:30 1:`, whose trailing `1:` the handler ignores.
- A time-only reminder moves to the next day only when the candidate is
  strictly before now. So `23:59` entered at 00:01 on 2 January fires at 23:59
  on 2 January (`FireTime.TimeOnlySameDayExample`).
- Deleting a reminder does not cancel its timer. The timer still sends the
  reminder, and its delete is then a no-op (`Bot.FireAfterDelete`).
- A date-form reminder whose date has passed gets today's date + 1 as its day
  of the month. It keeps its year and month when that date exists in the
  month, and carries into the next month otherwise: `10.02 10:00` entered on
  30 June of a common year becomes 3 March. Either way a date in an earlier
  month is still in the past, with a negative delay
  (`FireTime.DateFormStaysInPast`).

## Model

| member | source | states |
|---|---|---|
| CreateCommand.Parse | bot.js:97-100 | an accepted text is exactly the command word followed by well-formed pieces (whitespace, a letters/whitespace event, whitespace, the time groups), split the way the backtracking matcher splits it |
| CreateCommand.ParseTail | bot.js:97 | the part from group 2 on is accepted only as `\d{1,2}[:.]\d{2}\s*\d{1,2}[.:]` plus an optional `\d{2}`, and spells the input back exactly |
| CreateCommand.SplitPrefix | bot.js:97 | the text before the time splits into a whitespace run, a non-empty group 1 and a single whitespace character; if group 1 starts with whitespace, it is a single whitespace character |
| CreateCommand.ParseComplete | bot.js:97-100 | every text of the pattern's shape is accepted, with the tail read back unchanged and the matcher's own split read back whole (with `Parse`: the accepted language is exactly the pattern's) |
| CreateCommand.BareTimeRejected | bot.js:97-103 | `<event> HH:MM` with nothing after the minutes, the form the hint advertises, is rejected |
| CreateCommand.ForeignCharRejected | bot.js:97 | a character that is not a class letter, whitespace or digit before the time makes the text fail |
| CreateCommand.YoRejected | bot.js:97 | `!напомни ёлка 12:30 1:` is rejected, because `ё` lies outside `а-я` |
| CreateCommand.DigitInEventRejected | bot.js:97 | a digit straight after a letter of the event makes the text fail |
| CreateCommand.EventNotTrimmed | bot.js:97-123 | `!напомни  обед  12:30 1:` yields the event `обед ` with its trailing space, at 12:30 |
| CreateCommand.ToRequest | bot.js:115-141 | group 5 present means date form, absent means time-only; the event is group 1; hour, minute and day are below 100 and the month lies in -1..98 (which group feeds which field is `CreateCommand.ParseFields`) |
| CreateCommand.ParseRequest | bot.js:97-141 | the front end of the create handler: the request read from a matching text, or the format error; its fields are pinned down by `CreateCommand.ParseFields` and `CreateCommand.ParseRender` |
| CreateCommand.ParseFields | bot.js:115-141 | for every text of the pattern's shape, with any leading zeros: with group 5 the day is group 2, the month is group 3 minus one, and the hour and minute are groups 4 and 5; without group 5 the hour and minute are groups 2 and 3 whatever group 4 is; the event is group 1 as the matcher splits it |
| CreateCommand.LeadingZerosExample | bot.js:115-141 | `!напомни обед 05.03 09:30` gives `обед` on day 5, month 2 (March), at 9:30 |
| CreateCommand.GroupFourIgnored | bot.js:117-123 | `!напомни обед 7.05 99.` gives the time-only request `обед` at 7:05; group 4 is ignored |
| CreateCommand.ParseRender | bot.js:97-141 | every request with a letter-initial event and numbers that fit the digit groups has a command text that parses back to it |
| Decimal.ParseDigits | bot.js:118-122 | `parseInt` of a run of decimal digits, leading zeros included; the value is below 10 to the number of digits; pinned down by `Decimal.ParseTwoDigits` and `Decimal.ParseNatToString` |
| Decimal.ParseTwoDigits | bot.js:118-122 | two digits read as tens and units, so `05` reads as 5 |
| Decimal.NatToString | bot.js:60 | `${n}` for a non-negative number: at least one digit, no leading zero unless the number is 0, one digit exactly below 10; `Decimal.ParseNatToString` reads it back |
| Decimal.IntToString | bot.js:60 | `${year}` for any year: it starts with a minus sign exactly when the year is negative, and is all digits exactly when it is not |
| Decimal.PadStart2 | bot.js:60 | `padStart(2, '0')`: a text of two or more characters is unchanged, a shorter one is zero-filled on the left to length two; see `Decimal.PaddedTwoDigits` |
| Decimal.ParseNatToString | bot.js:118-122 | `parseInt` of a number's decimal rendering is the number |
| Decimal.PaddedTwoDigits | bot.js:60 | a number below 100 padded with `padStart(2, '0')` is two digits reading back as the number |
| Calendar.YearFromDay | bot.js:142 | the year of a day is the one whose first day is not after it and whose successor's is |
| Calendar.YearFromDayUnique | bot.js:142 | that year is the only such year |
| Calendar.MonthOfYear | bot.js:59-60 | the month of a day of the year is the one whose day range contains it |
| Calendar.DayRoundTrip | bot.js:143 | the year, month and date read from a day form a valid date that `MakeDay` maps back to the day |
| Calendar.DateRoundTrip | bot.js:143 | a valid date built with `MakeDay` is read back as the same year, month and date |
| Calendar.YearFromTime | bot.js:142 | `getFullYear()`: the year whose days contain the time's day; pinned down by `Calendar.YearFromDay` and `Calendar.CivilFields` |
| Calendar.MonthFromTime | bot.js:60 | `getMonth()`, counted from 0; pinned down by `Calendar.MonthOfYear` and `Calendar.CivilFields` |
| Calendar.DateFromTime | bot.js:146 | `getDate()`, counted from 1; pinned down by `Calendar.DayRoundTrip` and `Calendar.CivilFields` |
| Calendar.HourFromTime | bot.js:60 | `getHours()`, in 0..23; `Calendar.TimeFields` reads back an in-range hour |
| Calendar.MinFromTime | bot.js:60 | `getMinutes()`, in 0..59; `Calendar.TimeFields` reads back an in-range minute |
| Calendar.ConstructorYear | bot.js:143 | the year `new Date(year, ...)` uses: either the year or the year plus 1900, the latter only for years 0..99, and never itself a year in 0..99 |
| Calendar.ConstructorYearIdempotent | bot.js:143 | a year the constructor has already read is read as itself |
| Calendar.MakeDay | bot.js:143 | ECMAScript MakeDay: the day number of a year, a month that carries into the year, and a date that carries into the month; pinned down by `Calendar.DayRoundTrip`, `Calendar.DateRoundTrip` and `Calendar.MakeDayShift` |
| Calendar.NewDate | bot.js:143 | `new Date(year, month, date, hours, minutes)` on the local clock, years 0..99 read as 1900 + year; its fields are given by `Calendar.CivilFields` and `FireTime.CenturyShiftIsLater` |
| Calendar.SetDate | bot.js:146 | `setDate(d)`: year, month and time of day kept, date replaced with carrying; pinned down by `Calendar.SetDateShift` and `Calendar.SetDateFields` |
| Calendar.SetDateFields | bot.js:146 | `setDate(d)` with a date that exists in the month keeps the year and the month and shows date d |
| Calendar.MakeDayShift | bot.js:146 | adding k to the date argument moves the day by k, whatever the overflow |
| Calendar.SetDateShift | bot.js:146 | `setDate(d)` moves a time by whole days, by d minus its old date, and keeps the time of day |
| Calendar.CivilFields | bot.js:59-60 | a time built from a valid date and an in-range hour and minute returns exactly those fields from every getter |
| FireTime.Candidate | bot.js:142-143 | the first `reminderDate`: `new Date` from now's year and the requested fields, or, in the time-only form (lines 160-166), now's year, month and date; pinned down by `FireTime.TimeOnlyResolution` and `FireTime.DateFormFields` |
| FireTime.Resolve | bot.js:145-147 | the stored time: the candidate, or the candidate after `setDate(now.getDate() + 1)` when strictly before now (the same test at lines 168-170); pinned down by the `TimeOnly…` and `DateForm…` lemmas below |
| FireTime.Delay | bot.js:149 | `timeDiff`, the stored time minus now (also line 172); its sign is given by `FireTime.TimeOnlyNeverPast`, `FireTime.DateFormKept` and `FireTime.DateFormStaysInPast` |
| FireTime.TimeOnlyResolution | bot.js:160-170 | time-only: the candidate is today's midnight plus HH:MM, moved by exactly one day when strictly before now |
| FireTime.TimeOnlyNeverPast | bot.js:160-172 | time-only: the stored time is never before now and the delay is never negative, for every clock reading |
| FireTime.TimeOnlyClockReading | bot.js:160-170 | time-only, in-range HH:MM: the reminder rings at HH:MM, today if that has not passed and tomorrow otherwise |
| FireTime.DateFormKept | bot.js:140-149 | date form: a candidate not before now is stored unchanged with a non-negative delay |
| FireTime.DateFormRollover | bot.js:145-147 | date form: a past candidate moves by whole days to date today + 1 of the candidate's own month and year, keeping its time of day |
| FireTime.DateFormFields | bot.js:139-145 | date form, real date that has not passed: the stored time shows this year and the requested month, day, hour and minute |
| FireTime.DateFormStaysInPast | bot.js:140-149 | date form, a real date in an earlier month of this year than now: after rollover, with or without carrying into the next month, the stored time is still before now and the delay is negative |
| FireTime.DateFormStaysInPastExample | bot.js:140-149 | on 15 June at 12:00, `10.03 10:00` is stored as 16 March 10:00, before now |
| FireTime.TimeOnlySameDayExample | bot.js:160-172 | at 00:01 on 2 January, `23:59` fires at 23:59 on 2 January |
| FireTime.TimeOnlyNextDayExample | bot.js:160-172 | at 23:59 on 1 January, `23:58` fires at 23:58 on 2 January |
| FireTime.CenturyShiftIsLater | bot.js:142-143 | a year 0..99 read as 1900 + year puts the candidate more than a day later than the literal year would, for every month and date the date form can pass |
| ReminderStore.Insert | bot.js:12-28 | insert appends exactly one row with the event and time, under an id above the counter and every id in the table, and fails exactly when the counter has reached the largest rowid |
| ReminderStore.InsertValid | bot.js:12-28 | on a valid table the new id is the counter plus one and the table stays valid |
| ReminderStore.MaxId | bot.js:12 | the largest id in the table, or 0 for an empty table |
| ReminderStore.Without | bot.js:31-43 | deleting by id keeps exactly the rows with another id |
| ReminderStore.DeleteById | bot.js:31-43 | `DELETE ... WHERE id = ?` keeps exactly the rows with another id and leaves the AUTOINCREMENT counter as it was |
| ReminderStore.WithoutAbsent | bot.js:31-43 | deleting an id no row has leaves the table unchanged |
| ReminderStore.WithoutOne | bot.js:31-43 | with ids in increasing order (as in every valid table), deleting row k's id removes exactly row k and keeps the rest in order |
| ReminderStore.WithoutIncreasing | bot.js:31-43 | deleting keeps the ids in increasing order |
| ReminderStore.DeleteByIdIdempotent | bot.js:31-43 | deleting an id twice is the same as deleting it once |
| ReminderStore.DeleteByIdValid | bot.js:31-43 | deleting keeps a valid table valid and leaves the counter alone |
| ReminderStore.FirstWithEvent | bot.js:76 | the lookup finds the first row whose event equals the text exactly, or reports that none does |
| ListReply.ShowDate | bot.js:60 | the date text `date.month.year hours:mm`, every field plain decimal except the minutes, padded to two places; see `ListReply.ShowDateExample` |
| ListReply.FormatDate | bot.js:59-60 | the date text of `new Date(row.time)` from its getters, month counted from 1; pinned down by `ListReply.ListedCivil` |
| ListReply.Line | bot.js:61 | the line `- <event> (<date>)` and a newline, longer than the event by more than four characters (it adds six fixed ones and the date text); its place in the reply is `ListReply.ReplyRowAt` |
| ListReply.Reply | bot.js:54-63 | the empty-list text for an empty table, otherwise the header and one line per row; pinned down by `ListReply.ReplyEmptyIff`, `ListReply.ReplyRowAt` and `ListReply.BuildReply` |
| ListReply.ReplyEmptyIff | bot.js:54-57 | the empty-list message is sent exactly when the table is empty; otherwise the reply starts with the header |
| ListReply.ReplyRowAt | bot.js:57-62 | each row's line comes after the header and the lines of earlier rows, and before those of later rows |
| ListReply.BuildReply | bot.js:54-63 | appending one line per row to the header in a loop gives the reply |
| ListReply.JoinConcat | bot.js:58-62 | the lines of two runs of rows are the lines of each, one after the other |
| ListReply.ListedCivil | bot.js:59-60 | a time built from a valid date and clock reading is shown with exactly those fields, the month counted from 1 |
| ListReply.ShowDateExample | bot.js:60 | day 10, month 3, year 2024 at 9:05 shows as `10.3.2024 9:05`: only the minutes are padded |
| ListReply.ListedExample | bot.js:59-60 | 9:05 on 10 March 2024 is listed as `10.3.2024 9:05` |
| Bot.Create | bot.js:95-113 | one reply; it is the format hint exactly when the text is rejected, and then nothing changes |
| Bot.Accept | bot.js:125-182 | an accepted command replies `Готово! ✔️`; the state changes exactly when a row was added |
| Bot.List | bot.js:46-65 | the list command changes nothing and sends the empty-list message exactly when the table is empty |
| Bot.DeleteByName | bot.js:72-92 | deleting by name never touches the timers or the counter and sends one reply |
| Bot.Fire | bot.js:154-158 | a firing timer sends `Напоминаю: <event>`; exactly that timer leaves (one fewer timer, every other pending timer stays, and no new one appears), and the counter is left alone |
| Bot.AcceptStores | bot.js:149-158 | on a table that is not full, exactly one row and one timer are added under the next id, above every id in the table and in the timers |
| Bot.CreateAccepted | bot.js:139-182 | an accepted command stores its event at the resolved time, and the timer waits the computed delay |
| Bot.AcceptWhenFull | bot.js:128-152 | when the counter is at the largest rowid, `Готово! ✔️` is still sent but nothing is stored and no timer is set |
| Bot.RejectStoresNothing | bot.js:100-113 | a rejected text gets only the hint and stores nothing |
| Bot.DeleteByNameReplies | bot.js:81-86 | not-found is sent and the state is unchanged exactly when no row has the name; success is sent exactly when one does |
| Bot.DeleteByNameRemovesOne | bot.js:76-86 | when some row has the name, exactly the first such row is removed and every other row stays in place |
| Bot.FireAfterDelete | bot.js:154-158 | a timer whose row is gone still sends the reminder and leaves the table unchanged |
| Bot.FireDeletesRow | bot.js:154-158 | a timer whose row is present deletes exactly that row |
| Bot.NoTimersNoRows | bot.js:152-158 | under the invariant, once no timer is pending the table is empty |
| Bot.StartInv | bot.js:11-13 | the table right after `CREATE TABLE`, with no timers pending, satisfies the invariant, so every run from it keeps it |
| Bot.AcceptInv | bot.js:125-182 | an accepted command keeps the lifecycle invariant: valid table, timers in id order with issued ids, every row with its timer |
| Bot.CreateInv | bot.js:95-186 | the create handler keeps the invariant |
| Bot.DeleteByNameInv | bot.js:72-92 | the delete handler keeps the invariant |
| Bot.FireInv | bot.js:154-158 | a timer firing keeps the invariant |
| Bot.RemoveTimerIncreasing | bot.js:154-158 | removing a fired timer keeps the rest in id order |
| Bot.TrackedAppend | bot.js:152-158 | a new row and its timer keep every row tracked |
| Bot.Apply | bot.js:46-186 | one event: a create, list or delete message routed to its handler, or a pending timer firing; `Bot.ApplyInv` keeps the invariant across it |
| Bot.ApplyInv | bot.js:46-186 | each of the four events keeps the invariant |
| Bot.Run | bot.js:46-186 | the state after a sequence of events, a firing of a timer that is not pending being skipped; see `Bot.RunInv`, `Bot.RunCounterGrows` and `Bot.RunRetired` |
| Bot.RunInv | bot.js:46-186 | the invariant holds after any sequence of commands and firings |
| Bot.RunCounterGrows | bot.js:12-28 | the id counter never goes back in any run, so an id is never issued twice |
| Bot.FiredOnce | bot.js:154-158 | after a timer fires, no later event brings back a pending timer with its id, so each reminder is sent at most once |
| Bot.RunRetired | bot.js:154-158 | an issued id with no pending timer never gets one again |

## Left out

- Telegram transport: `ctx.reply`, `bot.launch`, and the `bot.hears` patterns
  that route a message to a handler. The handlers take the routed text, or
  the event text of `!удалить`.
- Self-deleting messages: the 30 s deletion of the format hint and the 15 s
  deletion of `Готово! ✔️` (lines 104-111, 130-137). They touch only the
  chat, not the reminders.
- SQLite errors other than SQLITE_FULL, the Promise and callback wrappers,
  and `console` logging. Only their effect on the rows is kept.
- The dotenv configuration and the bot token.
- Real `setTimeout` scheduling. A firing is an explicit step that any pending
  timer may take at any point, so the model does not order firings by their
  delays. For the same reason, Node's clamping of delays outside 1..2^31-1 ms
  to 1 ms plays no part.
- Time zones, DST and `TimeClip`. The clock is one integer millisecond line,
  and times beyond ±8.64e15 ms (which `Date` turns into NaN) are not
  distinguished.
- Failed sends of `ctx.reply`. The model assumes every send succeeds. The
  `Готово! ✔️` reply at line 128 is awaited, so a failed send there would
  throw into the catch at line 183 before `addReminderToDB`: nothing would be
  stored and no timer set. The other replies (lines 55, 63, 82, 86, 155, 178)
  are not awaited, and a failed send there is an unhandled rejection.
- Interleaving inside a handler. Each handler is treated as one atomic step,
  but bot.js suspends at `await` (lines 85, 128, 152, 175) and inside the
  SQLite callbacks, so other messages and timers can run in between. For
  example, two `!удалить обед` messages can both look up the same first row
  before either delete runs; both then reply success and only one row goes,
  where the model deletes two rows.
- The width of ids in JavaScript. The model keeps ids as exact integers up to
  `ReminderStore.MaxRowId` (2^63 - 1), where SQLITE_FULL is modelled. In
  bot.js `this.lastID` (line 24) and `row.id` (line 85) arrive as JavaScript
  numbers, so ids above 2^53 would be rounded and `removeReminderFromDB`
  (lines 85, 157, 180) could target another id. The model matches bot.js
  only while ids stay below 2^53.
- Bot.Fire: the callbacks at lines 154-158 and 177-181 do not wait for the
  delete, and a failing delete there is an unhandled rejection. The model
  treats the delete as always succeeding.
- Bot.DeleteByName: the reply at line 86 is sent after the awaited delete. A
  failing delete would reject inside the `db.get` callback and send nothing;
  the model treats the delete as always succeeding.
