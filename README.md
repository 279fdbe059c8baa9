# LeetCode-Reminder: the durable reminder scheduler, in Dafny

This project models the core of the reminder service in `index.js`. A user
registers an email address, a problem URL and a delay token such as `"30m"`,
`"4h"` or `"2d"`. The service stores one reminder record with the due instant
and `sent = false`. A periodically called sweep mails every due, unsent
reminder and marks it sent.

The model is split into four modules:

- `Wrappers` (`wrappers.dfy`): `Option`, standing for JavaScript's `NaN` and
  Invalid Date where the model needs them.
- `Delay` (`delay.dfy`): `getDelayTime`, modelled by `DueTime`. The
  magnitude is read by `ParseInt`, which models `parseInt(token, 10)`:
  leading white space is skipped, then an optional sign, then the longest run
  of decimal digits. With no digit the
  magnitude is `NaN`. The last character picks the unit (`m`, `h` or `d`).
  Any other last character, and the empty token, means 24 hours, whatever the
  magnitude. Time is integer milliseconds. The clock reading `now` is a
  parameter. `new Date(t)` is modelled by `TimeClip`: a date further than
  8.64e15 ms from the epoch is invalid. A unit token whose magnitude is `NaN`
  also gives an invalid date (`None`).
- `Reminders` (`reminders.dfy`): the stored record, the sweep's query
  (`scheduledFor <= now` and `sent == false`) as the function `Due`, and
  marking records sent as `MarkSent`. The store is a sequence and a record's
  index is its identity.
- `Scheduler` (`scheduler.dfy`): the two request handlers. The class `Store`
  holds the records in a `seq<Reminder>` field. `Store.Register` models
  `POST /api/set-reminder` and `Store.Sweep` models `POST /api/check-reminders`.
  Each method is proved equal to a pure specification function
  (`RegisterSpec`, `SweepSpec`), and the lemmas about the handlers are stated
  about those functions.

The mail transport and the database are outside the model. What they do on
one call is a parameter:

- Register takes `confirmed` (the confirmation mail went out) and `saved`
  (the save of the new record succeeded).
- Sweep takes `queried` (the query succeeded) and `outcomes`. `outcomes(j)`
  is what happens to the j-th due record. It is one of:
  - `Delivered`: the mail went out and the record was saved as sent;
  - `SendFailed`: the transport refused the mail;
  - `SaveFailed`: the mail went out, but saving the record as sent failed.
- Both methods also return the mails the transport accepted.

Register follows the order in the code. The confirmation mail is sent first.
If it fails, nothing is stored and the call fails: the record is saved only
after the confirmation mail went out. Only then is the due instant computed
and the record saved.
A registration whose due date is invalid fails at the save, because the
store refuses to cast an Invalid Date. The confirmation has already gone out
by then.

The sweep first compares the `x-cron-secret` header with the literal
`"Sanjeev"`. The parameter `secret` is the header value as the HTTP layer
hands it over, after it has trimmed the white space around it. A missing or different header means Unauthorized, and nothing
is read or changed. (`CRON_SECRET` from the environment is only logged.)
Otherwise the sweep takes the due records in store order. For each one it
mails it, then sets `sent = true` and saves it. The first failing step
aborts the sweep with a failure. After a full pass the reply is the number
of due records.

## Model

The definitions `Delay.ParseInt`, `Delay.DueTime`, `Delay.TimeClip` and
`Scheduler.SweepSpec` are the models of `parseInt`, `getDelayTime`,
`new Date(...)` and the sweep handler. They carry no contract of their own.
Their properties are the lemmas listed below:
- `ParseInt`: `ParseIntOfDecimal` and the lemmas next to it;
- `DueTime` and `TimeClip`: `UnitTokenDue`, `NegativeUnitTokenDue` and
  `DefaultTokenDue`;
- `SweepSpec`: `SweepFrame`, `CompletedSweep` and `InterruptedSweep`.

| member | source | states |
|---|---|---|
| `Delay.ReadDecimal` | index.js:47 | reading the decimal rendering of n as digits gives back n |
| `Delay.ReadDigitsStops` | index.js:47 | parseInt's digit run ends at the first non-digit: what follows it does not change the value read |
| `Delay.ParseIntOfDigits` | index.js:47 | a string that starts with a digit parses as the value of its leading digits |
| `Delay.ParseIntOfNegated` | index.js:47 | `-` followed by a digit parses as the negated value of the digits that follow |
| `Delay.NoDigitNoMagnitude` | index.js:47 | a string that starts with a character that is neither white space, a sign nor a digit parses as NaN |
| `Delay.ParseIntOfDecimal` | index.js:47 | parseInt of a decimal number followed by a non-digit (a unit letter, or nothing) is that number |
| `Delay.ParseIntOfNegatedDecimal` | index.js:47 | parseInt of `-` followed by a decimal number and a non-digit is the negated number |
| `Delay.ParseIntSkipsWhiteSpace` | index.js:47 | leading white space does not change what parseInt reads |
| `Delay.UnitTokenDueTime` | index.js:47-55 | for a token ending in `m`, `h` or `d` whose parsed magnitude is v, the due instant is now + v units, when that is a valid date |
| `Delay.UnitTokenDue` | index.js:49-55 | `<n>m`, `<n>h` and `<n>d` fall due at now + n·60000, now + n·3600000 and now + n·86400000 ms |
| `Delay.NegativeMagnitudeDue` | index.js:47-55 | a token ending in `m`, `h` or `d` whose magnitude parses as -n falls due n units before now |
| `Delay.NegativeUnitTokenDue` | index.js:47-55 | `-<n>m`, `-<n>h` and `-<n>d` fall due n units before now |
| `Delay.DefaultTokenDue` | index.js:49-57 | any token whose last character is not `m`, `h` or `d`, the empty token included, falls due at now + 86400000 ms, whatever its magnitude |
| `Delay.UnitWithoutMagnitude` | index.js:47-55 | a unit token with no digits gives an invalid date |
| `Delay.ThirtyMinutes` | index.js:50-51 | `"30m"` falls due at now + 1800000 ms |
| `Delay.FourHours` | index.js:52-53 | `"4h"` falls due at now + 14400000 ms |
| `Delay.TwoDays` | index.js:54-55 | `"2d"` falls due at now + 172800000 ms |
| `Delay.DefaultExamples` | index.js:49-57 | `"2H"` (units are case-sensitive) and `""` fall due at now + 86400000 ms |
| `Delay.BareUnit` | index.js:47-51 | `"m"` gives an invalid date |
| `Reminders.Due` | index.js:110-113 | the sweep's working set holds exactly the indices of records with `scheduledFor <= now` and `sent == false`, each once, in store order |
| `Reminders.MarkSent` | index.js:129-130 | marking a list of records sent raises `sent` on exactly those records and leaves every other record and field as it was |
| `Reminders.FutureNeverDue` | index.js:110-111 | a record whose instant is after now is never in the working set |
| `Reminders.DueStaysDue` | index.js:110-113 | a due record that stays unsent is due at every later instant |
| `Reminders.DueAfterAppend` | index.js:83-89 | appending a record leaves the working set of the older records unchanged and adds the new index at the end exactly when the new record is due |
| `Reminders.MarkedNeverDue` | index.js:110-130 | a record marked sent is in no later working set |
| `Reminders.MarkedPrefix` | index.js:115-131 | after the first k due records are marked, they are sent, and the remaining due records are unchanged and still due at every later instant |
| `Scheduler.RegisterSpec` | index.js:62-98 | register succeeds exactly when the confirmation went out, the due date is valid and the save succeeded; on success exactly one record is appended and the existing ones are kept; on failure the store is unchanged; the confirmation mail goes out exactly when the transport accepts it |
| `Scheduler.Store.Register` | index.js:62-98 | the handler's result, new store and mails are those of `RegisterSpec` |
| `Scheduler.RegisterExtendsWorkingSet` | index.js:82-113 | after a registration, the working set at any instant is the old one, plus the new record once its due instant has come |
| `Scheduler.DeliveredPrefix` | index.js:115-131 | the number of leading delivered steps: every step before it delivered, and the step at it, if any, failed |
| `Scheduler.MailsTo` | index.js:116-128 | one reminder mail per listed record, in list order, to that record's address with its problem URL |
| `Scheduler.SweepFrame` | index.js:110-131 | a sweep keeps every record, changes no record outside its working set, changes only the `sent` flag, and never sets `sent` back to false |
| `Scheduler.UnauthorizedSweep` | index.js:105-107 | without the header `"Sanjeev"` the sweep is Unauthorized, mails nothing and leaves the store unchanged |
| `Scheduler.SecretExamples` | index.js:105-113 | a missing header, `"sanjeev"` and an empty value are refused; an authorized sweep whose query fails reports failure |
| `Scheduler.CompletedSweep` | index.js:115-133 | a successful sweep reports the size of the working set, mails each due record once in store order, marks each one sent, and leaves nothing due at that instant |
| `Scheduler.SecondSweepIsEmpty` | index.js:110-133 | a second sweep at the same instant after a successful one reports 0, mails nothing and changes nothing |
| `Scheduler.SentRecordNeverDueAgain` | index.js:110-130 | a record a sweep left sent is in no later working set, so it is never mailed again |
| `Scheduler.InterruptedSweep` | index.js:115-137 | a sweep that fails after the query stopped at the first failing step k: exactly the due records before k are marked sent, and mails went out for them, plus one for record k when only its save failed; record k and every later due record are unchanged, still unsent, and in the working set of any later sweep |
| `Scheduler.ThirtyMinuteScenario` | index.js:46-133 | register `"30m"` at t0: a sweep at t0+29 min finds nothing, one at t0+31 min mails the reminder and marks it sent, one at t0+40 min finds nothing |
| `Scheduler.Store.Sweep` | index.js:102-138 | the handler's result, new store and mails are those of `SweepSpec` |

## Left out

- Express setup, routing, JSON bodies and HTTP status codes (index.js:1-9, 140-144). The handlers return Registered/RegisterFailed and Unauthorized/Processed(count)/SweepFailed in place of the responses.
- The MongoDB connection, the Mongoose schema machinery and its query engine (index.js:11-32). The store is an in-memory sequence, and a record's index stands for its id. Results come back in store order, the natural order MongoDB returns for an unsorted query; MongoDB does not promise that order.
- The Nodemailer transport and the real sending (index.js:34-43). Each send and save outcome is a parameter. A mail carries its address, subject and problem URL; the sender address and the HTML bodies (index.js:71-76, 120-125) are left out.
- A failed `save` is taken to have written nothing. MongoDB can report an error for a write it did apply; then the store would hold the new record after a failed registration, or record k would be sent after a `SaveFailed` step, which `RegisterSpec` and `SweepSpec` do not allow.
- Console logging (index.js:96, 103, 135).
- Concurrency. Each handler runs as one atomic step. Interleavings of concurrent requests at their `await` points are not modelled.
- A `reminderTime` that is undefined, null, a number, a boolean or a plain object makes `getDelayTime` throw, because it has no `slice`. An array does not throw: `parseInt` reads its string form, its `slice(-1)` is an array that matches no `case`, and the token takes the 24-hour default. Neither case is modelled; the token is always a string here.
- DueTime: the model computes in exact integers, while JavaScript uses doubles. Every valid date is below 2^53 ms from the epoch. For a valid result, the magnitude, the products and the sums that JavaScript computes are exact integers, so it gets the same instant. For a magnitude too large to be represented exactly, both give an invalid date. This argument is not proved in Dafny. JavaScript's `-0` is modelled as 0, and it gives the same instant.
- JavaScript strings are UTF-16, and the model's strings are sequences of Unicode scalar values. This does not change which branch the last-character test takes, and every character parseInt skips is a single UTF-16 unit.
- No in-process timer scheduler exists in index.js, so none is modelled.
