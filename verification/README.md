# CSV onboarding service: a Dafny model

The service takes a CSV file of employee records through an upload route. It
checks every row's `Email Address` against the emails of the users it has
already stored. If any of them matches, it rejects the whole file. Otherwise
it appends the new rows to the stored user list and writes an audit log named
after the current time. A companion script produces test files: each record
gets a unique `first.last[N]@yopmail.com` address and a random `HAYHAHnnnn`
employee id.

The model is functional. The stored user list is a `seq<Row>`, and a row is a
`map<string, string>` from column name to cell text. Every route takes the
list it read and returns the list it would write.

| file | module | what it models |
|---|---|---|
| `options.dfy` | `Options` | `Option`, for lookups that can fail |
| `text.dfy` | `Text` | JavaScript `trim`, `toLowerCase` on ASCII letters, decimal numerals of counters |
| `ingest.dfy` | `Ingest` | the validation walk of the upload route (`server.js` 32-52) and a loop-free description of its result |
| `server.dfy` | `Server` | the accept/reject decision and the append (56-66), the audit-log name (72-73), reset (105-115) |
| `scenarios.dfy` | `Scenarios` | whole-route consequences: case-insensitive rejection, original casing kept, and how the same key can be stored twice |
| `csvformat.dfy` | `CsvFormat` | the header and record lines of the generated file, plus a reader for them |
| `generator.dfy` | `Generator` | `generateUniqueEmail`, `generateUniqueEmployeeId` over supplied random draws, and the script's record loop |

The validation walk is `Ingest.Walk`. It is a left fold of `Ingest.OnRow`, the
`data` callback, over the decoded rows. Its partner is the loop-free
description `Accepted` / `Conflicts`:

- the rows kept are the input rows that have an email and whose key is not
  stored. They keep their original order and are not modified.
- the conflicts are the keys of the incoming emails intersected with the
  stored keys.

`WalkMeetsSpec` proves that the fold and the description agree on every input.

Incoming keys are trimmed and then lower-cased. Stored keys are only
lower-cased. The model keeps this asymmetry, and it also keeps the fact that
rows inside one upload are never compared with each other. Because of both,
the stored list can end up holding the same key twice.
`Scenarios.SameNewEmailStoredTwice` and `Scenarios.UntrimmedStoredEmailAdmitsTwin`
prove this. Stored emails are meant to be unique, but the code does not
enforce it, and the model follows the code.

Two more points where the model follows the code closely:

- The commit does not re-read the store just before it writes. The code reads
  the store once, when the request starts (`initDB`, line 25), and appends to
  that copy at the end. `HandleUpload` therefore takes a single user list.
- A stored user with no `Email Address` cell makes line 35 throw. The request
  then ends with a 500. This is `Ingest.ExistingEmails` returning `None`, which
  `HandleUpload` turns into `InternalError`. Lists built only by uploads never
  contain such a user (`Server.UploadKeepsEveryUserEmailed`).

## Model

| member | source | states |
|---|---|---|
| `Text.TrimSpec` | server.js:45 | `trim` removes only blanks, from both ends: everything before the result and everything after it is blank. The result is an infix of the input, has no blank at either end, and is empty exactly when the input is all blanks |
| `Text.LowerAt` | server.js:35 | lower-casing maps each character on its own, position by position: `A`-`Z` go to `a`-`z` and every other character stays the same |
| `Text.LowerTrim` | server.js:45 | trimming and lower-casing can be applied in either order with the same result, because lower-casing neither creates nor removes whitespace |
| `Text.DecimalRoundTrip` | generate-csv.js:15-16 | reading back the decimal numeral of the counter gives the counter, so nothing is lost when the suffix is rendered |
| `Text.DecimalInjective` | generate-csv.js:15-16 | different counters render to different numerals |
| `Text.DecimalOfFourDigits` | generate-csv.js:29 | a draw between 1000 and 9999 renders to exactly four characters |
| `Ingest.NormalizeSpec` | server.js:45 | an incoming key never starts or ends with a blank, is already lower-case, is no longer than the raw email, and is empty exactly when the raw email is blank-only |
| `Ingest.NormalizeIgnoresCase` | server.js:45 | two emails that differ only in the case of their letters get the same key, because trimming does not depend on case |
| `Ingest.ExistingEmails` | server.js:35 | the stored-email set exists exactly when every stored user has an email cell (otherwise the call throws). It is then the set of stored emails lower-cased but not trimmed |
| `Ingest.WalkResults` | server.js:39-51 | starting the walk from any state appends exactly the admitted rows to `results`, in order and unchanged |
| `Ingest.WalkDuplicates` | server.js:33-48 | starting the walk from any state adds exactly the incoming keys that are already stored to `duplicateEmails`. It raises `hasDuplicate` exactly when there is one |
| `Ingest.OnRowMeetsSpec` | server.js:39-51 | one `data` event appends the row exactly when it is admitted, adds its key to the duplicates exactly when that key is stored, and raises the flag for it. A row with no email changes nothing |
| `Ingest.WalkAppend` | server.js:39-52 | the walk does not depend on how the stream splits the rows: walking `a` and then `b` from where it stopped is the same as walking `a + b` |
| `Ingest.WalkMeetsSpec` | server.js:32-52 | the fold over the rows matches the loop-free description: `results` is the admitted rows, `duplicateEmails` is the normalised incoming emails intersected with the stored keys, and `hasDuplicate` holds exactly when that set is non-empty |
| `Ingest.AcceptedMembership` | server.js:40-51 | a row is kept exactly when it is one of the input rows, has an email, and its key is not stored |
| `Ingest.AcceptedAppend` | server.js:39-51 | each row is decided on its own: the kept rows of `a + b` are the kept rows of `a` followed by those of `b`. This fixes their order |
| `Ingest.AcceptedAll` | server.js:46-50 | when every row is admitted, every row is kept, repeats included |
| `Ingest.SkippedRowContributesNothing` | server.js:40-44 | a row whose email is missing or empty changes neither the kept rows nor the conflicts, wherever it sits |
| `Ingest.NoConflictKeepsEveryEmailedRow` | server.js:35-51 | the stored-key set never changes during the walk. A batch that clashes with no stored key keeps every row that has an email, however often an email repeats |
| `Ingest.RepeatedNewEmailBothAccepted` | server.js:46-50 | two rows of one batch whose emails have the same new key are both kept, and no duplicate is raised. The rows may differ in every other cell, and their emails may differ in case or surrounding blanks |
| `Ingest.UntrimmedStoredEmailNeverMatches` | server.js:35-46 | a stored email with a blank at either end, lower-cased, never equals the trimmed and lower-cased key of any incoming email |
| `Ingest.UntrimmedStoredEmailNeverReported` | server.js:35-48 | such a stored email is never among the reported conflicts, whatever the batch |
| `Ingest.BlankEmailIsNotSkipped` | server.js:40-45 | a blank-only email is not skipped. Its key is the empty string, and the row is kept unless the empty string is a stored key |
| `Server.SanitizeTimestamp` | server.js:72 | keeps the length of the input. Every `:` and `.` becomes `-`, every other character stays the same, and the result has no `:` or `.` |
| `Server.SanitizeIdempotent` | server.js:72 | sanitising a name twice gives the same result as sanitising it once |
| `Server.LogFileSpec` | server.js:72-82 | the audit file is `logs/onboarded_users_` followed by the clock reading and then `.json`. In the clock reading every `:` and `.` becomes `-` and every other character is kept, so the dot of `.json` is the only dot after the prefix |
| `Server.HandleUpload` | server.js:23-88 | each response occurs exactly in its own case. No file gives a 400. A stored user without an email cell gives a 500. A decoder failure gives a 500. A decoded batch that hits a stored key gives a 409 that reports exactly the stored keys that were hit, and the list is left as it was. Otherwise the kept rows are appended after the old list, the list grows by their number, and the audit log holds exactly those rows under the sanitised timestamp |
| `Server.UploadKeepsEveryUserEmailed` | server.js:35-65 | if every stored user has an email, the same holds after any upload, and the upload never fails on line 35 |
| `Server.ResetSpec` | server.js:105-110 | `Reset` leaves an empty list, so a second reset changes nothing. The next upload clashes with nothing and keeps every row that has an email |
| `Scenarios.FirstUploadKeepsOriginalCasing` | server.js:45-65 | uploading `Jane.Doe@yopmail.com` into an empty list stores the row exactly as it arrived, with its original casing |
| `Scenarios.CaseOnlyDifferenceIsRejected` | server.js:35-62 | an incoming email whose trimmed, lower-cased form equals a stored email lower-cased (but not trimmed) is rejected. The stored lower-cased form is reported and nothing is written |
| `Scenarios.SameNewEmailStoredTwice` | server.js:46-65 | one upload carrying two rows whose emails have the same new key stores both rows, after the old list and in order |
| `Scenarios.UntrimmedStoredEmailAdmitsTwin` | server.js:35-65 | a stored `"a "` does not block an incoming `"a"`. Afterwards both rows are stored, and both have key `"a"` |
| `CsvFormat.ParseQuotedLine` | generate-csv.js:41 | a line of quoted, comma-separated fields with no quote inside them reads back as exactly those fields, in order |
| `CsvFormat.RecordRoundTrip` | generate-csv.js:41 | a record line is four quoted fields (id, first, last, email) ending in a newline. It reads back as those four fields when none holds a quote, and it is 12 characters longer than they are together |
| `CsvFormat.FormatRowInjective` | generate-csv.js:41 | two records without quotes in their fields that produce the same line are the same record |
| `CsvFormat.HeaderRoundTrip` | generate-csv.js:6 | the header line reads back as the four column names, in the same order as the record fields |
| `Generator.CandidateInjective` | generate-csv.js:15-16 | different counter values produce different candidate addresses |
| `Generator.CandidateReadBack` | generate-csv.js:15-16 | a candidate address is the lower-cased first name, a dot, the lower-cased last name, the suffix and `@yopmail.com`. The suffix is empty exactly for counter 0. Otherwise it is all digits and reads back as the counter |
| `Generator.CandidatesBelowSize` | generate-csv.js:14-18 | the first `n` candidates are `n` distinct addresses, so at most `|usedEmails| + 1` are ever tried |
| `Generator.LeastFreeUnique` | generate-csv.js:13-18 | only one counter value has every earlier candidate taken while its own candidate is free |
| `Generator.UnsuffixedChosenWhenFree` | generate-csv.js:14-18 | when the address without a suffix is free, it is the one chosen, because any later counter requires counter 0's address to be taken |
| `Generator.GenerateUniqueEmail` | generate-csv.js:10-22 | returns `lower(first).lower(last)<suffix>@yopmail.com` for the least free counter, which is at most `|usedEmails|`. The suffix is empty for counter 0. The address was not used before, and the set afterwards is the old set plus that address |
| `Generator.PickEmployeeId` | generate-csv.js:26-33 | returns the id of the first draw whose id is not yet used, and the id set with that id added. It returns nothing exactly when every supplied draw collides. With four-digit draws the id is 10 characters long |
| `Generator.ChosenInOrderAt` | generate-csv.js:35-41 | for the generated records, address `i` is the least free candidate for person `i`'s names, given the initial addresses plus the addresses of records `0` to `i - 1` |
| `Generator.GenerateCsv` | generate-csv.js:35-45 | one record per person. Each record's address is the one `generateUniqueEmail` chooses for that record's names, given the initial addresses and those of the earlier records. The addresses are pairwise distinct and none was used before. The used set ends up as the old set plus exactly these addresses. The file is the header followed by the record lines, in order |

## Left out

- Express routing, the multer upload and the JSON bodies are not modelled. A response is a tag (`BadRequest`, `InternalError`, `ParseError`, `Conflict`, `Onboarded`), with the status codes noted in comments. The order in which `Array.from` lists the duplicates is not modelled either: the duplicates are a set.
- The `csv-parser` stream is a library. Its output is modelled as either the finite sequence of decoded rows or a failure. Rows decoded before a failure are dropped, because nothing is written on that path. How the library splits and unquotes text is not modelled.
- lowdb (`read`, `write`, `initDB` and its default `{ users: [] }`) is replaced by the user list passed in and returned. A failing `db.write()` inside the `end` callback is not modelled: it is an unhandled rejection, with the new rows already in memory. The `GET /users` route returns the list unchanged and has no member.
- The file operations `unlinkSync`, `existsSync`/`mkdirSync` and `writeFileSync` are not modelled. The audit log is a value (path, rows). Its JSON formatting is not modelled.
- `new Date().toISOString()` is the `now` parameter. Only the character replacement applied to it is modelled.
- `toLowerCase` maps only `A`-`Z`. Unicode case mapping is not modelled. `trim` uses the full ECMAScript set of whitespace and line terminators.
- Concurrent uploads, and the race where two uploads both pass validation against the same list, are not modelled.
- The `faker` names, and the ids in `GenerateCsv`, come from the `Person` input. `Math.random` is replaced by the sequence of draws given to `PickEmployeeId`.
- Generator.PickEmployeeId: a finite sequence of draws replaces the unbounded retry loop. When every supplied draw collides, the model returns `None`. The script itself keeps drawing, and it never finishes once all 9000 ids are used.
- Generator.GenerateCsv: it takes the employee ids as given. It does not call `PickEmployeeId`, so the uniqueness of ids across records is not stated.
- `NUM_RECORDS` is the length of the `people` input. Writing `temp.csv` and all console output are left out.
- The generator does not escape quotes inside fields, so the round trip of a record line is stated only for fields with no `"` in them.
- `CsvFormat.Header` is defined as the record format applied to the four column names. The script writes the same text as a literal.
