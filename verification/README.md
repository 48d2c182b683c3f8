# Document expiration status, date strings and the document list

This project models the logic of the DocumentManager client (`src/App.tsx`),
a single-page client that lists a user's uploaded documents with an
expiration status. The client's logic has four parts:

- **Date strings** (module `DateText`). `parseDate` splits a `DD-MM-YYYY` string
  on `-` and gives "absent" unless the day, month and year tokens are all
  non-empty. `split('-').reverse().join('-')` swaps between the date
  picker's `YYYY-MM-DD` and the stored `DD-MM-YYYY`.
- **Status** (module `Status`). `determineDocumentStatus` maps a date string
  and the current time to 'Invalid Date', 'Overdue', 'Expiring Soon' or
  'Up-to-date' using the floored whole-day difference. `getStatusColor` maps
  a status to a colour class. The "Days Until/Overdue" cell shows the absolute
  day difference, or 'N/A' for an empty date.
- **Document list** (module `Documents`). These are the list transforms that
  fetching, uploading, replacing and saving an edit apply to the `documents`
  state.
- **Component state** (class `Documents.DocumentManager`). It holds
  `documents`, `selectedDocument` and the two edit fields, and its handler
  methods update them.

JavaScript's `Date` is not part of this model. `new Date(text).getTime()` is a
parameter `dateOf: string -> Instant`, where `Instant` is either a number of
milliseconds or `InvalidTime` (the NaN an Invalid Date reads as). The current
time `now` is an integer number of milliseconds, passed as a parameter.
Dafny's `/` on `int` with a positive divisor rounds towards minus infinity,
so it is exactly `Math.floor` of the quotient.

The client gives the server's `NOT PRESENT` marker the status 'Invalid Date',
the same as a malformed date. The status is computed from the raw string,
which does not split into three tokens, and only the stored date becomes `''`
(src/App.tsx:75-76). The table then shows the row as 'No Expiration'
(src/App.tsx:303-304). `Documents.FetchedDate` states this behaviour.

The invariant `Documents.StatusesCurrent(docs, now, dateOf)` says that every
row's status is the status of its stored date at `now`, as the source
classifies it (`Status.DetermineDocumentStatusAsWritten`). Fetching establishes
it, even for rows whose sentinel was blanked, and every list update made at
the same `now` keeps it.

## Model

| member | source | states |
|---|---|---|
| DateText.Split | src/App.tsx:11 | `split('-')` always gives at least one piece |
| DateText.SplitPieces | src/App.tsx:11 | `split('-')` gives one more piece than there are separators, and no piece holds a separator |
| DateText.SplitSeparatorFree | src/App.tsx:11 | a string without separators splits into itself alone |
| DateText.SplitAround | src/App.tsx:11 | splitting around one separator splits each side independently |
| DateText.JoinSplit | src/App.tsx:202 | `join('-')` undoes `split('-')` for every string |
| DateText.Join | src/App.tsx:202 | `join('-')` of a non-empty list of separator-free pieces has exactly one separator fewer than there are pieces |
| DateText.SplitJoin | src/App.tsx:202 | `split('-')` undoes `join('-')` of any non-empty list of separator-free pieces |
| DateText.Reverse | src/App.tsx:202 | `reverse()` keeps the length and puts piece k at position n-1-k |
| DateText.Swap | src/App.tsx:202 | `split('-').reverse().join('-')` keeps the number of `-` separators |
| DateText.SwapReversesPieces | src/App.tsx:202 | the swapped string's pieces are the original's pieces reversed |
| DateText.SwapInvolution | src/App.tsx:202 | swapping twice gives back the original string |
| DateText.DateInput | src/App.tsx:13 | the text `${year}-${month}-${day}` handed to `Date` has exactly two separators when the tokens are well formed |
| DateText.ParseDate | src/App.tsx:10-16 | a parsed date has three non-empty, separator-free tokens and comes from a string with at least two separators |
| DateText.ParsedHasShape | src/App.tsx:10-16 | a string that parses starts with `day-month-year`, which either ends the string or is followed by `-` |
| DateText.SplitWritten | src/App.tsx:11-12 | a `DD-MM-YYYY` spelling of well-formed tokens splits into exactly those three tokens |
| DateText.ShapeParses | src/App.tsx:10-16 | every string of that shape parses to those tokens |
| DateText.ParseDateShape | src/App.tsx:10-16 | parseDate gives tokens t exactly when the string has t's shape; otherwise it gives absent |
| DateText.ParseDateIgnoresExtraTokens | src/App.tsx:11-12 | tokens after the third do not change the result |
| DateText.ThreeTokenDate | src/App.tsx:11-13 | a parsed date with exactly two separators is its tokens' `DD-MM-YYYY` spelling |
| DateText.SwapWrittenDate | src/App.tsx:202 | the swap turns `DD-MM-YYYY` into the `YYYY-MM-DD` text that parseDate hands to `Date`; a picked `YYYY-MM-DD` swaps to a string that parses back to the same tokens |
| Status.DaysUntil | src/App.tsx:22-24 | the floored day difference d satisfies d·86400000 ≤ expiration − now < (d+1)·86400000 |
| Status.ClassifyDays | src/App.tsx:26-28 | 'Overdue' iff d < 0, 'Expiring Soon' iff 0 ≤ d ≤ 30, 'Up-to-date' iff d > 30 |
| Status.ExpirationInstant | src/App.tsx:13-23 | absent exactly when parseDate gives absent or the `Date` it builds is invalid; otherwise the time read off that `Date` |
| Status.DetermineDocumentStatusAsWritten | src/App.tsx:18-29 | one of the four statuses; 'Invalid Date' exactly when parseDate gives absent; a tokenised but invalid `Date` gives 'Up-to-date'; otherwise it agrees with the corrected classification |
| Status.DetermineDocumentStatus | src/App.tsx:18-29 | one of the four statuses; 'Invalid Date' exactly when there is no valid instant; otherwise 'Overdue' iff the instant is before now, 'Expiring Soon' iff it is within 31 whole days from now, and 'Up-to-date' after that |
| Status.StatusMonotone | src/App.tsx:22-28 | a later expiration, or an earlier now, never moves the status towards 'Overdue' |
| Status.DaysUntilMonotone | src/App.tsx:22-24 | the floored day difference grows with expiration − now |
| Status.StatusColor | src/App.tsx:31-38 | red, yellow and green exactly for the three live statuses; gray for every other string, including 'Invalid Date' |
| Status.StatusColorSeparatesLiveStatuses | src/App.tsx:31-37 | two statuses with the same non-gray colour are equal |
| Status.DisplayedDayCount | src/App.tsx:311-316 | 'N/A' exactly for the empty date; for any other date 'NaN' exactly when the swapped date's `Date` is invalid; a count is the absolute floored day difference to the swapped date's instant |
| Status.DayCountAgreesWithStatus | src/App.tsx:311-316 | for a `DD-MM-YYYY` date and the corrected status, 'Invalid Date' shows 'NaN'; the status gives back the sign the count drops; 'Overdue' counts are at least 1, 'Expiring Soon' counts at most 30, 'Up-to-date' counts over 30 |
| Status.DayCountAgreesAsWritten | src/App.tsx:307-316 | for a `DD-MM-YYYY` date, when the stored as-written status and the cell are computed at the same `now`, the status is never 'Invalid Date'; the cell is 'NaN' exactly when the `Date` is invalid, and then the status is 'Up-to-date'; otherwise the status gives back the sign the count drops, 'Overdue' counts are at least 1, 'Expiring Soon' counts at most 30, 'Up-to-date' counts over 30 |
| Status.AsWrittenInvalidDateReadsUpToDate | src/App.tsx:13-28 | a well-formed token triple whose `Date` is invalid reads 'Up-to-date' as written and 'Invalid Date' once corrected |
| Status.GarbageDateExample | src/App.tsx:13-28 | `aa-bb-cccc` reads 'Up-to-date' as written when `new Date("cccc-bb-aa")` is invalid |
| Documents.NoExpirationIsInvalid | src/App.tsx:75-76 | both `NOT PRESENT` and `''` classify as 'Invalid Date' |
| Documents.Fetched | src/App.tsx:73-77 | a fetched row keeps id, name and file name, and its status still matches the stored (possibly blanked) date |
| Documents.FetchedDate | src/App.tsx:75-76 | fetching blanks exactly the sentinel (so the date is `''` exactly for the sentinel or `''`), keeps every other date, and the sentinel's status is 'Invalid Date' |
| Documents.FetchedAll | src/App.tsx:73-78 | the fetched list maps the listing one row at a time and satisfies StatusesCurrent |
| Documents.Uploaded | src/App.tsx:128-134 | the uploaded row carries the reply's id, name and date, the file's name, and the status of that date, which is 'Invalid Date' exactly when the date does not tokenise |
| Documents.UploadAppends | src/App.tsx:126-135 | an upload adds exactly one row at the end, with the reply's id, name and date, the file's name and the status of the reply's date; earlier rows are unchanged and StatusesCurrent is kept |
| Documents.UpdateWhere | src/App.tsx:159-169 | the id-matching map keeps the length, changes only the rows whose id matches, and leaves the others equal |
| Documents.ReplaceDocument | src/App.tsx:159-169 | replace keeps the length and every id; only rows with the target id change, taking the reply's name and date, the new file name and the new date's status; StatusesCurrent is kept |
| Documents.SaveEdit | src/App.tsx:211-220 | edit-save keeps the length, ids and file names; only rows with the edited id change, taking the new name, the new date and that date's status; StatusesCurrent is kept |
| Documents.SavedDateKeepsPickedDay | src/App.tsx:202-217 | a picked `YYYY-MM-DD` is stored as `DD-MM-YYYY` that parses back to the picked day, and the saved status is read off the `Date` of the picked text ('Up-to-date' when that `Date` is invalid, as the source does) |
| Documents.DocumentManager.constructor | src/App.tsx:47-62 | starts with an empty list, no selection and empty edit fields |
| Documents.DocumentManager.FetchDocuments | src/App.tsx:70-82 | on a reply the list becomes the fetched listing; on failure it is unchanged |
| Documents.DocumentManager.HandleDocumentUpload | src/App.tsx:113-140 | with a file and a reply, the uploaded row is appended; otherwise nothing changes |
| Documents.DocumentManager.HandleReplaceDocument | src/App.tsx:142-174 | with a file and a reply, the rows with the target id are replaced; otherwise nothing changes |
| Documents.DocumentManager.HandleEditDocument | src/App.tsx:189-197 | selects the document, copies its name, and sets the date field to the ISO day of its parsed date, or `''` when it does not parse |
| Documents.DocumentManager.HandleSaveChanges | src/App.tsx:199-229 | with a selection and an accepted update, saves the swapped date and the new name into the matching rows and clears the selection and both edit fields; otherwise nothing changes |

## Findings

| source | as written | input that shows it | evidently intended | confidence | as-written member | corrected member |
|---|---|---|---|---|---|---|
| src/App.tsx:13-28 | parseDate returns a `Date` for any three non-empty tokens. When the `Date` built from them is invalid (for instance `new Date("cccc-bb-aa")`), its time is NaN. Both `days < 0` and `days <= 30` are then false, so the status is 'Up-to-date'. | `aa-bb-cccc` (`new Date("cccc-bb-aa")` is an Invalid Date) | 'Invalid Date' | not executed; high (ECMAScript comparisons with NaN are false) | Status.DetermineDocumentStatusAsWritten, Status.GarbageDateExample | Status.DetermineDocumentStatus |

The document list (module `Documents`) keeps the source's behaviour and
classifies with `Status.DetermineDocumentStatusAsWritten`. The corrected
`Status.DetermineDocumentStatus` is proved equal to it whenever the `Date` is
valid.

## Left out

- HTTP requests are not modelled: login, signup, upload, update_expiration, the document listing, the credential setting and the API address (src/App.tsx:7-8, 72, 86, 99, 121, 155, 203). The server is opaque, so its replies are handler parameters.
- Login, signup, sign-out and the session flag (src/App.tsx:84-111, 272) only make requests and set flags or error strings.
- File choice (`getFileFromUser`, `FormData`, the file input; src/App.tsx:113-119, 176-187) uses browser APIs. The chosen file appears only as its name, or `None`.
- JavaScript `Date` is not modelled: construction, `toISOString`, `toLocaleDateString` and the wall-clock `new Date()` (src/App.tsx:13, 23, 196, 305, 314). They are a foreign, timezone-dependent library. Instants are parameters, and the date column's locale text (src/App.tsx:302-306) is not modelled.
- Status.DaysUntil: the source divides as floating point. The model divides exactly as integers, and the two can only differ for differences of more than about 10^8 days.
- Documents.DocumentManager.HandleEditDocument: the RangeError that `toISOString` throws on an Invalid Date is not modelled. The ISO day is a parameter.
- Each handler is modelled as one atomic step. The source reads `selectedDocument`, `newDocumentName` and `newExpirationDate` when the handler is called, waits for the server, then writes the list and clears the fields (src/App.tsx:199-224; likewise 121-135 and 155-169). The dialog stays editable while it waits, and the model does not capture edits or other handlers interleaved in that window.
- Status.DetermineDocumentStatusAsWritten and Status.DisplayedDayCount each read the clock separately in the source. The model passes one `now` to every call in a handler.
- Status.DayCountAgreesAsWritten and Documents.StatusesCurrent hold only at the `now` the status was computed. The source stores a row's status once, at fetch, upload, replace or save (src/App.tsx:75, 133, 166, 217), and never recomputes it, while the day cell re-reads the clock at every render (src/App.tsx:314). Once a day boundary passes between the two, the status shown no longer gives the count's sign or bounds: a row stored as 'Expiring Soon' can show 2 beside a date two days past.
- React hooks, `useEffect`, JSX rendering and the dialog (src/App.tsx:40-68, 231-390) are UI, apart from the status colour and the day-count cell.
- Failure paths that only call `console.error` or set an error message (src/App.tsx:79-81, 92-94, 108-110, 136-138, 170-172, 226-228) are modelled as "state unchanged".
- Fields of a listed document beyond the five the client reads, which the `...doc` spread would carry along, are not modelled.
