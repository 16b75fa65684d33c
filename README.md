# Journal entries: form validation, date parsing and the entry table

This project models the logic of a small Flask journaling application
(`app.py`). It has two parts.

- **Form checks.** The new-entry and edit forms strip the title and the
  content. The date text is kept as sent. The handler first checks that all
  three fields are non-empty, then parses the date with
  `datetime.strptime(date_str, "%Y-%m-%d")`.
- **The entry table.** The handlers change it: create inserts a row, show
  reads one, edit replaces three fields of one row, delete removes one, and
  the index page lists every row ordered by date descending, then id
  descending.

The modules follow that structure:

- `Text` (`text.dfy`): Python's `str.isspace` and `str.strip()`.
- `Dates` (`dates.dfy`): calendar validity as `datetime.date` checks it, and
  the `%Y-%m-%d` parser as CPython's `_strptime` runs it. The parser uses the
  regex alternatives `\d\d\d\d`, `1[0-2]|0[1-9]|[1-9]` and
  `3[01]|[12]\d|0[1-9]|[1-9]| [1-9]` in their order, then rejects any
  leftover text. The module also has the formatter behind the new-entry
  default, and a grammar of accepted spellings that is defined separately
  from the parser.
- `EntryForm` (`entry_form.dfy`): reading the form fields, and the
  required-field check followed by the date parse.
- `Entries` (`entries.dfy`): the entry record, the index-page order, and the
  listing.
- `Journal` (`journal_store.dfy`): SQLite's id allocation and the
  `JournalStore` class, whose methods are the handlers' effects on the table.

Two behaviours of the code are easy to misread:

- **Date text.** The error message the handlers flash on a bad date
  (app.py:54 and app.py:91) asks for `YYYY-MM-DD`. The parser accepts more:
  a one-digit month (`2024-6-05`), a one-digit day (`2024-06-5`), and a day
  written as a space and a digit (`2024-06- 5`). `Dates.ParseDateIff` states
  exactly what is accepted.
- **Ids.** The `id` column is an `INTEGER PRIMARY KEY`, so SQLite gives a new
  row its rowid: one more than the largest id present, or 1 in an empty
  table. After the newest entry is deleted, its id is given out again. The
  model promises that a new id is used by no live entry and is one more than
  the largest one.

## Model

| member | source | states |
|---|---|---|
| `Text.Strip` | app.py:43 | `str.strip()`: leading, then trailing whitespace removed; what it computes is stated by `StripShape`, `StripTrimmed`, `StripEmptyIffBlank` and `StripIdempotent` |
| `Text.TrimStart` | app.py:43 | the result is a suffix of the input; what it drops is all whitespace; it does not start with whitespace |
| `Text.TrimEnd` | app.py:43 | the result is a prefix of the input; what it drops is all whitespace; it does not end with whitespace |
| `Text.StripTrimmed` | app.py:43 | a stripped text neither starts nor ends with whitespace |
| `Text.StripShape` | app.py:43 | `strip()` returns a slice `s[i..j]` whose prefix `s[..i]` and suffix `s[j..]` are all whitespace, and the result has no whitespace at either end |
| `Text.StripEmptyIffBlank` | app.py:47 | a stripped field is empty exactly when the raw text is all whitespace, the empty text included |
| `Text.StripIdempotent` | app.py:43 | stripping an already stripped text changes nothing |
| `Dates.IsLeapYear` | app.py:52 | the Gregorian rule: divisible by 4, and not by 100 unless also by 400; its effect on February is stated by `DaysInMonth` and shown by `ParseDateRefusesLeapDay`, `ParseDateRefusesCenturyLeapDay` and `ParseDateAcceptsLeapDay` |
| `Dates.DaysInMonth` | app.py:52 | every month has 28 to 31 days, and February has 29 exactly in leap years (divisible by 4, and not by 100 unless also by 400) |
| `Dates.ValidDate` | app.py:52 | the dates `datetime.date` accepts: year 1-9999, month 1-12, day from 1 to the month's length; `ParseDateIff` states that these are exactly the dates a parse can return |
| `Dates.MatchMonth` | app.py:52 | a matched month is 1-12, takes one or two characters, and is followed by `-` |
| `Dates.MatchDay` | app.py:52 | a matched day is 1-31 and takes one or two characters of the text |
| `Dates.MatchDate` | app.py:52 | text the `%Y-%m-%d` pattern matches in full gives a year 0-9999, a month 1-12 and a day 1-31, before the calendar check |
| `Dates.MatchDateComplete` | app.py:52 | every spelling in the accepted grammar is matched as exactly the fields it spells |
| `Dates.ParseDate` | app.py:52 | every parsed date is a real calendar date with year 1-9999 |
| `Dates.ParseDateSound` | app.py:52 | text that parses is four digits, `-`, a month spelling, `-`, a day spelling and nothing more, spelling the parsed date |
| `Dates.ParseDateComplete` | app.py:52 | every such spelling of a valid date parses to that date |
| `Dates.ParseDateIff` | app.py:51-55 | `strptime` succeeds with date `d` if and only if `d` is valid (day exists in its month, leap years included) and the text spells `d` in the accepted grammar |
| `Dates.ParseDateNeedsYearAndDash` | app.py:52 | accepted text is 8 to 10 characters long, starts with four digits, and has `-` at index 4 |
| `Dates.FormatDate` | app.py:64 | `strftime("%Y-%m-%d")` gives ten characters with `-` at indices 4 and 7 |
| `Dates.FormatParseRoundTrip` | app.py:52-64 | parsing the formatted text of a valid date gives the same date back |
| `Dates.ParseDateAcceptsPadded` | app.py:52 | `2024-06-15` is accepted as 15 June 2024 |
| `Dates.ParseDateAcceptsLeapDay` | app.py:52 | `2024-02-29` is accepted, 2024 being a leap year |
| `Dates.ParseDateAcceptsShortFields` | app.py:52 | `2024-6-5`, with a one-digit month and day, is accepted as 5 June 2024 |
| `Dates.ParseDateAcceptsSpacedDay` | app.py:52 | `2024-06- 5`, with a space before a one-digit day, is accepted as 5 June 2024 |
| `Dates.ParseDateRefusesLeapDay` | app.py:52-53 | `2023-02-29` is refused, 2023 not being divisible by 4 |
| `Dates.ParseDateRefusesCenturyLeapDay` | app.py:52-53 | `1900-02-29` is refused, 1900 being divisible by 100 and not by 400 |
| `Dates.ParseDateRefusesRanges` | app.py:52-53 | `2024-13-01`, `2024-01-32` and `0000-01-01` are refused |
| `Dates.ParseDateRefusesLayouts` | app.py:52-53 | `15-06-2024`, `2024/01/01`, ` 2024-06-15` (leading space) and `2024-06-15 ` (trailing space) are refused |
| `EntryForm.FormGet` | app.py:43-45 | the definition of Werkzeug's `get(key, "")`: an absent field reads as the empty text; its consequence for the handler is stated by `AbsentFieldIsMissing` |
| `EntryForm.StrippedField` | app.py:43-45 | the title and the content the handler uses have no whitespace at either end |
| `EntryForm.CheckForm` | app.py:43-55 | an accepted form's date is what the raw date text parses to |
| `EntryForm.AcceptedWellFormed` | app.py:43-57 | an accepted form gives a non-empty trimmed title and content and a real calendar date |
| `EntryForm.MissingFieldFirst` | app.py:47-49 | the result is a missing-field failure exactly when the title or the content is all whitespace or the date text is empty, whatever the date text says |
| `EntryForm.AbsentFieldIsMissing` | app.py:43-47 | a form without a title, date or content field is a missing-field failure |
| `EntryForm.BlankDateIsInvalid` | app.py:44-55 | a date of only whitespace passes the required check and fails as an invalid date |
| `EntryForm.BlankIsNoDate` | app.py:52 | text of only whitespace never parses as a date |
| `EntryForm.InvalidDateIff` | app.py:51-55 | with all fields present, the form fails as an invalid date exactly when the date text spells no valid date |
| `EntryForm.AcceptedIff` | app.py:43-57 | the form is accepted with `(t, d, c)` exactly when `t` and `c` are the non-empty stripped title and content, and the date text spells the valid date `d` |
| `EntryForm.DefaultDateAccepted` | app.py:64 | submitting the pre-filled default date (today) with a non-blank title and content is accepted with today's date |
| `EntryForm.EmptyTitleIsMissing` | app.py:47-49 | an empty title with a good date and content is a missing-field failure |
| `EntryForm.DayFirstDateIsInvalid` | app.py:47-55 | any form with a non-blank title and content and the date `15-06-2024` is an invalid-date failure |
| `Entries.ListedBefore` | app.py:35 | `ORDER BY date DESC, id DESC`: the later date first, and on the same date the larger id first; `ListedBeforeIsStrictTotal` states that this is a strict total order |
| `Entries.ListedBeforeIsStrictTotal` | app.py:35 | the order `date DESC, id DESC` is irreflexive, asymmetric and transitive, and total on entries with distinct ids |
| `Entries.FirstExists` | app.py:35 | a non-empty table has an entry that is listed before all the others |
| `Entries.FirstUnique` | app.py:35 | at most one row is listed before all the others |
| `Entries.ConsListing` | app.py:35 | the first row followed by an ordered listing of the other rows is an ordered listing of the whole table |
| `Entries.ListingOf` | app.py:35 | the listing holds every row exactly once (same length, each element a stored row, each row present) and is strictly ordered by date descending, then id descending |
| `Entries.HeadIsFirst` | app.py:35 | the first entry of any ordered listing is the row listed before all others |
| `Entries.TailListsRest` | app.py:35 | an ordered listing without its first entry is an ordered listing of the other rows |
| `Entries.SameHead` | app.py:35 | two ordered listings of the same non-empty table start with the same entry |
| `Entries.OrderedListingUnique` | app.py:35 | only one sequence is such a listing, so the page order is fully determined by the dates and ids |
| `Entries.ListingExample` | app.py:35 | entries dated 2024-01-01 (id 1), 2024-03-01 (id 2) and 2024-03-01 (id 3) are listed as ids 3, 2, 1 |
| `Journal.MaxId` | app.py:15 | the result is a member of the id set and no smaller than any id in it |
| `Journal.NewRowId` | app.py:15 | a new id is used by no current row and exceeds every current id; it is 1 on an empty table, and otherwise one more than the largest id |
| `Journal.PutKeepsValid` | app.py:57-59 | storing a well-formed entry under its own id keeps every row keyed by its id and well formed |
| `Journal.RemoveKeepsValid` | app.py:108-109 | removing a row keeps the remaining rows keyed by id and well formed |
| `Journal.JournalStore.constructor` | app.py:14-19 | a new table is empty and satisfies the table invariant |
| `Journal.JournalStore.Index` | app.py:35 | the index page lists all stored entries once each, ordered by date descending, then id descending |
| `Journal.JournalStore.ShowEntry` | app.py:70 | an id present in the table yields its entry; an absent id yields NotFound |
| `Journal.JournalStore.CreateEntry` | app.py:42-61 | a refused form yields its failure and leaves the table unchanged; an accepted form inserts exactly one row holding the stripped title, parsed date, stripped content and the given time under a new id, and all other rows are unchanged |
| `Journal.JournalStore.EditEntry` | app.py:77-96 | an absent id yields NotFound and changes nothing; a refused form changes nothing; an accepted form replaces only title, date and content of that row, keeping its id and creation time and every other row |
| `Journal.JournalStore.DeleteEntry` | app.py:107-109 | an absent id yields NotFound and changes nothing; a present id removes exactly that row |
| `Journal.CreateThenShow` | app.py:57-70 | after a successful create, showing the new id yields the created entry, whose fields are the submitted ones under an id unused before |
| `Journal.DeleteThenShow` | app.py:70-109 | after a delete, showing or deleting the same id again yields NotFound, and the table has lost exactly that id |

## Left out

- Flask routing, `render_template`, `redirect`/`url_for` and flash messages (app.py:33-111) are not modelled. A request's result is an `Outcome` value: `Done(entry)`, `NotFound` or `Rejected(MissingField | InvalidDate)`. Re-showing the partly filled form after a failure is not modelled.
- The GET branches of the new-entry and edit pages only render templates. The edit page's `get_or_404` on GET is the same lookup as `ShowEntry`.
- SQLAlchemy sessions, `commit` and `db.create_all()` (app.py:11, 25-29) are not modelled. Each store method is one atomic step on a `map` from id to entry. Storage-engine failures are not modelled.
- The clock is not modelled. `datetime.utcnow` for `created_at` is the `now` parameter, and `date.today()` for the form default is the `today` parameter of `DefaultDateAccepted`. The `date.today` column default never applies, because every insert gives a date.
- `Journal.NewRowId`: does not model SQLite's fallback once the largest rowid is 2^63-1, where SQLite picks an unused rowid at random. A journal never reaches that id.
- `Dates.ParseDate`: Python's `\d` also matches non-ASCII decimal digits (for example Arabic-Indic digits), and `int()` reads them. The model accepts only ASCII digits `0`-`9`, so such dates, which the source accepts, are refused here.
- `Dates.FormatDate`: always pads the year to four digits. The C library's `%Y` may write years below 1000 without padding. The default date is today's date, so this never arises.
- `EntryForm.FormGet`: a form field sent several times is one value here. Werkzeug's `get` returns the first value.
- The `String(200)` bound on the title (app.py:16) is not modelled, because SQLite does not enforce it.
- `__repr__` (app.py:21-22) and `app.run` (app.py:114-115) are not modelled.
