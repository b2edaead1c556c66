# Contact book model

A Dafny model of the in-memory contact book of a command-line assistant bot
(`main.py`, lines 6-90). The book stores contacts by name. Each contact
(`Record`) has a name, an ordered list of ten-digit phone numbers and an
optional birthday. The book answers "whose birthday falls in the next seven
days".

Modules, one per component:

- `Wrappers` (`wrappers.dfy`): `Option`, `Result` and `Outcome`. They stand for
  Python's `None` results and raised exceptions.
- `Sequences` (`sequences.dfy`): removing every occurrence of a value, and
  finding the first index of a value. The phone list and the book's key order
  both use them.
- `Calendar` (`calendar.dfy`): proleptic Gregorian dates of years 1-9999 as
  `datetime` holds them. Also day ordinals (`date.toordinal()`) and instants.
  An instant is `ordinal * 86_400_000_000 + microseconds since midnight`, so
  adding `k` days adds `k` days' worth of microseconds. `InstantOrder` proves
  that comparing instants is Python's field-by-field `datetime` comparison.
- `Fields` (`fields.dfy`): `Phone.validate` and `Phone(...)`, and
  `datetime.strptime(text, "%d.%m.%Y")` as CPython's `_strptime` matches it.
  The day is `3[01]|[12]\d|0[1-9]|[1-9]| [1-9]`, the month is
  `1[0-2]|0[1-9]|[1-9]` and the year is exactly four digits. The whole text
  must be consumed and must name a real date of year 1 or later.
  `strftime('%d.%m.%Y')` renders a date zero-padded. A name is plain text and
  is never validated.
- `Records` (`records.dfy`): the `Record` class. `phones` is a `seq` of
  validated numbers and `birthday` an `Option` of a date. There is one method
  per source method, plus `Display` for `str(record)`.
- `Birthdays` (`birthdays.dfy`): the upcoming-birthdays query as functions of
  "now" and of the records' (name, birthday) pairs in iteration order:
  - `ReplaceYear` is `datetime.replace(year=...)`.
  - `NextOccurrence` is the this-year/next-year step.
  - `Scan` is the loop.
  - `Upcoming` is the whole query, including the seven-days-ahead overflow check.
- `AddressBooks` (`address_book.dfy`): the `AddressBook` class. It holds a
  `map` from name to `Record` object plus `order`, the dict's insertion order,
  which is the iteration order of `self.data.values()`. Records are shared
  objects: `Find` returns the stored object, and a caller may change it.
- `Scenarios` (`scenarios.dfy`): the behaviours a user sees. One contact gets
  two phones and the first is changed, and a name is overwritten, then
  deleted; these are proved from the methods' contracts alone. A 5 June
  birthday is reported on 1 June 2024 and a 1 January one is not; this one
  evaluates the query function `Upcoming` on the two records.

"Now" is a parameter (`Moment`: a date and the microseconds since its
midnight) instead of a reading of `datetime.today()`.

Four behaviours of the code are easy to miss; the model follows the code:

- A day or month may be one digit, and a day may be a space and a digit
  (`" 5.06.2000"`). Rendering always zero-pads. So parsing then rendering gives
  back the text only when the text was written zero-padded (`ParseRender`).
- The query compares full datetimes. A stored birthday is at midnight, while
  "now" carries the time of day. A birthday on today's date is therefore
  earlier than "now" unless the query runs exactly at midnight. It is moved a
  year ahead and left out (`TodayAfterMidnight`); in year 9999 the query raises
  instead. A birthday seven days ahead is reported at any time of day
  (`WindowInDays`).
- A 29 February birthday is not moved to another day in a common year.
  `replace(year=...)` raises and the whole query fails (`NextOccurrenceFails`).
- A name may be any text, the empty text included.

## Model

| member | source | states |
|---|---|---|
| `Fields.IsValidPhone` | main.py:23-25 | true exactly when the text has length 10 and every character is a digit |
| `Fields.NewPhone` | main.py:16-21 | constructing a phone succeeds exactly on valid text and keeps it; otherwise it fails with the invalid-phone error, whose message is the source's text, and yields no phone |
| `Fields.NewBirthday` | main.py:27-32 | constructing a birthday succeeds exactly when the text parses and holds the parsed date; otherwise it fails with the invalid-date error, whose message is the source's text |
| `Fields.ParseFields` | main.py:29-32 | a day field, a month field and a four-digit year joined by dots are accepted exactly when they name a valid calendar date, and yield that date (so 31.04, 29.02 of a common year and year 0000 are refused) |
| `Fields.ParseExactly` | main.py:29-32 | the parser returns a date exactly when that date is valid and the whole text spells it in the pattern (both directions) |
| `Fields.ParseDate` | main.py:30 | a parsed text is 8 to 10 characters, a dot and a four-digit year end it, and that year is the date's year; `ParseExactly` characterises the parser fully |
| `Fields.Render` | main.py:65 | the rendered text is two digits, a dot, two digits, a dot and four digits; `RenderParse` and `ParseRender` make it the inverse of parsing on zero-padded text |
| `Fields.RenderParse` | main.py:65 | parsing the rendered `DD.MM.YYYY` text of any valid date gives that date back |
| `Fields.ParseRender` | main.py:65 | rendering a parsed date reproduces the input exactly when the input is ten characters with no leading space, i.e. zero-padded |
| `Calendar.DaysInMonth` | main.py:30 | every month has 28 to 31 days, and 29 exactly for February of a leap year |
| `Calendar.OrdinalOrder` | main.py:81 | day ordinals order dates as the calendar does, and equal ordinals mean equal dates |
| `Calendar.InstantOrder` | main.py:86-88 | comparing instants is the same as comparing `datetime` values by date and then time of day |
| `Calendar.NextYearSameDay` | main.py:87 | the same month and day one year later is at least 365 days later |
| `Records.Record.constructor` | main.py:35-38 | a new record has the given name, no phones and no birthday |
| `Records.Record.AddPhone` | main.py:40-41 | a valid phone is appended at the end with earlier phones in order; invalid text fails and leaves phones unchanged; the birthday is untouched |
| `Records.Record.RemovePhone` | main.py:43-44 | the phone list becomes the list without any phone equal to the text |
| `Sequences.Without` | main.py:44 | the result holds no element equal to the removed value, and it holds exactly the other elements of the input |
| `Sequences.WithoutAbsent` | main.py:44 | removing a value that does not occur leaves the list unchanged |
| `Sequences.WithoutMultiset` | main.py:44 | every element other than the removed value keeps its number of occurrences |
| `Sequences.WithoutAppend` | main.py:44 | removal acts piecewise on concatenations, so the kept elements stay in their original order |
| `Records.Record.EditPhone` | main.py:46-52 | an invalid replacement fails and changes nothing; otherwise only the first phone equal to the old value is replaced, every other index is untouched, and with no match nothing changes |
| `Sequences.IndexOf` | main.py:54-58 | the lowest index holding the value, or `None` exactly when the value does not occur |
| `Records.Record.FindPhone` | main.py:54-58 | returns the position of the first phone equal to the text, or `None` exactly when no phone equals it |
| `Records.Record.AddBirthday` | main.py:60-61 | valid text sets the birthday to the parsed date; invalid text fails and keeps the previous birthday (or none); phones are untouched |
| `Records.JoinPhones` | main.py:64 | the joined text of n phones is 12n - 2 characters long (empty for no phones); `JoinedPhoneSlots` places each phone in its slot |
| `Records.JoinedPhoneSlots` | main.py:64 | the joined phone text has a 12-character slot per phone holding that phone, separated by `"; "`, so the display lists exactly the phones in order |
| `Records.Record.Display` | main.py:63-66 | the display starts with `Contact name: `, the name and `, phones: `, and with a birthday it ends with the rendered date; `DisplayBirthday` gives the whole text |
| `Records.DisplayBirthday` | main.py:63-66 | the display is `Contact name: `, the name, `, phones: `, the joined phones and, with a birthday, `, Birthday: ` and the zero-padded date, which parses back to the birthday |
| `AddressBooks.AddressBook.constructor` | main.py:68 | a new book is empty and keeps its invariant |
| `AddressBooks.AddressBook.AddRecord` | main.py:69-70 | the record is stored under its name, overwriting any earlier record, and other keys are unchanged; a new name goes to the end of the iteration order, a known name keeps its place |
| `AddressBooks.AddressBook.Find` | main.py:72-73 | returns the record stored under the name, which carries that name, or `None` exactly when the name is absent |
| `AddressBooks.AddressBook.Delete` | main.py:75-77 | only the name's entry and its place in the order are removed; an absent name leaves the book unchanged |
| `AddressBooks.AddressBook.UpcomingBirthdays` | main.py:79-90 | the result is the query function applied to the records in iteration order; every reported pair names a stored record, carries its birthday, and its next occurrence lies in the window |
| `AddressBooks.AddressBook.HitsInBook` | main.py:83-89 | every reported name is a stored key whose record holds the reported birthday, and that birthday's next occurrence is in the window |
| `Birthdays.ReplaceYear` | main.py:85 | replacing the year fails exactly for a year outside 1-9999 (checked first) or for 29 February in a common year, and otherwise keeps month and day |
| `Birthdays.NextOccurrence` | main.py:85-87 | the next occurrence keeps month and day, falls in this year or the next, is never earlier than now, and is next year only when this year's date is earlier than now |
| `Birthdays.WindowInDays` | main.py:81-88 | a next occurrence is in the window exactly when it is 1 to 7 days ahead, or today when now is exactly midnight |
| `Birthdays.TodayAfterMidnight` | main.py:85-88 | a birthday on today's date queried after midnight moves to next year and is not reported |
| `Birthdays.NextOccurrenceFails` | main.py:85-87 | a 29 February birthday succeeds only in a leap year up to 29 February at midnight; any other birthday fails only in year 9999 once its date has passed |
| `Birthdays.ScanStep` | main.py:83-89 | handling one more record: none without a birthday, the error when its next occurrence raises, the pair appended when it is in the window |
| `Birthdays.ScanPrefixFailure` | main.py:83-87 | once the loop has raised for a prefix of the records, the whole query raises the same error |
| `Birthdays.ScanFailure` | main.py:83-90 | the loop raises exactly when some record with a birthday makes it raise, and it raises the error of the first such record |
| `Birthdays.ChosenSorted` | main.py:83-89 | the reported positions are selected records (birthday present, next occurrence in the window) in strictly increasing iteration order |
| `Birthdays.ChosenComplete` | main.py:83-89 | every selected record's position is reported |
| `Birthdays.ScanSuccess` | main.py:83-90 | when the loop completes, the i-th reported pair is the name and stored birthday of the i-th selected record |
| `Birthdays.Scan` | main.py:83-89 | the loop never reports more pairs than there are records and never raises the overflow error; `ScanFailure` and `ScanSuccess` say exactly when it raises and what it reports |
| `Birthdays.Upcoming` | main.py:79-90 | the query fails with the overflow error exactly when seven days ahead is past 31 December 9999, and reports at most one pair per record; `UpcomingCharacterised` gives the full result |
| `Birthdays.UpcomingCharacterised` | main.py:79-90 | the query fails with the overflow error when seven days ahead is past 31 December 9999; otherwise it fails exactly when a record makes it fail, and on success it reports exactly the selected records in order |
| `Birthdays.HitsSelected` | main.py:88-89 | each reported pair comes from a record with that name and birthday whose next occurrence is in the window |
| `Scenarios.AliceAndBob` | main.py:79-90 | on 1 June 2024 at any time, a 5 June birthday is reported and a 1 January birthday is not |

## Left out

- The command loop, argument parsing, the `input_error` decorator, the command
  wrappers and all printed output (main.py:92-137, 150-242): interactive I/O
  and presentation.
- `save_data`/`load_data` (main.py:139-148): file I/O through `pickle`.
- `datetime.today()` (main.py:80): the clock reading is the `now` parameter.
- Records.Record.FindPhone: returns the position of the phone rather than the
  `Phone` object. Phone objects are values in the model, so what a caller does
  by mutating a returned `Phone` (or by sharing one) is not modelled;
  `edit_phone`'s in-place change of `phone.value` is modelled as an update of
  that position.
- AddressBooks.AddressBook.UpcomingBirthdays: reports the birthday date rather
  than the `Birthday` object stored in the record.
- Fields.IsValidPhone: `\d` in CPython matches every Unicode decimal digit; the
  model accepts ASCII digits only. The same holds for the digits of a date.
- Fields.Render: always pads the year to four digits. On some C libraries
  `strftime('%Y')` prints years below 1000 without padding.
- The rest of the `UserDict` interface (direct item assignment, `len`,
  iteration) is not modelled. Only `add_record`, `find`, `delete` and
  `get_upcoming_birthdays` are. Assigning `book[k] = r` directly could break the
  rule that every key is its record's name, which `Valid` keeps.
- The message texts of the two validation errors are kept (`Message`, stated by
  `NewPhone` and `NewBirthday`). The exception classes are not (`ValueError`
  for validation and for `replace`, `OverflowError` for adding seven days), nor
  are the messages `datetime` raises with.
