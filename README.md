# Contact book with birthdays — a Dafny model

This project models the core of a small command-line contact book (`HW3.py`).
The book maps contact names to records. Each record holds a name, an ordered
list of phone numbers and a birthday that can be set only once. The model
covers these parts:

- **Phone check.** `phone_validation` accepts exactly ten digits.
- **Birthday guard.** `birthday_error_check` sits in front of
  `Record.add_birthday`. It rejects a text with no `DD.MM.YYYY`-shaped match
  ("Enter birthday as DD.MM.YYYY!"). It also rejects a text that is not, as a
  whole, a `DD.MM.YYYY` real date ("Enter a valid date!").
- **`Birthday`.** Parsing `strptime('%d.%m.%Y')` and printing
  `strftime('%d.%m.%Y')`, over a proleptic Gregorian calendar. The calendar has
  leap years, day numbers counted from 1 January of year 1, and weekdays.
- **`Record`.**
  - `add_phone` appends.
  - `edit_phone` rewrites the first matching phone.
  - `add_birthday` never overwrites a birthday that is already set.
- **`AddressBook`.**
  - `add_record` inserts a new name, or merges the first phone of the
    incoming record into the existing one.
  - `get_birthdays_per_week` lists who to greet in the next seven days. A
    weekend birthday is greeted on Monday. The lines run Monday to Sunday, and
    the names in a line keep the book's insertion order. When nobody qualifies,
    the result is the fixed "Noone to greet in the next week!".

Modules:

- `Wrappers`: `Option`.
- `Calendar`: dates, ordinals and weekdays.
- `Validation`: phone check, date text and guard.
- `Records`: the `Record` class, plus the pure specifications of its updates.
- `Weekly`: the report. `WeeklyReport` is the specification of the report.
  The methods `BirthdaysPerWeek`, `GroupByWeekday`, `FileEntry` and
  `RenderWeek` are the source's two loops, and each is proved against it.
- `Book`: the `AddressBook` class. It holds a `map` from name to `Record` and
  the `seq` of names in insertion order, which is the order in which a Python
  dictionary yields its values.

`add_record` raises `IndexError` when the name is known and the incoming record
has no phone. The model returns the `NoPhoneToMerge` outcome in that case,
with nothing changed. A 29 February birthday in a non-leap year makes
`date.replace` raise `ValueError`, which the interactive loop reports. The
model gives the `ReplaceFailed` report in that case.

## Model

| member | source | states |
|---|---|---|
| Validation.PhoneValidation | HW3.py:9-13 | true exactly when the text has length 10 and every character is a digit |
| Validation.IsDigitString | HW3.py:10 | `isdigit`: true exactly when the text is non-empty and all of it is digits |
| Calendar.DaysInMonth | HW3.py:29 | every month has 28 to 31 days; a month has 29 exactly when it is February of a leap year |
| Calendar.OrdinalNextDay | HW3.py:149-150 | the day number of the next calendar day is one more, so differences of day numbers count days |
| Calendar.WeekdayOfNextDay | HW3.py:153 | the weekday of the next calendar day is the next weekday |
| Calendar.FirstDay | HW3.py:149-153 | 1 January of year 1 is day 1 and a Monday |
| Calendar.LeapDay2024 | HW3.py:153 | 29 February 2024 is a Thursday |
| Validation.FormatDate | HW3.py:65-66 | printing a valid date gives ten characters of the shape `DD.MM.YYYY` |
| Validation.ParseDate | HW3.py:29 | a text is accepted only if it names an existing date in years 1 to 9999 and printing that date gives the text back |
| Validation.FormatParsed | HW3.py:29 | reprinting the fields of any `DD.MM.YYYY` text gives the same text |
| Validation.ParseFormat | HW3.py:63-66 | parsing the printed form of a valid date gives that date back |
| Validation.BirthdayGuard | HW3.py:25-35 | format error exactly when no `\b\d{2}\.\d{2}\.\d{4}` match exists; acceptance exactly when the search matches and the whole text is a valid `DD.MM.YYYY` date, which prints back as the text |
| Validation.ShapeAfterBoundary | HW3.py:27 | the search finds a `DD.MM.YYYY` anywhere in the text when no word character precedes it |
| Validation.WordBeforeDate | HW3.py:27 | `\b`: `a01.02.2020` has no match |
| Validation.ParsedIsShaped | HW3.py:27-29 | every text `ParseDate` accepts also passes the regular-expression search |
| Validation.ShortFieldsHidden | HW3.py:27-34 | `1.2.2020` and ` 1.02.2020` get the format hint although `strptime` would read them as real dates |
| Validation.ThirtyFirstOfFebruary | HW3.py:28-32 | `31.02.2020` has the right shape but is an invalid date |
| Records.FirstIndex | HW3.py:94-95 | the position found holds the phone and none before it does; none is found exactly when the phone is absent |
| Records.EditFirst | HW3.py:93-98 | same length; position i becomes the new phone exactly when it is the first occurrence of the old one; all else is unchanged |
| Records.SetBirthdayOnce | HW3.py:106-112 | an existing birthday is never replaced; the birthday is added exactly when none is set and the text parses; "already specified" exactly when one is set and the text parses; a format error exactly when the text has no date-shaped match; an invalid date exactly when it has one but does not parse; a rejection always carries the guard's own verdict |
| Records.Record.constructor | HW3.py:70-73 | the record has the given name, one phone when a non-empty phone is given and none otherwise, and no birthday, so its birthday invariant holds |
| Records.Record.AddPhone | HW3.py:85-86 | the phone list becomes the old list with the phone appended |
| Records.Record.EditPhone | HW3.py:93-98 | reports a change exactly when the old phone is present, and the list becomes `EditFirst` of the old list |
| Records.Record.AddBirthday | HW3.py:106-112 | the outcome and the new birthday are those of `SetBirthdayOnce` on the old birthday; a stored birthday stays a real date |
| Records.EditMessage | HW3.py:97-98 | the reply is "Phone changed!" exactly when the phone was changed |
| Records.BirthdayMessage | HW3.py:110-112 | "Birthday added!", the format hint and the invalid-date reply each come from exactly one outcome |
| Validation.GuardMessage | HW3.py:31-34 | the guard's two replies tell a bad format from an invalid date |
| Book.AddressBook.constructor | HW3.py:115 | the book starts empty and consistent |
| Book.AddMessage | HW3.py:120-123 | the reply is "Contact added!" exactly when a new contact was inserted |
| Book.AddressBook.AddRecord | HW3.py:117-123 | a new name is inserted with the record and appended to the order; the incoming record must hold a real birthday, if any; a known name keeps the key set and order, and its record gains the incoming first phone at the end; with no phone to take, nothing changes; the other records and the birthdays are untouched |
| Book.AddressBook.EntryAt | HW3.py:142 | the i-th entry of the pass is the record under the i-th inserted name |
| Book.AddressBook.DistinctNames | HW3.py:118-122 | no two entries of the book share a name |
| Book.AddressBook.OneLinePerContact | HW3.py:152-159 | a contact is listed under at most one weekday |
| Book.AddressBook.GetBirthdaysPerWeek | HW3.py:139-172 | the report is `WeeklyReport` of the book's entries in insertion order |
| Book.AddressBook.BookReportFails | HW3.py:146-147 | since a book holds only real birthdays, its report fails exactly in a non-leap year when some contact was born on 29 February |
| Weekly.ReplaceYear | HW3.py:147 | a successful replacement is the same day and month in the new year; for a valid birthday and year it fails exactly on 29 February of a non-leap year |
| Weekly.TagAt | HW3.py:143-155 | each entry is tagged with its own name and with the weekday it is greeted on, if any |
| Weekly.FileEntry | HW3.py:143-159 | one turn of the first loop: fails when the replacement raises, otherwise files the name under its greeting day, creating the list if absent |
| Weekly.GroupByWeekday | HW3.py:141-159 | the first loop gives exactly `GreetDict` of the entries |
| Weekly.GreetDictFails | HW3.py:147 | the first loop gives up exactly when some entry's replacement raises |
| Weekly.GreetDictGroups | HW3.py:141-159 | otherwise each weekday maps to exactly the names greeted on it, in entry order, and weekdays with no names are absent |
| Weekly.GreetDictPrefix | HW3.py:147 | once a replacement has raised, the whole pass fails |
| Weekly.GroupStep | HW3.py:156-159 | appending a name, or creating its list, keeps the grouping exact |
| Weekly.RenderWeek | HW3.py:161-169 | the second loop prints `RenderDays` of Monday to Sunday |
| Weekly.BirthdaysPerWeek | HW3.py:141-172 | the whole pass gives `WeeklyReport` of the entries |
| Weekly.JoinSnoc | HW3.py:166 | joining one more name appends the separator and that name |
| Weekly.Line | HW3.py:166-167 | a day's line is non-empty and ends in a newline |
| Weekly.InNamesOn | HW3.py:156-159 | a name is under a weekday exactly when some tag carries both |
| Weekly.NobodyOn | HW3.py:156-159 | a weekday no tag carries has no names |
| Weekly.NamesOnAppend | HW3.py:142-159 | grouping more entries appends their names after the earlier ones |
| Weekly.RenderExtend | HW3.py:164-169 | printing one more weekday appends that day's line |
| Weekly.RenderEmpty | HW3.py:164-169 | nothing is printed exactly when none of the weekdays has names |
| Weekly.RenderEndsWithNewline | HW3.py:167 | printed lines always end in a newline |
| Weekly.InBucket | HW3.py:143-155 | a name is listed under a weekday exactly when an entry with that name has a birthday 1 to 7 days after today, and that weekday is the one it is greeted on |
| Weekly.NoWeekendNames | HW3.py:153-155 | Saturday and Sunday never have names |
| Weekly.WorkdaysOnly | HW3.py:153-169 | the report consists of the Monday to Friday lines only, in that order |
| Weekly.BucketAppend | HW3.py:142-159 | names of earlier entries come before those of later entries under each weekday |
| Weekly.OneDayPerName | HW3.py:152-159 | with distinct names, a name is listed under at most one weekday |
| Weekly.AnyFailsMeans | HW3.py:147 | the report fails exactly when some entry's replacement raises |
| Weekly.AnyFailsPrefix | HW3.py:147 | a failure among the first entries is a failure of the whole pass |
| Weekly.ReportFails | HW3.py:147 | with valid birthdays, the report fails exactly in a non-leap year when some birthday is 29 February |
| Weekly.NoOneToGreet | HW3.py:170-171 | the fixed message is the result exactly when no entry qualifies |
| Weekly.NotTheMessage | HW3.py:167-171 | a printed report never equals the fixed message |
| Weekly.NothingToRender | HW3.py:161-171 | nothing is printed exactly when no entry is greeted |
| Weekly.UntaggedNobody | HW3.py:152 | no tag with a weekday means no entry qualifies |
| Weekly.NobodyUntagged | HW3.py:152 | no qualifying entry means no tag with a weekday |
| Weekly.MondayExample | HW3.py:139-172 | on Wednesday 5 June 2024, birthdays on 10 June (Monday) and 8 June (Saturday) give `Monday: Ann, Bob`; one on 5 June itself is not listed |
| Weekly.OnlyFirstDay | HW3.py:164-169 | when only the first weekday has names, the printout is that day's line |

## Left out

- The interactive loop is not part of this model: `main`, `parse_input`, the help text, `input` and `print` (HW3.py:175-242). Nor is `NumberArgsError`, or `main` catching the `ValueError` of a failed year replacement. The model returns the `ReplaceFailed` report instead.
- `datetime.today()` (HW3.py:140) is the `today` parameter. It is taken to be a valid date.
- `Record.__str__`, `show_phones` and `AddressBook.__str__` (HW3.py:75-83, 133-137) only format text for display.
- The `UserDict` base class is not modelled beyond `data`. The model adds an explicit list of keys in insertion order.
- The commented-out helpers are not live code: `name_error_check`, `check_number_arguments`, `remove_phone`, `find_phone`, `find` and `delete`.
- The `birthday` parameter of `Record.__init__` is not modelled. Nothing in the program passes it.
- Characters are ASCII only. `\d`, `\w` and `str.isdigit` accept only ASCII digits and letters here; Python also accepts other Unicode digits and letters.
- `Validation.ParseDate` does not model the `strptime` library itself, only the result for texts that passed the regular-expression search. Such a text has at least ten characters, and `'%d.%m.%Y'` then accepts exactly the texts `DD.MM.YYYY` with a day that exists in years 1 to 9999. `strptime` also accepts a one-digit day or month and a day padded with a space (`%Y` needs exactly four digits), but such a text has no `DD.MM.YYYY` match and fails the search first.
- `Validation.FormatDate` always pads the year to four digits. The platform's `strftime('%Y')` may print years below 1000 without padding.
- The report looks at this year's occurrence of each birthday only, as the source does. A birthday in early January is not greeted from late December.
- The weekday names are the `Weekday` enumeration. The library's locale lookup behind `strftime('%A')` is not modelled.
