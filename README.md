# Contact book with a weekly birthday report

A Dafny model of a small in-memory contact book. A **Record** holds a name, an
ordered list of phone numbers and an optional birthday. An **AddressBook** is
a dict from names to Records. Its one piece of real logic is
`get_birthdays_per_week`: it finds which contacts have a birthday in the
7 days starting today, and labels each with a weekday name, Monday to
Friday. A birthday that falls on a weekend is listed under "Monday". On top
of the book sits a small command layer: `parse_input` and the handlers
`add_contact`, `change_phone`, `get_phone` and `show_birthday`.

The core appears twice in the repository. task1.py:8-97 and task2.py:95-184
hold the same code, line for line, 87 lines apart. The model covers it once.
The table cites task1.py for the shared core and task2.py for the command
layer.

Modules, one file each:

- `Outcomes` (outcomes.dfy): `Option`, `Result` and `Outcome`. They stand for Python's `None` and for raised exceptions.
- `Calendar` (calendar.dfy): Python's `datetime.date` for years 1 to 9999. It covers `toordinal()`, `weekday()` (Monday is 0) and `replace(year=...)`, which fails when the new date does not exist.
- `Phones` (phones.dfy): the `Phone` field's pattern check, plus the first-match scan and first-match removal over a phone list.
- `Birthdays` (birthdays.dfy): the report as pure functions. `NextOccurrence` computes where one birthday falls next. `Label` gives its weekday label. `BirthdaysPerWeek` is the loop's fold over the records. `NamesFor` is an independent per-label filter, and lemmas connect the two.
- `Contacts` (contacts.dfy): `Record` and `AddressBook` as classes whose methods update fields in place. The book keeps its keys in insertion order, because a Python dict iterates in that order and the report lists names in it. `GetBirthdaysPerWeek` is the loop, proved equal to `BirthdaysPerWeek`.
- `Commands` (commands.dfy): `parse_input` and the handlers. A handler returns the reply string that the `input_error` decorator would produce.

The clock is a parameter. `datetime.now().date()` becomes the argument `today`.

Where the intended behaviour and the code part ways, the model follows the code:

- A 29 February birthday makes `date.replace` raise `ValueError`. That happens when today's year is not a leap year, or when it is a leap year but February is over. A report that must never crash would need a leap-day policy, such as moving the birthday to 28 February or 1 March. The code has none, so `BirthdaysPerWeek` returns `Err(DayOutOfRange)` in these cases. `NextOccurrenceFails` states exactly when this happens.
- One would expect `find_phone(old)` to return none after `edit_phone(old, new)`. That is true exactly when `old` occurred at most once and differs from `new`. `EditThenFind` states this as an iff.
- With an invalid new number, `change_phone` has already dropped the contact's first phone when it replies with the error. The model keeps this.

## Model

| member | source | states |
|---|---|---|
| `Calendar.ReplaceYear` | task1.py:84 | `date.replace(year=y)` succeeds iff the same month and day exist in year `y`, and then yields that date. It fails with a day error exactly when the year is in range but the day is not valid for that month. |
| `Calendar.Weekday` | task1.py:92 | `weekday()` is always in 0..6. |
| `Calendar.WeekdayShift` | task1.py:92 | The weekday advances by one per day, modulo 7: it shifts by the ordinal difference between two dates. |
| `Calendar.KnownMonday` | task1.py:92 | 10 June 2024, a Monday, has weekday 0. With `WeekdayShift`, this fixes every date's weekday, Monday being 0. |
| `Calendar.NextDayOrdinal` | task1.py:86 | The next calendar day, across month and year ends, has the next ordinal. So `(d - today).days` counts days one by one. |
| `Calendar.OrdinalOrder` | task1.py:86 | Day ordinals follow calendar order: one date's ordinal is smaller iff that date comes first, and ordinals are equal iff the dates are. So `(d - today).days` has the right sign. |
| `Calendar.OrdinalWithinYear` | task1.py:86-89 | Every date's ordinal lies inside its own year's span of days, so any date of next year is later than any date of this year. |
| `Phones.NewPhone` | task1.py:15-19 | A Phone is created iff the value matches `^\d{10}$`, and it keeps the value. Otherwise the error is "Phone number must be 10 digits.". |
| `Phones.PatternAcceptsTenDigits` | task1.py:17 | The pattern accepts exactly the ten-digit strings, with or without one trailing newline (the `$` quirk). |
| `Phones.PatternEdgeCases` | task2.py:104 | Ten digits plus "\n" are accepted. Nine digits, eleven digits, two newlines and a letter are rejected. |
| `Phones.IndexOf` | task1.py:51-55 | The scan finds the first phone with the value, or reports none iff no phone has it. |
| `Phones.RemoveFirstSpec` | task1.py:38-45 | Removal takes out exactly one copy of the phone when there is one. Absent values leave the list unchanged. The phones before and after the removed one keep their order: putting it back at its index restores the list. |
| `Phones.RemoveFirstOfHead` | task2.py:42-43 | Removing the value of the first phone removes that first phone. This is what `change_phone` relies on. |
| `Phones.EditThenFind` | task1.py:47-55 | After `edit_phone(old, new)` with a valid `new`, `new` is found. `old` is not found iff it occurred at most once and differs from `new`. |
| `Phones.EditedCount` | task1.py:47-49 | After the edit, `old` occurs one time fewer if it occurred at all, plus once more if it equals `new`. |
| `Phones.IndexOfAbsent` | task1.py:51-55 | `find_phone` finds nothing iff no copy of the phone is in the list. |
| `Contacts.Record.constructor` | task1.py:28-33 | A new record has the given name, no phones, and the given birthday, if any. |
| `Contacts.Record.AddPhone` | task1.py:35-36 | A valid value is appended as the last phone. An invalid one raises the phone error and leaves the list unchanged. A record stores only `ValidPhone`s, which match the pattern, as every Python `Phone` does once constructed. |
| `Contacts.Record.RemovePhone` | task1.py:38-45 | The phone list becomes the old list without its first phone of that value. With no such phone it does not change. |
| `Contacts.Record.EditPhone` | task1.py:47-49 | The first `old` is removed. Then `new` is appended if it is valid. If it is invalid, the removal stays and the phone error is raised. |
| `Contacts.Record.FindPhone` | task1.py:51-55 | Returns none iff no phone has the value. Otherwise it returns a phone of the list with that value. |
| `Contacts.Record.AddBirthday` | task1.py:57-58 | The birthday becomes exactly the given date, replacing any earlier one. |
| `Contacts.Without` | task1.py:72-74 | Deleting a key keeps every other key and drops only that one. Deleting an absent key changes nothing. |
| `Contacts.WithoutKeepsOrder` | task1.py:72-74 | Deleting a key that occurs once leaves the keys before it and the keys after it, each in their order. |
| `Contacts.AddressBook.constructor` | task1.py:65 | A new book is empty. |
| `Contacts.AddressBook.AddRecord` | task1.py:66-67 | The record is stored under its own name. A second add with the same name replaces the first and keeps its position. A new name goes last in the order. |
| `Contacts.AddressBook.Find` | task1.py:69-70 | Returns none iff the name is absent. Otherwise it returns the stored record, whose name is the key. |
| `Contacts.AddressBook.Delete` | task1.py:72-74 | The name's entry is removed and the other entries keep their order. An absent name leaves the book unchanged. |
| `Contacts.AddressBook.Entries` | task1.py:80-83 | The report reads the records in insertion order, each as its name and birthday. |
| `Contacts.AddressBook.GetBirthdaysPerWeek` | task1.py:76-97 | The loop's result equals the fold `BirthdaysPerWeek` over the book's entries. An error raised mid-loop ends the call with that error. |
| `Birthdays.StepRecord` | task1.py:81-95 | One pass of the loop body over a record equals one `Step` of the fold: skip a record without a birthday, stop on a `replace` error, append the name under its label when the occurrence is fewer than 7 days away. |
| `Birthdays.NextOccurrence` | task1.py:83-89 | A successful occurrence is a real date with the birthday's month and day, and its delta is the day count from today. |
| `Birthdays.NextOccurrenceIsEarliest` | task1.py:84-89 | The chosen occurrence is never before today, and no anniversary in any year falls between today and it. |
| `Birthdays.NextOccurrenceFails` | task1.py:84-88 | The computation fails iff (a) the birthday is 29 February and today's year is not leap or is past February, or (b) today's year is 9999 and this year's anniversary has already passed. |
| `Birthdays.Label` | task1.py:92-94 | The label is the weekday name for Monday to Friday and "Monday" for Saturday and Sunday, so it is always a workday name. |
| `Birthdays.ErrorPersists` | task1.py:80-89 | Once one record raises, the whole call yields that error, whatever records follow. |
| `Birthdays.BirthdaysPerWeekOk` | task1.py:80-97 | The report is produced iff no record's birthday makes `replace` raise. |
| `Birthdays.BirthdaysPerWeekContents` | task1.py:80-97 | For each label, the report lists exactly the reference filter: the qualifying names with that label, in book order. Labels with no names are absent. |
| `Birthdays.NamesForMembers` | task1.py:91-95 | A name is under a label iff a record with that name qualifies with that label. |
| `Birthdays.BirthdaysPerWeekLabels` | task1.py:92-95 | Every key of the report is one of Monday to Friday. |
| `Birthdays.BirthdaysPerWeekListed` | task1.py:81-95 | A name is in the report iff a record with that name has a birthday whose next occurrence is under 7 days away. Records without a birthday never appear. |
| `Birthdays.BirthdaysPerWeekEmpty` | task1.py:76-97 | The report is the empty mapping iff no record qualifies. |
| `Birthdays.NamesForInOrder` | task1.py:80-95 | Two records listed under the same label appear in book order. |
| `Birthdays.WeekendGoesToMonday` | task1.py:91-95 | Today is Monday 2024-06-10 and the birthday is 15 June (a Saturday): the report is {"Monday": [name]}. |
| `Birthdays.YearRollover` | task1.py:86-89 | Today is 2024-12-31 and the birthday is 2 January: it rolls to 2025-01-02, 2 days away, under "Thursday". |
| `Commands.Split` | task2.py:19 | `split()` yields non-empty tokens that contain no whitespace. |
| `Commands.SplitFirstToken` | task2.py:19 | A token runs to the next whitespace: after leading whitespace, a run of non-whitespace followed by whitespace or the end is the first token, and the rest is split the same way. |
| `Commands.SplitKeepsText` | task2.py:19 | Joined back together, the tokens are exactly the input's non-whitespace characters, in order. |
| `Commands.SplitEmptyIffBlank` | task2.py:17-19 | `split()` finds no token iff `strip()` leaves nothing. |
| `Commands.Lower` | task2.py:20 | Lower-casing keeps the length and leaves no capital letter from the covered alphabets. A character changes iff it is such a capital. |
| `Commands.LowerIdempotent` | task2.py:28 | Lower-casing a lower-cased name changes nothing. |
| `Commands.ParseInput` | task2.py:16-21 | A blank or whitespace-only line gives `(None, [])`. Any other line gives a non-empty command and arguments that are whitespace-free tokens. |
| `Commands.ParseInputFirstWord` | task2.py:16-21 | The command is the lower-cased first word of the line, and the arguments are the words that follow it, as typed. |
| `Commands.ParseInputKeepsText` | task2.py:19-21 | Only whitespace is dropped and only the command's case changes: the command word as typed, followed by the arguments, spells the input's non-whitespace characters. |
| `Commands.AddContact` | task2.py:23-32 | With an argument count other than 2, or an invalid phone, it returns the error reply and leaves the book unchanged. Otherwise it stores a fresh record under the lower-cased name, with exactly that phone and no birthday, replacing any earlier one. |
| `Commands.ChangePhone` | task2.py:34-46 | For a stored name, the first phone (if any) is dropped and the new one appended. An invalid new phone gives the error reply after the drop. An unknown name gets "Contact not found." and nothing changes. Only the phone list is touched: the birthday stays. |
| `Commands.GetPhone` | task2.py:48-58 | A reply other than "Contact not found." is the first phone of the lower-cased name's record. A missing name argument gives the error reply. |
| `Commands.ShowBirthday` | task2.py:83-93 | It returns the stored birthday iff the lower-cased name is stored and has one. Otherwise it returns "Birthday not found for this contact.", or the error reply when the name argument is missing. |
| `Commands.AddThenGetPhone` | task2.py:23-58 | "add name phone" then "phone query" returns the phone for any query that lower-cases like the name. |

## Left out

- The interactive loop and command dispatch (task2.py:186-224) and the demo script (task1.py:99-106): input and output glue.
- `datetime.now()` (task1.py:78, task2.py:165): the clock becomes the parameter `today`.
- `Record.__str__` and `show_all_contacts` (task1.py:60-63, task2.py:60-65, 147-150): string formatting with `strftime`.
- The `add_birthday` handler (task2.py:67-81): it is about `strptime` parsing.
- Commands.ShowBirthday: returns the stored date, not its `strftime("%d.%m.%Y")` text.
- The "Unexpected error" branch of `input_error` (task2.py:12-13): no modelled handler raises anything but `ValueError`. Each handler returns its "Error: ..." reply directly.
- The `TypeError` branch of `Birthday` (task1.py:23-24): a birthday here always has type `Date`. `Record.AddBirthday` requires a valid date, as a `datetime` always is. The time of day is dropped, as `.date()` drops it.
- The `Field`/`Name` wrapper classes: the name is a plain string, fixed at construction.
- Phones.NewPhone: `\d` is taken as the ASCII digits 0-9. Python also matches other Unicode decimal digits there.
- Commands.Lower: maps only ASCII, Latin-1 and basic Cyrillic capitals (U+0400-U+042F, and U+0490). Python's `str.lower()` covers all of Unicode, including one-to-many mappings.
- `calendar.day_name` is locale-dependent. The model uses the English names of the C locale.
- Contacts.AddressBook.GetBirthdaysPerWeek: the result is a map, so the order in which labels were first inserted into the `defaultdict` is not kept. That order matters only when the loop prints the report.
- Phone objects are values. `list.remove` in `remove_phone` matches by identity, but the object it removes is the first one with the value, which is what `RemoveFirst` removes.
