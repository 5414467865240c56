# Cinema scheduler: show form and show list

A Dafny model of the two screens at the centre of the cinema scheduler.

- The show form (`FormSection.js`) validates a candidate show:
  - title and theater are required;
  - the show date must be a `dd/mm/yyyy` weekday that is not after the end-date bound;
  - the show time must be a 24-hour `HH:MM`;
  - the ticket price must be a positive number;
  - no stored show may already have the same theater, title, date and time.
- When the form is accepted it derives the end date (the show date plus seven days, written `yyyy-mm-dd`). It then appends a record with `showId = count + 1` to the `cinemaShows` store.
- The date picker turns a `yyyy-mm-dd` value into `dd/mm/yyyy` text.
- The show list (`CinemaList.js`) loads the store and shows ten records per page.
- A header click toggles the sort column and direction. Only the current page is sorted, stably.
- The list can be exported as unquoted CSV. Clear all removes the store key.

Modules, one concept each:

| module | file | concern |
|---|---|---|
| `Text` | `text.dfy` | `Option`; JavaScript `split`/`join`; decimal digits, padding and parsing; ASCII lower-casing; string order |
| `Calendar` | `calendar.dfy` | proleptic Gregorian dates, day numbers, weekdays, adding days, the `dd/mm/yyyy` and `yyyy-mm-dd` text forms, the date picker |
| `Records` | `records.dfy` | the stored show record, its identity key, the store entry |
| `Validation` | `validation.dfy` | the per-field rules, the uniqueness check, the whole-form validation |
| `Saving` | `saving.dfy` | the save step, and the save as currently wired (see Findings) |
| `Paging` | `paging.dfy` | page count and `slice` paging |
| `Sorting` | `sorting.dfy` | the sort toggle, the column comparator, a stable insertion sort |
| `Export` | `export.dfy` | the CSV text and a reader for it |
| `ListView` | `listview.dfy` | the list screen's state and actions |

Time and dates are integers with no time zone. Local time and UTC are taken to be the same. The save stamp (`new Date().toISOString()`) is an opaque string parameter. The confirmation dialog of clear all is a boolean parameter. Storage is a value (`Option<seq<Show>>`, where `None` means the key is absent) that operations take and return.

## Model

| member | source | states |
|---|---|---|
| Text.Split | src/components/FormSection.js:83 | `split` with a one-character separator: k separators give k + 1 parts, and no part contains the separator |
| Text.SplitJoin | src/components/CinemaList.js:84-96 | splitting text joined with c, where no part contains c, gives the parts back |
| Text.JoinSplit | src/components/FormSection.js:83 | joining the parts of a split with the separator gives the original text |
| Text.NatToString | src/components/FormSection.js:332 | decimal text of n: non-empty digits denoting n, with no leading zero |
| Text.ToLower | src/components/CinemaList.js:62-63 | lower-casing keeps the length and maps each character by the ASCII rule |
| Text.StrLessTransitive | src/components/CinemaList.js:65-66 | string `<` is transitive |
| Text.StrLessTotal | src/components/CinemaList.js:65-67 | any two strings are equal or one is `<` the other (with asymmetry, exactly one) |
| Calendar.DaysInMonth | src/components/FormSection.js:88-89 | month lengths are 28 to 31 |
| Calendar.NextDay | src/components/FormSection.js:151-152 | the next day is a calendar date, one day number later |
| Calendar.AddDays | src/components/FormSection.js:151-152 | adding n days gives a calendar date exactly n day numbers later, rolling over months and years |
| Calendar.WeekdayCycle | src/components/FormSection.js:54-55 | the weekday advances by one each day and repeats after seven days |
| Calendar.DayNumberOrder | src/components/FormSection.js:93 | one date is before another exactly when its day number is smaller, so comparing dates compares instants |
| Calendar.DayNumberInjective | src/components/FormSection.js:93 | dates with equal day numbers are equal |
| Calendar.DateFromParts | src/components/FormSection.js:87-89 | a date is produced exactly when day, month and year are digit strings that form a valid date, and it is the date with those numbers |
| Calendar.ParseShowDate | src/components/FormSection.js:83-89 | a parsed show date is valid and came from exactly three `/`-separated parts |
| Calendar.PickerToShowDate | src/components/FormSection.js:327-334 | the picker writes text only for a value that parses, and the text is that date as `dd/mm/yyyy` |
| Calendar.ShowDateRoundTrip | src/components/FormSection.js:332 | the `dd/mm/yyyy` text of a date parses back to that date |
| Calendar.IsoText | src/components/FormSection.js:153 | `toISOString`'s date part: for years up to 9999, ten characters, a four-digit year, a dash, the month as two digits and a dash, then the day as two digits; later years as `+` and six digits |
| Calendar.IsoRoundTrip | src/components/FormSection.js:153 | the `yyyy-mm-dd` text of a date parses back to that date |
| Calendar.PickerRoundTrip | src/components/FormSection.js:327-334 | picking a date fills in text that the form reads as the same date |
| Validation.IsWeekday | src/components/FormSection.js:46-58 | true exactly for text that parses as a date falling Monday to Friday |
| Validation.ShowDateError | src/components/FormSection.js:79-97 | the first failing stage: required, then three parts, then valid date, then weekday, then not after the end date; none exactly when the date is acceptable |
| Validation.ShowTimeError | src/components/FormSection.js:98-102 | required for empty text, format error exactly when the pattern fails, none exactly when the text reads as an hour below 24 and a minute below 60 |
| Validation.TimePatternIsParse | src/components/FormSection.js:100 | the time pattern accepts exactly the strings the hour-and-minute reading accepts |
| Validation.TimeExamples | src/components/FormSection.js:100 | `9:05`, `23:59` and `00:00` match the pattern; `24:00`, `12:60` and `12:5` do not |
| Validation.PriceError | src/components/FormSection.js:103-107 | required for empty text, no error exactly when the price reads as a number above zero, and the not-a-positive-number error exactly for other non-empty text |
| Validation.PriceRoundTrip | src/components/FormSection.js:105 | a two-decimal amount reads back as that many hundredths, and it is positive unless zero |
| Validation.AnyWithKey | src/components/FormSection.js:112-117 | true exactly when some stored record has the key |
| Validation.IsDuplicate | src/components/FormSection.js:110-117 | a duplicate exactly when all four key fields are filled in and some stored record has that key |
| Validation.Validate | src/components/FormSection.js:74-122 | each field is in the error map exactly when its rule fails, a required-field error names its own field, the title and theater entries are their required errors, each entry is the error that field's own staged rule reports (`ShowDateError`, `ShowTimeError`, `PriceError`, or the required error), and the duplicate flag is set exactly for a stored key |
| Validation.NoFieldErrorsIff | src/components/FormSection.js:124-125 | the error map is empty exactly for candidates whose every field passes its rule |
| Validation.AcceptedIff | src/components/FormSection.js:109-128 | the intended acceptance: every field passes and the key is not stored |
| Validation.ErrorsIndependent | src/components/FormSection.js:77-107 | a field's error depends only on that field's own inputs |
| Saving.NewShow | src/components/FormSection.js:167-177 | the appended record carries the candidate's key |
| Saving.EndDateFor | src/components/FormSection.js:140-153 | an end date exists exactly when the show date parses, it reads back as seven days after the show date, and it is the `yyyy-mm-dd` text (`IsoText`) of that date |
| Saving.Append | src/components/FormSection.js:167 | the list grows by one at the end, with the earlier records untouched |
| Saving.AcceptedDateParses | src/components/FormSection.js:140-150 | an accepted candidate's show date always re-parses, so the save's error exits are unreachable |
| Saving.Save | src/components/FormSection.js:131-178 | a save is refused exactly when validation does not accept; otherwise the store is the old list plus one record with `showId = count + 1`, and the form gets the derived end date |
| Saving.Write | src/components/FormSection.js:140-177 | the write after validation: it aborts with nothing written exactly when the show date does not re-parse; otherwise it appends the record with `showId = count + 1` and yields the derived end date |
| Saving.SaveKeepsKeysUnique | src/components/FormSection.js:109-117 | saving preserves the invariant that no two stored records share a key |
| Saving.SecondSaveRejected | src/components/FormSection.js:110-120 | saving the same showing again is refused as a duplicate |
| Saving.EndDateNotBeforeShow | src/components/FormSection.js:151-159 | the derived end date never puts the saved show date after it |
| Saving.EndDateExample | src/components/FormSection.js:151-153 | 01/07/2024 gives the end date 2024-07-08 |
| Saving.SaturdayRejected | src/components/FormSection.js:91-92 | 06/07/2024, a Saturday, gets the not-a-weekday error |
| Saving.DuneWellFormed | src/components/FormSection.js:74-107 | the Dune candidate (Theater 1, 01/07/2024, 18:00, 10.00) passes every field rule |
| Saving.SaveAsWritten | src/components/FormSection.js:119-134 | the save as wired: refused exactly when there is a field error or the banner captured at render time is non-empty, never aborted, and otherwise the record is appended with `showId = count + 1` |
| Saving.StaleBannerAdmitsDuplicate | src/components/FormSection.js:119-134 | with no banner showing, a well-formed candidate whose key is already stored is saved by the wired save and breaks key uniqueness, while the corrected save refuses it |
| Saving.StaleBannerRefusesValid | src/components/FormSection.js:120-133 | a leftover banner makes the wired save refuse a candidate that the corrected save accepts |
| Saving.DuneStoredTwice | src/components/FormSection.js:110-125 | the Dune showing stored once is stored a second time by the wired save |
| Paging.TotalPages | src/components/CinemaList.js:25 | the page count is the least number of ten-record pages that holds every record |
| Paging.ClampIndex | src/components/CinemaList.js:28 | `slice` indices clamp to the list, counting negative indices back from the end |
| Paging.PageSlice | src/components/CinemaList.js:26-28 | page p is the records from (p-1)*10 to p*10, cut at the end of the list, at most ten of them |
| Paging.PageInRange | src/components/CinemaList.js:25-28 | every page from 1 to the page count holds one to ten records |
| Paging.PageBeyondEnd | src/components/CinemaList.js:26-28 | a page past the last is empty |
| Paging.PagesCover | src/components/CinemaList.js:25-28 | reading the pages in order gives back exactly the whole list |
| Sorting.Toggle | src/components/CinemaList.js:17-23 | a header click always selects that column |
| Sorting.ToggleAlternates | src/components/CinemaList.js:17-23 | a new column starts ascending, repeated clicks alternate, and three clicks equal one |
| Sorting.AscendingMeaning | src/components/CinemaList.js:37-54 | ascending puts smaller ids and earlier dates first |
| Sorting.DescendingReverses | src/components/CinemaList.js:37-67 | descending is ascending with the arguments swapped, and so negates it |
| Sorting.CompareFlip | src/components/CinemaList.js:33-68 | the comparator is antisymmetric |
| Sorting.CompareZero | src/components/CinemaList.js:33-68 | two records compare equal exactly when their column values are equal |
| Sorting.CompareTransitive | src/components/CinemaList.js:33-68 | the comparator is transitive, so it is a consistent order |
| Sorting.Insert | src/components/CinemaList.js:33 | inserting into a sorted list keeps it sorted and adds exactly that record |
| Sorting.SortBy | src/components/CinemaList.js:33-68 | the sort result is a permutation of its input and is sorted by the comparator |
| Sorting.SortStable | src/components/CinemaList.js:33 | records with equal column values keep their relative order |
| Sorting.StableSortUnique | src/components/CinemaList.js:33 | two sorted, stable permutations of the same records are the same sequence |
| Sorting.SortIsTheStableSort | src/components/CinemaList.js:30-69 | the sort is a sorted, stable permutation, and it is the only one |
| Export.IntText | src/components/CinemaList.js:87 | the id's text is `String(showId)`: the canonical decimal digits, with a minus sign for a negative id; it reads back as the id and holds neither comma nor line feed |
| Export.ExportCsv | src/components/CinemaList.js:80-96 | nothing is produced exactly when the list is empty |
| Export.RowRoundTrip | src/components/CinemaList.js:86-95 | a showing's line splits into its eight fields and decodes to its columns, given no comma or line feed in its text |
| Export.RowSingleLine | src/components/CinemaList.js:86-95 | a record's line holds no line feed when its text fields hold none, whatever commas they contain |
| Export.ExportSplitsIntoLines | src/components/CinemaList.js:83-96 | when no text field holds a line feed, the file is the header line followed by one line per record in stored order; commas in the fields do not matter |
| Export.ExportRoundTrip | src/components/CinemaList.js:83-96 | for records with no comma or line feed in their text, the file also reads back to every record's columns in stored order |
| Export.HeaderText | src/components/CinemaList.js:83-85 | the header line splits into the eight titles `Schedule ID`, `Movie Title`, `Theater`, `Show Date`, `Show Time`, `Subtitles`, `IMAX`, `Notes` in that order; since splitting is undone by joining, that fixes the line |
| Export.DuneRow | src/components/CinemaList.js:86-95 | the Dune record (id 1, Theater 1, 01/07/2024, 18:00, subtitles, not IMAX, no notes) exports as the comma join of `1`, `Dune`, `Theater 1`, `01/07/2024`, `18:00`, `Y`, `N` and an empty notes field, and reads back to its columns |
| Export.CommaInTitleShiftsColumns | src/components/CinemaList.js:86-95 | a comma in a title gives the line more than eight fields, so it no longer reads back |
| ListView.MountAfterSave | src/components/CinemaList.js:9-15 | a list opened after a save shows the earlier records, then the new one last |
| ListView.ClickHeader | src/components/CinemaList.js:159-189 | the four clickable headers toggle the sort, other columns do nothing, and records and page are untouched |
| ListView.CurrentRuns | src/components/CinemaList.js:25-69 | the drawn rows are the current page's records: unchanged with no sort column, otherwise their sorted, stable permutation |
| ListView.CurrentRunsUnique | src/components/CinemaList.js:30-69 | the drawn rows are the only sorted, stable arrangement of the page |
| ListView.PageComparable | src/components/CinemaList.js:28-33 | every record on a page of a sortable list is sortable |
| ListView.SaveKeepsDatesSortable | src/components/CinemaList.js:41-53 | saves only store dates that parse, so a list built by saves can always be sorted by date |
| ListView.Press | src/components/CinemaList.js:245-278 | a page control changes only the page, a disabled or hidden control changes nothing, and an enabled numbered button shows its own page |
| ListView.PressKeepsPageInBounds | src/components/CinemaList.js:245-278 | the page controls never leave the existing pages; Next adds one, Previous subtracts one and a numbered button goes to its own page |
| ListView.VisiblePageFilled | src/components/CinemaList.js:25-28 | on a reachable page a non-empty list shows one to ten rows |
| ListView.ExportList | src/components/CinemaList.js:80-96 | export gives nothing for an empty list; otherwise the first line is the header; when no text field holds a line feed, the lines are exactly the header and one row per stored record, in stored order; when no text field also holds a comma, it decodes back to the stored records |
| ListView.ClearAll | src/components/CinemaList.js:107-113 | a confirmed clear empties the list, removes the store key and shows page 1; an unconfirmed one changes nothing |
| ListView.ClearAllSettles | src/components/CinemaList.js:107-113 | clearing twice equals clearing once, and a cleared list has no pages, no export, no records to reload and no live page controls |
| ListView.PressClearAll | src/components/CinemaList.js:107-137 | the Clear All button does nothing while the list is empty or when the dialog is declined; a confirmed press empties the list, removes the store key, shows page 1 and disables the button |
| ListView.ClearButtonSettles | src/components/CinemaList.js:133-137 | after a confirmed clear, pressing Clear All again changes nothing |
| ListView.SortByIdExample | src/components/CinemaList.js:17-38 | ids 3, 1, 2 show as 1, 2, 3 after one click on Schedule ID and as 3, 2, 1 after a second |

## Left out

- JavaScript `Date` parsing leniency, meaning rollover of out-of-range days and the non-ISO fallback formats. The model reads day, month and year as digit strings forming a valid Gregorian date, with years 1 to 9999.
- Time zones. `new Date("yyyy-mm-dd")` is UTC while `getDay` and `setDate` use local time, so west of UTC the source can see the day before. The model takes local time to be UTC.
- Year 0 and years after 9999 in the show date and the picker. The picker's text for such a year would not parse as a show date, so the picker writes nothing for it.
- Validation.ShowDateError: an end date in the `+yyyyyy-mm-dd` form (a year after 9999) is read, but other text the JavaScript `Date` would accept as an end date is treated as unreadable. An unreadable end date never triggers the "after End Date" error, as with `NaN` in the source.
- Validation.PriceError: prices are read by a decimal grammar: an optional sign, digits, and at most one point. Whitespace, exponents and `Infinity`, which `isNaN` and `parseFloat` also accept, are not modelled.
- The discount and senior prices (`toFixed` on floating-point products) and the `dd-MMM-yy` display date. Both are computed by the save and never stored.
- Malformed JSON in the store, storage quota errors, and the CSV download (Blob, object URL, link click). The store is read and written as a list value.
- ListView.CurrentRuns: sorting by show date requires every date on the page to parse. For a date that does not parse, the source's comparator returns `NaN`, and the resulting order is implementation-defined. ListView.SaveKeepsDatesSortable shows that saves never store such a date.
- String order compares characters one by one, as JavaScript `<` compares UTF-16 code units; surrogate pairs are not modelled.
- Text.ToLower: lower-casing covers ASCII letters only; other Unicode case mappings are not modelled.
- `show.showTime || ''` and `show.notes || ''` in the export. Stored fields are always strings in this model, so these are the identity.
- The text of the error messages. Each `FieldError` constructor stands for one of the form's messages.
- The movie and theater dropdowns, the movie option sort, error clearing on input, `resetForm`, the `submitted` flag, sort icons and all rendering.
- Login, Dashboard, TabsComponent and App are not part of this model.

## Findings

| source | as written | input that shows it | evidently intended | confidence | as-written member | corrected member |
|---|---|---|---|---|---|---|
| src/components/FormSection.js:119-134 | `validateForm` decides acceptance from `errorBanner` as captured when the form last rendered. `setErrorBanner('')` at line 133 and `setErrorBanner(...)` at line 120 only take effect at the next render. So a duplicate is accepted whenever no banner was showing, and a leftover banner refuses the next valid save. | Dune, Theater 1, 01/07/2024, 18:00, price 10.00, already stored once and submitted again with no banner showing: the wired save stores it a second time | refuse a save exactly when a field fails or the key is already stored | high; not executed | Saving.StaleBannerAdmitsDuplicate | Saving.SaveKeepsKeysUnique |
