# Attendance tracker core, modelled in Dafny

The tracker keeps, for each semester, an ordered list of subjects (id, name, code) and a sparse
attendance ledger: date key (`YYYY-MM-DD`) → subject id → `{attended, note}`. One set of holiday
dates is shared by every semester. The project models:

- the term store: `initSemester`, `addSubject`, `deleteSubject`, `toggleAttendance`,
  `getAttendance`, `saveNote` and the start-up repair in `loadData`. The application state
  `appData` is the class `App.AppData`. Each method states its new state in terms of the old one:
  the attendance updates through the pure ledger functions of module `Ledger`, the creation of a
  missing semester through `App.WithSemester`, the holiday flip through `Holidays.Toggle`, and
  `addSubject`'s append directly;
- the holiday registry (`isHoliday`, `toggleHoliday`): a set of date keys, flipped by membership
  (module `Holidays`);
- the statistics engine (module `Stats`):
  - lab detection and subject weights (2 for a name containing "LAB" in any case, 1 otherwise);
  - subject, overall and period statistics as loops proved against tally functions;
  - the rounded percentage and the status thresholds;
- the click policy (module `Interaction`):
  - the triple-click detector over `lastClickTime`, `clickCount` and `lastClickedCell`, as a
    class whose pure specification is `Step`/`Click`;
  - the weekly cell click and the monthly click;
  - the right click that opens the note editor or, with shift, flips a holiday;
- the calendar helpers (module `Calendar`):
  - dates are day ordinals;
  - the civil date of an ordinal is computed explicitly;
  - the date key (`formatDate`) and its parse back (`parseDate`);
  - the Monday-based week and the 42-cell month grid.

Dates are day ordinals of the proleptic Gregorian calendar. Day 0 is 0001-01-01, a Monday, and
`getDay()` is `(d + 1) % 7`. The caller passes in every timestamp and fresh subject id.

## Model

| member | source | states |
|---|---|---|
| Calendar.FromDay | script.js:59-64 | the civil date (getFullYear, getMonth()+1, getDate) of an ordinal is a valid date whose ordinal is that day |
| Calendar.CivilRoundTrip | script.js:104-106 | building a date from year, month and day and reading it back gives the same year, month and day |
| Calendar.KnownWeekdays | script.js:71-73 | the ordinal weekday agrees with JavaScript: 1970-01-01 is a Thursday and 2026-01-26 a Monday |
| Calendar.WeekStart | script.js:71-76 | getWeekStart is a Monday on or before the date and at most 6 days before it; a Sunday goes back 6 days and any other day back getDay()-1 days |
| Calendar.WeekStartUnique | script.js:71-76 | that Monday is the only Monday among the 7 days ending at the date |
| Calendar.WeekDates | script.js:78-86 | getWeekDates returns exactly 7 consecutive days starting at the week start |
| Calendar.MonthStart | script.js:104-106 | getMonthStart is day 1 of the date's month and year, and lies date.getDate()-1 days before the date |
| Calendar.BackToMonday | script.js:113-116 | stepping back from the 1st by 6 on a Sunday and by getDay()-1 otherwise lands on a Monday at most 6 days earlier |
| Calendar.GridStart | script.js:108-116 | the first grid cell is a Monday on or before the first of the month, at most 6 days earlier |
| Calendar.MonthDates | script.js:108-127 | getMonthDates returns exactly 42 consecutive days starting at that Monday |
| Calendar.GridStartIsWeekStart | script.js:108-116 | the grid starts at the week start (getWeekStart) of the first of the month |
| Calendar.MonthRange | script.js:59-64 | a day has year y and month m exactly when it lies in that month's ordinal range |
| Calendar.GridMonthFlags | script.js:622 | the month-number-only "current month" flag of a grid cell holds exactly for the days of the displayed month, with no same-numbered month of another year in the grid |
| Calendar.GridCoversMonth | script.js:108-127 | every day of the displayed month has a cell among the 42 |
| Calendar.Decimal | script.js:61-62 | String(n) is a non-empty run of digits, one digit long below 10 and two digits for 10..99 |
| Calendar.FormatDate | script.js:59-64 | for a four-digit year the key is 10 characters long with '-' at positions 4 and 7 |
| Calendar.DecimalRoundTrip | script.js:66-69 | reading String(n)'s digits back gives n |
| Calendar.PaddedRoundTrip | script.js:61-62 | padStart(2, '0') of a month or day gives two digits that read back as the number |
| Calendar.SplitAfter | script.js:67 | split('-') of a '-'-free field, a '-', then a rest gives the field followed by the rest's parts |
| Calendar.SplitThree | script.js:67 | split('-') of three '-'-free fields joined by '-' gives those three fields |
| Calendar.KeyRoundTrip | script.js:66-69 | parseDate's reading of formatDate(c) gives back c's year, month and day for every valid date |
| Calendar.DateKeyInjective | script.js:59-64 | distinct days have distinct date keys |
| Calendar.JsWeekday | script.js:73 | getDay() of an ordinal; Calendar.KnownWeekdays ties it to two known JavaScript weekdays, and WeekStart and BackToMonday state what the week helpers compute from it |
| Calendar.ParseKey | script.js:66-69 | parseDate's reading of the three '-'-separated fields; Calendar.KeyRoundTrip states that it undoes formatDate |
| Calendar.LexAppend | script.js:63 | string comparison of two concatenations whose first parts have equal length decides on the first parts, and on the rest only on a tie |
| Calendar.DigitsLex | script.js:61-63 | equal-length runs of digits compare as strings exactly as their values compare |
| Calendar.KeyOrder | script.js:59-64 | for four-digit years, one date key is less than another as a string exactly when its date comes first by year, then month, then day |
| Calendar.CivilLessDay | script.js:59-64 | a date that comes first by year, month and day has the smaller ordinal |
| Calendar.YearOfDay | script.js:59-64 | every day from the first of January of year lo up to, not including, that of year hi has getFullYear in lo..hi-1 |
| Calendar.KeysSortable | script.js:59-64 | for days from 1000-01-01 to 9999-12-31, a comes before b exactly when a's key is less than b's as a string |
| Ledger.Toggle | script.js:231-251 | an entry (created as absent with an empty note if missing) gets attended negated; becoming present empties the note, becoming absent keeps it; every other (date, subject) entry and date record is unchanged |
| Ledger.SetNote | script.js:268-281 | the (possibly new) entry keeps its attended value and gets the note verbatim, even when present; every other entry is unchanged |
| Ledger.RemoveSubject | script.js:184-186 | no date keeps an entry for the deleted subject, other subjects' entries are unchanged and every date key stays |
| Ledger.ClearEntry | script.js:740-748 | the cell's entry is gone, every other entry is unchanged, and the date record is dropped exactly when that entry was its only one |
| Ledger.ToggleKeepsNoEmptyDays | script.js:231-251 | toggling never leaves an empty date record |
| Ledger.SetNoteKeepsNoEmptyDays | script.js:268-281 | saving a note never leaves an empty date record |
| Ledger.ClearKeepsNoEmptyDays | script.js:740-748 | the clear prunes the record it empties, so it leaves no empty date record |
| Ledger.RemoveSubjectKeepsEmptyDays | script.js:184-186 | deleting a subject can leave an empty date record behind |
| Ledger.ToggleTwice | script.js:231-251 | two toggles restore attended and leave an empty note |
| Ledger.ToggleThenClear | script.js:740-748 | a toggle then a clear of the same cell leaves that cell untracked and every other cell as before |
| Ledger.TrimStart | script.js:162-166 | trimStart removes exactly the leading whitespace |
| Ledger.TrimEnd | script.js:162-166 | trimEnd removes exactly the trailing whitespace |
| Ledger.TrimEmpty | script.js:162 | a name trims to nothing exactly when every character is whitespace |
| Ledger.TrimSlice | script.js:165-166 | trim gives a slice of the input with no whitespace at either end |
| Ledger.WithoutId | script.js:181 | the filter keeps exactly the subjects whose id differs, and changes nothing when no subject has that id |
| Ledger.WithoutIdSingle | script.js:181 | one subject is kept exactly when its id differs |
| Ledger.WithoutIdAppend | script.js:181 | filtering a concatenation concatenates the filtered parts, so together with WithoutIdSingle the kept subjects stay in their order and with their multiplicity |
| Ledger.Lookup | script.js:257-266 | getAttendance: the entry when the date has a record holding the subject, otherwise none; Ledger.Toggle, SetNote, RemoveSubject and ClearEntry state their effects through it |
| Holidays.Toggle | script.js:142-150 | the date flips between holiday and not, and every other date keeps its status |
| Holidays.ToggleTwice | script.js:142-150 | two toggles of one date restore the registry |
| Holidays.ToggleCommutes | script.js:142-150 | toggles of two dates commute |
| App.WithSemester | script.js:19-26 | semester n exists afterwards, created empty when missing, and every other semester is unchanged |
| App.AppData.Load | script.js:32-49 | with no usable snapshot the state is semester 1 with one empty semester and no holidays; otherwise the snapshot, with missing holidays defaulted to none and the current semester created if missing |
| App.AppData.InitSemester | script.js:19-26 | the semesters become WithSemester of the old ones, and nothing else changes |
| App.AppData.ChangeSemester | script.js:917-919 | the current semester becomes n and exists, and the holidays are unchanged |
| App.AppData.AddSubject | script.js:161-172 | a name that trims to nothing changes nothing; otherwise exactly the trimmed subject with the given id is appended to the current semester's list |
| App.AppData.DeleteSubject | script.js:177-186 | the current semester's list loses every subject with that id, and its ledger becomes RemoveSubject; other semesters and the holidays are unchanged |
| App.AppData.ToggleAttendance | script.js:231-251 | the current semester's ledger becomes Ledger.Toggle of the old one, and nothing else changes |
| App.AppData.SaveNote | script.js:268-281 | the current semester's ledger becomes Ledger.SetNote of the old one, and nothing else changes |
| App.AppData.ClearAttendance | script.js:740-748 | the current semester's ledger becomes Ledger.ClearEntry of the old one, and nothing else changes |
| App.AppData.SemesterData | script.js:156-159 | getCurrentSemesterData on a valid state, where the current semester exists so initSemester changes nothing; every App.AppData method states its new state through it |
| App.AppData.ToggleHoliday | script.js:142-150 | the holidays become Holidays.Toggle of the old ones, and the semesters are unchanged |
| Stats.StatusClass | script.js:383-387 | good exactly when the percentage is at least 85, warning exactly when it is 75..84, critical exactly below 75 |
| Stats.StatusMonotone | script.js:383-387 | a higher percentage never gets a worse status |
| Stats.StatusThresholds | script.js:383-387 | 85 is good, 84 and 75 are warning, and 74 is critical |
| Stats.UpperAsciiAt | script.js:294 | toUpperCase keeps the length and upper-cases each character on its own |
| Stats.IncludesIff | script.js:294 | includes finds the pattern exactly when it occurs at some position |
| Stats.LabAtUpper | script.js:294 | "LAB" occurs at a position of the upper-cased name exactly when "lab" in any case occurs there in the name |
| Stats.LabAnyCase | script.js:294 | the upper-cased name includes "LAB" exactly when the name contains "lab" in any mix of cases |
| Stats.FindSubjectSpec | script.js:293 | find fails exactly when no subject has the id, and otherwise returns the first subject that does |
| Stats.IsLabSubject | script.js:291-295 | isLabSubject: the first subject with the id exists and its upper-cased name includes "LAB"; Stats.WeightRule and Stats.LabAnyCase state what that means for the name |
| Stats.SubjectWeight | script.js:298-300 | getSubjectWeight; Stats.WeightRule states that it is 2 exactly for a lab and 1 otherwise, including for an unknown id |
| Stats.WeightRule | script.js:291-300 | the weight is 1 or 2; it is 2 exactly when the first subject with the id has "lab" in its name in any case, and 1 for an unknown id |
| Stats.Percentage | script.js:322 | the percentage is 0 when the total is 0, and lies in 0..100 when 0 <= attended <= total |
| Stats.PercentageRange | script.js:322 | the rounded value (200a + t) / (2t) lies in 0..100 when 0 <= a <= t |
| Stats.PercentageRounds | script.js:322 | the percentage p is 100a/t rounded half up: 200a + t lies in [2tp, 2tp + 2t) |
| Stats.WeightedIsProduct | script.js:313-318 | n counted entries of a subject add n times its weight |
| Stats.SubjectTallySane | script.js:302-330 | a subject's tally has 0 <= attended <= total |
| Stats.CountStep | script.js:308-320 | one more date adds itself to the counted dates exactly when it is counted, and to the attended dates exactly when it is also marked present |
| Stats.CountedStep | script.js:308-320 | one more date adds the weight to total when it is counted, and to attended when it is also marked present |
| Stats.TallyStep | script.js:308-320 | one more date adds exactly that date's weighted contribution (nothing on a skipped holiday) |
| Stats.CountDate | script.js:308-320 | one date's pass adds nothing on a skipped holiday; otherwise it adds the weight to total when the subject has an entry, and to attended when that entry is present |
| Stats.SubjectStats | script.js:302-330 | the result is the subject's weighted tally over every date of the ledger: attended and total, missed = total - attended, and the rounded percentage |
| Stats.SubjectStatsConsistent | script.js:322-329 | subject statistics have missed = total - attended, 0 <= attended <= total, and a percentage in 0..100 that is 0 when total is 0 |
| Stats.HolidayExcluded | script.js:309-312 | marking a recorded date as a holiday takes the subject's weight off its holiday-excluding total, and leaves the holiday-including statistics unchanged |
| Stats.SubjectsTallySane | script.js:332-352 | the summed tally of the subjects has 0 <= attended <= total |
| Stats.OverallStats | script.js:332-352 | attended and total are the sums over the subjects of their holiday-excluding statistics; the percentage is computed from those sums rather than averaged; subjectCount is the length of the list |
| Stats.OverallStatsConsistent | script.js:344-351 | overall statistics are consistent in the same sense |
| Stats.DayTallySane | script.js:361-370 | what a date contributes has 0 <= attended <= total |
| Stats.PeriodTallySane | script.js:354-381 | a period tally has 0 <= attended <= total |
| Stats.PeriodTallyNext | script.js:358-371 | the next date adds nothing on a holiday, and otherwise what its recorded subjects contribute |
| Stats.CountDay | script.js:358-371 | a holiday adds nothing; otherwise every subject with an entry adds its weight to attended or to missed, by whether it is marked present |
| Stats.PeriodStats | script.js:354-381 | the result is the period tally of the given days' keys: holidays skipped, total = attended + missed, and the rounded percentage |
| Stats.PeriodStatsConsistent | script.js:373-380 | period statistics are consistent in the same sense |
| Stats.SubjectsTallyInsert | script.js:354-381 | adding a date to the counted set adds, summed over the subjects, exactly that date's period contribution |
| Stats.EmptyTally | script.js:332-352 | over no dates every subject's tally is zero |
| Stats.PeriodPrefixMatches | script.js:354-381 | the period tally of the first n distinct dates equals the sum of the subjects' holiday-excluding tallies over those dates |
| Stats.PeriodMatchesSubjects | script.js:354-381 | over distinct dates, period statistics and the summed subject statistics count the same |
| Stats.PeriodOfDaysMatchesSubjects | script.js:354-381 | the same holds for a period given as distinct days, such as a week or a month grid |
| Stats.TwoSessionsCounted | script.js:308-320 | in the one-subject example both dates are counted and exactly one is attended |
| Stats.TwoSessionsWeight | script.js:291-300 | the example subject weighs 2 exactly when its name has "lab" in any case |
| Stats.TwoSessionsStats | script.js:302-330 | one present and one absent session give attended 2, total 4 and 50% for a lab, and 1, 2 and 50% otherwise |
| Stats.LabNames | script.js:291-295 | "Physics LAB" is a lab and "Physics" is not |
| Interaction.CellIdInjective | script.js:724-725 | for ids without '-', the cell identifier names exactly one subject and date |
| Interaction.Step | script.js:726-766 | a click on the armed cell less than 500 ms after the last counts up, and any other click sets the count to 1; reaching 3 clears, sets the count to 0 and disarms without moving the click time; otherwise it toggles and records the time and the cell |
| Interaction.StepKeepsValid | script.js:726-766 | between clicks the count is 0 with no cell armed, or 1 or 2 with one armed |
| Interaction.ClearOnlyOnThird | script.js:726-731 | on a valid detector a clear happens exactly on the third quick click on the same cell |
| Interaction.Apply | script.js:731-770 | a toggle on a holiday changes nothing and on a working day makes the ledger Ledger.Toggle of the cell; a clear on a holiday removes the holiday mark only and on a working day makes the ledger Ledger.ClearEntry of the cell (deleting the entry and pruning an emptied date); a click on a working day never changes the holidays |
| Interaction.Click | script.js:718-771 | handleCellClick as a function: the detector steps by Interaction.Step and the data changes by Interaction.Apply of the gesture; TripleClickClears, DoubleClickRestores and SlowThirdClickRestarts state its effect over click sequences |
| Interaction.TripleClickClears | script.js:718-771 | three quick clicks on a cell leave the detector disarmed; on a working day the cell ends untracked with every other cell as before, and on a holiday only the holiday mark goes |
| Interaction.DoubleClickRestores | script.js:718-771 | two quick clicks on a working day restore attended, leave an empty note and leave the count at 2 |
| Interaction.SlowThirdClickRestarts | script.js:726-766 | a third click 500 ms or more after the second toggles and restarts the count at 1 |
| Interaction.ClickTimings | script.js:718-771 | clicks at 0, 100 and 300 ms disarm the detector and leave the cell untracked on a working day (or un-mark the holiday); with the third click at 600 ms the count restarts at 1 and that click toggles the cell again |
| Interaction.ClickTracker.constructor | script.js:14-16 | the detector starts at time 0, with count 0 and no cell |
| Interaction.ClickTracker.HandleCellClick | script.js:718-771 | the detector and the current semester's ledger and holidays become what Click computes, and the detector stays valid |
| Interaction.NoteTarget | script.js:773-797 | the note editor opens exactly on a working day, for a recorded absence of an existing subject, with that absence's note |
| Interaction.NoteEditRoundTrip | script.js:830-836 | saving a note through the editor keeps the absence and the editor then shows the saved note |
| Interaction.HandleCellRightClick | script.js:773-798 | with shift it flips the holiday mark and opens nothing; otherwise it changes nothing and returns NoteTarget's context |
| Interaction.HandleMonthlyClick | script.js:800-807 | the ledger becomes the toggle of the cell unless the date is a holiday, and the holidays are unchanged |

## Left out

- Rendering and HTML string building (`renderSubjects`, `renderDashboard`, `renderWeeklyView`, `renderWeekSummary`, `renderMonthlyView`, `renderMonthSummary`, `showView`, the modal DOM in `openNoteModal`/`closeNoteModal`): presentation only.
- `localStorage` and JSON in `loadData`/`saveData`: I/O. `App.AppData.Load` takes the parsed snapshot as a parameter. A missing or unparsable snapshot is `None`. Saving after each mutation is not modelled.
- The `confirm()` prompt of `deleteSubject`: deletion is modelled as already confirmed. A refusal changes nothing.
- `Date.now()`: click timestamps and fresh subject ids are parameters.
- `toLocaleDateString` formatting (`formatWeekRange`, `formatMonthYear`, `getDayName`): locale library calls.
- The JavaScript `Date` object: dates are day ordinals, so `setDate` overflow normalisation is not reproduced. Time zones are not modelled.
- Years before 100 are not modelled faithfully. `parseDate` calls `new Date(year, month - 1, day)` (script.js:68), and that constructor reads years 0..99 as 1900..1999. `formatDate` writes year 50 as "50", so for a key like "50-03-04" the source's `isHoliday` and `toggleAttendance` (script.js:138, 233) use the key "1950-03-04", while the model uses "50-03-04". Years before 1 are not modelled at all.
- Store operations take date keys: in the source every key is `formatDate` of a date or a rendered key. `Calendar.KeyRoundTrip` shows that a canonical key reads back as its date. `isHoliday(parseDate(k))` is modelled as membership of `k`. This matches the source for years 100 and later.
- Stats.Percentage: `Math.round((a / t) * 100)` is computed in exact integers with halves rounded up. Floating-point rounding of a value that is only nearly a half could differ.
- Stats.UpperAscii: `toUpperCase` is modelled for the ASCII letters only. Other characters are kept, so a name whose non-ASCII letters upper-case to "LAB" is not a lab here.
- Week and month navigation (`goToPreviousWeek` and the rest): UI glue. `changeSemester`'s `parseInt` is left out too; `App.AppData.ChangeSemester` takes the number already parsed.
- `openNoteModal` dereferences a missing subject and throws. The model opens no editor in that case.
- `currentNoteContext` is not a state field. `Interaction.NoteEditRoundTrip` passes the editor's context to `saveNote` directly, and `closeNoteModal`'s reset is not modelled.
- Calendar.KeysSortable: keys sort as their dates only for four-digit years. `formatDate` does not pad the year, so "999-12-31" sorts after "1000-01-01" and "10000-01-01" sorts before "9999-12-31".
- Stats.CountDate and Stats.CountDay model the bodies of the `forEach` callbacks as methods of their own.
- Stats.SubjectStats, Stats.OverallStats and Stats.PeriodStats: their ensures tie the result to a tally function. The bounds (missed = total - attended, 0 <= attended <= total, percentage range) are proved in the matching `...Consistent` lemmas rather than repeated in each ensures.
- `App.AppData.GetAttendance` and `App.AppData.IsHoliday` are read-only accessors with no contract of their own. They read `Ledger.Lookup` and holiday membership.

Four behaviours of the code that a reader might not expect, all modelled as written:

- `deleteSubject` does not prune date records that it empties (script.js:184-186, `Ledger.RemoveSubjectKeepsEmptyDays`). Only the triple-click clear prunes (script.js:743-745).
- `toggleAttendance` creates an entry even for an id that names no subject (script.js:235-241); it is not a no-op.
- `saveNote` sets the note verbatim even on a present entry (script.js:280).
- The note editor also needs the subject to exist: `openNoteModal` reads `subject.id` of the `find` result (script.js:796-797, 810).
