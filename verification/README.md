# Mood tracker: a Dafny model of its core

The mood tracker is a small Flask application. It records one mood entry per calendar day, together with the medications taken that day. Three helper scripts come with it:

- a desktop reminder service that tells the user when today's entry (or a weekly weight) is missing;
- a script that shows and changes the beta code in `config.py`;
- a command-line log viewer.

This project models the decision logic of those four parts as pure Dafny functions and methods, and proves what they promise.

- `options.dfy` (`Options`): the optional value shared by all modules.
- `text.dfy` (`Text`): the Python string operations the code relies on:
  - `strip()`, using Python's whitespace set, and `strip(chars)`;
  - ASCII `lower()`, the `in` substring test and `startswith`;
  - `split` and `join` on one separator character;
  - `isdigit` with `int()`;
  - the code-point order that SQLite's default collation uses for `ORDER BY name`.
- `store.dfy` (`Store`): the entry and medication routes of `app.py`. The database is an immutable value. There are three tables:
  - mood entries, keyed by row id;
  - medications, keyed by row id;
  - a set of medication-taken links.

  Each route is a pure transition that returns an outcome (the flash category) and the new store. New rows get SQLite's default row id: one more than the largest id in the table, or 1 in an empty table. The store invariant holds the table constraints: unique dates, unique names, and links that resolve. It is proved to survive every sequence of requests.
- `reminder.dfy` (`Reminder`): `check_today_entry` of `notification_service.py`. It takes three inputs:
  - the outcome of loading the settings file, as a decoded JSON value;
  - the current instant in UTC seconds;
  - the stored entries, each reduced to its date and whether it carries a weight.

  It returns the toast to show, if any. Every exception the service catches, such as a settings document that is not an object or an unhashable timezone value, is "no toast". One caught exception is not modelled: the one the missing weight column causes (see "## Left out").
- `betacode.dfy` (`BetaCode`): `manage_beta_code.py`. The file system is a parameter: a file is its content, or `None` when it is missing. A rewrite returns the content that would be written.
- `logview.dfy` (`LogView`): `view_logs.py`. A log file is the sequence of its lines. The model covers:
  - counting lines per level;
  - the most recent lines;
  - the case-insensitive search and the user-activity filter;
  - today's lines;
  - how the menu parses what the user types.

## Model

| member | source | states |
|---|---|---|
| Text.StripBy | manage_beta_code.py:17 | the result has no droppable character at either end, is no longer than the input, and is empty exactly when every character is droppable |
| Text.StripByIsInfix | app.py:172 | the stripped text is a contiguous piece of the input, and only droppable characters were cut from its two ends |
| Text.StripByIdempotent | app.py:210 | stripping an already stripped name changes nothing |
| Text.ContainsIff | view_logs.py:91 | the substring test holds exactly when the needle occurs at some position of the line |
| Text.Lower | view_logs.py:91 | case folding keeps the length, maps each character on its own, and leaves no upper-case letter |
| Text.LowerIdempotent | view_logs.py:91 | lowering an already lowered text changes nothing |
| Text.Split | manage_beta_code.py:15 | splitting on a character gives at least one piece, and no piece contains the separator |
| Text.SplitHead | manage_beta_code.py:17 | the first piece is the text before the first separator; the rest is the split of what follows it |
| Text.JoinSplit | manage_beta_code.py:31-39 | joining the pieces of a split with the same separator rebuilds the original text exactly |
| Text.SplitJoin | manage_beta_code.py:31-39 | splitting a join of separator-free pieces gives back the pieces |
| Text.DecimalRoundTrip | view_logs.py:156 | `int(str(n)) == n` for every natural number |
| Text.LexLeTotal | app.py:42 | any two names are comparable in the name order |
| Text.LexLeAntisymmetric | app.py:42 | two names that are each ordered before the other are equal |
| Text.LexLeTransitive | app.py:42 | the name order is transitive |
| Store.NextId | app.py:14 | a new row id is fresh and larger than every existing id; it is 1 in an empty table |
| Store.TakenLinks | app.py:67-70 | a submitted entry gets exactly one taken link per selected id that names an existing medication, active or not |
| Store.SubmitEntry | app.py:45-73 | a second entry for a date is refused and nothing changes; otherwise exactly one entry is added under a fresh id, with its taken links, and nothing else changes |
| Store.EditEntry | app.py:82-104 | an unknown id is not found; moving to a date another entry holds is refused; otherwise only that entry's fields change, and the links stay |
| Store.DeleteEntry | app.py:106-112 | the entry and exactly the links pointing at it are removed; the medications stay |
| Store.FindByName | app.py:174 | finds a medication carrying the name, active or not (the lowest id; with unique names there is at most one), or reports that none has it |
| Store.AddMedication | app.py:170-189 | an empty stripped name is refused; an inactive namesake is reactivated; an active one is left alone; otherwise one active medication is added under a fresh id |
| Store.SetActive | app.py:191-205 | only the flag of the named medication changes |
| Store.DeactivateMedication | app.py:191-197 | the medication becomes inactive; its name, its links, the entries and every other medication are unchanged; an unknown id is not found |
| Store.ActivateMedication | app.py:199-205 | the medication becomes active again; its name, its links, the entries and every other medication are unchanged; an unknown id is not found |
| Store.EditMedication | app.py:207-221 | checks run in order: not found, then empty name, then a name held by another medication; a successful edit changes only that medication's name |
| Store.InsertByName | app.py:42 | inserting into a name-sorted, duplicate-free listing keeps it sorted and duplicate-free, and adds exactly the new id |
| Store.ActiveMedications | app.py:42 | the form's listing holds exactly the active medications, each once, in name order |
| Store.SortedListingStrict | app.py:15 | with unique names, the listing is strictly increasing by name |
| Store.SubmitEntryPreservesValid | app.py:50-54 | submitting keeps dates unique, names unique and links resolving |
| Store.EditEntryPreservesValid | app.py:89-94 | editing keeps the store invariant |
| Store.DeleteEntryPreservesValid | app.py:33 | the cascade delete leaves no dangling link |
| Store.AddMedicationPreservesValid | app.py:170-189 | adding or reactivating keeps the store invariant |
| Store.EditMedicationPreservesValid | app.py:214-217 | renaming keeps names unique |
| Store.Handle | app.py:45-220 | a refused request leaves the store as it was; entry routes never change the medications; medication routes never change the entries or the links |
| Store.Serve | app.py:45-220 | a run of medication requests leaves the entries and links as they were; a run of entry requests leaves the medications as they were |
| Store.HandlePreservesValid | app.py:13-33 | no single request breaks unique dates, unique names or the link foreign keys |
| Store.ServePreservesValid | app.py:13-33 | no sequence of requests breaks unique dates, unique names or the link foreign keys |
| Store.EditToOwnDateSucceeds | app.py:90 | keeping an entry's own date is never a conflict |
| Store.AddMedicationCases | app.py:173-188 | with unique names, the outcome is decided by the one medication carrying the stripped name |
| Store.AddMedicationTwice | app.py:175-181 | a second identical add request reports that the medication exists and changes nothing |
| Store.AddMedicationPreservesValidNames | app.py:15 | adding keeps names unique |
| Store.DuplicateDateScenario | app.py:45-104 | a second entry for a day is refused; after the first entry moves to the next day, a new entry for that day is accepted |
| Reminder.LoadSettings | notification_service.py:17-33 | a parsed file is used as it is; a missing or unreadable one gives exactly the default document |
| Reminder.DefaultSettingsValues | notification_service.py:20-25 | the default document is enabled, with time "15:00", timezone "EST" and duration 10 |
| Reminder.Truthy | notification_service.py:52 | the falsy settings values are exactly null, false, 0, the empty string, the empty list and the empty object |
| Reminder.HasEntryOn | notification_service.py:62 | today's entry exists exactly when today is among the stored dates |
| Reminder.TimezoneOffset | notification_service.py:35-43 | EST, CST, MST and PST map to -5, -6, -7 and -8; any other code maps to -5 |
| Reminder.OffsetOf | notification_service.py:57 | a string is looked up; a list or object raises; any other value falls back to Eastern |
| Reminder.Lookup | notification_service.py:52 | a present key gives its value, an absent key gives the default |
| Reminder.LocalDay | notification_service.py:58-59 | the local day is the floor of the shifted instant divided by a day |
| Reminder.LatestWeighed | notification_service.py:65 | finds the latest date among the weighted entries, or reports that there are none |
| Reminder.WeightNeeded | notification_service.py:64-71 | a weight is due exactly when every weighted entry is at least seven days old, which includes having none |
| Reminder.WeighedRows | notification_service.py:65 | keeps exactly the entries that carry a weight, every copy of each |
| Reminder.WeightNeededIgnoresUnweighed | notification_service.py:65 | entries without a weight never change the decision |
| Reminder.WeightCadence | notification_service.py:66-71 | seven days after the latest weight it is due; six days after, it is not; with no weight it is due |
| Reminder.Message | notification_service.py:73-81 | the four-way choice of text; the text is empty exactly when there is nothing to remind |
| Reminder.CheckTodayEntry | notification_service.py:45-97 | a toast needs an object settings document with a truthy `enabled` and a hashable `timezone` (a list or object raises TypeError, which is caught and gives no toast); it carries the fixed title, the configured duration and a non-empty message plus the fixed suffix |
| Reminder.CheckTodayEntryDecides | notification_service.py:59-91 | with enabled settings and a usable timezone, a toast appears exactly when today's entry is missing or a weight is due, and its body is the chosen message |
| Reminder.DefaultsApply | notification_service.py:20-25 | a missing or unreadable settings file behaves as enabled, Eastern time, ten-second toasts: a toast exactly when the entry is missing or a weight is due, carrying the chosen message |
| Reminder.EnabledFlag | notification_service.py:52-54 | a missing `enabled` counts as on; a falsy one means no toast |
| Reminder.CombinedReminderScenario | notification_service.py:74-91 | no entry today and a weight ten days old give the combined mood-and-weight toast |
| BetaCode.FirstBetaLine | manage_beta_code.py:15-16 | finds the first line whose stripped form starts with `BETA_CODE`, or reports that there is none |
| BetaCode.ExtractValue | manage_beta_code.py:17 | the value is the text between the first and second `=`, trimmed of whitespace, then of quotes; a line with no `=` raises |
| BetaCode.ShowCurrentBetaCode | manage_beta_code.py:10-22 | a missing file gives the default code; no matching line gives nothing; a matching line without `=` crashes; otherwise its value |
| BetaCode.Template | manage_beta_code.py:34 | the written line is `BETA_CODE = "<code>"  # Change this to your desired beta code` |
| BetaCode.TemplateIsBetaLine | manage_beta_code.py:33-34 | the line written for a new code is itself a `BETA_CODE` line |
| BetaCode.ReplaceFirstBetaLine | manage_beta_code.py:31-35 | only the first `BETA_CODE` line is replaced; the number of lines and every other line stay |
| BetaCode.ChangeBetaCode | manage_beta_code.py:24-45 | a missing file fails; otherwise, for a code without a newline (which is all `input()` returns), the written file's lines are the old lines with the first `BETA_CODE` line replaced |
| BetaCode.ChangeFromInput | manage_beta_code.py:59-64 | an empty stripped code is refused before any rewrite; otherwise the stripped code is written |
| BetaCode.ChangeWithoutBetaLineKeepsFile | manage_beta_code.py:31-39 | a file without a `BETA_CODE` line is written back unchanged |
| BetaCode.ChangeKeepsOtherLines | manage_beta_code.py:32-35 | the rewrite keeps every line that is not the first `BETA_CODE` line |
| BetaCode.TemplateValue | manage_beta_code.py:17 | reading the written line gives the code followed by its closing quote and the comment |
| BetaCode.ReadBackKeepsComment | manage_beta_code.py:17-34 | after a change, showing the code gives the new code with `"` and the comment attached, not the code itself |
| BetaCode.IntendedValue | manage_beta_code.py:17 | the corrected reading cuts the `#` comment off before trimming; a line with no `=` still raises |
| BetaCode.ShowIntendedBetaCode | manage_beta_code.py:10-22 | the same outcomes as showing the code; only the value reading differs |
| BetaCode.TemplateIntendedValue | manage_beta_code.py:34 | the corrected reading of the written line is exactly the code |
| BetaCode.ChangeThenShowIntended | manage_beta_code.py:24-39 | with the corrected reading, changing the code and showing it gives back the new code |
| LogView.Classify | view_logs.py:35-40 | a line counts under the first level, in the order INFO, WARNING, ERROR, DEBUG, whose ` - LEVEL - ` marker it contains; it counts under none exactly when it contains no marker |
| LogView.Tally | view_logs.py:35-40 | a counter equals the number of lines whose first matching level is that level, so it never exceeds the line count |
| LogView.TallyPartition | view_logs.py:36-40 | every line is counted once: under its level, or under none |
| LogView.LogStats | view_logs.py:29-45 | the line count and the four level counters; the counters never add up to more than the number of lines |
| LogView.RecentLines | view_logs.py:60 | a positive count gives the last `min(n, len)` lines; zero gives the whole file; a negative count drops the first `-n` lines |
| LogView.RecentLinesAreLast | view_logs.py:76 | with a positive count, at most `n` lines come out, and they are the file's last lines, in order |
| LogView.FilterAppend | view_logs.py:102-105 | filtering a concatenation is the concatenation of the filtered parts |
| LogView.FilterCounts | view_logs.py:116-119 | a filter keeps every copy of each line it accepts and no copy of the others |
| LogView.FilterIsSubsequence | view_logs.py:116-119 | a filter keeps file order |
| LogView.NumberedMatches | view_logs.py:89-92 | the scan reports each accepted line with its own 1-based number, in strictly increasing order, and the reported lines are the filtered file |
| LogView.SearchLogs | view_logs.py:81-92 | every hit contains the term, ignoring case, and carries its own line number; hits increase; every matching line is reported; the hit lines are the user-activity filter for the same text |
| LogView.MatchesIgnoringCase | view_logs.py:91 | a line matches exactly when some piece of it spells the term up to case |
| LogView.MatchesIgnoringCaseFolds | view_logs.py:91 | lowering the line or the term beforehand does not change whether they match |
| LogView.UserActivity | view_logs.py:94-105 | the lines mentioning the user name, ignoring case, with every copy kept and in file order |
| LogView.IsoDate | view_logs.py:113 | today's date text has ten characters, with dashes at positions 4 and 7 |
| LogView.IsoDateRoundTrip | view_logs.py:113 | the year, month and day read back from the date text are the ones it was written from |
| LogView.TodayLogs | view_logs.py:107-119 | the lines containing today's date text, matched exactly, with every copy kept and in file order |
| LogView.ParseLineCount | view_logs.py:155-156 | an answer that is all digits after stripping is the count; anything else gives the default |
| LogView.ParseLineCountRoundTrip | view_logs.py:159-160 | typing a number gives that number; an empty answer gives the default |
| LogView.RecentFromMenu | view_logs.py:154-157 | a non-numeric answer shows the last 50 lines (all of them when fewer); a typed count n of at least 1 shows the last min(n, line count) lines; typing 0 shows the whole file |
| LogView.ErrorsFromMenu | view_logs.py:158-161 | a non-numeric answer shows the last 20 error lines (all of them when fewer); a typed count n of at least 1 shows the last min(n, line count) error lines; typing 0 shows the whole file |
| LogView.AcceptTerm | view_logs.py:162-173 | a term or user name that is empty after stripping is refused; an accepted one is the stripped answer itself, with no whitespace at either end |

## Left out

- Flask, SQLAlchemy, templates, flash messages and redirects. A route is a pure transition, and its outcome stands for the flash category.
- `index`, `manage_entries`, `get_data` and `visualize` in `app.py`. They only read and render. `ActiveMedications` models the active medications in name order (app.py:42). The other orderings are not modelled: the entries newest first in `index` and `manage_entries` (app.py:40, app.py:77), and all medications, active or not, in name order in `manage_entries` (app.py:78).
- Form parsing in `app.py`: `strptime` on the date and `int()` on the levels. An entry's date is a day number and its levels are integers that are already parsed. A malformed form makes Flask answer with an error, and that is not modelled.
- The row id of a medication-taken link. No modelled route observes it, so links are a set of (entry, medication, taken) rows.
- User accounts, per-user scoping and a future-date check. The `MoodEntry` table has no user column (app.py:26-33), and `submit_entry` and `edit_entry` never compare the date with today. So dates are unique across the whole table, and any date is accepted.
- The weight column. `notification_service.py:65` reads `MoodEntry.weight`, but the `MoodEntry` in `app.py:26-33` has no such column. For the reminder, each stored entry is modelled as its date plus whether it carries a weight. The weight values themselves (floats) do not matter. Against `app.py` as it stands, reading `MoodEntry.weight` raises AttributeError, which the service catches (notification_service.py:96), so the service as written never shows a toast. The model describes the service with the column present.
- The reminder's scheduler loop, its start-up check, the `time` setting and the Windows variant `notification_service_windows.py`. The clock is the `utcSeconds` parameter. Showing the toast and printing are outside the model.
- JSON parsing and floating-point JSON numbers. The settings file arrives as an already decoded value, or as missing or malformed.
- `migrate_to_users.py`, `test_notification.py` and `config.py`. They are not part of this model; `config.py` matters only as the text the beta-code script edits.
- `clear_logs` and the interactive menu loops. They are file deletion and console I/O; the menu's parsing of answers is modelled.
- File sizes, the "file not found" messages, and `rstrip()` when printing a line. A line is the string as read, with its newline.
- Text.Lower: only ASCII letters are folded, whereas Python's `lower()` folds all of Unicode.
- Text.IsDigits: only ASCII digits are recognised. Python's `isdigit()` also accepts other digit characters: decimal digits of other scripts (`'３'`, `'٣'`), which `int()` reads as their value, and superscripts and other digit symbols (such as `①` and `⑴`), on which `int()` raises.
- LogView.ParseLineCount: three edges of the menu's `int(lines) if lines.isdigit() else ...` are not modelled. An answer of non-ASCII decimal digits (such as `３`) is a count for the program but gives the default in the model. An answer of superscripts or other digit symbols (such as `①`) makes `int()` raise an uncaught ValueError that ends `main`, whereas the model gives the default. An all-digit answer of more than 4300 digits makes `int()` raise an uncaught ValueError on CPython 3.11 and later, whereas the model returns the number.
- LogView.IsoDate: only four-digit years are modelled.
- LogView.SearchLogs: completeness is stated on the hit lines (every matching line is among them, and they are exactly the filtered file), not on the line numbers.

## Findings

| source | as written | input that shows it | evidently intended | confidence | as-written member | corrected member |
|---|---|---|---|---|---|---|
| manage_beta_code.py:17 | `line.split('=')[1].strip().strip('"\'')` keeps everything after the closing quote, including the trailing `# ...` comment, because the quote strip stops at the comment's last character | the line `BETA_CODE = "moodtracker2024"  # Change this to your desired beta code`, which is both the line in `config.py` and the line `change_beta_code` writes, is shown as `moodtracker2024"  # Change this to your desired beta code` | show the code itself, `moodtracker2024`: cut the comment off before trimming | high (not executed) | BetaCode.ReadBackKeepsComment | BetaCode.ChangeThenShowIntended |
