# Participation grading and transcript anonymizing, in Dafny

This project models two parts of a class-participation tool.

In the Flask server (`app.py`), it models:

- The time codec, which turns caption timestamps `H:M:S[.fff]` into seconds and turns seconds into `MM:SS`.
- The segmentation loop of `analyze_transcript`.
  - It reads a WebVTT-style transcript line by line; the line after each `-->` line names the speaker.
  - It keeps an append-only speaking order.
  - It keeps per-student stats: time, instances and the last start time.
  - It decides when a cue opens a new speaking instance.
- The write-back of those stats into the `weekly_data` table.
- The grade block of `grades_page`: capped instances, raw points, the capped bonus, penalties beyond free allowances, the manual adjustment, the clamp to [0, 100], and class averages.

In the browser-side anonymizer (`anonymizer/anonymizer.js`), it models:

- Telling a saved key file from a new roster.
- Building the name → pseudonym map (`Student-k`) from either file.
- Collecting the unresolved transcript speakers.
- Applying the instructor's reconciliation choices.
- Rewriting the transcript's speaker lines.
- Emitting the key file.
- `sanitizeForId`.

Modules:

- `Wrappers` holds `Option`.
- `Text` models Python's and JavaScript's `split`, `join`, `strip`/`trim` and digit strings.
- `OrderedMaps` models JavaScript's `Map`, which keeps keys in insertion order.
- `TimeCodec` models `parse_time_to_seconds` and `format_time`.
- `Segmentation` models the cue loop.
  - `AnalyzeTranscript` is a method with a loop.
  - It is proved equal to the fold `Analysis`.
  - The fold's properties are proved as lemmas.
- `WeeklyData` models the upsert. The table is a map keyed by (student, week).
- `Grades` models the grade page.
  - `TallyResults` and `AssignGrades` are its two loops.
  - `GradesPage` puts them together.
- `Anonymizer` models the anonymizer.
  - Its global state (`nameMap`, `rosterNames`, `isNewRoster`, `transcriptTextContent`) is the class `Session`.
  - Each `forEach`/`for` loop is a method proved equal to a function.
  - The promised properties are proved about those functions.
  - One of them is the round trip: the key file emitted for a new roster reads back as the same map.

Seconds, grades and settings are `real`. Strings are `seq<char>`.

## Model

| member | source | states |
|---|---|---|
| TimeCodec.ParseTimeToSeconds | app.py:62-67 | `parse_time_to_seconds`: the first three colon fields, read with `int`, `int` and `float` (a comma counting as the decimal point), give H*3600 + M*60 + S; a missing or unreadable field gives 0 |
| TimeCodec.ParseTimeOfFields | app.py:62-66 | `H:M:S` with digit fields H and M and a seconds field worth v reads as H*3600 + M*60 + v; fields after a third colon are ignored |
| TimeCodec.ParseSecondsDecimal | app.py:65 | a seconds field `whole` + (`.` or `,`) + `frac` is worth whole + frac/10^len, so a comma works as decimal point |
| TimeCodec.ParseTimeExample | app.py:62-66 | "01:02:03.500" and "01:02:03,500" both give 3723.5 |
| TimeCodec.TooFewFields | app.py:63-67 | with fewer than two colons (fewer than three fields) the result is 0 |
| TimeCodec.NonNumericHours | app.py:65-67 | a non-numeric hours field makes the result 0 whatever follows |
| TimeCodec.NonNumericMinutes | app.py:65-67 | digit hours followed by a non-numeric minutes field give 0 whatever follows |
| TimeCodec.NonNumericSeconds | app.py:65-67 | digit hours and minutes followed by a seconds field `float()` rejects (after the comma replacement) give 0 |
| TimeCodec.ParseTimeNonZero | app.py:63-67 | conversely, a non-zero result means three fields that all parse, and the result is H*3600 + M*60 + S of them |
| TimeCodec.ParseTimeMalformed | app.py:62-67 | "bad" and "xx:00:01" give 0 |
| TimeCodec.FormatTime | app.py:69-73 | `format_time`: None renders as "00:00"; otherwise the floored minutes and the half-even rounded remainder, each padded to two digits |
| TimeCodec.RoundHalfEven | app.py:72 | Python's `round`: within 1/2 of the argument, ties go to the even integer |
| TimeCodec.FormatTimeWholeSeconds | app.py:69-73 | whole seconds n >= 0 render as `MM:SS`: two digit fields, SS has two digits and is below 60, MM*60 + SS == n; MM has exactly two digits below 100 minutes and no leading zero beyond |
| TimeCodec.FormatTimeExamples | app.py:69-73 | None gives "00:00", 125 gives "02:05", 0 gives "00:00" |
| Segmentation.PseudonymMap | app.py:182 | every student's name resolves |
| Segmentation.PseudonymMapKeys | app.py:182 | the names that resolve are exactly the students' names |
| Segmentation.PseudonymMapLast | app.py:182 | a repeated name resolves to the id of the last student bearing it |
| Segmentation.InitialStats | app.py:183 | one entry per student id, all of them (0, 0, 0) |
| Segmentation.PseudonymsHaveStats | app.py:182-202 | every id a name resolves to has stats, so the `KeyError` path is never taken |
| Segmentation.CueLineExtracted | app.py:188-196 | every line that contains `-->`, has a next line, and whose next line contains `:` yields its cue |
| Segmentation.ExtractedCueLine | app.py:188-196 | every extracted cue comes from such a line |
| Segmentation.NoArrowNoCues | app.py:189 | a transcript without `-->` has no cues |
| Segmentation.CueSpeaker | app.py:195-197 | the speaker is the trimmed text before the first colon of the line after the cue line |
| Segmentation.CueTimes | app.py:191-193 | start and end are parsed from the trimmed text before the first `-->` and between the first and second |
| Segmentation.Reversed | app.py:212 | `s[::-1]`: same length, element i is element n-1-i |
| Segmentation.IndexFrom | app.py:212 | `list.index(x, from)`: the first position at or after `from` holding x, or none (the `ValueError`) |
| Segmentation.IsNewInstance | app.py:205-216 | the instance decision: the 0 sentinel, a gap over 45 s, no earlier occurrence of the label, or a roster label since the previous occurrence |
| Segmentation.NewInstanceRule | app.py:205-216 | the 0 sentinel and a gap over 45 s open an instance; otherwise one opens exactly when a roster label lies strictly between the previous occurrence and this one, or there is no previous occurrence |
| Segmentation.Step | app.py:196-219 | one cue: the label joins the speaking order; a roster label adds the unclamped duration, maybe an instance, and records the start |
| Segmentation.SegmentOrder | app.py:197-198 | each cue appends exactly its own label to the speaking order, on the roster or not |
| Segmentation.Segment | app.py:188-219 | the state after a sequence of cues, one step per cue in transcript order |
| Segmentation.SegmentKeys | app.py:183-202 | the set of students with stats never changes |
| Segmentation.SegmentStudent | app.py:192-219 | a student's time grows by exactly the attributed durations, unclamped; the instance count never decreases and rises by at most one per attributed cue; a student with no attributed cue keeps the initial stats |
| Segmentation.StepAttributed | app.py:208-219 | after an attributed cue, `last_speak_time` is its start; a cue seen while it is 0 always counts as new |
| Segmentation.StepOffRoster | app.py:198-200 | a label that is not a roster name changes no stats, only the speaking order |
| Segmentation.SegmentSnoc | app.py:188-219 | one more cue is one more step of the loop |
| Segmentation.ExampleGap | app.py:205-219 | A@1, A@10, A@100 gives A two instances |
| Segmentation.ExampleRosterInterruption | app.py:212-216 | A@1, B@5, A@10 gives A two instances |
| Segmentation.ExampleProfessorInterruption | app.py:212-216 | A@1, PROFESSOR@5, A@10 gives A one instance |
| Segmentation.ExampleStartAtZero | app.py:208-219 | A@0, A@10 counts two instances, because a start at 0 looks like "never spoke" |
| Segmentation.RecordCue | app.py:196-219 | handling one cue gives the state `Step` describes |
| Segmentation.Analysis | app.py:182-219 | the whole analysis: the cues of the transcript folded from the initial stats with the roster's name map |
| Segmentation.AnalyzeTranscript | app.py:182-219 | the loop over the transcript lines ends in `Analysis(students, lines)`, the fold of `Step` over the extracted cues |
| WeeklyData.Upsert | app.py:226-231 | the UPDATE replaces only the speaking columns of an existing row; the INSERT creates one without statuses |
| WeeklyData.SavedSpeaker | app.py:224-231 | a student who spoke has a row for the week with exactly their time and instances; an existing row keeps its statuses, a new one has none |
| WeeklyData.SaveAnalysis | app.py:223-231 | the week's table after the write-back: each student with time or instances gets an upserted row, all other rows stay |
| WeeklyData.SavedOthers | app.py:225 | every other row is unchanged and no other row is created |
| WeeklyData.SaveIdempotent | app.py:223-231 | writing the same analysis twice equals writing it once |
| WeeklyData.SaveForStep | app.py:225-231 | handling one more student is one update or insert, or nothing if the student is silent |
| WeeklyData.SaveStudentStats | app.py:223-231 | the loop, whatever order it visits the students in, gives the table `SaveAnalysis` describes |
| WeeklyData.UnmentionedNotWritten | app.py:183-225 | a roster student with no attributed cue leaves the table untouched |
| Grades.RowsOfSpec | app.py:271 | a row is among the student's rows iff it is recorded for that student |
| Grades.Tallied | app.py:270-279 | the first pass for a student: counts of absences, video-off weeks and async misses, instance and time sums, capped instances and raw points |
| Grades.UnclampedGrade | app.py:281-287 | base score plus the bonus capped at the spread, minus each penalty count times its penalty, plus the manual adjustment |
| Grades.FinalGrade | app.py:287 | the grade lies in [0, 100]; it is the unclamped grade when that is in range, else 0 or 100 |
| Grades.TallyResults | app.py:270-279 | one result per student, in roster order, with the counts and sums of their rows |
| Grades.AssignGrades | app.py:281-287 | each result gets its clamped grade and nothing else changes |
| Grades.GradesPage | app.py:268-298 | the results are `Graded` for each student in order; averages are `ClassAverages` of the results |
| Grades.CappedAtMostTotal | app.py:275-277 | the capped instance sum is at most the total and at most cap times the number of weeks |
| Grades.CapNotReached | app.py:277 | a cap no week exceeds leaves the total unchanged |
| Grades.SyncCountsBound | app.py:272-273 | absences plus video-off weeks are at most the student's rows |
| Grades.PenaltyAllowance | app.py:284-286 | a penalty count is 0 iff the count is within the allowance; past it, each extra occurrence adds one |
| Grades.BonusSaturates | app.py:282-283 | once raw points reach the spread, more participation does not change the grade |
| Grades.AbsenceNeverHelps | app.py:284 | with a non-negative penalty, one more absence never raises the grade |
| Grades.WorkedExample | app.py:275-287 | base 70, spread 20, 5 capped instances at 2, 600 s at 1/min, 2 absences with 1 free at 5 points each gives 85 |
| Grades.ClassAverages | app.py:289-298 | the per-student means of the counts, time (formatted), capped instances and grade; none for an empty roster |
| Grades.AveragesPresent | app.py:289-290 | averages exist iff there is at least one result |
| Grades.SumBounds | app.py:292-298 | a sum of n values in [lo, hi] lies in [n*lo, n*hi] |
| Grades.AverageGradeInRange | app.py:298 | the class's average grade lies in [0, 100] |
| OrderedMaps.Put | anonymizer/anonymizer.js:56 | `Map.set`: the key now maps to the value, nothing else changes; a new key goes last, a present one keeps its place |
| OrderedMaps.FromEntriesKeys | anonymizer/anonymizer.js:53-58 | a map built by `set` calls is valid, and its keys are in order of first insertion |
| OrderedMaps.KeysOfOccurs | anonymizer/anonymizer.js:53-58 | a key is present iff some `set` call used it |
| OrderedMaps.FromEntriesLast | anonymizer/anonymizer.js:53-58 | a key's value is the one from its last `set` |
| OrderedMaps.FromEntriesAbsent | anonymizer/anonymizer.js:53-58 | a key no `set` used is absent |
| Anonymizer.IsKeyFile | anonymizer/anonymizer.js:46-47 | the upload is a key file iff its first line, trimmed, contains a comma and starts with `Student-` |
| Anonymizer.NonBlankSpec | anonymizer/anonymizer.js:52-66 | the filter keeps exactly the lines that are not blank after trimming |
| Anonymizer.KeyEntry | anonymizer/anonymizer.js:54-57 | one key-file line: the first two comma fields, when both are non-empty, give trimmed name → trimmed pseudonym |
| Anonymizer.KeyEntryFields | anonymizer/anonymizer.js:54-56 | a line `p,n[,...]` with non-empty p and n gives trimmed n → trimmed p |
| Anonymizer.KeyEntrySkipped | anonymizer/anonymizer.js:54-55 | a line without a comma, with an empty pseudonym, or with an empty name (`p,` as well as `p,,rest`) adds nothing |
| Anonymizer.KeyFileMap | anonymizer/anonymizer.js:52-58 | the loaded map: one `set` per non-blank line, in file order |
| Anonymizer.KeyFileLast | anonymizer/anonymizer.js:52-58 | the last line for a name decides its pseudonym |
| Anonymizer.KeyFileAbsent | anonymizer/anonymizer.js:52-58 | a name that no accepted line carries is absent |
| Anonymizer.PseudonymInjective | anonymizer/anonymizer.js:73 | `Student-a` == `Student-b` only if a == b |
| Anonymizer.RosterMap | anonymizer/anonymizer.js:66-76 | the generated map: after the optional header shift, the k-th non-blank line's trimmed first field, if non-empty, is set to `Student-k` |
| Anonymizer.RosterLast | anonymizer/anonymizer.js:66-76 | the k-th kept roster line (1-based) with a non-empty name maps it to `Student-k` unless a later line repeats the name; blank names still use up their k |
| Anonymizer.RosterValue | anonymizer/anonymizer.js:70-75 | every stored roster name is non-empty, is the trimmed first field of some kept line i, and maps to `Student-(i+1)` |
| Anonymizer.RosterPseudonymsDistinct | anonymizer/anonymizer.js:70-75 | distinct roster names have distinct pseudonyms |
| Anonymizer.Speakers | anonymizer/anonymizer.js:81-87 | the `Set` of trimmed pre-colon labels of the lines with `:` and without `-->`, in order of first appearance |
| Anonymizer.SpeakersSpec | anonymizer/anonymizer.js:81-87 | the speaker set is duplicate-free and holds exactly the trimmed pre-colon text of lines with `:` and without `-->` |
| Anonymizer.Unresolved | anonymizer/anonymizer.js:89 | the speakers the map does not know, other than PROFESSOR, in order |
| Anonymizer.UnresolvedSpec | anonymizer/anonymizer.js:89 | a name is unresolved iff it is a speaker, has no entry, and is not PROFESSOR; the list has no duplicates |
| Anonymizer.UnresolvedNames | anonymizer/anonymizer.js:81-89 | the same, over a whole transcript |
| Anonymizer.Reconciled | anonymizer/anonymizer.js:109-118 | one choice: a roster name copies its non-empty pseudonym, PROFESSOR adds "PROFESSOR", IGNORE or a known name changes nothing |
| Anonymizer.Reconcile | anonymizer/anonymizer.js:107-119 | the choices applied one after another, in form order |
| Anonymizer.ReconciledChoice | anonymizer/anonymizer.js:109-118 | for a name with no entry: PROFESSOR maps it to "PROFESSOR"; IGNORE adds nothing; a roster name copies that name's pseudonym if it has one, else adds nothing |
| Anonymizer.ReconcileKeeps | anonymizer/anonymizer.js:111-118 | reconciliation never overwrites an existing entry |
| Anonymizer.ReconcileAdds | anonymizer/anonymizer.js:107-119 | every added name is the unresolved name of some choice |
| Anonymizer.ReconcilePseudonyms | anonymizer/anonymizer.js:112-117 | every value after reconciliation is "PROFESSOR" or an existing pseudonym |
| Anonymizer.ReconcileKeys | anonymizer/anonymizer.js:107-119 | reconciliation only appends keys, and the map stays valid |
| Anonymizer.PseudonymShape | anonymizer/anonymizer.js:73 | `Student-k` has no newline, colon or comma, starts with `Student-`, and is trimmed |
| Anonymizer.RosterNoNewlines | anonymizer/anonymizer.js:66-76 | no generated name or pseudonym contains a line break |
| Anonymizer.KeyFileNoNewlines | anonymizer/anonymizer.js:52-58 | no loaded name or pseudonym contains a line break |
| Anonymizer.ReconcileNoNewlines | anonymizer/anonymizer.js:107-119 | reconciliation keeps pseudonyms free of line breaks |
| Anonymizer.RewriteLine | anonymizer/anonymizer.js:124-131 | a speaker line becomes its display name (the non-empty mapped pseudonym, else the trimmed label) and a colon; other lines stay |
| Anonymizer.RewriteDropsSpeech | anonymizer/anonymizer.js:124-128 | a speaker line `name:speech` becomes the mapped name (else the trimmed name) followed by `:`; the speech is dropped |
| Anonymizer.RewriteTranscriptLines | anonymizer/anonymizer.js:121-133 | the rewritten transcript splits back into exactly the rewritten lines, so the line count is kept |
| Anonymizer.RewrittenLabel | anonymizer/anonymizer.js:124-128 | when the display name has no colon and no surrounding whitespace, the server's speaker label of the rewritten line is that name |
| Anonymizer.SpeakerLabelShape | app.py:197 | a speaker label has no colon and no surrounding whitespace |
| Anonymizer.RewrittenLabelSafe | anonymizer/anonymizer.js:124-128 | with a map whose pseudonyms have no colon and no surrounding whitespace, every rewritten speaker line reads back as its display name, mapped or not |
| Anonymizer.RosterLabelSafe | anonymizer/anonymizer.js:70-75 | a generated map's pseudonyms have no colon and no surrounding whitespace |
| Anonymizer.ReconcileLabelSafe | anonymizer/anonymizer.js:107-119 | reconciliation keeps that, so a new roster's anonymized transcript always reads back as its display names |
| Anonymizer.KeyFileText | anonymizer/anonymizer.js:140-150 | the key file: one `pseudonym,name` line per distinct `Student-` pseudonym with its last-set name, joined by line breaks |
| Anonymizer.KeyFilePseudonyms | anonymizer/anonymizer.js:141-149 | the key file has one line per distinct value starting with `Student-`, in order of first insertion |
| Anonymizer.KeyFileName | anonymizer/anonymizer.js:142-146 | each pseudonym's line carries the last-inserted name for it, so a reconciled alias replaces the roster name |
| Anonymizer.UniqueEntry | anonymizer/anonymizer.js:142-146 | every emitted pair is an entry of the name map |
| Anonymizer.ReconcileLineFree | anonymizer/anonymizer.js:107-119 | with choices whose names have no line break, the reconciled map has no line break in any name or pseudonym |
| Anonymizer.KeyFileSplit | anonymizer/anonymizer.js:147-150 | when no name or pseudonym holds a line break (reconciled aliases with commas or empty names included), the emitted text splits back into its `pseudonym,name` lines |
| Anonymizer.KeyFileDetected | anonymizer/anonymizer.js:46-150 | a non-empty emitted key file whose names hold no line break is recognized as a key file |
| Anonymizer.KeyFileNonBlank | anonymizer/anonymizer.js:147-150 | when no name holds a line break, no emitted line is blank |
| Anonymizer.KeyFileEntries | anonymizer/anonymizer.js:147-148 | loading each emitted line gives back its name → pseudonym |
| Anonymizer.KeyFileReload | anonymizer/anonymizer.js:52-150 | loading the emitted key file maps each emitted name back to its pseudonym |
| Anonymizer.RosterStorable | anonymizer/anonymizer.js:70-75 | roster names are non-empty and trimmed; names and pseudonyms have no comma or newline |
| Anonymizer.RosterKeyFileRoundTrip | anonymizer/anonymizer.js:46-150 | saving a new roster's key file and loading it again gives every roster name its pseudonym back |
| Anonymizer.SanitizeForId | anonymizer/anonymizer.js:168 | same length; only `[A-Za-z0-9_]`; ASCII letters and digits are kept, every other character becomes `_` |
| Anonymizer.SanitizeIdempotent | anonymizer/anonymizer.js:168 | sanitizing twice is sanitizing once |
| Anonymizer.LoadKeyFile | anonymizer/anonymizer.js:51-58 | the `forEach` over the non-blank lines builds `KeyFileMap`, a valid map without newlines |
| Anonymizer.LoadRoster | anonymizer/anonymizer.js:65-76 | the header shift and the `forEach` build `RosterMap`, a valid map without newlines |
| Anonymizer.ScanSpeakers | anonymizer/anonymizer.js:81-87 | the scan builds `Speakers` of the transcript's lines |
| Anonymizer.ApplyChoices | anonymizer/anonymizer.js:107-119 | the `forEach` over the choices gives `Reconcile` |
| Anonymizer.RewriteText | anonymizer/anonymizer.js:121-133 | the `for` loop and `join` give `RewriteTranscript` |
| Anonymizer.CollectPseudonyms | anonymizer/anonymizer.js:141-146 | the first `forEach` gives `UniquePseudonyms` |
| Anonymizer.EmitKeyLines | anonymizer/anonymizer.js:147-149 | the second `forEach` gives one `pseudonym,name` line per entry, in key order |
| Anonymizer.BuildKeyFile | anonymizer/anonymizer.js:140-150 | the key file text is `KeyFileText` of the name map |
| Anonymizer.Session.constructor | anonymizer/anonymizer.js:13-17 | the empty global state |
| Anonymizer.Session.StartProcess | anonymizer/anonymizer.js:35-102 | a key file is detected iff its trimmed first line has a comma and starts with `Student-`; the map and `rosterNames` are loaded from it; unresolved names come from the transcript; with none unresolved, the output is produced at once |
| Anonymizer.Session.FinalizeProcess | anonymizer/anonymizer.js:104-164 | the map becomes the reconciled map; the transcript is rewritten; a key file is produced iff the roster was new |

## Left out

- The Flask routes, templates, the Jinja filter and HTTP basic auth are out: they are web plumbing.
- The database is out: connections, SQL text, and the other pages' persistence. The `weekly_data` table is a map keyed by (student, week), with rows unique per key.
- The SQL roster order (`CAST(SUBSTR(name, 9) AS INTEGER)`) is out: the roster reaches the model already ordered.
- The dynamic-SQL settings update and the manual-adjustment form are out. Only the settings record is kept, with the field list of `app.py:245`.
- Upload decoding and `splitlines` in `analyze_transcript` are out: the transcript reaches the model as a sequence of lines.
- The catch-all `print` handler of the loop is out. `PseudonymsHaveStats` shows that its `KeyError` cause never happens. Its other cause is an `OverflowError` from adding a huge integer to a float, covered by the next line.
- TimeCodec.ParseTimeToSeconds: numbers are unbounded. In Python, an hours or minutes field of about 310 digits makes `hours * 3600 + minutes * 60 + seconds` raise `OverflowError`. That error is not caught at `app.py:67`, so the handler at `app.py:220` skips the whole cue. An `int()` of more than 4300 digits raises `ValueError`, which gives 0. The model reads every digit string as its value.
- TimeCodec.ParseTimeToSeconds: `int()` and `float()` are modelled on digit strings with an optional fraction only, not with signs, whitespace, underscores, exponents or `inf`/`nan`.
- Text.Trim is JavaScript's `trim()` restricted to ASCII: space, tab, line feed, vertical tab, form feed and carriage return. Python's `strip()` also drops the ASCII separators `\x1c`-`\x1f`, and both drop Unicode whitespace; neither is modelled. A label such as `\x1fAlice` therefore stays `\x1fAlice` in `Segmentation.SpeakerLabel`, where `app.py:197` gives `Alice`.
- Grades.GradesPage: `round(..., 2)` on the final grade and `round(..., 1)`/`round(..., 2)` on the averages are not modelled. Grades and averages are the exact values before rounding.
- TimeCodec.FormatTime is proved correct only for whole seconds. The fractional `format_time` on the average time is modelled but not characterized, and `round` can give a seconds field of 60 there.
- Floating-point arithmetic is modelled as exact real arithmetic.
- NULL speaking fields in `weekly_data` rows are out: they count as numbers, because the schema is not part of this model.
- WeeklyData.SaveStudentStats takes the dictionary's iteration order as a parameter. The result is proved the same for every order.
- The anonymizer's DOM and browser APIs are out: `readFileAsText` and `FileReader`, `checkFiles`, the log text, and event listeners.
- The reconciliation form's HTML and its `&quot;` escaping round trip are out. The form's select values reach `FinalizeProcess` as a sequence of (unresolved name, choice) pairs.
- `triggerDownload` is out. The files it would download are the `Output` value.
- The `try`/`catch` of `startProcess` is out: it guards file reading, which is not modelled.
- Anonymizer.SanitizeForId works on Dafny characters, not on JavaScript's UTF-16 code units. A character outside the basic plane becomes one `_` rather than two.
