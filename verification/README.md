# Endangered-species detection: the decision logic in Dafny

The system is a webcam demonstrator. It classifies camera frames as
endangered animals and shows each sighting's conservation status. It logs
sightings to a JSON file, with a 30-second cooldown per species. A second
page shows the log filtered and summarised. This project models the pure
decision logic of that system and proves properties of it:

- **Label handling and category lookup of `main.py`**:
  - the label list is loaded;
  - the leading index token is dropped;
  - the species name is looked up in a table of five conservation categories, ignoring case and surrounding whitespace.
  - The detection screen uses this predictor.
- **The alternative predictor `modular.py`**:
  - `clean_label` strips a line and removes a leading `^\d+\s+` index;
  - blank label lines are dropped;
  - the category lookup is exact and case-sensitive;
  - the sentinel rules turn an excluded class or a low score into `(None, None, None)`.
- **The detection screen `app.py`**:
  - species-metadata lookup: exact key, then fuzzy match, then a placeholder;
  - the keyword cascade that chooses a status icon and colour;
  - the eligibility test;
  - the per-species cooldown and the remaining-seconds message;
  - `log_detection`;
  - the self-healing `initialize_log_file`.
- **The log dashboard `logs.py`**:
  - the self-healing load;
  - the newest-first order;
  - the inclusive date-range, category ("All" or one category) and minimum-confidence filters;
  - the total and distinct-species metrics;
  - the per-day detection counts.

The log file is an abstract value: `Missing`, `Blank` (empty or only
whitespace), `Corrupt` (not parseable), or `Valid(records)`. The
session-state entries `last_detection_<label>` form a `map<string, int>`.
Clock readings are parameters, counted in whole seconds. Scores are `real`s.

Modules, one file each:

- `Wrappers`: `Option`.
- `Text`: the Python string operations the code uses. These are `strip`
  with Python's whitespace set, ASCII `lower`, substring search,
  `endswith`, `split(" ")` and `" ".join`.
- `Categories`: the ordered category tables and the first-group lookup.
- `MainClassifier` models `main.py`. `ModularClassifier` models `modular.py`.
- `LogStore` holds the log record and file states.
- `Species` and `DetectionGate` model `app.py`. `Dashboard` models `logs.py`.

Two behaviours of the code are worth stating, because a reader might
expect otherwise:

- **A missing log file in `log_detection`.** Opening a missing file raises
  `FileNotFoundError` (app.py:114-115). The inner handler catches only
  `json.JSONDecodeError` (app.py:121-122), so the error reaches the outer
  `except Exception` (app.py:141-142), which swallows it. Nothing is written
  and the cooldown is not started, yet the timestamp is still returned
  (app.py:144). `DetectionGate.LogDetection` models exactly this.
- **The two category tables.** `main.py` lists "Beluga" under NT(G4).
  `modular.py` does not. The model has two tables.

## Model

| member | source | states |
|---|---|---|
| Text.Strip | modular.py:13 | The result has no Python whitespace at either end. |
| Text.StripRemovesPadding | modular.py:13 | Stripping removes only whitespace, and only from the two ends. The result is a contiguous slice of the input. |
| Text.StripPadded | main.py:62 | Whitespace padding around a stripped core is removed, and the core is kept exactly. |
| Text.StripIdempotent | main.py:62 | Stripping twice is stripping once. |
| Text.Lower | main.py:62 | The length is kept and no capital A–Z is left. Each capital becomes its own small letter in place, and every other character is unchanged. |
| Text.LowerIdempotent | main.py:62 | Lower-casing twice is lower-casing once. |
| Text.Split | main.py:95 | Splitting on a character yields at least one piece, and no piece contains the separator. |
| Text.JoinSplit | main.py:95 | Joining the pieces of a split with the same separator gives back the original string. |
| Text.AfterFirst | main.py:95 | The text after the first separator, or "" when there is none. |
| Text.JoinDropFirst | main.py:95 | Joining all pieces but the first is exactly the text after the first separator. |
| Categories.Lookup | modular.py:34-39 | The result is the category of the first group listing the name, in table order. When no group lists the name, it is the fallback. |
| Categories.FallbackIffUnlisted | modular.py:34-39 | When the fallback is not itself a category, the result is the fallback if and only if no group lists the name. |
| MainClassifier.Normalize | main.py:62 | The normal form has no surrounding whitespace and no capital A–Z. |
| MainClassifier.NormalizeIdempotent | main.py:62 | `strip().lower()` applied twice equals applied once. |
| MainClassifier.ListedIffMatches | main.py:68-70 | A name's normal form is listed in a group of the normalised table exactly when some entry of that group has the same normal form as the name. |
| MainClassifier.ClassIn | main.py:60-75 | Returns the category of the first group holding an entry that equals the name after both are stripped and lower-cased. Returns "Bilinmeyen Sınıf" if and only if no group does. The result is always a table category or that fallback. |
| MainClassifier.CategoriesOfMainTable | main.py:12-57 | The categories are exactly EN(G1), EN(G2), VU(G3), NT(G4) and LC(G5). |
| MainClassifier.UnmatchedIsNoCategory | main.py:75 | The fallback string is not one of the categories, so a miss can be told from a hit. |
| MainClassifier.AnimalClassIgnoresCaseAndSpace | main.py:60-75 | Two names with the same stripped, lower-cased form get the same category. |
| MainClassifier.VaquitaIsEndangered | main.py:60-75 | "  VAQUITA " is classified EN(G1). |
| MainClassifier.LoadedLabelName | main.py:9 | Stripping the label lines at load time does not change the name `predict_image` extracts. Its own second `strip()` does nothing. |
| MainClassifier.ExtractName | main.py:95 | The extracted name is everything after the first space of the stripped label, and "" when the label has no space. |
| MainClassifier.VaquitaLabel | main.py:95 | "0 Vaquita" extracts to "Vaquita". |
| MainClassifier.SingleTokenLabel | main.py:95 | "Vaquita", which has no space, extracts to "". |
| MainClassifier.Predict | main.py:95-101 | The name is the label after its first token. The category is `get_animal_class` of that name. The score is passed through. |
| ModularClassifier.DigitRun | modular.py:14 | The length of the maximal run of ASCII digits that starts the string. |
| ModularClassifier.StartsWithIndexAtRun | modular.py:14 | `^\d+\s+` matches if and only if the digit run is non-empty and followed by whitespace. |
| ModularClassifier.SpaceEnd | modular.py:14 | The end of the whitespace run that starts at the given position: everything before it is whitespace, and the character at it is not. `\s+` is greedy. |
| ModularClassifier.SpaceEndUnique | modular.py:14 | Any whitespace run that stops at a non-space or at the end of the text is exactly the one the greedy match takes. |
| ModularClassifier.RemoveIndex | modular.py:14 | Removing the index leaves a tail of the text. |
| ModularClassifier.RemoveIndexDropsIndex | modular.py:14 | What is removed is either nothing or one or more digits followed by whitespace only. |
| ModularClassifier.RemoveIndexIffIndexed | modular.py:14 | Something is removed if and only if the text starts with digits followed by whitespace. |
| ModularClassifier.RemoveIndexKeepsStripped | modular.py:13-14 | On stripped text the result is stripped, and it is never empty when the text is not. |
| ModularClassifier.RemoveIndexOf | modular.py:14 | Digits, then whitespace, then text starting with a non-space: exactly that text remains. |
| ModularClassifier.CleanLabel | modular.py:11-15 | The result is stripped, and a line that is not blank never cleans to "". |
| ModularClassifier.CleanIndexedLine | modular.py:11-15 | Digits, whitespace and a stripped non-empty rest clean to exactly the rest. |
| ModularClassifier.CleanLabelNotIdempotent | modular.py:14 | "1 2 Lion" cleans to "2 Lion", and cleaning that again gives "Lion". Only the first index goes. |
| ModularClassifier.LoadLine | modular.py:19 | A line contributes nothing if and only if it is blank after stripping. Otherwise it contributes one non-empty, stripped name. |
| ModularClassifier.LoadClassNames | modular.py:18-19 | Class names are never empty and are stripped. There are no more of them than lines. |
| ModularClassifier.LoadClassNamesAppend | modular.py:19 | Loading two files one after the other gives their class names in the same order. |
| ModularClassifier.LoadOneLine | modular.py:19 | A blank line contributes nothing, and any other line contributes its cleaned text. |
| ModularClassifier.LionIsVulnerable | modular.py:34-39 | "Lion" is VU(G3). |
| ModularClassifier.LowerCaseLionIsUnknown | modular.py:34-39 | "lion" is "Unknown": the lookup is case-sensitive. |
| ModularClassifier.BelugaIsUnknown | modular.py:22-31 | "Beluga" is not in this table. |
| ModularClassifier.Predict | modular.py:60-76 | The result is the sentinel if and only if the label is "Environment" or "Human", or the score is below 0.90. Otherwise it carries the label, the score, and `get_animal_class` of the label. |
| ModularClassifier.LabelAtLoaded | modular.py:61 | The second strip of a loaded class name changes nothing. |
| ModularClassifier.OutOfRangeIndex | modular.py:60-63 | An index past the list, with a high enough score, is reported as the animal "Unknown" in category "Unknown". |
| Species.KeyIndex | app.py:41-42 | Finds the position of an exact key, or proves that there is none. |
| Species.FirstFuzzy | app.py:45-47 | Finds the first entry, in file order, whose lower-cased key contains the lower-cased name or is contained in it. |
| Species.SpeciesDetails | app.py:37-53 | An exact key returns its entry. Otherwise the first fuzzy match in file order returns its entry. Otherwise the placeholder is returned. |
| Species.DetailsComeFromTable | app.py:37-53 | The result is always a table value or the placeholder. |
| Species.EmptyNameMatchesFirstEntry | app.py:45-47 | The empty label, when it is not a key, resolves to the first entry. |
| Species.CaseInsensitiveHit | app.py:44-47 | A label that differs from a key only in case finds that key's entry, unless an earlier entry matches fuzzily. |
| Species.PlaceholderFields | app.py:242-243 | A miss shows "Not available" and "Unknown". |
| Species.Classify | app.py:153-168 | The cascade order, for all seven outcomes in both directions. Containing "extinct" gives the extinct level. Containing "critically", without "extinct", gives critically endangered. Each later test fires exactly when its keywords are present and every earlier test failed. A status with no keyword is unrecognised. |
| Species.Display | app.py:155-168 | The warning icon is shown exactly for the critically endangered, endangered, vulnerable and near-threatened levels. |
| Species.StatusDisplay | app.py:153-168 | The colour shown identifies the level of the cascade. Red is shown exactly when the lower-cased status contains "extinct". The grey ❓ is shown exactly when no keyword matches, the red 🔴 exactly for the extinct level, the green ✅ exactly for least concern, and the ⚠️ icon exactly for the four levels in between. |
| Species.ColoursDistinct | app.py:153-168 | Different outcomes of the cascade have different colours. |
| Species.EmptyStatusIsUnknown | app.py:167-168 | The empty status shows ❓ and #808080. |
| Species.NoExtinctInCriticallyEndangered | app.py:155-156 | The lower-cased status "critically endangered" does not contain "extinct", so the first test of the cascade does not fire. |
| Species.CriticallyEndangeredIsOrangeRed | app.py:155-158 | "Critically Endangered" shows the #ff4500 warning and never reaches the "endangered" test. |
| LogStore.InitializeLogFile | app.py:57-85 | Afterwards the file is a valid array holding the same records. A missing, blank or invalid file becomes `[]`. A valid file is left alone. |
| LogStore.InitializeIdempotent | app.py:57-77 | Initialising twice is initialising once. |
| LogStore.Append | app.py:112-136 | A present file gains the record at the end of what it read. A missing file is not written. |
| LogStore.AppendAllContents | app.py:125-136 | For a present file, successive appends keep every earlier record and add the new ones after them, in order. |
| LogStore.AppendToInitialized | app.py:57-77 | N appends to a freshly initialised log read back as exactly those N records. |
| DetectionGate.ExcludedLabelsNeverEligible | app.py:237-238 | A class whose name ends in "Human" or "Environment" is never shown, whatever its score. No class scoring below 0.90 is shown. |
| DetectionGate.TruncateToInt | app.py:260 | Truncation toward zero, as Python's `int()` does it. |
| DetectionGate.RemainingCooldown | app.py:257-260 | While in cooldown with a non-negative elapsed time, the message shows 1 to 30 seconds. The value is 30 minus the whole seconds elapsed. |
| DetectionGate.RemainingWholeSeconds | app.py:260 | With whole-second times, the remaining time is exactly 30 minus the elapsed time. |
| DetectionGate.LogDetection | app.py:93-144 | In cooldown it returns None and changes nothing. Otherwise it returns the time. For a present file, it gains exactly one record at the end, earlier records are unchanged, the label's last time is set to now, and no other label's time changes. For a missing file, nothing is written and no time changes. |
| DetectionGate.FreshLogHoldsOneRecord | app.py:115-122 | An accepted detection on a blank or unparseable log leaves exactly one record. |
| DetectionGate.LogDetectionKeepsSpacing | app.py:98-139 | Keeps the session invariant. Two logged records of one label are at least 30 s apart, and every label's last time is no earlier than its records. |
| DetectionGate.ProcessDetection | app.py:236-278 | An ineligible result is ignored whatever the state. A label in cooldown shows the remaining time and changes nothing. Every eligible result out of cooldown at the screen's reading is passed to `log_detection`, and the frame takes exactly its effect. It is logged whenever `log_detection`'s own reading is also out of cooldown. The "Not logged" branch is reachable only when the clock went backwards between the two readings. |
| DetectionGate.ProcessKeepsSpacing | app.py:248-278 | One processed frame keeps the cooldown spacing of the log. |
| DetectionGate.VaquitaEligible | app.py:237-238 | "Vaquita" is eligible at scores of 0.90 and above. |
| DetectionGate.VaquitaScenario | app.py:236-278 | The sequence runs on an empty log. Vaquita is logged at T. At T+10 it is held back with 20 s to go. At T+31 it is logged again, leaving two records. |
| Dashboard.ReadersAgree | logs.py:20-37 | For a present file, the dashboard reads the same records as the detection screen's read (app.py:114-122), and its rewrite is the very file `initialize_log_file` would produce. Neither healing step loses a record. A missing file reads as empty on the dashboard, while the detection screen's read raises. |
| Dashboard.Load | logs.py:15-37 | The logs read are the file's records, or empty. A missing file is reported and not created. A blank file is rewritten as `[]`, and so is a corrupt one, which is also reported. |
| Dashboard.LoadSettles | logs.py:15-37 | A second visit reads the same records and rewrites nothing. |
| Dashboard.LoadAfterAppend | logs.py:20-31 | The dashboard reads back exactly what the detection screen appended. |
| Dashboard.SortNewestFirst | logs.py:49 | The same records, as a multiset, with timestamps non-increasing. |
| Dashboard.Keep | logs.py:70-71 | A mask keeps exactly the records satisfying the condition, with their multiplicities, as a subsequence. |
| Dashboard.KeepNewestFirst | logs.py:49-91 | Filtering keeps the newest-first order. |
| Dashboard.KeepBoth | logs.py:68-91 | Two masks in a row are one mask by both conditions. |
| Dashboard.DateFilter | logs.py:68-73 | Keeps exactly the records whose day lies in the range, both ends included. With no range, everything is kept. |
| Dashboard.CategoryFilter | logs.py:79-80 | "All" keeps everything. Any other choice keeps exactly the records of that category. |
| Dashboard.ConfidenceFilter | logs.py:91 | Keeps exactly the records whose score times 100 reaches the slider value. |
| Dashboard.Filtered | logs.py:68-91 | The three filters keep exactly the records meeting all three conditions, with their multiplicities. |
| Dashboard.FilteredIsOneMask | logs.py:68-91 | The three filters in sequence equal one mask by all three conditions. |
| Dashboard.FilteredProperties | logs.py:68-91 | The filtered table holds exactly the selected records, as a subsequence of the sorted log, and is still newest first. |
| Dashboard.UniqueSpecies | logs.py:100-104 | The number of distinct species names. It is at most the number of rows, and 0 exactly when the table is empty. |
| Dashboard.DailyCounts | logs.py:121 | There are no rows exactly when there are no records. The first row is the earliest day with its count. That there is one row per day follows from DailyCountsAscending and DailyCountsCover. |
| Dashboard.DailyCountsDays | logs.py:121 | Every row's day is the day of some record. |
| Dashboard.FirstRowEarliest | logs.py:121 | The first row's day comes before every other row's day. |
| Dashboard.DailyCountsAscending | logs.py:121 | The rows are in strictly increasing day order, so no day appears twice. |
| Dashboard.DailyCountsCounts | logs.py:121 | Each row holds the number of records of its day, and that number is at least 1. |
| Dashboard.DailyCountsCover | logs.py:121 | Every record's day has a row. |
| Dashboard.DailyCountsTotal | logs.py:121 | The daily counts add up to the number of filtered records. |
| Dashboard.ShowPage | logs.py:15-121 | A missing file shows only its error, with no body. A present file with no records shows the "No detections recorded yet" warning. Otherwise the report holds the file's records sorted and filtered, their count, their number of distinct species and their per-day counts. The notice and the rewritten file are those of the load step. |
| Dashboard.ShowLogs | logs.py:39-121 | An empty log shows only a warning. Otherwise the table is the sorted log, filtered, still newest first, and holds exactly the selected records. "Total Detections" is its length. "Unique Species" is its number of distinct names. The daily counts are the per-day counts of the table, and they add up to the total. |

## Left out

- Camera capture, frame throttling and sleeps, model loading, image preprocessing, `model.predict`, probability normalisation and the arg-max. These are I/O and foreign numeric code. The winning index and its score are parameters.
- Streamlit rendering, HTML and markdown texts, Plotly charts, the category pie counts, the category select-box options and the CSV export. These are UI only.
- The average-confidence metric. It is a floating-point mean with formatting.
- Real file and clock effects. The log file is an abstract value, and `datetime.now()` is a parameter in whole seconds. Unparseable JSON is the `Corrupt` state, and a missing file is modelled where it is read. Other exception paths are not modelled: write failures, content that is not valid UTF-8, and the re-creation attempt at app.py:78-85.
- Loading the species metadata file. The decoded JSON object is a parameter, and a failed load is the empty table.
- A log file holding valid JSON that is not an array of records. It is outside the four file states.
- MainClassifier.AnimalClass: it is `ClassIn` over main.py's table with no contract of its own. Its properties are stated on `ClassIn` and in `AnimalClassIgnoresCaseAndSpace` and `VaquitaIsEndangered`.
- ModularClassifier.AnimalClass: it is `Categories.Lookup` over modular.py's table with no contract of its own. Its properties are stated on `Lookup` and in the Lion and Beluga lemmas.
- MainClassifier.Predict: requires the index to be within the label list, because Python raises `IndexError` otherwise.
- Text.Lower: lower-cases ASCII letters only. Python's full Unicode case mapping is not modelled.
- ModularClassifier.DigitRun: `\d` is taken as the ASCII digits. Python's regex also matches other Unicode decimal digits.
- Dashboard.SortNewestFirst: records with equal timestamps keep their file order. The pandas sort does not promise any order among them.
- Dashboard.Day: a day is `timestamp / 86400` with no time zone.
- The confidence filter and the threshold compare exact reals, with no floating-point rounding.
