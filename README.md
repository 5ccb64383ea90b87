# Physics exam platform: a verified model of its core

This project models the sequential logic of a Flask/MySQL/Redis web application for
physics exercises. Students receive problems generated from parametrised templates,
submit numeric answers and are graded with a relative-error tolerance. Three scripts
import student accounts from spreadsheets and CSV files.

The model covers:

- **Problem pool and token store** (`pool.dfy`, class `ProblemPool.Store`). There is one
  Redis list per template and one expiring key per token, with an explicit clock.
  `refill_problem_pool`, `ensure_problem_pool`, `fetch_problem_from_pool`,
  `generate_and_cache_problem`, `prewarm_pools`, `cache_problem_with_token` and
  `get_problem_by_token` are methods of the class. Each one states its new state
  through `Queue` (the list oldest first), `Replenished` and `ToppedUp`.
  - `lpush` writes the head and `rpop` reads the tail, so problems are served FIFO.
  - A low pool gains at most one batch of 10.
  - A live token's expiry slides on every read, even when its value does not decode.
- **Template cache** (`template_cache.dfy`, class `TemplateCache.Cache`). It implements
  `get_template` and `reload_templates` over a database loader passed in as a function.
- **Generator** (`generator.dfy`). This covers the bounded retry loop of
  `generate_problem_from_template`, the range expansion per attempt, the classifier
  `get_adaptive_default_range`, answer broadcasting, unit padding, the rounding tiers
  of both paths, and `generate_fallback_problem`. Sampling and formula evaluation are
  oracles.
- **Plausibility filter** (`plausibility.dfy`). It covers `is_answer_reasonable_dynamic`
  and `check_dynamic_consistency` over reals.
- **Placeholder substitution** (`placeholders.dfy`). `format_problem_text` is modelled as
  a left-to-right scanner for `__(\w+)__`. The word class and the number-to-text
  conversion are parameters.
- **Grading** (`grading.dfy`). It covers `is_correct`, `classify_error_type`, and the
  arithmetic of the submit handler: the time clamp, the answer keys, the verdict loop
  and the next problem number.
- **Display helpers** (`display.dfy`). These are the 1-based numbering of templates and
  its inverse, the 1000-character truncation of problem text, and the superscript
  exponent of `format_scientific`.
- **Uploads** (`uploads.dfy`). It covers `allowed_file`, `os.path.splitext` and the
  unique-name loop of `save_uploaded_file`.
- **Import scripts**:
  - `import_users.dfy` covers `clean_student_id`, `normalize`, `find_col` and the
    batch loop;
  - `import_students_excel.dfy` covers `find_student_id_column` and the digit filter;
  - `student_csv.dfy` covers the header skip and row filter of `student.py`.

Shared pieces:

- `text.dfy` holds the Python string primitives: `strip`, `lower`, `isdigit`,
  `split`, `str(int)`.
- `dict.dfy` models an insertion-ordered `dict`.
- `numeric.dfy` holds absolute value, powers of ten and rounding.
- `cells.dfy` models a spreadsheet cell value.
- `wrappers.dfy` holds `Option`.

Two properties of the code:

- The pool is FIFO, because of `lpush` and `rpop`, not LIFO.
- A refill of a pool below the low-water mark adds at most one batch. It does not
  bring the pool to "low-water + batch"; see `ProblemPool.ReplenishedBounds`.

Three facts about the code are proved rather than assumed:

- The range-table branches for resistance, rate and density can never be taken
  (`Generator.UnreachableRules`).
- The `reasonable_ranges` update (`app.py` 523-528) runs just before the attempt
  returns, so it never affects a later attempt. The model computes the ranges once.
- An exact answer below 0.01 can be graded wrong against its own stored rounding
  (`Generator.TinyAnswerRejected`).

## Model

| member | source | states |
|---|---|---|
| Text.Strip | physics_project/import_users.py:36 | `str.strip()`: the result has no whitespace at either end and is no longer than the input |
| Text.StripIdempotent | physics_project/import_users.py:57 | stripping a stripped string changes nothing |
| Text.StripLower | physics_project/import_users.py:57 | stripping and lowercasing commute |
| Text.RemoveSpaces | physics_project/import_users.py:51 | `re.sub(r"\s+", "", s)` leaves no whitespace and keeps a digit string as it is |
| Text.RemoveSpacesAppend | physics_project/import_users.py:51 | the removal works character by character: a concatenation loses the whitespace of each part |
| Text.RemoveSpacesChar | physics_project/import_users.py:51 | one character is dropped exactly when it is whitespace |
| Text.KeepDigits | physics_project/import_users.py:52 | `re.sub(r"\D", "", s)` leaves only digits and keeps a digit string as it is |
| Text.KeepDigitsAppend | physics_project/import_users.py:52 | the filter works character by character: a concatenation keeps the digits of each part, in order |
| Text.KeepDigitsChar | physics_project/import_users.py:52 | one character is kept exactly when it is a digit |
| Text.KeepDigitsEmpty | physics_project/import_users.py:52 | nothing is kept exactly when the string holds no digit |
| Text.KeepDigitsRemoveSpaces | physics_project/import_users.py:51-52 | removing whitespace first does not change which digits are kept |
| Text.IntToString | physics_project/app.py:323 | `str(int)` is non-empty: all digits for a non-negative number, and `-` first for a negative one |
| Text.ParseDecOfDec | physics_project/app.py:323 | the decimal text of a natural number reads back as that number |
| Text.DecInjective | physics_project/app.py:71 | different counters are written as different decimal texts |
| Text.JoinSplit | physics_project/app.py:474 | joining the parts of `split(',')` with commas gives back the original text |
| Dict.Get | physics_project/app.py:395-396 | a key is found iff some entry has it, and the value found is that entry's value |
| Dict.Put | physics_project/app.py:369-373 | after `d[k] = v`: `k` maps to `v`, every other key keeps its value, keys stay distinct, and the size grows only for a new key |
| Dict.PutNew | physics_project/app.py:368-373 | assigning a key that is not yet present appends it at the end |
| Dict.GetOfEntry | physics_project/app.py:403-405 | every entry is what lookup finds under its key |
| Dict.Values | physics_project/app.py:718 | `values()` lists the values in insertion order |
| Display.DisplayMapping | physics_project/app.py:357-377 | the id-to-number mapping has distinct keys |
| Display.MappingKeys | physics_project/app.py:366-373 | exactly the listed ids are keys, and every number lies in 1..number of templates |
| Display.MappingIsEnumeration | physics_project/app.py:366-373 | with distinct ids, the mapping pairs the i-th id with i + 1, in row order |
| Display.DisplayNumber | physics_project/app.py:392-397 | `get_display_number` returns an unlisted id unchanged and gives a listed id a number in range |
| Display.DisplayNumberIsPosition | physics_project/app.py:392-397 | the i-th id is shown as number i + 1 |
| Display.FirstWithNumber | physics_project/app.py:403-406 | the search finds nothing iff no entry has the number, and a key it finds carries that number |
| Display.ActualIdOutOfRange | physics_project/app.py:400-406 | `get_actual_id` is None for numbers outside 1..number of templates |
| Display.ActualIdOfPosition | physics_project/app.py:400-406 | number n leads to the n-th id |
| Display.DisplayRoundTrip | physics_project/app.py:392-406 | `get_actual_id(get_display_number(id)) == id` for every listed id, and the i-th id is numbered i + 1 |
| Display.Invert | physics_project/app.py:380-389 | the number-to-id map has distinct keys |
| Display.InvertEnumeration | physics_project/app.py:383-387 | inverting the enumeration maps n to the n-th id, and nothing else |
| Display.DisplayToActualAgrees | physics_project/app.py:380-406 | `build_display_to_actual_map` answers exactly what `get_actual_id` answers |
| Display.Truncate | physics_project/app.py:820 | a text of at most 1000 characters is kept; a longer one becomes its first 1000 characters followed by "..." |
| Display.TruncateIdempotent | physics_project/app.py:820 | truncating twice is truncating once |
| Display.SuperscriptDigits | physics_project/app.py:328-329 | one output character per input character, each mapped through the superscript table |
| Display.SuperscriptExponent | physics_project/app.py:323-329 | the exponent text is non-empty and starts with the superscript minus iff the exponent is negative |
| Display.FromSuperscript | physics_project/app.py:318-321 | a superscript digit read back is the digit whose table entry it is |
| Display.ParseSuperscriptDigitsOf | physics_project/app.py:318-329 | a run of digits written as superscripts reads back as the same number |
| Display.SuperscriptRoundTrip | physics_project/app.py:318-329 | every exponent can be read back from its superscript form, so distinct exponents are written differently |
| Numeric.RoundError | physics_project/app.py:552-559 | rounding to d decimals moves a value by at most half a unit in the last place |
| Generator.ParseList | physics_project/app.py:474 | an empty column gives no names; otherwise one stripped name per comma-separated part |
| Generator.AdaptiveRange | physics_project/app.py:658-683 | every default range is positive and non-empty |
| Generator.UnreachableRules | physics_project/app.py:663-680 | the resistance, rate and density branches are never taken, because every one of their needles contains r, a or d |
| Generator.AngularOnlyThroughOmega | physics_project/app.py:675-676 | the angular branch is reached only by names containing the Greek letter omega |
| Generator.ExpansionWidens | physics_project/app.py:494-497 | the sampling range of a later attempt contains that of an earlier one, and its lower end is never below 0.01 |
| Generator.SampleAll | physics_project/app.py:489-499 | every variable gets a value, and the value map has distinct keys |
| Generator.Broadcast | physics_project/app.py:517-519 | a list of the right length is kept; otherwise the first answer is repeated `answer_count` times; an empty list with `answer_count > 0` raises |
| Generator.FitUnits | physics_project/app.py:531-543 | exactly `answer_count` units: the given ones first, padded with "" or truncated |
| Generator.RoundingWithinHalfPercent | physics_project/app.py:546-559 | from magnitude 0.01 up, the main and fallback tiers round alike and move the answer by at most 0.5% |
| Generator.TiersDifferBelowHundredth | physics_project/app.py:630-638 | below 0.01 the main path keeps 6 decimals and the fallback keeps 4 |
| Generator.ExactAnswerAccepted | physics_project/app.py:546-559 | a student entering the exact computed answer is graded correct against the stored answer when its magnitude is at least 0.01 |
| Generator.TinyAnswerRejected | physics_project/app.py:558-559 | 1.3e-6 is stored as 1e-6, and the exact answer is then graded wrong |
| Generator.Attempt | physics_project/app.py:488-585 | an accepted attempt carries exactly `answer_count` answers and `answer_count` units |
| Generator.FallbackAnswers | physics_project/app.py:600-615 | the fallback always has `answer_count` answers, all zero when evaluation fails |
| Generator.Fallback | physics_project/app.py:591-656 | the fallback instance has `answer_count` answers and units and the template's id |
| Generator.Generate | physics_project/app.py:467-588 | None iff the template is missing; otherwise the first accepted attempt (all earlier ones rejected) or, after `max_attempts` rejections, the fallback; both have `answer_count` answers and units |
| Generator.AcceptedAttemptIsPlausible | physics_project/app.py:502-580 | an accepted instance's text is built from its own variable values, and its answers are the rounded forms of values that passed the plausibility filter |
| Plausibility.AbsAll | physics_project/app.py:718 | each variable's absolute value, in order, all non-negative |
| Plausibility.WindowsWiden | physics_project/app.py:698-731 | the magnitude and ratio windows of a later attempt contain those of an earlier one |
| Plausibility.ReasonableMonotone | physics_project/app.py:686-739 | answers accepted at attempt m are accepted at every later attempt |
| Plausibility.RejectsEmpty | physics_project/app.py:688-689 | an empty answer list is rejected |
| Plausibility.ZeroRejectedWithVariables | physics_project/app.py:702-737 | an exact zero passes the magnitude test but fails the ratio test whenever a variable is present |
| Plausibility.LargeRatioExample | physics_project/app.py:726-737 | 1e7 against a single variable of 1.0 is rejected until attempt 33330 and accepted from then on |
| Placeholders.WordRun | physics_project/app.py:745 | the longest run of word characters at the start of the text |
| Placeholders.LastSeparator | physics_project/app.py:745 | the last "__" starting within the given bounds, or none |
| Placeholders.MatchAt | physics_project/app.py:745 | a match starts with "__", ends with "__" and has a non-empty run of word characters between |
| Placeholders.SubstituteEmpty | physics_project/app.py:742-751 | with no variables the text is returned unchanged |
| Placeholders.PlainCharacter | physics_project/app.py:742-751 | a character other than `_` is copied and the scan moves on |
| Placeholders.PlaceholderRun | physics_project/app.py:745 | after the opening "__", the word run covers the name, plus the closing "__" when `_` is a word character |
| Placeholders.PlaceholderMatch | physics_project/app.py:745 | a placeholder followed by a non-word character or the end of the text is one match ending after its closing "__" |
| Placeholders.Placeholder | physics_project/app.py:742-751 | `__name__` becomes the value's text when `name` is a key and stays verbatim otherwise |
| Grading.Tolerance | physics_project/app.py:268-277 | the tolerance is 1% or 1.5%, and 1.5% exactly when the correct answer's magnitude is above 1e10 or below 1e-10 |
| Grading.IncorrectWithoutNumbers | physics_project/app.py:237-248 | a missing or unconvertible answer on either side is never correct |
| Grading.ZeroCases | physics_project/app.py:252-262 | against zero only zero is correct, and zero is correct only against zero |
| Grading.CorrectIffWithinBand | physics_project/app.py:264-280 | for non-zero numbers: correct iff `|u - c| * 100 <= tolerance * |c|`, boundary included, with tolerance 1.5 beyond 1e10 or below 1e-10 |
| Grading.CorrectReflexive | physics_project/app.py:232-289 | every number is a correct answer to itself |
| Grading.BoundaryExamples | physics_project/app.py:252-280 | 101 against 100 and 0 against 0 are correct; 102 against 100 and 1 against 0 are not |
| Grading.ClassifyAgreesWithVerdict | physics_project/app.py:754-777 | with the verdict of `is_correct` passed in, the label is "correct" iff the answer is correct |
| Grading.ClassifyBands | physics_project/app.py:768-777 | a wrong non-zero-target answer is labelled by the band (above 50%, above 5%, at most 5%) its relative error falls in, and the mildest band still exceeds the tolerance |
| Grading.ClampTime | physics_project/app.py:2173-2182 | the recorded time lies in 0..86400: negative becomes 0, more than a day becomes 3600, anything else is kept |
| Grading.ClampIdempotent | physics_project/app.py:2173-2182 | clamping a clamped time changes nothing |
| Grading.AnswerKeysDistinct | physics_project/app.py:2188-2194 | different answers of one submission are read from different request keys |
| Grading.CollectAnswers | physics_project/app.py:2187-2194 | the submission is rejected exactly when some expected answer field is present but does not convert to a number (the `ValueError`/`TypeError` the handler at lines 2330-2340 turns into a failure reply); otherwise one answer per expected answer, each the number in its field or 0 when absent |
| Grading.GradeAll | physics_project/app.py:2199-2214 | one verdict and one label per pair of `zip`, stopping at the shorter list; `all_correct` iff every verdict holds |
| Grading.NextProblem | physics_project/app.py:2250 | there is a next problem iff this is not the last; it is the following number, so it lies in 2..total |
| ProblemPool.Reverse | physics_project/app.py:148 | reading the list from the tail keeps its length |
| ProblemPool.ReversePush | physics_project/app.py:148 | `lpush` puts the new entry at the back of the queue |
| ProblemPool.ReversePop | physics_project/app.py:163 | `rpop` takes the front of the queue and leaves the rest in order |
| ProblemPool.Successes | physics_project/app.py:145-149 | at most one instance per generator call |
| ProblemPool.AllSucceed | physics_project/app.py:145-149 | when every call succeeds, every call contributes an instance |
| ProblemPool.Encodings | physics_project/app.py:148 | one stored value per instance, in order |
| ProblemPool.ReplenishedBounds | physics_project/app.py:153-157 | a pool of at least 25 is left alone; a lower pool keeps its entries in front and gains at most 10 fresh instances |
| ProblemPool.ReplenishedKeepsHead | physics_project/app.py:153-163 | replenishing never overtakes the oldest entry, which is served next |
| ProblemPool.ReplenishedEmpty | physics_project/app.py:153-166 | a pool is still empty after replenishing iff it was empty and every call of the batch failed |
| ProblemPool.ToppedUpBounds | physics_project/app.py:209-214 | prewarming keeps the queued entries in front and never grows a pool past 50 |
| ProblemPool.ToppedUpReachesTarget | physics_project/app.py:209-214 | when every call succeeds, a pool below 50 reaches exactly 50 |
| ProblemPool.Store.constructor | physics_project/app.py:26-27 | the store starts with no lists and no tokens |
| ProblemPool.Store.Tick | physics_project/app.py:101 | time advances, and only time |
| ProblemPool.Store.CacheWithToken | physics_project/app.py:99-101 | `setex`: the token maps to the payload until now + 900 and is live; nothing else changes |
| ProblemPool.Store.GetByToken | physics_project/app.py:104-115 | an empty, unknown or expired token gives None and changes nothing; a live one has its expiry reset to now + 900 and gives its instance, or None when its value does not decode |
| ProblemPool.Store.Push | physics_project/app.py:148 | the entry joins the back of the queue; no other list changes |
| ProblemPool.Store.Pop | physics_project/app.py:163 | the front of the queue is removed and returned, None when the queue is empty; no other list changes |
| ProblemPool.Store.Refill | physics_project/app.py:142-150 | the successful instances are queued in call order, their number is returned, and no other list or token changes |
| ProblemPool.Store.EnsurePool | physics_project/app.py:153-157 | the queue becomes its replenished form; a pool of at least 25 is not touched |
| ProblemPool.Store.GenerateAndCache | physics_project/app.py:186-193 | a failed generation gives (None, None); otherwise the fresh token maps to exactly the generated instance |
| ProblemPool.Store.Serve | physics_project/app.py:163-183 | pops the oldest entry and binds the fresh token to it; an undecodable entry is lost and gives (None, None); an empty pool falls back to direct generation |
| ProblemPool.Store.Fetch | physics_project/app.py:160-183 | the replenished queue loses its oldest entry, which is returned under the fresh token; other templates' lists are not touched |
| ProblemPool.Store.TopUp | physics_project/app.py:210-216 | one template's queue becomes its topped-up form; nothing else changes |
| ProblemPool.Store.Prewarm | physics_project/app.py:196-216 | every listed template's queue is topped up to 50; unlisted templates are untouched; a failed connection changes nothing |
| TemplateCache.Cache.constructor | physics_project/app.py:33-34 | the cache starts empty |
| TemplateCache.Cache.Get | physics_project/app.py:130-139 | a cached id is answered with no database read; otherwise the database is read once, and a found template is cached while a None is not; a coherent cache stays coherent |
| TemplateCache.Cache.Reload | physics_project/app.py:1793-1798 | the cache is emptied and stamped |
| Uploads.Extension | physics_project/app.py:59 | the text after the last dot, which contains no dot |
| Uploads.AllowedFileOf | physics_project/app.py:56-59 | a name is allowed iff its last extension, lowercased, is an image extension, whatever precedes it |
| Uploads.AllowedUpperCase | physics_project/app.py:56-59 | "circuit.PNG" is allowed |
| Uploads.RejectedDoubleExtension | physics_project/app.py:56-59 | "photo.png.exe" is rejected |
| Uploads.SplitExt | physics_project/app.py:68 | base and extension concatenate to the name, and the extension is empty or one dot followed by no dot or slash |
| Uploads.SplitExtExamples | physics_project/app.py:68 | "a.png" splits as ("a", ".png") and ".png" has no extension |
| Uploads.CandidateInjective | physics_project/app.py:69-72 | different rounds of the loop try different names |
| Uploads.UniqueFilename | physics_project/app.py:68-72 | the chosen name is not taken, it is the k-th candidate, and every earlier candidate was taken |
| ImportUsers.DropPointZero | physics_project/import_users.py:40-42 | a text matching `\d+\.0` loses its ".0"; any other text is kept |
| ImportUsers.DigitsOf | physics_project/import_users.py:51-53 | the final steps give None exactly when the text holds no digit, and otherwise its digits in order |
| ImportUsers.CleanStudentId | physics_project/import_users.py:33-53 | None for an empty cell or a blank text; otherwise None or a non-empty all-digit string |
| ImportUsers.CleanSeparatedDigits | physics_project/import_users.py:33-53 | two digit groups around a separator other than a digit, '.', 'e' or 'E' ("2023-0001", "2023 0001") clean to the digits joined ("20230001") |
| ImportUsers.DigitsPass | physics_project/import_users.py:40-53 | a digit string passes every cleaning step unchanged |
| ImportUsers.CleanUnchanged | physics_project/import_users.py:33-53 | a cell whose stripped text passes every later step unchanged cleans to that text |
| ImportUsers.CleanDigitString | physics_project/import_users.py:33-53 | a digit-string cell cleans to itself |
| ImportUsers.CleanPointZero | physics_project/import_users.py:40-42 | "20230001.0" and every other digits-then-".0" text clean to the digits |
| ImportUsers.ExponentNotPointZero | physics_project/import_users.py:40-45 | a text with an exponent mark is never in the ".0" shape |
| ImportUsers.CleanFailedExponent | physics_project/import_users.py:44-49 | a text with 'e' or 'E' whose float conversion fails cleans to None, whatever digits it holds |
| ImportUsers.CleanIdempotent | physics_project/import_users.py:33-53 | a cleaned id, cleaned again, is unchanged |
| ImportUsers.NormalizeShape | physics_project/import_users.py:56-57 | a falsy value normalises to ""; every normalised text is stripped and has no capital |
| ImportUsers.NormalizeIdempotent | physics_project/import_users.py:56-57 | normalising a normalised header changes nothing |
| ImportUsers.NormalizeIgnoresCase | physics_project/import_users.py:56-57 | texts differing only in letter case normalise alike |
| ImportUsers.NormalizeIgnoresSpaces | physics_project/import_users.py:56-57 | surrounding whitespace does not change the normalised form |
| ImportUsers.FindColFrom | physics_project/import_users.py:60-64 | the first index from i whose normalised header is wanted, or None when there is none |
| ImportUsers.FindCol | physics_project/import_users.py:60-64 | the first header whose normalised form is a normalised candidate; None iff there is none |
| ImportUsers.FindColFindsMatch | physics_project/import_users.py:60-64 | a header that normalises like a candidate is found, at its index or an earlier one |
| ImportUsers.NameOf | physics_project/import_users.py:130-132 | the name is "" when its column is absent, the row is short or the value is falsy, and it is always stripped |
| ImportUsers.Batch | physics_project/import_users.py:124-137 | at most one record per data row |
| ImportUsers.BatchShape | physics_project/import_users.py:124-137 | every record has an all-digit id and a stripped name, and is (sid, "123456", name) with `RESET_PASSWORD` and (sid, name) without it |
| ImportUsers.BatchStep | physics_project/import_users.py:124-137 | one more row appends its record, if any, at the end |
| ImportUsers.RowStep | physics_project/import_users.py:125-137 | one row gives its record or nothing; a record has an all-digit id and a stripped name |
| ImportUsers.CollectBatch | physics_project/import_users.py:121-137 | the batch is the rows' records in order, and batch size plus skipped equals the number of data rows |
| ImportUsers.Import | physics_project/import_users.py:78-141 | an empty sheet, a missing id column, nothing to import, or the batch with its skip count, each exactly when the source reaches it |
| ImportStudentsExcel.CellText | physics_project/import_students_excel.py:50 | None reads as ""; the text is stripped |
| ImportStudentsExcel.FindFrom | physics_project/import_students_excel.py:19-24 | the first index from i whose header text, stripped and lowercased, is an id header, or None |
| ImportStudentsExcel.FindStudentIdColumn | physics_project/import_students_excel.py:16-24 | the first index whose header text is one of 学号, student_id, studentid, id; None iff there is none |
| ImportStudentsExcel.Kept | physics_project/import_students_excel.py:45-53 | at most one record per row |
| ImportStudentsExcel.KeptStep | physics_project/import_students_excel.py:46-52 | one more row is skipped when empty, aborts when too short, and otherwise adds its record iff its id is all digits |
| ImportStudentsExcel.KeptShape | physics_project/import_students_excel.py:46-52 | every kept record is (all-digit id, "123456") |
| ImportStudentsExcel.RejectedIds | physics_project/import_students_excel.py:50-51 | an empty id, a blank id and "20230001.0" are rejected |
| ImportStudentsExcel.Import | physics_project/import_students_excel.py:35-61 | an empty file, a missing id column before any row, a short row aborting the whole import, nothing inserted when no row is kept, and otherwise the kept records in row order |
| ImportStudentsExcel.KeptStaysFailed | physics_project/import_students_excel.py:49 | once a row has aborted the import, no later row can save it |
| StudentCsv.Students | physics_project/student.py:32-41 | at most one record per row |
| StudentCsv.StudentsShape | physics_project/student.py:33-41 | every record has an all-digit id, a non-empty stripped name and the one shared password hash |
| StudentCsv.AcceptedIff | physics_project/student.py:35-39 | a row is kept iff it has two fields whose stripped forms are an all-digit id and a non-empty name |
| StudentCsv.Import | physics_project/student.py:26-41 | the first row is always discarded as a header, and the rest give their records in file order |

## Left out

- HTTP routes, sessions, templates, JSON responses and CSV export are not modelled. They are I/O.
- MySQL is not modelled. Query results become parameters: the template ids, the header and data rows, and the template loader.
- Redis is modelled as one single-threaded in-memory store. Network failures, atomicity and races between concurrent requests are left out, including duplicate fallback generation on an empty pool.
- Wall-clock time is an explicit counter, advanced by `ProblemPool.Store.Tick`. For the template cache it is a parameter.
- `PROBLEM_TTL_SECONDS` is fixed at its default of 900. The environment override is not modelled.
- `PROBLEM_POOL_TARGET_SIZE` and `PROBLEM_POOL_REFILL_BATCH` are not modelled, because the pool code never reads them.
- Sympy evaluation of `solution_formula`, `random.uniform` with its rounding to 2 decimals, and `uuid.uuid4` are oracles or parameters. So are the `\w` character class and `str(float)`.
- Floating point is modelled as exact reals:
  - NaN, infinities and `np.isfinite` are not modelled; every answer is finite;
  - `math.log10(|c|) > 10` is stated as `|c| > 1e10`, and `< -10` as `|c| < 1e-10`.
- Numeric.RoundTo: rounds halves upward on the exact value. Python's `round` rounds the binary float, halves to even.
- `format_scientific` is modelled only for its superscript exponent. The mantissa and the exponent are computed with floating-point `log10`, which is not modelled.
- `str.lower()` and `str.isdigit()` are modelled for ASCII letters and digits only, and `re`'s `\d` the same way. Other Unicode case mappings and digits are not modelled.
- Whitespace is the fixed table of code points that `str.isspace()` accepts.
- `answer_count` is a natural number in a template. A NULL or negative database value is not modelled.
- Generator.Generate: receives the result of `get_template` as a parameter. The cache itself is `TemplateCache.Cache.Get`.
- The `reasonable_ranges` update (`app.py` 523-528) is not modelled, because it never influences a later attempt.
- Branches that only log are not modelled. This includes the time-clamp branches that only print.
- ProblemPool.Store.Prewarm: requires distinct template ids. They come from the primary key of `problem_templates`.
- `fetch_problem_from_pool`'s second `if not raw_problem` test (173-174) is not modelled. It can never fire.
- werkzeug `secure_filename` and `file.save` are not modelled. The name given to `Uploads.UniqueFilename` is already secured, and `os.path.exists` is membership in a finite set of names.
- ImportUsers.Import: takes the header sets as parameters (the script passes `ID_HEADERS` and `NAME_HEADERS`) and `RESET_PASSWORD` as a flag.
- The SQL text chosen by `IMPORT_MODE` (skip or update) is not modelled. It does not change the batch.
- `int(float(s))` is an oracle.
- `executemany`, `commit` and `rollback` are not modelled in any script.
- ImportStudentsExcel.Import: reads the header as cell values. `main` actually passes rows read with `values_only=True` to `find_student_id_column`, which reads `cell.value`; that wiring is not modelled.
- StudentCsv.Import: takes the password hash (`generate_password_hash('123456')`) as a parameter. The rows are already split by the `csv` reader, which is not modelled.
- Grading.ClampTime: takes the time after `float(data.get('time_taken', 0))` (`app.py` 2152). A `time_taken` that does not convert aborts the submission there, as `Grading.ReadNumber` describes for the answer fields; that read is not modelled separately.
- Boolean JSON fields are not modelled. Python converts `true` and `false` to 1 and 0.
