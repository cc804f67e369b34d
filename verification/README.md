# UltraStar song repair engine, modelled in Dafny

This project models `main.py` of ultrafix-deluxe. The tool reads the error log of the UltraStar Deluxe
karaoke application and repairs the song `.txt` files that the log blames. The model covers its three parts:

- **Extraction** (module `Extract`, with the log-line parsers in `Defects`). Every log line that
  mentions a `.txt` file (matched case-insensitively) becomes one defect. The defect is filed under the
  file name cut out of the line. A chain of independent prefix/suffix tests picks the defect class, so
  the last test that passes wins. Six classes read data out of the line with `find`/`rfind`: five of
  them a line number, the empty-field class a field name. A number that `int()` rejects raises
  `ValueError` and ends the run.
- **The fixes** (module `Fixes`). There is one function per defect class. Each takes the file's
  lines and returns the edited lines plus a tri-state result:
  - `None`: the lines are untouched.
  - `True`: the content changed, but the line count did not.
  - `False`: a line was inserted or removed, so the log's line numbers are now stale.

  Console answers to `input()` are passed in as a list of lines. The media files found next to the
  song are passed in as a `Folder`.
- **The driver** (module `Driver`). For each file name, in order of first appearance, it:
  1. skips the file when every defect is `wont_fix`;
  2. looks the file up;
  3. proceeds only on exactly one match;
  4. stops in a dry run or on an empty file;
  5. runs the fixes in log order and stops after the first `False`. Unless `handle_video_if_audio_missing`
     is set, it skips a video defect when the file also has an audio defect;
  6. writes the buffer back, with the encoding it was read with, when any fix reported a change.

`Strings` holds the Python string built-ins the code relies on: `strip`, `upper`/`lower`,
`find`/`rfind` with Python's slice rules, slicing, `split`/`join`, `replace(c, '', 1)`, `isdecimal`
and `int()`. `Glob` models `glob_make_case_insensitive`. `Wrappers` holds `Option`, `Result` and the
Python exceptions the code can raise (`ValueError`, `IndexError`, `EOFError`, `FileNotFoundError`).

The model follows the code in these cases:

- The empty-field fix removes the tag line when the value is *empty* and rewrites it otherwise.
- An invalid `#BPM:` value is never overwritten. The branch that would do so is unreachable:
  `EmptyLinesAsksForBpm` and `BpmLineDead` prove this.
- A line number that does not parse raises `ValueError`. It does not fall back to `UnknownError`.
- The character fix strips *both* ends of a `-` line. As written it also strips the line's break; the
  driver runs a corrected version that keeps each line's own break and otherwise agrees with the code
  (see "## Findings").
- For the end-marker entry, the sentence fix removes the line *before* the last `E` line. When `E` is
  the first line, it removes the last line instead, because Python reads index -1 from the end.
- A new `#BPM:` line is inserted only when the answer, with one `.` removed, is decimal.

## Model

| member | source | states |
|---|---|---|
| `Glob.MakeCaseInsensitive` | main.py:48-49 | the glob is never shorter than the pattern |
| `Glob.ParseCaseInsensitive` | main.py:48-49 | the generated glob reads back as one atom per pattern character: a two-case class for a letter, a literal otherwise |
| `Glob.CaseInsensitiveGlobMatches` | main.py:48-49 | for a wildcard-free extension, the generated glob matches exactly the names equal to it up to ASCII letter case |
| `Strings.StripShape` | main.py:209 | `strip()` is empty exactly for all-whitespace lines; a non-empty result neither starts nor ends with whitespace |
| `Strings.FindFirst` | main.py:140 | `find` returns the first occurrence within the normalised slice bounds: no occurrence lies before it, and none at all when it returns -1 |
| `Strings.RFindLast` | main.py:141 | `rfind` returns the last occurrence within the normalised slice bounds |
| `Strings.Normalize` | main.py:259-261 | a slice bound inside the string is kept; a negative one counts from the end; one past the end becomes the length and one before the start becomes 0, so `line[filename_end + 10:number_end]` never fails |
| `Strings.Slice` | main.py:284 | Python slicing: the result is the text between the two normalised bounds, and crossed bounds give the empty string |
| `Strings.IsDecimal` | main.py:83 | `isdecimal()`: a string of decimal digits, and false for the empty string; `Strings.ParseDecimal` gives its value |
| `Strings.Upper` | main.py:68 | `upper()` keeps the length, maps each character through its ASCII upper case, and leaves no lower-case ASCII letter |
| `Strings.Lower` | main.py:345 | the case folding behind `re.IGNORECASE`: same length, each character lower-cased, no upper-case ASCII letter left |
| `Strings.StartsWith` | main.py:353-372 | `startswith`: the string is the prefix followed by the rest |
| `Strings.EndsWith` | main.py:373-380 | `endswith`: the string is the rest followed by the suffix |
| `Strings.ParseIntStrips` | main.py:146 | `int()` ignores surrounding whitespace |
| `Strings.ParseShowInt` | main.py:146 | `int()` reads back every integer's decimal rendering |
| `Strings.ParseDecimal` | main.py:83 | after `isdecimal()`, `int()` succeeds and yields the digits' value |
| `Strings.SplitJoin` | main.py:291-294 | splitting a space-joined list of space-free tokens gives the tokens back |
| `Strings.JoinSplit` | main.py:291-294 | joining the split of a line gives the line back |
| `Strings.RemoveFirst` | main.py:214 | `replace('.', '', 1)` changes nothing when the character is absent; otherwise it removes exactly its first occurrence, keeping everything before and after |
| `Strings.DecimalAfterPoint` | main.py:214 | `replace('.', '', 1).isdecimal()` accepts exactly the strings of digits and at most one `.` that hold at least one digit |
| `Strings.Strip` | main.py:209 | `strip()` never lengthens a string; `StripShape` and `StripSlice` state what it keeps |
| `Strings.StripSameLength` | main.py:275 | `len(line) != len(line.strip())` holds exactly when `strip()` changes the line |
| `Strings.StripSlice` | main.py:209 | `strip()` returns a slice of the line, and everything cut off either end is whitespace |
| `Strings.Find` | main.py:140 | `find` returns -1 or a position inside the normalised bounds where the text occurs; `FindFirst` adds that it is the first |
| `Strings.RFind` | main.py:141 | `rfind` returns -1 or a position inside the normalised bounds where the text occurs; `RFindLast` adds that it is the last |
| `Strings.Split` | main.py:291 | `split(" ")` yields at least one part and no part holds the separator; `JoinSplit` and `SplitJoin` relate it to `join` |
| `Strings.Join` | main.py:294 | `" ".join` is the inverse of `split(" ")`, as `JoinSplit` and `SplitJoin` state |
| `Strings.ParseInt` | main.py:146 | `int()`: `ParseIntStrips` shows it ignores surrounding whitespace, `ParseDecimal` that it reads digit runs, `ParseShowInt` that it reads back every rendered integer |
| `Defects.SentenceLineNumber` | main.py:142-146 | the token `E` becomes the end-marker code -1; any other token is `int()` of it, and an unparsable one raises ValueError |
| `Defects.NewNumbered` | main.py:136-146 | a numbered constructor yields a defect of the requested class, and its only failure is ValueError |
| `Defects.SentenceNumberExtraction` | main.py:140-146 | the sentence line number is the token between the last space before the second `:` and that `:` |
| `Defects.SentenceNumberPosition` | main.py:140-142 | given the two colons and the space, the sliced token is exactly `line[space+1:colon2]` |
| `Defects.WontFix` | main.py:23-321 | `wont_fix`: true for the classes that keep the base class's value, false for the fixable ones, `skip_non_auto` for an empty field; `Fixes.Fix` proves an unfixable defect's fix changes nothing |
| `Defects.NewEmptyField` | main.py:166-172 | the empty-field constructor; `FieldNameExtraction` states that its name is the text between the first two `"` |
| `Defects.FieldNameExtraction` | main.py:170-172 | the empty field's name is the text between the first two `"` |
| `Defects.CharacterExpectedNumberExtraction` | main.py:259-261 | the number starts 10 characters after the second `"` and ends at the next `:`; the constructor raises exactly when `int()` rejects that text |
| `Defects.ZeroLengthNumberExtraction` | main.py:284 | the number lies between the last `"` + 10 and the last `:`; the constructor raises exactly when `int()` rejects that text |
| `Defects.InLineNumberExtraction` | main.py:306-322 | Integer/String expected: the number lies between the last `in line ` + 8 and the last `,` |
| `Extract.Recognises` | main.py:353-381 | the prefix or suffix test of each class; `LastMatching` and `ApplyChain` state that the last passing test decides |
| `Extract.LastMatching` | main.py:353-381 | picks the last test in the chain that the line passes; no later test passes |
| `Extract.Build` | main.py:353-381 | a constructed defect has the requested class; only the five line-parsing classes can raise |
| `Extract.ApplyChain` | main.py:350-381 | unless it raises, the defect is the one the last passing test's constructor builds from the line, or the starting defect (`UnknownError`) when no test passes |
| `Extract.ApplyChainRaises` | main.py:350-381 | the chain raises exactly when some passing test's constructor raises |
| `Extract.TxtEnd` | main.py:344-348 | -1 exactly when the line holds no `.txt` in any letter case; otherwise a position of `.txt` with none after it |
| `Extract.TxtStart` | main.py:351-363 | the position holds a `/` or `"` (or is -1) with neither between it and `.txt`; on a sentence line it is a `/`, the start, or just past a `:` from position 10 on, with no `/` in between |
| `Extract.TxtStartSentence` | main.py:361-363 | on a sentence line the name starts at the later of the last `/` before `.txt` and one past the first `:` in `[10, txt_end)`, and at 0 when neither exists |
| `Extract.TxtStartPlain` | main.py:351 | on any other line it is the later of the last `/` and the last `"` before `.txt`, or -1 |
| `Extract.TxtName` | main.py:382 | the extracted name has no `/` and ends in `txt`; outside sentence lines it ends in `.txt` and has no `"` |
| `Extract.NameShape` | main.py:382 | the slice between those boundaries has that shape |
| `Extract.Classify` | main.py:343-382 | a line without `.txt` adds nothing; otherwise it yields one entry named by the sliced name, whose defect is the one the last passing test builds from the line, or `UnknownError` when no test passes |
| `Extract.ClassifyRaises` | main.py:343-381 | a line raises exactly when it names a `.txt` and a passing test's constructor rejects its number |
| `Extract.Collect` | main.py:343-388 | the loop aborts on the first raising line; otherwise it keeps exactly the produced entries, one per `.txt` line |
| `Extract.ClassifyAll` | main.py:343-388 | the extraction raises exactly when some line raises; otherwise its entries are exactly those the lines classify to |
| `Extract.ClassifyAppends` | main.py:343-388 | each further log line appends its own entry at the end, or nothing when it names no `.txt` |
| `Extract.ErrorCount` | main.py:388 | `error_count` equals the number of log lines naming a `.txt` |
| `Extract.Group` | main.py:384-387 | the keys are distinct and are exactly the names seen; each name's list holds its defects in log order |
| `Extract.GroupOrder` | main.py:384-385 | the keys are ordered by each name's first appearance in the log |
| `Fixes.HasTagUpper` | main.py:68 | the character-wise tag test agrees with `line.upper().startswith(tag)` |
| `Fixes.FirstTag` | main.py:67-68 | the index of the first line carrying the tag; no earlier line carries it, and none at all when the result is -1 |
| `Fixes.PyIndex` | main.py:162 | a Python list index: valid exactly in `[-len, len)`, and negative values count from the end |
| `Fixes.Pop` | main.py:162 | `pop` raises IndexError exactly for an invalid index; otherwise it removes that one element and shifts the rest |
| `Fixes.ReadLine` | main.py:81 | `input()` consumes the next console line, or raises EOFError when none is left |
| `Fixes.SelectFile` | main.py:80-85 | always `True` unless it raises; a decimal answer rewrites the tag line with the chosen file, and any other answer keeps the lines; an out-of-range number raises IndexError |
| `Fixes.NoAudioFix` | main.py:66-85 | without an `#MP3:` line or without any media: `None`; otherwise the prompt on the first `#MP3:` line, offering audio files or else videos |
| `Fixes.NoVideoFix` | main.py:97-115 | without a `#VIDEO:` line: `None`; without videos, the first tag line is deleted (`False`) when removal is on, otherwise `None`; with videos, the prompt |
| `Fixes.AudioMissingFix` | main.py:127-133 | with an `#MP3:` line: `None`; otherwise it inserts the tag and runs the audio fix, whose result is dropped, and returns `False` |
| `Fixes.AudioMissingInserts` | main.py:127-133 | without an `#MP3:` line, exactly one line is added on top and all original lines follow; the new line is the bare tag or the tag naming one offered file |
| `Fixes.LastEndMarker` | main.py:153-157 | the index of the last line that strips to `E`, or -1; no later line strips to `E` |
| `Fixes.SentenceWithoutNoteFix` | main.py:152-163 | with no target: appends `E`; otherwise it pops Python index `target - 1` or raises IndexError; the result is always `False` |
| `Fixes.SentenceEndMarkerFix` | main.py:153-163 | end-marker entry: removes the line right before the last `E`; the last line when `E` is first; appends `E` when there is no `E` |
| `Fixes.SentenceNumberedFix` | main.py:158-163 | numbered entry `n`: removes log line `n`; 0 removes the last line; past the end raises IndexError; a negative number appends `E` |
| `Fixes.EmptyFieldFix` | main.py:178-191 | skipped without prompts; otherwise the value is read (EOFError without input) and the first `#FIELD:` line is deleted for an empty value or rewritten with it |
| `Fixes.BpmValueValid` | main.py:214 | a `#BPM:` value counts as valid exactly when it is digits with at most one `.` and at least one digit |
| `Fixes.ScanStep` | main.py:208-215 | one backward step: a blank line is dropped and marks a removal, any other line is kept in front; a `#BPM:` line sets `found_bpm`; an index is recorded only once `found_bpm` is set |
| `Fixes.ScanFrom` | main.py:208-215 | the backward loop; `ScanKeeps`, `ScanFindsBpm` and `ScanBpmLine` state what it leaves behind |
| `Fixes.NonBlank` | main.py:209-211 | the kept lines: none of them is blank, and there are no more than before |
| `Fixes.ScanKeeps` | main.py:208-211 | the backward scan keeps exactly the non-blank lines in their original order, and reports a removal exactly when a line was blank |
| `Fixes.ScanFindsBpm` | main.py:212-213 | `found_bpm` is set exactly when some line carries `#BPM:` |
| `Fixes.ScanBpmLine` | main.py:212-215 | `bpm_line` is only ever set together with `found_bpm` |
| `Fixes.ScanAll` | main.py:205-215 | the whole scan ends with the non-blank lines, removal iff some line was blank, and `found_bpm` iff a `#BPM:` line exists |
| `Fixes.NonBlankAll` | main.py:209-211 | the filter keeps every line exactly when no line is blank |
| `Fixes.EmptyLinesFix` | main.py:204-229 | when a `#BPM:` line exists or prompts are off: the non-blank lines, with `False` iff something was removed and `None` otherwise |
| `Fixes.EmptyLinesShape` | main.py:204-229 | on every branch, no blank line is left and the tri-state promise holds |
| `Fixes.EmptyLinesTriState` | main.py:204-229 | `None` leaves the lines as they were, and at most one console line is read |
| `Fixes.EmptyLinesNoBlank` | main.py:204-228 | no blank line survives, including an inserted `#BPM:` line |
| `Fixes.EmptyLinesAsksForBpm` | main.py:216-228 | without a `#BPM:` line, with prompts on: EOFError without input; a decimal answer inserts `#BPM:answer` on top (`False`); any other answer only removes blanks |
| `Fixes.BlankReplacedByBpm` | main.py:204-228 | a `False` from the blank-line fix may leave the count unchanged: one blank line removed, one `#BPM:` line inserted |
| `Fixes.BpmLineDead` | main.py:212-224 | inside `if not found_bpm`, `bpm_line` is always -1, so the overwrite branch never runs |
| `Fixes.StartsWithEmptyLineFix` | main.py:249-252 | pops the first line only when it is blank (`False`), otherwise `None`; an empty buffer raises IndexError |
| `Fixes.CharacterExpectedFix` | main.py:269-277 | as written: only line `line_number - 1` may change, and the count never does; it becomes `marker + " " + rest` or its `strip()` with `True`, or stays with `None`; an empty or missing line raises IndexError |
| `Fixes.CharacterExpectedFixKeepingBreak` | main.py:269-277 | the corrected fix the driver runs: the same contract, except that a stripped line keeps its own line break (a line without one gains none), so every line ends in a line break exactly when it did before |
| `Fixes.CharacterExpectedAgreesWithoutBreak` | main.py:269-277 | the corrected fix returns exactly what the fix as written returns unless the target line ends in a line break |
| `Fixes.CharacterExpectedDropsBreak` | main.py:274-276 | on `["- 12 \n", ...]` the fix as written returns `"- 12"`, losing the line break; the corrected fix returns `"- 12\n"` |
| `Fixes.ZeroLengthNoteFix` | main.py:290-295 | only line `line_number - 1` changes, the count is kept, and the result is `True`; fewer than three tokens or a missing line raises IndexError |
| `Fixes.ZeroLengthNoteTokens` | main.py:290-295 | the rewritten line has as many space-separated tokens as before, with token 0 `F`, token 2 `1`, and all others unchanged |
| `Fixes.FixLineCount` | main.py:97-295 | a `False` from a deleting or inserting fix moved the count by exactly one; after the blank-line fix the count grows by at most one; the media-selection and note fixes never return `False` and keep the count |
| `Fixes.Fix` | main.py:21-29 | a `wont_fix` defect's fix does nothing; every fix keeps the lines for `None`, the count for `True`, and reads at most one console line; a character defect runs the corrected fix, as admitted under "## Left out" |
| `Driver.FixerFor` | main.py:422 | the per-file fixer is `Fixes.Fix` (each class's `fix`, with the corrected character fix), and every fix keeps the tri-state promise |
| `Driver.FixLoop` | main.py:417-429 | every fix that runs is one of the file's defects from the current position on |
| `Driver.Suppressed` | main.py:419-421 | a video defect is skipped, unless `handle_video_if_audio_missing` is set, when the file also has an audio defect; `LoopVisits` states that exactly the unskipped defects run |
| `Driver.LoopVisits` | main.py:418-429 | the fixes that run are exactly the unsuppressed defects, in log order, up to and including the first `False` |
| `Driver.LoopHaltsAtFirstFalse` | main.py:423-429 | no fix runs after one that returned `False` |
| `Driver.LoopApplied` | main.py:417-424 | `any_fixes_applied` holds exactly when some fix that ran returned non-`None` |
| `Driver.LoopKeepsLength` | main.py:418-429 | a loop that finished without `False` leaves the buffer with its original line count |
| `Driver.LoopReadsInOrder` | main.py:422 | the loop consumes console lines front to back |
| `Driver.ProcessName` | main.py:392-437 | unfixable groups are skipped; several or no matches are reported untouched; a dry run touches nothing; only a write changes a file, and it changes only the single match, keeping its encoding |
| `Driver.VisitWritesIffApplied` | main.py:414-437 | past the gates, an empty file is left alone; otherwise the file is written, with the loop's buffer, exactly when `any_fixes_applied` holds |
| `Driver.VisitChangesOnlyMatch` | main.py:394-437 | a visit changes no file other than the single match of a group with a fixable defect |
| `Driver.RunFrom` | main.py:392-437 | `fix_counter` counts the files written; an exception ends the run early; the set of files never changes |
| `Driver.RunKeepsEncodings` | main.py:404-434 | every file keeps the encoding it was read with, whether written or not |
| `Driver.DryRunChangesNothing` | main.py:402-403 | in a dry run no file changes, nothing is read from the console, and the counter stays put |
| `Driver.OnlyUniqueMatchesChange` | main.py:394-401 | a file changes only if it is the single glob match of some group with a fixable defect |
| `Driver.Repair` | main.py:332-438 | extraction raises exactly when some log line raises; the printed error count is the number of `.txt` lines; `fix_counter` counts the writes; an exception from a fix ends the run and is recorded in `report.failure` |
| `Driver.UniqueNames` | main.py:390 | the printed count of unique names is the number of distinct file names the log mentions |
| `Driver.GroupNamesMentioned` | main.py:382-387 | the grouped names are exactly the names cut from the log's `.txt` lines |
| `Driver.DryRunRepair` | main.py:402-403 | a dry run of the whole tool changes no file and writes nothing |

## Left out

- Reading the log file (main.py:336-338). The model starts from the log's lines with their final
  character already removed.
- `print` output, the `__str__`/`__repr__` texts and the prompts' wording. Only the answers to `input()`
  are modelled, as a list of console lines.
- `glob_extensions` and the recursive `glob.glob` (main.py:52-54, 396). Their results are inputs:
  - `Folder` holds the base names of the audio and video files;
  - `Library.matches` holds the paths found for each name.

  OS glob semantics are not modelled. `Glob` proves only what `glob_make_case_insensitive` produces.
- File I/O and encodings (main.py:404-413, 430-436). A file is its lines plus the flag saying whether
  it was read with the system encoding, and a write reuses that flag. Which decode fails is not modelled.
  A path the glob reported but the disk map lacks raises FileNotFoundError.
- Unicode:
  - `upper`, `lower`, `isalpha`, `isdecimal` and the digits `int()` accepts are modelled for ASCII only;
  - `strip` uses Python's full whitespace set;
  - `re.IGNORECASE` on `.txt` is modelled as ASCII lower-casing, which matches Python for this pattern.
- The `self.line_number = i` update in the sentence fix (main.py:157). It would matter only if the same
  defect object were fixed twice, which the driver never does.
- `Driver.Repair`: an exception raised by a fix (EOFError, IndexError, FileNotFoundError) escapes `main()`
  in Python. The model ends the run at that file instead, keeps the files written before it, and records
  the exception in `report.failure`; only an extraction ValueError makes `Repair` itself return an error.
- The empty-field tag test compares the upper-cased line with the field name exactly as the log spells
  it (main.py:185). This is modelled as written, so a lower-case field name never matches.
- `Driver.FixLoop`: its contract only bounds the positions that ran. What the loop does is stated by
  `LoopVisits`, `LoopHaltsAtFirstFalse`, `LoopApplied`, `LoopKeepsLength` and `LoopReadsInOrder`,
  which keeps each proof small.
- `Driver.LoopKeepsLength`: stated for any fixer that keeps the tri-state promise. `FixerFor` proves
  that the tool's fixes do.
- `Glob.MakeCaseInsensitive`: its own contract states only the length bound. What the glob matches is
  stated by `Glob.CaseInsensitiveGlobMatches`.
- `Fixes.NonBlank`: its contract states only that no blank line is kept. `Fixes.ScanKeeps` and
  `Fixes.NonBlankAll` relate it to the scan.
- `Fixes.EmptyLinesFix`: its own contract covers the runs that ask nothing, i.e. a `#BPM:` line exists
  or prompts are off. The prompting branch is stated by `Fixes.EmptyLinesAsksForBpm`.
- `Fixes.Fix`: for a character defect it runs `CharacterExpectedFixKeepingBreak`, not the fix as written
  (see "## Findings"), and so do `Driver.FixerFor`, `ProcessName`, `RunFrom` and `Repair`. The two agree
  unless the target line ends in a line break (`CharacterExpectedAgreesWithoutBreak`). On such a line
  the model keeps the break where the code drops it. When the break is the line's only surrounding
  whitespace, the model leaves the line alone (`None`, so the file may go unwritten) where the code
  strips it.
- `Fixes.CharacterExpectedFix`: states which two rewrites of the line are possible, not which test
  (note marker plus decimal token, or `-` plus surrounding whitespace) picks each.
- `Fixes.CharacterExpectedFixKeepingBreak`: like the fix as written, it states which two rewrites are
  possible, not which test picks each.

## Findings

| source | as written | input that shows it | evidently intended | confidence | as-written member | corrected member |
|---|---|---|---|---|---|---|
| main.py:274-276 | a `-` line whose length differs from its `strip()` is replaced by its `strip()`. `readlines()` leaves a `"\n"` on every line but possibly the last, so the length test holds for every `-` line that ends in one, and the strip removes the line break; `writelines` then joins the line with the next one | line `"- 12 \n"` followed by `": 12 4 5 la\n"`, defect on line 1: the file is written as `"- 12: 12 4 5 la\n"` | strip the whitespace around the line's text and keep the line's own break (the comment at main.py:265-266 says only the whitespace goes) | high, not executed | `Fixes.CharacterExpectedDropsBreak` (on `Fixes.CharacterExpectedFix`) | `Fixes.CharacterExpectedFixKeepingBreak`, run by `Fixes.Fix` |
