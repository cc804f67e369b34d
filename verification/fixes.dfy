/** The repair engine: one `fix` per defect class, working on the line
    buffer of a song `.txt` file. A fix answers with the tri-state Python
    result: `None` when it left the buffer alone, `Some(true)` when it changed
    content only, and `Some(false)` when it deleted or inserted lines, which
    makes the line numbers of later log entries stale. A fix that both removes
    and inserts lines may return `Some(false)` with the count unchanged. Console answers are a list of
    lines consumed from the front, and the audio and video files found next to
    the song are an input. */
module Fixes {
  import opened Wrappers
  import opened Strings
  import opened Defects

  /** Base names of the files next to the song: those with an audio
      extension and those with a video extension. */
  datatype Folder = Folder(audio: seq<string>, video: seq<string>)

  /** What a fix leaves behind: the buffer, its result and the console lines
      not yet read. */
  datatype Outcome = Outcome(lines: seq<string>, result: Option<bool>, input: seq<string>)

  /** The promise behind the tri-state result: `None` leaves the buffer as
      it was, `True` keeps the line count, and a fix reads at most one
      console line. */
  predicate TriState(lines: seq<string>, input: seq<string>, o: Outcome) {
    && (o.result == None ==> o.lines == lines)
    && (o.result == Some(true) ==> |o.lines| == |lines|)
    && (o.input == input || (input != [] && o.input == input[1..]))
  }

  const AudioTag := "#MP3:"
  const VideoTag := "#VIDEO:"
  const BpmTag := "#BPM:"

  /** `line.upper().startswith(tag)`, compared one character at a time
      (HasTagUpper relates the two). */
  predicate HasTag(line: string, tag: string) {
    tag == [] || (line != [] && UpperChar(line[0]) == tag[0] && HasTag(line[1..], tag[1..]))
  }

  lemma {:induction false} HasTagUpper(line: string, tag: string)
    ensures HasTag(line, tag) <==> StartsWith(Upper(line), tag)
  {
    if tag != [] && line != [] {
      HasTagUpper(line[1..], tag[1..]);
      assert Upper(line)[1..] == Upper(line[1..]);
      if StartsWith(Upper(line), tag) {
        assert Upper(line)[1..][..|tag| - 1] == Upper(line)[..|tag|][1..];
      }
    }
  }

  /** A line written as the tag followed by anything carries the tag, when
      the tag has no lower-case letters. */
  lemma {:induction false} TagLineHasTag(tag: string, rest: string)
    requires forall k :: 0 <= k < |tag| ==> UpperChar(tag[k]) == tag[k]
    ensures HasTag(tag + rest, tag)
  {
    if tag != [] {
      TagLineHasTag(tag[1..], rest);
      assert (tag + rest)[1..] == tag[1..] + rest;
    }
  }

  /** Index of the first line carrying the tag, or -1: the `for i in
      range(len(lines))` searches of the fixes. */
  function FirstTag(lines: seq<string>, tag: string): (i: int)
    ensures -1 <= i < |lines|
    ensures i >= 0 ==> HasTag(lines[i], tag)
    ensures forall k :: 0 <= k < |lines| && (i < 0 || k < i) ==> !HasTag(lines[k], tag)
  {
    if lines == [] then -1
    else
      var i := FirstTag(lines[..|lines| - 1], tag);
      if i >= 0 then i
      else if HasTag(lines[|lines| - 1], tag) then |lines| - 1
      else -1
  }

  /** A Python list index: negative values count from the end; `None` where
      Python raises IndexError. */
  function PyIndex(n: int, len: nat): (i: Option<nat>)
    ensures i.Some? <==> -(len as int) <= n < len
    ensures i.Some? ==> i.value < len && (i.value as int == n || i.value as int == n + len)
  {
    if 0 <= n < len then Some(n)
    else if -(len as int) <= n < 0 then Some(n + len)
    else None
  }

  /** `lines.pop(n)` */
  function Pop(lines: seq<string>, n: int): (r: Result<seq<string>, Exception>)
    ensures r.Err? <==> PyIndex(n, |lines|).None?
    ensures r.Err? ==> r.error == IndexError
    ensures r.Ok? ==> |r.value| == |lines| - 1
    ensures r.Ok? ==>
              var i := PyIndex(n, |lines|).value;
              forall k :: 0 <= k < |r.value| ==> r.value[k] == lines[if k < i then k else k + 1]
  {
    match PyIndex(n, |lines|)
    case None => Err(IndexError)
    case Some(i) => Ok(lines[..i] + lines[i + 1..])
  }

  /** `input()`: the next console line, or EOFError when there is none. */
  function ReadLine(input: seq<string>): (r: Result<(string, seq<string>), Exception>)
    ensures r.Ok? <==> input != []
    ensures r.Ok? ==> r.value.0 == input[0] && r.value.1 == input[1..]
    ensures r.Err? ==> r.error == EOFError
  {
    if input == [] then Err(EOFError) else Ok((input[0], input[1..]))
  }

  /** The prompt both media fixes end with: a decimal answer picks a file and
      rewrites the tag line with its name, any other answer leaves the buffer
      as it is; the result is `True` either way. */
  function SelectFile(lines: seq<string>, i: nat, files: seq<string>, tag: string, input: seq<string>)
    : (r: Result<Outcome, Exception>)
    requires i < |lines|
    ensures r.Err? <==> input == [] || (IsDecimal(input[0]) && DigitsValue(input[0]) >= |files|)
    ensures r.Err? ==> r.error == (if input == [] then EOFError else IndexError)
    ensures r.Ok? ==> r.value.result == Some(true) && r.value.input == input[1..]
    ensures r.Ok? && !IsDecimal(input[0]) ==> r.value.lines == lines
    ensures r.Ok? && IsDecimal(input[0]) ==>
              r.value.lines == lines[i := tag + files[DigitsValue(input[0])] + "\n"]
    ensures r.Ok? ==> TriState(lines, input, r.value)
  {
    var answer :- ReadLine(input);
    var selection := answer.0;
    if IsDecimal(selection) then
      var n := DigitsValue(selection);
      if n < |files| then Ok(Outcome(lines[i := tag + files[n] + "\n"], Some(true), answer.1))
      else Err(IndexError)
    else Ok(Outcome(lines, Some(true), answer.1))
  }

  /** The files the audio fix offers: audio files, or video files when the
      folder holds no audio. */
  function AudioChoices(folder: Folder): seq<string> {
    if |folder.audio| > 0 then folder.audio else folder.video
  }

  /** `NoAudioError.fix`: offers the files next to the song for the first
      `#MP3:` line; does nothing without such a line or without any media. */
  function NoAudioFix(lines: seq<string>, folder: Folder, input: seq<string>): (r: Result<Outcome, Exception>)
    ensures var i := FirstTag(lines, AudioTag);
            i < 0 || AudioChoices(folder) == [] ==> r == Ok(Outcome(lines, None, input))
    ensures var i := FirstTag(lines, AudioTag);
            i >= 0 && AudioChoices(folder) != [] ==> r == SelectFile(lines, i, AudioChoices(folder), AudioTag, input)
    ensures r.Ok? ==> TriState(lines, input, r.value)
  {
    var i := FirstTag(lines, AudioTag);
    if i < 0 then Ok(Outcome(lines, None, input))
    else
      var files := AudioChoices(folder);
      if |files| > 0 then SelectFile(lines, i, files, AudioTag, input)
      else Ok(Outcome(lines, None, input))
  }

  /** `NoVideoError.fix`: offers the video files for the first `#VIDEO:`
      line; without any video the tag line is deleted, or, when removing
      missing videos is switched off, left alone. */
  function NoVideoFix(lines: seq<string>, folder: Folder, input: seq<string>, cfg: Config)
    : (r: Result<Outcome, Exception>)
    ensures var i := FirstTag(lines, VideoTag);
            i < 0 || (folder.video == [] && !cfg.removeMissingVideos) ==> r == Ok(Outcome(lines, None, input))
    ensures var i := FirstTag(lines, VideoTag);
            i >= 0 && folder.video == [] && cfg.removeMissingVideos ==>
              r == Ok(Outcome(lines[..i] + lines[i + 1..], Some(false), input))
    ensures var i := FirstTag(lines, VideoTag);
            i >= 0 && folder.video != [] ==> r == SelectFile(lines, i, folder.video, VideoTag, input)
    ensures r.Ok? ==> TriState(lines, input, r.value)
  {
    var i := FirstTag(lines, VideoTag);
    if i < 0 then Ok(Outcome(lines, None, input))
    else if |folder.video| > 0 then SelectFile(lines, i, folder.video, VideoTag, input)
    else if cfg.removeMissingVideos then Ok(Outcome(lines[..i] + lines[i + 1..], Some(false), input))
    else Ok(Outcome(lines, None, input))
  }

  /** `AudioMissingError.fix`: without an `#MP3:` line, inserts an empty one
      at the top and runs the audio fix on it, whose own result is dropped. */
  function AudioMissingFix(lines: seq<string>, folder: Folder, input: seq<string>): (r: Result<Outcome, Exception>)
    ensures FirstTag(lines, AudioTag) >= 0 ==> r == Ok(Outcome(lines, None, input))
    ensures FirstTag(lines, AudioTag) < 0 ==>
              match NoAudioFix([AudioTag + "\n"] + lines, folder, input)
              case Err(e) => r == Err(e)
              case Ok(o) => r == Ok(Outcome(o.lines, Some(false), o.input))
    ensures r.Ok? ==> TriState(lines, input, r.value)
  {
    if FirstTag(lines, AudioTag) >= 0 then Ok(Outcome(lines, None, input))
    else
      var o :- NoAudioFix([AudioTag + "\n"] + lines, folder, input);
      Ok(Outcome(o.lines, Some(false), o.input))
  }

  /** Index of the last line that strips to `E`, or -1. */
  function LastEndMarker(lines: seq<string>): (i: int)
    ensures -1 <= i < |lines|
    ensures i >= 0 ==> Strip(lines[i]) == "E"
    ensures forall k :: i < k < |lines| ==> Strip(lines[k]) != "E"
  {
    if lines == [] then -1
    else if Strip(lines[|lines| - 1]) == "E" then |lines| - 1
    else LastEndMarker(lines[..|lines| - 1])
  }

  /** `SentenceWithoutNoteError.fix`: pops the list entry at `line_number - 1`
      (a Python index, so 0 pops the last line); a log entry naming the end
      marker first looks the marker up from the back, and a negative number
      (no marker found) appends a bare `E`. */
  function SentenceWithoutNoteFix(lines: seq<string>, lineNumber: int, input: seq<string>)
    : (r: Result<Outcome, Exception>)
    ensures var target := if lineNumber == EndMarkerLine then LastEndMarker(lines) else lineNumber;
            target < 0 ==> r == Ok(Outcome(lines + ["E"], Some(false), input))
    ensures var target := if lineNumber == EndMarkerLine then LastEndMarker(lines) else lineNumber;
            target >= 0 ==>
              match Pop(lines, target - 1)
              case Err(e) => r == Err(e)
              case Ok(rest) => r == Ok(Outcome(rest, Some(false), input))
    ensures r.Ok? ==> TriState(lines, input, r.value)
  {
    var target := if lineNumber == EndMarkerLine then LastEndMarker(lines) else lineNumber;
    if target < 0 then Ok(Outcome(lines + ["E"], Some(false), input))
    else
      var rest :- Pop(lines, target - 1);
      Ok(Outcome(rest, Some(false), input))
  }

  /** For an entry naming the end marker, the fix removes the line right
      before the last `E` line; an `E` on the first line makes the Python
      index -1, which removes the last line; without any `E` line a bare `E`
      is appended. */
  lemma SentenceEndMarkerFix(lines: seq<string>, input: seq<string>)
    ensures var i := LastEndMarker(lines);
            var r := SentenceWithoutNoteFix(lines, EndMarkerLine, input);
            && (i < 0 ==> r == Ok(Outcome(lines + ["E"], Some(false), input)))
            && (i == 0 ==> r == Ok(Outcome(lines[..|lines| - 1], Some(false), input)))
            && (i >= 1 ==> r == Ok(Outcome(lines[..i - 1] + lines[i..], Some(false), input)))
  {
    var i := LastEndMarker(lines);
    var r := SentenceWithoutNoteFix(lines, EndMarkerLine, input);
    if i < 0 {
      assert r == Ok(Outcome(lines + ["E"], Some(false), input));
    } else {
      assert r == SentenceWithoutNoteFix(lines, i, input);
      SentenceNumberedFix(lines, i, input);
    }
  }

  /** For a numbered entry `n` (the log counts from 1), the fix removes line
      `n`; 0 removes the last line, a number past the end raises IndexError,
      and a negative number other than the end-marker code appends `E`. */
  lemma SentenceNumberedFix(lines: seq<string>, n: int, input: seq<string>)
    requires n != EndMarkerLine
    ensures var r := SentenceWithoutNoteFix(lines, n, input);
            && (1 <= n <= |lines| ==> r == Ok(Outcome(lines[..n - 1] + lines[n..], Some(false), input)))
            && (n == 0 && lines != [] ==> r == Ok(Outcome(lines[..|lines| - 1], Some(false), input)))
            && (n > |lines| || (n == 0 && lines == []) ==> r == Err(IndexError))
            && (n < 0 ==> r == Ok(Outcome(lines + ["E"], Some(false), input)))
  {
    if 1 <= n <= |lines| {
      var rest := Pop(lines, n - 1).value;
      assert rest == lines[..n - 1] + lines[n..];
    } else if n == 0 && lines != [] {
      var rest := Pop(lines, -1).value;
      assert rest == lines[..|lines| - 1];
    }
  }

  /** Without an `#MP3:` line the audio-missing fix puts exactly one new line
      on top and keeps every original line below it: the bare tag, or the tag
      naming one of the offered files. */
  lemma AudioMissingInserts(lines: seq<string>, folder: Folder, input: seq<string>)
    requires FirstTag(lines, AudioTag) < 0
    ensures var r := AudioMissingFix(lines, folder, input);
            r.Ok? ==>
              && |r.value.lines| == |lines| + 1
              && r.value.lines[1..] == lines
              && (r.value.lines[0] == AudioTag + "\n"
                  || exists k :: 0 <= k < |AudioChoices(folder)| && r.value.lines[0] == AudioTag + AudioChoices(folder)[k] + "\n")
  {
    var top := [AudioTag + "\n"] + lines;
    TagLineHasTag(AudioTag, "\n");
    assert top[0] == AudioTag + "\n";
    assert FirstTag(top, AudioTag) == 0;
    assert top[1..] == lines;
    var r := AudioMissingFix(lines, folder, input);
    if r.Ok? && AudioChoices(folder) != [] && IsDecimal(input[0]) {
      var k := DigitsValue(input[0]);
      assert r.value.lines == top[0 := AudioTag + AudioChoices(folder)[k] + "\n"];
      assert r.value.lines[1..] == top[1..];
    }
  }

  /** `EmptyFieldError.fix`: without prompts nothing happens; otherwise the
      value is asked for (or taken as empty when empty fields are removed),
      and the first line whose upper-cased text starts with `#` + the field
      name + `:` is deleted for an empty value or rewritten with the value. */
  function EmptyFieldFix(lines: seq<string>, field: string, input: seq<string>, cfg: Config)
    : (r: Result<Outcome, Exception>)
    ensures cfg.skipNonAuto ==> r == Ok(Outcome(lines, None, input))
    ensures !cfg.skipNonAuto && !cfg.removeEmptyFields && input == [] ==> r == Err(EOFError)
    ensures r.Ok? && !cfg.skipNonAuto ==>
              var value := if cfg.removeEmptyFields then "" else input[0];
              var rest := if cfg.removeEmptyFields then input else input[1..];
              var tag := "#" + field + ":";
              var i := FirstTag(lines, tag);
              r.value == if i < 0 then Outcome(lines, None, rest)
                         else if value == "" then Outcome(lines[..i] + lines[i + 1..], Some(false), rest)
                         else Outcome(lines[i := tag + value + "\n"], Some(true), rest)
    ensures r.Ok? ==> TriState(lines, input, r.value)
  {
    if cfg.skipNonAuto then Ok(Outcome(lines, None, input))
    else
      var answer :- if cfg.removeEmptyFields then Ok(("", input)) else ReadLine(input);
      var value := answer.0;
      var tag := "#" + field + ":";
      var i := FirstTag(lines, tag);
      if i < 0 then Ok(Outcome(lines, None, answer.1))
      else if value == "" then Ok(Outcome(lines[..i] + lines[i + 1..], Some(false), answer.1))
      else Ok(Outcome(lines[i := tag + value + "\n"], Some(true), answer.1))
  }

  /** The BPM value check: `line[5:-1].replace('.', '', 1).isdecimal()`
      accepts a value of digits with at most one decimal point. */
  predicate BpmValueValid(line: string)
    ensures BpmValueValid(line) <==> DigitsWithPoint(Slice(line, 5, -1))
  {
    DecimalAfterPoint(Slice(line, 5, -1));
    IsDecimal(RemoveFirst(Slice(line, 5, -1), '.'))
  }

  /** The state of the backward blank-line scan: the kept lines after the
      scan position, whether a line was popped, whether a `#BPM:` line was
      seen, and the index of the last invalid one seen. */
  datatype Scan = Scan(kept: seq<string>, removed: bool, foundBpm: bool, bpmLine: int)

  const ScanStart := Scan([], false, false, -1)

  /** One iteration of the scan at index `i`: a blank line is popped, which
      moves only the lines after it; a `#BPM:` line is noted, and so is its
      index when its value is not a number. */
  function ScanStep(line: string, i: nat, st: Scan): (r: Scan)
    ensures r.kept == (if Strip(line) == "" then [] else [line]) + st.kept
    ensures r.removed == (st.removed || Strip(line) == "")
    ensures r.foundBpm == (st.foundBpm || HasTag(line, BpmTag))
    ensures r.bpmLine >= 0 ==> st.bpmLine >= 0 || r.foundBpm
    ensures st.bpmLine >= -1 ==> r.bpmLine >= -1
  {
    if Strip(line) == "" then
      assert !HasTag(line, BpmTag) by {
        if HasTag(line, BpmTag) {
          TagNotBlank(line, BpmTag);
        }
      }
      st.(removed := true)
    else if HasTag(line, BpmTag) then
      Scan([line] + st.kept, st.removed, true, if BpmValueValid(line) then st.bpmLine else i)
    else st.(kept := [line] + st.kept)
  }

  /** The loop `for i in range(len(lines) - 1, -1, -1)` over the first `i`
      lines; the buffer is always `lines[..i] + st.kept`. */
  function ScanFrom(lines: seq<string>, i: nat, st: Scan): Scan
    requires i <= |lines|
    decreases i
  {
    if i == 0 then st else ScanFrom(lines, i - 1, ScanStep(lines[i - 1], i - 1, st))
  }

  /** The lines whose `strip()` is not empty, in their original order. */
  function NonBlank(lines: seq<string>): (r: seq<string>)
    ensures |r| <= |lines|
    ensures forall k :: 0 <= k < |r| ==> Strip(r[k]) != ""
  {
    if lines == [] then []
    else
      var last := lines[|lines| - 1];
      NonBlank(lines[..|lines| - 1]) + (if Strip(last) == "" then [] else [last])
  }

  /** The scan over the first `i` lines puts the non-blank ones, in order,
      in front of the kept lines, and removes a line exactly when one of them
      is blank. */
  lemma {:induction false} ScanKeeps(lines: seq<string>, i: nat, st: Scan)
    requires i <= |lines|
    ensures ScanFrom(lines, i, st).kept == NonBlank(lines[..i]) + st.kept
    ensures ScanFrom(lines, i, st).removed == (st.removed || |NonBlank(lines[..i])| < i)
    decreases i
  {
    if i > 0 {
      ScanKeeps(lines, i - 1, ScanStep(lines[i - 1], i - 1, st));
      assert lines[..i][..i - 1] == lines[..i - 1];
    }
  }

  /** The scan over the first `i` lines sees a `#BPM:` line exactly when one
      of them carries the tag. */
  lemma {:induction false} ScanFindsBpm(lines: seq<string>, i: nat, st: Scan)
    requires i <= |lines|
    ensures ScanFrom(lines, i, st).foundBpm == (st.foundBpm || FirstTag(lines[..i], BpmTag) >= 0)
    decreases i
  {
    if i > 0 {
      ScanFindsBpm(lines, i - 1, ScanStep(lines[i - 1], i - 1, st));
      assert lines[..i][..i - 1] == lines[..i - 1];
    }
  }

  /** An invalid `#BPM:` index is recorded only alongside a `#BPM:` sighting,
      and is otherwise left at -1. */
  lemma {:induction false} ScanBpmLine(lines: seq<string>, i: nat, st: Scan)
    requires i <= |lines|
    requires st.bpmLine >= -1
    ensures ScanFrom(lines, i, st).bpmLine >= 0 ==> st.bpmLine >= 0 || ScanFrom(lines, i, st).foundBpm
    ensures ScanFrom(lines, i, st).bpmLine >= -1
    ensures st.foundBpm ==> ScanFrom(lines, i, st).foundBpm
    decreases i
  {
    if i > 0 {
      ScanBpmLine(lines, i - 1, ScanStep(lines[i - 1], i - 1, st));
    }
  }

  /** A line carrying a tag that starts with a non-space is never blank. */
  lemma TagNotBlank(line: string, tag: string)
    requires HasTag(line, tag) && tag != [] && !IsSpace(tag[0])
    ensures Strip(line) != ""
  {
    StripShape(line);
    assert UpperChar(line[0]) == tag[0];
    assert !IsSpace(line[0]);
  }

  /** NonBlank keeps every line exactly when no line is blank. */
  lemma {:induction false} NonBlankAll(lines: seq<string>)
    ensures |NonBlank(lines)| == |lines| <==> forall k :: 0 <= k < |lines| ==> Strip(lines[k]) != ""
    ensures |NonBlank(lines)| == |lines| ==> NonBlank(lines) == lines
  {
    if lines != [] {
      var init := lines[..|lines| - 1];
      var last := lines[|lines| - 1];
      NonBlankAll(init);
      assert forall k :: 0 <= k < |init| ==> init[k] == lines[k];
      assert lines == init + [last];
      if Strip(last) == "" {
        assert NonBlank(lines) == NonBlank(init);
        assert |NonBlank(lines)| < |lines|;
      } else {
        assert NonBlank(lines) == NonBlank(init) + [last];
        assert |NonBlank(lines)| == |lines| <==> |NonBlank(init)| == |init|;
      }
    }
  }

  /** The state the whole scan ends in: the non-blank lines, a removal
      exactly when some line is blank, and a `#BPM:` sighting exactly when
      some line carries the tag. */
  lemma ScanAll(lines: seq<string>)
    ensures var st := ScanFrom(lines, |lines|, ScanStart);
            && st.kept == NonBlank(lines)
            && st.removed == (|NonBlank(lines)| < |lines|)
            && st.foundBpm == (FirstTag(lines, BpmTag) >= 0)
  {
    ScanKeeps(lines, |lines|, ScanStart);
    ScanFindsBpm(lines, |lines|, ScanStart);
    assert lines[..|lines|] == lines;
  }

  /** `EmptyLinesOrNoBPMError.fix` (and `StringExpectedError.fix`): pops
      every blank line, scanning from the back; when no `#BPM:` line exists
      and prompts are allowed, asks for a BPM and inserts it at the top if
      it is a decimal number with at most one `.`. The prompt-and-overwrite
      branch for an invalid `#BPM:` line is kept as the code writes it. */
  function EmptyLinesFix(lines: seq<string>, input: seq<string>, cfg: Config): (r: Result<Outcome, Exception>)
    ensures cfg.skipNonAuto || FirstTag(lines, BpmTag) >= 0 ==>
              r == Ok(Outcome(NonBlank(lines), if |NonBlank(lines)| < |lines| then Some(false) else None, input))
  {
    var st := ScanFrom(lines, |lines|, ScanStart);
    ScanAll(lines);
    var result := if st.removed then Some(false) else None;
    if st.foundBpm || cfg.skipNonAuto then Ok(Outcome(st.kept, result, input))
    else if st.bpmLine >= 0 then
      var answer :- ReadLine(input);
      if st.bpmLine < |st.kept| then
        Ok(Outcome(st.kept[st.bpmLine := BpmTag + answer.0 + "\n"], if result == None then Some(true) else result, answer.1))
      else Err(IndexError)
    else
      var answer :- ReadLine(input);
      if IsDecimal(RemoveFirst(answer.0, '.')) then Ok(Outcome([BpmTag + answer.0 + "\n"] + st.kept, Some(false), answer.1))
      else Ok(Outcome(st.kept, result, answer.1))
  }

  /** Whatever branch the blank-line fix takes, no blank line is left and
      the tri-state promise holds. */
  lemma EmptyLinesShape(lines: seq<string>, input: seq<string>, cfg: Config)
    ensures var r := EmptyLinesFix(lines, input, cfg);
            r.Ok? ==> TriState(lines, input, r.value) && forall k :: 0 <= k < |r.value.lines| ==> Strip(r.value.lines[k]) != ""
  {
    EmptyLinesTriState(lines, input, cfg);
    EmptyLinesNoBlank(lines, input, cfg);
  }

  lemma EmptyLinesTriState(lines: seq<string>, input: seq<string>, cfg: Config)
    ensures var r := EmptyLinesFix(lines, input, cfg);
            r.Ok? ==> TriState(lines, input, r.value)
  {
    ScanAll(lines);
    NonBlankAll(lines);
  }

  /** No blank line survives the fix, including the one it may insert. */
  lemma EmptyLinesNoBlank(lines: seq<string>, input: seq<string>, cfg: Config)
    ensures var r := EmptyLinesFix(lines, input, cfg);
            r.Ok? ==> forall k :: 0 <= k < |r.value.lines| ==> Strip(r.value.lines[k]) != ""
  {
    var st := ScanFrom(lines, |lines|, ScanStart);
    ScanAll(lines);
    var kept := NonBlank(lines);
    if !(st.foundBpm || cfg.skipNonAuto) && input != [] {
      var fixed := BpmTag + input[0] + "\n";
      assert Strip(fixed) != "" by {
        TagLineHasTag(BpmTag, input[0] + "\n");
        assert fixed == BpmTag + (input[0] + "\n");
        TagNotBlank(fixed, BpmTag);
      }
      if 0 <= st.bpmLine < |kept| {
        var out := kept[st.bpmLine := fixed];
        forall k | 0 <= k < |out|
          ensures Strip(out[k]) != ""
        {
          if k != st.bpmLine {
            assert out[k] == kept[k];
          }
        }
      } else if st.bpmLine < 0 {
        var out := [fixed] + kept;
        forall k | 0 <= k < |out|
          ensures Strip(out[k]) != ""
        {
          if k > 0 {
            assert out[k] == kept[k - 1];
          }
        }
      }
    }
  }

  /** Without a `#BPM:` line and with prompts allowed, the fix always asks
      for a BPM: the overwrite branch for an invalid tag never runs, so the
      only outcomes are an insertion at the top or the blank-line removal
      alone. */
  lemma EmptyLinesAsksForBpm(lines: seq<string>, input: seq<string>, cfg: Config)
    requires !cfg.skipNonAuto && FirstTag(lines, BpmTag) < 0
    ensures EmptyLinesFix(lines, input, cfg).Err? <==> input == []
    ensures input != [] && IsDecimal(RemoveFirst(input[0], '.')) ==>
              EmptyLinesFix(lines, input, cfg)
              == Ok(Outcome([BpmTag + input[0] + "\n"] + NonBlank(lines), Some(false), input[1..]))
    ensures input != [] && !IsDecimal(RemoveFirst(input[0], '.')) ==>
              EmptyLinesFix(lines, input, cfg)
              == Ok(Outcome(NonBlank(lines), if |NonBlank(lines)| < |lines| then Some(false) else None, input[1..]))
  {
    ScanAll(lines);
    BpmLineDead(lines);
  }

  /** The two-line file of `BlankReplacedByBpm`: one blank line, no `#BPM:` line. */
  lemma BlankThenText()
    ensures NonBlank(["\n", "x\n"]) == ["x\n"]
    ensures FirstTag(["\n", "x\n"], BpmTag) < 0
  {
    var lines := ["\n", "x\n"];
    assert Strip("\n") == "";
    assert Strip("x\n") == "x";
    assert lines[..1] == ["\n"];
    assert NonBlank(lines[..1]) == [];
    assert !HasTag("\n", BpmTag) && !HasTag("x\n", BpmTag);
  }

  /** A `False` from the blank-line fix need not change the count: one blank
      line goes and one `#BPM:` line comes in. */
  lemma BlankReplacedByBpm()
    ensures EmptyLinesFix(["\n", "x\n"], ["120"], ShippedConfig)
            == Ok(Outcome(["#BPM:120\n", "x\n"], Some(false), []))
  {
    var lines := ["\n", "x\n"];
    BlankThenText();
    EmptyLinesAsksForBpm(lines, ["120"], ShippedConfig);
    assert RemoveFirst("120", '.') == "120";
    assert IsDecimal("120");
    assert BpmTag + "120" + "\n" == "#BPM:120\n";
    assert [BpmTag + "120" + "\n"] + NonBlank(lines) == ["#BPM:120\n", "x\n"];
  }

  /** The scan records an invalid `#BPM:` line only after finding one, so
      inside `if not found_bpm` the index is always -1. */
  lemma BpmLineDead(lines: seq<string>)
    ensures var st := ScanFrom(lines, |lines|, ScanStart);
            !st.foundBpm ==> st.bpmLine == -1
  {
    ScanBpmLine(lines, |lines|, ScanStart);
  }

  /** `StartsWithEmptyLineError.fix`: pops the first line when it is blank. */
  function StartsWithEmptyLineFix(lines: seq<string>, input: seq<string>): (r: Result<Outcome, Exception>)
    ensures lines == [] ==> r == Err(IndexError)
    ensures lines != [] && Strip(lines[0]) == "" ==> r == Ok(Outcome(lines[1..], Some(false), input))
    ensures lines != [] && Strip(lines[0]) != "" ==> r == Ok(Outcome(lines, None, input))
    ensures r.Ok? ==> TriState(lines, input, r.value)
  {
    if lines == [] then Err(IndexError)
    else if Strip(lines[0]) == "" then Ok(Outcome(lines[1..], Some(false), input))
    else Ok(Outcome(lines, None, input))
  }

  /** The note markers the character fix recognises. */
  predicate IsNoteMarker(c: char) {
    c == '-' || c == ':' || c == 'F' || c == '*'
  }

  /** `CharacterExpectedError.fix` on the line at Python index
      `line_number - 1`: a note marker glued to a number gets a space after
      it; otherwise a line break `-` line with surrounding whitespace is
      stripped; otherwise nothing changes. */
  function CharacterExpectedFix(lines: seq<string>, lineNumber: int, input: seq<string>)
    : (r: Result<Outcome, Exception>)
    ensures r.Err? ==> r.error == IndexError
    ensures r.Err? <==> PyIndex(lineNumber - 1, |lines|).None? || lines[PyIndex(lineNumber - 1, |lines|).value] == ""
    ensures r.Ok? ==> r.value.input == input && r.value.result != Some(false) && |r.value.lines| == |lines|
    ensures r.Ok? ==> (r.value.result == None <==> r.value.lines == lines)
    ensures r.Ok? ==>
              var i := PyIndex(lineNumber - 1, |lines|).value;
              var line := lines[i];
              && (forall k :: 0 <= k < |lines| && k != i ==> r.value.lines[k] == lines[k])
              && (r.value.result == Some(true) ==>
                    r.value.lines[i] == [line[0], ' '] + line[1..] || r.value.lines[i] == Strip(line))
    ensures r.Ok? ==> TriState(lines, input, r.value)
  {
    match PyIndex(lineNumber - 1, |lines|)
    case None => Err(IndexError)
    case Some(i) =>
      var line := lines[i];
      if line == [] then Err(IndexError)
      else if IsNoteMarker(line[0]) && IsDecimal(Strip(Split(line[1..], ' ')[0])) then
        Ok(Outcome(lines[i := [line[0]] + " " + line[1..]], Some(true), input))
      else if line[0] == '-' && |line| != |Strip(line)| then
        Ok(Outcome(lines[i := Strip(line)], Some(true), input))
      else Ok(Outcome(lines, None, input))
  }

  /** `strip()` of a line, with the line break put back when the line had one. */
  function StripKeepingBreak(line: string): (t: string)
    ensures EndsWith(t, "\n") <==> EndsWith(line, "\n")
  {
    StripShape(line);
    var t := Strip(line) + (if EndsWith(line, "\n") then "\n" else "");
    assert EndsWith(line, "\n") ==> t[|t| - 1] == '\n';
    assert !EndsWith(line, "\n") && t != [] ==> t[|t| - 1] != '\n' by {
      assert IsSpace('\n');
    }
    t
  }

  /** Putting a space after the note marker keeps the line's break. */
  lemma SpacedMarkerKeepsBreak(line: string)
    requires line != [] && IsNoteMarker(line[0])
    ensures EndsWith([line[0]] + " " + line[1..], "\n") <==> EndsWith(line, "\n")
  {
    var fixed := [line[0]] + " " + line[1..];
    assert fixed[|fixed| - 1] == (if |line| == 1 then ' ' else line[|line| - 1]);
  }

  /** Replacing one line by one with the same break keeps every line's break. */
  lemma ReplaceKeepsBreaks(lines: seq<string>, i: int, x: string)
    requires 0 <= i < |lines| && (EndsWith(x, "\n") <==> EndsWith(lines[i], "\n"))
    ensures forall k :: 0 <= k < |lines| ==> (EndsWith(lines[i := x][k], "\n") <==> EndsWith(lines[k], "\n"))
  {
  }

  /** `CharacterExpectedError.fix` with the line break kept: `readlines()`
      leaves a `"\n"` on every line but possibly the last, so stripping a `-`
      line as written drops it and `writelines` glues the next line onto the
      break. The corrected fix strips the whitespace around the line's text
      and keeps the line's own break, and applies only when that changes the
      line. This is the version the driver runs. */
  function CharacterExpectedFixKeepingBreak(lines: seq<string>, lineNumber: int, input: seq<string>)
    : (r: Result<Outcome, Exception>)
    ensures r.Err? ==> r.error == IndexError
    ensures r.Err? <==> PyIndex(lineNumber - 1, |lines|).None? || lines[PyIndex(lineNumber - 1, |lines|).value] == ""
    ensures r.Ok? ==> r.value.input == input && r.value.result != Some(false) && |r.value.lines| == |lines|
    ensures r.Ok? ==> (r.value.result == None <==> r.value.lines == lines)
    ensures r.Ok? ==>
              var i := PyIndex(lineNumber - 1, |lines|).value;
              var line := lines[i];
              && (forall k :: 0 <= k < |lines| && k != i ==> r.value.lines[k] == lines[k])
              && (r.value.result == Some(true) ==>
                    r.value.lines[i] == [line[0], ' '] + line[1..] || r.value.lines[i] == StripKeepingBreak(line))
    ensures r.Ok? ==>
              forall k :: 0 <= k < |lines| ==> (EndsWith(r.value.lines[k], "\n") <==> EndsWith(lines[k], "\n"))
    ensures r.Ok? ==> TriState(lines, input, r.value)
  {
    match PyIndex(lineNumber - 1, |lines|)
    case None => Err(IndexError)
    case Some(i) =>
      var line := lines[i];
      if line == [] then Err(IndexError)
      else if IsNoteMarker(line[0]) && IsDecimal(Strip(Split(line[1..], ' ')[0])) then
        var fixed := [line[0]] + " " + line[1..];
        SpacedMarkerKeepsBreak(line);
        ReplaceKeepsBreaks(lines, i, fixed);
        Ok(Outcome(lines[i := fixed], Some(true), input))
      else if line[0] == '-' && StripKeepingBreak(line) != line then
        ReplaceKeepsBreaks(lines, i, StripKeepingBreak(line));
        Ok(Outcome(lines[i := StripKeepingBreak(line)], Some(true), input))
      else Ok(Outcome(lines, None, input))
  }

  /** As written, the fix takes the line break off a `-` line with trailing
      whitespace, so the written file joins it with the following note line;
      the corrected fix keeps the break. */
  lemma CharacterExpectedDropsBreak()
    ensures var lines := ["- 12 \n", ": 12 4 5 la\n"];
            && CharacterExpectedFix(lines, 1, []) == Ok(Outcome(["- 12", lines[1]], Some(true), []))
            && CharacterExpectedFixKeepingBreak(lines, 1, []) == Ok(Outcome(["- 12\n", lines[1]], Some(true), []))
            && EndsWith(lines[0], "\n") && !EndsWith("- 12", "\n")
  {
    var line := "- 12 \n";
    DashLineFacts();
    var lines := ["- 12 \n", ": 12 4 5 la\n"];
    assert PyIndex(0, 2) == Some(0);
    assert lines[0] == line && line != [] && line[0] == '-';
    assert lines[0 := Strip(line)] == ["- 12", lines[1]];
    assert StripKeepingBreak(line) == "- 12\n";
    assert StripKeepingBreak(line) != line by { assert |StripKeepingBreak(line)| != |line|; }
    assert lines[0 := StripKeepingBreak(line)] == ["- 12\n", lines[1]];
  }

  /** The line of `CharacterExpectedDropsBreak`: no number follows the `-`
      directly, and `strip()` takes off the trailing space and the break. */
  lemma DashLineFacts()
    ensures var line := "- 12 \n";
            && !IsDecimal(Strip(Split(line[1..], ' ')[0]))
            && Strip(line) == "- 12" && EndsWith(line, "\n")
  {
    var line := "- 12 \n";
    assert Split(line[1..], ' ')[0] == "" by {
      assert line[1..] == "" + [' '] + "12 \n";
      SplitAtSeparator("", "12 \n", ' ');
    }
    assert Strip(line) == "- 12" by {
      assert line[..|line| - 1] == "- 12 ";
      assert line[..|line| - 1][..4] == "- 12";
    }
  }

  /** The corrected fix differs from the fix as written only on a target
      line that ends in a line break. */
  lemma CharacterExpectedAgreesWithoutBreak(lines: seq<string>, lineNumber: int, input: seq<string>)
    ensures var j := PyIndex(lineNumber - 1, |lines|);
            !(j.Some? && EndsWith(lines[j.value], "\n")) ==>
              CharacterExpectedFixKeepingBreak(lines, lineNumber, input) == CharacterExpectedFix(lines, lineNumber, input)
  {
    var j := PyIndex(lineNumber - 1, |lines|);
    if j.Some? && !EndsWith(lines[j.value], "\n") {
      var line := lines[j.value];
      assert StripKeepingBreak(line) == Strip(line);
      StripSameLength(line);
    }
  }

  /** `ZeroLengthNoteError.fix`: token 0 of the space-split line becomes `F`
      and token 2 becomes `1`; a line with fewer than three tokens raises. */
  function ZeroLengthNoteFix(lines: seq<string>, lineNumber: int, input: seq<string>)
    : (r: Result<Outcome, Exception>)
    ensures r.Err? ==> r.error == IndexError
    ensures r.Err? <==> PyIndex(lineNumber - 1, |lines|).None? || |Split(lines[PyIndex(lineNumber - 1, |lines|).value], ' ')| < 3
    ensures r.Ok? ==> r.value.input == input && r.value.result == Some(true) && |r.value.lines| == |lines|
    ensures r.Ok? ==>
              var i := PyIndex(lineNumber - 1, |lines|).value;
              forall k :: 0 <= k < |lines| && k != i ==> r.value.lines[k] == lines[k]
    ensures r.Ok? ==> TriState(lines, input, r.value)
  {
    match PyIndex(lineNumber - 1, |lines|)
    case None => Err(IndexError)
    case Some(i) =>
      var parts := Split(lines[i], ' ');
      if |parts| < 3 then Err(IndexError)
      else Ok(Outcome(lines[i := Join(parts[0 := "F"][2 := "1"], ' ')], Some(true), input))
  }

  /** The rewritten note line splits into as many tokens as before, with
      `F` first, `1` third and every other token unchanged. */
  lemma ZeroLengthNoteTokens(lines: seq<string>, lineNumber: int, input: seq<string>)
    requires ZeroLengthNoteFix(lines, lineNumber, input).Ok?
    ensures var i := PyIndex(lineNumber - 1, |lines|).value;
            var before := Split(lines[i], ' ');
            var after := Split(ZeroLengthNoteFix(lines, lineNumber, input).value.lines[i], ' ');
            && |after| == |before|
            && after[0] == "F" && after[2] == "1"
            && forall k :: 0 <= k < |before| && k != 0 && k != 2 ==> after[k] == before[k]
  {
    var i := PyIndex(lineNumber - 1, |lines|).value;
    var parts := Split(lines[i], ' ');
    var fixed := parts[0 := "F"][2 := "1"];
    assert forall k :: 0 <= k < |fixed| ==> ' ' !in fixed[k];
    SplitJoin(fixed, ' ');
  }

  /** How each fix moves the line count. `None` and `True` keep it
      (TriState). A deleting or inserting fix that returns `False` moved it by
      exactly one line. The blank-line fix returns `False` when it removed a
      blank line or inserted a `#BPM:` line, so its count may fall by any
      number, stay put or grow by one. The note-level and media-selection fixes
      never return `False`. */
  lemma FixLineCount(d: Defect, lines: seq<string>, folder: Folder, input: seq<string>, cfg: Config)
    ensures var r := Fix(d, lines, folder, input, cfg);
            r.Ok? && r.value.result == Some(false) ==>
              && (d.NoVideoError? || d.EmptyFieldError? || d.StartsWithEmptyLineError? ==> |r.value.lines| == |lines| - 1)
              && (d.AudioMissingError? ==> |r.value.lines| == |lines| + 1)
              && (d.SentenceWithoutNoteError? ==> |r.value.lines| == |lines| - 1 || |r.value.lines| == |lines| + 1)
              && (d.EmptyLinesOrNoBPMError? || d.StringExpectedError? ==> |r.value.lines| <= |lines| + 1)
    ensures var r := Fix(d, lines, folder, input, cfg);
            r.Ok? && (d.NoAudioError? || d.CharacterExpectedError? || d.ZeroLengthNoteError?) ==>
              r.value.result != Some(false) && |r.value.lines| == |lines|
  {
    match d
    case AudioMissingError =>
      if FirstTag(lines, AudioTag) < 0 {
        AudioMissingInserts(lines, folder, input);
      }
    case EmptyLinesOrNoBPMError =>
      ScanAll(lines);
      BpmLineDead(lines);
    case StringExpectedError(_) =>
      ScanAll(lines);
      BpmLineDead(lines);
    case _ =>
  }

  /** `error.fix(lines, path)` for every defect class. The classes that
      cannot be fixed keep the base class's `fix`, which does nothing. */
  function Fix(d: Defect, lines: seq<string>, folder: Folder, input: seq<string>, cfg: Config)
    : (r: Result<Outcome, Exception>)
    ensures WontFix(d, cfg) ==> r == Ok(Outcome(lines, None, input))
    ensures r.Ok? ==> TriState(lines, input, r.value)
  {
    match d
    case NoAudioError => NoAudioFix(lines, folder, input)
    case NoVideoError => NoVideoFix(lines, folder, input, cfg)
    case AudioMissingError => AudioMissingFix(lines, folder, input)
    case SentenceWithoutNoteError(n) => SentenceWithoutNoteFix(lines, n, input)
    case EmptyFieldError(field) => EmptyFieldFix(lines, field, input, cfg)
    case EmptyLinesOrNoBPMError => EmptyLinesShape(lines, input, cfg); EmptyLinesFix(lines, input, cfg)
    case StartsWithEmptyLineError => StartsWithEmptyLineFix(lines, input)
    case CharacterExpectedError(n) => CharacterExpectedFixKeepingBreak(lines, n, input)
    case ZeroLengthNoteError(n) => ZeroLengthNoteFix(lines, n, input)
    case StringExpectedError(_) => EmptyLinesShape(lines, input, cfg); EmptyLinesFix(lines, input, cfg)
    case _ => Ok(Outcome(lines, None, input))
  }
}
