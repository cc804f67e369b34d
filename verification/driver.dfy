/** The second half of `main()`: for every file name the log mentions, find
    the song file, run the fixes of its defects in log order, and write the
    buffer back when any fix reported a change. The disk is a value: the
    recursive glob's answers, the folders' media files and the file contents
    are inputs, and the run returns the contents it leaves behind. */
module Driver {
  import opened Wrappers
  import opened Defects
  import opened Extract
  import opened Fixes

  /** A song file as read: its lines, and whether the Windows-1252 read
      failed so that the system encoding was used (and is used again for
      the write). */
  datatype TextFile = TextFile(lines: seq<string>, systemEncoding: bool)

  /** What the directory searches answer: the paths the recursive glob finds
      for a file name, and the media next to each path. */
  datatype Library = Library(matches: map<string, seq<string>>, folders: map<string, Folder>)

  function Matches(lib: Library, name: string): seq<string> {
    if name in lib.matches then lib.matches[name] else []
  }

  function FolderOf(lib: Library, path: string): Folder {
    if path in lib.folders then lib.folders[path] else Folder([], [])
  }

  /** The `NoVideoError` skip: unless videos are handled for songs without
      audio, a video defect is passed over when the same file also has an
      audio defect. */
  predicate Suppressed(d: Defect, group: seq<Defect>, cfg: Config) {
    && !cfg.handleVideoIfAudioMissing
    && d.NoVideoError?
    && exists e :: e in group && (e.NoAudioError? || e.AudioMissingError?)
  }

  /** One fix that ran: the defect's position in the file's list and what it returned. */
  datatype Step = Step(index: nat, result: Option<bool>)

  /** The fix loop's outcome: the buffer, the fixes that ran, `any_fixes_applied`
      and the console lines left. */
  datatype Pass = Pass(lines: seq<string>, steps: seq<Step>, applied: bool, input: seq<string>)

  /** The loop stopped at a fix that returned `False`. */
  predicate Halted(steps: seq<Step>) {
    steps != [] && steps[|steps| - 1].result == Some(false)
  }

  /** The list position after the last defect the loop considered. */
  function Stop(steps: seq<Step>, n: nat): nat {
    if Halted(steps) then steps[|steps| - 1].index + 1 else n
  }

  function Indices(steps: seq<Step>): (ix: seq<nat>)
    ensures |ix| == |steps| && forall k :: 0 <= k < |steps| ==> ix[k] == steps[k].index
  {
    seq(|steps|, k requires 0 <= k < |steps| => steps[k].index)
  }

  /** The positions in `[i, end)` whose defect is not suppressed, in order:
      the fixes an uninterrupted loop runs. */
  function Runnable(group: seq<Defect>, cfg: Config, i: nat, end: nat): seq<nat>
    requires i <= end <= |group|
    decreases end - i
  {
    if i == end then []
    else (if Suppressed(group[i], group, cfg) then [] else [i]) + Runnable(group, cfg, i + 1, end)
  }

  /** The console lines left are a suffix of those given. */
  predicate Consumed(input: seq<string>, rest: seq<string>) {
    |rest| <= |input| && rest == input[|input| - |rest|..]
  }

  /** `error.fix(txt_lines, txt_files[0])` with the file's folder and the
      flags fixed: a defect, the buffer and the console lines to an outcome. */
  type Fixer = (Defect, seq<string>, seq<string>) -> Result<Outcome, Exception>

  /** Every fix keeps the buffer for `None`, its length for `True`, and reads
      at most one console line. */
  ghost predicate WellBehaved(fixer: Fixer) {
    forall d, lines, input :: fixer(d, lines, input).Ok? ==> TriState(lines, input, fixer(d, lines, input).value)
  }

  /** The fixes of one song file, which is well behaved. */
  function FixerFor(folder: Folder, cfg: Config): (fixer: Fixer)
    ensures forall d, lines, input :: fixer(d, lines, input) == Fix(d, lines, folder, input, cfg)
    ensures WellBehaved(fixer)
  {
    (d, lines, input) => Fix(d, lines, folder, input, cfg)
  }

  /** The `for error in error_map[txt]` loop from position `i`: the fixes run
      in list order, suppressed video defects are skipped, and the first
      `False` ends the loop. LoopVisits, LoopHaltsAtFirstFalse, LoopApplied
      and LoopKeepsLength state what the loop does. */
  function FixLoop(group: seq<Defect>, i: nat, lines: seq<string>, input: seq<string>, fixer: Fixer, cfg: Config)
    : (r: Result<Pass, Exception>)
    requires i <= |group|
    ensures r.Ok? ==> forall k :: 0 <= k < |r.value.steps| ==> i <= r.value.steps[k].index < |group|
    decreases |group| - i
  {
    if i == |group| then Ok(Pass(lines, [], false, input))
    else if Suppressed(group[i], group, cfg) then FixLoop(group, i + 1, lines, input, fixer, cfg)
    else
      var o :- fixer(group[i], lines, input);
      if o.result == Some(false) then Ok(Pass(o.lines, [Step(i, o.result)], true, o.input))
      else
        var rest :- FixLoop(group, i + 1, o.lines, o.input, fixer, cfg);
        Ok(Pass(rest.lines, [Step(i, o.result)] + rest.steps, o.result.Some? || rest.applied, rest.input))
  }

  /** The fixes that run are exactly the unsuppressed defects from `i` up to
      where the loop stopped, in list order. */
  lemma {:induction false} LoopVisits(group: seq<Defect>, i: nat, lines: seq<string>, input: seq<string>,
                                      fixer: Fixer, cfg: Config)
    requires i <= |group|
    ensures var r := FixLoop(group, i, lines, input, fixer, cfg);
            r.Ok? ==> Indices(r.value.steps) == Runnable(group, cfg, i, Stop(r.value.steps, |group|))
    decreases |group| - i
  {
    if i < |group| {
      if Suppressed(group[i], group, cfg) {
        LoopVisits(group, i + 1, lines, input, fixer, cfg);
      } else {
        var o := fixer(group[i], lines, input);
        if o.Ok? && o.value.result != Some(false) {
          LoopVisits(group, i + 1, o.value.lines, o.value.input, fixer, cfg);
          var rest := FixLoop(group, i + 1, o.value.lines, o.value.input, fixer, cfg);
          if rest.Ok? {
            VisitsCons(group, cfg, i, Step(i, o.value.result), rest.value.steps);
          }
        }
      }
    }
  }

  /** A fix that ran without returning `False`, followed by the fixes of the
      rest of the loop, is the runnable list from its own position. */
  lemma VisitsCons(group: seq<Defect>, cfg: Config, i: nat, s: Step, rest: seq<Step>)
    requires i < |group| && s.index == i && !Suppressed(group[i], group, cfg) && s.result != Some(false)
    requires forall k :: 0 <= k < |rest| ==> i + 1 <= rest[k].index < |group|
    requires Indices(rest) == Runnable(group, cfg, i + 1, Stop(rest, |group|))
    ensures Indices([s] + rest) == Runnable(group, cfg, i, Stop([s] + rest, |group|))
  {
    var steps := [s] + rest;
    assert Stop(steps, |group|) == Stop(rest, |group|);
    assert Indices(steps) == [i] + Indices(rest);
  }

  /** Only the last fix that ran may have returned `False`: the loop never
      continues past one. */
  lemma {:induction false} LoopHaltsAtFirstFalse(group: seq<Defect>, i: nat, lines: seq<string>, input: seq<string>,
                                                 fixer: Fixer, cfg: Config)
    requires i <= |group|
    ensures var r := FixLoop(group, i, lines, input, fixer, cfg);
            r.Ok? ==> forall k :: 0 <= k < |r.value.steps| - 1 ==> r.value.steps[k].result != Some(false)
    decreases |group| - i
  {
    if i < |group| {
      if Suppressed(group[i], group, cfg) {
        LoopHaltsAtFirstFalse(group, i + 1, lines, input, fixer, cfg);
      } else {
        var o := fixer(group[i], lines, input);
        if o.Ok? && o.value.result != Some(false) {
          LoopHaltsAtFirstFalse(group, i + 1, o.value.lines, o.value.input, fixer, cfg);
          var rest := FixLoop(group, i + 1, o.value.lines, o.value.input, fixer, cfg);
          if rest.Ok? {
            var steps := [Step(i, o.value.result)] + rest.value.steps;
            assert forall k :: 1 <= k < |steps| ==> steps[k] == rest.value.steps[k - 1];
          }
        }
      }
    }
  }

  /** `any_fixes_applied` is set exactly when some fix returned a value other than `None`. */
  lemma {:induction false} LoopApplied(group: seq<Defect>, i: nat, lines: seq<string>, input: seq<string>,
                                       fixer: Fixer, cfg: Config)
    requires i <= |group|
    ensures var r := FixLoop(group, i, lines, input, fixer, cfg);
            r.Ok? ==> (r.value.applied <==> exists k :: 0 <= k < |r.value.steps| && r.value.steps[k].result.Some?)
    decreases |group| - i
  {
    if i < |group| {
      if Suppressed(group[i], group, cfg) {
        LoopApplied(group, i + 1, lines, input, fixer, cfg);
      } else {
        var o := fixer(group[i], lines, input);
        if o.Ok? && o.value.result != Some(false) {
          LoopApplied(group, i + 1, o.value.lines, o.value.input, fixer, cfg);
          var rest := FixLoop(group, i + 1, o.value.lines, o.value.input, fixer, cfg);
          if rest.Ok? {
            var steps := [Step(i, o.value.result)] + rest.value.steps;
            assert FixLoop(group, i, lines, input, fixer, cfg)
                == Ok(Pass(rest.value.lines, steps, o.value.result.Some? || rest.value.applied, rest.value.input));
            assert steps[0].result == o.value.result;
            if rest.value.applied {
              var k :| 0 <= k < |rest.value.steps| && rest.value.steps[k].result.Some?;
              assert steps[k + 1] == rest.value.steps[k];
            }
            if exists k :: 0 <= k < |steps| && steps[k].result.Some? {
              var k :| 0 <= k < |steps| && steps[k].result.Some?;
              if k > 0 {
                assert steps[k] == rest.value.steps[k - 1];
              }
            }
          }
        } else if o.Ok? {
          var r := FixLoop(group, i, lines, input, fixer, cfg);
          assert r == Ok(Pass(o.value.lines, [Step(i, Some(false))], true, o.value.input));
          assert r.value.steps[0].result.Some?;
        }
      }
    }
  }

  /** With well-behaved fixes, a loop that ran to the end without a `False`
      leaves the buffer with as many lines as it had, so the log's line
      numbers still fit it. */
  lemma {:induction false} LoopKeepsLength(group: seq<Defect>, i: nat, lines: seq<string>, input: seq<string>,
                                           fixer: Fixer, cfg: Config)
    requires i <= |group| && WellBehaved(fixer)
    ensures var r := FixLoop(group, i, lines, input, fixer, cfg);
            r.Ok? && !Halted(r.value.steps) ==> |r.value.lines| == |lines|
    decreases |group| - i
  {
    if i < |group| {
      if Suppressed(group[i], group, cfg) {
        LoopKeepsLength(group, i + 1, lines, input, fixer, cfg);
      } else {
        var o := fixer(group[i], lines, input);
        if o.Ok? && o.value.result != Some(false) {
          assert TriState(lines, input, o.value);
          assert o.value.result.None? || o.value.result.value;
          LoopKeepsLength(group, i + 1, o.value.lines, o.value.input, fixer, cfg);
          var rest := FixLoop(group, i + 1, o.value.lines, o.value.input, fixer, cfg);
          if rest.Ok? {
            var steps := [Step(i, o.value.result)] + rest.value.steps;
            assert FixLoop(group, i, lines, input, fixer, cfg)
                == Ok(Pass(rest.value.lines, steps, o.value.result.Some? || rest.value.applied, rest.value.input));
            assert Halted(steps) == Halted(rest.value.steps);

          }
        }
      }
    }
  }

  /** With well-behaved fixes the loop reads console lines front to back. */
  lemma {:induction false} LoopReadsInOrder(group: seq<Defect>, i: nat, lines: seq<string>, input: seq<string>,
                                            fixer: Fixer, cfg: Config)
    requires i <= |group| && WellBehaved(fixer)
    ensures var r := FixLoop(group, i, lines, input, fixer, cfg);
            r.Ok? ==> Consumed(input, r.value.input)
    decreases |group| - i
  {
    if i < |group| {
      if Suppressed(group[i], group, cfg) {
        LoopReadsInOrder(group, i + 1, lines, input, fixer, cfg);
      } else {
        var o := fixer(group[i], lines, input);
        if o.Ok? {
          assert TriState(lines, input, o.value);
          if o.value.result != Some(false) {
            LoopReadsInOrder(group, i + 1, o.value.lines, o.value.input, fixer, cfg);
            var rest := FixLoop(group, i + 1, o.value.lines, o.value.input, fixer, cfg);
            if rest.Ok? {
              ConsumedTrans(input, o.value.input, rest.value.input);
            }
          }
        }
      }
    }
  }

  lemma ConsumedTrans(a: seq<string>, b: seq<string>, c: seq<string>)
    requires Consumed(a, b) && Consumed(b, c)
    ensures Consumed(a, c)
  {
    assert c == b[|b| - |c|..] == a[|a| - |b|..][|b| - |c|..];
  }

  /** What happened to one file name. */
  datatype Status =
    | SkippedUnfixable  // every defect has `wont_fix`
    | NotUnique         // the glob found several files
    | NotFound          // the glob found no file
    | DryRun            // found, but nothing is read in a dry run
    | Empty             // the file has no lines
    | Unchanged         // no fix reported a change
    | Written           // the buffer was written back

  predicate AllWontFix(group: seq<Defect>, cfg: Config) {
    forall k :: 0 <= k < |group| ==> WontFix(group[k], cfg)
  }

  datatype Visit = Visit(status: Status, files: map<string, TextFile>, input: seq<string>)

  /** One iteration of `for txt in error_map.keys()`. A path the glob found
      but that cannot be opened raises FileNotFoundError. */
  function ProcessName(name: string, group: seq<Defect>, lib: Library, files: map<string, TextFile>,
                       input: seq<string>, cfg: Config): (r: Result<Visit, Exception>)
    ensures r.Ok? ==> (r.value.status == SkippedUnfixable <==> AllWontFix(group, cfg))
    ensures r.Ok? && !AllWontFix(group, cfg) ==>
              && (r.value.status == NotUnique <==> |Matches(lib, name)| > 1)
              && (r.value.status == NotFound <==> |Matches(lib, name)| == 0)
              && (|Matches(lib, name)| == 1 ==> (r.value.status == DryRun <==> cfg.dryRun))
    ensures r.Ok? && r.value.status != Written ==> r.value.files == files
    ensures r.Ok? && r.value.status == Written ==>
              && !cfg.dryRun && !AllWontFix(group, cfg)
              && |Matches(lib, name)| == 1
              && var path := Matches(lib, name)[0];
                 && path in files && files[path].lines != []
                 && r.value.files.Keys == files.Keys
                 && r.value.files[path].systemEncoding == files[path].systemEncoding
                 && forall p :: p in files && p != path ==> r.value.files[p] == files[p]
    ensures r.Ok? && r.value.status in {SkippedUnfixable, NotUnique, NotFound, DryRun, Empty} ==> r.value.input == input
    ensures r.Ok? ==> Consumed(input, r.value.input)
    ensures cfg.dryRun ==> r.Ok? && r.value.status != Written && r.value.files == files && r.value.input == input
    ensures r.Err? ==> !AllWontFix(group, cfg) && |Matches(lib, name)| == 1 && !cfg.dryRun
    ensures r.Err? && Matches(lib, name)[0] !in files ==> r.error == FileNotFoundError
  {
    if AllWontFix(group, cfg) then Ok(Visit(SkippedUnfixable, files, input))
    else
      var paths := Matches(lib, name);
      if |paths| > 1 then Ok(Visit(NotUnique, files, input))
      else if |paths| == 0 then Ok(Visit(NotFound, files, input))
      else if cfg.dryRun then Ok(Visit(DryRun, files, input))
      else
        var path := paths[0];
        if path !in files then Err(FileNotFoundError)
        else
          var file := files[path];
          if file.lines == [] then Ok(Visit(Empty, files, input))
          else
            var fixer := FixerFor(FolderOf(lib, path), cfg);
            LoopReadsInOrder(group, 0, file.lines, input, fixer, cfg);
            var pass :- FixLoop(group, 0, file.lines, input, fixer, cfg);
            if pass.applied then
              Ok(Visit(Written, files[path := TextFile(pass.lines, file.systemEncoding)], pass.input))
            else Ok(Visit(Unchanged, files, pass.input))
  }

  /** Past the gates, an empty file is reported and left alone; otherwise the
      file is written exactly when the loop set `any_fixes_applied`, with the
      loop's buffer and the encoding it was read with. */
  lemma VisitWritesIffApplied(name: string, group: seq<Defect>, lib: Library, files: map<string, TextFile>,
                              input: seq<string>, cfg: Config)
    requires !AllWontFix(group, cfg) && |Matches(lib, name)| == 1 && !cfg.dryRun
    requires Matches(lib, name)[0] in files
    ensures var path := Matches(lib, name)[0];
            var file := files[path];
            var r := ProcessName(name, group, lib, files, input, cfg);
            && (file.lines == [] ==> r == Ok(Visit(Empty, files, input)))
            && (file.lines != [] ==>
                  match FixLoop(group, 0, file.lines, input, FixerFor(FolderOf(lib, path), cfg), cfg)
                  case Err(e) => r == Err(e)
                  case Ok(pass) =>
                    && r.Ok? && (r.value.status == Written <==> pass.applied)
                    && (pass.applied ==> r.value.files[path] == TextFile(pass.lines, file.systemEncoding)))
  {
  }

  /** The number of files written. */
  function CountWritten(statuses: seq<Status>): nat {
    if statuses == [] then 0
    else (if statuses[0] == Written then 1 else 0) + CountWritten(statuses[1..])
  }

  /** The state after the loop over the file names: one status per name
      handled, the file contents, `fix_counter`, the exception that ended the
      run early if any, and the console lines left. */
  datatype Report = Report(statuses: seq<Status>, files: map<string, TextFile>, fixCounter: nat,
                           failure: Option<Exception>, input: seq<string>)

  /** `for txt in error_map.keys()` from the `k`-th name on. An exception
      ends the run; files written before it stay written. */
  function RunFrom(g: Groups, k: nat, lib: Library, files: map<string, TextFile>, input: seq<string>,
                   counter: nat, cfg: Config): (r: Report)
    requires ValidGroups(g) && k <= |g.names|
    ensures r.fixCounter == counter + CountWritten(r.statuses)
    ensures r.failure.None? <==> |r.statuses| == |g.names| - k
    ensures |r.statuses| <= |g.names| - k
    ensures r.files.Keys == files.Keys
    decreases |g.names| - k
  {
    if k == |g.names| then Report([], files, counter, None, input)
    else
      var name := g.names[k];
      match ProcessName(name, g.defects[name], lib, files, input, cfg)
      case Err(e) => Report([], files, counter, Some(e), input)
      case Ok(v) =>
        var next := if v.status == Written then counter + 1 else counter;
        var rest := RunFrom(g, k + 1, lib, v.files, v.input, next, cfg);
        var statuses := [v.status] + rest.statuses;
        assert statuses[1..] == rest.statuses;
        Report(statuses, rest.files, rest.fixCounter, rest.failure, rest.input)
  }

  /** Every file keeps the encoding it was read with, written or not. */
  lemma {:induction false} RunKeepsEncodings(g: Groups, k: nat, lib: Library, files: map<string, TextFile>,
                                             input: seq<string>, counter: nat, cfg: Config)
    requires ValidGroups(g) && k <= |g.names|
    ensures var r := RunFrom(g, k, lib, files, input, counter, cfg);
            forall p :: p in files ==> r.files[p].systemEncoding == files[p].systemEncoding
    decreases |g.names| - k
  {
    if k < |g.names| {
      var name := g.names[k];
      var v := ProcessName(name, g.defects[name], lib, files, input, cfg);
      if v.Ok? {
        var next := if v.value.status == Written then counter + 1 else counter;
        RunKeepsEncodings(g, k + 1, lib, v.value.files, v.value.input, next, cfg);
        VisitKeepsEncodings(name, g.defects[name], lib, files, input, cfg);
        var rest := RunFrom(g, k + 1, lib, v.value.files, v.value.input, next, cfg);
        assert RunFrom(g, k, lib, files, input, counter, cfg).files == rest.files;
      }
    }
  }

  lemma VisitKeepsEncodings(name: string, group: seq<Defect>, lib: Library, files: map<string, TextFile>,
                            input: seq<string>, cfg: Config)
    ensures var v := ProcessName(name, group, lib, files, input, cfg);
            v.Ok? ==> forall p :: p in files ==> p in v.value.files && v.value.files[p].systemEncoding == files[p].systemEncoding
  {
  }

  /** A dry run reads and writes nothing: no file changes, nothing is asked
      on the console and the counter stays put. */
  lemma {:induction false} DryRunChangesNothing(g: Groups, k: nat, lib: Library, files: map<string, TextFile>,
                                                input: seq<string>, counter: nat, cfg: Config)
    requires ValidGroups(g) && k <= |g.names| && cfg.dryRun
    ensures var r := RunFrom(g, k, lib, files, input, counter, cfg);
            r.files == files && r.input == input && r.fixCounter == counter && r.failure.None?
    decreases |g.names| - k
  {
    if k < |g.names| {
      var name := g.names[k];
      var v := ProcessName(name, g.defects[name], lib, files, input, cfg);
      assert v == Ok(Visit(v.value.status, files, input)) && v.value.status != Written;
      DryRunChangesNothing(g, k + 1, lib, files, input, counter, cfg);
      var rest := RunFrom(g, k + 1, lib, files, input, counter, cfg);
      assert RunFrom(g, k, lib, files, input, counter, cfg)
          == Report([v.value.status] + rest.statuses, rest.files, rest.fixCounter, rest.failure, rest.input);
    }
  }

  /** A file's content changes only when it is the single glob match of a
      name with at least one fixable defect. */
  lemma {:induction false} OnlyUniqueMatchesChange(g: Groups, k: nat, lib: Library, files: map<string, TextFile>,
                                                   input: seq<string>, counter: nat, cfg: Config, p: string)
    requires ValidGroups(g) && k <= |g.names|
    ensures p in files && RunFrom(g, k, lib, files, input, counter, cfg).files[p] != files[p] ==>
              exists j :: k <= j < |g.names| && Matches(lib, g.names[j]) == [p] && !AllWontFix(g.defects[g.names[j]], cfg)
    decreases |g.names| - k
  {
    if p in files && RunFrom(g, k, lib, files, input, counter, cfg).files[p] != files[p] {
      OnlyUniqueMatchesChanged(g, k, lib, files, input, counter, cfg, p);
    }
  }

  lemma {:induction false} OnlyUniqueMatchesChanged(g: Groups, k: nat, lib: Library, files: map<string, TextFile>,
                                                    input: seq<string>, counter: nat, cfg: Config, p: string)
    requires ValidGroups(g) && k <= |g.names| && p in files
    requires RunFrom(g, k, lib, files, input, counter, cfg).files[p] != files[p]
    ensures exists j :: k <= j < |g.names| && Matches(lib, g.names[j]) == [p] && !AllWontFix(g.defects[g.names[j]], cfg)
    decreases |g.names| - k
  {
    if k == |g.names| {
      assert false;
    } else {
      var name := g.names[k];
      var v := ProcessName(name, g.defects[name], lib, files, input, cfg);
      if v.Err? {
        assert false;
      } else {
        var next := if v.value.status == Written then counter + 1 else counter;
        var rest := RunFrom(g, k + 1, lib, v.value.files, v.value.input, next, cfg);
        assert RunFrom(g, k, lib, files, input, counter, cfg).files == rest.files;
        if rest.files[p] != v.value.files[p] {
          OnlyUniqueMatchesChanged(g, k + 1, lib, v.value.files, v.value.input, next, cfg, p);
        } else {
          VisitChangesOnlyMatch(name, g.defects[name], lib, files, input, cfg, p);
        }
      }
    }
  }

  /** One name's visit changes no file other than its single glob match. */
  lemma VisitChangesOnlyMatch(name: string, group: seq<Defect>, lib: Library, files: map<string, TextFile>,
                              input: seq<string>, cfg: Config, p: string)
    requires p in files
    requires var v := ProcessName(name, group, lib, files, input, cfg);
             v.Ok? && p in v.value.files && v.value.files[p] != files[p]
    ensures Matches(lib, name) == [p] && !AllWontFix(group, cfg)
  {
    var v := ProcessName(name, group, lib, files, input, cfg);
    assert v.value.status == Written;
    assert p == Matches(lib, name)[0];
  }

  /** The two numbers `main()` prints after extraction, and the run's report. */
  datatype Summary = Summary(uniqueNames: nat, errorCount: nat, report: Report)

  /** `main()` on the log's lines (each without its final character, which
      the log reader strips): extraction, grouping by file name, then the
      run with `fix_counter` starting at 0. A line whose line number `int()`
      rejects aborts everything before any file is touched. */
  function Repair(log: seq<string>, lib: Library, files: map<string, TextFile>, input: seq<string>, cfg: Config)
    : (r: Result<Summary, Exception>)
    ensures r.Err? <==> exists k :: 0 <= k < |log| && Classify(log[k]).Err?
    ensures r.Ok? ==> r.value.errorCount == CountTxt(log)
    ensures r.Ok? ==> r.value.report.fixCounter == CountWritten(r.value.report.statuses)
    ensures r.Ok? ==> r.value.report.files.Keys == files.Keys
  {
    var entries :- ClassifyAll(log);
    ErrorCount(log);
    var g := Group(entries);
    Ok(Summary(|g.names|, |entries|, RunFrom(g, 0, lib, files, input, 0, cfg)))
  }

  /** The file names the log's `.txt` lines mention. */
  function Mentioned(log: seq<string>): set<string> {
    set k | 0 <= k < |log| && TxtEnd(log[k]) >= 0 :: TxtName(log[k], TxtEnd(log[k]))
  }

  /** The printed count of unique names is the number of distinct file names
      the log's `.txt` lines mention. */
  lemma UniqueNames(log: seq<string>, lib: Library, files: map<string, TextFile>, input: seq<string>, cfg: Config)
    requires Parses(log)
    ensures Repair(log, lib, files, input, cfg).value.uniqueNames == |Mentioned(log)|
  {
    var entries := ClassifyAll(log).value;
    var g := Group(entries);
    DistinctCard(g.names);
    GroupNamesMentioned(log);
  }

  lemma GroupNamesMentioned(log: seq<string>)
    requires Parses(log)
    ensures (set n | n in Group(ClassifyAll(log).value).names) == Mentioned(log)
  {
    var entries := ClassifyAll(log).value;
    var g := Group(entries);
    forall n | n in Mentioned(log)
      ensures n in g.names
    {
      MentionedIsGrouped(log, n);
    }
    forall n | n in g.names
      ensures n in Mentioned(log)
    {
      GroupedIsMentioned(log, n);
    }
  }

  lemma MentionedIsGrouped(log: seq<string>, n: string)
    requires Parses(log) && n in Mentioned(log)
    ensures n in Names(ClassifyAll(log).value)
  {
    var k := MentionedAt(log, n);
    var e := LineHasEntry(log, k);
    EntryNamed(ClassifyAll(log).value, e);
  }

  /** A line naming a `.txt` file yields an entry of the extraction. */
  lemma LineHasEntry(log: seq<string>, k: nat) returns (e: Entry)
    requires Parses(log) && k < |log| && TxtEnd(log[k]) >= 0
    ensures Classify(log[k]) == Ok(Some(e))
    ensures e.name == TxtName(log[k], TxtEnd(log[k]))
    ensures ClassifyAll(log).Ok? && e in ClassifyAll(log).value
  {
    assert Classify(log[k]).Ok?;
    e := Classify(log[k]).value.value;
  }

  /** A mentioned name comes from some line of the log. */
  lemma MentionedAt(log: seq<string>, n: string) returns (k: nat)
    requires n in Mentioned(log)
    ensures k < |log| && TxtEnd(log[k]) >= 0 && TxtName(log[k], TxtEnd(log[k])) == n
  {
    k :| 0 <= k < |log| && TxtEnd(log[k]) >= 0 && TxtName(log[k], TxtEnd(log[k])) == n;
  }

  lemma EntryNamed(entries: seq<Entry>, e: Entry)
    requires e in entries
    ensures e.name in Names(entries)
  {
    var i :| 0 <= i < |entries| && entries[i] == e;
    assert Names(entries)[i] == e.name;
  }

  lemma GroupedIsMentioned(log: seq<string>, n: string)
    requires Parses(log) && n in Names(ClassifyAll(log).value)
    ensures n in Mentioned(log)
  {
    var entries := ClassifyAll(log).value;
    var i :| 0 <= i < |Names(entries)| && Names(entries)[i] == n;
    var k :| 0 <= k < |log| && Classify(log[k]) == Ok(Some(entries[i]));
    assert TxtEnd(log[k]) >= 0;
  }

  /** A sequence without repetitions has as many distinct elements as entries. */
  lemma {:induction false} DistinctCard(xs: seq<string>)
    requires forall i, j :: 0 <= i < j < |xs| ==> xs[i] != xs[j]
    ensures |set x | x in xs| == |xs|
  {
    if xs != [] {
      var init := xs[..|xs| - 1];
      DistinctCard(init);
      assert (set x | x in xs) == (set x | x in init) + {xs[|xs| - 1]};
    }
  }

  /** A dry run of the whole tool changes no file and writes nothing. */
  lemma DryRunRepair(log: seq<string>, lib: Library, files: map<string, TextFile>, input: seq<string>, cfg: Config)
    requires cfg.dryRun && Parses(log)
    ensures var report := Repair(log, lib, files, input, cfg).value.report;
            report.files == files && report.fixCounter == 0 && report.failure.None?
  {
    var g := Group(ClassifyAll(log).value);
    DryRunChangesNothing(g, 0, lib, files, input, 0, cfg);
  }
}
