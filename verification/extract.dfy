/** The log extractor: picks the `.txt` file a log line is about, classifies
    the line into a defect by the fixed wording the karaoke application logs,
    and groups the defects by file name in log order. */
module Extract {
  import opened Wrappers
  import opened Strings
  import opened Defects

  // The fixed wording of each log message the chain recognises.
  const NoAudioPrefix := "ERROR:  Can't find audio file in song"
  const NoVideoPrefix := "ERROR:  Can't find video file in song"
  const AudioMissingPrefix := "ERROR:  MP3 tag/file missing"
  const GeneralPrefix := "ERROR:  AnalyseFile failed for"
  const SentencePrefix := "ERROR:  Error loading Song, sentence w/o note found"
  const EmptyFieldPrefix := "INFO:   Empty field"
  const EmptyLinesPrefix := "ERROR:  File contains empty lines or BPM tag missing"
  const NoLinebreaksPrefix := "ERROR:  Error loading file: Can't find any linebreaks"
  const StartsWithEmptyLinePrefix := "ERROR:  File starts with empty line"
  const NoNotesPrefix := "ERROR:  Could not load txt File, no notes found"
  const CharacterExpectedSuffix := "[TSong.ParseLyricCharParam]"
  const ZeroLengthSuffix := "found note with length zero -> converted to FreeStyle [TSong.LoadSong]"
  const IntegerExpectedSuffix := "Integer expected"
  const StringExpectedSuffix := "String expected"

  /** The chain of independent tests, in the order the source runs them. */
  const Chain: seq<Kind> := [
    NoAudio, NoVideo, AudioMissing, General, SentenceWithoutNote, EmptyField, EmptyLinesOrNoBPM,
    NoLinebreaks, StartsWithEmptyLine, NoNotes, CharacterExpected, ZeroLengthNote, IntegerExpected,
    StringExpected]

  /** The test of a kind: the first ten look at how the line starts, the last
      four at how it ends; nothing recognises an unknown error. */
  predicate Recognises(kind: Kind, line: string) {
    match kind
    case Unknown => false
    case NoAudio => StartsWith(line, NoAudioPrefix)
    case NoVideo => StartsWith(line, NoVideoPrefix)
    case AudioMissing => StartsWith(line, AudioMissingPrefix)
    case General => StartsWith(line, GeneralPrefix)
    case SentenceWithoutNote => StartsWith(line, SentencePrefix)
    case EmptyField => StartsWith(line, EmptyFieldPrefix)
    case EmptyLinesOrNoBPM => StartsWith(line, EmptyLinesPrefix)
    case NoLinebreaks => StartsWith(line, NoLinebreaksPrefix)
    case StartsWithEmptyLine => StartsWith(line, StartsWithEmptyLinePrefix)
    case NoNotes => StartsWith(line, NoNotesPrefix)
    case CharacterExpected => EndsWith(line, CharacterExpectedSuffix)
    case ZeroLengthNote => EndsWith(line, ZeroLengthSuffix)
    case IntegerExpected => EndsWith(line, IntegerExpectedSuffix)
    case StringExpected => EndsWith(line, StringExpectedSuffix)
  }

  /** Constructs the defect of a kind from its log line; only the kinds that
      parse a line number can raise. */
  function Build(kind: Kind, line: string): (r: Result<Defect, Exception>)
    ensures r.Ok? ==> KindOf(r.value) == kind
    ensures r.Err? ==> NumberedKind(kind)
  {
    if NumberedKind(kind) then NewNumbered(kind, line)
    else if kind == EmptyField then Ok(NewEmptyField(line))
    else Ok(Plain(kind))
  }

  /** Index of the last rule whose test passes, or -1. */
  function LastMatching(kinds: seq<Kind>, line: string): (j: int)
    ensures -1 <= j < |kinds|
    ensures j >= 0 ==> Recognises(kinds[j], line)
    ensures forall k :: j < k < |kinds| ==> !Recognises(kinds[k], line)
  {
    if kinds == [] then -1
    else if Recognises(kinds[|kinds| - 1], line) then |kinds| - 1
    else LastMatching(kinds[..|kinds| - 1], line)
  }

  /** Runs the chain of tests: every passing test constructs its defect, which
      replaces the one before, so the last passing test decides the kind; the
      first constructor that raises stops the chain. */
  function ApplyChain(kinds: seq<Kind>, line: string, current: Defect): (r: Result<Defect, Exception>)
    ensures r.Ok? ==>
              var j := LastMatching(kinds, line);
              if j < 0 then r.value == current else Build(kinds[j], line) == Ok(r.value)
    ensures r.Ok? ==>
              var j := LastMatching(kinds, line);
              KindOf(r.value) == if j < 0 then KindOf(current) else kinds[j]
  {
    if kinds == [] then Ok(current)
    else
      LastMatchingTail(kinds, line);
      if Recognises(kinds[0], line) then
        var d :- Build(kinds[0], line);
        ApplyChain(kinds[1..], line, d)
      else ApplyChain(kinds[1..], line, current)
  }

  /** How the last passing test of a chain relates to that of its tail. */
  lemma {:induction false} LastMatchingTail(kinds: seq<Kind>, line: string)
    requires kinds != []
    ensures var j := LastMatching(kinds, line);
            var t := LastMatching(kinds[1..], line);
            && (t >= 0 ==> j == t + 1)
            && (t < 0 && Recognises(kinds[0], line) ==> j == 0)
            && (t < 0 && !Recognises(kinds[0], line) ==> j == -1)
  {
    assert forall k :: 1 <= k < |kinds| ==> kinds[k] == kinds[1..][k - 1];
  }

  /** The chain raises exactly when some passing test's constructor raises. */
  lemma {:induction false} ApplyChainRaises(kinds: seq<Kind>, line: string, current: Defect)
    ensures ApplyChain(kinds, line, current).Err? <==>
              exists k :: 0 <= k < |kinds| && Recognises(kinds[k], line) && Build(kinds[k], line).Err?
  {
    if kinds != [] {
      var b := Build(kinds[0], line);
      if Recognises(kinds[0], line) && b.Ok? {
        ApplyChainRaises(kinds[1..], line, b.value);
      } else if !Recognises(kinds[0], line) {
        ApplyChainRaises(kinds[1..], line, current);
      }
      assert forall k :: 1 <= k < |kinds| ==> kinds[k] == kinds[1..][k - 1];
    }
  }

  /** The kind the chain settles on: the last passing test's, else Unknown. */
  function ExpectedKind(line: string): Kind {
    var j := LastMatching(Chain, line);
    if j < 0 then Unknown else Chain[j]
  }

  /** A defect and the file name the log line blames. */
  datatype Entry = Entry(name: string, defect: Defect)

  /** Start of the last case-insensitive `.txt` in the line, or -1. The
      pattern cannot overlap itself, so the last match of a left-to-right
      scan is the last occurrence. */
  function TxtEnd(line: string): (i: int)
    ensures -1 <= i
    ensures i >= 0 ==> i + 4 <= |line| && Lower(line)[i..i + 4] == ".txt"
    ensures i == -1 <==> forall k :: 0 <= k ==> !OccursAt(Lower(line), ".txt", k)
    ensures forall k :: i < k ==> !OccursAt(Lower(line), ".txt", k)
  {
    var i := RFind(Lower(line), ".txt", 0, |line|);
    RFindLast(Lower(line), ".txt", 0, |line|);
    assert forall k :: OccursAt(Lower(line), ".txt", k) ==> k + 4 <= |line|;
    i
  }

  /** The position just before the file name: the last `/` or double quote
      before the `.txt`; for a sentence line the last `/` or the end of the
      first `:` found from position 10. */
  function TxtStart(line: string, txtEnd: int): (i: int)
    requires 0 <= txtEnd <= |line|
    ensures -1 <= i <= txtEnd
    ensures !StartsWith(line, SentencePrefix) ==> i < txtEnd
    ensures forall k :: i < k < txtEnd ==> line[k] != '/'
    ensures !StartsWith(line, SentencePrefix) ==> forall k :: i < k < txtEnd ==> line[k] != '"'
    ensures !StartsWith(line, SentencePrefix) ==> i == -1 || line[i] == '/' || line[i] == '"'
    ensures StartsWith(line, SentencePrefix) ==> i == 0 || (11 <= i && line[i - 1] == ':') || (0 <= i < txtEnd && line[i] == '/')
  {
    var slash := RFind(line, "/", 0, txtEnd);
    RFindLast(line, "/", 0, txtEnd);
    OccursAtChar(line, '/', slash);
    forall k | slash < k < txtEnd
      ensures line[k] != '/'
    {
      OccursAtChar(line, '/', k);
    }
    if StartsWith(line, SentencePrefix) then
      var colon := Find(line, ":", 10, txtEnd);
      OccursAtChar(line, ':', colon);
      if slash >= colon + 1 then slash else colon + 1
    else
      var quote := RFind(line, "\"", 0, txtEnd);
      RFindLast(line, "\"", 0, txtEnd);
      OccursAtChar(line, '"', quote);
      forall k | quote < k < txtEnd
        ensures line[k] != '"'
      {
        OccursAtChar(line, '"', k);
      }
      if slash >= quote then slash else quote
  }

  /** On a sentence line the name starts at the later of the last `/` before
      the `.txt` and one past the first `:` from position 10 on; when neither
      exists it starts at 0. */
  lemma {:induction false} TxtStartSentence(line: string, txtEnd: int, slash: int, colon: int)
    requires 0 <= txtEnd <= |line| && StartsWith(line, SentencePrefix)
    requires LastBefore(line, '/', slash, txtEnd)
    requires if colon < 0 then colon == -1 && forall k :: 10 <= k < txtEnd ==> line[k] != ':'
             else FirstAt(line, ':', colon, 10) && colon < txtEnd
    ensures TxtStart(line, txtEnd) == if slash >= colon + 1 then slash else colon + 1
  {
    RFindChar(line, '/', slash, txtEnd);
    var f := Find(line, ":", 10, txtEnd);
    FindFirst(line, ":", 10, txtEnd);
    OccursAtChar(line, ':', f);
    if colon >= 0 {
      OccursAtChar(line, ':', colon);
    }
    assert f == colon;
  }

  /** On any other line the name starts at the later of the last `/` and the
      last `"` before the `.txt`, or at -1 when there is neither. */
  lemma {:induction false} TxtStartPlain(line: string, txtEnd: int, slash: int, quote: int)
    requires 0 <= txtEnd <= |line| && !StartsWith(line, SentencePrefix)
    requires LastBefore(line, '/', slash, txtEnd)
    requires LastBefore(line, '"', quote, txtEnd)
    ensures TxtStart(line, txtEnd) == if slash >= quote then slash else quote
  {
    RFindChar(line, '/', slash, txtEnd);
    RFindChar(line, '"', quote, txtEnd);
  }

  /** The file name a log line blames: from just after the position `TxtStart`
      finds up to the end of the last `.txt`. It holds no `/`; it ends in `.txt`
      in any letter case, except on a sentence line whose `:` sits right
      before the `.txt`, where the dot is cut off. */
  function TxtName(line: string, txtEnd: int): (name: string)
    requires 0 <= txtEnd && txtEnd + 4 <= |line| && Lower(line)[txtEnd..txtEnd + 4] == ".txt"
    ensures |name| >= 3 && Lower(name)[|name| - 3..] == "txt"
    ensures '/' !in name
    ensures !StartsWith(line, SentencePrefix) ==> EndsWith(Lower(name), ".txt") && '"' !in name
  {
    var txtStart := TxtStart(line, txtEnd);
    var name := Slice(line, txtStart + 1, txtEnd + 4);
    assert name == line[txtStart + 1..txtEnd + 4];
    NameShape(line, txtStart, txtEnd);
    name
  }

  lemma NameShape(line: string, txtStart: int, txtEnd: int)
    requires 0 <= txtEnd && txtEnd + 4 <= |line| && Lower(line)[txtEnd..txtEnd + 4] == ".txt"
    requires -1 <= txtStart <= txtEnd
    requires !StartsWith(line, SentencePrefix) ==> txtStart < txtEnd
    requires forall k :: txtStart < k < txtEnd ==> line[k] != '/'
    requires !StartsWith(line, SentencePrefix) ==> forall k :: txtStart < k < txtEnd ==> line[k] != '"'
    ensures var name := line[txtStart + 1..txtEnd + 4];
            && |name| >= 3 && Lower(name)[|name| - 3..] == "txt"
            && '/' !in name
            && (!StartsWith(line, SentencePrefix) ==> EndsWith(Lower(name), ".txt") && '"' !in name)
  {
    var name := line[txtStart + 1..txtEnd + 4];
    LowerSlice(line, txtStart + 1, txtEnd + 4);
    assert Lower(name)[|name| - 3..] == Lower(line)[txtEnd + 1..txtEnd + 4];
    forall k | txtEnd <= k < txtEnd + 4
      ensures line[k] != '/' && line[k] != '"'
    {
      assert Lower(line)[k] == Lower(line)[txtEnd..txtEnd + 4][k - txtEnd];
      assert Lower(line)[k] == LowerChar(line[k]);
    }
    assert !StartsWith(line, SentencePrefix) ==> Lower(name)[|name| - 4..] == Lower(line)[txtEnd..txtEnd + 4];
  }

  lemma LowerSlice(s: string, i: int, j: int)
    requires 0 <= i <= j <= |s|
    ensures Lower(s[i..j]) == Lower(s)[i..j]
  {
  }

  /** One log line: nothing when it names no `.txt` file, else exactly one
      entry whose defect has the kind of the last matching test; the first
      constructor that raises makes the whole line raise. */
  function Classify(line: string): (r: Result<Option<Entry>, Exception>)
    ensures TxtEnd(line) < 0 ==> r == Ok(None)
    ensures TxtEnd(line) >= 0 && r.Ok? ==>
              && r.value.Some?
              && r.value.value.name == TxtName(line, TxtEnd(line))
              && KindOf(r.value.value.defect) == ExpectedKind(line)
    ensures TxtEnd(line) >= 0 && r.Ok? ==>
              var j := LastMatching(Chain, line);
              if j < 0 then r.value.value.defect == UnknownError
              else Build(Chain[j], line) == Ok(r.value.value.defect)
  {
    var txtEnd := TxtEnd(line);
    if txtEnd < 0 then Ok(None)
    else
      var d :- ApplyChain(Chain, line, UnknownError);
      Ok(Some(Entry(TxtName(line, txtEnd), d)))
  }

  /** A line raises exactly when it names a `.txt` file and one of its passing
      tests constructs a defect whose line number `int()` rejects. */
  lemma ClassifyRaises(line: string)
    ensures Classify(line).Err? <==>
              TxtEnd(line) >= 0 &&
              exists k :: 0 <= k < |Chain| && Recognises(Chain[k], line) && Build(Chain[k], line).Err?
  {
    ApplyChainRaises(Chain, line, UnknownError);
  }

  /** How many lines of the log name a `.txt` file: `error_count`. */
  function CountTxt(log: seq<string>): (n: nat)
    ensures n <= |log|
  {
    if log == [] then 0
    else CountTxt(log[..|log| - 1]) + (if TxtEnd(log[|log| - 1]) >= 0 then 1 else 0)
  }

  /** How many results carry an entry. */
  function Present(cs: seq<Result<Option<Entry>, Exception>>): (n: nat)
    ensures n <= |cs|
  {
    if cs == [] then 0
    else Present(cs[..|cs| - 1]) + (if cs[|cs| - 1] .Ok? && cs[|cs| - 1].value.Some? then 1 else 0)
  }

  /** The extraction loop over already classified lines: the first raising
      line aborts it, otherwise the entries are kept in order. */
  function Collect(cs: seq<Result<Option<Entry>, Exception>>): (r: Result<seq<Entry>, Exception>)
    ensures r.Err? <==> exists k :: 0 <= k < |cs| && cs[k].Err?
    ensures r.Ok? ==> |r.value| == Present(cs)
    ensures r.Ok? ==> forall e :: e in r.value <==> Ok(Some(e)) in cs
  {
    if cs == [] then Ok([])
    else
      var init := cs[..|cs| - 1];
      var c := cs[|cs| - 1];
      assert forall k :: 0 <= k < |init| ==> init[k] == cs[k];
      var entries :- Collect(init);
      if c.Err? then Err(c.error)
      else if c.value.None? then Ok(entries)
      else Ok(entries + [c.value.value])
  }

  /** Every line of the log, classified. */
  function Results(log: seq<string>): (cs: seq<Result<Option<Entry>, Exception>>)
    ensures |cs| == |log| && forall k :: 0 <= k < |log| ==> cs[k] == Classify(log[k])
  {
    seq(|log|, k requires 0 <= k < |log| => Classify(log[k]))
  }

  /** No line of the log raises during extraction. */
  predicate Parses(log: seq<string>) {
    forall k :: 0 <= k < |log| ==> Classify(log[k]).Ok?
  }

  /** The extraction loop: raises exactly when some line raises; otherwise
      its entries are exactly the entries the lines classify to. */
  function ClassifyAll(log: seq<string>): (r: Result<seq<Entry>, Exception>)
    ensures r.Err? <==> exists k :: 0 <= k < |log| && Classify(log[k]).Err?
    ensures r.Ok? ==> forall e :: e in r.value <==> exists k :: 0 <= k < |log| && Classify(log[k]) == Ok(Some(e))
  {
    var cs := Results(log);
    var r := Collect(cs);
    assert forall e :: Ok(Some(e)) in cs <==> exists k :: 0 <= k < |log| && Classify(log[k]) == Ok(Some(e));
    r
  }

  /** The extraction loop appends, in log order: a further line adds nothing
      when it names no `.txt` file and exactly its own entry otherwise. */
  lemma ClassifyAppends(log: seq<string>, line: string)
    requires Parses(log + [line])
    ensures ClassifyAll(log).Ok? && Classify(line).Ok?
    ensures ClassifyAll(log + [line])
            == Ok(ClassifyAll(log).value + (if TxtEnd(line) >= 0 then [Classify(line).value.value] else []))
  {
    assert forall k :: 0 <= k < |log| ==> log[k] == (log + [line])[k];
    assert line == (log + [line])[|log|];
    var cs := Results(log + [line]);
    assert cs[..|cs| - 1] == Results(log);
    assert cs[|cs| - 1] == Classify(line);
    assert Collect(cs[..|cs| - 1]) == ClassifyAll(log);
    assert ClassifyAll(log + [line]) == Collect(cs);
    if TxtEnd(line) >= 0 {
      assert Classify(line).value.Some?;
      assert Collect(cs) == Ok(ClassifyAll(log).value + [Classify(line).value.value]);
    } else {
      assert Classify(line) == Ok(None);
      assert Collect(cs) == ClassifyAll(log);
      assert ClassifyAll(log).value + [] == ClassifyAll(log).value;
    }
  }

  /** When nothing raises, there is one entry per line naming a `.txt` file. */
  lemma {:induction false} ErrorCount(log: seq<string>)
    requires Parses(log)
    ensures Present(Results(log)) == CountTxt(log)
  {
    if log != [] {
      var init := log[..|log| - 1];
      ErrorCount(init);
      assert Results(log)[..|log| - 1] == Results(init);
    }
  }

  /** The file names of the entries, in order. */
  function Names(entries: seq<Entry>): (ns: seq<string>)
    ensures |ns| == |entries| && forall k :: 0 <= k < |entries| ==> ns[k] == entries[k].name
  {
    if entries == [] then [] else Names(entries[..|entries| - 1]) + [entries[|entries| - 1].name]
  }

  /** The defects the entries report against one file name, in order. */
  function DefectsOf(entries: seq<Entry>, name: string): seq<Defect> {
    if entries == [] then []
    else
      var last := entries[|entries| - 1];
      DefectsOf(entries[..|entries| - 1], name) + (if last.name == name then [last.defect] else [])
  }

  lemma {:induction false} DefectsOfAbsent(entries: seq<Entry>, name: string)
    requires name !in Names(entries)
    ensures DefectsOf(entries, name) == []
  {
    if entries != [] {
      var init := entries[..|entries| - 1];
      assert Names(init) == Names(entries)[..|entries| - 1];
      DefectsOfAbsent(init, name);
    }
  }

  /** Position of the first occurrence of `x` in `xs`. */
  function FirstIndex(xs: seq<string>, x: string): (i: nat)
    requires x in xs
    ensures i < |xs| && xs[i] == x && forall k :: 0 <= k < i ==> xs[k] != x
  {
    if xs[0] == x then 0 else 1 + FirstIndex(xs[1..], x)
  }

  /** `error_map`: the names in insertion order and each name's list of defects. */
  datatype Groups = Groups(names: seq<string>, defects: map<string, seq<Defect>>)

  /** The names are distinct, are exactly the keys, and every list is non-empty. */
  predicate ValidGroups(g: Groups) {
    && (forall i, j :: 0 <= i < j < |g.names| ==> g.names[i] != g.names[j])
    && (forall n :: n in g.defects ==> n in g.names)
    && (forall k :: 0 <= k < |g.names| ==> g.names[k] in g.defects)
    && (forall n :: n in g.defects ==> g.defects[n] != [])
  }

  /** One step of the extraction loop: a new name is appended to the key order
      with an empty list, then the defect is appended to the name's list. */
  function AddEntry(g: Groups, e: Entry): Groups {
    if e.name in g.defects then Groups(g.names, g.defects[e.name := g.defects[e.name] + [e.defect]])
    else Groups(g.names + [e.name], g.defects[e.name := [e.defect]])
  }

  /** Groups the entries by name: every name an entry carries is a key, and
      each key's list holds exactly the defects reported against it, in log
      order. */
  function Group(entries: seq<Entry>): (g: Groups)
    ensures ValidGroups(g)
    ensures forall n :: n in g.defects <==> n in Names(entries)
    ensures forall n :: n in g.defects ==> g.defects[n] == DefectsOf(entries, n)
  {
    if entries == [] then Groups([], map[])
    else
      var init := entries[..|entries| - 1];
      var e := entries[|entries| - 1];
      assert entries == init + [e];
      var g := Group(init);
      AddEntryStep(init, g, e);
      AddEntry(g, e)
  }

  lemma AddEntryStep(init: seq<Entry>, g: Groups, e: Entry)
    requires ValidGroups(g)
    requires forall n :: n in g.defects <==> n in Names(init)
    requires forall n :: n in g.defects ==> g.defects[n] == DefectsOf(init, n)
    ensures ValidGroups(AddEntry(g, e))
    ensures forall n :: n in AddEntry(g, e).defects <==> n in Names(init + [e])
    ensures forall n :: n in AddEntry(g, e).defects ==> AddEntry(g, e).defects[n] == DefectsOf(init + [e], n)
  {
    var entries := init + [e];
    assert entries[..|entries| - 1] == init;
    assert Names(entries) == Names(init) + [e.name];
    forall n | n in AddEntry(g, e).defects
      ensures AddEntry(g, e).defects[n] == DefectsOf(entries, n)
    {
      assert DefectsOf(entries, n) == DefectsOf(init, n) + (if e.name == n then [e.defect] else []);
      if n != e.name {
        assert n in g.defects && AddEntry(g, e).defects[n] == g.defects[n];
      } else if e.name in g.defects {
        assert AddEntry(g, e).defects[n] == g.defects[n] + [e.defect];
      } else {
        assert n !in Names(init);
        assert DefectsOf(init, n) == [] by { DefectsOfAbsent(init, n); }
      }
    }
  }

  lemma {:induction false} FirstIndexExtend(xs: seq<string>, x: string, y: string)
    requires x in xs
    ensures x in xs + [y] && FirstIndex(xs + [y], x) == FirstIndex(xs, x)
  {
    if xs[0] != x {
      FirstIndexExtend(xs[1..], x, y);
      assert (xs + [y])[1..] == xs[1..] + [y];
    }
  }

  lemma FirstIndexNew(xs: seq<string>, x: string)
    requires x !in xs
    ensures FirstIndex(xs + [x], x) == |xs|
  {
  }

  /** The keys are in order of first occurrence in the log. */
  lemma {:induction false} GroupOrder(entries: seq<Entry>)
    ensures forall i, j :: 0 <= i < j < |Group(entries).names| ==>
              FirstIndex(Names(entries), Group(entries).names[i]) < FirstIndex(Names(entries), Group(entries).names[j])
  {
    if entries != [] {
      var init := entries[..|entries| - 1];
      var e := entries[|entries| - 1];
      GroupOrder(init);
      var g := Group(init);
      var ns := Names(init);
      assert Names(entries) == ns + [e.name];
      forall i, j | 0 <= i < j < |Group(entries).names|
        ensures FirstIndex(ns + [e.name], Group(entries).names[i]) < FirstIndex(ns + [e.name], Group(entries).names[j])
      {
        var a := Group(entries).names[i];
        var b := Group(entries).names[j];
        assert a in g.names;
        FirstIndexExtend(ns, a, e.name);
        if j < |g.names| {
          FirstIndexExtend(ns, b, e.name);
        } else {
          assert b == e.name && e.name !in ns;
          FirstIndexNew(ns, e.name);
        }
      }
    }
  }
}
