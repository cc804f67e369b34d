/** The defect taxonomy: the kinds of problem the karaoke application's error
    log reports about a song `.txt` file, the data each kind carries, whether
    the repair engine will try to fix it, and how that data is cut out of the
    log line (the constructors of the `Error` subclasses). */
module Defects {
  import opened Wrappers
  import opened Strings

  /** The module flags of the tool. `song_dir` is not here: it only feeds the
      file search, which is an input of the driver. */
  datatype Config = Config(
    skipNonAuto: bool,
    dryRun: bool,
    removeEmptyFields: bool,
    removeMissingVideos: bool,
    handleVideoIfAudioMissing: bool)

  /** The flag values the tool ships with. */
  const ShippedConfig := Config(
    skipNonAuto := false,
    dryRun := false,
    removeEmptyFields := true,
    removeMissingVideos := true,
    handleVideoIfAudioMissing := false)

  /** Line number a SentenceWithoutNoteError carries when the log names the end marker `E`. */
  const EndMarkerLine := -1

  datatype Defect =
    | UnknownError
    | GeneralError
    | NoAudioError
    | NoVideoError
    | AudioMissingError
    | SentenceWithoutNoteError(lineNumber: int)
    | EmptyFieldError(fieldName: string)
    | EmptyLinesOrNoBPMError
    | NoLinebreaksError
    | StartsWithEmptyLineError
    | CharacterExpectedError(lineNumber: int)
    | ZeroLengthNoteError(lineNumber: int)
    | NoNotesError
    | IntegerExpectedError(lineNumber: int)
    | StringExpectedError(lineNumber: int)

  /** `wont_fix`: the base class sets it, the fixable kinds clear it, and an
      empty field is unfixable exactly when prompts are switched off. */
  predicate WontFix(d: Defect, cfg: Config) {
    match d
    case UnknownError | GeneralError | NoLinebreaksError | NoNotesError | IntegerExpectedError(_) => true
    case EmptyFieldError(_) => cfg.skipNonAuto
    case _ => false
  }

  /** The defect classes, without their data. */
  datatype Kind =
    | Unknown | General | NoAudio | NoVideo | AudioMissing | SentenceWithoutNote | EmptyField
    | EmptyLinesOrNoBPM | NoLinebreaks | StartsWithEmptyLine | CharacterExpected | ZeroLengthNote
    | NoNotes | IntegerExpected | StringExpected

  function KindOf(d: Defect): Kind {
    match d
    case UnknownError => Unknown
    case GeneralError => General
    case NoAudioError => NoAudio
    case NoVideoError => NoVideo
    case AudioMissingError => AudioMissing
    case SentenceWithoutNoteError(_) => SentenceWithoutNote
    case EmptyFieldError(_) => EmptyField
    case EmptyLinesOrNoBPMError => EmptyLinesOrNoBPM
    case NoLinebreaksError => NoLinebreaks
    case StartsWithEmptyLineError => StartsWithEmptyLine
    case CharacterExpectedError(_) => CharacterExpected
    case ZeroLengthNoteError(_) => ZeroLengthNote
    case NoNotesError => NoNotes
    case IntegerExpectedError(_) => IntegerExpected
    case StringExpectedError(_) => StringExpected
  }

  /** The classes whose constructor reads a line number out of the log line. */
  predicate NumberedKind(kind: Kind) {
    kind in {SentenceWithoutNote, CharacterExpected, ZeroLengthNote, IntegerExpected, StringExpected}
  }

  /** The defect of a numbered class carrying a line number. */
  function WithNumber(kind: Kind, n: int): (d: Defect)
    requires NumberedKind(kind)
    ensures KindOf(d) == kind && d.lineNumber == n
  {
    match kind
    case SentenceWithoutNote => SentenceWithoutNoteError(n)
    case CharacterExpected => CharacterExpectedError(n)
    case ZeroLengthNote => ZeroLengthNoteError(n)
    case IntegerExpected => IntegerExpectedError(n)
    case StringExpected => StringExpectedError(n)
  }

  /** The defect of a class that carries no data. */
  function Plain(kind: Kind): (d: Defect)
    requires !NumberedKind(kind) && kind != EmptyField
    ensures KindOf(d) == kind
  {
    match kind
    case Unknown => UnknownError
    case General => GeneralError
    case NoAudio => NoAudioError
    case NoVideo => NoVideoError
    case AudioMissing => AudioMissingError
    case EmptyLinesOrNoBPM => EmptyLinesOrNoBPMError
    case NoLinebreaks => NoLinebreaksError
    case StartsWithEmptyLine => StartsWithEmptyLineError
    case NoNotes => NoNotesError
  }

  /** `int(text)`, raising ValueError where Python does. */
  function ParseLineNumber(text: string): Result<int, Exception> {
    match ParseInt(text)
    case Some(n) => Ok(n)
    case None => Err(ValueError)
  }

  /** The line number of a sentence token: `E` names the end marker, anything
      else goes through `int()`. */
  function SentenceLineNumber(text: string): (r: Result<int, Exception>)
    ensures text == "E" ==> r == Ok(EndMarkerLine)
    ensures text != "E" ==> (r.Ok? <==> ParseInt(text).Some?)
    ensures text != "E" && r.Ok? ==> r.value == ParseInt(text).value
    ensures r.Err? ==> r.error == ValueError
  {
    if text == "E" then Ok(EndMarkerLine) else ParseLineNumber(text)
  }

  /** The text between the last space before the second `:` and that `:`. */
  function SentenceNumberText(line: string): string {
    var numberEnd := Find(line, ":", Find(line, ":", 0, |line|) + 1, |line|);
    var numberStart := RFind(line, " ", 0, numberEnd);
    Slice(line, numberStart + 1, numberEnd)
  }

  /** Ten characters after the second double quote, up to the next `:`. */
  function CharacterExpectedNumberText(line: string): string {
    var filenameEnd := Find(line, "\"", Find(line, "\"", 0, |line|) + 1, |line|);
    var numberEnd := Find(line, ":", filenameEnd, |line|);
    Slice(line, filenameEnd + 10, numberEnd)
  }

  /** Ten characters after the last double quote, up to the last `:`. */
  function ZeroLengthNumberText(line: string): string {
    Slice(line, RFind(line, "\"", 0, |line|) + 10, RFind(line, ":", 0, |line|))
  }

  /** From the end of the last `in line ` up to the last `,`. */
  function InLineNumberText(line: string): string {
    Slice(line, RFind(line, "in line ", 0, |line|) + 8, RFind(line, ",", 0, |line|))
  }

  /** The text each numbered class cuts out of its log line. */
  function NumberText(kind: Kind, line: string): string
    requires NumberedKind(kind)
  {
    match kind
    case SentenceWithoutNote => SentenceNumberText(line)
    case CharacterExpected => CharacterExpectedNumberText(line)
    case ZeroLengthNote => ZeroLengthNumberText(line)
    case IntegerExpected => InLineNumberText(line)
    case StringExpected => InLineNumberText(line)
  }

  /** The constructors of the five numbered classes: the number text is read
      with `int()`, except that a sentence error also accepts `E`. */
  function NewNumbered(kind: Kind, line: string): (r: Result<Defect, Exception>)
    requires NumberedKind(kind)
    ensures r.Ok? ==> KindOf(r.value) == kind
    ensures r.Err? ==> r.error == ValueError
  {
    var text := NumberText(kind, line);
    var n :- if kind == SentenceWithoutNote then SentenceLineNumber(text) else ParseLineNumber(text);
    Ok(WithNumber(kind, n))
  }

  /** The text between the first two double quotes. */
  function FieldNameText(line: string): string {
    var fieldStart := Find(line, "\"", 0, |line|);
    var fieldEnd := Find(line, "\"", fieldStart + 1, |line|);
    Slice(line, fieldStart + 1, fieldEnd)
  }

  /** `EmptyFieldError(line)` */
  function NewEmptyField(line: string): Defect {
    EmptyFieldError(FieldNameText(line))
  }

  /** SentenceWithoutNoteError reads the token between the last space before
      the second `:` and that `:`; `E` stands for the end marker and anything
      else goes through `int()`. */
  lemma SentenceNumberExtraction(line: string, colon1: int, colon2: int, space: int)
    requires FirstAt(line, ':', colon1, 0)
    requires FirstAt(line, ':', colon2, colon1 + 1)
    requires LastBefore(line, ' ', space, colon2)
    ensures SentenceNumberText(line) == line[space + 1..colon2]
    ensures NewNumbered(SentenceWithoutNote, line).Ok? <==> SentenceLineNumber(line[space + 1..colon2]).Ok?
    ensures NewNumbered(SentenceWithoutNote, line).Ok? ==>
              NewNumbered(SentenceWithoutNote, line).value
              == SentenceWithoutNoteError(SentenceLineNumber(line[space + 1..colon2]).value)
  {
    SentenceNumberPosition(line, colon1, colon2, space);
  }

  lemma SentenceNumberPosition(line: string, colon1: int, colon2: int, space: int)
    requires FirstAt(line, ':', colon1, 0)
    requires FirstAt(line, ':', colon2, colon1 + 1)
    requires LastBefore(line, ' ', space, colon2)
    ensures SentenceNumberText(line) == line[space + 1..colon2]
  {
    assert Find(line, ":", 0, |line|) == colon1 by { FindChar(line, ':', colon1, 0); }
    assert Find(line, ":", colon1 + 1, |line|) == colon2 by { FindChar(line, ':', colon2, colon1 + 1); }
    assert RFind(line, " ", 0, colon2) == space by { RFindChar(line, ' ', space, colon2); }
    assert SentenceNumberText(line) == Slice(line, space + 1, colon2);
  }

  /** EmptyFieldError's field name is the text between the first two double quotes. */
  lemma FieldNameExtraction(line: string, quote1: int, quote2: int)
    requires FirstAt(line, '"', quote1, 0)
    requires FirstAt(line, '"', quote2, quote1 + 1)
    ensures NewEmptyField(line) == EmptyFieldError(line[quote1 + 1..quote2])
  {
    FindChar(line, '"', quote1, 0);
    FindChar(line, '"', quote2, quote1 + 1);
  }

  /** CharacterExpectedError's number starts ten characters after the second
      double quote (past `" in line `) and ends at the next `:`. */
  lemma CharacterExpectedNumberExtraction(line: string, quote1: int, quote2: int, colon: int)
    requires FirstAt(line, '"', quote1, 0)
    requires FirstAt(line, '"', quote2, quote1 + 1)
    requires FirstAt(line, ':', colon, quote2)
    requires quote2 + 10 <= colon
    ensures CharacterExpectedNumberText(line) == line[quote2 + 10..colon]
    ensures NewNumbered(CharacterExpected, line).Ok? <==> ParseInt(line[quote2 + 10..colon]).Some?
    ensures NewNumbered(CharacterExpected, line).Ok? ==>
              NewNumbered(CharacterExpected, line).value == CharacterExpectedError(ParseInt(line[quote2 + 10..colon]).value)
  {
    FindChar(line, '"', quote1, 0);
    FindChar(line, '"', quote2, quote1 + 1);
    FindChar(line, ':', colon, quote2);
  }

  /** ZeroLengthNoteError's number starts ten characters after the last
      double quote and ends at the last `:`. */
  lemma ZeroLengthNumberExtraction(line: string, quote: int, colon: int)
    requires LastBefore(line, '"', quote, |line|) && quote >= 0
    requires LastBefore(line, ':', colon, |line|)
    requires quote + 10 <= colon
    ensures ZeroLengthNumberText(line) == line[quote + 10..colon]
    ensures NewNumbered(ZeroLengthNote, line).Ok? <==> ParseInt(line[quote + 10..colon]).Some?
    ensures NewNumbered(ZeroLengthNote, line).Ok? ==>
              NewNumbered(ZeroLengthNote, line).value == ZeroLengthNoteError(ParseInt(line[quote + 10..colon]).value)
  {
    RFindChar(line, '"', quote, |line|);
    RFindChar(line, ':', colon, |line|);
  }

  /** IntegerExpectedError and StringExpectedError read the text between the
      end of the last `in line ` and the last `,`. */
  lemma InLineNumberExtraction(line: string, at: int, comma: int)
    requires OccursAt(line, "in line ", at)
    requires forall j :: at < j ==> !OccursAt(line, "in line ", j)
    requires LastBefore(line, ',', comma, |line|)
    requires at + 8 <= comma
    ensures InLineNumberText(line) == line[at + 8..comma]
    ensures NewNumbered(IntegerExpected, line).Ok? <==> ParseInt(line[at + 8..comma]).Some?
    ensures NewNumbered(IntegerExpected, line).Ok? ==>
              NewNumbered(IntegerExpected, line).value == IntegerExpectedError(ParseInt(line[at + 8..comma]).value)
    ensures NewNumbered(StringExpected, line).Ok? <==> ParseInt(line[at + 8..comma]).Some?
    ensures NewNumbered(StringExpected, line).Ok? ==>
              NewNumbered(StringExpected, line).value == StringExpectedError(ParseInt(line[at + 8..comma]).value)
  {
    RFindChar(line, ',', comma, |line|);
    var r := RFind(line, "in line ", 0, |line|);
    RFindLast(line, "in line ", 0, |line|);
    assert r == at;
  }
}
