/** The pattern helper behind the search for audio and video files next to a
    song: every letter of an extension becomes a two-letter character class,
    so the glob matches the extension in any letter case. The directory
    listing itself is not modelled; its result is an input of the fixes. */
module Glob {
  import opened Wrappers
  import opened Strings

  /** Python's `c.isalpha()`, restricted to ASCII. */
  predicate IsLetter(c: char) {
    ('a' <= c <= 'z') || ('A' <= c <= 'Z')
  }

  /** The glob text one pattern character becomes. */
  function CasePiece(c: char): string {
    if IsLetter(c) then ['[', LowerChar(c), UpperChar(c), ']'] else [c]
  }

  /** `glob_make_case_insensitive(pattern)` */
  function MakeCaseInsensitive(pattern: string): (g: string)
    ensures |g| >= |pattern|
  {
    if pattern == [] then [] else CasePiece(pattern[0]) + MakeCaseInsensitive(pattern[1..])
  }

  /** One position of a glob without wildcards: a literal or a two-character class. */
  datatype Atom = Lit(c: char) | Class(a: char, b: char)

  predicate AtomMatches(atom: Atom, x: char) {
    match atom
    case Lit(c) => x == c
    case Class(a, b) => x == a || x == b
  }

  /** How fnmatch reads a glob made only of literals and `[xy]` classes;
      `None` for a `[` that does not open such a class. */
  function ParseAtoms(g: string): Option<seq<Atom>> {
    if g == [] then Some([])
    else if g[0] == '[' then
      if |g| >= 4 && g[3] == ']' then
        match ParseAtoms(g[4..])
        case Some(rest) => Some([Class(g[1], g[2])] + rest)
        case None => None
      else None
    else
      match ParseAtoms(g[1..])
      case Some(rest) => Some([Lit(g[0])] + rest)
      case None => None
  }

  /** A name matches a sequence of atoms position by position. */
  predicate AtomsMatch(atoms: seq<Atom>, name: string) {
    |atoms| == |name| && forall k :: 0 <= k < |name| ==> AtomMatches(atoms[k], name[k])
  }

  predicate SameIgnoringCase(a: string, b: string) {
    |a| == |b| && forall k :: 0 <= k < |a| ==> LowerChar(a[k]) == LowerChar(b[k])
  }

  function AtomOf(c: char): Atom {
    if IsLetter(c) then Class(LowerChar(c), UpperChar(c)) else Lit(c)
  }

  function AtomsOf(pattern: string): (atoms: seq<Atom>)
    ensures |atoms| == |pattern| && forall k :: 0 <= k < |pattern| ==> atoms[k] == AtomOf(pattern[k])
  {
    if pattern == [] then [] else [AtomOf(pattern[0])] + AtomsOf(pattern[1..])
  }

  lemma AtomOfMatches(c: char, x: char)
    ensures AtomMatches(AtomOf(c), x) <==> LowerChar(c) == LowerChar(x)
  {
  }

  lemma {:induction false} ParseCaseInsensitive(pattern: string)
    requires '[' !in pattern
    ensures ParseAtoms(MakeCaseInsensitive(pattern)) == Some(AtomsOf(pattern))
  {
    if pattern != [] {
      var c := pattern[0];
      var tail := MakeCaseInsensitive(pattern[1..]);
      ParseCaseInsensitive(pattern[1..]);
      var g := CasePiece(c) + tail;
      if IsLetter(c) {
        assert g[4..] == tail;
      } else {
        assert g[0] == c && g[1..] == tail;
      }
    }
  }

  /** A glob of a wildcard-free pattern, made case-insensitive, matches
      exactly the names that equal the pattern up to ASCII letter case. */
  lemma CaseInsensitiveGlobMatches(pattern: string, name: string)
    requires '[' !in pattern && '*' !in pattern && '?' !in pattern
    ensures ParseAtoms(MakeCaseInsensitive(pattern)).Some?
    ensures AtomsMatch(ParseAtoms(MakeCaseInsensitive(pattern)).value, name) <==> SameIgnoringCase(pattern, name)
  {
    ParseCaseInsensitive(pattern);
    forall k | 0 <= k < |pattern| {
      AtomOfMatches(pattern[k], if k < |name| then name[k] else ' ');
    }
  }
}
