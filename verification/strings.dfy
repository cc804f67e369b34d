/** The Python `str` operations the repair engine relies on, with Python's
    semantics: slice-style index normalisation for `find`/`rfind` and slicing,
    `strip()` over Python's whitespace set, `split(" ")` keeping empty parts,
    and `int()` accepting surrounding whitespace, a sign and digit groups
    separated by single underscores. Case mapping and digits are ASCII. */
module Strings {
  import opened Wrappers

  /** The characters Python's `str.isspace()` accepts, i.e. those `strip()` removes. */
  predicate IsSpace(c: char) {
    || c == ' '
    || ('\t' <= c <= '\r')
    || ('\U{1C}' <= c <= '\U{1F}')
    || c == '\U{85}' || c == '\U{A0}' || c == '\U{1680}'
    || ('\U{2000}' <= c <= '\U{200A}')
    || c == '\U{2028}' || c == '\U{2029}' || c == '\U{202F}' || c == '\U{205F}' || c == '\U{3000}'
  }

  /** Every character is whitespace (the empty string included): `s.strip() == ""`. */
  predicate IsBlank(s: string) {
    forall k :: 0 <= k < |s| ==> IsSpace(s[k])
  }

  /** `s.strip()` */
  function Strip(s: string): (r: string)
    ensures |r| <= |s|
  {
    if s == [] then s
    else if IsSpace(s[0]) then Strip(s[1..])
    else if IsSpace(s[|s| - 1]) then Strip(s[..|s| - 1])
    else s
  }

  /** `s.strip()` is empty exactly for blank strings; otherwise it starts and
      ends with a non-whitespace character. */
  lemma {:induction false} StripShape(s: string)
    ensures Strip(s) == [] <==> IsBlank(s)
    ensures Strip(s) != [] ==> !IsSpace(Strip(s)[0]) && !IsSpace(Strip(s)[|Strip(s)| - 1])
  {
    if s != [] {
      if IsSpace(s[0]) {
        StripShape(s[1..]);
        assert forall k :: 1 <= k < |s| ==> s[k] == s[1..][k - 1];
      } else if IsSpace(s[|s| - 1]) {
        StripShape(s[..|s| - 1]);
        assert !IsBlank(s);
      }
    }
  }

  /** `s.strip()` is the slice `s[a..b]` of `s`; everything before `a` and
      from `b` on is whitespace. */
  lemma {:induction false} StripSlice(s: string) returns (a: nat, b: nat)
    ensures a <= b <= |s| && Strip(s) == s[a..b]
    ensures forall k :: 0 <= k < a ==> IsSpace(s[k])
    ensures forall k :: b <= k < |s| ==> IsSpace(s[k])
  {
    if s == [] {
      a, b := 0, 0;
    } else if IsSpace(s[0]) {
      var t := s[1..];
      var a', b' := StripSlice(t);
      a, b := a' + 1, b' + 1;
      assert t[a'..b'] == s[a..b];
      assert forall k :: 1 <= k < |s| ==> s[k] == t[k - 1];
    } else if IsSpace(s[|s| - 1]) {
      var t := s[..|s| - 1];
      a, b := StripSlice(t);
      assert t[a..b] == s[a..b];
      assert forall k :: 0 <= k < |t| ==> s[k] == t[k];
    } else {
      a, b := 0, |s|;
    }
  }

  /** `strip()` removes something exactly when it shortens the string. */
  lemma StripSameLength(s: string)
    ensures |Strip(s)| == |s| <==> Strip(s) == s
  {
    var a, b := StripSlice(s);
  }

  /** A string whose ends are not whitespace is its own strip. */
  lemma StripTrimmed(s: string)
    requires s != [] && !IsSpace(s[0]) && !IsSpace(s[|s| - 1])
    ensures Strip(s) == s
  {
  }

  function UpperChar(c: char): char {
    if 'a' <= c <= 'z' then (c as int - 32) as char else c
  }

  function LowerChar(c: char): char {
    if 'A' <= c <= 'Z' then (c as int + 32) as char else c
  }

  /** `s.upper()`, restricted to ASCII letters. */
  function Upper(s: string): (r: string)
    ensures |r| == |s| && forall k :: 0 <= k < |s| ==> r[k] == UpperChar(s[k])
    ensures forall k :: 0 <= k < |r| ==> !('a' <= r[k] <= 'z')
  {
    seq(|s|, k requires 0 <= k < |s| => UpperChar(s[k]))
  }

  /** `s.lower()`, restricted to ASCII letters. */
  function Lower(s: string): (r: string)
    ensures |r| == |s| && forall k :: 0 <= k < |s| ==> r[k] == LowerChar(s[k])
    ensures forall k :: 0 <= k < |r| ==> !('A' <= r[k] <= 'Z')
  {
    seq(|s|, k requires 0 <= k < |s| => LowerChar(s[k]))
  }

  /** `s.startswith(prefix)` */
  predicate StartsWith(s: string, prefix: string)
    ensures StartsWith(s, prefix) ==> |prefix| <= |s| && s == prefix + s[|prefix|..]
  {
    |prefix| <= |s| && s[..|prefix|] == prefix
  }

  /** `s.endswith(suffix)` */
  predicate EndsWith(s: string, suffix: string)
    ensures EndsWith(s, suffix) ==> |suffix| <= |s| && s == s[..|s| - |suffix|] + suffix
  {
    |suffix| <= |s| && s[|s| - |suffix|..] == suffix
  }

  predicate IsDigit(c: char) {
    '0' <= c <= '9'
  }

  /** `s.isdecimal()`: false for the empty string. */
  predicate IsDecimal(s: string)
    ensures IsDecimal(s) ==> s != []
  {
    |s| > 0 && forall k :: 0 <= k < |s| ==> IsDigit(s[k])
  }

  /** Value of a (possibly empty) run of decimal digits. */
  function DigitsValue(s: string): nat
    requires forall k :: 0 <= k < |s| ==> IsDigit(s[k])
  {
    if s == [] then 0
    else
      assert IsDigit(s[|s| - 1]);
      10 * DigitsValue(s[..|s| - 1]) + (s[|s| - 1] as int - '0' as int)
  }

  /** How Python turns a slice or `find` bound into a position in a string of length `n`. */
  function Normalize(i: int, n: nat): (k: nat)
    ensures k <= n
    ensures 0 <= i <= n ==> k == i
    ensures -(n as int) <= i < 0 ==> k == i + n
    ensures i > n ==> k == n
    ensures i < -(n as int) ==> k == 0
  {
    if i < 0 then (if i + n < 0 then 0 else i + n)
    else if i > n then n else i
  }

  /** `s[a:b]` */
  function Slice(s: string, a: int, b: int): (r: string)
    ensures Normalize(a, |s|) <= Normalize(b, |s|) ==> r == s[Normalize(a, |s|)..Normalize(b, |s|)]
    ensures Normalize(a, |s|) > Normalize(b, |s|) ==> r == []
  {
    var lo := Normalize(a, |s|);
    var hi := Normalize(b, |s|);
    if hi <= lo then [] else s[lo..hi]
  }

  predicate OccursAt(s: string, sub: string, i: int) {
    0 <= i && i + |sub| <= |s| && s[i..i + |sub|] == sub
  }

  /** The first occurrence of `sub` inside `s[lo..hi]`, or -1. */
  function FindIn(s: string, sub: string, lo: nat, hi: nat): (r: int)
    requires |sub| > 0 && hi <= |s|
    ensures r == -1 || (lo <= r && r + |sub| <= hi && OccursAt(s, sub, r))
    decreases hi - lo
  {
    if lo + |sub| > hi then -1
    else if OccursAt(s, sub, lo) then lo
    else FindIn(s, sub, lo + 1, hi)
  }

  /** No occurrence inside the bounds comes before the one FindIn returns. */
  lemma {:induction false} FindInFirst(s: string, sub: string, lo: nat, hi: nat)
    requires |sub| > 0 && hi <= |s|
    ensures forall i ::
              (lo <= i && i + |sub| <= hi && (FindIn(s, sub, lo, hi) == -1 || i < FindIn(s, sub, lo, hi)))
              ==> !OccursAt(s, sub, i)
    decreases hi - lo
  {
    if lo + |sub| <= hi && !OccursAt(s, sub, lo) {
      FindInFirst(s, sub, lo + 1, hi);
    }
  }

  /** The last occurrence of `sub` inside `s[lo..hi]`, or -1. */
  function RFindIn(s: string, sub: string, lo: nat, hi: nat): (r: int)
    requires |sub| > 0 && hi <= |s|
    ensures r == -1 || (lo <= r && r + |sub| <= hi && OccursAt(s, sub, r))
    decreases hi
  {
    if lo + |sub| > hi then -1
    else if OccursAt(s, sub, hi - |sub|) then hi - |sub|
    else RFindIn(s, sub, lo, hi - 1)
  }

  /** No occurrence inside the bounds comes after the one RFindIn returns. */
  lemma {:induction false} RFindInLast(s: string, sub: string, lo: nat, hi: nat)
    requires |sub| > 0 && hi <= |s|
    ensures forall i ::
              (lo <= i && i + |sub| <= hi && RFindIn(s, sub, lo, hi) < i)
              ==> !OccursAt(s, sub, i)
    decreases hi
  {
    if lo + |sub| <= hi && !OccursAt(s, sub, hi - |sub|) {
      RFindInLast(s, sub, lo, hi - 1);
    }
  }

  /** `s.find(sub, start, end)` */
  function Find(s: string, sub: string, start: int, end: int): (r: int)
    requires |sub| > 0
    ensures r == -1 || (Normalize(start, |s|) <= r && r + |sub| <= Normalize(end, |s|) && OccursAt(s, sub, r))
  {
    FindIn(s, sub, Normalize(start, |s|), Normalize(end, |s|))
  }

  /** `s.find` returns the first occurrence inside the normalised bounds. */
  lemma FindFirst(s: string, sub: string, start: int, end: int)
    requires |sub| > 0
    ensures forall i ::
              (Normalize(start, |s|) <= i && i + |sub| <= Normalize(end, |s|) &&
               (Find(s, sub, start, end) == -1 || i < Find(s, sub, start, end)))
              ==> !OccursAt(s, sub, i)
  {
    FindInFirst(s, sub, Normalize(start, |s|), Normalize(end, |s|));
  }

  /** `s.rfind(sub, start, end)` */
  function RFind(s: string, sub: string, start: int, end: int): (r: int)
    requires |sub| > 0
    ensures r == -1 || (Normalize(start, |s|) <= r && r + |sub| <= Normalize(end, |s|) && OccursAt(s, sub, r))
  {
    RFindIn(s, sub, Normalize(start, |s|), Normalize(end, |s|))
  }

  /** `s.rfind` returns the last occurrence inside the normalised bounds. */
  lemma RFindLast(s: string, sub: string, start: int, end: int)
    requires |sub| > 0
    ensures forall i ::
              (Normalize(start, |s|) <= i && i + |sub| <= Normalize(end, |s|) && RFind(s, sub, start, end) < i)
              ==> !OccursAt(s, sub, i)
  {
    RFindInLast(s, sub, Normalize(start, |s|), Normalize(end, |s|));
  }

  /** `i` is the first position at or after `from` holding `c`. */
  predicate FirstAt(s: string, c: char, i: int, from: int) {
    0 <= from <= i < |s| && s[i] == c && forall j :: from <= j < i ==> s[j] != c
  }

  /** `i` is the last position before `end` holding `c`, or -1 when `s[..end]` has none. */
  predicate LastBefore(s: string, c: char, i: int, end: int) {
    && 0 <= end <= |s|
    && -1 <= i < end
    && (i >= 0 ==> s[i] == c)
    && forall j :: i < j < end ==> s[j] != c
  }

  lemma OccursAtChar(s: string, c: char, j: int)
    ensures OccursAt(s, [c], j) <==> 0 <= j < |s| && s[j] == c
  {
    if 0 <= j < |s| {
      assert s[j..j + 1] == [s[j]];
    }
  }

  /** `s.find(c, from)` for a single character. */
  lemma FindChar(s: string, c: char, i: int, from: int)
    requires FirstAt(s, c, i, from)
    ensures Find(s, [c], from, |s|) == i
  {
    var r := Find(s, [c], from, |s|);
    FindFirst(s, [c], from, |s|);
    OccursAtChar(s, c, i);
    OccursAtChar(s, c, r);
  }

  /** `s.rfind(c, 0, end)` for a single character. */
  lemma RFindChar(s: string, c: char, i: int, end: int)
    requires LastBefore(s, c, i, end)
    ensures RFind(s, [c], 0, end) == i
  {
    var r := RFind(s, [c], 0, end);
    RFindLast(s, [c], 0, end);
    OccursAtChar(s, c, r);
    if i >= 0 {
      OccursAtChar(s, c, i);
    }
  }

  /** `s.split(sep)` for a one-character separator: empty parts are kept. */
  function Split(s: string, sep: char): (parts: seq<string>)
    ensures |parts| >= 1
    ensures forall k :: 0 <= k < |parts| ==> sep !in parts[k]
  {
    if s == [] then [""]
    else
      var rest := Split(s[1..], sep);
      if s[0] == sep then [""] + rest
      else [[s[0]] + rest[0]] + rest[1..]
  }

  /** `sep.join(parts)` for a one-character separator. */
  function Join(parts: seq<string>, sep: char): string {
    if parts == [] then ""
    else if |parts| == 1 then parts[0]
    else parts[0] + [sep] + Join(parts[1..], sep)
  }

  /** Joining the parts of a split gives the string back. */
  lemma {:induction false} JoinSplit(s: string, sep: char)
    ensures Join(Split(s, sep), sep) == s
  {
    if s != [] {
      var rest := Split(s[1..], sep);
      JoinSplit(s[1..], sep);
      if s[0] != sep {
        if |rest| == 1 {
          assert Join(Split(s, sep), sep) == [s[0]] + rest[0];
        } else {
          assert Join(rest, sep) == rest[0] + [sep] + Join(rest[1..], sep);
          assert Join(Split(s, sep), sep) == [s[0]] + rest[0] + [sep] + Join(rest[1..], sep);
        }
      }
    }
  }

  /** A separator-free string splits into itself. */
  lemma {:induction false} SplitPlain(x: string, sep: char)
    requires sep !in x
    ensures Split(x, sep) == [x]
  {
    if x != [] {
      SplitPlain(x[1..], sep);
      assert x[0] != sep;
      assert [x[0]] + x[1..] == x;
    }
  }

  /** Splitting at the first separator. */
  lemma {:induction false} SplitAtSeparator(x: string, y: string, sep: char)
    requires sep !in x
    ensures Split(x + [sep] + y, sep) == [x] + Split(y, sep)
  {
    if x != [] {
      var s := x + [sep] + y;
      assert s[0] == x[0] && x[0] != sep;
      assert s[1..] == x[1..] + [sep] + y;
      SplitAtSeparator(x[1..], y, sep);
      assert [x[0]] + x[1..] == x;
    } else {
      assert (x + [sep] + y) == [sep] + y;
      assert ([sep] + y)[1..] == y;
    }
  }

  /** Splitting a join of separator-free parts gives the parts back. */
  lemma {:induction false} SplitJoin(parts: seq<string>, sep: char)
    requires |parts| >= 1
    requires forall k :: 0 <= k < |parts| ==> sep !in parts[k]
    ensures Split(Join(parts, sep), sep) == parts
  {
    if |parts| == 1 {
      SplitPlain(parts[0], sep);
    } else {
      SplitJoin(parts[1..], sep);
      SplitAtSeparator(parts[0], Join(parts[1..], sep), sep);
    }
  }

  /** `s.replace(c, "", 1)`: drops the first occurrence of `c`. */
  function RemoveFirst(s: string, c: char): (r: string)
    ensures c in s ==> |r| == |s| - 1
    ensures c !in s ==> r == s
    ensures forall i :: FirstAt(s, c, i, 0) ==> r == s[..i] + s[i + 1..]
  {
    if s == [] then s
    else if s[0] == c then s[1..]
    else
      var t := RemoveFirst(s[1..], c);
      assert forall i :: FirstAt(s, c, i, 0) ==> [s[0]] + t == s[..i] + s[i + 1..] by {
        forall i | FirstAt(s, c, i, 0)
          ensures [s[0]] + t == s[..i] + s[i + 1..]
        {
          FirstAtTail(s, c, i);
        }
      }
      [s[0]] + t
  }

  /** The first occurrence past a non-matching head is the tail's first one. */
  lemma FirstAtTail(s: string, c: char, i: int)
    requires s != [] && s[0] != c && FirstAt(s, c, i, 0)
    ensures FirstAt(s[1..], c, i - 1, 0)
    ensures s[..i] == [s[0]] + s[1..][..i - 1] && s[i + 1..] == s[1..][i..]
  {
    assert forall j :: 1 <= j < |s| ==> s[j] == s[1..][j - 1];
  }

  /** Digits with at most one `.` among them, and at least one digit. */
  predicate DigitsWithPoint(t: string) {
    && (forall k :: 0 <= k < |t| ==> IsDigit(t[k]) || t[k] == '.')
    && (forall j, k :: 0 <= j < k < |t| && t[j] == '.' ==> t[k] != '.')
    && exists k :: 0 <= k < |t| && IsDigit(t[k])
  }

  /** A character that occurs has a first occurrence. */
  lemma {:induction false} FirstOccurrence(s: string, c: char) returns (i: int)
    requires c in s
    ensures FirstAt(s, c, i, 0)
  {
    if s[0] == c {
      i := 0;
    } else {
      assert c in s[1..];
      var t := FirstOccurrence(s[1..], c);
      i := t + 1;
      assert forall j :: 1 <= j < i ==> s[j] == s[1..][j - 1];
    }
  }

  /** `t.replace('.', '', 1).isdecimal()` accepts exactly the digit strings
      with at most one decimal point. */
  lemma DecimalAfterPoint(t: string)
    ensures IsDecimal(RemoveFirst(t, '.')) <==> DigitsWithPoint(t)
  {
    if '.' in t {
      var i := FirstOccurrence(t, '.');
      if IsDecimal(RemoveFirst(t, '.')) {
        PointRemovedDigits(t, i);
      }
      if DigitsWithPoint(t) {
        DigitsPointRemoved(t, i);
      }
    } else {
      assert forall k :: 0 <= k < |t| ==> t[k] != '.';
      if IsDecimal(t) {
        assert IsDigit(t[0]);
      }
    }
  }

  lemma PointRemovedDigits(t: string, i: int)
    requires FirstAt(t, '.', i, 0) && IsDecimal(RemoveFirst(t, '.'))
    ensures DigitsWithPoint(t)
  {
    var r := RemoveFirst(t, '.');
    assert r == t[..i] + t[i + 1..];
    forall k | 0 <= k < |t| && k != i
      ensures IsDigit(t[k])
    {
      if k < i {
        assert r[k] == t[k];
      } else {
        assert r[k - 1] == t[k];
      }
    }
    assert IsDigit(t[if i == 0 then 1 else 0]);
  }

  lemma DigitsPointRemoved(t: string, i: int)
    requires FirstAt(t, '.', i, 0) && DigitsWithPoint(t)
    ensures IsDecimal(RemoveFirst(t, '.'))
  {
    var r := RemoveFirst(t, '.');
    assert r == t[..i] + t[i + 1..];
    var d :| 0 <= d < |t| && IsDigit(t[d]);
    assert d != i;
    forall k | 0 <= k < |r|
      ensures IsDigit(r[k])
    {
      if k < i {
        assert r[k] == t[k];
      } else {
        assert r[k] == t[k + 1];
        assert t[i] == '.';
      }
    }
  }

  /** Digits in groups separated by single underscores, as `int()` accepts them. */
  predicate IsDigitGroups(s: string) {
    && |s| > 0
    && IsDigit(s[0]) && IsDigit(s[|s| - 1])
    && (forall k :: 0 <= k < |s| ==> IsDigit(s[k]) || s[k] == '_')
    && (forall k :: 0 <= k < |s| - 1 ==> s[k] == '_' ==> s[k + 1] != '_')
  }

  function DropUnderscores(s: string): (r: string)
    requires forall k :: 0 <= k < |s| ==> IsDigit(s[k]) || s[k] == '_'
    ensures forall k :: 0 <= k < |r| ==> IsDigit(r[k])
    ensures '_' !in s ==> r == s
  {
    if s == [] then []
    else if s[0] == '_' then DropUnderscores(s[1..])
    else [s[0]] + DropUnderscores(s[1..])
  }

  /** `int()` of an already stripped text: an optional sign, then digit groups. */
  function ParseSigned(t: string, signAllowed: bool): Option<int> {
    if t == [] then None
    else if signAllowed && (t[0] == '-' || t[0] == '+') then
      match ParseSigned(t[1..], false)
      case None => None
      case Some(v) => Some(if t[0] == '-' then -v else v)
    else if IsDigitGroups(t) then Some(DigitsValue(DropUnderscores(t)))
    else None
  }

  /** Python's `int(s)` in base 10, `None` where it raises ValueError:
      surrounding whitespace is dropped one character at a time. */
  function ParseInt(s: string): Option<int> {
    if s != [] && IsSpace(s[0]) then ParseInt(s[1..])
    else if s != [] && IsSpace(s[|s| - 1]) then ParseInt(s[..|s| - 1])
    else ParseSigned(s, true)
  }

  /** `int(s)` is `int()` of `s.strip()`: whitespace around the number is ignored. */
  lemma {:induction false} ParseIntStrips(s: string)
    ensures ParseInt(s) == ParseSigned(Strip(s), true)
  {
    if s != [] && IsSpace(s[0]) {
      ParseIntStrips(s[1..]);
    } else if s != [] && IsSpace(s[|s| - 1]) {
      ParseIntStrips(s[..|s| - 1]);
    }
  }

  function DigitChar(d: nat): (c: char)
    requires d < 10
    ensures IsDigit(c) && c as int - '0' as int == d
  {
    ('0' as int + d) as char
  }

  /** The decimal text of a natural number, as `str(n)` writes it. */
  function ShowNat(n: nat): (s: string)
    ensures IsDecimal(s)
    ensures DigitsValue(s) == n
  {
    if n < 10 then [DigitChar(n)]
    else
      var s := ShowNat(n / 10) + [DigitChar(n % 10)];
      assert s[..|s| - 1] == ShowNat(n / 10);
      s
  }

  /** The decimal text of an integer, as `str(n)` writes it. */
  function ShowInt(n: int): string {
    if n < 0 then "-" + ShowNat(-n) else ShowNat(n)
  }

  /** `int(str(n)) == n` */
  lemma ParseShowInt(n: int)
    ensures ParseInt(ShowInt(n)) == Some(n)
  {
    var d := ShowNat(if n < 0 then -n else n);
    ParseDecimal(d);
    if n < 0 {
      ParseNegative(d);
    }
  }

  /** A run of digits reads back as its value. */
  lemma ParseDecimal(d: string)
    requires IsDecimal(d)
    ensures ParseSigned(d, false) == Some(DigitsValue(d) as int)
    ensures ParseInt(d) == Some(DigitsValue(d) as int)
  {
    ParseUnsignedDecimal(d);
    assert IsDigit(d[0]) && IsDigit(d[|d| - 1]);
    assert !IsSpace(d[0]) && !IsSpace(d[|d| - 1]);
    assert ParseInt(d) == ParseSigned(d, true);
  }

  lemma ParseUnsignedDecimal(d: string)
    requires IsDecimal(d)
    ensures ParseSigned(d, true) == ParseSigned(d, false) == Some(DigitsValue(d) as int)
  {
    DecimalIsDigitGroups(d);
    assert IsDigit(d[0]);
  }

  /** A minus sign before a run of digits negates its value. */
  lemma ParseNegative(d: string)
    requires IsDecimal(d)
    requires ParseSigned(d, false) == Some(DigitsValue(d) as int)
    ensures ParseInt("-" + d) == Some(-(DigitsValue(d) as int))
  {
    var m := "-" + d;
    ParseMinus(d, DigitsValue(d));
    assert m[|m| - 1] == d[|d| - 1] && IsDigit(d[|d| - 1]);
    ParseIntTrimmed(m);
  }

  lemma ParseMinus(t: string, v: int)
    requires ParseSigned(t, false) == Some(v)
    ensures ParseSigned("-" + t, true) == Some(-v)
  {
    assert ("-" + t)[1..] == t;
  }

  /** Without surrounding whitespace, `int()` reads the sign and digits directly. */
  lemma ParseIntTrimmed(s: string)
    requires s != [] && !IsSpace(s[0]) && !IsSpace(s[|s| - 1])
    ensures ParseInt(s) == ParseSigned(s, true)
  {
  }

  lemma DecimalIsDigitGroups(d: string)
    requires IsDecimal(d)
    ensures IsDigitGroups(d) && DropUnderscores(d) == d
  {
    forall k | 0 <= k < |d|
      ensures d[k] != '_'
    {
      assert IsDigit(d[k]);
    }
  }
}
