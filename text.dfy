/**
  * Character classes and string operations of Python's `str`, restricted to
  * ASCII: `lower()`, `strip()`, `isupper()`, `split('\n')`, the `in`
  * substring test, and the regular-expression classes `\d`, `\s` and `\b`.
  */
module Text {

  /** `\s` in a `str` pattern, and `str.isspace()`, on ASCII: tab, line feed,
      vertical tab, form feed, carriage return, the four separators 0x1C-0x1F
      and space. */
  predicate IsSpace(c: char) {
    c == ' ' || '\t' <= c <= '\r' || '\U{1C}' <= c <= '\U{1F}'
  }

  /** `\d` on ASCII. */
  predicate IsDigit(c: char) {
    '0' <= c <= '9'
  }

  predicate IsUpperLetter(c: char) {
    'A' <= c <= 'Z'
  }

  predicate IsLowerLetter(c: char) {
    'a' <= c <= 'z'
  }

  /** `\w` on ASCII: letters, digits and the underscore. */
  predicate IsWordChar(c: char) {
    IsUpperLetter(c) || IsLowerLetter(c) || IsDigit(c) || c == '_'
  }

  function LowerChar(c: char): (d: char)
    ensures !IsUpperLetter(d)
    ensures IsUpperLetter(c) || d == c
  {
    if IsUpperLetter(c) then (c as int + 32) as char else c
  }

  /** `str.lower()` on ASCII: every upper-case letter becomes lower case,
      everything else is kept, and the length does not change. */
  function Lower(s: string): (r: string)
    ensures |r| == |s|
    ensures forall i :: 0 <= i < |s| ==> r[i] == LowerChar(s[i])
  {
    if s == [] then [] else [LowerChar(s[0])] + Lower(s[1..])
  }

  lemma {:induction false} LowerIdempotent(s: string)
    ensures Lower(Lower(s)) == Lower(s)
  {
    var once := Lower(s);
    var twice := Lower(once);
    assert forall i :: 0 <= i < |s| ==> twice[i] == once[i] by {
      forall i | 0 <= i < |s| ensures twice[i] == once[i] {
        assert !IsUpperLetter(once[i]);
      }
    }
  }

  /** `pat` occurs in `text` starting at index `i`. */
  predicate OccursAt(text: string, pat: string, i: nat) {
    i + |pat| <= |text| && text[i..i + |pat|] == pat
  }

  /** Python's `pat in text`. */
  predicate Contains(text: string, pat: string) {
    exists i :: 0 <= i <= |text| && OccursAt(text, pat, i)
  }

  /** Whatever contains `outer` contains every substring of `outer`. */
  lemma ContainsTransitive(text: string, outer: string, inner: string)
    requires Contains(outer, inner)
    requires Contains(text, outer)
    ensures Contains(text, inner)
  {
    var i :| 0 <= i <= |text| && OccursAt(text, outer, i);
    var j :| 0 <= j <= |outer| && OccursAt(outer, inner, j);
    forall k | 0 <= k < |inner|
      ensures text[i + j + k] == inner[k]
    {
      assert text[i..i + |outer|][j + k] == outer[j + k];
      assert outer[j..j + |inner|][k] == inner[k];
    }
    assert OccursAt(text, inner, i + j);
  }

  /** A non-empty pattern never occurs in the empty string. */
  lemma NotInEmpty(pat: string)
    requires pat != []
    ensures !Contains("", pat)
  {
  }

  /** `s` with its leading whitespace removed. */
  function StripStart(s: string): (r: string)
    ensures |r| <= |s| && r == s[|s| - |r|..]
    ensures r == [] || !IsSpace(r[0])
    ensures forall i :: 0 <= i < |s| - |r| ==> IsSpace(s[i])
  {
    if s != [] && IsSpace(s[0]) then StripStart(s[1..]) else s
  }

  /** `s` with its trailing whitespace removed. */
  function StripEnd(s: string): (r: string)
    ensures |r| <= |s| && r == s[..|r|]
    ensures r == [] || !IsSpace(r[|r| - 1])
    ensures forall i :: |r| <= i < |s| ==> IsSpace(s[i])
  {
    if s != [] && IsSpace(s[|s| - 1]) then StripEnd(s[..|s| - 1]) else s
  }

  /** `str.strip()`: the slice of `s` left after removing whitespace at both ends. */
  function Strip(s: string): (r: string)
    ensures |r| <= |s|
    ensures r == [] || (!IsSpace(r[0]) && !IsSpace(r[|r| - 1]))
  {
    StripEnd(StripStart(s))
  }

  /** `str.strip()` removes exactly the whitespace at both ends: the result is
      the slice of `s` that starts after the leading whitespace, and everything
      outside that slice is whitespace. With the contract of `Strip` (the slice
      neither starts nor ends with whitespace) this determines the result. */
  lemma StripRemovesOuterWhitespace(s: string)
    ensures var r := Strip(s);
            var a := |s| - |StripStart(s)|;
            a + |r| <= |s| && r == s[a..a + |r|] &&
            (forall i :: 0 <= i < a ==> IsSpace(s[i])) &&
            (forall i :: a + |r| <= i < |s| ==> IsSpace(s[i]))
  {
    var t := StripStart(s);
    var r := StripEnd(t);
    var a := |s| - |t|;
    assert t == s[a..];
    assert r == t[..|r|];
    forall i | a + |r| <= i < |s| ensures IsSpace(s[i]) {
      assert s[i] == t[i - a];
    }
  }

  /** `str.isupper()` on ASCII: at least one cased character, and no lower-case one. */
  predicate IsUpper(s: string) {
    (exists i :: 0 <= i < |s| && IsUpperLetter(s[i])) &&
    (forall i :: 0 <= i < |s| ==> !IsLowerLetter(s[i]))
  }

  /** `s.split('\n')`: the pieces between line feeds; there is always at least one. */
  function SplitLines(s: string): (lines: seq<string>)
    ensures |lines| >= 1
    ensures forall k :: 0 <= k < |lines| ==> '\n' !in lines[k]
  {
    if s == [] then [""]
    else
      var rest := SplitLines(s[1..]);
      if s[0] == '\n' then [""] + rest
      else [[s[0]] + rest[0]] + rest[1..]
  }

  /** `'\n'.join(lines)`. */
  function JoinLines(lines: seq<string>): string
    requires |lines| >= 1
  {
    if |lines| == 1 then lines[0] else lines[0] + "\n" + JoinLines(lines[1..])
  }

  /** Splitting at line feeds loses nothing: joining the pieces restores the text. */
  lemma {:induction false} JoinSplitLines(s: string)
    ensures JoinLines(SplitLines(s)) == s
  {
    if s != [] {
      var rest := SplitLines(s[1..]);
      JoinSplitLines(s[1..]);
      if s[0] == '\n' {
        assert SplitLines(s)[1..] == rest;
      } else {
        var lines := SplitLines(s);
        assert lines[1..] == rest[1..];
        if |rest| > 1 {
          assert JoinLines(rest) == rest[0] + "\n" + JoinLines(rest[1..]);
        }
      }
    }
  }

  /** Conversely, lines without line feeds come back unchanged from a join and a split. */
  lemma {:induction false} SplitJoinLines(lines: seq<string>)
    requires |lines| >= 1
    requires forall k :: 0 <= k < |lines| ==> '\n' !in lines[k]
    ensures SplitLines(JoinLines(lines)) == lines
  {
    if |lines| == 1 {
      SplitLineWithoutBreak(lines[0]);
    } else {
      SplitJoinLines(lines[1..]);
      SplitPrefix(lines[0], JoinLines(lines[1..]));
    }
  }

  lemma {:induction false} SplitLineWithoutBreak(line: string)
    requires '\n' !in line
    ensures SplitLines(line) == [line]
  {
    if line != [] {
      SplitLineWithoutBreak(line[1..]);
      assert [line[0]] + line[1..] == line;
    }
  }

  /** Splitting `line + "\n" + rest` puts `line` first, before the pieces of `rest`. */
  lemma {:induction false} SplitPrefix(line: string, rest: string)
    requires '\n' !in line
    ensures SplitLines(line + "\n" + rest) == [line] + SplitLines(rest)
  {
    if line == [] {
      assert line + "\n" + rest == ['\n'] + rest;
      assert (['\n'] + rest)[1..] == rest;
    } else {
      var s := line + "\n" + rest;
      assert s[1..] == line[1..] + "\n" + rest;
      SplitPrefix(line[1..], rest);
      assert [line[0]] + line[1..] == line;
    }
  }
}
