/**
  * Rule-based extraction of skills, required experience and a visa signal
  * from a posting's description, and the normalisation of a raw posting.
  * Every extractor works on text that has already been lower-cased.
  */
module JobParser {
  import opened Wrappers
  import opened Text
  import opened StringOrder
  import opened Models

  /** The fixed skill vocabulary, written as the union of the rows in which
      the source lists it. */
  const CommonSkills: set<string> :=
    {"python", "java", "c++", "javascript", "typescript", "react", "angular", "vue"} +
    {"aws", "azure", "gcp", "docker", "kubernetes", "sql", "nosql", "redis"} +
    {"mongodb", "postgresql", "mysql", "django", "flask", "fastapi", "spring"} +
    {"node.js", "go", "golang", "rust", "ruby", "rails", "php", "swift", "kotlin"} +
    {"terraform", "jenkins", "gitlab", "github", "linux", "git"} +
    {"ansible", "bash", "shell", "scripting", "sre", "ci/cd", "circleci"} +
    {"prometheus", "grafana", "elasticsearch", "kafka"}

  /** Terms with punctuation, looked up as plain substrings. "c#" and ".net"
      are listed although the vocabulary holds neither. */
  const SubstringSkills: set<string> := {"c++", "node.js", "c#", ".net", "ci/cd"}

  const VisaKeywordsPositive: set<string> := {"visa sponsorship", "sponsor", "h1b"}

  const VisaKeywordsNegative: set<string> := {
    "us citizen", "green card", "permanent resident", "no sponsorship", "not sponsor"
  }

  // ---------------------------------------------------------------- skills

  /** `\b` at position `k`: a word character on exactly one side of `k`. */
  predicate IsBoundary(text: string, k: nat)
    requires k <= |text|
  {
    (k > 0 && IsWordChar(text[k - 1])) != (k < |text| && IsWordChar(text[k]))
  }

  /** The pattern `\bword\b` matches at index `i`. */
  predicate WordAt(text: string, word: string, i: nat) {
    OccursAt(text, word, i) && IsBoundary(text, i) && IsBoundary(text, i + |word|)
  }

  /** A search for `\bword\b` succeeds somewhere in `text`. */
  predicate ContainsWord(text: string, word: string) {
    exists i :: 0 <= i <= |text| && WordAt(text, word, i)
  }

  /** The test applied to one vocabulary entry: a substring test for the
      punctuated terms, a word-bounded search for all others. */
  predicate SkillFound(skill: string, text: string) {
    if skill in SubstringSkills then Contains(text, skill) else ContainsWord(text, skill)
  }

  /** The skills of `text`: the vocabulary entries found in it, in ascending
      order and each once. */
  ghost function SkillsIn(text: string): (skills: seq<string>)
    ensures StrictlySorted(skills)
    ensures forall s :: s in skills <==> s in CommonSkills && SkillFound(s, text)
  {
    var matched := set s | s in CommonSkills && SkillFound(s, text);
    var r := Ascending(matched);
    assert forall s :: s in r <==> s in multiset(r);
    r
  }

  /** Walks the vocabulary in whatever order the set yields, collects the
      entries found, and sorts them. */
  method ExtractSkills(text: string) returns (skills: seq<string>)
    ensures skills == SkillsIn(text)
  {
    ghost var matched := set s | s in CommonSkills && SkillFound(s, text);
    var found: seq<string> := [];
    var remaining := CommonSkills;
    while remaining != {}
      invariant multiset(found) == multiset(matched - remaining)
      decreases remaining
    {
      var skill :| skill in remaining;
      ghost var before := found;
      if skill in SubstringSkills {
        if Contains(text, skill) {
          found := found + [skill];
        }
      } else {
        if ContainsWord(text, skill) {
          found := found + [skill];
        }
      }
      CollectStep(before, found, matched, remaining, skill);
      remaining := remaining - {skill};
    }
    skills := SortStrings(found);
    SortedMatchesAreSkills(found, text);
  }

  /** Visiting one more vocabulary entry keeps `found` a listing of the
      entries matched among those visited. */
  lemma CollectStep(before: seq<string>, after: seq<string>, matched: set<string>, remaining: set<string>, skill: string)
    requires skill in remaining
    requires multiset(before) == multiset(matched - remaining)
    requires after == if skill in matched then before + [skill] else before
    ensures multiset(after) == multiset(matched - (remaining - {skill}))
  {
    if skill in matched {
      assert matched - (remaining - {skill}) == (matched - remaining) + {skill};
      assert skill !in matched - remaining;
    } else {
      assert matched - (remaining - {skill}) == matched - remaining;
    }
  }

  /** Sorting any listing of the matched entries gives `SkillsIn`. */
  lemma SortedMatchesAreSkills(found: seq<string>, text: string)
    requires multiset(found) == multiset(set s | s in CommonSkills && SkillFound(s, text))
    ensures SortStrings(found) == SkillsIn(text)
  {
    SortedUnique(SortStrings(found), SkillsIn(text));
  }

  // ------------------------------------------------------------ experience

  /** The four experience patterns, tried in this order:
      `(\d+)\s*\+\s*years`, `(\d+)\s*-\s*\d+\s*years`,
      `(\d+)\s*to\s*\d+\s*years` and `(\d+)\s*years`. */
  datatype Pattern = PlusYears | DashRange | ToRange | PlainYears

  const ExperiencePatterns: seq<Pattern> := [PlusYears, DashRange, ToRange, PlainYears]

  predicate AllDigits(g: string) {
    forall k :: 0 <= k < |g| ==> IsDigit(g[k])
  }

  /** End of the run of digits that starts at `i`. */
  function DigitsEnd(text: string, i: nat): (j: nat)
    requires i <= |text|
    ensures i <= j <= |text|
    decreases |text| - i
  {
    if i < |text| && IsDigit(text[i]) then DigitsEnd(text, i + 1) else i
  }

  /** The run is maximal: every character before its end is a digit, and
      the character at its end is not. */
  lemma {:induction false} DigitsEndIsMaximal(text: string, i: nat)
    requires i <= |text|
    ensures AllDigits(text[i..DigitsEnd(text, i)])
    ensures DigitsEnd(text, i) == |text| || !IsDigit(text[DigitsEnd(text, i)])
    decreases |text| - i
  {
    if i < |text| && IsDigit(text[i]) {
      DigitsEndIsMaximal(text, i + 1);
      var j := DigitsEnd(text, i);
      assert text[i..j] == [text[i]] + text[i + 1..j];
    }
  }

  /** End of the run of whitespace that starts at `i`. */
  function SpacesEnd(text: string, i: nat): (j: nat)
    requires i <= |text|
    ensures i <= j <= |text|
    decreases |text| - i
  {
    if i < |text| && IsSpace(text[i]) then SpacesEnd(text, i + 1) else i
  }

  /** `\d+\s*` at `k`: where it ends, or None without a digit at `k`. */
  function NumberEnd(text: string, k: nat): (e: Option<nat>)
    requires k <= |text|
    ensures e.Some? ==> k < e.value <= |text|
  {
    var d := DigitsEnd(text, k);
    if d == k then None else Some(SpacesEnd(text, d))
  }

  /** The part of a pattern between `(\d+)\s*` and `years`, matched at `k`. */
  function SeparatorEnd(p: Pattern, text: string, k: nat): (e: Option<nat>)
    requires k <= |text|
    ensures e.Some? ==> k <= e.value <= |text|
  {
    match p
    case PlainYears => Some(k)
    case PlusYears => if k < |text| && text[k] == '+' then Some(SpacesEnd(text, k + 1)) else None
    case DashRange => if k < |text| && text[k] == '-' then NumberEnd(text, SpacesEnd(text, k + 1)) else None
    case ToRange => if OccursAt(text, "to", k) then NumberEnd(text, SpacesEnd(text, k + 2)) else None
  }

  /** An attempt to match pattern `p` at index `i`: the captured digits and
      where the match ends. Each piece of the four patterns is followed by
      something its last character cannot start (digits by a non-digit,
      whitespace by a non-space), so taking every run whole is the only way
      a match can succeed, and backtracking is never needed. */
  function MatchAt(p: Pattern, text: string, i: nat): (m: Option<(string, nat)>)
    requires i <= |text|
    ensures m.Some? ==> i < m.value.1 <= |text|
  {
    var d := DigitsEnd(text, i);
    if d == i then None
    else
      match SeparatorEnd(p, text, SpacesEnd(text, d))
      case Some(k) => if OccursAt(text, "years", k) then Some((text[i..d], k + 5)) else None
      case None => None
  }

  /** A match captures the maximal non-empty run of digits where it starts,
      and ends with "years". */
  lemma MatchAtShape(p: Pattern, text: string, i: nat)
    requires i <= |text|
    ensures var m := MatchAt(p, text, i);
            m.Some? ==> m.value.0 != [] && AllDigits(m.value.0) &&
                        OccursAt(text, m.value.0, i) &&
                        (i + |m.value.0| == |text| || !IsDigit(text[i + |m.value.0|])) &&
                        i + |m.value.0| + 5 <= m.value.1 && OccursAt(text, "years", m.value.1 - 5)
  {
    DigitsEndIsMaximal(text, i);
  }

  // ------------------------------------------------ the patterns as regexes

  /** The pieces the four patterns are built from: `\d+`, `\s*` and a literal. */
  datatype Piece = DigitRun | SpaceRun | Literal(word: string)

  /** Each pattern as a regular expression, piece by piece. The captured
      group is the first piece. */
  function Pieces(p: Pattern): seq<Piece> {
    match p
    case PlusYears => [DigitRun, SpaceRun, Literal("+"), SpaceRun, Literal("years")]
    case DashRange => [DigitRun, SpaceRun, Literal("-"), SpaceRun, DigitRun, SpaceRun, Literal("years")]
    case ToRange => [DigitRun, SpaceRun, Literal("to"), SpaceRun, DigitRun, SpaceRun, Literal("years")]
    case PlainYears => [DigitRun, SpaceRun, Literal("years")]
  }

  /** Every character from `a` up to `b` is a digit. */
  predicate DigitsIn(text: string, a: nat, b: nat)
    requires a <= b <= |text|
  {
    forall k :: a <= k < b ==> IsDigit(text[k])
  }

  /** Every character from `a` up to `b` is whitespace. */
  predicate SpacesIn(text: string, a: nat, b: nat)
    requires a <= b <= |text|
  {
    forall k :: a <= k < b ==> IsSpace(text[k])
  }

  /** `text[a..b]` has the form of `piece`. */
  predicate PieceAt(piece: Piece, text: string, a: nat, b: nat)
    requires a <= b <= |text|
  {
    match piece
    case DigitRun => a < b && DigitsIn(text, a, b)
    case SpaceRun => SpacesIn(text, a, b)
    case Literal(word) => b == a + |word| && OccursAt(text, word, a)
  }

  /** The cut positions split `text[cuts[0]..cuts[|pieces|]]` into consecutive
      parts, one per piece, each of that piece's form: the regular
      expression matches there, in the way the cuts describe. */
  predicate SplitMatches(pieces: seq<Piece>, text: string, cuts: seq<nat>) {
    |cuts| == |pieces| + 1 &&
    forall j {:trigger pieces[j]} :: 0 <= j < |pieces| ==>
      cuts[j] <= cuts[j + 1] <= |text| && PieceAt(pieces[j], text, cuts[j], cuts[j + 1])
  }

  /** The regular expression of `p` matches text from `i` to `e`, with `g`
      as its captured group. */
  ghost predicate IsRegexMatch(p: Pattern, text: string, i: nat, g: string, e: nat) {
    exists cuts :: SplitMatches(Pieces(p), text, cuts) &&
                   cuts[0] == i && cuts[|cuts| - 1] == e &&
                   cuts[0] <= cuts[1] <= |text| && g == text[cuts[0]..cuts[1]]
  }

  /** The scanner's runs are maximal: digits (whitespace) up to the end of
      the run, and none at the end. */
  lemma {:induction false} DigitRunOf(text: string, i: nat)
    requires i <= |text|
    ensures DigitsIn(text, i, DigitsEnd(text, i))
    ensures DigitsEnd(text, i) == |text| || !IsDigit(text[DigitsEnd(text, i)])
    decreases |text| - i
  {
    if i < |text| && IsDigit(text[i]) {
      DigitRunOf(text, i + 1);
    }
  }

  lemma {:induction false} SpaceRunOf(text: string, i: nat)
    requires i <= |text|
    ensures SpacesIn(text, i, SpacesEnd(text, i))
    ensures SpacesEnd(text, i) == |text| || !IsSpace(text[SpacesEnd(text, i)])
    decreases |text| - i
  {
    if i < |text| && IsSpace(text[i]) {
      SpaceRunOf(text, i + 1);
    }
  }

  /** A run of digits from `a` to `b` that no digit follows ends where the
      scanner's run ends. */
  lemma {:induction false} DigitsEndAt(text: string, a: nat, b: nat)
    requires a <= b <= |text| && DigitsIn(text, a, b)
    requires b == |text| || !IsDigit(text[b])
    ensures DigitsEnd(text, a) == b
    decreases b - a
  {
    if a < b {
      DigitsEndAt(text, a + 1, b);
    }
  }

  /** Likewise for a run of whitespace. */
  lemma {:induction false} SpacesEndAt(text: string, a: nat, b: nat)
    requires a <= b <= |text| && SpacesIn(text, a, b)
    requires b == |text| || !IsSpace(text[b])
    ensures SpacesEnd(text, a) == b
    decreases b - a
  {
    if a < b {
      SpacesEndAt(text, a + 1, b);
    }
  }

  /** `\d+\s*` followed by the non-digit, non-space `c`: the scanner's runs
      end at the same cuts. */
  lemma NumberBeforeAt(text: string, c0: nat, c1: nat, c2: nat, c: char)
    requires c0 < c1 <= c2 < |text| && DigitsIn(text, c0, c1) && SpacesIn(text, c1, c2)
    requires text[c2] == c && !IsDigit(c) && !IsSpace(c)
    ensures DigitsEnd(text, c0) == c1 && SpacesEnd(text, c1) == c2
  {
    assert !IsDigit(text[c1]);
    DigitsEndAt(text, c0, c1);
    SpacesEndAt(text, c1, c2);
  }

  /** Cuts that split the text as `Pieces(p)` witness a regex match. */
  lemma SplitIsRegexMatch(p: Pattern, text: string, cuts: seq<nat>)
    requires SplitMatches(Pieces(p), text, cuts)
    ensures cuts[0] <= cuts[1] <= |text|
    ensures IsRegexMatch(p, text, cuts[0], text[cuts[0]..cuts[1]], cuts[|cuts| - 1])
  {
    assert Pieces(p)[0] == DigitRun;
  }

  // The plain pattern `(\d+)\s*years`.

  lemma PlainIsMatchAt(text: string, cuts: seq<nat>)
    requires SplitMatches(Pieces(PlainYears), text, cuts)
    ensures |cuts| == 4
    ensures cuts[0] <= cuts[1] <= cuts[3] <= |text|
    ensures MatchAt(PlainYears, text, cuts[0]) == Some((text[cuts[0]..cuts[1]], cuts[3]))
  {
    var P := Pieces(PlainYears);
    assert PieceAt(P[0], text, cuts[0], cuts[1]);
    assert PieceAt(P[1], text, cuts[1], cuts[2]);
    assert PieceAt(P[2], text, cuts[2], cuts[3]);
    assert text[cuts[2]] == text[cuts[2]..cuts[3]][0];
    NumberBeforeAt(text, cuts[0], cuts[1], cuts[2], 'y');
  }

  lemma PlainIsRegexMatch(text: string, i: nat)
    requires i <= |text| && MatchAt(PlainYears, text, i).Some?
    ensures var m := MatchAt(PlainYears, text, i).value;
            IsRegexMatch(PlainYears, text, i, m.0, m.1)
  {
    var P := Pieces(PlainYears);
    var d := DigitsEnd(text, i);
    var s := SpacesEnd(text, d);
    DigitRunOf(text, i);
    SpaceRunOf(text, d);
    var cuts := [i, d, s, s + 5];
    forall j {:trigger P[j]} | 0 <= j < 3
      ensures cuts[j] <= cuts[j + 1] <= |text| && PieceAt(P[j], text, cuts[j], cuts[j + 1])
    {
    }
    SplitIsRegexMatch(PlainYears, text, cuts);
  }

  // The "+" pattern `(\d+)\s*\+\s*years`.

  predicate PlusShape(text: string, c0: nat, c1: nat, c2: nat, c3: nat, c4: nat, c5: nat) {
    c0 < c1 <= c2 < c3 <= c4 < c5 <= |text| &&
    DigitsIn(text, c0, c1) && SpacesIn(text, c1, c2) && c3 == c2 + 1 && text[c2] == '+' &&
    SpacesIn(text, c3, c4) && c5 == c4 + 5 && OccursAt(text, "years", c4)
  }

  lemma PlusSplitHasShape(text: string, cuts: seq<nat>)
    requires SplitMatches(Pieces(PlusYears), text, cuts)
    ensures PlusShape(text, cuts[0], cuts[1], cuts[2], cuts[3], cuts[4], cuts[5])
  {
    var P := Pieces(PlusYears);
    assert PieceAt(P[0], text, cuts[0], cuts[1]);
    assert PieceAt(P[1], text, cuts[1], cuts[2]);
    assert PieceAt(P[2], text, cuts[2], cuts[3]);
    assert PieceAt(P[3], text, cuts[3], cuts[4]);
    assert PieceAt(P[4], text, cuts[4], cuts[5]);
    assert text[cuts[2]] == text[cuts[2]..cuts[3]][0];
  }

  lemma PlusShapeIsSplit(text: string, c0: nat, c1: nat, c2: nat, c3: nat, c4: nat, c5: nat)
    requires PlusShape(text, c0, c1, c2, c3, c4, c5)
    ensures SplitMatches(Pieces(PlusYears), text, [c0, c1, c2, c3, c4, c5])
  {
    var P := Pieces(PlusYears);
    var cuts := [c0, c1, c2, c3, c4, c5];
    assert text[c2..c3] == [text[c2]];
    forall j {:trigger P[j]} | 0 <= j < 5
      ensures cuts[j] <= cuts[j + 1] <= |text| && PieceAt(P[j], text, cuts[j], cuts[j + 1])
    {
    }
  }

  lemma PlusIsMatchAt(text: string, cuts: seq<nat>)
    requires SplitMatches(Pieces(PlusYears), text, cuts)
    ensures |cuts| == 6
    ensures cuts[0] <= cuts[1] <= cuts[5] <= |text|
    ensures MatchAt(PlusYears, text, cuts[0]) == Some((text[cuts[0]..cuts[1]], cuts[5]))
  {
    PlusSplitHasShape(text, cuts);
    assert text[cuts[4]] == text[cuts[4]..cuts[5]][0];
    NumberBeforeAt(text, cuts[0], cuts[1], cuts[2], '+');
    SpacesEndAt(text, cuts[3], cuts[4]);
  }

  lemma PlusIsRegexMatch(text: string, i: nat)
    requires i <= |text| && MatchAt(PlusYears, text, i).Some?
    ensures var m := MatchAt(PlusYears, text, i).value;
            IsRegexMatch(PlusYears, text, i, m.0, m.1)
  {
    var d := DigitsEnd(text, i);
    var s := SpacesEnd(text, d);
    var t := SpacesEnd(text, s + 1);
    assert MatchAt(PlusYears, text, i) == Some((text[i..d], t + 5));
    DigitRunOf(text, i);
    SpaceRunOf(text, d);
    SpaceRunOf(text, s + 1);
    PlusShapeIsSplit(text, i, d, s, s + 1, t, t + 5);
    var cuts: seq<nat> := [i, d, s, s + 1, t, t + 5];
    SplitIsRegexMatch(PlusYears, text, cuts);
  }

  // The range patterns `(\d+)\s*-\s*\d+\s*years` and `(\d+)\s*to\s*\d+\s*years`.

  /** A range pattern's match, part by part, with `sep` the separator and
      `c0`..`c7` the cuts. */
  predicate RangeShape(sep: string, text: string, c0: nat, c1: nat, c2: nat, c3: nat,
                       c4: nat, c5: nat, c6: nat, c7: nat) {
    c0 < c1 <= c2 <= c3 <= c4 < c5 <= c6 <= c7 <= |text| &&
    DigitsIn(text, c0, c1) && SpacesIn(text, c1, c2) && c3 == c2 + |sep| && OccursAt(text, sep, c2) &&
    SpacesIn(text, c3, c4) && DigitsIn(text, c4, c5) && SpacesIn(text, c5, c6) &&
    c7 == c6 + 5 && OccursAt(text, "years", c6)
  }

  /** The pattern and its separator: "-" or "to". */
  predicate RangeSeparator(p: Pattern, sep: string) {
    (p == DashRange && sep == "-") || (p == ToRange && sep == "to")
  }

  lemma RangeSplitHasShape(p: Pattern, sep: string, text: string, cuts: seq<nat>)
    requires RangeSeparator(p, sep) && SplitMatches(Pieces(p), text, cuts)
    ensures RangeShape(sep, text, cuts[0], cuts[1], cuts[2], cuts[3], cuts[4], cuts[5], cuts[6], cuts[7])
  {
    var P := Pieces(p);
    assert PieceAt(P[0], text, cuts[0], cuts[1]);
    assert PieceAt(P[1], text, cuts[1], cuts[2]);
    assert PieceAt(P[2], text, cuts[2], cuts[3]);
    assert PieceAt(P[3], text, cuts[3], cuts[4]);
    assert PieceAt(P[4], text, cuts[4], cuts[5]);
    assert PieceAt(P[5], text, cuts[5], cuts[6]);
    assert PieceAt(P[6], text, cuts[6], cuts[7]);
  }

  lemma RangeShapeIsSplit(p: Pattern, sep: string, text: string, c0: nat, c1: nat, c2: nat, c3: nat,
                          c4: nat, c5: nat, c6: nat, c7: nat)
    requires RangeSeparator(p, sep) && RangeShape(sep, text, c0, c1, c2, c3, c4, c5, c6, c7)
    ensures SplitMatches(Pieces(p), text, [c0, c1, c2, c3, c4, c5, c6, c7])
  {
    var P := Pieces(p);
    var cuts := [c0, c1, c2, c3, c4, c5, c6, c7];
    forall j {:trigger P[j]} | 0 <= j < 7
      ensures cuts[j] <= cuts[j + 1] <= |text| && PieceAt(P[j], text, cuts[j], cuts[j + 1])
    {
    }
  }

  /** What the scanner computes after the separator of a range pattern. */
  lemma RangeTailAt(text: string, c3: nat, c4: nat, c5: nat, c6: nat)
    requires c3 <= c4 < c5 <= c6 < |text|
    requires SpacesIn(text, c3, c4) && DigitsIn(text, c4, c5) && SpacesIn(text, c5, c6) && text[c6] == 'y'
    ensures SpacesEnd(text, c3) == c4 && NumberEnd(text, c4) == Some(c6)
  {
    SpacesEndAt(text, c3, c4);
    NumberBeforeAt(text, c4, c5, c6, 'y');
  }

  lemma DashIsMatchAt(text: string, cuts: seq<nat>)
    requires SplitMatches(Pieces(DashRange), text, cuts)
    ensures |cuts| == 8
    ensures cuts[0] <= cuts[1] <= cuts[7] <= |text|
    ensures MatchAt(DashRange, text, cuts[0]) == Some((text[cuts[0]..cuts[1]], cuts[7]))
  {
    RangeSplitHasShape(DashRange, "-", text, cuts);
    DashShapeIsMatchAt(text, cuts[0], cuts[1], cuts[2], cuts[3], cuts[4], cuts[5], cuts[6], cuts[7]);
  }

  lemma DashShapeIsMatchAt(text: string, c0: nat, c1: nat, c2: nat, c3: nat,
                           c4: nat, c5: nat, c6: nat, c7: nat)
    requires RangeShape("-", text, c0, c1, c2, c3, c4, c5, c6, c7)
    ensures MatchAt(DashRange, text, c0) == Some((text[c0..c1], c7))
  {
    assert text[c2] == text[c2..c3][0];
    assert text[c6] == text[c6..c7][0];
    NumberBeforeAt(text, c0, c1, c2, '-');
    RangeTailAt(text, c3, c4, c5, c6);
    assert SeparatorEnd(DashRange, text, c2) == Some(c6);
  }

  lemma ToIsMatchAt(text: string, cuts: seq<nat>)
    requires SplitMatches(Pieces(ToRange), text, cuts)
    ensures |cuts| == 8
    ensures cuts[0] <= cuts[1] <= cuts[7] <= |text|
    ensures MatchAt(ToRange, text, cuts[0]) == Some((text[cuts[0]..cuts[1]], cuts[7]))
  {
    RangeSplitHasShape(ToRange, "to", text, cuts);
    ToShapeIsMatchAt(text, cuts[0], cuts[1], cuts[2], cuts[3], cuts[4], cuts[5], cuts[6], cuts[7]);
  }

  lemma ToShapeIsMatchAt(text: string, c0: nat, c1: nat, c2: nat, c3: nat,
                         c4: nat, c5: nat, c6: nat, c7: nat)
    requires RangeShape("to", text, c0, c1, c2, c3, c4, c5, c6, c7)
    ensures MatchAt(ToRange, text, c0) == Some((text[c0..c1], c7))
  {
    assert text[c2] == text[c2..c3][0];
    assert text[c6] == text[c6..c7][0];
    NumberBeforeAt(text, c0, c1, c2, 't');
    RangeTailAt(text, c3, c4, c5, c6);
    assert SeparatorEnd(ToRange, text, c2) == Some(c6);
  }

  lemma RangeWitness(p: Pattern, sep: string, text: string, c0: nat, c1: nat, c2: nat, c3: nat,
                     c4: nat, c5: nat, c6: nat, c7: nat)
    requires RangeSeparator(p, sep) && RangeShape(sep, text, c0, c1, c2, c3, c4, c5, c6, c7)
    ensures IsRegexMatch(p, text, c0, text[c0..c1], c7)
  {
    RangeShapeIsSplit(p, sep, text, c0, c1, c2, c3, c4, c5, c6, c7);
    SplitIsRegexMatch(p, text, [c0, c1, c2, c3, c4, c5, c6, c7]);
  }

  lemma DashIsRegexMatch(text: string, i: nat)
    requires i <= |text| && MatchAt(DashRange, text, i).Some?
    ensures var m := MatchAt(DashRange, text, i).value;
            IsRegexMatch(DashRange, text, i, m.0, m.1)
  {
    var d := DigitsEnd(text, i);
    var s := SpacesEnd(text, d);
    var u := SpacesEnd(text, s + 1);
    var n := DigitsEnd(text, u);
    var v := SpacesEnd(text, n);
    assert MatchAt(DashRange, text, i) == Some((text[i..d], v + 5));
    assert text[s..s + 1] == [text[s]];
    DigitRunOf(text, i);
    SpaceRunOf(text, d);
    SpaceRunOf(text, s + 1);
    DigitRunOf(text, u);
    SpaceRunOf(text, n);
    RangeWitness(DashRange, "-", text, i, d, s, s + 1, u, n, v, v + 5);
  }

  lemma ToIsRegexMatch(text: string, i: nat)
    requires i <= |text| && MatchAt(ToRange, text, i).Some?
    ensures var m := MatchAt(ToRange, text, i).value;
            IsRegexMatch(ToRange, text, i, m.0, m.1)
  {
    var d := DigitsEnd(text, i);
    var s := SpacesEnd(text, d);
    var u := SpacesEnd(text, s + 2);
    var n := DigitsEnd(text, u);
    var v := SpacesEnd(text, n);
    assert MatchAt(ToRange, text, i) == Some((text[i..d], v + 5));
    DigitRunOf(text, i);
    SpaceRunOf(text, d);
    SpaceRunOf(text, s + 2);
    DigitRunOf(text, u);
    SpaceRunOf(text, n);
    RangeWitness(ToRange, "to", text, i, d, s, s + 2, u, n, v, v + 5);
  }

  // Both directions, for every pattern.

  /** Whatever way the regular expression of `p` matches at `i` (any length
      of group, any end), `MatchAt` finds that match, with that group and
      that end. So the regex has at most one match at each position, and
      backtracking cannot produce another. */
  lemma RegexMatchIsMatchAt(p: Pattern, text: string, i: nat, g: string, e: nat)
    requires i <= |text| && IsRegexMatch(p, text, i, g, e)
    ensures MatchAt(p, text, i) == Some((g, e))
  {
    var cuts :| SplitMatches(Pieces(p), text, cuts) &&
                cuts[0] == i && cuts[|cuts| - 1] == e &&
                cuts[0] <= cuts[1] <= |text| && g == text[cuts[0]..cuts[1]];
    SplitIsMatchAt(p, text, cuts);
  }

  lemma SplitIsMatchAt(p: Pattern, text: string, cuts: seq<nat>)
    requires SplitMatches(Pieces(p), text, cuts)
    ensures cuts[0] <= cuts[1] <= |text|
    ensures MatchAt(p, text, cuts[0]) == Some((text[cuts[0]..cuts[1]], cuts[|cuts| - 1]))
  {
    match p
    case PlainYears => PlainIsMatchAt(text, cuts);
    case PlusYears => PlusIsMatchAt(text, cuts);
    case DashRange => DashIsMatchAt(text, cuts);
    case ToRange => ToIsMatchAt(text, cuts);
  }

  /** Conversely, a match `MatchAt` finds is a match of the regular
      expression: the cuts are where the scanner's runs end. */
  lemma MatchAtIsRegexMatch(p: Pattern, text: string, i: nat)
    requires i <= |text|
    ensures var m := MatchAt(p, text, i);
            m.Some? ==> IsRegexMatch(p, text, i, m.value.0, m.value.1)
  {
    if MatchAt(p, text, i).Some? {
      match p
      case PlainYears => PlainIsRegexMatch(text, i);
      case PlusYears => PlusIsRegexMatch(text, i);
      case DashRange => DashIsRegexMatch(text, i);
      case ToRange => ToIsRegexMatch(text, i);
    }
  }

  /** `re.findall(p, text[i..])`: the captured groups of the successive
      non-overlapping matches, scanning from left to right. */
  function FindAll(p: Pattern, text: string, i: nat): (groups: seq<string>)
    requires i <= |text|
    decreases |text| - i
  {
    match MatchAt(p, text, i)
    case Some((group, e)) => [group] + FindAll(p, text, e)
    case None => if i == |text| then [] else FindAll(p, text, i + 1)
  }

  /** Every group the scan returns is a non-empty string of digits. */
  lemma {:induction false} FindAllDigits(p: Pattern, text: string, i: nat)
    requires i <= |text|
    ensures forall k :: 0 <= k < |FindAll(p, text, i)| ==>
              FindAll(p, text, i)[k] != [] && AllDigits(FindAll(p, text, i)[k])
    decreases |text| - i
  {
    MatchAtShape(p, text, i);
    match MatchAt(p, text, i)
    case Some((group, e)) => FindAllDigits(p, text, e);
    case None => if i < |text| { FindAllDigits(p, text, i + 1); }
  }

  /** The value of a decimal numeral, as `float()` reads a string of ASCII
      digits. Only ever applied to the groups of a match, which are digits
      (`FindAllDigits`). */
  function NumeralValue(g: string): nat {
    if g == [] then 0
    else NumeralValue(g[..|g| - 1]) * 10 + DigitValue(g[|g| - 1])
  }

  function DigitValue(c: char): nat {
    if IsDigit(c) then c as int - '0' as int else 0
  }

  /** The sanity filter on a candidate number of years. */
  predicate Plausible(y: nat) {
    0 < y < 20
  }

  /** The value of the leftmost group that passes the sanity filter. */
  function FirstPlausible(groups: seq<string>): (v: Option<nat>)
    ensures v.Some? ==> Plausible(v.value)
  {
    if groups == [] then None
    else
      var y := NumeralValue(groups[0]);
      if Plausible(y) then Some(y) else FirstPlausible(groups[1..])
  }

  /** The chosen value belongs to the leftmost group that passes the
      filter; None means no group passes. */
  lemma {:induction false} FirstPlausibleIsLeftmost(groups: seq<string>)
    ensures var v := FirstPlausible(groups);
            v.Some? ==> exists k :: 0 <= k < |groups| && NumeralValue(groups[k]) == v.value &&
                          forall j :: 0 <= j < k ==> !Plausible(NumeralValue(groups[j]))
    ensures FirstPlausible(groups).None? ==>
              forall k :: 0 <= k < |groups| ==> !Plausible(NumeralValue(groups[k]))
  {
    if groups != [] && !Plausible(NumeralValue(groups[0])) {
      var rest := FirstPlausible(groups[1..]);
      FirstPlausibleIsLeftmost(groups[1..]);
      if rest.Some? {
        var k :| 0 <= k < |groups[1..]| && NumeralValue(groups[1..][k]) == rest.value &&
                 forall j :: 0 <= j < k ==> !Plausible(NumeralValue(groups[1..][j]));
        assert NumeralValue(groups[k + 1]) == rest.value;
        forall j | 0 <= j < k + 1
          ensures !Plausible(NumeralValue(groups[j]))
        {
          if j > 0 {
            assert groups[j] == groups[1..][j - 1];
          }
        }
      } else {
        forall k | 0 <= k < |groups|
          ensures !Plausible(NumeralValue(groups[k]))
        {
          if k > 0 {
            assert groups[k] == groups[1..][k - 1];
          }
        }
      }
    } else if groups != [] {
      assert NumeralValue(groups[0]) == FirstPlausible(groups).value;
    }
  }

  /** The leftmost plausible number of the pattern `p`, if it has one. */
  function PlausibleFor(p: Pattern, text: string): Option<nat> {
    FirstPlausible(FindAll(p, text, 0))
  }

  /** Required experience from the first of `patterns` with a plausible
      match, or 0.0 when none has one. */
  function ExperienceFrom(patterns: seq<Pattern>, text: string): (y: real)
    ensures y == 0.0 || 0.0 < y < 20.0
  {
    if patterns == [] then 0.0
    else
      match PlausibleFor(patterns[0], text)
      case Some(v) => v as real
      case None => ExperienceFrom(patterns[1..], text)
  }

  /** The required experience stated in `text`, in years. */
  function ExperienceIn(text: string): (y: real)
    ensures y == 0.0 || 0.0 < y < 20.0
  {
    ExperienceFrom(ExperiencePatterns, text)
  }

  /** Tries the patterns in order, and within a pattern its matches from
      left to right, returning the first plausible number of years. */
  method ExtractExperience(text: string) returns (years: real)
    ensures years == ExperienceIn(text)
  {
    for n := 0 to |ExperiencePatterns|
      invariant ExperienceFrom(ExperiencePatterns[n..], text) == ExperienceIn(text)
    {
      var matches := FindAll(ExperiencePatterns[n], text, 0);
      if matches != [] {
        for m := 0 to |matches|
          invariant FirstPlausible(matches[m..]) == FirstPlausible(matches)
        {
          var y := NumeralValue(matches[m]);
          if 0 < y < 20 {
            return y as real;
          }
          assert matches[m..][1..] == matches[m + 1..];
        }
      }
      assert ExperiencePatterns[n..][1..] == ExperiencePatterns[n + 1..];
    }
    return 0.0;
  }

  /** One step of the pattern order: the first pattern decides if it has a
      plausible match, otherwise the rest do. */
  lemma ExperienceFromStep(patterns: seq<Pattern>, text: string)
    requires patterns != []
    ensures ExperienceFrom(patterns, text) ==
              if PlausibleFor(patterns[0], text).Some? then PlausibleFor(patterns[0], text).value as real
              else ExperienceFrom(patterns[1..], text)
  {
  }

  /** The experience is 0.0 exactly when no pattern has a plausible match;
      otherwise it is the leftmost plausible number of the first pattern
      that has one, every earlier pattern falling through. */
  lemma {:induction false} ExperienceFromFirstPattern(patterns: seq<Pattern>, text: string)
    ensures ExperienceFrom(patterns, text) == 0.0 <==>
              forall n :: 0 <= n < |patterns| ==> PlausibleFor(patterns[n], text).None?
    ensures ExperienceFrom(patterns, text) != 0.0 ==>
              exists n :: 0 <= n < |patterns| &&
                (forall m :: 0 <= m < n ==> PlausibleFor(patterns[m], text).None?) &&
                PlausibleFor(patterns[n], text).Some? &&
                PlausibleFor(patterns[n], text).value as real == ExperienceFrom(patterns, text)
  {
    if patterns != [] {
      ExperienceFromFirstPattern(patterns[1..], text);
      var first := PlausibleFor(patterns[0], text);
      if first.None? {
        forall n | 0 <= n < |patterns[1..]|
          ensures PlausibleFor(patterns[1..][n], text) == PlausibleFor(patterns[n + 1], text)
        {
        }
        if ExperienceFrom(patterns, text) != 0.0 {
          var n :| 0 <= n < |patterns[1..]| &&
                   (forall m :: 0 <= m < n ==> PlausibleFor(patterns[1..][m], text).None?) &&
                   PlausibleFor(patterns[1..][n], text).Some? &&
                   PlausibleFor(patterns[1..][n], text).value as real == ExperienceFrom(patterns, text);
          assert forall m :: 0 <= m < n + 1 ==> PlausibleFor(patterns[m], text).None? by {
            forall m | 0 <= m < n + 1 ensures PlausibleFor(patterns[m], text).None? {
              if m > 0 {
                assert patterns[m] == patterns[1..][m - 1];
              }
            }
          }
        }
      } else {
        assert first.value > 0;
      }
    }
  }

  // ------------------------------------------------------------------ visa

  predicate AnyContained(text: string, phrases: set<string>) {
    exists phrase :: phrase in phrases && Contains(text, phrase)
  }

  /** Negative phrases are looked for first; a positive phrase counts only
      when no negative one is present. */
  function VisaSignalIn(text: string): VisaSignal {
    if AnyContained(text, VisaKeywordsNegative) then Unlikely
    else if AnyContained(text, VisaKeywordsPositive) then Likely
    else Unclear
  }

  /** Scans the negative phrases, then the positive ones, each set in
      whatever order it yields, and stops at the first phrase present. */
  method ExtractVisaStatus(text: string) returns (signal: VisaSignal)
    ensures signal == VisaSignalIn(text)
  {
    var negatives := VisaKeywordsNegative;
    while negatives != {}
      invariant negatives <= VisaKeywordsNegative
      invariant forall k :: k in VisaKeywordsNegative - negatives ==> !Contains(text, k)
      decreases negatives
    {
      var keyword :| keyword in negatives;
      if Contains(text, keyword) {
        return Unlikely;
      }
      negatives := negatives - {keyword};
    }
    var positives := VisaKeywordsPositive;
    while positives != {}
      invariant positives <= VisaKeywordsPositive
      invariant forall k :: k in VisaKeywordsPositive - positives ==> !Contains(text, k)
      decreases positives
    {
      var keyword :| keyword in positives;
      if Contains(text, keyword) {
        return Likely;
      }
      positives := positives - {keyword};
    }
    return Unclear;
  }

  // ----------------------------------------------------------------- parse

  /** The normalised form of a raw posting. */
  ghost function Parse(job: Job): (n: NormalizedJob)
    ensures n.jobId == job.id && n.keywords == n.requiredSkills
    ensures StrictlySorted(n.requiredSkills)
    ensures forall s :: s in n.requiredSkills ==> s in CommonSkills
    ensures n.experienceYears == 0.0 || 0.0 < n.experienceYears < 20.0
  {
    var description := Lower(job.description);
    var skills := SkillsIn(description);
    NormalizedJob(job.id, skills, ExperienceIn(description), VisaSignalIn(description), skills)
  }

  // ------------------------------------------------------------ properties

  /** The punctuated vocabulary entries are found exactly when they occur
      literally, wherever that is. */
  lemma PunctuatedSkillsBySubstring(text: string)
    ensures "c++" in SkillsIn(text) <==> Contains(text, "c++")
    ensures "node.js" in SkillsIn(text) <==> Contains(text, "node.js")
    ensures "ci/cd" in SkillsIn(text) <==> Contains(text, "ci/cd")
  {
  }

  /** Every other vocabulary entry needs a word boundary on both sides. */
  lemma WordSkillsByBoundary(text: string, skill: string)
    requires skill in CommonSkills && skill !in SubstringSkills
    ensures skill in SkillsIn(text) <==> ContainsWord(text, skill)
  {
  }

  /** "java" inside "javascript" is not a word of its own. */
  lemma JavaScriptIsNotJava()
    ensures "javascript" in SkillsIn("javascript")
    ensures "java" !in SkillsIn("javascript")
  {
    JavaNotAWordOfJavaScript();
    assert WordAt("javascript", "javascript", 0);
    assert "java" in CommonSkills && "java" !in SubstringSkills;
    assert "javascript" in CommonSkills && "javascript" !in SubstringSkills;
  }

  lemma JavaNotAWordOfJavaScript()
    ensures !ContainsWord("javascript", "java")
  {
    var text := "javascript";
    forall i | 0 <= i <= |text|
      ensures !WordAt(text, "java", i)
    {
      if i == 0 {
        assert IsWordChar(text[4]);
      } else if i + 4 <= |text| {
        assert text[i..i + 4][0] == text[i] != 'j';
      }
    }
  }

  /** "5+ years" states five years. */
  lemma FivePlusYears()
    ensures ExperienceIn("5+ years") == 5.0
  {
    var text := "5+ years";
    assert PlausibleFor(PlusYears, text) == Some(5) by {
      assert text[0] == '5' && text[1] == '+' && text[2] == ' ' && text[3] == 'y';
      assert DigitsEnd(text, 1) == 1 && DigitsEnd(text, 0) == 1;
      assert SpacesEnd(text, 1) == 1;
      assert SpacesEnd(text, 3) == 3 && SpacesEnd(text, 2) == 3;
      assert SeparatorEnd(PlusYears, text, 1) == Some(3);
      assert text[3..8] == "years" && text[0..1] == "5";
      assert MatchAt(PlusYears, text, 0) == Some(("5", 8));
      assert FindAll(PlusYears, text, 8) == [];
      assert NumeralValue("5") == 5;
    }
    ExperienceFromStep(ExperiencePatterns, text);
  }

  /** A scan that meets no match finds nothing. */
  lemma {:induction false} NoMatchesFrom(p: Pattern, text: string, i: nat)
    requires i <= |text|
    requires forall j :: i <= j <= |text| ==> MatchAt(p, text, j).None?
    ensures FindAll(p, text, i) == []
    decreases |text| - i
  {
    if i < |text| {
      NoMatchesFrom(p, text, i + 1);
    }
  }

  /** A match of `p` can only start at a digit, so the scan passes over
      everything else. */
  lemma {:induction false} SkipNonDigits(p: Pattern, text: string, i: nat, j: nat)
    requires i <= j <= |text|
    requires NoDigitIn(text, i, j)
    ensures FindAll(p, text, i) == FindAll(p, text, j)
    decreases j - i
  {
    if i < j {
      SkipNonDigits(p, text, i + 1, j);
      SkipNonDigit(p, text, i);
    }
  }

  /** No digit among `text[i..j]`. */
  predicate NoDigitIn(text: string, i: nat, j: nat)
    requires i <= j <= |text|
    decreases j - i
  {
    i == j || (!IsDigit(text[i]) && NoDigitIn(text, i + 1, j))
  }

  lemma SkipNonDigit(p: Pattern, text: string, i: nat)
    requires i < |text| && !IsDigit(text[i])
    ensures FindAll(p, text, i) == FindAll(p, text, i + 1)
  {
    assert DigitsEnd(text, i) == i;
    assert MatchAt(p, text, i).None?;
  }

  /** The character every match of a range or "+" pattern must contain. */
  function SeparatorChar(p: Pattern): char
    requires p != PlainYears
  {
    match p
    case PlusYears => '+'
    case DashRange => '-'
    case ToRange => 't'
  }

  /** Without its separator anywhere in the text, a range or "+" pattern has
      no match. */
  lemma NoSeparatorNoMatch(p: Pattern, text: string)
    requires p != PlainYears
    requires SeparatorChar(p) !in text
    ensures FindAll(p, text, 0) == []
  {
    forall j | 0 <= j <= |text|
      ensures MatchAt(p, text, j).None?
    {
      var d := DigitsEnd(text, j);
      if d > j {
        var k := SpacesEnd(text, d);
        if k < |text| {
          assert text[k] in text;
        }
      }
    }
    NoMatchesFrom(p, text, 0);
  }

  /** A range states its lower end: "2-4 years" is two years. */
  lemma TwoToFourYears()
    ensures ExperienceIn("2-4 years") == 2.0
  {
    var text := "2-4 years";
    assert PlausibleFor(PlusYears, text) == None by {
      NoSeparatorNoMatch(PlusYears, text);
    }
    DashMatch24();
    assert PlausibleFor(DashRange, text) == Some(2) by {
      assert NumeralValue("2") == 2;
    }
    ExperienceFromStep(ExperiencePatterns, text);
    ExperienceFromStep(ExperiencePatterns[1..], text);
  }

  lemma DashMatch24()
    ensures FindAll(DashRange, "2-4 years", 0) == ["2"]
  {
    var text := "2-4 years";
    DashRunsIn24();
    assert NumberEnd(text, 2) == Some(4);
    assert SeparatorEnd(DashRange, text, 1) == Some(4);
    assert text[4..9] == "years" && text[0..1] == "2";
    assert MatchAt(DashRange, text, 0) == Some(("2", 9));
    assert FindAll(DashRange, text, 9) == [];
  }

  lemma DashRunsIn24()
    ensures DigitsEnd("2-4 years", 0) == 1 && SpacesEnd("2-4 years", 1) == 1
    ensures SpacesEnd("2-4 years", 2) == 2 && DigitsEnd("2-4 years", 2) == 3
    ensures SpacesEnd("2-4 years", 3) == 4
  {
    var text := "2-4 years";
    assert text[0] == '2' && text[1] == '-' && text[2] == '4' && text[3] == ' ' && text[4] == 'y';
    assert DigitsEnd(text, 1) == 1 && DigitsEnd(text, 3) == 3;
    assert SpacesEnd(text, 4) == 4;
  }

  /** A number outside the sanity bounds is ignored: "2024 years" states
      no experience. */
  lemma ImplausibleNumberIgnored()
    ensures ExperienceIn("2024 years") == 0.0
  {
    var text := "2024 years";
    NoPlusIn2024();
    NoDashIn2024();
    NoToIn2024();
    NoPlausiblePlainIn2024();
    ExperienceFromStep(ExperiencePatterns, text);
    ExperienceFromStep(ExperiencePatterns[1..], text);
    ExperienceFromStep(ExperiencePatterns[2..], text);
    assert ExperiencePatterns[2..][1..] == [PlainYears];
    ExperienceFromStep([PlainYears], text);
  }

  lemma NoPlusIn2024()
    ensures PlausibleFor(PlusYears, "2024 years") == None
  {
    NoSeparatorNoMatch(PlusYears, "2024 years");
  }

  lemma NoDashIn2024()
    ensures PlausibleFor(DashRange, "2024 years") == None
  {
    NoSeparatorNoMatch(DashRange, "2024 years");
  }

  lemma NoToIn2024()
    ensures PlausibleFor(ToRange, "2024 years") == None
  {
    NoSeparatorNoMatch(ToRange, "2024 years");
  }

  lemma NoPlausiblePlainIn2024()
    ensures PlausibleFor(PlainYears, "2024 years") == None
  {
    PlainMatch2024();
    Value2024();
    assert FirstPlausible(["2024"]) == FirstPlausible([]);
  }

  lemma PlainMatch2024()
    ensures FindAll(PlainYears, "2024 years", 0) == ["2024"]
  {
    var text := "2024 years";
    assert text[0] == '2' && text[1] == '0' && text[2] == '2' && text[3] == '4' && text[4] == ' ';
    assert DigitsEnd(text, 4) == 4;
    assert DigitsEnd(text, 3) == 4;
    assert DigitsEnd(text, 2) == 4;
    assert DigitsEnd(text, 1) == 4;
    assert DigitsEnd(text, 0) == 4;
    assert SpacesEnd(text, 5) == 5;
    assert SpacesEnd(text, 4) == 5;
    assert text[5..10] == "years";
    assert text[0..4] == "2024";
    assert MatchAt(PlainYears, text, 0) == Some(("2024", 10));
    assert FindAll(PlainYears, text, 10) == [];
  }

  lemma Value2024()
    ensures NumeralValue("2024") == 2024
  {
    assert "2024"[..3] == "202" && "202"[..2] == "20" && "20"[..1] == "2" && "2"[..0] == "";
  }

  /** A pattern whose matches are all implausible gives way to the next one:
      in "25+ years or 3 years" the "+" pattern finds only 25, so the plain
      pattern decides, and its first plausible match is 3. */
  lemma ImplausiblePatternFallsThrough()
    ensures ExperienceIn("25+ years or 3 years") == 3.0
  {
    var text := "25+ years or 3 years";
    assert PlausibleFor(PlusYears, text) == None by {
      PlusMatchesOnly25();
      assert NumeralValue("25") == 25 by {
        assert "25"[..1] == "2" && "2"[..0] == "";
      }
      assert FirstPlausible(["25"]) == FirstPlausible([]);
    }
    assert PlausibleFor(DashRange, text) == None by {
      NoSeparatorNoMatch(DashRange, text);
    }
    assert PlausibleFor(ToRange, text) == None by {
      NoSeparatorNoMatch(ToRange, text);
    }
    assert PlausibleFor(PlainYears, text) == Some(3) by {
      PlainMatchesOnly3();
      assert NumeralValue("3") == 3;
    }
    ExperienceFromStep(ExperiencePatterns, text);
    ExperienceFromStep(ExperiencePatterns[1..], text);
    ExperienceFromStep(ExperiencePatterns[2..], text);
    assert ExperiencePatterns[2..][1..] == [PlainYears];
    ExperienceFromStep([PlainYears], text);
  }

  lemma PlusMatchesOnly25()
    ensures FindAll(PlusYears, "25+ years or 3 years", 0) == ["25"]
  {
    var text := "25+ years or 3 years";
    NumberAt0();
    MatchesAt0();
    NoDigitsBetween();
    SkipNonDigits(PlusYears, text, 9, 13);
    NumberAt13();
    SkipNonDigits(PlusYears, text, 14, 20);
  }

  lemma PlainMatchesOnly3()
    ensures FindAll(PlainYears, "25+ years or 3 years", 0) == ["3"]
  {
    var text := "25+ years or 3 years";
    NumberAt0();
    MatchesAt0();
    NoDigitsBetween();
    SkipNonDigits(PlainYears, text, 2, 13);
    NumberAt13();
    assert FindAll(PlainYears, text, 20) == [];
  }

  lemma NumberAt0()
    ensures DigitsEnd("25+ years or 3 years", 0) == 2
    ensures DigitsEnd("25+ years or 3 years", 1) == 2
    ensures SpacesEnd("25+ years or 3 years", 2) == 2
  {
    var text := "25+ years or 3 years";
    assert text[0] == '2' && text[1] == '5' && text[2] == '+';
    assert DigitsEnd(text, 2) == 2;
  }

  lemma MatchesAt0()
    ensures MatchAt(PlusYears, "25+ years or 3 years", 0) == Some(("25", 9))
    ensures MatchAt(PlainYears, "25+ years or 3 years", 0) == None
    ensures MatchAt(PlainYears, "25+ years or 3 years", 1) == None
  {
    var text := "25+ years or 3 years";
    NumberAt0();
    assert text[2] == '+' && text[3] == ' ' && text[4] == 'y';
    assert SpacesEnd(text, 4) == 4 && SpacesEnd(text, 3) == 4;
    assert text[4..9] == "years" && text[0..2] == "25";
    assert !OccursAt(text, "years", 2) by {
      assert text[2..7][0] == '+';
    }
  }

  lemma NoDigitsBetween()
    ensures NoDigitIn("25+ years or 3 years", 2, 13)
    ensures NoDigitIn("25+ years or 3 years", 9, 13)
    ensures NoDigitIn("25+ years or 3 years", 14, 20)
  {
  }

  lemma NumberAt13()
    ensures MatchAt(PlusYears, "25+ years or 3 years", 13) == None
    ensures MatchAt(PlainYears, "25+ years or 3 years", 13) == Some(("3", 20))
  {
    var text := "25+ years or 3 years";
    assert text[13] == '3' && text[14] == ' ' && text[15] == 'y';
    assert DigitsEnd(text, 14) == 14 && DigitsEnd(text, 13) == 14;
    assert SpacesEnd(text, 15) == 15 && SpacesEnd(text, 14) == 15;
    assert text[15..20] == "years" && text[13..14] == "3";
  }

  /** Both negative sponsorship phrases contain the positive phrase
      "sponsor", so a text with one of them also holds a positive phrase; it
      is only the precedence of the negative phrases that makes it UNLIKELY. */
  lemma NegativePhrasesContainPositive(text: string)
    requires Contains(text, "no sponsorship") || Contains(text, "not sponsor")
    ensures AnyContained(text, VisaKeywordsPositive)
    ensures VisaSignalIn(text) == Unlikely
  {
    assert OccursAt("no sponsorship", "sponsor", 3);
    assert OccursAt("not sponsor", "sponsor", 4);
    if Contains(text, "no sponsorship") {
      ContainsTransitive(text, "no sponsorship", "sponsor");
    } else {
      ContainsTransitive(text, "not sponsor", "sponsor");
    }
    assert "sponsor" in VisaKeywordsPositive;
  }

  /** The phrase "visa sponsorship" adds nothing beyond "sponsor": a text
      reads LIKELY exactly when it holds no negative phrase and holds
      "sponsor" or "h1b". */
  lemma LikelyExactly(text: string)
    ensures VisaSignalIn(text) == Likely <==>
              !AnyContained(text, VisaKeywordsNegative) &&
              (Contains(text, "sponsor") || Contains(text, "h1b"))
  {
    assert OccursAt("visa sponsorship", "sponsor", 5);
    if Contains(text, "visa sponsorship") {
      ContainsTransitive(text, "visa sponsorship", "sponsor");
    }
    assert "sponsor" in VisaKeywordsPositive && "h1b" in VisaKeywordsPositive;
  }

  /** An empty description yields no skills, no experience and an unclear
      visa signal. */
  lemma ParseEmptyDescription(job: Job)
    requires job.description == ""
    ensures Parse(job).requiredSkills == []
    ensures Parse(job).experienceYears == 0.0
    ensures Parse(job).visaSponsorship == Unclear
  {
    assert Lower(job.description) == "";
    NoSkillsInEmpty();
    EmptyTextNoExperience(ExperiencePatterns);
    NoVisaPhraseInEmpty();
  }

  lemma NoSkillsInEmpty()
    ensures SkillsIn("") == []
  {
    forall skill
      ensures !SkillFound(skill, "")
    {
      if skill in SubstringSkills {
        NotInEmpty(skill);
      } else {
        assert !IsBoundary("", 0);
      }
    }
    assert (set s | s in CommonSkills && SkillFound(s, "")) == {};
  }

  lemma NoVisaPhraseInEmpty()
    ensures VisaSignalIn("") == Unclear
  {
    forall phrase | phrase in VisaKeywordsNegative + VisaKeywordsPositive
      ensures !Contains("", phrase)
    {
      NotInEmpty(phrase);
    }
  }

  lemma {:induction false} EmptyTextNoExperience(patterns: seq<Pattern>)
    ensures ExperienceFrom(patterns, "") == 0.0
  {
    if patterns != [] {
      assert FindAll(patterns[0], "", 0) == [];
      EmptyTextNoExperience(patterns[1..]);
    }
  }

  /** Only the lower-cased description matters: postings whose descriptions
      agree after lower-casing normalise alike, and lower-casing a
      description first changes nothing. */
  lemma ParseIgnoresCase(a: Job, b: Job)
    requires a.id == b.id
    requires Lower(a.description) == Lower(b.description)
    ensures Parse(a) == Parse(b)
    ensures Parse(a.(description := Lower(a.description))) == Parse(a)
  {
    LowerIdempotent(a.description);
  }
}
