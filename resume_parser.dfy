/**
  * Normalisation of a resume: the posting extractors applied to the whole
  * lower-cased text, a line-oriented scan for the bullets of the education
  * and experience sections, and the user's overrides.
  */
module ResumeParser {
  import opened Wrappers
  import opened Text
  import opened Models
  import opened JobParser

  const EducationKeywords: seq<string> := ["education", "academic"]

  const ExperienceKeywords: seq<string> := ["experience", "employment", "work history", "projects"]

  /** Bullet, hyphen, asterisk and middle dot. */
  const BulletGlyphs: set<char> := {'\U{2022}', '-', '*', '\U{00B7}'}

  // -------------------------------------------------------------- sections

  /** A section header: the stripped, lower-cased line holds one of the
      keywords and is shorter than 30 characters. */
  predicate IsHeader(line: string, keywords: seq<string>) {
    var clean := Lower(Strip(line));
    (exists k :: k in keywords && Contains(clean, k)) && |clean| < 30
  }

  /** A short all-capitals line, taken to be the header of the next section. */
  predicate EndsSection(line: string) {
    var s := Strip(line);
    IsUpper(s) && |s| < 20 && |s| > 3
  }

  /** A line worth keeping: it starts with a bullet glyph once stripped, or
      is longer than ten characters. */
  predicate LooksLikeBullet(line: string) {
    var s := Strip(line);
    (|s| > 0 && s[0] in BulletGlyphs) || |s| > 10
  }

  /** The bullets the scan collects from `lines`, starting inside a section
      when `inSection` holds. */
  function SectionBullets(lines: seq<string>, keywords: seq<string>, inSection: bool): seq<string> {
    if lines == [] then []
    else
      var line := lines[0];
      if IsHeader(line, keywords) then SectionBullets(lines[1..], keywords, true)
      else if !inSection then SectionBullets(lines[1..], keywords, false)
      else if EndsSection(line) then SectionBullets(lines[1..], keywords, false)
      else if LooksLikeBullet(line) then [Strip(line)] + SectionBullets(lines[1..], keywords, true)
      else SectionBullets(lines[1..], keywords, true)
  }

  /** Splits `text` at line feeds and scans the lines for the bullets of
      the sections `keywords` name. */
  method ExtractSectionBullets(text: string, keywords: seq<string>) returns (bullets: seq<string>)
    ensures bullets == SectionBullets(SplitLines(text), keywords, false)
  {
    bullets := ScanLines(SplitLines(text), keywords);
  }

  /** Scans `lines` once, switching capture on at a header and off at a
      short all-capitals line, and collects the bullet-like lines met while
      capturing. The two `continue`s of the loop become `else` branches. */
  method ScanLines(lines: seq<string>, keywords: seq<string>) returns (bullets: seq<string>)
    ensures bullets == SectionBullets(lines, keywords, false)
  {
    var inSection := false;
    bullets := [];
    for i := 0 to |lines|
      invariant bullets + SectionBullets(lines[i..], keywords, inSection) ==
                SectionBullets(lines, keywords, false)
    {
      var line := lines[i];
      var header, ends, bullet := IsHeader(line, keywords), EndsSection(line), LooksLikeBullet(line);
      var wasInSection, before := inSection, bullets;
      if header {
        inSection := true;
      } else if inSection {
        if ends {
          inSection := false;
        } else if bullet {
          bullets := bullets + [Strip(line)];
        }
      }
      ScanStep(lines, i, keywords, wasInSection, header, ends, bullet, before, inSection, bullets);
    }
    assert lines[|lines|..] == [];
  }

  /** `xs` can be obtained from `ys` by deleting elements. */
  predicate IsSubsequence<T(==)>(xs: seq<T>, ys: seq<T>)
    decreases |ys|
  {
    xs == [] ||
    (ys != [] && ((xs[0] == ys[0] && IsSubsequence(xs[1..], ys[1..])) || IsSubsequence(xs, ys[1..])))
  }

  function StripAll(lines: seq<string>): (r: seq<string>)
    ensures |r| == |lines|
    ensures forall i :: 0 <= i < |lines| ==> r[i] == Strip(lines[i])
  {
    if lines == [] then [] else [Strip(lines[0])] + StripAll(lines[1..])
  }

  /** The bullets are stripped input lines, kept in input order. */
  lemma {:induction false} BulletsAreStrippedLinesInOrder(lines: seq<string>, keywords: seq<string>, inSection: bool)
    ensures IsSubsequence(SectionBullets(lines, keywords, inSection), StripAll(lines))
  {
    if lines != [] {
      var bullets := SectionBullets(lines, keywords, inSection);
      var stripped := StripAll(lines);
      assert stripped[1..] == StripAll(lines[1..]);
      var line := lines[0];
      var next := IsHeader(line, keywords) || (inSection && !EndsSection(line));
      if IsHeader(line, keywords) || !inSection || EndsSection(line) || !LooksLikeBullet(line) {
        BulletsAreStrippedLinesInOrder(lines[1..], keywords, next);
      } else {
        BulletsAreStrippedLinesInOrder(lines[1..], keywords, true);
        assert bullets[1..] == SectionBullets(lines[1..], keywords, true);
      }
    }
  }

  /** Each step of the scan: whether the first line is kept, and whether
      capture is on for the next line. */
  lemma SectionBulletsStep(lines: seq<string>, keywords: seq<string>, inSection: bool)
    requires lines != []
    ensures var line := lines[0];
            var keep := !IsHeader(line, keywords) && inSection && !EndsSection(line) && LooksLikeBullet(line);
            var next := IsHeader(line, keywords) || (inSection && !EndsSection(line));
            SectionBullets(lines, keywords, inSection) ==
              (if keep then [Strip(line)] else []) + SectionBullets(lines[1..], keywords, next)
  {
  }

  /** One line of the scan in `ScanLines` keeps its invariant. */
  lemma ScanStep(lines: seq<string>, i: nat, keywords: seq<string>, inSection: bool,
                 header: bool, ends: bool, bullet: bool, bullets: seq<string>,
                 inSection': bool, bullets': seq<string>)
    requires i < |lines|
    requires header == IsHeader(lines[i], keywords)
    requires ends == EndsSection(lines[i])
    requires bullet == LooksLikeBullet(lines[i])
    requires inSection' == (header || (inSection && !ends))
    requires bullets' == bullets + if !header && inSection && !ends && bullet then [Strip(lines[i])] else []
    ensures bullets + SectionBullets(lines[i..], keywords, inSection) ==
            bullets' + SectionBullets(lines[i + 1..], keywords, inSection')
  {
    LineStep(lines, i, keywords, inSection, header, ends, bullet);
    Regroup(bullets, if !header && inSection && !ends && bullet then [Strip(lines[i])] else [],
            SectionBullets(lines[i + 1..], keywords, inSection'), bullets');
  }

  /** The line is kept when capture is on and it is neither a header nor a
      section end but looks like a bullet; capture is on for the next line
      after a header, and stays on unless the line ends the section. */
  lemma LineStep(lines: seq<string>, i: nat, keywords: seq<string>, inSection: bool,
                 header: bool, ends: bool, bullet: bool)
    requires i < |lines|
    requires header == IsHeader(lines[i], keywords)
    requires ends == EndsSection(lines[i])
    requires bullet == LooksLikeBullet(lines[i])
    ensures SectionBullets(lines[i..], keywords, inSection) ==
              (if !header && inSection && !ends && bullet then [Strip(lines[i])] else []) +
              SectionBullets(lines[i + 1..], keywords, header || (inSection && !ends))
  {
    assert lines[i..][1..] == lines[i + 1..];
    SectionBulletsStep(lines[i..], keywords, inSection);
  }

  lemma Regroup<T>(a: seq<T>, b: seq<T>, c: seq<T>, d: seq<T>)
    requires d == a + b
    ensures a + (b + c) == d + c
  {
  }

  /** Every bullet starts with a glyph or is longer than ten characters. */
  lemma {:induction false} BulletShape(lines: seq<string>, keywords: seq<string>, inSection: bool)
    ensures forall b :: b in SectionBullets(lines, keywords, inSection) ==>
              (|b| > 0 && b[0] in BulletGlyphs) || |b| > 10
  {
    if lines != [] {
      var line := lines[0];
      var next := IsHeader(line, keywords) || (inSection && !EndsSection(line));
      SectionBulletsStep(lines, keywords, inSection);
      BulletShape(lines[1..], keywords, next);
    }
  }

  /** Every bullet is a stripped line that is neither a header nor a line
      ending the section. */
  lemma {:induction false} BulletSource(lines: seq<string>, keywords: seq<string>, inSection: bool)
    ensures forall b :: b in SectionBullets(lines, keywords, inSection) ==>
              exists i :: 0 <= i < |lines| && b == Strip(lines[i]) &&
                          !IsHeader(lines[i], keywords) && !EndsSection(lines[i])
  {
    if lines != [] {
      var line := lines[0];
      var keep := !IsHeader(line, keywords) && inSection && !EndsSection(line) && LooksLikeBullet(line);
      var next := IsHeader(line, keywords) || (inSection && !EndsSection(line));
      var rest := SectionBullets(lines[1..], keywords, next);
      SectionBulletsStep(lines, keywords, inSection);
      BulletSource(lines[1..], keywords, next);
      forall b | b in SectionBullets(lines, keywords, inSection)
        ensures exists i :: 0 <= i < |lines| && b == Strip(lines[i]) &&
                            !IsHeader(lines[i], keywords) && !EndsSection(lines[i])
      {
        if keep && b == Strip(line) {
          assert 0 < |lines| && b == Strip(lines[0]);
        } else {
          assert b in rest;
          var i :| 0 <= i < |lines[1..]| && b == Strip(lines[1..][i]) &&
                   !IsHeader(lines[1..][i], keywords) && !EndsSection(lines[1..][i]);
          assert lines[i + 1] == lines[1..][i];
        }
      }
    }
  }

  /** Outside a section, lines before the next header contribute nothing. */
  lemma {:induction false} NothingBeforeHeader(lines: seq<string>, keywords: seq<string>, k: nat)
    requires k <= |lines|
    requires forall i :: 0 <= i < k ==> !IsHeader(lines[i], keywords)
    ensures SectionBullets(lines, keywords, false) == SectionBullets(lines[k..], keywords, false)
  {
    if k > 0 {
      NothingBeforeHeader(lines[1..], keywords, k - 1);
      assert lines[1..][k - 1..] == lines[k..];
    }
  }

  /** A text without any header yields no bullets. */
  lemma NoHeaderNoBullets(lines: seq<string>, keywords: seq<string>)
    requires forall i :: 0 <= i < |lines| ==> !IsHeader(lines[i], keywords)
    ensures SectionBullets(lines, keywords, false) == []
  {
    NothingBeforeHeader(lines, keywords, |lines|);
  }

  /** Inside a section, a short all-capitals line that is not a header ends
      capture without being kept, and capture resumes only at the next
      header. */
  lemma CaptureStopsUntilNextHeader(lines: seq<string>, keywords: seq<string>, k: nat, m: nat)
    requires k < m <= |lines|
    requires !IsHeader(lines[k], keywords) && EndsSection(lines[k])
    requires forall i :: k < i < m ==> !IsHeader(lines[i], keywords)
    ensures SectionBullets(lines[k..], keywords, true) == SectionBullets(lines[m..], keywords, false)
  {
    assert lines[k..][1..] == lines[k + 1..];
    SectionBulletsStep(lines[k..], keywords, true);
    NothingBeforeHeader(lines[k + 1..], keywords, m - k - 1);
    assert lines[k + 1..][m - k - 1..] == lines[m..];
  }

  // ------------------------------------------------------------- overrides

  /** A user-supplied number of years: a value that `float()` accepts, or
      the raw text it rejects. */
  datatype YearsOverride = Numeric(years: real) | NotNumeric(raw: string)

  /** The recognised override keys; an absent key is None. */
  datatype UserInputs = UserInputs(
    yearsOfExperience: Option<YearsOverride> := None,
    visaStatus: Option<string> := None,
    role: Option<string> := None)

  datatype ParseError = FileNotFound(path: string) | MalformedYears(raw: string)

  function OrDefault(value: Option<string>, default: string): string {
    match value
    case Some(v) => v
    case None => default
  }

  /** The normalised form of a resume's text. */
  ghost function ParseText(text: string, inputs: UserInputs): (r: Result<NormalizedResume, ParseError>)
    ensures r.Err? <==> inputs.yearsOfExperience.Some? && inputs.yearsOfExperience.value.NotNumeric?
    ensures r.Err? ==> r.error == MalformedYears(inputs.yearsOfExperience.value.raw)
    ensures r.Ok? ==> r.value.skills == SkillsIn(Lower(text))
    ensures r.Ok? ==> r.value.yearsOfExperience ==
                        if inputs.yearsOfExperience.Some? then inputs.yearsOfExperience.value.years
                        else ExperienceIn(Lower(text))
    ensures r.Ok? ==> r.value.visaStatus == OrDefault(inputs.visaStatus, "US Citizen")
    ensures r.Ok? ==> r.value.roleFamily == OrDefault(inputs.role, "Software Engineer")
    ensures r.Ok? ==> r.value.education == SectionBullets(SplitLines(text), EducationKeywords, false)
    ensures r.Ok? ==> r.value.experienceBullets == SectionBullets(SplitLines(text), ExperienceKeywords, false)
  {
    var lowered := Lower(text);
    var lines := SplitLines(text);
    var education := SectionBullets(lines, EducationKeywords, false);
    var experience := SectionBullets(lines, ExperienceKeywords, false);
    match inputs.yearsOfExperience
    case Some(NotNumeric(raw)) => Err(MalformedYears(raw))
    case Some(Numeric(y)) =>
      Ok(NormalizedResume(SkillsIn(lowered), y, OrDefault(inputs.visaStatus, "US Citizen"),
                          OrDefault(inputs.role, "Software Engineer"), education, experience))
    case None =>
      Ok(NormalizedResume(SkillsIn(lowered), ExperienceIn(lowered), OrDefault(inputs.visaStatus, "US Citizen"),
                          OrDefault(inputs.role, "Software Engineer"), education, experience))
  }

  /** A resume held in `files` under `path`, as extracted text. A path that
      is not there fails with not-found before any parsing. */
  ghost function ParseFile(files: map<string, string>, path: string, inputs: UserInputs): (r: Result<NormalizedResume, ParseError>)
    ensures path !in files ==> r == Err(FileNotFound(path))
    ensures path in files ==> r == ParseText(files[path], inputs)
  {
    if path !in files then Err(FileNotFound(path)) else ParseText(files[path], inputs)
  }

  // ------------------------------------------------------------ properties

  /** Without overrides, a resume's skills and years are what the posting
      normaliser derives from the same text, with the default visa status
      and role. */
  lemma ResumeAgreesWithJobParser(text: string, job: Job)
    requires job.description == text
    ensures ParseText(text, UserInputs()).Ok?
    ensures ParseText(text, UserInputs()).value.skills == Parse(job).requiredSkills
    ensures ParseText(text, UserInputs()).value.yearsOfExperience == Parse(job).experienceYears
    ensures ParseText(text, UserInputs()).value.visaStatus == "US Citizen"
    ensures ParseText(text, UserInputs()).value.roleFamily == "Software Engineer"
  {
  }

  /** The education and experience lists of a parsed resume are stripped
      lines of its text, in the order they appear there. */
  lemma ParsedBulletsAreStrippedLines(text: string, inputs: UserInputs)
    requires inputs.yearsOfExperience.None? || inputs.yearsOfExperience.value.Numeric?
    ensures ParseText(text, inputs).Ok?
    ensures IsSubsequence(ParseText(text, inputs).value.education, StripAll(SplitLines(text)))
    ensures IsSubsequence(ParseText(text, inputs).value.experienceBullets, StripAll(SplitLines(text)))
  {
    BulletsAreStrippedLinesInOrder(SplitLines(text), EducationKeywords, false);
    BulletsAreStrippedLinesInOrder(SplitLines(text), ExperienceKeywords, false);
  }

  /** Each override replaces its own field and leaves the rest as derived. */
  lemma OverridesAreIndependent(text: string, inputs: UserInputs, years: real, visa: string, role: string)
    requires inputs.yearsOfExperience.None? || inputs.yearsOfExperience.value.Numeric?
    ensures ParseText(text, inputs.(visaStatus := Some(visa))) ==
            Ok(ParseText(text, inputs).value.(visaStatus := visa))
    ensures ParseText(text, inputs.(role := Some(role))) ==
            Ok(ParseText(text, inputs).value.(roleFamily := role))
    ensures ParseText(text, inputs.(yearsOfExperience := Some(Numeric(years)))) ==
            Ok(ParseText(text, inputs).value.(yearsOfExperience := years))
  {
  }
}
