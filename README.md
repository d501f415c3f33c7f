# OA Trigger Engine — a verified model of the normalisers and the OTPM score

OA Trigger Engine scrapes job postings, normalises each posting and a
candidate's resume into small records, and scores every pair with the OTPM
(OA Trigger Probability Metric). The OTPM is an additive heuristic for the
chance that applying to a posting triggers an online assessment. This
project models the three parts that decide the score, in Dafny, and proves
properties about them.

- **Posting normaliser** (`JobParser`). It extracts three things from the
  lower-cased description:
  - a sorted, duplicate-free list of skills from a fixed vocabulary;
  - the required years of experience, from four regular expressions tried
    in order, with a sanity filter (strictly between 0 and 20);
  - a visa-sponsorship signal (LIKELY / UNLIKELY / UNCLEAR), where negative
    phrases take precedence over positive ones.
- **Resume normaliser** (`ResumeParser`). It reuses the posting extractors
  on the whole resume text. It scans the lines for the bullets of the
  education and experience sections, and applies the user's overrides.
- **Scoring engine** (`Engine`). It sums five terms: a base of 0.5, an
  experience-gap term, a skill-overlap band, a visa "kill switch" and an
  entry-level bonus. It clamps the sum to [0, 1] and maps the probability to
  one of four recommendation labels.

Supporting modules:

- `Text` models Python's `str` operations used by the source, restricted to
  ASCII: `lower`, `strip`, `isupper`, `split('\n')`, the substring test and
  the regex classes `\d`, `\s`, `\b`.
- `StringOrder` models Python's ordering of strings and `sorted()`.
- `Models` holds the records, with their declared defaults.
- `Wrappers` holds `Option` and `Result`.

How the code is structured:

- **Extractors.** Each extractor is a specification function, plus a method
  that runs the source's loop and is proved equal to that function.
  - `ExtractSkills` walks the vocabulary set in whatever order the set
    yields, then sorts. Its result is proved independent of that order.
  - `ExtractExperience` runs the nested loops with their early return.
  - `ExtractVisaStatus` runs two early-exit loops.
  - `ExtractSectionBullets` splits the text, and `ScanLines` updates the
    in-section flag line by line.
  - `CalculateProbability` accumulates the score step by step.
- **Regular expressions.** Each of the four experience patterns is modelled
  as a deterministic scanner (`MatchAt`), and `re.findall` as a left-to-right
  scan that resumes at the end of each match (`FindAll`). The regular
  expressions themselves are read declaratively:
  - each pattern is a list of pieces: a digit run `\d+`, a whitespace run
    `\s*`, or a literal;
  - a match from `i` to `e` is a list of cut positions that splits the text
    between them into those pieces (`IsRegexMatch`).

  Nothing after `\d+` in any pattern can start with a digit, and nothing
  after `\s*` can start with a space. So every run is taken whole, and a
  match at a position is unique. Both directions are proved:
  - `MatchAtIsRegexMatch`: what the scanner finds is a regex match;
  - `RegexMatchIsMatchAt`: every regex match at a position, whatever
    its group and end, is the one the scanner finds.

  So backtracking cannot change what is captured.
- **Numbers.** Years, ratios and scores are exact rationals (`real`).

## Model

| member | source | states |
|---|---|---|
| Text.Lower | app/normalization/job_parser.py:31 | lower-casing keeps the length and maps each upper-case ASCII letter to lower case, leaving every other character alone |
| Text.Strip | app/normalization/resume_parser.py:74 | the stripped line starts and ends with a non-whitespace character (or is empty) and is no longer than the line |
| Text.StripRemovesOuterWhitespace | app/normalization/resume_parser.py:74 | the stripped line is a contiguous slice of the line, and every character before and after that slice is whitespace |
| Text.SplitLines | app/normalization/resume_parser.py:69 | splitting at line feeds yields at least one piece, and no piece holds a line feed |
| Text.JoinSplitLines | app/normalization/resume_parser.py:69 | the pieces of the split, joined with line feeds, give back the text: splitting loses nothing |
| Text.SplitJoinLines | app/normalization/resume_parser.py:69 | lines without line feeds come back unchanged from a join followed by a split |
| StringOrder.SortStrings | app/normalization/job_parser.py:61 | `sorted()` returns an ascending permutation of its input |
| StringOrder.SortedUnique | app/normalization/job_parser.py:47-61 | two ascending permutations of the same multiset are equal, so the set's iteration order never shows in the sorted skills |
| StringOrder.Ascending | app/normalization/job_parser.py:61 | a finite set of strings enumerated in strictly ascending order, each element exactly once |
| JobParser.SkillsIn | app/normalization/job_parser.py:45-61 | the extracted skills are strictly ascending (sorted, no duplicates), and a string is among them iff it is in the vocabulary and passes that entry's test |
| JobParser.ExtractSkills | app/normalization/job_parser.py:45-61 | the loop over the vocabulary, in any iteration order, followed by sorting, returns exactly `SkillsIn` of the text |
| JobParser.PunctuatedSkillsBySubstring | app/normalization/job_parser.py:49-54 | "c++", "node.js" and "ci/cd" are extracted exactly when they occur as a literal substring |
| JobParser.WordSkillsByBoundary | app/normalization/job_parser.py:56-60 | every other vocabulary entry is extracted exactly when it occurs with a word boundary on both sides |
| JobParser.JavaScriptIsNotJava | app/normalization/job_parser.py:56-60 | the text "javascript" yields "javascript" but not "java" |
| JobParser.MatchAtShape | app/normalization/job_parser.py:66-69 | a match of an experience pattern at a position captures a non-empty run of digits at that position, followed, no more than the match's end, by "years" |
| JobParser.MatchAtIsRegexMatch | app/normalization/job_parser.py:65-69 | a match the scanner finds at a position is a match of the pattern's regular expression there: cut positions split it into the pattern's digit runs, whitespace runs and literals, and the group is the first digit run |
| JobParser.RegexMatchIsMatchAt | app/normalization/job_parser.py:65-73 | any match of a pattern's regular expression at a position, with any group and any end, is exactly the match the scanner returns there, so the match is unique and backtracking cannot change it |
| JobParser.FindAllDigits | app/normalization/job_parser.py:73 | every group `re.findall` returns is a non-empty string of digits |
| JobParser.FirstPlausibleIsLeftmost | app/normalization/job_parser.py:77-82 | the chosen value is strictly between 0 and 20, and it belongs to the leftmost group that is; None means no group is |
| JobParser.ExperienceIn | app/normalization/job_parser.py:63-86 | the extracted experience is exactly 0.0 or strictly between 0 and 20 |
| JobParser.ExperienceFromFirstPattern | app/normalization/job_parser.py:72-86 | the result is 0.0 iff no pattern has an in-range match; otherwise it is the leftmost in-range number of the first pattern that has one, and all earlier patterns fall through |
| JobParser.ExtractExperience | app/normalization/job_parser.py:63-86 | the nested loops with early return compute exactly `ExperienceIn` of the text |
| JobParser.FivePlusYears | app/normalization/job_parser.py:64-66 | "5+ years" gives 5.0 |
| JobParser.TwoToFourYears | app/normalization/job_parser.py:64-67 | "2-4 years" gives 2.0 |
| JobParser.ImplausibleNumberIgnored | app/normalization/job_parser.py:80-86 | "2024 years" is rejected by the sanity filter and gives 0.0 |
| JobParser.ImplausiblePatternFallsThrough | app/normalization/job_parser.py:72-84 | in "25+ years or 3 years" the "+" pattern has only the out-of-range 25, so extraction falls through to the plain pattern and gives 3.0 |
| JobParser.ExtractVisaStatus | app/normalization/job_parser.py:88-99 | the two early-exit loops return exactly `VisaSignalIn`: UNLIKELY if any negative phrase occurs, else LIKELY if any positive phrase occurs, else UNCLEAR |
| JobParser.NegativePhrasesContainPositive | app/normalization/job_parser.py:89-97 | a text with "no sponsorship" or "not sponsor" also holds the positive phrase "sponsor", and still reads UNLIKELY because negative phrases are checked first |
| JobParser.LikelyExactly | app/normalization/job_parser.py:88-99 | LIKELY iff no negative phrase occurs and "sponsor" or "h1b" does |
| JobParser.Parse | app/normalization/job_parser.py:30-43 | the normalised posting keeps the posting's id, its keywords equal its skills, its skills are strictly ascending and within the vocabulary, and its experience is 0.0 or strictly between 0 and 20 |
| JobParser.ParseEmptyDescription | app/normalization/job_parser.py:45-99 | an empty description yields no skills, 0.0 years and UNCLEAR |
| JobParser.ParseIgnoresCase | app/normalization/job_parser.py:31 | postings whose descriptions agree after lower-casing normalise alike, and lower-casing a description beforehand changes nothing |
| ResumeParser.ExtractSectionBullets | app/normalization/resume_parser.py:65-93 | the lines of the text, split at line feeds and scanned, give exactly `SectionBullets` of the split text |
| ResumeParser.ScanLines | app/normalization/resume_parser.py:70-93 | the loop over the lines, with its in-section flag, returns exactly `SectionBullets` of the lines |
| ResumeParser.BulletsAreStrippedLinesInOrder | app/normalization/resume_parser.py:69-91 | the bullets form a subsequence of the stripped lines: stripped input lines, in input order |
| ResumeParser.BulletShape | app/normalization/resume_parser.py:90-91 | every bullet starts with one of •, -, *, · or is longer than ten characters |
| ResumeParser.BulletSource | app/normalization/resume_parser.py:73-91 | every bullet is the stripped form of a line that is neither a header nor a line that ends the section |
| ResumeParser.NothingBeforeHeader | app/normalization/resume_parser.py:76-82 | outside a section, lines before the next header contribute no bullets |
| ResumeParser.NoHeaderNoBullets | app/normalization/resume_parser.py:73-93 | a text without a header line yields no bullets |
| ResumeParser.CaptureStopsUntilNextHeader | app/normalization/resume_parser.py:84-87 | inside a section, a short all-capitals non-header line ends capture without being kept, and nothing is captured until the next header |
| ResumeParser.ParseText | app/normalization/resume_parser.py:30-63 | a years override that is not a number is an error; otherwise skills come from the lower-cased text, years from the text unless overridden, visa status and role default to "US Citizen" and "Software Engineer" unless overridden, and the education and experience bullets are the section bullets of the original-case text for the two keyword lists |
| ResumeParser.ParsedBulletsAreStrippedLines | app/normalization/resume_parser.py:41-42 | a parsed resume's education and experience bullets are stripped lines of the resume, in the order they occur |
| ResumeParser.ParseFile | app/normalization/resume_parser.py:14-28 | a path that does not exist gives a not-found error; otherwise the result is that of parsing the file's text |
| ResumeParser.ResumeAgreesWithJobParser | app/normalization/resume_parser.py:31-37 | without overrides, the resume's skills and years are what the posting normaliser derives from the same text, with the default status and role |
| ResumeParser.OverridesAreIndependent | app/normalization/resume_parser.py:44-54 | each override replaces its own field and leaves every other field as derived |
| Engine.OverlapRatio | app/otpm/engine.py:27-35 | the overlap ratio lies in [0, 1], and it is 1 exactly when the resume holds every required skill (in particular when none is required) |
| Engine.Clamp | app/otpm/engine.py:57-58 | the clamped score lies in [0, 1], equals the score when that already does, and is 0 below and 1 above |
| Engine.Probability | app/otpm/engine.py:10-58 | the probability always lies in [0, 1] |
| Engine.CalculateProbability | app/otpm/engine.py:10-58 | the step-by-step accumulation and clamp returns exactly `Probability` of the pair |
| Engine.GetRecommendation | app/otpm/engine.py:60-68 | STRONG APPLY iff the probability is at least 0.8, APPLY or better iff at least 0.6, LOW PRIORITY or better iff at least 0.4 |
| Engine.RecommendationMonotone | app/otpm/engine.py:60-68 | a higher probability never yields a lower-ranked label |
| Engine.ExperienceNeverHurts | app/otpm/engine.py:17-23 | more resume years, all else fixed, never lower the probability |
| Engine.OverlapMonotone | app/otpm/engine.py:34-43 | holding more skills never lowers the overlap ratio or the skill adjustment |
| Engine.SkillsNeverHurt | app/otpm/engine.py:27-43 | a resume holding a superset of the skills, all else fixed, never scores lower |
| Engine.OnlySkillSetsMatter | app/otpm/engine.py:27-28 | repeating or reordering skills on either side does not change the probability |
| Engine.OverlapBandsByCount | app/otpm/engine.py:35-43 | with `c` of `n` required skills held: +0.3 iff 5c ≥ 4n, otherwise +0.1 iff 2c ≥ n, otherwise −0.2 iff 5c < n, otherwise nothing |
| Engine.KillSwitch | app/otpm/engine.py:47-48 | UNLIKELY sponsorship against "Visa Required" costs exactly 0.5 compared with any other status, caps the probability at 0.6, and so never gives STRONG APPLY |
| Engine.EntryLevelWithoutSkills | app/otpm/engine.py:14-62 | a posting with 0 years and no skills, against non-negative years and no kill switch, scores at least 1.1 before clamping, so 1.0 and STRONG APPLY |
| Engine.HalfOverlapScenario | app/otpm/engine.py:14-43 | four required skills with two held and the years met exactly give 0.5 + 0.2 + 0.1 = 0.8 before the visa and entry-level terms |

## Left out

- Scraping (Playwright browser control), CSV and Excel export, and the command-line scripts are not part of this model. They are I/O and orchestration.
- Data models: the pydantic records become plain datatypes with their declared defaults. Pydantic's validation and coercion are not modelled.
- ResumeParser.ParseFile: the file system is a map from path to already-extracted text. PDF extraction and file reading (the `.pdf` branch and `open`/`read`) are foreign calls, and app/extraction/pdf_utils.py is not part of this model.
- ResumeParser.ParseText: `float()` on an arbitrary override value is not modelled. The override is either a number or the raw text that `float()` rejects, and the rejection is an error. Falsy `user_inputs` (None or an empty dict) both mean no overrides.
- Engine.CalculateProbability: does not model IEEE-754 doubles. The model adds exactly, so 0.5 + 0.2 + 0.1 is 0.8 and STRONG APPLY. With Python floats that sum is 0.7999999999999999, and the running program returns APPLY for the same inputs. The same goes for other threshold comparisons on accumulated floats.
- Engine.VisaAdjustment: the posting's visa field is the three-valued signal rather than an arbitrary string. The posting normaliser produces only these three labels.
- Unicode: `\d`, `\s`, `\b`, `str.lower`, `str.strip` and `str.isupper` are modelled on ASCII only. Python's Unicode digits, spaces, letters and case mappings are not.
- JobParser.ExtractExperience: the `except` branch around `float(m)` is not modelled. Every captured group is a non-empty string of ASCII digits, which `float()` always accepts. Very long digit strings round in Python but stay far above 20, so the filter decides the same way.
- JobParser.MatchAtShape: Python's regex engine itself is not modelled. The patterns are read as the declarative splits of `IsRegexMatch`, over the ASCII classes of `Text`.
- JobParser.ExtractSkills: the iteration order of Python sets is nondeterministic in the model (`:|`). The result is proved not to depend on it.
- The entries "c#" and ".net" of the substring list are kept as in the source, although the vocabulary holds neither, so they never take effect.
