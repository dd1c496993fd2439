# Résumé-to-job matching engine, modelled in Dafny

This project models the deterministic core of a résumé-to-job scoring engine.
It has four parts.

- **Cleaner** (`clean_text`): normalises raw résumé text. Line breaks become
  spaces, non-ASCII characters become spaces, runs of whitespace collapse to
  one space, and the text is stripped and lower-cased. Empty input is an error,
  and so is a text that is empty once cleaned.
- **Profile extraction** (the parts of the NLP pipeline that are plain logic):
  - the skill lexicon map built from the skill list (lower-cased key to
    original spelling, the last line winning);
  - the order-preserving de-duplication of matched skill spans;
  - role detection over section-header snippets and then the full text,
    using the role keyword list sorted longest first;
  - experience years: an explicit "N years" mention, or else the sum of
    date ranges, rounded half-even to whole years and at least 1.
- **Matcher**: the three factor scores.
  - Skill: the share of comma-separated job-function tokens whose lower-case
    form is among the candidate's lower-cased skills.
  - Role: the share of the parsed role's non-stop words that occur in the
    job title.
  - Experience: range rule, then minimum rule, then fresher keywords, then a
    neutral 0.5.
  - Also the weighted final percentage rounded to two decimals, the label,
    and the matched and missing skill lists.
- **Ranking** (`match_resume_to_jobs`): scores every job, fails on the first
  job without `id`, `company` or `job_title`, sorts stably by final score in
  descending order, and assigns ranks 1, 2, ….

Modules:

| module | file | what it holds |
|---|---|---|
| `Wrappers` | wrappers.dfy | `Option` and `Result` |
| `Text` | text.dfy | ASCII lower-casing, title-casing, `str.strip`, `str.split`, `\w+` words, substring test |
| `Numeric` | numeric.dfy | Python's `round` on exact values (half to even), and `round(x, 2)` |
| `Seqs` | seqs.dfy | list comprehension with a condition, subsequences, `set(xs)` |
| `Sorting` | sorting.dfy | Python's stable `list.sort(reverse=True)` as insertion sort |
| `Cleaner` | cleaner.dfy | `clean_text` |
| `Matcher` | matcher.dfy | `pipeline/matcher.py` without the driver loop |
| `Ranking` | ranking.dfy | `match_resume_to_jobs` |
| `NlpPipeline` | nlp_pipeline.dfy | skill map, skill dedup, role detection, experience years |

Code that is imperative in the source is imperative in the model:
- the skill-map fold (`BuildSkillMap`);
- the module-global skill map, as a class with a `Load` method;
- the dedup loop (`SkillLexicon.ExtractSkills`);
- the per-job loop and the rank loop (`ScoreJobs`, `SetRanks`);
- the date-range sum (`SumMonths`).

Each of these methods is proved equal to a specification function. The
properties are proved about those functions.

## Model

| member | source | states |
|---|---|---|
| Cleaner.CleanText_Errors | pipeline/cleaner.py:57-86 | `EmptyInput` exactly when the input is missing or empty; `EmptyAfterCleaning` exactly when the input has no ASCII non-whitespace character |
| Cleaner.CleanText_IsClean | pipeline/cleaner.py:67-80 | a successful result is ASCII, has only single spaces as whitespace, no leading or trailing space, and is lower case |
| Cleaner.CleanText_KeepsCharacters | pipeline/cleaner.py:67-80 | the ASCII non-whitespace characters of the result are those of the input, in order, lower-cased |
| Cleaner.CleanText_NoBreaks | pipeline/cleaner.py:67-68 | no newline, carriage return or tab survives cleaning |
| Cleaner.CleanText_FixedPoint | pipeline/cleaner.py:57-91 | an already clean text is returned unchanged |
| Cleaner.CleanText_Idempotent | pipeline/cleaner.py:57-91 | cleaning a cleaned text gives the same text |
| Cleaner.ReplaceRuns_SingleSpaced | pipeline/cleaner.py:73-74 | after collapsing, every whitespace character is a single space and no two spaces are adjacent |
| Cleaner.KeptChars_ReplaceCrLf | pipeline/cleaner.py:67-68 | replacing line breaks keeps every ASCII non-whitespace character |
| Cleaner.KeptChars_ReplaceRuns | pipeline/cleaner.py:70-74 | replacing runs of non-kept characters by one space keeps every kept character |
| Cleaner.KeptChars_Strip | pipeline/cleaner.py:76-77 | stripping removes only whitespace |
| Cleaner.KeptChars_Lower | pipeline/cleaner.py:79-80 | lower-casing commutes with keeping non-whitespace ASCII characters |
| Cleaner.Normalize_Clean | pipeline/cleaner.py:67-80 | the five cleaning steps leave a clean text unchanged |
| Cleaner.CleanText_Words | pipeline/cleaner.py:57-91 | cleaning succeeds exactly when the text has a word (a maximal run of ASCII non-whitespace characters), and then the result is the lower-cased words joined by single spaces |
| Cleaner.CleanText_TwoWords | pipeline/cleaner.py:67-80 | two words separated by any non-empty gap of whitespace or non-ASCII characters clean to the lower-cased words with one space between (as "Hello World  Python" becomes "hello world python") |
| Cleaner.KeptRuns_Normalize | pipeline/cleaner.py:67-80 | the five cleaning steps turn the words of the text into their lower-cased forms, in order |
| Cleaner.KeptRuns_ReplaceCrLf | pipeline/cleaner.py:67-68 | replacing line breaks by spaces leaves the words unchanged |
| Cleaner.KeptRuns_ReplaceChar | pipeline/cleaner.py:68 | replacing one non-word character by another leaves the words unchanged |
| Cleaner.KeptRuns_ReplaceRuns | pipeline/cleaner.py:70-74 | replacing runs of non-word characters by one space leaves the words unchanged |
| Cleaner.KeptRuns_Strip | pipeline/cleaner.py:76-77 | stripping leaves the words unchanged |
| Cleaner.Clean_JoinRuns | pipeline/cleaner.py:57-91 | a clean text is its words joined by single spaces |
| Matcher.SkillTokens | pipeline/matcher.py:82 | tokens are non-empty, contain no comma, and an empty job function gives no tokens |
| Matcher.NonBlankPieces | pipeline/matcher.py:82 | every token is the stripped form of one comma-separated piece |
| Matcher.SkillScore | pipeline/matcher.py:79-99 | the score lies in [0, 1] and is 0 when there are no skills or no tokens |
| Matcher.SkillScore_Ratio | pipeline/matcher.py:86-91 | otherwise the score is (distinct lower-case tokens among the lower-cased skills) / (number of tokens, duplicates included) |
| Matcher.SkillScore_FullIff | pipeline/matcher.py:79-99 | the score is 1 exactly when there are skills and tokens, nothing is missing, and no token repeats case-insensitively |
| Matcher.SkillScore_RepeatedToken | pipeline/matcher.py:82-91 | a token listed twice (e.g. "Python,python") caps the score at 1/2 even when the skill is held |
| Matcher.SkillScore_EmptyJobFunction | pipeline/matcher.py:79-80 | an empty job function scores 0 |
| Matcher.SkillScore_CaseInsensitive | pipeline/matcher.py:86-87 | lower-casing the skills and the job function does not change the score |
| Matcher.MatchedSkills | pipeline/matcher.py:347-348 | the result keeps the candidate's order and holds exactly the skills whose lower-case form is a lower-cased token, each as many times as the candidate lists it |
| Matcher.MissingSkills | pipeline/matcher.py:370-372 | the result keeps the token order and holds exactly the tokens whose lower-case form is not a lower-cased skill, each as many times as the job function lists it; it is empty exactly when every token is covered |
| Seqs.FilterCount | pipeline/matcher.py:348 | a conditional comprehension keeps every occurrence of a kept element and none of the others |
| Matcher.TokensMatchedOrMissing | pipeline/matcher.py:347-372 | every token is either missing or matched by some listed skill |
| Matcher.RoleWords | pipeline/matcher.py:107-110 | role words are non-empty and never stop words |
| Matcher.CountIn | pipeline/matcher.py:146 | the count is at most the number of words, equals it exactly when all words are in the pool, and is 0 exactly when none is |
| Matcher.RoleScore | pipeline/matcher.py:137-158 | the score lies in [0, 1] and is 0 without a parsed role |
| Matcher.RoleScore_EmptyRole | pipeline/matcher.py:137-138 | an empty parsed role scores 0 |
| Matcher.RoleScore_Ratio | pipeline/matcher.py:140-147 | with role words present, the score is (role words found in the title) / (role words, duplicates included) |
| Matcher.RoleScore_FullIff | pipeline/matcher.py:137-158 | the score is 1 exactly when the role has words and every one occurs in the title |
| Matcher.RoleScore_ZeroIff | pipeline/matcher.py:137-158 | the score is 0 exactly when there is no role or no role word occurs in the title |
| Matcher.RoleScore_CaseInsensitive | pipeline/matcher.py:107-110 | lower-casing the role and the title does not change the score |
| Matcher.FindRange_Leftmost | pipeline/matcher.py:31 | the range search finds the leftmost position where the range pattern matches, or reports that none exists |
| Matcher.FindMin_Leftmost | pipeline/matcher.py:34 | the same for the minimum pattern |
| Matcher.ClassifyExperience | pipeline/matcher.py:178-234 | on the stripped, lower-cased text: Range exactly when the range pattern matches; Min exactly when only the minimum pattern matches; Fresher exactly when neither matches and a fresher keyword occurs |
| Matcher.Classify_UnparseableIff | pipeline/matcher.py:178-234 | Unparseable exactly when no position matches either pattern and no fresher keyword occurs |
| Matcher.Classify_ZeroToOneIsRange | pipeline/matcher.py:37-39 | any text containing "0-1" is a range, so the "0-1" fresher keyword never decides |
| Matcher.Classify_TenYearsIsFresher | pipeline/matcher.py:37-39 | "10 years" is classified as fresher, because it contains "0 years" |
| Matcher.Classify_RangeExample | pipeline/matcher.py:31 | "2-4 years" is the range 2 to 4 |
| Matcher.Classify_MinExample | pipeline/matcher.py:34 | "5+ years" is the minimum 5 |
| Matcher.Classify_EmptyIsUnparseable | pipeline/matcher.py:178-234 | an empty requirement is unparseable |
| Matcher.RangeAtDigitDashDigit | pipeline/matcher.py:31 | a digit, a dash and a digit always start a range match |
| Matcher.RuleScore | pipeline/matcher.py:180-234 | the score lies in [0, 1]; it is 1 inside a range, at or above a minimum, and at most 1 year for fresher; it is 0.5 when unparseable |
| Matcher.DecayMonotone | pipeline/matcher.py:186-188 | the `max(0, 1 - d * rate)` decay never increases with distance |
| Matcher.RuleScore_RangeMonotone | pipeline/matcher.py:185-191 | below the range more years never lowers the score, and above it more years never raises it |
| Matcher.RuleScore_MinMonotone | pipeline/matcher.py:204-207 | more years never lowers the minimum-rule score |
| Matcher.RuleScore_FresherMonotone | pipeline/matcher.py:218-221 | more years never raises the fresher-rule score |
| Matcher.ExperienceScore | pipeline/matcher.py:262-268 | the score lies in [0, 1]; it is 0.5 for unknown years and for unparseable text |
| Matcher.ExperienceScore_UnknownBeatsZero | pipeline/matcher.py:262-268 | against "5+ years", unknown years score 0.5 and zero years score 0 |
| Matcher.FinalScore | pipeline/matcher.py:297-298 | the result has two decimals and lies within 0.005 of 50·skill + 30·role + 20·experience |
| Matcher.FinalScore_Bounds | pipeline/matcher.py:297-298 | factors in [0, 1] give a final score in [0, 100] |
| Matcher.FinalScore_Weights | pipeline/matcher.py:297-298 | each factor alone gives 50, 30 and 20; all give 100; none gives 0 |
| Matcher.FinalScore_Monotone | pipeline/matcher.py:297-298 | raising any factor never lowers the final score |
| Matcher.MatchLabel | pipeline/matcher.py:320-326 | each label corresponds exactly to its band: at least 80, from 60 to under 80, from 40 to under 60, under 40 |
| Matcher.MatchLabel_Monotone | pipeline/matcher.py:320-326 | a higher score never gets a lower label |
| Ranking.RequiredKeyError | pipeline/matcher.py:437-439 | a job fails exactly when it lacks `id`, `company` or `job_title` |
| Ranking.FirstKeyError | pipeline/matcher.py:436-439 | the error is the one of the first job that fails, and there is none exactly when every job is well formed |
| Ranking.Percent | pipeline/matcher.py:464-466 | a factor in [0, 1] becomes a percentage in [0, 100] with two decimals, within 0.005 of 100 times the factor |
| Ranking.ScoreJob | pipeline/matcher.py:437-471 | the result carries the job's identity and echoed fields, rank 0, the final score of the three factors, each factor as a percentage, the matched and missing skills, and the label of its final score |
| Ranking.ScoreJob_QualificationIgnored | pipeline/matcher.py:442-461 | changing the qualification changes only the echoed qualification |
| Ranking.ScoreAll_At | pipeline/matcher.py:436-472 | the i-th result is the score of the i-th job |
| Ranking.ScoreAll_Unranked | pipeline/matcher.py:470 | every result is unranked before sorting |
| Ranking.AssignRanks | pipeline/matcher.py:478-479 | the i-th result gets rank i + 1 |
| Ranking.ScoreJobs | pipeline/matcher.py:436-472 | the per-job loop computes the scored batch, or the first missing-key error |
| Ranking.SetRanks | pipeline/matcher.py:478-479 | the rank loop computes `AssignRanks` |
| Ranking.MatchResumeToJobs | pipeline/matcher.py:430-487 | the method computes `MatchAll` |
| Ranking.MatchAll_Shape | pipeline/matcher.py:436-479 | failure exactly when some job lacks a required key; on success, one result per job, ranked 1 to n |
| Ranking.MatchAll_Ranked | pipeline/matcher.py:475-479 | results are in descending final-score order; they are a permutation of the scored jobs; jobs with equal scores keep their input order |
| Ranking.MatchAll_FirstError | pipeline/matcher.py:436-439 | the error reported is the first failing job's |
| Ranking.RanksKeepOrder | pipeline/matcher.py:478-479 | assigning ranks keeps the descending order |
| Sorting.SortDescending_Spec | pipeline/matcher.py:475 | the sort output is descending by key, a permutation of its input, and stable for each key value |
| NlpPipeline.BuildSkillMap | pipeline/nlp_pipeline.py:186-192 | the loop computes the skill-map fold |
| NlpPipeline.SkillMap_Keys | pipeline/nlp_pipeline.py:189-192 | a key is present exactly when some line strips to a non-empty skill whose lower case is that key |
| NlpPipeline.SkillMap_Values | pipeline/nlp_pipeline.py:189-192 | every value is a stripped line carrying its key; it is non-empty and lower-cases to its key |
| NlpPipeline.SkillMap_LastWins | pipeline/nlp_pipeline.py:189-192 | the last line carrying a key decides its value |
| NlpPipeline.SkillLexicon.Load | pipeline/nlp_pipeline.py:201-202 | loading sets the global skill map to the fold of the lines |
| NlpPipeline.SkillLexicon.ExtractSkills | pipeline/nlp_pipeline.py:232-240 | the loop returns the de-duplicated canonical spellings of the matched spans |
| NlpPipeline.Canonicals | pipeline/nlp_pipeline.py:235-236 | each span maps to its canonical spelling, one per span |
| NlpPipeline.Dedup | pipeline/nlp_pipeline.py:232-240 | the result holds the same elements as the input, with no repeats |
| NlpPipeline.Dedup_FirstOccurrenceOrder | pipeline/nlp_pipeline.py:232-240 | the result is in order of first occurrence |
| NlpPipeline.Canonical_SameLowercase | pipeline/nlp_pipeline.py:235-236 | the canonical spelling lower-cases to the span's lower case |
| NlpPipeline.ExtractSkills_CaseVariants | pipeline/nlp_pipeline.py:234-240 | two case variants of a lexicon skill produce the lexicon spelling once |
| NlpPipeline.RoleKeywords_LongestFirst | pipeline/nlp_pipeline.py:48-113 | the sorted keywords are longest first, a permutation of the list, and keep list order among equal lengths |
| NlpPipeline.FirstKeywordIn | pipeline/nlp_pipeline.py:284-288 | none exactly when no keyword occurs; otherwise a keyword that occurs |
| NlpPipeline.FirstKeyword_Leftmost | pipeline/nlp_pipeline.py:284-288 | the keyword found is the first in list order that occurs |
| NlpPipeline.FirstKeyword_Longest | pipeline/nlp_pipeline.py:283-288 | over a longest-first list, no occurring keyword is longer than the one found |
| NlpPipeline.SnippetKeyword | pipeline/nlp_pipeline.py:275-281 | none exactly when no snippet contains a keyword |
| NlpPipeline.SnippetKeyword_FirstHit | pipeline/nlp_pipeline.py:275-281 | the keyword comes from the first snippet that contains any |
| NlpPipeline.RoleScan_NoneIff | pipeline/nlp_pipeline.py:274-291 | no role exactly when no keyword occurs in any snippet or in the full text |
| NlpPipeline.RoleScan_IsKeyword | pipeline/nlp_pipeline.py:279-286 | a role is the title-cased form of a keyword and lower-cases back to it |
| NlpPipeline.RoleScan_SnippetFirst | pipeline/nlp_pipeline.py:275-281 | the first snippet with a keyword decides the role |
| NlpPipeline.RoleScan_SnippetLongest | pipeline/nlp_pipeline.py:275-281 | within the deciding snippet, the role is at least as long as any keyword there |
| NlpPipeline.RoleScan_FullTextLongest | pipeline/nlp_pipeline.py:283-288 | without a snippet hit, the role is at least as long as any keyword in the text |
| NlpPipeline.ParsedRole_SnippetLongest | pipeline/nlp_pipeline.py:274-281 | the same snippet property over the actual sorted keyword list |
| NlpPipeline.ParsedRole_FullTextLongest | pipeline/nlp_pipeline.py:283-291 | the same full-text property over the actual sorted keyword list |
| NlpPipeline.ExtractExperienceYears | pipeline/nlp_pipeline.py:320-362 | the method computes `ExperienceYears` |
| NlpPipeline.SumMonths | pipeline/nlp_pipeline.py:334-350 | the loop sums the months of the ranges that count |
| NlpPipeline.MonthsToYears | pipeline/nlp_pipeline.py:352-353 | the method computes `YearsOfMonths` |
| NlpPipeline.ExperienceYears | pipeline/nlp_pipeline.py:320-362 | a reported number of years is never negative |
| NlpPipeline.YearsOfMonths | pipeline/nlp_pipeline.py:352-353 | a positive month total gives at least one year |
| NlpPipeline.EndYear_Digits | pipeline/nlp_pipeline.py:341-342 | a digit string ends in the year it spells |
| NlpPipeline.EndYear_Present | pipeline/nlp_pipeline.py:338-339 | "present", "current", "till date" and "now", in any case, end in the current year |
| NlpPipeline.EndYear_Example | pipeline/nlp_pipeline.py:341-342 | "2024" ends in 2024 |
| NlpPipeline.TotalMonths_WholeYears | pipeline/nlp_pipeline.py:345-350 | every counted range is a whole number of years, so the month total is 12 times the year total |
| NlpPipeline.TotalYears_ZeroIff | pipeline/nlp_pipeline.py:345-350 | the total is 0 exactly when no range counts |
| NlpPipeline.YearsOfMonths_WholeYears | pipeline/nlp_pipeline.py:352-353 | rounding a whole-year month total gives that number of years, and none when it is 0 |
| NlpPipeline.ExperienceYears_FromRanges | pipeline/nlp_pipeline.py:334-362 | without an explicit mention, the years are the sum of the counted ranges' years, or none when that sum is 0 |
| NlpPipeline.ExperienceYears_NoneIff | pipeline/nlp_pipeline.py:320-362 | none exactly when there is no explicit mention and no range counts |
| NlpPipeline.ExperienceYears_ExplicitWins | pipeline/nlp_pipeline.py:324-331 | an explicit mention (forward pattern first) decides, whatever the ranges and the year |
| NlpPipeline.ExperienceYears_RangesPositive | pipeline/nlp_pipeline.py:352-353 | years from ranges are at least 1 |
| NlpPipeline.ExperienceYears_OneSpan | pipeline/nlp_pipeline.py:334-362 | one range gives its own years, or none when it does not count |
| NlpPipeline.ExperienceYears_TwoSpans | pipeline/nlp_pipeline.py:334-362 | two ranges give the sum of their years, or none when neither counts |
| NlpPipeline.ExperienceYears_OneRange | pipeline/nlp_pipeline.py:334-359 | 2019 to 2024 gives 5 years |
| NlpPipeline.ExperienceYears_TwoRanges | pipeline/nlp_pipeline.py:334-359 | 2018 to 2020 plus 2020 to 2023 gives 5 years |
| NlpPipeline.ExperienceYears_Present | pipeline/nlp_pipeline.py:338-339 | 2021 to "present" gives the current year minus 2021 |
| NlpPipeline.ExperienceYears_SameYear | pipeline/nlp_pipeline.py:345-349 | a range that starts and ends in the same year (as in "B.Tech - 2024") is ignored |

## Left out

- Characters are ASCII only. Python's Unicode `str.lower`, `str.strip`, `\s`, `\w` and `\d` are modelled on their ASCII behaviour.
- Scores are exact rationals, not IEEE floats. `round(x, 2)` is round-half-even on the exact value, so a binary rounding artefact of the source is not modelled.
- spaCy is not modelled: the model, the tokeniser and the `PhraseMatcher`. `ExtractSkills` takes the matched span texts as its input.
- The regular-expression searches in the NLP pipeline are not modelled: `_SECTION_HEADERS`, the two explicit-experience patterns and `_DATE_RANGE_RE`. Their matches are inputs: header snippets, the two explicit values, and (start year, end text) pairs.
- `datetime.now().year` is a parameter `currentYear`.
- Reading `skills_list.txt` is not modelled; its lines are a parameter. A missing file's `FileNotFoundError` is left out too.
- Logging, PDF extraction and the command-line driver are not part of this model.
- `int()` is modelled on ASCII digit strings only. Its acceptance of signs, underscores, surrounding whitespace and non-ASCII digits is left out.
  - In the NLP pipeline this loses nothing: `extract_experience_years` reads the output of `clean_text`, which is ASCII, so its `\d` matches only ASCII digits.
  - In the matcher it does lose something: the experience patterns run `\d` on the raw `job.experience` text, where Python also matches non-ASCII decimal digits (such as Arabic-Indic digits) and `int()` converts them. The model's digit class is ASCII only, so such a requirement is classified differently here.
- Job fields and profile keys are either present or absent. A key that is present but holds `None` (for example `job_function: None`) is not modelled.
- RoleScore: its contract states only the bounds and the no-role case. The exact ratio and both if-and-only-if cases are stated by `RoleScore_Ratio`, `RoleScore_FullIff` and `RoleScore_ZeroIff`.
- RuleScore: its contract states the bounds, the full-score cases and the neutral 0.5. The decay values are covered only by the monotonicity lemmas.
- ParsedRole: it has no contract of its own. Its properties are stated by `ParsedRole_SnippetLongest`, `ParsedRole_FullTextLongest` and the `RoleScan_*` lemmas, which hold for any keyword list.
- RoleKeywords_LongestFirst: the lower-case form of the keywords is not proved, only relied on as written.
- Experience rules, as the code has them:
  - A missing candidate experience (`None`) scores 0.5 under every rule. It is not read as 0 years.
  - A fresher keyword is matched as a substring, so "10 years" counts as fresher because it contains "0 years".
  - A job without `id`, `company` or `job_title` ends the whole call with an error. It is not skipped.
- Skill matching: the skill score and the matched and missing lists compare lower-cased tokens and skills by exact equality, as the code does. A token that merely contains a skill, or is contained in one, does not match.
- The "0-1" fresher keyword can never decide, since any text containing it is a range first.
- The six-month guard in the date-range sum is kept. Durations are whole years of 12 months, so it holds exactly when the end year is after the start year.
- The `continue` branch for an unreadable end year is modelled for any end text. The source's `_DATE_RANGE_RE` only produces four-digit years or present words, so this branch cannot be reached there.
