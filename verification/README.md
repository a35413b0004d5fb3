# CAPRA's deterministic core in Dafny

CAPRA audits software-engineering project documents. Language-model agents
propose issues, requirements and use cases. Plain code then checks,
normalises and reports on them. This project models that plain code and
proves what it guarantees. The language-model calls are replaced by their
replies, which the model takes as inputs.

The project also models the evaluation script that measures agreement
between two human annotators. The script loads each annotator's workbook,
pairs the two annotators' scores, groups the pairs by question and hands
them to Cohen's kappa.

One module per component:

| module | models |
|---|---|
| `Agreement` | `eval/agreement.py`: loading scores, pairing them, grouping them by qid, kappa inputs |
| `Issues` | the issue records: `AuditIssue`, `VerifiedIssue`, `FeatureCoverage` and the traceability, use-case and requirement entries |
| `Requirements` | `RequirementExtractorAgent`: technical-requirement filter and ID normalisation |
| `Consistency` | `ConsistencyManager`: keeping confirmed issues, deterministic sort, category renumbering |
| `Evidence` | `EvidenceAnchoringService`: text normalisation, Levenshtein and LCS programmes, trigram counts, anchoring decisions |
| `Normalizer` | `ReportNormalizer`: short descriptions, quote penalty, ranking and capping, missing features, completeness metrics |
| `LatexReport` | `LatexReportService`: LaTeX escaping, UC extraction, prompt truncation, requirement-to-UC links, traceability grouping and statistics |
| `LatexCompiler` | `LatexCompilerService`: error-line extraction from the compiler log, PDF name |
| `FuzzyDiscards` | `FuzzyDiscardAccumulator`: cleaning, accumulation, header value, export envelope |
| `FeatureCoverageJson` | `FeatureCoverageDeserializer`: field defaults and status parsing |
| `UploadController` | `PdfAnalysisController`: upload validation and response selection |
| `AuditReports` | `AuditReport.from`: counts and severity distribution |

Supporting modules hold the model's own building blocks:

- `Wrappers` provides `Option` and `Result`.
- `JavaString` gives the Java `String` operations the source relies on: `trim`, `strip`, `isBlank`, `split`, `replace`, `replaceAll` on runs, ASCII case mapping and integer text.
- `OrderedMap` is an insertion-ordered association list. It stands for `LinkedHashMap` and for Python's `dict`.
- `Sorting` is a stable insertion sort with a comparator that is a strict weak order. It stands for `List.sort` and `Stream.sorted`.

`model/AuditIssue.java` declares eight record components. `service/ReportNormalizer.java`
reads `shortDescription()` and calls a nine-argument constructor. The model
follows the nine-component shape that the normaliser uses, with
`shortDescription` third.

The `%03d` in the renumbering only pads numbers; numbers of four or more
digits are written out in full, as the model's ID formatting does.

`extractLatexError` appends `"; "` after each error line and then trims. This
leaves a final `;` on the message, and `LatexCompiler.ExtractLatexError`
states it.

## Model

| member | source | states |
|---|---|---|
| Agreement.PyInt | eval/agreement.py:27 | `int()` of a numeric cell is its value; of a text cell it succeeds exactly on ASCII integer text (blanks, an optional sign, digits) and raises otherwise |
| Agreement.ResolveRow | eval/agreement.py:15-27 | a row with no qid is skipped; a filled score cell decides alone (or raises); otherwise the pass marker gives 1 and then the fail marker gives 0; neither gives no score; reading past the row's end raises |
| Agreement.NumericScoreWins | eval/agreement.py:19-22 | with a filled score cell, the indicator cells cannot change the outcome |
| Agreement.PassMarkerWins | eval/agreement.py:21-24 | with no number and the pass marker set, the fail cell cannot change the outcome |
| Agreement.IndicatorScoresAreBinary | eval/agreement.py:21-24 | scores read from the indicator columns are 0 or 1 |
| Agreement.TeamScoresUnique | eval/agreement.py:27 | each team's map has one score per qid |
| Agreement.SetScoreWellFormed | eval/agreement.py:27 | `setdefault(team, {})[qid] = score` keeps both map levels free of duplicate keys |
| Agreement.SetScoreReads | eval/agreement.py:27 | the assignment changes exactly the (team, qid) score and adds only that team key |
| Agreement.LoadRowsSpec | eval/agreement.py:14-27 | after one sheet, a team's score for a qid is that of the last row evaluating it; the team key appears exactly when a row was evaluated; other teams are untouched |
| Agreement.HeaderIgnored | eval/agreement.py:14 | the header row is never read |
| Agreement.TeamSheets | eval/agreement.py:10-12 | only sheets named `Team…` are kept |
| Agreement.OnlyTeamSheetsCount | eval/agreement.py:10-12 | non-team sheets contribute nothing to the loaded scores |
| Agreement.TeamRows | eval/agreement.py:10-14 | there is no row list for `t` exactly when no team sheet is named `t` |
| Agreement.LoadSheetsSpec | eval/agreement.py:10-27 | loading all sheets from an accumulator agrees with the last-row-wins reference for every (team, qid) |
| Agreement.LoadScoresSpec | eval/agreement.py:7-28 | `load_scores` yields, per team sheet with an evaluated row, the last-row-wins score of each qid, and nothing else |
| Agreement.TeamCommon | eval/agreement.py:38-42 | every common cell built for a team carries that team |
| Agreement.Common | eval/agreement.py:36-42 | `common` has one pair per shared (team, qid) cell |
| Agreement.TeamCommonSound | eval/agreement.py:38-42 | every pair of a team is (first score, second score) for its qid |
| Agreement.TeamCommonComplete | eval/agreement.py:38-42 | every qid scored by both annotators in a team gets a pair |
| Agreement.TeamCommonDistinct | eval/agreement.py:38-42 | no qid is paired twice within a team |
| Agreement.WellFormedTail | eval/agreement.py:36-37 | the remaining teams after the first are well formed and do not repeat the first |
| Agreement.CommonSound | eval/agreement.py:36-42 | every pair of `common` is `(m1[t][q], m2[t][q])` for its cell |
| Agreement.CommonComplete | eval/agreement.py:36-42 | every (team, qid) scored by both annotators has a pair in `common` |
| Agreement.CommonDistinct | eval/agreement.py:36-42 | no (team, qid) appears twice in `common` |
| Agreement.CommonEmptyIffDisjoint | eval/agreement.py:36-46 | `common` is empty exactly when no cell is scored by both annotators |
| Agreement.GroupByQidUnique | eval/agreement.py:53-59 | `by_q` has one group per qid |
| Agreement.GroupByQidTotal | eval/agreement.py:53-59 | grouping adds exactly one pair per cell |
| Agreement.GroupByQidGet | eval/agreement.py:53-59 | each group is its qid's pairs in iteration order, appended to what was there |
| Agreement.ByQidPartitionsCommon | eval/agreement.py:53-59 | the groups partition `common` by qid, keep its order and sum to its length |
| Agreement.ByQidEntry | eval/agreement.py:53-63 | the group at each position holds exactly its qid's pairs |
| Agreement.Firsts | eval/agreement.py:48-49 | the first annotator's series has one score per pair |
| Agreement.Seconds | eval/agreement.py:48-49 | the second annotator's series has one score per pair |
| Agreement.Agreement | eval/agreement.py:36-63 | no kappa exactly when nothing is shared; otherwise the overall kappa is over all shared pairs, first annotator first, and one kappa per qid group over that group's pairs |
| Issues.Ordinal | src/main/java/com/example/demo/service/ReportNormalizer.java:69 | a severity's ordinal is below 3 |
| Issues.OrdinalInjective | src/main/java/com/example/demo/agent/ConsistencyManager.java:174 | distinct severities have distinct ordinals |
| Issues.ToConfidence | src/main/java/com/example/demo/model/AuditIssue.java:26-28 | a positive confidence is kept; a non-positive one becomes 0.8 |
| Issues.NewIssue | src/main/java/com/example/demo/model/AuditIssue.java:15-28 | the constructor keeps every field and applies the default-confidence rule |
| Issues.WithId | src/main/java/com/example/demo/model/AuditIssue.java:31-33 | the copy has the new id and every other field unchanged |
| Issues.WithConfidence | src/main/java/com/example/demo/model/AuditIssue.java:36-38 | the copy differs at most in confidence, which goes through the default rule again |
| Issues.ScaledConfidence | src/main/java/com/example/demo/model/AuditIssue.java:26-38 | scaling by a positive factor never triggers the default |
| Issues.ToAuditIssue | src/main/java/com/example/demo/model/VerifiedIssue.java:23-25 | the conversion keeps every issue field and drops the verification fields |
| Requirements.GeneratedIdFacts | src/main/java/com/example/demo/agent/RequirementExtractorAgent.java:163-172 | `REQ-n` is upper case, is a valid existing ID and reads back the number `n` |
| Requirements.GeneratedReadsBack | src/main/java/com/example/demo/agent/RequirementExtractorAgent.java:169-172 | `extractTrailingNumber("REQ-" + n)` is `n` |
| Requirements.FunctionalOnly | src/main/java/com/example/demo/agent/RequirementExtractorAgent.java:81-83 | the survivors are exactly the non-technical requirements, no more of them than the input holds; with no technical one the list is unchanged |
| Requirements.FunctionalOnlyAppend | src/main/java/com/example/demo/agent/RequirementExtractorAgent.java:81-83 | the filter distributes over concatenation |
| Requirements.FunctionalOnlyKeeps | src/main/java/com/example/demo/agent/RequirementExtractorAgent.java:81-83 | each entry stays in its place, once, exactly when it is not technical, so order and repeats are kept |
| Requirements.RefIdKeptOrGenerated | src/main/java/com/example/demo/agent/RequirementExtractorAgent.java:131-152 | the first occurrence of a valid ID is kept (trimmed); every other entry gets a generated `REQ-N` |
| Requirements.RefIdValid | src/main/java/com/example/demo/agent/RequirementExtractorAgent.java:136-152 | every final ID is a valid requirement ID: not blank, not a use-case ID |
| Requirements.GeneratedAboveReserved | src/main/java/com/example/demo/agent/RequirementExtractorAgent.java:111-126 | generated numbers lie above every number an existing valid ID carries |
| Requirements.GeneratedProgressive | src/main/java/com/example/demo/agent/RequirementExtractorAgent.java:142-151 | generated numbers grow with entry position |
| Requirements.SpelledAsGenerated | src/main/java/com/example/demo/agent/RequirementExtractorAgent.java:169-172 | an ID spelled `REQ-n` up to case carries the number `n` |
| Requirements.RefIdsDistinct | src/main/java/com/example/demo/agent/RequirementExtractorAgent.java:108-161 | no two final IDs coincide, not even up to case |
| Requirements.RefNameNonBlank | src/main/java/com/example/demo/agent/RequirementExtractorAgent.java:154-157 | every final name is non-blank, and a non-blank name is kept (trimmed) |
| Requirements.NextFree | src/main/java/com/example/demo/agent/RequirementExtractorAgent.java:142-148 | the counter stops at the least unused number at or above its start |
| Requirements.FirstValidSeen | src/main/java/com/example/demo/agent/RequirementExtractorAgent.java:128-140 | the loop's seen set decides exactly which IDs the reference calls first valid |
| Requirements.ReserveNumbers | src/main/java/com/example/demo/agent/RequirementExtractorAgent.java:111-124 | the first pass fails exactly when an ID number overflows; otherwise it returns the largest reserved number and a set bounded by it |
| Requirements.GenerateId | src/main/java/com/example/demo/agent/RequirementExtractorAgent.java:142-145 | with every used number below the counter, the generated ID is "REQ-" plus the counter, whose number is recorded as used, and the counter moves one past it |
| Requirements.NextId | src/main/java/com/example/demo/agent/RequirementExtractorAgent.java:136-152 | one step of the second pass yields the reference ID and keeps the seen set and counter in step with the reference |
| Requirements.AssignIds | src/main/java/com/example/demo/agent/RequirementExtractorAgent.java:126-158 | the second pass yields exactly the reference entries |
| Requirements.NormalizeRequirementIds | src/main/java/com/example/demo/agent/RequirementExtractorAgent.java:108-161 | fails exactly on an over-large ID number; otherwise entry `i` is the reference entry `i` |
| Requirements.Extract | src/main/java/com/example/demo/agent/RequirementExtractorAgent.java:62-98 | no list or an overflow gives `[]`; otherwise the normalised functional requirements, all with valid IDs |
| Consistency.PrefixCases | src/main/java/com/example/demo/agent/ConsistencyManager.java:199-207 | the three categories, ignoring case, get REQ, TST and ARCH; anything else, missing or blank gets ISS |
| Consistency.PrefixHeadsDiffer | src/main/java/com/example/demo/agent/ConsistencyManager.java:199-207 | prefixes of different kinds start with different letters |
| Consistency.IssueCompareSpec | src/main/java/com/example/demo/agent/ConsistencyManager.java:171-177 | the comparator is lexicographic on category (null as `ZZZ`), severity, page and description (null as empty) |
| Consistency.IssueOrderIsStrictWeak | src/main/java/com/example/demo/agent/ConsistencyManager.java:171-177 | the comparator is a strict weak order, so the sort is well defined |
| Consistency.SortedIssues | src/main/java/com/example/demo/agent/ConsistencyManager.java:171-177 | the sorted list is a permutation in comparator order, stable on ties |
| Consistency.Renumber | src/main/java/com/example/demo/agent/ConsistencyManager.java:167-194 | the loop yields the reference renumbering |
| Consistency.RenumberedOnlyIds | src/main/java/com/example/demo/agent/ConsistencyManager.java:179-186 | renumbering changes only IDs: with IDs restored the output is the sorted input |
| Consistency.NewIdsDistinct | src/main/java/com/example/demo/agent/ConsistencyManager.java:180-186 | new IDs are pairwise distinct |
| Consistency.SeqNumbersConsecutive | src/main/java/com/example/demo/agent/ConsistencyManager.java:180-184 | within a prefix, the next issue gets the next number |
| Consistency.FirstOfPrefix | src/main/java/com/example/demo/agent/ConsistencyManager.java:182-184 | the first issue with a prefix gets `P-001` |
| Consistency.Confirmed | src/main/java/com/example/demo/agent/ConsistencyManager.java:123-126 | the result holds exactly the conversions of the verified issues, and is no longer than the reply |
| Consistency.ConfirmedAppend | src/main/java/com/example/demo/agent/ConsistencyManager.java:123-126 | keeping the confirmed issues distributes over concatenation |
| Consistency.ConfirmedKeeps | src/main/java/com/example/demo/agent/ConsistencyManager.java:123-126 | each verified issue is converted in its place, once, and the rest are dropped, so order and duplicates are kept |
| Consistency.Verify | src/main/java/com/example/demo/agent/ConsistencyManager.java:90-161 | no candidates give `[]`; a failed call or null reply renumbers all candidates; otherwise only the confirmed issues are renumbered |
| Evidence.EditDistanceFacts | src/main/java/com/example/demo/service/EvidenceAnchoringService.java:169-187 | the edit distance is symmetric, zero on equal strings and at most the longer length |
| Evidence.LevenshteinDistance | src/main/java/com/example/demo/service/EvidenceAnchoringService.java:169-187 | the two-row programme computes the edit distance |
| Evidence.LcsBound | src/main/java/com/example/demo/service/EvidenceAnchoringService.java:204-217 | a common subsequence is no longer than either side |
| Evidence.WordLcs | src/main/java/com/example/demo/service/EvidenceAnchoringService.java:204-217 | the two-row programme computes the longest common subsequence of the word lists |
| Evidence.Capped | src/main/java/com/example/demo/service/EvidenceAnchoringService.java:200-202 | at most the first 200 words are kept, as a prefix |
| Evidence.LcsRatio | src/main/java/com/example/demo/service/EvidenceAnchoringService.java:192-220 | 0 when either side has no words; otherwise the capped LCS length over the larger capped count (named `WordRatio`), within [0, 1] |
| Evidence.NormalizedSimilarity | src/main/java/com/example/demo/service/EvidenceAnchoringService.java:152-164 | 1 on equal strings; when both fit in 500 characters, one minus the distance over the longer length; when either is longer, the word ratio of `longestCommonSubsequenceRatio`; always within [0, 1] |
| Evidence.TrigramCounts | src/main/java/com/example/demo/service/EvidenceAnchoringService.java:225-239 | both counts are 0 below three characters; otherwise total is the number of positions in `b` and matches counts those holding a trigram of `a` |
| Evidence.BlankPunctuation | src/main/java/com/example/demo/service/EvidenceAnchoringService.java:247 | punctuation becomes a space, everything else is kept |
| Evidence.NormalizeShape | src/main/java/com/example/demo/service/EvidenceAnchoringService.java:244-250 | normalised text has no upper case, punctuation, edge whitespace or double space; null gives "" |
| Evidence.AnchorOne | src/main/java/com/example/demo/service/EvidenceAnchoringService.java:47-81 | a kept issue differs from the input only in confidence |
| Evidence.AnchorOneDrops | src/main/java/com/example/demo/service/EvidenceAnchoringService.java:51-70 | an issue is dropped exactly when its long-enough quote is neither found verbatim nor by the window search above 0.45 |
| Evidence.AnchorOnePenalties | src/main/java/com/example/demo/service/EvidenceAnchoringService.java:51-62 | a missing quote halves confidence; a short normalised quote multiplies it by 0.7 |
| Evidence.AnchorAll | src/main/java/com/example/demo/service/EvidenceAnchoringService.java:46-90 | anchoring never adds issues |
| Evidence.AnchorAllSubsequence | src/main/java/com/example/demo/service/EvidenceAnchoringService.java:46-90 | the kept issues are an order-preserving selection differing only in confidence |
| Evidence.AnchorAllKeepsFound | src/main/java/com/example/demo/service/EvidenceAnchoringService.java:51-70 | when no issue has a long quote missing from the document, every issue is kept |
| Evidence.AnchorEvidenceShape | src/main/java/com/example/demo/service/EvidenceAnchoringService.java:43-92 | empty input is returned as is; otherwise an order-preserving selection differing only in confidence |
| Normalizer.Ellipsized | src/main/java/com/example/demo/service/ReportNormalizer.java:164 | the truncation is 120 characters: the first 117 kept, then `...` |
| Normalizer.EllipsizedNotBlank | src/main/java/com/example/demo/service/ReportNormalizer.java:164 | a truncated description is never blank |
| Normalizer.LastIndexOf | src/main/java/com/example/demo/service/ReportNormalizer.java:176 | `lastIndexOf(c, from)` is the last position of `c` at or before `from`, or -1 |
| Normalizer.DerivedShort | src/main/java/com/example/demo/service/ReportNormalizer.java:172-182 | short or missing descriptions are kept; a long one is ellipsized or cut after a period beyond position 60 |
| Normalizer.DerivedShortAsWritten | src/main/java/com/example/demo/service/ReportNormalizer.java:173-182 | the code as written keeps a short or missing description |
| Normalizer.AsWrittenExceedsLimit | src/main/java/com/example/demo/service/ReportNormalizer.java:176-178 | as written, a period at index 120 gives a 121-character short description |
| Normalizer.AsWrittenNotIdempotent | src/main/java/com/example/demo/service/ReportNormalizer.java:160-182 | as written, a derived short description can be longer than the limit it is meant to respect |
| Normalizer.DerivedShortCorrected | src/main/java/com/example/demo/service/ReportNormalizer.java:172-182 | corrected: a derived short description never exceeds 120 characters and is never blank |
| Normalizer.DerivedShortNotBlank | src/main/java/com/example/demo/service/ReportNormalizer.java:174-182 | a description derived from a long one is never blank |
| Normalizer.EnsureShortDescription | src/main/java/com/example/demo/service/ReportNormalizer.java:160-187 | only the short description changes; a valid one is kept, a long one truncated to 120 with `...`, a missing one derived with the corrected cut of "## Findings"; never over 120 |
| Normalizer.EnsureShortDescriptionIdempotent | src/main/java/com/example/demo/service/ReportNormalizer.java:160-187 | ensuring twice is ensuring once |
| Normalizer.ValidateQuote | src/main/java/com/example/demo/service/ReportNormalizer.java:189-196 | a quoted issue is kept; a quoteless one keeps everything but confidence, which becomes 0.6 of itself |
| Normalizer.RankCompareSpec | src/main/java/com/example/demo/service/ReportNormalizer.java:66-70 | the ranking puts higher confidence first and then lower severity ordinal |
| Normalizer.RankOrderIsStrictWeak | src/main/java/com/example/demo/service/ReportNormalizer.java:66-70 | the ranking comparator is a strict weak order |
| Normalizer.Prepared | src/main/java/com/example/demo/service/ReportNormalizer.java:55-63 | each issue gets its short description (corrected cut, see "## Left out") and then the quote check, in place |
| Normalizer.NormalizeIssuesSpec | src/main/java/com/example/demo/service/ReportNormalizer.java:52-88 | the result has min(n, 7) issues, is ranked, is drawn from the prepared issues and outranks everything it drops, and is stable on ties |
| Normalizer.NormalizeIssuesEmpty | src/main/java/com/example/demo/service/ReportNormalizer.java:53 | no issues in, no issues out |
| Normalizer.NotPresent | src/main/java/com/example/demo/service/ReportNormalizer.java:100-101 | the result holds exactly the features not PRESENT, each at most as often as the input does |
| Normalizer.NotPresentAppend | src/main/java/com/example/demo/service/ReportNormalizer.java:100-101 | the filter distributes over concatenation |
| Normalizer.NotPresentKeeps | src/main/java/com/example/demo/service/ReportNormalizer.java:100-101 | each feature stays in its place, once, exactly when it is not PRESENT, so order and repeats are kept |
| Normalizer.CoverageOrderIsStrictWeak | src/main/java/com/example/demo/service/ReportNormalizer.java:102 | ordering by coverage score is a strict weak order |
| Normalizer.FilterMissingFeaturesSpec | src/main/java/com/example/demo/service/ReportNormalizer.java:97-109 | null gives `[]`; otherwise a permutation of the non-PRESENT features, sorted by score, stable on ties |
| Normalizer.CountInCategory | src/main/java/com/example/demo/service/ReportNormalizer.java:123-125 | the count never exceeds the number of issues |
| Normalizer.CountZeroIffNone | src/main/java/com/example/demo/service/ReportNormalizer.java:123-126 | the count is 0 exactly when no issue has the category, ignoring case |
| Normalizer.CountInCategoryAppend | src/main/java/com/example/demo/service/ReportNormalizer.java:123-125 | counts add over concatenation |
| Normalizer.CategoryStatusReadsBack | src/main/java/com/example/demo/service/ReportNormalizer.java:126-127 | the status is `COMPLETE` exactly for 0; otherwise it spells the count followed by ` issue(s) found` |
| Normalizer.CountPresent | src/main/java/com/example/demo/service/ReportNormalizer.java:145-146 | the PRESENT count never exceeds the feature count |
| Normalizer.TruncatedDiv | src/main/java/com/example/demo/service/ReportNormalizer.java:147-148 | the `(int)` cast of the average truncates toward zero |
| Normalizer.CategoriesComplete | src/main/java/com/example/demo/service/ReportNormalizer.java:122-141 | each category is COMPLETE exactly when no issue falls into it |
| Normalizer.ComputeExtractionCompleteness | src/main/java/com/example/demo/service/ReportNormalizer.java:118-154 | the metric keys are the three categories, plus Feature Coverage exactly when features are given and non-empty; each category status reads back its count; the Feature Coverage value is the "present / total (avg)" text |
| LatexReport.EscapeDistributes | src/main/java/com/example/demo/service/LatexReportService.java:1005-1023 | escaping works character by character |
| LatexReport.UnescapeEscape | src/main/java/com/example/demo/service/LatexReportService.java:1005-1023 | escaping is invertible: unescaping an escaped text gives the text back |
| LatexReport.EscapeKeepsNewlinesOut | src/main/java/com/example/demo/service/LatexReportService.java:1005-1023 | escaping introduces no newline |
| LatexReport.EscapeLatex | src/main/java/com/example/demo/service/LatexReportService.java:997-1003 | null gives ""; the result has no newline, and unescaping gives the text with CRLF made LF and each run of newlines made one space |
| LatexReport.DigitRunEnd | src/main/java/com/example/demo/service/LatexReportService.java:959 | the digit run is maximal |
| LatexReport.MatchAt | src/main/java/com/example/demo/service/LatexReportService.java:959-961 | a match is a maximal non-empty digit run after `UC` in either case and an optional `-` or space |
| LatexReport.UcMatches | src/main/java/com/example/demo/service/LatexReportService.java:959-963 | every match is a use-case ID |
| LatexReport.ExtractAllUCs | src/main/java/com/example/demo/service/LatexReportService.java:953-965 | the result lists each matched use-case ID once |
| LatexReport.ExtractAllUCsOrder | src/main/java/com/example/demo/service/LatexReportService.java:953-965 | IDs come in order of first occurrence |
| LatexReport.NoMatchWithoutU | src/main/java/com/example/demo/service/LatexReportService.java:953-965 | text with no `U` or `u` yields no use-case ID |
| LatexReport.ExtractWrittenId | src/main/java/com/example/demo/service/LatexReportService.java:953-965 | a description that is exactly `UC-<digits>` yields that ID alone |
| LatexReport.TruncateForPrompt | src/main/java/com/example/demo/service/LatexReportService.java:987-991 | short text is kept; long text is its first `maxChars` characters followed by the marker |
| LatexReport.TruncateIdempotent | src/main/java/com/example/demo/service/LatexReportService.java:987-991 | truncating twice is truncating once |
| LatexReport.LinkPairs | src/main/java/com/example/demo/service/LatexReportService.java:440-442 | only rows with both IDs non-blank form links |
| LatexReport.LinkedUCs | src/main/java/com/example/demo/service/LatexReportService.java:437-447 | a requirement has no linked UC exactly when no row links it |
| LatexReport.LinkPairsValues | src/main/java/com/example/demo/service/LatexReportService.java:437-447 | the values grouped under an ID are its linked UCs, in row order |
| LatexReport.ReqToUCsSpec | src/main/java/com/example/demo/service/LatexReportService.java:437-447 | the map has unique, non-blank keys, and an ID maps to exactly its linked UCs in row order |
| LatexReport.RequirementsWithoutUC | src/main/java/com/example/demo/service/LatexReportService.java:460-482 | every listed ID belongs to a requirement whose lookup is empty, and every such requirement's ID is listed |
| LatexReport.RequirementsWithoutUCAppend | src/main/java/com/example/demo/service/LatexReportService.java:460-482 | the list is built requirement by requirement and distributes over concatenation |
| LatexReport.RequirementsWithoutUCKeeps | src/main/java/com/example/demo/service/LatexReportService.java:460-482 | each requirement with no linked use case contributes its ID in its place, once, so list order and repeated IDs are kept |
| LatexReport.WithoutUCIffUnlinked | src/main/java/com/example/demo/service/LatexReportService.java:437-482 | a requirement is listed without UC exactly when no traceability row links it |
| LatexReport.RequirementPairs | src/main/java/com/example/demo/service/LatexReportService.java:715-717 | only rows with a non-blank requirement are grouped, under that requirement |
| LatexReport.Orphans | src/main/java/com/example/demo/service/LatexReportService.java:715-721 | orphans are exactly the rows with no requirement, and with the grouped rows they account for every row |
| LatexReport.OrphansAppend | src/main/java/com/example/demo/service/LatexReportService.java:715-721 | collecting orphan rows distributes over concatenation |
| LatexReport.OrphansKeeps | src/main/java/com/example/demo/service/LatexReportService.java:715-721 | each row stays in its place, once, exactly when its requirement is missing or blank, so row order and repeats are kept |
| LatexReport.RowsFor | src/main/java/com/example/demo/service/LatexReportService.java:715-717 | the rows of an ID are exactly those naming it |
| LatexReport.RequirementPairsKeys | src/main/java/com/example/demo/service/LatexReportService.java:715-717 | the grouping keys are the non-blank requirement IDs in row order |
| LatexReport.RequirementPairsValues | src/main/java/com/example/demo/service/LatexReportService.java:715-717 | the rows grouped under an ID are its rows, in order |
| LatexReport.ByRequirementSpec | src/main/java/com/example/demo/service/LatexReportService.java:711-721 | groups have unique keys in first-appearance order, hold exactly their rows, and with the orphans account for every row |
| LatexReport.UCsInMatrix | src/main/java/com/example/demo/service/LatexReportService.java:723-729 | the set holds exactly the non-blank use-case IDs of the rows |
| LatexReport.MissingUCs | src/main/java/com/example/demo/service/LatexReportService.java:730-732 | the result holds exactly the extracted UCs whose ID is null or named by no row |
| LatexReport.MissingUCsAppend | src/main/java/com/example/demo/service/LatexReportService.java:730-732 | the filter distributes over concatenation of the extracted list |
| LatexReport.MissingUCsKeeps | src/main/java/com/example/demo/service/LatexReportService.java:730-732 | each extracted UC stays in its place, once, exactly when it is missing, so order and repeats are kept |
| LatexReport.MissingUCsSpec | src/main/java/com/example/demo/service/LatexReportService.java:723-732 | an extracted UC is missing exactly when no row carries its ID |
| LatexReport.CountIfMono | src/main/java/com/example/demo/service/LatexReportService.java:803-809 | a stricter filter counts no more |
| LatexReport.CountIfDisjoint | src/main/java/com/example/demo/service/LatexReportService.java:803-809 | two disjoint filters within a third count no more than it |
| LatexReport.Stats | src/main/java/com/example/demo/service/LatexReportService.java:793-809 | linked requirements never exceed requirements; fully covered plus missing-test rows never exceed UC rows; distinct UCs never exceed UC rows; requirements count the distinct IDs |
| LatexReport.UCsInMatrixBound | src/main/java/com/example/demo/service/LatexReportService.java:723-729 | there are no more distinct UC IDs than rows carrying one |
| LatexCompiler.ErrorLines | src/main/java/com/example/demo/service/LatexCompilerService.java:127-131 | the selected lines are exactly the log's lines starting with `!` or mentioning `Error` or `error`; none is selected exactly when there is no such line |
| LatexCompiler.ErrorLinesAppend | src/main/java/com/example/demo/service/LatexCompilerService.java:127-131 | picking error lines distributes over concatenation |
| LatexCompiler.ErrorLinesKeeps | src/main/java/com/example/demo/service/LatexCompilerService.java:127-131 | each line stays in its place, once, exactly when it is an error line, so log order and repeats are kept |
| LatexCompiler.TerminatedIsJoin | src/main/java/com/example/demo/service/LatexCompilerService.java:130-140 | appending each part and a separator is joining and appending one separator |
| LatexCompiler.ErrorLineTrimmedStartsVisible | src/main/java/com/example/demo/service/LatexCompilerService.java:129-130 | a trimmed error line starts with a visible character |
| LatexCompiler.ExtractLatexError | src/main/java/com/example/demo/service/LatexCompilerService.java:125-140 | with error lines, the result is those lines trimmed, joined by `; ` and ending in `;`; otherwise the last ten lines trimmed and joined by newlines, trimmed |
| LatexCompiler.ExtractLatexErrorOnlyErrors | src/main/java/com/example/demo/service/LatexCompilerService.java:125-140 | when an error line exists, every reported piece is a trimmed error line of the log |
| LatexCompiler.PdfName | src/main/java/com/example/demo/service/LatexCompilerService.java:81 | renaming keeps the length |
| LatexCompiler.PdfNameOfTexFile | src/main/java/com/example/demo/service/LatexCompilerService.java:81 | `base.tex` becomes `base.pdf` when `base` has no `.tex` of its own |
| FuzzyDiscards.Safe | src/main/java/com/example/demo/service/FuzzyDiscardAccumulator.java:103-106 | null gives ""; the result has no CR, LF or `;`, and no trimmable character at either end |
| FuzzyDiscards.SafeIdempotent | src/main/java/com/example/demo/service/FuzzyDiscardAccumulator.java:103-106 | cleaning clean text changes nothing |
| FuzzyDiscards.Printable | src/main/java/com/example/demo/service/FuzzyDiscardAccumulator.java:113-121 | characters outside 32..126 become spaces, others are kept |
| FuzzyDiscards.HeaderSafe | src/main/java/com/example/demo/service/FuzzyDiscardAccumulator.java:111-112 | null or blank gives "" |
| FuzzyDiscards.HeaderSafeShape | src/main/java/com/example/demo/service/FuzzyDiscardAccumulator.java:111-123 | header-safe text is printable ASCII, has no edge space and no double space |
| FuzzyDiscards.Entry | src/main/java/com/example/demo/service/FuzzyDiscardAccumulator.java:45-51 | the similarity is kept and a null full quote stays null |
| FuzzyDiscards.AddDiscarded | src/main/java/com/example/demo/service/FuzzyDiscardAccumulator.java:44-52 | one entry is appended after the unchanged earlier ones |
| FuzzyDiscards.ReplayCount | src/main/java/com/example/demo/service/FuzzyDiscardAccumulator.java:29-56 | the count is the number of additions since `start` |
| FuzzyDiscards.ReplayEntries | src/main/java/com/example/demo/service/FuzzyDiscardAccumulator.java:29-52 | the entries are the cleaned calls in call order |
| FuzzyDiscards.JoinedAfterAdd | src/main/java/com/example/demo/service/FuzzyDiscardAccumulator.java:63-70 | a new entry's text comes after all earlier ones, separated by ` \|\| ` |
| FuzzyDiscards.AsHeaderValue | src/main/java/com/example/demo/service/FuzzyDiscardAccumulator.java:62-74 | a value that fits is returned whole; otherwise a prefix of `max(0, maxChars-3)` characters and `...`, at most `maxChars` when it is at least 3 |
| FuzzyDiscards.AsEnvelope | src/main/java/com/example/demo/service/FuzzyDiscardAccumulator.java:80-92 | returns the first `min(max(0, maxIssues), total)` entries, with truncated exactly when some were held back |
| FeatureCoverageJson.Text | src/main/java/com/example/demo/model/FeatureCoverageDeserializer.java:40-43 | a missing or null field reads as ""; a text field as its text |
| FeatureCoverageJson.IntValue | src/main/java/com/example/demo/model/FeatureCoverageDeserializer.java:45-48 | a number field reads as its value; anything else as 0 |
| FeatureCoverageJson.ParseStatus | src/main/java/com/example/demo/model/FeatureCoverageDeserializer.java:50-59 | null or blank is ABSENT; a text naming a status after trimming and upper-casing gives it; anything else is ABSENT |
| FeatureCoverageJson.ParseStatusName | src/main/java/com/example/demo/model/FeatureCoverageDeserializer.java:50-59 | every status reads back from its own name |
| FeatureCoverageJson.ParseStatusTolerant | src/main/java/com/example/demo/model/FeatureCoverageDeserializer.java:55-57 | case and surrounding blanks do not stop a status from being read |
| FeatureCoverageJson.Deserialize | src/main/java/com/example/demo/model/FeatureCoverageDeserializer.java:16-38 | featureName, category and evidence are read as text (missing or null gives ""); coverageScore, matchedItems and totalItems as numbers (anything else gives 0); status through the tolerant status parse; it never fails |
| FeatureCoverageJson.DeserializeEmpty | src/main/java/com/example/demo/model/FeatureCoverageDeserializer.java:16-48 | an empty object reads as empty texts, zeros and ABSENT |
| FeatureCoverageJson.DeserializeEncode | src/main/java/com/example/demo/model/FeatureCoverageDeserializer.java:16-59 | reading back an encoded record gives the record |
| UploadController.ValidateForReport | src/main/java/com/example/demo/controller/PdfAnalysisController.java:52-61 | empty files, non-PDF names and files over 50 MiB are rejected in that order; everything else is accepted |
| UploadController.ValidateForJson | src/main/java/com/example/demo/controller/PdfAnalysisController.java:125-131 | only empty files and non-PDF names are rejected |
| UploadController.JsonDiffersOnlyOnSize | src/main/java/com/example/demo/controller/PdfAnalysisController.java:52-61 | the two endpoints disagree only on files the report endpoint finds too large |
| UploadController.SizeLimitBoundary | src/main/java/com/example/demo/controller/PdfAnalysisController.java:59-61 | exactly 50 MiB passes; one byte more is too large |
| UploadController.UpperCaseExtensionAccepted | src/main/java/com/example/demo/controller/PdfAnalysisController.java:55-57 | the extension check ignores case |
| UploadController.SelectResponse | src/main/java/com/example/demo/controller/PdfAnalysisController.java:79-109 | the PDF when produced, else the LaTeX source with a warning, else a server error; a crash is a server error with a message |
| AuditReports.CountSeverityPositive | src/main/java/com/example/demo/model/AuditReport.java:31-32 | a severity's count is positive exactly when some issue has it |
| AuditReports.CountSeveritySum | src/main/java/com/example/demo/model/AuditReport.java:31-32 | the three severity counts add up to the issue count |
| AuditReports.Distribution | src/main/java/com/example/demo/model/AuditReport.java:31-32 | a severity is a key exactly when it occurs, and maps to its count |
| AuditReports.DistributionSums | src/main/java/com/example/demo/model/AuditReport.java:31-32 | the distribution's values add up to the issue count |
| AuditReports.From | src/main/java/com/example/demo/model/AuditReport.java:25-45 | the report keeps the issues and their count, holds their distribution, and reads each missing list as empty |
| AuditReports.FromDistributionTotal | src/main/java/com/example/demo/model/AuditReport.java:25-45 | the report's distribution accounts for every issue it holds |

## Left out

- The language-model calls are left out: the agents' prompts, `ResilientLlmCaller`, the orchestrator and retry logic. Their replies are inputs.
- Logging, token accounting and the thread-local that holds the current accumulator are left out. They do not change any result.
- File and process I/O is left out: reading workbooks, running pdflatex, writing and streaming files. The workbook is a value, the compiler log is a string, and the run's outcome is an `AnalysisRun`.
- Agreement.Agreement: Cohen's kappa stays an uninterpreted function parameter. It is floating-point library code.
- Agreement.LoadScoresSpec: assumes distinct sheet names, as spreadsheet files guarantee. Two same-named sheets would merge in the source.
- FuzzyDiscards.AsHeaderValue: the `%.3f` rendering of the similarity is a parameter, because floating-point formatting is not modelled.
- FuzzyDiscards.AsEnvelope: the JSON serialisation and URL-safe Base64 encoding of the envelope are left out. The model returns the envelope itself.
- Evidence.AnchorOne: `bestSlidingWindowSimilarity`'s window search (service/EvidenceAnchoringService.java:101-145) is a function parameter. Only its empty-query and verbatim-hit cases are modelled.
- Evidence.LcsRatio: the model computes exact reals; the source computes IEEE doubles. The same holds for every confidence factor.
- Normalizer.Prepared: uses the corrected short-description cut of "## Findings". The source as written searches for the period up to index 120, not 119. The two differ only when the period sits at index 120; there the source keeps 121 characters, and the model ellipsizes to 120.
- Normalizer.NormalizeIssuesSpec: states the ranking over `Prepared`, and so inherits the corrected cut. Its statements about ranking, the limit of seven and stability do not depend on the cut.
- Normalizer.TruncatedDiv: the feature average is the exact truncated quotient of the integer sum. The source averages as a double and then casts.
- Requirements.NormalizeRequirementIds: an ID number above `Integer.MAX_VALUE` is an error, as `Integer.parseInt` throws. Wrap-around of the `int` counter past that value is not modelled.
- Case mapping is ASCII only. Java's full Unicode mapping differs on a few letters; for example `'ſ'.toUpperCase()` is `S`. Java strings are UTF-16 code units; the model uses Unicode scalars.
- Consistency.Verify: a null severity is not modelled; every issue has one. In the source an issue whose severity Jackson leaves null makes the sort in `renumber` throw once there are two or more issues (agent/ConsistencyManager.java:174). The catch then returns the renumbered candidates (agent/ConsistencyManager.java:157-160). The same null would throw in the ranking (service/ReportNormalizer.java:69) and in the severity count (model/AuditReport.java:31-32).
- Agreement.PyInt: integer text is ASCII digits with an optional sign and blanks around it. Python's `int()` also accepts `_` separators, non-ASCII decimal digits and Unicode whitespace; the model raises ValueError on these. Float and boolean cells are not modelled either: a cell is empty, an integer or text.
- Severity.java is not part of this model. Its constants are assumed to be declared HIGH, MEDIUM, LOW, with ordinals 0, 1 and 2.
- The critical-keyword check in `normalizeIssues` (service/ReportNormalizer.java:198-219) only logs. It is left out.
- `MultipartFile.isEmpty()` is modelled as size 0.
- The report timestamp comes from the clock. It is a parameter of `AuditReports.From`.
- Jackson's handling of duplicate keys and malformed JSON is left out. The deserializer starts from the parsed object.
- LatexReport.TruncateForPrompt: `maxChars` is a natural number. A negative limit would make the source's `substring` throw.
- LatexReport.EscapeLatex: its contract describes the newline clean-up through unescaping. It does not give the escaped text directly.
- The LaTeX document text, tables and hyperlinks that `LatexReportService` writes around the computed values are left out. Only the values are modelled.

## Findings

| source | as written | input that shows it | evidently intended | confidence | as-written member | corrected member |
|---|---|---|---|---|---|---|
| src/main/java/com/example/demo/service/ReportNormalizer.java:176-178 | `lastIndexOf('.', 120)` may find a period at index 120, and `substring(0, 121)` keeps it | a missing short description and a description of 120 `a` followed by `.b` (122 characters) gives a 121-character short description | a derived short description of at most 120 characters, like the truncation branch | not executed | Normalizer.DerivedShortAsWritten, Normalizer.AsWrittenExceedsLimit | Normalizer.DerivedShortCorrected, Normalizer.EnsureShortDescription |
