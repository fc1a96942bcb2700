# audit-access: conformity rates, status updates and the learning engine

audit-access is an accessibility-audit tool. An auditor gives each criterion of the RAAM
catalogue a status on each page of a project: C (conformant), NC (non-conformant), NA (not
applicable) or NT (not tested). The application derives three rates from those statuses:
- the rate of a page;
- the average rate over the pages;
- the global rate over the consolidated per-criterion statuses.

A learning engine records every reported non-conformity. It extracts tags ("patterns") from the
description and counts them per criterion. It keeps one suggestion per (criterion, description),
with its impact and solution. It collects feedback on those suggestions and later offers the best
five suggestions for a criterion, ordered by relevance.

This project models that core in Dafny and proves properties of the model:

- `rates.dfy` (`Rates`): the rate engine and status query of `models/database.js`, over the
  audit_results table as a sequence of rows.
- `html.dfy` (`HtmlEncoding`): `encodeHtml`. The chain of five replacements is proved equal to a
  character-by-character entity encoding, and that encoding is proved to have an inverse.
- `patterns.dfy` (`PatternExtraction`): `extractPatterns`. It covers the dictionary lookups on the
  lower-cased text and the four regular expressions, read as left-to-right scanners. The loops are
  methods proved equal to the function `Extracted`.
- `learning_tables.dfy` (`LearningTables`): the learning tables as values. It covers pattern
  counting, the create-or-update of suggestions with the "proven" guard, feedback counters, metric
  computation and the metric read.
- `ranking.dfy` (`Ranking`): the suggestion query of `getSuggestions` (eligibility, ORDER BY,
  LIMIT 5) and the relevance score with the re-sort on it.
- `learning_store.dfy` (`LearningStore`): the learning database as a class whose methods update
  its tables in place. Transactions commit or roll back to a snapshot.
- `audit_status.dfy` (`AuditStatus`): the status-update handler of `app.js` as a class over one
  project's audit_results. It also models the page ids recorded for a new non-conformity and the
  `allPages` and quick-win `type` flags.
- `seqs.dfy`, `sorting.dfy` and `wrappers.dfy`: sequence helpers, a stable insertion sort, and
  the Option and Result types.

JavaScript numbers that can become NaN or Infinity are the datatype `JsNumber`. `Math.round` is
computed exactly on integers, rounding halves up. SQLite INTEGER division truncates. `confidence`
is a real number. A database error is a `fault` argument that names the failing statement; a
rolled-back transaction restores the snapshot taken at BEGIN.

Behaviour of the code that the model keeps as written:
- `calculatePageRate` has no guard for a page with no applicable criterion
  (models/database.js:389-390): its rate is NaN or Infinity there (`Rates.PageRate`). Only the
  global rate returns 0 in that case.
- The SQL "proven" guard divides two INTEGER columns, so it holds only when every one of more than
  ten uses succeeded; 13 successes in 15 uses is not proven
  (`LearningTables.ProvenMeansAllSucceeded`, `LearningTables.HighRatioNotProven`).
- `recordFeedback` does not recompute the criterion's metric (services/learningService.js:228-259),
  so the stored metric goes stale (`LearningStore.FeedbackLeavesMetricStale`).
- `getSuggestions` catches every error and returns an empty list
  (services/learningService.js:199-202).

## Model

| member | source | states |
|---|---|---|
| Rates.RoundHalfUp | models/database.js:390 | `Math.round(n/d)`: the result is within one half of n/d, and a half rounds up |
| Rates.RateFormula | models/database.js:389-390 | 100/0 makes NaN (no conformant row) or Infinity; otherwise the nearest percent, and within [0, 100] when there are no more conformant rows than applicable criteria |
| Rates.PageRate | models/database.js:367-408 | the page's NA and C rows are counted; with total > na the rate is the nearest percent of conform/(total − na); with total == na it is NaN or Infinity, never a guarded 0 |
| Rates.PageRateInRange | models/database.js:380-390 | with unique (page, criterion) rows drawn from the catalogue, a page rate is NaN exactly when every criterion is NA on the page, and otherwise an integer in [0, 100] |
| Rates.PageRateNoConform | models/database.js:383-390 | a page with no C row and some applicable criterion rates 0 |
| Rates.PageRateAllApplicableConform | models/database.js:383-390 | a page whose every applicable criterion is C rates 100 |
| Rates.JsSum | models/database.js:436 | the `reduce` sum is never NaN, and is Infinity exactly when some page rate is Infinity |
| Rates.JsSumValue | models/database.js:436 | over finite rates the `reduce` sum is the ordinary sum of their values |
| Rates.JsSumBounds | models/database.js:436 | n finite rates in [0, 100] sum to a finite value in [0, 100·n] |
| Rates.AverageRate | models/database.js:414-450 | 0 with no pages or no non-NaN page rate; never NaN; Infinity exactly when some page rate is Infinity |
| Rates.AverageRateInRange | models/database.js:423-436 | on a well-formed table the average rate is an integer in [0, 100] |
| Rates.AverageRateValue | models/database.js:423-436 | with some non-NaN rate and no Infinity, the average is the sum of the non-NaN rates divided by their count, rounded half up: count·(2r−1) ≤ 2·sum < count·(2r+1) |
| Rates.AverageRateExample | models/database.js:414-450 | two pages, the first with both criteria compliant and the second with one of two: page rates 100 and 50, average 75 |
| Rates.Consolidate | models/database.js:483-493 | a criterion consolidates to NA (or C) only when it has one row per page and all of them are NA (or C); otherwise NC, never NT |
| Rates.ConsolidateMeaning | models/database.js:469-495 | when rows are unique and name listed pages, a criterion consolidates to C (or NA) exactly when every page has a C (or NA) row for it |
| Rates.GlobalFromCounts | models/database.js:497-508 | 0 when every criterion is NA; otherwise the nearest percent of C over the applicable criteria; always in [0, 100] |
| Rates.GlobalRate | models/database.js:452-524 | 0 with no pages; otherwise the nearest percent of consolidated C over the consolidated non-NA criteria; always in [0, 100] |
| Rates.GlobalRateAllNA | models/database.js:497-506 | when every criterion consolidates to NA the global rate is 0 |
| Rates.PageStatusQuery | models/database.js:131-134 | the per-page query lists exactly the page's rows, as (criterion, status) pairs |
| Rates.CriterionLabel | models/database.js:140-143 | MULTIPLE exactly when the criterion's rows disagree; otherwise their common status |
| Rates.GroupedStatusQuery | models/database.js:137-146 | the grouped query has an entry for every criterion with rows, each labelled from that criterion's rows |
| Rates.MapOf | models/database.js:155-158 | the dictionary built by the `forEach` has one key per criterion in the results, mapped to a value listed for it |
| Rates.AssignAll | models/database.js:155-158 | the loop builds exactly that dictionary |
| Rates.GetCriteriaStatuses | models/database.js:126-163 | with a page id, each criterion that has a row on the page maps to that row's status; without one, each criterion with rows maps to MULTIPLE exactly when they disagree, and otherwise to their common status |
| HtmlEncoding.ReplaceAll | models/database.js:359-363 | one global replacement leaves no occurrence of the character except inside the entity, and changes nothing when the character is absent |
| HtmlEncoding.ReplaceChainIsEscapeAll | models/database.js:358-363 | the chain of five replacements, `&` first, equals encoding each character independently |
| HtmlEncoding.EncodeHtml | models/database.js:356-364 | a missing, non-string or empty value gives ""; any other string gives its entity encoding, which contains no raw `<`, `>`, `"` or `'` |
| HtmlEncoding.EncodeDecode | models/database.js:356-364 | decoding the five entities gives back the original string, so the encoding loses nothing |
| PatternExtraction.ToLowerIdempotent | services/learningService.js:60 | lower-casing twice is lower-casing once |
| PatternExtraction.Extracted | services/learningService.js:58-96 | the result has no duplicates and holds exactly the emitted tags |
| PatternExtraction.EmittedBy | services/learningService.js:63-93 | a tag is emitted exactly when it comes from a technical term found in the text, an impact phrase found in the text, or a match of one of the four expressions |
| PatternExtraction.TechnicalTagIff | services/learningService.js:63-69 | `category:term` is extracted exactly when the category lists the term and the lower-cased text contains it |
| PatternExtraction.ImpactTagIff | services/learningService.js:72-78 | `impact:category` is extracted exactly when the lower-cased text contains one of the category's phrases |
| PatternExtraction.TechniqueTagIff | services/learningService.js:81-93 | `technique:m` is extracted exactly when m is a match of one of the four expressions |
| PatternExtraction.MatchesSound | services/learningService.js:88-91 | every match occurs in the text and has its expression's shape |
| PatternExtraction.MatchesComplete | services/learningService.js:88-91 | a match at position j is returned when no earlier match runs past j; in particular a match at the start position is returned |
| PatternExtraction.TechniqueTagFound | services/learningService.js:81-93 | a match of one of the four expressions that no earlier match of it overlaps yields its `technique:` tag |
| PatternExtraction.WordRun | services/learningService.js:82-85 | `\w+` consumes the longest run of word characters |
| PatternExtraction.ExampleImageAlt | services/learningService.js:63-69 | "L'image n'a pas d'attribut alt" yields `images:alt` |
| PatternExtraction.ExampleNavigationBlocked | services/learningService.js:72-78 | "Navigation impossible, blocage total" yields `impact:navigation` |
| PatternExtraction.ExtractPatterns | services/learningService.js:58-96 | the three loops return exactly the distinct emitted tags, in order of first emission |
| LearningTables.BumpPatternsCounts | services/learningService.js:99-115 | after the upserts, each key of the criterion is counted once more per occurrence of its pattern; no other key changes |
| LearningTables.FindSuggestion | services/learningService.js:120-124 | the lookup by (criterion, description) finds a row with that key, or there is none |
| LearningTables.ProvenMeansAllSucceeded | services/learningService.js:132-143 | with INTEGER division the guard holds exactly when more than ten uses all succeeded |
| LearningTables.HighRatioNotProven | services/learningService.js:132-143 | 13 successes in 15 uses is a ratio above 0.8 but does not pass the guard |
| LearningTables.MergeReport | services/learningService.js:130-149 | a proven suggestion keeps its impact and solution; any other takes the new ones; ids, key and counters are unchanged |
| LearningTables.Upsert | services/learningService.js:118-163 | a new key gets a row with zero counters and the next id; an existing key is merged in place and keeps its id |
| LearningTables.UpsertKeepsTable | services/learningService.js:118-163 | the upsert keeps ids below the counter, unique ids and unique keys; it grows the table only for a new key; the returned id names the row of the key |
| LearningTables.BumpStats | services/learningService.js:262-276 | the suggestion with the id gains one use, and one success when helpful; every other field and row is unchanged |
| LearningTables.BumpStatsKeepsTable | services/learningService.js:262-276 | counting a use keeps the table well formed, including success ≤ used |
| LearningTables.ComputeMetric | services/learningService.js:282-295 | no row exactly when the criterion has no suggestion; otherwise a positive distinct-id count, the summed uses, and a success rate that times the number of suggestions equals the sum of their success/used ratios, a never-used suggestion counting 0 |
| LearningTables.MetricMeaning | services/learningService.js:284-295 | on a valid table the suggestion count is the number of the criterion's suggestions and the success rate lies in [0, 1] |
| LearningTables.MetricAllSucceeded | services/learningService.js:284-295 | when every suggestion of the criterion was used and always succeeded, the success rate is 1 |
| LearningTables.UnusedSuggestionDilutesRate | services/learningService.js:284-295 | adding a never-used suggestion keeps the row, adds nothing to the ratio sum but one to the count, and lowers a positive success rate |
| LearningTables.StatsOutdateMetric | services/learningService.js:228-301 | counting a use of one of the criterion's suggestions changes the metric its rows give |
| LearningTables.RefreshMetric | services/learningService.js:279-301 | INSERT OR REPLACE of the criterion's row when it has suggestions; other rows are kept; nothing is written for a criterion without suggestions |
| LearningTables.SelectMetrics | services/learningService.js:304-317 | the criterion's row only, or every row when no criterion (or the empty id) is given |
| Ranking.Confidence | services/learningService.js:172 | NULL exactly when the suggestion was never used; otherwise successes/uses, in [0, 1] when success ≤ used |
| Ranking.Candidates | services/learningService.js:168-180 | exactly the eligible suggestions of the criterion, each with its computed row |
| Ranking.RanksAboveOrders | services/learningService.js:181-185 | the ORDER BY is a total preorder |
| Ranking.Selection | services/learningService.js:181-186 | at most five rows, sorted, drawn from the candidates, and ranking above every candidate left out |
| Ranking.Relevance | services/learningService.js:206-225 | the relevance score never exceeds 1, and is not negative when the score before decay is not |
| Ranking.MoreMatchesRankHigher | services/learningService.js:213-218 | more of the context's patterns matched never lowers the relevance |
| Ranking.RelevanceInRange | services/learningService.js:206-225 | with a non-negative confidence the relevance lies in [0, 1] |
| Ranking.Rank | services/learningService.js:193-197 | the same rows re-sorted by non-increasing relevance, each with its own relevance |
| Ranking.RelevanceAsWritten | services/learningService.js:193-218 | the score throws exactly when the context has patterns and the criterion has learned patterns |
| Ranking.AsWrittenDropsEverything | services/learningService.js:193-218 | in that case the whole result is the empty list, although ranking would have returned every row |
| Ranking.AsWrittenAgreesWithoutPatterns | services/learningService.js:193-197 | without context patterns the code as written agrees with the ranking |
| LearningStore.LearnedKeepsValid | services/learningService.js:27-55 | a committed learning step keeps the tables well formed |
| LearningStore.LearnedStoresPatterns | services/learningService.js:33-35 | after learning, every extracted pattern has a row for the criterion |
| LearningStore.LearnedRefreshesMetric | services/learningService.js:37-46 | after learning, the returned id names the suggestion of the key, and the criterion's metric row exists and matches its suggestions |
| LearningStore.FeedbackLeavesMetricStale | services/learningService.js:228-259 | committed feedback leaves learning_metrics unchanged, so a metric that matched its suggestions no longer does |
| LearningStore.Store.constructor | models/learningDatabase.js:19-89 | a fresh database is empty and valid, with ids starting at 1 |
| LearningStore.Store.UpdatePatterns | services/learningService.js:99-115 | the loop applies the upserts in order; a failing upsert stops it with the earlier ones applied; the other tables are unchanged |
| LearningStore.Store.CreateOrUpdateSuggestion | services/learningService.js:118-163 | the table becomes the upsert's result and the method returns its id; validity is kept |
| LearningStore.Store.UpdateSuggestionStats | services/learningService.js:262-276 | one use (and success) is counted on the suggestion; the other tables are unchanged |
| LearningStore.Store.UpdateMetrics | services/learningService.js:279-301 | the metric row of the criterion is refreshed from the current suggestions |
| LearningStore.Store.Rollback | models/learningDatabase.js:119-126 | the tables and the id counter return to the snapshot |
| LearningStore.Store.LearnFromNC | services/learningService.js:27-55 | a failing statement leaves every table as it was and passes the error on; otherwise the tables are the committed learning step and the upserted suggestion's id is returned |
| LearningStore.Store.RecordFeedback | services/learningService.js:228-259 | it commits exactly when no statement fails; on commit, feedback is appended and the use is counted, with metrics untouched; on failure nothing changes |
| LearningStore.Store.GetSuggestions | services/learningService.js:166-202 | [] when the query fails; otherwise at most five rows, by non-increasing relevance, each an eligible suggestion of the criterion with its relevance in [0, 1]; a left-out eligible suggestion ranks no higher than any returned row; fewer than five rows means none was left out |
| LearningStore.SuggestedMeaning | services/learningService.js:169-197 | the same properties for the query and ranking over given tables |
| AuditStatus.AllPagesSetsCriterion | app.js:650-674 | after an all-pages update the criterion's rows are exactly one row per page, in page order, with the new status |
| AuditStatus.AllPagesKeepsOthers | app.js:650-659 | the rows of every other criterion are unchanged, in order |
| AuditStatus.AllPagesConsolidates | app.js:650-674 | setting C (or NA) on every page makes the criterion consolidate to C (or NA) |
| AuditStatus.AllPagesKeepsUnique | app.js:650-674 | the all-pages update keeps UNIQUE(page_id, criterion_id) |
| AuditStatus.SetForPageMeaning | app.js:688-698 | the single-page update stores the new status for the pair and changes no other pair |
| AuditStatus.SetForPageIdempotent | app.js:688-698 | repeating a single-page update changes nothing more |
| AuditStatus.SetForPageKeepsUnique | app.js:688-698 | INSERT OR REPLACE keeps UNIQUE(page_id, criterion_id) |
| AuditStatus.ReplyOf | app.js:702-704 | currentRate is 0 without a page id and the page's rate with one; the average is never NaN; the global rate is in [0, 100] |
| AuditStatus.ResultStore.constructor | models/database.js:66-76 | a project starts with an empty results table over its pages |
| AuditStatus.ResultStore.UpdateStatus | app.js:624-720 | a failing statement leaves the table as it was and reports the error; otherwise the table is the all-pages or single-page update, the table stays unique, and the rates are returned |
| AuditStatus.ResultStore.ReplaceForAllPages | app.js:641-685 | the transaction reports a failure exactly when BEGIN, the DELETE or one of the page INSERTs raises; the table is then as it was, and otherwise it is the criterion's rows replaced by one row per page, still unique |
| AuditStatus.NcPageIds | app.js:746-757 | every page id, in order, when allPages is the string "true"; otherwise the single pageId field as sent |
| AuditStatus.CreatedNcFlag | app.js:746-757 | a non-conformity created this way is flagged allPages exactly when it was created for all pages of a project with no pages |
| AuditStatus.PageList | app.js:282-283 | the split list is empty exactly when the GROUP_CONCAT value is NULL or empty |
| AuditStatus.QuickWinType | app.js:288 | the type is "mixed" or "common" |
| AuditStatus.QuickWinMixed | app.js:282-288 | a quick win is "mixed" exactly when both its conform and non-conform page lists are non-empty |

## Left out

- Loading and parsing the criteria XML (`loadCriteria`). The catalogue is a parameter; only its list of ids and its length are used.
- Reading the pages table. The page list is a parameter of the rate functions and a field of `AuditStatus.ResultStore`.
- Timestamps (`created_at`, `updated_at`, `last_calculated`), the feedback `comment` and `user_context` columns, and the console logging.
- The age decay `Math.exp(-ageInDays / 365)` reads the clock. It is a positive factor per suggestion id, passed as a parameter; its value is not modelled.
- JavaScript floating point. Rates are exact integers after rounding; confidence, success rate and relevance are exact reals.
- Lower-casing covers ASCII and Latin-1 letters only. Other Unicode case mappings are not modelled.
- Rows that SQL returns in an unspecified order (ties of the ORDER BY, GROUP BY output) are taken in table order.
- Learned patterns are assumed to contain no comma, so splitting the GROUP_CONCAT result gives back the set of patterns.
- `context.patterns` must be an array or absent. A context that is some other truthy value is not modelled.
- A NULL or non-string description makes `toLowerCase` throw inside `learnFromNC`. Descriptions are strings here.
- Concurrency: the shared learning database and the check-then-act race of createOrUpdateSuggestion between concurrent requests.
- A failing ROLLBACK, and a failing COMMIT of the status handler. That COMMIT is not awaited, and the handler does not roll back after it.
- Database errors outside the modelled statements: opening the database, BEGIN in the learning service, and the page and status reads.
- AuditStatus.ResultStore.UpdateStatus: a single-page update without a page id returns NoPage and leaves the table unchanged. The handler would insert a row with a NULL page_id, which UNIQUE does not constrain. The audit screen always sends either a page id or `allPages: true`.
- AuditStatus.ResultStore.UpdateStatus: a status is one of C, NC, NA, NT. The handler stores whatever string it receives.
- The rest of `app.js`: rendering, uploads, project routes, the quick-win and restitution SQL queries, and the routes that call the learning service. Only the status handler, the page-id selection and the two flags are modelled.
- Rates.GetCriteriaStatuses, AuditStatus.ReplyOf and AuditStatus.ResultStore.UpdateStatus: `Some(0)` counts as a given page id, whereas the code's `if (pageId)` treats a numeric 0 as no page. Page ids come from an AUTOINCREMENT column that starts at 1, so no page has id 0.
- The `/api/feedback` route always passes a NULL project id. `ProjectsCount` counts only non-NULL ids, so that route's feedback never raises the project count.

## Findings

| source | as written | input that shows it | evidently intended | confidence | as-written member | corrected member |
|---|---|---|---|---|---|---|
| services/learningService.js:193-218 | `calculateRelevanceScore` receives the raw SQL row, whose `patterns` is the GROUP_CONCAT string rather than the split array, so `suggestion.patterns.filter` throws a TypeError. `getSuggestions` catches it and returns []. | criterion "1.1" with one suggestion used 0 times, the learned pattern `images:alt`, and a context with `patterns: ["images:alt"]`: the result is [] instead of that suggestion | score against the split pattern list, so matching context patterns raise the relevance | not executed | Ranking.RankAsWritten, Ranking.AsWrittenExample, Ranking.AsWrittenDropsEverything | Ranking.Rank, LearningStore.Store.GetSuggestions, Ranking.MoreMatchesRankHigher |
