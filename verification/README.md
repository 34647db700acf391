# Verified model of the journal application

A Dafny model of the parts of the work-journal application that carry real logic, with proofs of what
they keep. The rest of the application stores and shows records.

- **Rate limiting.** The per-address token bucket, first as a class whose calls run one at a time
  (`TokenBucket`, `RateLimiter`), then as small steps that interleave: looking a client up, creating a
  tracker after a second check, charging it, and deleting an idle one (`ConcurrentLimiter`). The
  per-user limiter of the AI endpoint (`AiLimiter`). Time is an input that does not decrease; tokens
  are real numbers.
- **Activity calendar.** The index by date and the cursor loop that builds weeks and month headers
  (`Calendar`, `CalendarFacts`, `CalendarCells`), over day numbers and the proleptic Gregorian calendar
  (`Gregorian`, `DateStrings`, `Quarters`, `DaySums`).
- **Search.** SQL joins and three-valued conditions on tables that are sequences of rows
  (`Relational`, `Schema`), the two search queries against what they mean (`SearchQueries`), bulk
  queries with grouping loops against one query per item (`Grouping`, `Enrichment`, `EnrichedTags`,
  `EnrichedLinks`), and the highlighter with its shared regular expression (`Highlight`).
- **Foundation work.** The browser's classifier and badge (`Foundation`), its statistics
  (`FoundationMetrics`, `RoundingExample`), the team statistics of the database (`TeamStats`), how the
  three judges compare (`FoundationChain`), the team overview and its quiet heroes (`Team`), and the
  quarters of a year (`QuarterSums`).
- **KPI periods.** The server's choice and the browser's preview of it (`KpiMatching`).
- **Sessions.** Login, requests, logout, cleanup and late activity updates (`Sessions`).
- **Tags.** What saving a journal does to the tag tables (`TagReconcile`), and which names the form
  submits (`TagForm`).

`Options`, `Lists` and `FiniteSets` hold general helpers. Code that updates state in place is a class or
a method with loops, proved against a specification function; the theorems are about these functions.

Where the code and what it says about itself differ, the model follows the code:

- The AI limiter calls itself a sliding window of 6 requests per 60 seconds. The window is fixed, so 60
  seconds can hold 11 admissions, and no more (`AtMostElevenPerMinute`, `ElevenIsAttained`).
- A denied client is told to wait a whole number of seconds, cut down rather than rounded up. Waiting
  that long suffices if and only if the exact wait is at most a second or whole
  (`WhenAnnouncedWaitSuffices`).
- The service treats a KPI period as active through its last day; the query stops at that day's first
  moment. For an entry date no period covers, the browser's preview and the server's choice differ
  exactly when this matters or a period has begun or ended since the list was loaded (`PreviewIsRight`,
  `PreviewCanBeWrong`, `PreviewCanBeOutdated`).
- Bounds of quarters in the years 0 to 99 are those of 1900 to 1999 (`QuartersTileYears`).
- A search result lists only linked achievements, although the search itself also matches achievements
  that merely name the journal (`SearchShowsAllAchievements`). Unlinking an achievement leaves one
  that does (`UnlinkingHides`).
- Two branches of the classifier's fallback cannot be reached (`NamedCategoriesMatch`).
- The form trims typed tags before it drops commas and hashes, the server trims afterwards. Names
  survive saving exactly when they are listed already or have no blank end left (`FormSavesItsNames`,
  `BlankBeforeHash`).

`dafny verify dfyconfig.toml` checks the whole project.

## Model

| member | source | states |
|---|---|---|
| `TokenBucket.RefillTwice` | internal/middleware/ratelimit.go:99-107 | refilling in two stages leaves the tokens of refilling once |
| `TokenBucket.IdleBucketIsFull` | internal/middleware/ratelimit.go:99-107 | a bucket idle for capacity/refillRate seconds is full |
| `TokenBucket.DeniedPollingIsFree` | internal/middleware/ratelimit.go:94-122 | after any number of denied requests the next request gets the verdict, and leaves the bucket, it would have had after silence |
| `TokenBucket.PollingNeverDelays` | internal/middleware/ratelimit.go:94-122 | a polling client is admitted no later than a silent one |
| `TokenBucket.AdmittedExactlyAfterWait` | internal/middleware/ratelimit.go:94-122 | with no other consumer a denied client is admitted if and only if the exact wait has passed (and the bucket can hold a token at all) |
| `TokenBucket.AnnouncedWaitIsWithinOneSecond` | internal/middleware/ratelimit.go:114-119 | exact wait - 1 s < announced wait <= max(1 s, exact wait), and at least 1 s |
| `TokenBucket.WhenAnnouncedWaitSuffices` | internal/middleware/ratelimit.go:114-121 | announced wait + 1 s always suffices; the announced wait itself suffices if and only if the exact wait is at most 1 s or whole |
| `TokenBucket.AnnouncedWaitCanBeTooShort` | internal/middleware/ratelimit.go:116-126 | a client of the login limiter that waits exactly as told is denied again |
| `RateLimiter.ClientTracker.Charge` | internal/middleware/ratelimit.go:96-121 | the tracker moves, and the verdict is, as the specification of one request says |
| `RateLimiter.Limiter.GetClient` | internal/middleware/ratelimit.go:69-92 | returns the client's tracker; a new one is full and dated now, and nothing else changes |
| `RateLimiter.Limiter.AllowRequest` | internal/middleware/ratelimit.go:94-122 | a call changes the table of buckets, and answers, as the atomic specification does |
| `RateLimiter.Limiter.PruneClients` | internal/middleware/ratelimit.go:55-67 | a client is in the map afterwards if and only if it was before and its last refill is at most the limit ago; the kept ones keep tracker and bucket |
| `RateLimiter.ExactlyTheRecentClients` | internal/middleware/ratelimit.go:55-92 | after any run that ends in a sweep, the table holds exactly the clients whose last request is at most the limit ago |
| `RateLimiter.AllowByLevel` | internal/middleware/ratelimit.go:94-122 | a request is judged by its client's token level alone, takes one token from it when admitted, and leaves every other client's level |
| `RateLimiter.PruneKeepsLevels` | internal/middleware/ratelimit.go:55-67 | with a long enough idle limit a sweep changes nobody's level |
| `RateLimiter.SweepsDoNotMatter` | internal/middleware/ratelimit.go:55-122 | two tables with the same levels answer any timed run alike, with the sweeps or without |
| `RateLimiter.PruningIsInvisible` | internal/middleware/ratelimit.go:55-122 | for every timed run, decisions and announced waits are those of a limiter that never prunes, when maxAge >= capacity/refillRate |
| `RateLimiter.PruningIsInvisibleAsConfigured` | internal/middleware/ratelimit.go:44-147 | so for both limiters the server builds |
| `RateLimiter.BurstBound` | internal/middleware/ratelimit.go:55-122 | after any history, at most capacity + refillRate * T requests of a client are admitted in an interval of length T |
| `ConcurrentLimiter.OneTrackerPerClient` | internal/middleware/ratelimit.go:69-92 | however lookups, creations and charges interleave, without a sweep no client ever gets two trackers |
| `ConcurrentLimiter.StepKeepsInv` | internal/middleware/ratelimit.go:55-122 | every small step keeps the invariant tying the map, the trackers and the requests in flight |
| `ConcurrentLimiter.ConcurrentBurstBound` | internal/middleware/ratelimit.go:55-122 | over any interval of any interleaving: capacity + refillRate * T, plus one for every request that holds a deleted tracker when the interval begins or when one is deleted during it |
| `ConcurrentLimiter.ConcurrentBurstBoundWithoutSweeps` | internal/middleware/ratelimit.go:69-122 | without sweeps the excess is zero |
| `ConcurrentLimiter.RunRefines` | internal/middleware/ratelimit.go:55-122 | an interleaving that deletes no held tracker answers as the atomic limiter charged in the same order |
| `ConcurrentLimiter.ConcurrentRunsAreSequential` | internal/middleware/ratelimit.go:55-122 | the same from the empty limiter: concurrent runs are linearizable at their charges |
| `AiLimiter.Handler.AllowRequest` | internal/handler/ai.go:37-73 | a call changes the user's entry, and answers, as the specification does; other entries stay |
| `AiLimiter.ExactlyWhenAdmitted` | internal/handler/ai.go:32-73 | after any run, a call is admitted if and only if the user has no earlier admission, or the last is at least 3 s ago and its window either opened more than 60 s ago or holds fewer than 6 admissions; it is too soon if and only if the last is less than 3 s ago |
| `AiLimiter.RefusalsDoNotMatter` | internal/handler/ai.go:52-70 | dropping a refused call from a run changes no other outcome |
| `AiLimiter.UsersAreIndependent` | internal/handler/ai.go:37-73 | in an interleaved run each user sees the outcomes of that user's calls alone |
| `AiLimiter.LogIsChained` | internal/handler/ai.go:52-72 | consecutive admissions of a user obey the window and count rules |
| `AiLimiter.TwelveSpanAWindow` | internal/handler/ai.go:57-72 | twelve admissions in a row span more than 60 s |
| `AiLimiter.AtMostElevenPerMinute` | internal/handler/ai.go:34-73 | any closed interval of at most 60 s holds at most 11 admissions of a user |
| `AiLimiter.AdmissionsAreSpaced` | internal/handler/ai.go:52-55 | admissions of a user are at least 3 s apart |
| `AiLimiter.ElevenIsAttained` | internal/handler/ai.go:57-72 | some run admits 11 in 60 s: the window is fixed, not sliding |
| `Gregorian.YearStarts` | frontend/src/lib/dateUtils.js:52-58 | month-by-month day numbers agree with the closed form of the proleptic Gregorian calendar in every year |
| `Gregorian.MonthStarts` | frontend/src/lib/dateUtils.js:52-58 | the day number of each first of a month in closed form, leap years included |
| `Gregorian.MonthIsUnique` | frontend/src/lib/dateUtils.js:33-58 | every day lies in exactly one month |
| `Gregorian.FieldsDetermineDay` | frontend/src/lib/dateUtils.js:52-58 | year, month and date determine the day |
| `Gregorian.EpochWasAThursday` | frontend/src/components/ui/ActivityCalendar.jsx:86-88 | anchor of the day-of-week function |
| `Quarters.BoundsCoverQuarter` | frontend/src/lib/dateUtils.js:33-44 | a day is within the bounds of a quarter exactly when it has that quarter and the year the date constructor reads |
| `Quarters.QuarterMonths` | frontend/src/lib/dateUtils.js:33-44 | a day is within the bounds of a quarter exactly when its month is one of the three and its year the one the date constructor reads |
| `Quarters.QuartersTileYears` | frontend/src/lib/dateUtils.js:33-44 | the bounds are those of the asked year if and only if it is not one of 0 to 99 |
| `Quarters.OneQuarterPerDay` | frontend/src/lib/dateUtils.js:33-44 | each day lies within the bounds of exactly one quarter of its year, or of none if the year is one of 0 to 99 |
| `DateStrings.IsoOrder` | internal/service/kpi.go:48-49 | string order of YYYY-MM-DD dates is chronological order |
| `DateStrings.FormatIsInjective` | frontend/src/lib/dateUtils.js:52-58 | different days are formatted differently, in every year |
| `DateStrings.IsoReadsBack` | internal/service/kpi.go:48-49 | ten characters with a year of four digits, from which a reader of digits and dashes reads year, month from 1 and date back |
| `DateStrings.FormatReadsBack` | frontend/src/lib/dateUtils.js:52-58 | the same reader reads what the browser writes in every year, negative ones included; the year has no leading zeros |
| `DateStrings.EpochIsPrinted` | frontend/src/lib/dateUtils.js:52-58 | January 1, 1970 is printed 1970-01-01 by both |
| `Calendar.IndexEntries` | frontend/src/components/ui/ActivityCalendar.jsx:59-81 | under each day's date the indexes list, in order, exactly the journals written on it and the achievements of it: stamped with the day, or with a text that up to its first blank is the date |
| `Calendar.KeyIsOfDay` | frontend/src/components/ui/ActivityCalendar.jsx:62-75 | a stamp is filed under the date of a day if and only if it is a timestamp on that day or a text that up to its first blank is the date |
| `Calendar.FindTopImportance` | frontend/src/components/ui/ActivityCalendar.jsx:117-127 | the loop finds the top importance of a day |
| `Calendar.TopImportanceIsFirstMaximum` | frontend/src/components/ui/ActivityCalendar.jsx:117-127 | which is that of the first achievement of highest rank |
| `Calendar.CountCategories` | frontend/src/components/ui/ActivityCalendar.jsx:132-136 | counts per category, and the categories in order of first occurrence |
| `Calendar.FindDominantCategory` | frontend/src/components/ui/ActivityCalendar.jsx:129-140 | the reduce finds the dominant category |
| `Calendar.FoldIsLastMaximum` | frontend/src/components/ui/ActivityCalendar.jsx:137-139 | which is the last among the categories of highest count |
| `Calendar.MakeCell` | frontend/src/components/ui/ActivityCalendar.jsx:106-163 | a cell shows what the indexes hold for its day, and nothing outside the range |
| `Calendar.AddHeader` | frontend/src/components/ui/ActivityCalendar.jsx:165-175 | the label test yields a header exactly for the first Monday and the firsts of months |
| `Calendar.AddCell` | frontend/src/components/ui/ActivityCalendar.jsx:149-181 | a week is stored when it is full |
| `Calendar.GridIsWhole` | frontend/src/components/ui/ActivityCalendar.jsx:85-95 | the walk starts on a Monday, ends on a Sunday and covers whole weeks |
| `Calendar.Walk` | frontend/src/components/ui/ActivityCalendar.jsx:98-190 | the cursor loop yields the full weeks and the headers; the push after it is never reached |
| `Calendar.Build` | frontend/src/components/ui/ActivityCalendar.jsx:84-191 | the grid of a range |
| `CalendarFacts.WeeksAreFull` | frontend/src/components/ui/ActivityCalendar.jsx:104-188 | every week has seven consecutive days, Monday to Sunday; a cell is in range exactly when its day is |
| `CalendarFacts.TodayIsToday` | frontend/src/components/ui/ActivityCalendar.jsx:97-110 | only the cell of today is marked as today |
| `CalendarFacts.EveryDayOnce` | frontend/src/components/ui/ActivityCalendar.jsx:104-188 | every day of the range occurs exactly once, in range |
| `CalendarFacts.HeaderDaysAre` | frontend/src/components/ui/ActivityCalendar.jsx:165-175 | the labelled days are the first Monday and the firsts of months, in order |
| `CalendarFacts.OneHeaderPerMonth` | frontend/src/components/ui/ActivityCalendar.jsx:165-175 | a month whose 1st is in the grid has exactly one header for it, above the week of the 1st; no other header shows that month above that week |
| `CalendarFacts.OtherHeaderIsFirst` | frontend/src/components/ui/ActivityCalendar.jsx:165-175 | the only other header is the first Monday's month, above week 0 |
| `CalendarFacts.HeaderWeeks` | frontend/src/components/ui/ActivityCalendar.jsx:165-181 | week indices never decrease, and only week 0 can have two headers |
| `CalendarFacts.HeadersDiffer` | frontend/src/components/ui/ActivityCalendar.jsx:165-175 | no two headers show the same month above the same week |
| `CalendarCells.TopIsTop` | frontend/src/components/ui/ActivityCalendar.jsx:117-127 | critical before high before medium before low, none exactly without achievements; a missing importance is medium |
| `CalendarCells.DominantIsDominant` | frontend/src/components/ui/ActivityCalendar.jsx:129-140 | the dominant category is the most frequent, of several the one that occurs last for the first time; general without journals |
| `CalendarCells.CellShows` | frontend/src/components/ui/ActivityCalendar.jsx:106-163 | what a cell shows, field by field, from the entries of its day: lists, count, level, flags, importance, category |
| `CalendarCells.BuildCalendar` | frontend/src/components/ui/ActivityCalendar.jsx:59-191 | from entries to calendar: weeks from the last Monday up to the start to the first Sunday from the end, each cell right for its day, counts that add up |
| `CalendarCells.CountsAddUp` | frontend/src/components/ui/ActivityCalendar.jsx:59-163 | the counts of the grid add up to the number of journals written on a day of the range |
| `Relational.LeftJoinMembers` | sql/query.sql:535-539 | a left join pairs a row with each partner, or with NULL exactly when there is none |
| `SearchQueries.JournalConditionMeans` | sql/query.sql:540-555 | the three-valued WHERE is True exactly when its two-valued reading holds |
| `SearchQueries.RowGivesChoices` | sql/query.sql:535-539 | a row of the four-way join is a journal with one of its tags or none and one of its achievements, or none if it has none |
| `SearchQueries.ChoicesGiveRow` | sql/query.sql:535-539 | any tag and any achievement of a journal meet in some row |
| `SearchQueries.SearchJournalsMeaning` | sql/query.sql:531-557 | returns exactly the live journals of the user that pass the filters, with some tag, and independently one achievement (or the absence of any) for keyword and importance together |
| `SearchQueries.SearchJournalsAnswers` | sql/query.sql:531-557 | in every admissible order each matching journal appears, and once |
| `SearchQueries.AchievementConditionMeans` | sql/query.sql:573-587 | the same for the achievement search |
| `SearchQueries.FoundAchievementMatches` | sql/query.sql:567-588 | rows padded with NULL because a link leads to a deleted journal add no result |
| `SearchQueries.SearchAchievementsMeaning` | sql/query.sql:567-588 | returns exactly the achievements that match with one and the same live journal, or none, and each once |
| `Grouping.IndexBy` | frontend/src/components/ui/ActivityCalendar.jsx:60-78 | appending each item under its key yields, for every key, its items in order |
| `Grouping.GroupRows` | internal/repository/search.go:122-128 | the same with a summary of each row |
| `Enrichment.EnrichJournals` | internal/repository/search.go:120-159 | every journal found gets the tags and achievements indexed under it; none is an empty list |
| `Enrichment.EnrichAchievements` | internal/repository/search.go:212-242 | every achievement found gets the journals indexed under it, summarised either way |
| `EnrichedTags.BulkTagMembers` | sql/query.sql:559-565 | for a journal of the user the bulk query returns exactly its tags |
| `EnrichedTags.OwnTagMembers` | sql/query.sql:424-428 | the query for one journal returns exactly its tags |
| `EnrichedTags.OrderIsUnique` | sql/query.sql:428-565 | two lists of the same tags in name order are the same list |
| `EnrichedTags.TagsShownAreOwnTags` | internal/repository/search.go:120-128 | the tags grouped under a journal equal, as a sequence, the answer of the journal's own query |
| `EnrichedLinks.BulkLinkMembers` | sql/query.sql:480-487 | for an achievement of the user the bulk query returns exactly its live linked journals |
| `EnrichedLinks.OwnJournalMembers` | sql/query.sql:470-478 | the query for one achievement returns exactly its live linked journals |
| `EnrichedLinks.JournalsShownAreOwnJournals` | internal/handler/achievement.go:107-134 | the journals grouped under an achievement are those of its own query, with the same dates in the same places; only equal dates may be swapped |
| `EnrichedLinks.FilledJournalsAreOwn` | internal/repository/search.go:212-242 | so with the titles and categories the search fills in |
| `EnrichedLinks.ListedJournals` | internal/handler/achievement.go:107-134 | the achievement list shows exactly the live linked journals, field by field |
| `EnrichedLinks.SearchedJournals` | internal/repository/search.go:212-242 | so does the achievement search, with Untitled and the empty category for what is missing |
| `EnrichedLinks.SearchedAchievements` | internal/repository/search.go:130-142 | a journal found shows exactly the user's achievements linked to it, field by field |
| `EnrichedLinks.OwnAchievementMembers` | sql/query.sql:454-459 | the query for a journal's achievements returns the linked ones and those that name it |
| `EnrichedLinks.SearchShowsAllAchievements` | internal/repository/search.go:130-142 | a search result shows all of them if and only if each is linked (not merely naming the journal) and the user's own |
| `EnrichedLinks.UnlinkingHides` | internal/repository/achievement.go:140-159 | after unlinking an achievement from the journal it names, the search still finds the journal by it and the journal's own query lists it, but the result does not show it |
| `EnrichedLinks.UnlinkedExample` | sql/query.sql:454-487 | a database where this happens |
| `Highlight.EscapeIsLiteral` | frontend/src/pages/SearchPage.jsx:38-38 | the escaped keyword is a pattern for exactly the keyword |
| `Highlight.MatchSticky` | frontend/src/pages/SearchPage.jsx:38-39 | tests for the keyword at one position, case folded |
| `Highlight.Split` | frontend/src/pages/SearchPage.jsx:39-39 | split with a capture group, step by step |
| `Highlight.Regex.Test` | frontend/src/pages/SearchPage.jsx:38-41 | test finds the first match from lastIndex on, and moves lastIndex behind it, or to 0 |
| `Highlight.HighlightKeyword` | frontend/src/pages/SearchPage.jsx:36-43 | every marked piece folds to the keyword, no match starts in a plain one, and the matches are those taken from left to right; the texts concatenate to the input, and without keyword or text nothing is marked |
| `Highlight.HighlightingIsRight` | frontend/src/pages/SearchPage.jsx:36-43 | the same of the specification the shared expression is proved against: lastIndex is 0 whenever a part is tested |
| `Highlight.PartsAlternate` | frontend/src/pages/SearchPage.jsx:39-42 | odd parts are matches, even parts contain none |
| `Highlight.PartsAreTheCuts` | frontend/src/pages/SearchPage.jsx:39-42 | the parts are the one way to cut the text at the keyword's occurrences from left to right |
| `Highlight.HighlightingKeepsTheText` | frontend/src/pages/SearchPage.jsx:36-43 | the pieces concatenate to the original text |
| `Foundation.ExtractedNames` | frontend/src/lib/foundationWorkUtils.js:59-66 | the names extracted are the normalised, non-empty names of the tags |
| `Foundation.MatchPillar` | frontend/src/lib/foundationWorkUtils.js:79-105 | the three tests of a pillar decide whether the journal belongs to it |
| `Foundation.FoundationInWords` | frontend/src/lib/foundationWorkUtils.js:12-125 | foundation work in plain words: a listed tag, one of five categories, or a listed phrase when the category is general or missing |
| `Foundation.PrimaryInWords` | frontend/src/lib/foundationWorkUtils.js:12-125 | the primary pillar in plain words: the first of the four whose tags, category or phrases fit; other counts as operational when none does |
| `Foundation.ClassifyJournal` | frontend/src/lib/foundationWorkUtils.js:71-125 | the loop, the fallback and a missing journal |
| `Foundation.NamedCategoriesMatch` | frontend/src/lib/foundationWorkUtils.js:112-118 | the fallback branches for maintenance and meeting are never reached |
| `Foundation.ClassifyMeaning` | frontend/src/lib/foundationWorkUtils.js:71-125 | foundation work is what belongs to a pillar or has category other; the primary pillar is the first it belongs to |
| `FoundationMetrics.FileEntries` | frontend/src/lib/foundationWorkUtils.js:149-168 | every foundation entry is filed under its primary pillar, in order, and its id counted |
| `FoundationMetrics.FillPercents` | frontend/src/lib/foundationWorkUtils.js:175-177 | each pillar gets its rounded percentage of all entries |
| `FoundationMetrics.FindTop` | frontend/src/lib/foundationWorkUtils.js:180-187 | the first pillar with the largest count, or none if all are empty |
| `FoundationMetrics.CalculateFoundationMetrics` | frontend/src/lib/foundationWorkUtils.js:130-211 | all of the statistics, the empty list included |
| `FoundationMetrics.ClassifierIsCoherent` | frontend/src/lib/foundationWorkUtils.js:120-124 | the classifier gives foundation work, and nothing else, a primary pillar; the next three hold for any such classifier |
| `FoundationMetrics.CountsAddUp` | frontend/src/lib/foundationWorkUtils.js:158-171 | the pillar counts add up to foundationCount, and featureCount is the rest, if and only if foundation ids are distinct |
| `FoundationMetrics.TopPillarLeads` | frontend/src/lib/foundationWorkUtils.js:180-187 | no top pillar exactly when there is no foundation work; no pillar beats it |
| `FoundationMetrics.PercentsAddUp` | frontend/src/lib/foundationWorkUtils.js:170-177 | the four rounded percentages differ from the rounded whole by at most 2 |
| `RoundingExample.TwoIsReached` | frontend/src/lib/foundationWorkUtils.js:170-177 | and for some eight journals by 2 |
| `TeamStats.TotalMeaning` | sql/query.sql:76-98 | the total counts the member's live journals in the range |
| `TeamStats.ActiveMeaning` | sql/query.sql:76-98 | the active days are their different dates |
| `TeamStats.FoundationMeaning` | sql/query.sql:124-160 | COUNT(DISTINCT) over one row per tag counts each foundation journal once |
| `TeamStats.FoundationWithinTotal` | sql/query.sql:76-160 | a member has no more foundation journals than journals |
| `FoundationChain.BadgeImpliesDatabase` | frontend/src/pages/SearchPage.jsx:12-34 | what the search page marks, the team statistics count |
| `FoundationChain.DatabaseImpliesClassifier` | frontend/src/lib/foundationWorkUtils.js:71-125 | what the team statistics count, the classifier files under a pillar |
| `FoundationChain.CountsAreOrdered` | sql/query.sql:124-160 | the same for counts over a member's journals of a range |
| `FoundationChain.ChainIsStrict` | frontend/src/lib/foundationWorkUtils.js:22-52 | a stored journal tagged devops is counted but not marked; one tagged database is filed but not counted |
| `FoundationChain.ResultsPresent` | internal/repository/search.go:144-159 | a search result carries the stored category and tags |
| `FoundationChain.ChartsAddUp` | frontend/src/lib/foundationWorkUtils.js:130-211 | for any page of any search answer, which is what the pages pass, counts and percentages add up |
| `Team.AssembleOverview` | internal/service/team.go:278-322 | each row holds its member's statistics, zeros where there are none, and percentage; the summary holds the sums |
| `Team.TeamRatioIsBetween` | internal/service/team.go:293-322 | the team's exact ratio lies between the smallest and the largest ratio of members with journals |
| `Team.SomebodyIsBelow` | frontend/src/pages/TeamCalibrationPage.jsx:158-162 | someone stays below the threshold, with every percentage up to one point too low or too high |
| `Team.QuietHeroesAreFew` | frontend/src/pages/TeamCalibrationPage.jsx:158-162 | quiet heroes are fewer than members if and only if the team is not empty |
| `Team.HeroesAreOutstanding` | frontend/src/pages/TeamCalibrationPage.jsx:158-162 | a quiet hero is an employee with journals, at least 29 percent of them foundation work and more than 12 points above the team in exact ratios |
| `Team.OutstandingAreHeroes` | frontend/src/pages/TeamCalibrationPage.jsx:158-162 | an employee with at least 31 percent and at least 17 points above the team is one |
| `Team.DatabaseIsConsistent` | internal/service/team.go:278-299 | statistics read from the database meet what this needs |
| `QuarterSums.QuarterOfDay` | frontend/src/lib/dateUtils.js:39-44 | a day of the year is in exactly the bounds of its quarter |
| `QuarterSums.TotalsAddUp` | sql/query.sql:87-98 | bounded journal counts of the quarters add up to the year's, for every member |
| `QuarterSums.ActiveDaysAddUp` | sql/query.sql:87-98 | so do the active days |
| `QuarterSums.FoundationAddsUp` | sql/query.sql:142-160 | and the foundation counts |
| `KpiMatching.ChooseKpiPeriod` | internal/repository/journal.go:72-87 | stores a latest period that covers the entry date; if there is none, a latest one active now; otherwise none |
| `KpiMatching.ListKpiPeriods` | internal/service/kpi.go:121-132 | every period is sent once, in order; its id, and its days as a reader of dates reads them, come back, and it is active exactly when today is one of them |
| `KpiMatching.DtoTells` | internal/service/kpi.go:41-66 | the same of one period |
| `KpiMatching.ActiveInDtoByDay` | internal/service/kpi.go:51-56 | the service calls a period active on all of its days |
| `KpiMatching.ActiveInQueryByDay` | sql/query.sql:332-339 | the query calls it active on all but the last (on that only at midnight) |
| `KpiMatching.ActiveNotions` | sql/query.sql:332-339 | the two notions choose the same period if and only if the latest period active today is not in its last day |
| `KpiMatching.PreviewIsRight` | frontend/src/pages/JournalFormPage.jsx:119-123 | list loaded at one moment, journal stored at a later one: both choose the same period if and only if one covers the entry date, or the latest active on loading is not in its last day or over and none has begun since |
| `KpiMatching.PreviewIsRightAwayFromLastDays` | frontend/src/pages/JournalFormPage.jsx:119-123 | in particular on the day of loading when no period ends that day |
| `KpiMatching.PreviewCanBeWrong` | frontend/src/pages/JournalFormPage.jsx:119-123 | on the last day of a team's only period the browser names it and the server stores none |
| `KpiMatching.PreviewCanBeOutdated` | frontend/src/pages/JournalFormPage.jsx:110-123 | a period that begins between loading and storing is stored though the browser shows none |
| `Sessions.AuthMiddleware.CreateSession` | internal/middleware/auth.go:35-55 | a fresh token is always accepted, and then authenticates as the user until the session duration is over; every other token as before; the run grows by the login |
| `Sessions.AuthMiddleware.DeleteSession` | internal/middleware/auth.go:57-59 | the token authenticates at no time any more, every other as before; the run grows by the logout |
| `Sessions.AuthMiddleware.RequireAuth` | internal/middleware/auth.go:61-86 | after any run, a request is let through exactly while its token is granted by the run and unexpired, as the user it was granted to, and only then starts an activity update |
| `Sessions.AuthMiddleware.UpdateSessionActivity` | sql/query.sql:34-37 | a pending update, however late, changes nobody's authentication at any time |
| `Sessions.AuthMiddleware.CleanExpiredSessions` | sql/query.sql:47-49 | everybody is authenticated as before from now on, and no expired row is left |
| `Sessions.CleanupIsTransparent` | cmd/server/main.go:177-199 | for every interleaving the outcomes are those of the run without cleanups |
| `Sessions.AuthenticatedExactlyWhileGranted` | internal/middleware/auth.go:35-86 | a fresh token authenticates, as its user, exactly while unexpired and not logged out |
| `Sessions.LogoutIsFinal` | internal/middleware/auth.go:57-86 | after a logout nothing, late updates included, makes the token valid again |
| `TagReconcile.Server.ListTags` | sql/query.sql:393-394 | all tags |
| `TagReconcile.Server.CreateTag` | internal/repository/tag.go:26-30 | inserts the normalised name unless it is there, and returns its id |
| `TagReconcile.Server.AddTagToJournal` | sql/query.sql:415-418 | links the tag, once |
| `TagReconcile.Server.RemoveTagFromJournal` | sql/query.sql:420-422 | unlinks the tag |
| `TagReconcile.Removed` | frontend/src/pages/JournalFormPage.jsx:310-310 | the loaded tags that are no longer wanted |
| `TagReconcile.Added` | frontend/src/pages/JournalFormPage.jsx:309-309 | the wanted names that were not loaded |
| `TagReconcile.RemoveTags` | frontend/src/pages/JournalFormPage.jsx:312-320 | the remove loop |
| `TagReconcile.AddTag` | frontend/src/pages/JournalFormPage.jsx:322-347 | one turn of the add loop: find, else create, else look again, then link |
| `TagReconcile.AddTags` | frontend/src/pages/JournalFormPage.jsx:322-347 | the add loop |
| `TagReconcile.SaveTags` | frontend/src/pages/JournalFormPage.jsx:298-347 | afterwards the journal has the resolved wanted names, and no other journal's names have changed |
| `TagReconcile.ExactlyTheWantedNames` | frontend/src/pages/JournalFormPage.jsx:298-347 | the names are exactly the wanted ones if and only if each is listed already or in the server's normal form and not empty |
| `TagForm.NormalForm` | internal/repository/tag.go:26-30 | a lower-case name is in the server's normal form exactly when it has no blank at its ends |
| `TagForm.CleanedName` | frontend/src/pages/JournalFormPage.jsx:249-267 | a name made of typed text is lower-case, and has a blank end exactly when dropping the marks of the trimmed text uncovers one |
| `TagForm.TypedNameIsKept` | frontend/src/pages/JournalFormPage.jsx:249-267 | typed text gives a name the server keeps if and only if it is listed already or no such blank is uncovered |
| `TagForm.NamesComeFrom` | frontend/src/pages/JournalFormPage.jsx:246-272 | every name in the field was loaded or typed, and none is empty |
| `TagForm.EnterAdds` | frontend/src/pages/JournalFormPage.jsx:246-253 | enter adds the cleaned name at the end unless it is empty or there already |
| `TagForm.BackspaceTakesLast` | frontend/src/pages/JournalFormPage.jsx:254-256 | backspace in an empty field takes the last name |
| `TagForm.RemoveTakesOut` | frontend/src/pages/JournalFormPage.jsx:259-261 | removing takes out every copy of the name and no other name |
| `TagForm.RemoveKeepsOrder` | frontend/src/pages/JournalFormPage.jsx:259-261 | and keeps the others in order |
| `TagForm.NoNameTwice` | frontend/src/pages/JournalFormPage.jsx:246-272 | no name is ever in the field twice, if none was loaded twice |
| `TagForm.FormSavesItsNames` | frontend/src/pages/JournalFormPage.jsx:246-347 | however the field is edited, the journal gets exactly its names if and only if each is listed already or has no blank end |
| `TagForm.BlankBeforeHash` | frontend/src/pages/JournalFormPage.jsx:266-267 | typing a blank and a hash after a word submits a name the server stores differently |

## Left out

- HTTP handlers, drivers, row scanning, storage, password hashing, JSON and the language-model client: input and output.
- React rendering, effects, dialogs and styles.
- Floating point: token counts are real numbers and browser percentages are exact before rounding; the team's percentages may be off by one point either way (`NearExact`).
- Time zones, daylight saving and the parsing of dates: days are integers, the server's clock is read in UTC.
- The default date range of the calendar, and an entry date left empty (the server takes today, the form shows no period).
- LIMIT and OFFSET: ties in an ORDER BY have no fixed order, so pages are not determined; answers are proved before the limit, in every admissible order.
- ILIKE patterns and Unicode folding: matching is an arbitrary relation in the queries, and a fold of single characters in the highlighter. The browser's lower-casing is arbitrary but for plain lower-case words.
- The tags and categories of the classifier are compared after lower-casing only; other Unicode effects are not modelled.
- Null elements in a tag list, and category names that look like integers (a browser would order such keys first).
- Changes to the KPI periods themselves between loading the list and storing the journal.
- In the tag field, lower-casing works character by character, and browser and server agree on it and on what is blank.
- Errors of the bulk queries, which the code treats as no rows: the enrichment loops take any rows, the theorems about them take the answers.
- Created and updated timestamps, second ORDER BY keys, attachments, blockers, plans and visibility of a journal.
- The last entry date and the achievement statistics of a team as queries; the overview takes them as given.
- The sentence that sums up the foundation statistics.
- The join with the user in the session query: a session's user is taken to exist.
- Two tables of the server as the code reads them with usage counts: listing tags returns names and ids.
- Calls that fail while tags are saved; the form logs them and goes on.
- ConcurrentLimiter.ConcurrentBurstBound: a sweep is a sequence of single deletions, each under both locks, between which other steps may run; the code holds the map's lock throughout, so the model allows more interleavings than the code.
- RateLimiter.Limiter.GetClient: calls run one at a time here, so the second check cannot succeed; it is a step of its own in ConcurrentLimiter.
- Calendar.Walk: the loop body is split into three methods, and the level of a cell is a number from 0 to 4 instead of a style name.
- The `Retry-After` header: only the number of seconds.
- Validation branches, Markdown generation, clamping and thumbnails: each is settled by reading one branch.
