# Newest-first checks and string exercises, modelled in Dafny

This project models the algorithmic core of a practice repository. Most of
it is several drafts of one job: checking that the "newest" listing of
Hacker News is sorted from newest to oldest. The rest is three small
LeetCode string solutions.

The newest-first drafts share one shape. A collector loop pages through the
listing until it holds a target number of entries. A validator then walks
adjacent pairs. The drafts differ in how they read an entry's age and in
what they count as out of order:

- **First dashboard draft** (`TakeHomeDraft`,
  `QA-Engineer-Practice/qa_wolf_take_home/index.js`):
  - reads relative ages such as "5 minutes ago" into minutes, with 0 for
    anything unreadable;
  - allows two minutes of disagreement between neighbours.
- **Second dashboard draft** (`ConfidenceDraft`,
  `QA-Engineer-Practice/11132025/index.js`):
  - reads an age only at the start of the text, as an instant before a
    collection time;
  - allows one minute;
  - flags pairs of minute ages at most one minute apart as precision risks;
  - computes a confidence percentage that leaves the flagged articles out.
- **Third dashboard draft** (`NullableDraft`,
  `QA-Engineer-Practice/082025/index.js`):
  - reads ages case-insensitively, with null for anything unreadable;
  - makes a pair with a null side a violation of its own;
  - rejects an empty list;
  - marks each collected article valid or not.
- **Epoch script** (`EpochCheck`, `qa_wolf_take_home/index.js`):
  - reads the Unix epoch at the end of the `title` attribute of the parent
    of each link whose name contains "ago";
  - counts missing epochs as errors;
  - classifies each pair as out of order, same minute or in order.
- **Playwright test** (`EpochTest`, `qa_wolf_take_home/tests/index.spec.js`):
  - reads like the epoch script, a page of titles at a time;
  - fails while loading the next page where the script would throw at that
    page for being empty;
  - fails at the first out-of-order pair;
  - passes only when the error count is zero.

Shared modules:

- `Text`: characters, digit runs, `parseInt` on digits, `trim`, lower case.
- `RelativeTime`: the age pattern `(\d+)\s+(minute|hour|day)s?\s+ago` as a
  hand-written matcher, anchored or searched, in either case.
- `Paging`: the browser as a sequence of pages. Page `k` (from 1) shows a
  list of raw items, and every page but the last carries a "More" link.
- `DraftComparison`: where the three dashboard drafts agree and where they
  differ.

The LeetCode solutions are:

- `MergeStrings`: Merge Strings Alternately, with an index-loop version and a
  list-and-join version.
- `GcdStrings`: Greatest Common Divisor of Strings, a commutation test
  followed by Euclid's loop on the lengths.

The loops of the source are methods with loop invariants, proved against
specification functions. The properties the source promises are lemmas
about those functions.

## Model

| member | source | states |
|---|---|---|
| `Text.TrailingRun` | qa_wolf_take_home/index.js:149 | the run it returns lies at the end of the string, is made of class characters, and cannot be extended: it is the greedy `(\d+)$` capture |
| `Text.RunIsMaximal` | QA-Engineer-Practice/qa_wolf_take_home/index.js:77 | the run from a position holds only class characters and stops at the end or at a character outside the class, as a greedy `\d+` or `\s+` does |
| `Text.NumeralValue` | QA-Engineer-Practice/qa_wolf_take_home/index.js:79 | `parseInt` of the decimal numeral of `n` is `n` |
| `Text.Lower` | QA-Engineer-Practice/082025/index.js:103 | `toLowerCase` keeps the length and lowers each character |
| `Text.Trim` | QA-Engineer-Practice/082025/index.js:289 | `trim` gives a slice of the text with only blanks before and after it, and that slice neither starts nor ends with a blank |
| `Text.TrimTwice` | QA-Engineer-Practice/082025/index.js:289 | trimming a trimmed text changes nothing |
| `RelativeTime.MatchAt` | QA-Engineer-Practice/11132025/index.js:27 | a match at a position captures a non-empty run of digits |
| `RelativeTime.Search` | QA-Engineer-Practice/qa_wolf_take_home/index.js:77 | the unanchored search returns the capture of a match, whose digit group is non-empty and all digits |
| `RelativeTime.UnitAt` | QA-Engineer-Practice/qa_wolf_take_home/index.js:77 | the alternation `minute\|hour\|day` finds the unit whose word is spelled at the position, or none of the three is |
| `RelativeTime.UnitWordAtIff` | QA-Engineer-Practice/082025/index.js:96 | a unit word is at a position exactly when each character, case-folded under `/i`, equals the word's |
| `RelativeTime.UnitIsKnown` | QA-Engineer-Practice/qa_wolf_take_home/index.js:80-84 | the unit group of any match names one of the three units, lower-cased under `/i`, so the fall-through `return 0`/`null` is never reached |
| `RelativeTime.RenderMatches` | QA-Engineer-Practice/qa_wolf_take_home/index.js:77 | an age written as the site writes it ("N unit(s) ago") matches at its start, and the search finds that match, with the digits and the unit word as captures |
| `RelativeTime.RenderCapsNoMatch` | QA-Engineer-Practice/qa_wolf_take_home/index.js:77 | without `/i`, an age with a capitalised unit word matches nowhere |
| `RelativeTime.NoDigitsNoMatch` | QA-Engineer-Practice/qa_wolf_take_home/index.js:76-78 | a text without digits (the empty text, the placeholder) has no match |
| `RelativeTime.SearchFindsNothing` | QA-Engineer-Practice/qa_wolf_take_home/index.js:77-78 | the search fails when no position matches |
| `Paging.StreamPages` | QA-Engineer-Practice/qa_wolf_take_home/index.js:190-226 | the items read from page `k` on start on page `k`, and the page number never decreases and grows by at most one per "More" step |
| `Paging.StreamStopsAtEmpty` | QA-Engineer-Practice/qa_wolf_take_home/index.js:203-206 | no item is read from an empty page or any page after it |
| `Paging.StreamEndsAtStop` | qa_wolf_take_home/index.js:119-166 | the reading ends on the page before the first empty page, or on the last page, which has no "More" link |
| `Paging.StopOf` | qa_wolf_take_home/index.js:125-127 | the page where reading stops is never before the page it started from |
| `Paging.StreamSplit` | QA-Engineer-Practice/qa_wolf_take_home/index.js:208-226 | the items of a non-empty page come next in the stream, and after them come the items from the following page on |
| `TakeHomeDraft.ParseTimeToMinutes` | QA-Engineer-Practice/qa_wolf_take_home/index.js:75-85 | a text without a match reads as 0 minutes |
| `TakeHomeDraft.ParseRendered` | QA-Engineer-Practice/qa_wolf_take_home/index.js:79-84 | "N minute(s) ago" reads as N, "N hour(s) ago" as 60·N and "N day(s) ago" as 1440·N |
| `TakeHomeDraft.ParseRenderedUnit` | QA-Engineer-Practice/qa_wolf_take_home/index.js:79-84 | an age written with any unit reads as its count in minutes |
| `TakeHomeDraft.ParseUnreadable` | QA-Engineer-Practice/qa_wolf_take_home/index.js:76-78 | the placeholder `'no timestamp found'` and a capitalised unit word read as 0 |
| `TakeHomeDraft.ViolationsExact` | QA-Engineer-Practice/qa_wolf_take_home/index.js:91-99 | position `i` is recorded exactly when `minutes[i] + 2 < minutes[i-1]`; positions are increasing and below `n`; at most `n - 1` are recorded |
| `TakeHomeDraft.ValidateSortingWith` | QA-Engineer-Practice/qa_wolf_take_home/index.js:88-102 | the loop records exactly the violating positions, and `isValid` holds exactly when none was recorded |
| `TakeHomeDraft.ValidateSorting` | QA-Engineer-Practice/qa_wolf_take_home/index.js:88-102 | `validateSorting` with the draft's own age reader, with the same result |
| `TakeHomeDraft.RenderedViolation` | QA-Engineer-Practice/qa_wolf_take_home/index.js:92-94 | two written ages are a violation exactly when the newer one, in minutes, plus 2 is below the older one |
| `TakeHomeDraft.PlaceholderViolation` | QA-Engineer-Practice/qa_wolf_take_home/index.js:211 | a row stored with the placeholder reads as 0 minutes: it violates exactly when its predecessor reads as more than 2, and two placeholders never violate |
| `TakeHomeDraft.ArticlesOf` | QA-Engineer-Practice/qa_wolf_take_home/index.js:217 | the first `n` rows become exactly `n` articles |
| `TakeHomeDraft.ReadPage` | QA-Engineer-Practice/qa_wolf_take_home/index.js:208-219 | the inner loop pushes one article per row, numbered after those held, until the target is reached: `min(target, held + rows)` articles |
| `TakeHomeDraft.CollectArticles` | QA-Engineer-Practice/qa_wolf_take_home/index.js:189-231 | the collector returns the first `min(target, rows available)` rows from page 1 on, as numbered articles |
| `TakeHomeDraft.CollectedShape` | QA-Engineer-Practice/qa_wolf_take_home/index.js:217-231 | at most `target` articles, numbered 1..n without gaps, from page 1 on, one page step at a time |
| `TakeHomeDraft.CollectedStops` | QA-Engineer-Practice/qa_wolf_take_home/index.js:203-206 | the collection falls short only when the rows ran out, and an empty page ends it without error, keeping what was collected before it |
| `ConfidenceDraft.AnchoredMinutes` | QA-Engineer-Practice/11132025/index.js:27-36 | an age is read exactly when the anchored pattern matches at the start |
| `ConfidenceDraft.ParseTimeToInstant` | QA-Engineer-Practice/11132025/index.js:23-41 | an instant results exactly for a present text other than the placeholder that matches at its start, and it is `collectionTime - minutes·60000` |
| `ConfidenceDraft.RenderedInstant` | QA-Engineer-Practice/11132025/index.js:34-40 | a written age reads as the collection time less its minutes in milliseconds |
| `ConfidenceDraft.RenderedMinuteInstant` | QA-Engineer-Practice/11132025/index.js:34 | "N minutes ago" reads as `collectionTime - N·60000` |
| `ConfidenceDraft.InstantOfMinutes` | QA-Engineer-Practice/11132025/index.js:40 | a text whose anchored age is `m` minutes reads as `collectionTime - m·60000` |
| `ConfidenceDraft.RenderedMinutes` | QA-Engineer-Practice/11132025/index.js:27-36 | a written age reads as its count in minutes |
| `ConfidenceDraft.RenderedCapsUnreadable` | QA-Engineer-Practice/11132025/index.js:27-28 | a capitalised unit word gives null |
| `ConfidenceDraft.RenderedNotPlaceholder` | QA-Engineer-Practice/11132025/index.js:24 | a written age is neither empty nor the placeholder |
| `ConfidenceDraft.InstantOrder` | QA-Engineer-Practice/11132025/index.js:34-40 | a larger age gives an earlier or equal instant and a smaller one a later or equal instant; every instant is at most `collectionTime` |
| `ConfidenceDraft.PlaceholderUnreadable` | QA-Engineer-Practice/11132025/index.js:24 | null, the empty text and the placeholder give null |
| `ConfidenceDraft.StoredReads` | QA-Engineer-Practice/11132025/index.js:86-93 | a text kept by the row extraction always reads as an instant, and a text that reads as one is always kept |
| `ConfidenceDraft.RenderedMinuteCount` | QA-Engineer-Practice/11132025/index.js:112-118 | `/^(\d+)\s+minute/` on a written age gives its count exactly when the unit is a lower-case minute |
| `ConfidenceDraft.MinuteAgrees` | QA-Engineer-Practice/11132025/index.js:112-117 | when both patterns match, the minute count equals the age in minutes |
| `ConfidenceDraft.RisksBound` | QA-Engineer-Practice/11132025/index.js:105-128 | at most `n - 1` pairs are flagged, each with a delta of at most one minute |
| `ConfidenceDraft.RisksFlagged` | QA-Engineer-Practice/11132025/index.js:109-128 | every pair of present texts that both start with minute counts at most one apart is flagged |
| `ConfidenceDraft.RiskSetComplete` | QA-Engineer-Practice/11132025/index.js:129-130 | both articles of a flagged pair are in the risk set |
| `ConfidenceDraft.RiskSetSound` | QA-Engineer-Practice/11132025/index.js:116-131 | every index in the risk set belongs to a flagged pair |
| `ConfidenceDraft.AnalyzeTimestampPrecision` | QA-Engineer-Practice/11132025/index.js:101-136 | the loop returns exactly the flagged pairs and the set of their indices |
| `ConfidenceDraft.Stamps` | QA-Engineer-Practice/11132025/index.js:154-164 | one stamp per article, each read by the age reader and marked as a risk by the set |
| `ConfidenceDraft.ValidCount` | QA-Engineer-Practice/11132025/index.js:158-162 | at most `n` of the first `n` stamps are valid |
| `ConfidenceDraft.ToAbsolute` | QA-Engineer-Practice/11132025/index.js:141-164 | the `map` gives the stamps, counts the valid ones, and `validTimestamps + failedExtractions == totalArticles` |
| `ConfidenceDraft.ViolationsSound` | QA-Engineer-Practice/11132025/index.js:169-185 | each recorded violation is a pair of valid stamps with the later one newer by more than 60 s, flagged as a precision risk exactly when either side is a risk; positions are increasing |
| `ConfidenceDraft.ViolationsComplete` | QA-Engineer-Practice/11132025/index.js:169-185 | every such pair is recorded |
| `ConfidenceDraft.ViolationInMinutes` | QA-Engineer-Practice/11132025/index.js:173-176 | for two readable ages, a violation means the newer one is younger by more than one minute |
| `ConfidenceDraft.RiskyNeverViolates` | QA-Engineer-Practice/11132025/index.js:121-176 | a precision-risk pair is never itself a violation |
| `ConfidenceDraft.ConfidenceAsWritten` | QA-Engineer-Practice/11132025/index.js:189-191 | the score as written: 0 without scoring articles, else `(scoring - outOfOrder)/scoring·100`, which lies in 0..100 when `outOfOrder <= scoring` and is negative when `outOfOrder > scoring` |
| `ConfidenceDraft.Confidence` | QA-Engineer-Practice/11132025/index.js:189-191 | the corrected score always lies in 0..100, agrees with the written formula whenever that formula is in range, and is 100 with no violations |
| `ConfidenceDraft.CheckOrder` | QA-Engineer-Practice/11132025/index.js:169-186 | the loop records exactly the violations |
| `ConfidenceDraft.ValidateSortingWithConfidence` | QA-Engineer-Practice/11132025/index.js:139-202 | the report holds the flagged pairs, the risk-set size, the violations, `validTimestamps + failedExtractions == totalArticles == length`, `outOfOrder == violations.length`, `isValid` iff no violation, and the confidence as written from the metrics, which leaves 0..100 when more pairs are out of order than articles score, and equals the corrected score otherwise |
| `ConfidenceDraft.MinuteListing` | QA-Engineer-Practice/11132025/index.js:242-248 | a listing of written minute ages has one article per age |
| `ConfidenceDraft.MinuteListingReads` | QA-Engineer-Practice/11132025/index.js:112-117 | each article of such a listing is numbered from 1, and its minute count and instant are those of its age |
| `ConfidenceDraft.MinuteListingReadsAs` | QA-Engineer-Practice/11132025/index.js:154-164 | the whole listing reads as its ages, as counts and as instants |
| `ConfidenceDraft.RiskyByCounts` | QA-Engineer-Practice/11132025/index.js:116-121 | two present minute ages form a risk pair exactly when their counts are at most one apart |
| `ConfidenceDraft.ExampleRisks` | QA-Engineer-Practice/11132025/index.js:105-131 | ages `hi, mid, mid, lo, lo` (gaps above one minute) put four articles in the risk set |
| `ConfidenceDraft.StampReads` | QA-Engineer-Practice/11132025/index.js:155-163 | a stamp holds its article's instant |
| `ConfidenceDraft.ExampleOrder` | QA-Engineer-Practice/11132025/index.js:169-185 | on those five instants all stamps are valid and two violations are recorded |
| `ConfidenceDraft.ExampleStamps` | QA-Engineer-Practice/11132025/index.js:154-185 | the same listing yields five valid stamps and two violations |
| `ConfidenceDraft.NegativeConfidence` | QA-Engineer-Practice/11132025/index.js:189-191 | on that listing the score as written is -100, while the corrected score is 0 |
| `ConfidenceDraft.ArticlesOf` | QA-Engineer-Practice/11132025/index.js:242-248 | the first `n` rows become exactly `n` articles |
| `ConfidenceDraft.ReadPage` | QA-Engineer-Practice/11132025/index.js:237-249 | the inner loop checks the target before each push: `min(target, held + rows)` articles, numbered after those held |
| `ConfidenceDraft.CollectArticles` | QA-Engineer-Practice/11132025/index.js:227-263 | the collector returns the first `min(target, rows available)` rows from page 1 on |
| `ConfidenceDraft.CollectedShape` | QA-Engineer-Practice/11132025/index.js:238-248 | at most `target` articles, numbered 1..n without gaps, from page 1 on, one page step at a time |
| `ConfidenceDraft.CollectedReadable` | QA-Engineer-Practice/11132025/index.js:155-163 | a collected article's text reads as an instant exactly when it is not null |
| `NullableDraft.SearchUnitKnown` | QA-Engineer-Practice/082025/index.js:96-103 | the unit group of a case-insensitive match lower-cases to a unit name |
| `NullableDraft.ParseTimeToMinutes` | QA-Engineer-Practice/082025/index.js:90-110 | an age results exactly for a present, non-empty text in which the case-insensitive pattern matches |
| `NullableDraft.ShownNamesUnit` | QA-Engineer-Practice/082025/index.js:103 | a unit word in either case lower-cases to its name |
| `NullableDraft.ParseRenderedUnit` | QA-Engineer-Practice/082025/index.js:102-107 | a written age in either case reads as its count in minutes |
| `NullableDraft.ParseRendered` | QA-Engineer-Practice/082025/index.js:105-107 | minute, hour and day ages, in either case, read as N, 60·N and 1440·N |
| `NullableDraft.ParseUnreadable` | QA-Engineer-Practice/082025/index.js:91-100 | null, the empty text and a text without digits give null |
| `NullableDraft.ViolationsSound` | QA-Engineer-Practice/082025/index.js:125-144 | each recorded violation is what its pair yields, positions increase, and there are at most `n - 1` |
| `NullableDraft.ViolationsComplete` | QA-Engineer-Practice/082025/index.js:125-144 | every pair that yields a violation has it recorded |
| `NullableDraft.ValidateSortingWith` | QA-Engineer-Practice/082025/index.js:117-147 | the method returns the violations of the specification, and `isValid` holds exactly when there are none |
| `NullableDraft.ValidateSorting` | QA-Engineer-Practice/082025/index.js:117-147 | `validateSorting` with the draft's own age reader, with the same result |
| `NullableDraft.OutcomeValid` | QA-Engineer-Practice/082025/index.js:118-146 | an empty list gives exactly the one violation 'No articles to validate'; a single article is valid; otherwise the list is valid exactly when no pair yields a violation |
| `NullableDraft.NullPair` | QA-Engineer-Practice/082025/index.js:129-135 | a pair with a null side yields the unparseable violation at `articleIndex = i` |
| `NullableDraft.RenderedPair` | QA-Engineer-Practice/082025/index.js:138-143 | two written ages yield a sorting violation exactly when `previous > current + 2` |
| `NullableDraft.StoredText` | QA-Engineer-Practice/082025/index.js:286-295 | a kept text is the trimmed age text |
| `NullableDraft.StoredReads` | QA-Engineer-Practice/082025/index.js:289-295 | a kept text always reads as an age, and a text is kept exactly when its trimmed form reads as one |
| `NullableDraft.ArticlesOf` | QA-Engineer-Practice/082025/index.js:302-307 | the first `n` rows become exactly `n` articles |
| `NullableDraft.ReadPage` | QA-Engineer-Practice/082025/index.js:280-310 | the inner loop pushes one article per row until the target is reached: `min(target, held + rows)` articles |
| `NullableDraft.InvalidCount` | QA-Engineer-Practice/082025/index.js:332 | the count of invalid articles is at most the length, and zero exactly when every article is valid |
| `NullableDraft.CollectArticles` | QA-Engineer-Practice/082025/index.js:256-323 | the collector returns the first `min(target, rows available)` rows from page 1 on |
| `NullableDraft.Checkpoint` | QA-Engineer-Practice/082025/index.js:327-335 | the collection is reported incomplete exactly when it holds fewer than `target` articles; the loop counts the articles that are not valid, a count that is at most the number of articles and is 0 exactly when every article is valid |
| `NullableDraft.CollectedShape` | QA-Engineer-Practice/082025/index.js:302-323 | at most `target` articles, numbered 1..n without gaps, from page 1 on, one page step at a time |
| `NullableDraft.CollectedReadable` | QA-Engineer-Practice/082025/index.js:283-307 | `valid` holds exactly when a text was kept; a kept text reads as an age and is the trimmed text; a text is dropped exactly when its trimmed form does not read |
| `NullableDraft.CollectedCounts` | QA-Engineer-Practice/082025/index.js:323-334 | the invalid count is zero exactly when every collected row's trimmed text reads as an age; an incomplete collection used up every row |
| `DraftComparison.MinuteDraftsAgree` | QA-Engineer-Practice/082025/index.js:138-143 | on written ages, the first and third drafts flag the same pairs |
| `DraftComparison.ToleranceDiffers` | QA-Engineer-Practice/11132025/index.js:167-176 | the second draft flags every pair the first one flags, and also a newer age exactly two minutes younger, which the first does not flag |
| `DraftComparison.CapitalisedAges` | QA-Engineer-Practice/082025/index.js:96 | a capitalised unit reads as 0 in the first draft, as null in the second and as its minutes in the third |
| `DraftComparison.MissingAgeDiffers` | QA-Engineer-Practice/082025/index.js:129-135 | a row without an age hides a violation in the first draft next to an age of at most two minutes, and is an unparseable violation in the third |
| `EpochCheck.ExtractEpoch` | qa_wolf_take_home/index.js:140-158 | an epoch results exactly for a present, non-empty title ending in a digit |
| `EpochCheck.EpochOfTitle` | qa_wolf_take_home/index.js:149-157 | a title ending in a non-digit followed by digits yields the base-10 value of those digits |
| `EpochCheck.TrailingRunIs` | qa_wolf_take_home/index.js:149 | the trailing run is the maximal run of class characters at the end |
| `EpochCheck.ExampleTitle` | qa_wolf_take_home/index.js:14 | `"2025-11-14T22:24:36 1763159076"` yields 1763159076 |
| `EpochCheck.ExampleEpochValue` | qa_wolf_take_home/index.js:157 | `parseInt("1763159076", 10)` is 1763159076 |
| `EpochCheck.Failures` | qa_wolf_take_home/index.js:143-153 | there are at most as many failed extractions as timestamps |
| `EpochCheck.FailuresZero` | qa_wolf_take_home/index.js:141-155 | no extraction failed exactly when every timestamp is present |
| `EpochCheck.FailuresNext` | qa_wolf_take_home/index.js:141-158 | pushing null adds one error, and pushing an epoch adds none |
| `EpochCheck.Titles` | qa_wolf_take_home/index.js:130-159 | a page contributes `min(m, links)` entries, each the extraction of its link's title |
| `EpochCheck.ReadTitles` | qa_wolf_take_home/index.js:130-159 | the capped inner loop appends the extractions of the first links up to `maxArticles`, and `errorCount` stays the number of nulls |
| `EpochCheck.CollectTimestamps` | qa_wolf_take_home/index.js:119-166 | the outer loop ends with exactly the collection of the specification: done, or thrown at an empty page or at a failed "More" click |
| `EpochCheck.CollectFromEnds` | qa_wolf_take_home/index.js:119-166 | the collection is done exactly when enough links are reachable, then it holds exactly `maxArticles` timestamps with `errorCount` nulls; otherwise it throws where reading stops |
| `EpochCheck.CollectFromTitle` | qa_wolf_take_home/index.js:130-158 | each collected timestamp is the extraction of the title at the same position in the stream of links |
| `EpochCheck.StopOfEmpty` | qa_wolf_take_home/index.js:125-127 | the "no timestamps" error is thrown only on a page with no links |
| `EpochCheck.CollectedEnds` | qa_wolf_take_home/index.js:119-166 | from page 1: done exactly when `maxArticles` links are reachable, then exactly 100 timestamps; a throw comes from the last page or from a page without links |
| `EpochCheck.CollectedTitles` | qa_wolf_take_home/index.js:130-158 | timestamp `j` is the extraction of link `j` in page order |
| `EpochCheck.EpochList` | qa_wolf_take_home/index.js:169 | the conversion keeps the length and the nulls, and scales each epoch by 1000 |
| `EpochCheck.Classify` | qa_wolf_take_home/index.js:177-193 | every pair falls in exactly one class: skipped with a null side, out of order when `current < next`, same minute when `0 <= current - next < 60000`, in order otherwise |
| `EpochCheck.EqualIsSameMinute` | qa_wolf_take_home/index.js:182-185 | equal timestamps are the same minute, not an error |
| `EpochCheck.ClassifySeconds` | qa_wolf_take_home/index.js:169-185 | on epochs scaled to milliseconds, out of order means a smaller epoch first, and same minute means less than 60 seconds apart |
| `EpochCheck.ClassesPartition` | qa_wolf_take_home/index.js:172-194 | the four class counts add up to the `n - 1` pairs |
| `EpochCheck.NoneOutOfOrder` | qa_wolf_take_home/index.js:182-184 | no out-of-order pair exactly when every present neighbour pair is non-increasing |
| `EpochCheck.CheckPairs` | qa_wolf_take_home/index.js:172-194 | the loop counts the same-minute pairs and adds the out-of-order pairs to `errorCount` |
| `EpochCheck.SortHackerNewsArticles` | qa_wolf_take_home/index.js:111-194 | the script either throws where the collection throws, or reports the same-minute count and `errorCount = failures + out-of-order pairs` |
| `EpochCheck.CleanRun` | qa_wolf_take_home/index.js:144-184 | the final error count is zero exactly when every timestamp was extracted and the epochs never increase |
| `EpochCheck.ScaleOrder` | qa_wolf_take_home/index.js:169 | scaling by 1000 keeps the order |
| `EpochTest.OrNull` | qa_wolf_take_home/tests/index.spec.js:33-35 | `\|\| null` gives null exactly for a missing or empty title, and keeps every other one |
| `EpochTest.OrNullSameEpoch` | qa_wolf_take_home/tests/index.spec.js:34-57 | `\|\| null` changes no extraction |
| `EpochTest.Attributes` | qa_wolf_take_home/tests/index.spec.js:33-35 | the batch read gives one attribute per span, with `\|\| null` applied |
| `EpochTest.TitlesOfAttributes` | qa_wolf_take_home/tests/index.spec.js:33-60 | extracting from the batch gives the same epochs as extracting from each span |
| `EpochTest.ReadPage` | qa_wolf_take_home/tests/index.spec.js:26-61 | a page contributes `min(attributes.length, maxArticles - collected)` entries, never exceeding `maxArticles`, each the extraction of its title, and `errorCount` counts the nulls |
| `EpochTest.CollectTimestamps` | qa_wolf_take_home/tests/index.spec.js:8-80 | the loops give the test's own collection: no age on page 1 fails the opening check, a page without age spans throws, each page's titles are read up to the cap, and while short a missing "More" link or a next page without ages fails the load-more step on the current page, with the count collected so far |
| `EpochTest.TestCollectFromAgrees` | qa_wolf_take_home/tests/index.spec.js:16-80 | given the same items to both programs, from a page that shows ages, the test finishes exactly when the script's collection does, with the same timestamps and error count; otherwise it fails loading more on the page where the script stops, or on the page before the empty page the script stops at, holding every reachable timestamp |
| `EpochTest.TestCollectedAgrees` | qa_wolf_take_home/tests/index.spec.js:8-80 | given the same items to both programs, from page 1: the test collects what the script collects and fails exactly when the script throws, at the opening check for an empty first page and otherwise at the load-more step; the `count === 0` throw is never reached |
| `EpochTest.EmptyNextPage` | qa_wolf_take_home/tests/index.spec.js:64-78 | one age on page 1 and an empty page 2: the script throws at page 2, the test fails loading more from page 1 with one timestamp |
| `EpochTest.FirstOutOfOrder` | qa_wolf_take_home/tests/index.spec.js:86-99 | the pair where the test fails is out of order and no earlier pair is; none is found exactly when no pair is out of order |
| `EpochTest.OrderVerdict` | qa_wolf_take_home/tests/index.spec.js:86-112 | the test passes exactly when there are no failures and no out-of-order pair; the count check fails exactly when failures remain with the order clean; a failed order check counts that pair |
| `EpochTest.OrderStep` | qa_wolf_take_home/tests/index.spec.js:96-99 | the first out-of-order pair ends the test with its error counted; any other pair keeps the order clean |
| `EpochTest.OrderClean` | qa_wolf_take_home/tests/index.spec.js:108-112 | with no out-of-order pair, the final `expect(errorCount).toBe(0)` decides |
| `EpochTest.ValidateOrder` | qa_wolf_take_home/tests/index.spec.js:85-112 | the validation loop gives the verdict of the specification |
| `EpochTest.ValidateHackerNewsOrder` | qa_wolf_take_home/tests/index.spec.js:4-113 | the whole test gives the verdict of the specification on the pages shown: aborted where its own collection fails, else the verdict of the validation loop |
| `EpochTest.TestAgreesWithScript` | qa_wolf_take_home/tests/index.spec.js:8-112 | given the same items to both programs, the test aborts exactly when the script throws: at its opening check on an empty first page, otherwise at a failed load-more step holding every reachable timestamp, on the script's last page or the page before the empty page where the script throws; it passes exactly when the script ends with zero errors, and then reports the same same-minute count |
| `EpochTest.TestPasses` | qa_wolf_take_home/tests/index.spec.js:96-112 | the test passes exactly when 100 titles are reachable, all of them yield an epoch, and the epochs never increase |
| `MergeStrings.Merged` | leetcode/2025/07-july/day-001-leetcode75-1768.Merge-Strings-Alternately.py:100-124 | the merge has length `len(word1) + len(word2)` |
| `MergeStrings.MergedAt` | leetcode/2025/07-july/day-001-leetcode75-1768.Merge-Strings-Alternately.py:108-112 | for `k < min`, position `2k` holds `word1[k]` and position `2k + 1` holds `word2[k]` |
| `MergeStrings.MergedDrop` | leetcode/2025/07-july/day-001-leetcode75-1768.Merge-Strings-Alternately.py:108-112 | after `k` pairs, the rest of the merge is the merge of the rests |
| `MergeStrings.MergedTail` | leetcode/2025/07-july/day-001-leetcode75-1768.Merge-Strings-Alternately.py:115-121 | after `2·min` characters the merge is `word1[m:] + word2[m:]`, and at most one of them is non-empty |
| `MergeStrings.FirstRestAt` | leetcode/2025/07-july/day-001-leetcode75-1768.Merge-Strings-Alternately.py:115-117 | the rest of `word1` follows the alternated part |
| `MergeStrings.SecondRestAt` | leetcode/2025/07-july/day-001-leetcode75-1768.Merge-Strings-Alternately.py:119-121 | the rest of `word2` closes the merge |
| `MergeStrings.MergeAlternately` | leetcode/2025/07-july/day-001-leetcode75-1768.Merge-Strings-Alternately.py:100-124 | the three index loops build the merge, with `result` the merge's prefix of length `i + j` throughout |
| `MergeStrings.Join` | leetcode/2025/07-july/day-003a-leetcode75-repeat-1768.Merge-Strings-Alternately.py:27 | joining no pieces gives the empty string |
| `MergeStrings.JoinAppend` | leetcode/2025/07-july/day-003a-leetcode75-repeat-1768.Merge-Strings-Alternately.py:16-27 | appending a piece appends it to the join |
| `MergeStrings.MergeAlternatelyPieces` | leetcode/2025/07-july/day-003a-leetcode75-repeat-1768.Merge-Strings-Alternately.py:9-27 | the list version builds the same merge as the index-loop version, for all inputs |
| `MergeStrings.MergedExample` | leetcode/2025/07-july/day-001-leetcode75-1768.Merge-Strings-Alternately.py:19-20 | `"abc"` and `"pqr"` merge to `"apbqcr"` |
| `GcdStrings.RepeatLength` | leetcode/2025/07-july/day-002-leetcode75-1071.Greatest_Common_Divisor_of_Strings.py:8 | `s` repeated `n` times has length `n·\|s\|` |
| `GcdStrings.RepeatAdd` | leetcode/2025/07-july/day-002-leetcode75-1071.Greatest_Common_Divisor_of_Strings.py:30-36 | repeating `a + b` times is repeating `a` times followed by `b` times |
| `GcdStrings.Gcd` | leetcode/2025/07-july/day-002-leetcode75-1071.Greatest_Common_Divisor_of_Strings.py:97-100 | the reference gcd by subtraction is positive unless both numbers are 0, and at most each positive number |
| `GcdStrings.GcdSymmetric` | leetcode/2025/07-july/day-002-leetcode75-1071.Greatest_Common_Divisor_of_Strings.py:97-100 | the gcd does not depend on the order of its arguments |
| `GcdStrings.GcdRemainder` | leetcode/2025/07-july/day-002-leetcode75-1071.Greatest_Common_Divisor_of_Strings.py:99 | replacing `a` by `a % b` keeps the gcd |
| `GcdStrings.EuclidStep` | leetcode/2025/07-july/day-002-leetcode75-1071.Greatest_Common_Divisor_of_Strings.py:99 | the step `a, b = b, a % b` keeps the gcd |
| `GcdStrings.GcdDivides` | leetcode/2025/07-july/day-002-leetcode75-1071.Greatest_Common_Divisor_of_Strings.py:97-100 | the gcd divides both numbers |
| `GcdStrings.GcdIsGreatest` | leetcode/2025/07-july/day-002-leetcode75-1071.Greatest_Common_Divisor_of_Strings.py:97-100 | every common divisor divides the gcd |
| `GcdStrings.EuclidGcd` | leetcode/2025/07-july/day-002-leetcode75-1071.Greatest_Common_Divisor_of_Strings.py:97-100 | the inner loop terminates, with `b` decreasing, and returns the gcd of its inputs |
| `GcdStrings.GcdPrefix` | leetcode/2025/07-july/day-002-leetcode75-1071.Greatest_Common_Divisor_of_Strings.py:94-105 | the answer is always a prefix of `str1` |
| `GcdStrings.GcdOfStrings` | leetcode/2025/07-july/day-002-leetcode75-1071.Greatest_Common_Divisor_of_Strings.py:91-105 | the solution returns "" when the strings do not commute, and otherwise the prefix of `str1` of length `gcd(len1, len2)` |
| `GcdStrings.DropCommonPrefix` | leetcode/2025/07-july/day-002-leetcode75-1071.Greatest_Common_Divisor_of_Strings.py:56 | a string that commutes with a shorter one starts with it, and the rest still commutes with it |
| `GcdStrings.CommutingPrefix` | leetcode/2025/07-july/day-002-leetcode75-1071.Greatest_Common_Divisor_of_Strings.py:56 | a short enough prefix of `a + b` is a prefix of `b` when the two commute |
| `GcdStrings.CommonPowers` | leetcode/2025/07-july/day-002-leetcode75-1071.Greatest_Common_Divisor_of_Strings.py:56 | two strings that commute are both repetitions of their common prefix of the gcd length |
| `GcdStrings.AnswerDivides` | leetcode/2025/07-july/day-002-leetcode75-1071.Greatest_Common_Divisor_of_Strings.py:30-36 | when the strings commute, the answer has length `g = gcd(len1, len2)`; repeated `len1/g` times it gives `str1`, and `len2/g` times it gives `str2` |
| `GcdStrings.AnswerIsLongest` | leetcode/2025/07-july/day-002-leetcode75-1071.Greatest_Common_Divisor_of_Strings.py:92-95 | strings with a common divisor commute, so for strings that do not commute, "" is right; no common divisor is longer than the answer |
| `GcdStrings.Examples` | leetcode/2025/07-july/day-002-leetcode75-1071.Greatest_Common_Divisor_of_Strings.py:108-122 | ("ABCABC", "ABC") gives "ABC", ("LEET", "CODE") gives "", ("ABC", "ABC") gives "ABC", ("A", "A") gives "A" |

## Left out

- Browser automation is not modelled. Launch, navigation, locators, clicks and waits are left out. Each page's raw texts or titles are given as a sequence of pages, and a "More" link is present on every page but the last.
- The dashboard server, the HTML reports, `server.js` and the module-level `dashboardData` are not modelled. They are progress reporting and presentation.
- File writes, `logError`'s persistence, console output, `openInBrowser` and `process.exit` are not modelled. `logError` inside the third draft's `parseTimeToMinutes` is a no-op here.
- The retry and relaunch loops are not modelled: `scrapeArticlesWithRetry` in `QA-Engineer-Practice/082025/index.js` and the attempt loop of `QA-Engineer-Practice/11132025/index.js`. They repeat real I/O after delays. When `scrapeArticlesWithRetry` throws inside the third draft's collector, the loop ends as it does at an empty page; that path is not modelled separately.
- Exceptions thrown by Playwright inside the per-row `try`/`catch` are not modelled. A row without an age element is the `None` item of its page. The first draft then stores its placeholder and the third stores null.
- `Date.now()` is not modelled: the collection time is a parameter.
- `new Date(t * 1000).getTime()` is modelled as `t * 1000`. An epoch so large that `Date` gives `NaN` is not modelled.
- `parseInt` is exact on unbounded integers. Digit strings beyond 2^53, where JavaScript numbers lose precision, are not modelled.
- `ConfidenceDraft.ConfidenceAsWritten` and `ConfidenceDraft.Confidence` are fractions `num/den`, not the `toFixed(1)` string: the floating-point rounding is not modelled.
- Violation messages (`issue`, `detail`, `precisionFlag` texts) are modelled by the position they name and the precision flag, not by their wording.
- The tutorials under `QA-Engineer-Practice/QA_wolf_practice/` and the commented-out duplicates of the dashboard drafts are not part of this model.
- `EpochTest.TestAgreesWithScript`, `EpochTest.TestCollectedAgrees` and `EpochTest.TestCollectFromAgrees` give the script and the test the same items, and so hold only on pages where no link other than the ages has "ago" in its name. The script reads the `title` of the parent of every link whose accessible name contains "ago" (`qa_wolf_take_home/index.js:121-135`); the test reads the `title` of each `span.age` (`qa_wolf_take_home/tests/index.spec.js:17-35`). A story, site or user link such as "Chicago" is one more item for the script only: its parent has no `title`, so the script pushes null, counts an error and counts it toward the 100, and the test never sees it.
- `GcdStrings.AnswerDivides`: requires a non-empty `str1`, as the problem's constraints do. With `str1 == ""` the Python slice returns "", which is not a divisor of a non-empty `str2`.

## Findings

| source | as written | input that shows it | evidently intended | confidence | as-written member | corrected member |
|---|---|---|---|---|---|---|
| QA-Engineer-Practice/11132025/index.js:189-191 | confidence is `(scoring - outOfOrder)/scoring·100` with `scoring = validTimestamps - highRiskArticles`, but out-of-order pairs can involve high-risk articles, so `outOfOrder` can exceed `scoring` | five minute ages `hi, mid, mid, lo, lo`, each gap above one minute (say 10, 5, 5, 1, 1): four articles are high-risk, so `scoring = 1`, and two pairs are out of order, so the score is -100 | a percentage between 0 and 100 | high, not executed | `ConfidenceDraft.NegativeConfidence` | `ConfidenceDraft.Confidence` |

`ConfidenceDraft.ValidateSortingWithConfidence` reports the score as written, as the draft does; `ConfidenceDraft.Confidence` is the corrected score, proved to lie in 0..100 and to equal the written score whenever that one is in range.
