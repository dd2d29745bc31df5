# Product social sensing — a Dafny model of the backend core

The backend finds the Reddit communities where a product is discussed and
stores them as "source channels". It then ingests the comments that mention
the product from the best channels and has a language model label each
comment's sentiment. Finally it builds the filters of a semantic comment
search. This project models that core as pure functions over immutable
values and proves properties about it:

- **Discovery** (`discovery_service.py`, `alias_helper.py`): candidate
  subreddits and queries are parsed from the model's comma-separated
  replies. Every subreddit and query is fetched through a tool gateway,
  and the submission list is unwrapped from whatever shape the gateway
  returns. Each accepted submission is counted towards its subreddit. The
  per-subreddit tallies are finalised into a composite score and ranked.
- **Reddit client** (`reddit_service.py`): the PRAW-based discovery variant.
  Comment fetching for one product in one subreddit: two search passes,
  de-duplicated by submission id, with a cap on the comments taken per
  submission.
- **Store** (`database.py`): the comment table and the two candidate
  source-channel tables, with insert, delete, update and filtered select.
  The model covers the readers of the best channel and the best channels,
  and the delete-then-insert replacement of the source channels with its
  fall-through to the second table name.
- **Ingestion** (`ingestion_service.py`, `routers/ingestion.py`): resolving
  the product list from a request body, the global wipe, and then per
  product a delete, a choice of subreddits, the fetch and the inserts.
- **Analysis** (`analysis_service.py`): normalising percentage triads to
  100, classifying by net score, and the skip/update pass over recent rows.
- **Routes** (`routers/discovery.py`, `routers/qa.py`): the `/discover`
  endpoint, and the search filter and ask-limit defaults of `/qa`.

Modules:

| module | file | role |
|---|---|---|
| `PyText` | `pytext.dfy` | Python `str.strip`, `lstrip(chars)`, `split`, slicing, list comprehensions, `int()`/`float()` on strings, `str()` of integers |
| `Json` | `json.dfy` | decoded JSON values, truthiness, `or`, `dict.get`, `float()`/`int()` conversions |
| `Ranking` | `ranking.dfy` | the stable descending sort behind `sorted(..., reverse=True)` |
| `Channels` | `channels.dfy` | per-subreddit tallies, finalising and ranking |
| `Alias` | `alias.dfy` | parsing the model's suggestions |
| `Discovery` | `discovery.dfy` | gateway-based discovery |
| `Reddit` | `reddit.dfy` | PRAW-based discovery and comment fetching |
| `Database` | `database.dfy` | the store |
| `Ingestion` | `ingestion.dfy` | one ingestion run |
| `Analysis` | `analysis.dfy` | sentiment post-processing |
| `IngestionRoutes`, `DiscoveryRoutes`, `QaRoutes` | `routes_*.dfy` | the endpoints |

All external services are parameters of the model:

- The language model is `string -> Json` for analysis, where `JNull`
  stands for a call or decoding that raised. For suggestions it is an
  `Alias.Reply`: the reply content, or `Raised` when the call raised.
- The tool gateway is `Call -> Option<Json>`, where `None` means the call
  raised.
- PRAW searches are functions returning a `Listing` (the items yielded
  before the iteration stopped, and whether it stopped by raising).
- The store is a value: named tables of rows, the next identity value, a
  set of `(table, operation)` pairs that fail, and whether deletes report
  a row count.
- The clock enters as `now`; with the configured lookback it gives the cut-off timestamp `earliest`.
- `str()` of floats, lists and dicts is a rendering parameter.

Two behaviours of the code are easy to misread:

- The per-channel metrics do not depend on the order of the submissions
  (`Channels.MetricsIgnorePermutation`). The ranking does: channels with
  equal scores keep the order in which they were first met
  (`Channels.RankingDependsOnOrder`, `Channels.TieKeepsFirst`).
- Rows are analysed one after another. An exception from the model reply
  or from `int(cid)` ends the pass, and later rows are not analysed
  (`Analysis.AnalyzeRecentComments`).

## Model

| member | source | states |
|---|---|---|
| PyText.Strip | api/app/services/alias_helper.py:53 | a non-empty stripped string neither starts nor ends with Python whitespace, and is no longer than the input |
| PyText.Split | api/app/services/alias_helper.py:40 | `split` always yields at least one piece, and no piece contains the separator |
| PyText.StripIsInfix | api/app/services/alias_helper.py:53 | the stripped text occurs in the input at the offset of the first non-space, and what surrounds it is all whitespace |
| PyText.StripEmptyIff | api/app/routers/ingestion.py:33 | a string strips to empty exactly when every character is Python whitespace, so the blank test of the list comprehensions is "all whitespace" |
| PyText.StripIdempotent | api/app/routers/discovery.py:20 | stripping twice equals stripping once, so already-cleaned products are not changed by a second cleaning |
| PyText.LStripChars | api/app/services/alias_helper.py:40 | `lstrip(chars)` removes the longest prefix made only of characters of the set; the rest starts with a character outside the set |
| PyText.JoinSplit | api/app/services/alias_helper.py:40 | splitting on a separator and joining the pieces again gives back the text |
| PyText.SplitJoin | api/app/services/alias_helper.py:40 | splitting a join of separator-free pieces gives back the pieces |
| PyText.Prefix | api/app/services/alias_helper.py:41 | Python slicing `[:n]`: a prefix of length `min(n, len)` for `n >= 0` and `len + n` (floored at 0) for negative `n` |
| PyText.Trimmed | api/app/routers/ingestion.py:33 | the comprehension `[s.strip() for s in xs if s.strip()]` yields only non-blank, already-stripped strings, no more than the input |
| PyText.TrimmedMembers | api/app/routers/discovery.py:20 | every kept element is the strip of some input element, and every input that is not blank after stripping is kept |
| PyText.TrimmedOfClean | api/app/routers/discovery.py:20 | a list of stripped non-blank strings is returned unchanged by the comprehension |
| PyText.FlatMapAppend | api/app/services/ingestion_service.py:48-50 | extending a list part by part is the same over a concatenation as concatenating the two results |
| PyText.ParseShowInt | api/app/routers/ingestion.py:33 | `int(str(i)) == i` for every integer, so integers pass through `str()` without loss |
| PyText.ParseIntAgreesWithFloat | api/app/services/discovery_service.py:51-61 | a string that `int()` accepts is accepted by `float()` with the same value |
| Json.PyFloat | api/app/services/discovery_service.py:51-55 | `float()` fails exactly on null, lists, dicts and strings that are not decimal literals; booleans give 1.0 or 0.0, numbers their value, and strings the value of the literal after stripping whitespace |
| Json.PyInt | api/app/services/discovery_service.py:57-61 | `int()` fails exactly on null, lists, dicts and strings that are not integer literals; a float is truncated toward zero, and a string gives the value of its integer literal after stripping whitespace |
| Json.Trunc | api/app/services/discovery_service.py:57-61 | `int()` of a float truncates toward zero: the result is the integer within distance 1 of the value on the zero side |
| Json.PyIntIsTruncatedFloat | api/app/services/discovery_service.py:51-61 | whenever `int(v)` succeeds, so does `float(v)`, and the integer is its truncation |
| Ranking.SortDescSorted | api/app/services/discovery_service.py:188 | `sorted(..., key, reverse=True)` yields keys in non-increasing order |
| Ranking.SortDescPermutes | api/app/services/discovery_service.py:188 | the sort is a permutation of its input (same multiset) |
| Ranking.SortDescStable | api/app/services/discovery_service.py:188 | the sort is stable: the elements with any one key keep their input order |
| Ranking.SortDescOfSorted | api/app/services/discovery_service.py:188 | an input already in descending key order comes back unchanged |
| Ranking.TopOf | api/app/database.py:185-186 | the first `n` after sorting are sorted, drawn from the input, and no element left out has a higher key than one kept |
| Ranking.SortDescDistinct | api/app/database.py:185-186 | sorting keeps the elements pairwise distinct under any projection under which they were distinct |
| Channels.Bump | api/app/services/discovery_service.py:63-76 | adding a mention to an accumulator with distinct channel ids keeps them distinct; the entry of that channel is incremented (one mention, its score, its comments) or appended fresh with `r/<name>`; every other entry is unchanged |
| Channels.FoldClosedForm | api/app/services/discovery_service.py:137-176 | folding a sequence of mentions gives one entry per distinct channel, in first-mention order, holding that channel's mention count, score sum and comment sum |
| Channels.DistinctMembers | api/app/services/discovery_service.py:63-72 | a channel gets an entry exactly when it is mentioned at least once; an unmentioned channel has zero sums |
| Channels.MetricsIgnoreOrder | api/app/services/discovery_service.py:63-76 | swapping two adjacent mentions leaves every channel's metrics unchanged |
| Channels.MetricsIgnorePermutation | api/app/services/discovery_service.py:137-176 | any two mention streams with the same multiset of mentions give every channel the same count, score sum and comment sum |
| Channels.Finalize | api/app/services/discovery_service.py:178-186 | the average is the score sum over `max(mentions, 1)` and the composite is 0.6·mentions + 0.2·average + 0.2·comments |
| Channels.RankProperties | api/app/services/discovery_service.py:178-188 | the ranking is sorted by score, holds `min(max, count)` channels drawn from the finalised ones, and keeps equal scores in accumulator order |
| Channels.RankMeasured | api/app/services/discovery_service.py:136-188 | every ranked channel reports exactly its mention count (at least 1), average score and comment sum over the mention stream, and a composite consistent with them |
| Channels.WorkedExample | api/app/services/discovery_service.py:178-186 | three mentions of one subreddit with scores 10, 20 and 30 and 1, 2 and 3 comments finalise to average 20 and composite 7.0 |
| Channels.RankingDependsOnOrder | api/app/services/discovery_service.py:188 | two channels with equal metrics rank in first-mention order, so reordering the submissions changes the ranking |
| Channels.TieKeepsFirst | api/app/services/discovery_service.py:188 | of two channels with equal score and comments, the first mentioned ranks first |
| Alias.ParseSubreddits | api/app/services/alias_helper.py:39-41 | at most 8 names, none starting with `r` or `/` |
| Alias.SubredditsFromPieces | api/app/services/alias_helper.py:39-41 | the names are the non-blank comma pieces, stripped and cleared of leading `r`/`/`, the first 8 in order |
| Alias.ParseQueries | api/app/services/alias_helper.py:52-54 | at most 5 queries, each non-blank and already stripped |
| Alias.EmptyReply | api/app/services/alias_helper.py:39 | an empty or missing reply gives no subreddits and no queries |
| Alias.StripIsCharacterSet | api/app/services/alias_helper.py:40 | `lstrip("r/")` removes a character set, not a prefix: `rust` becomes `ust` |
| Alias.BlankAfterStrip | api/app/services/alias_helper.py:40 | a piece that is non-blank before the prefix removal can be empty after it: ` r/ ` yields an empty name |
| Alias.QueriesRoundTrip | api/app/services/alias_helper.py:52-54 | up to 5 clean queries joined by commas are parsed back exactly |
| Alias.SubredditsRoundTrip | api/app/services/alias_helper.py:39-41 | up to 8 clean names not starting with `r` or `/`, joined by commas, are parsed back exactly |
| Discovery.Earliest | api/app/services/discovery_service.py:26-48 | the cut-off is `now` minus `max(lookback, 1)` days of 86400 seconds, so at least one day before now whatever the configured lookback; `Discovery.DiscoverReddit` filters submissions with this cut-off |
| Discovery.DictsOfMembers | api/app/services/discovery_service.py:79-80 | the list comprehension keeps exactly the dict elements of a list |
| Discovery.ExtractSubmissions | api/app/services/discovery_service.py:78-98 | a bare list yields exactly its dict elements; a value that is neither a list nor a dict yields nothing |
| Discovery.ExtractSubmissionsQueue | api/app/services/discovery_service.py:78-98 | the queue-based breadth-first unwrap returns the dicts of the first list met in breadth-first order over the keys `items`, `results`, `data`, `submissions`, `value` (the level-wise reference `Search`), the dicts of a bare list, and nothing for other values |
| Discovery.QueueFindsList | api/app/services/discovery_service.py:86-89 | when the first list of a level is at position `i`, the search returns its dicts |
| Discovery.QueueStep | api/app/services/discovery_service.py:86-97 | popping a non-list and appending its children keeps the queue equal to the rest of the level followed by the next level, and strictly lowers the queue's weight |
| Discovery.ResolveSubredditName | api/app/services/discovery_service.py:100-110 | a resolved name is never empty; a non-empty string `subreddit` is used as is; a non-empty fallback guarantees a name |
| Discovery.NamePrecedence | api/app/services/discovery_service.py:101-105 | in a subreddit object, `display_name` wins over `name`, which wins over `id`; a truthy non-string `display_name` falls through to the fallback |
| Discovery.NoNameWithoutFallback | api/app/services/discovery_service.py:106-110 | without a usable `subreddit` value and without a fallback there is no name |
| Discovery.CreatedAfterThreshold | api/app/services/discovery_service.py:112-120 | a submission is rejected exactly when its creation time converts to a float below the cut-off; a missing or unconvertible time keeps it |
| Discovery.CreatedFallsBack | api/app/services/discovery_service.py:113 | a falsy `created_utc` (including 0) defers to `created` |
| Discovery.BadNumbersCountZero | api/app/services/discovery_service.py:75-76 | an unconvertible score counts 0.0, and an unconvertible `num_comments` (or, when absent, `comments`) counts 0 |
| Discovery.DiscoveryBump | api/app/services/discovery_service.py:63-76 | a submission adds one mention, its converted score and its converted comment count to its subreddit's entry, creating it when missing; other entries are unchanged |
| Discovery.MentionsOfExactly | api/app/services/discovery_service.py:150-155 | a submission contributes a mention exactly when it has a name and is recent enough, and every mention comes from such a submission |
| Discovery.SubredditSubmissions | api/app/services/discovery_service.py:140-149 | a subreddit's submissions come from `list_new` when that yields any, and otherwise from a `search` with the neutral query |
| Discovery.FetchSubmissions | api/app/services/discovery_service.py:122-134 | the first action that does not raise decides the result; if all raise, the result is empty |
| Discovery.CallBudget | api/app/services/discovery_service.py:140-168 | a run makes at most 2·20 + 5 gateway calls |
| Discovery.MeasureSync | api/app/services/discovery_service.py:136-188 | the ranking is sorted by score, holds at most the configured maximum, and every entry is measured exactly over the mentions of the run |
| Discovery.MeasureSyncDependsOnCalls | api/app/services/discovery_service.py:136-188 | two gateways that agree on the calls a run makes give the same ranking, so the result depends on nothing else the gateway could answer |
| Discovery.MeasureSyncProperties | api/app/services/discovery_service.py:136-188 | the result is sorted by score, at most the configured maximum, at most one entry per mentioned channel, and every entry is measured exactly over the mentions of the run |
| Discovery.NeutralQuery | api/app/services/discovery_service.py:49 | the neutral query is never empty: the first product when non-empty, otherwise `*` |
| Discovery.DiscoverReddit | api/app/services/discovery_service.py:40-45 | the call fails exactly when one of the two model calls raised, configured gateway or not; otherwise it is empty without a gateway and, with one, exactly the measured ranking over the parsed subreddit and query suggestions, the neutral query of the products and the cut-off `Earliest(now, lookbackDays)`; it is always sorted by score and within the maximum |
| Discovery.Discover | api/app/services/discovery_service.py:196-200 | a failure of the Reddit discovery propagates; otherwise the result has exactly the platform key `reddit`, holding the Reddit result |
| Reddit.Taken | api/app/services/reddit_service.py:42 | a search limited to `n` yields a prefix of at most `n` of the listing's items |
| Reddit.SearchFailureIsolated | api/app/services/reddit_service.py:40-58 | a product whose search yields nothing adds nothing, and the others contribute as if it were absent |
| Reddit.ProductMentionsBound | api/app/services/reddit_service.py:40-56 | the search contributes at most 50 mentions per product |
| Reddit.DiscoverSync | api/app/services/reddit_service.py:36-75 | the PRAW discovery ranking is sorted by score, holds at most the configured maximum, and every entry is measured exactly over the search hits |
| Reddit.DiscoverSyncProperties | api/app/services/reddit_service.py:36-75 | the PRAW discovery result holds exactly `min(MAX_DISCOVERY_RESULTS, n)` channels, where n is the number of distinct subreddits the search hits mention; a negative maximum drops that many from the end, as the slice `[:MAX_DISCOVERY_RESULTS]` does |
| Reddit.TargetSubreddit | api/app/services/reddit_service.py:91 | the search target is the given subreddit when non-empty, else `all` |
| Reddit.BrandName | api/app/services/reddit_service.py:119 | the brand is the product when non-empty, else `unknown` |
| Reddit.CommentRowsExactly | api/app/services/reddit_service.py:113-126 | each row has exactly the five modelled fields, the product's brand and name, a non-empty body and the thread title; every comment with a body yields its row |
| Reddit.SubmissionRowsBound | api/app/services/reddit_service.py:108-129 | one submission contributes at most the per-submission cap of rows, each a well-formed row of its title |
| Reddit.Dedup | api/app/services/reddit_service.py:100-107 | handling keeps at most the submissions given, and the seen-id set only grows |
| Reddit.DedupSpec | api/app/services/reddit_service.py:102-107 | handled submissions have pairwise distinct ids not seen before; submissions without id are all handled; a dropped one has an id already seen; the seen set grows by exactly the ids met |
| Reddit.DedupAppend | api/app/services/reddit_service.py:100-134 | de-duplicating two passes in turn with the shared seen set equals de-duplicating their concatenation |
| Reddit.GetCommentsForProduct | api/app/services/reddit_service.py:79-144 | for a non-negative cap there are at most `2·5·cap` rows, each a well-formed row of the product from some thread |
| Reddit.GetCommentsForProductSpec | api/app/services/reddit_service.py:79-144 | the rows are those of the de-duplicated submissions of both passes (at most 10 submissions), with no submission id handled twice, at most cap rows per submission, each a well-formed row |
| Reddit.DefaultsToAll | api/app/services/reddit_service.py:91 | no subreddit or an empty one searches `all` |
| Database.WhereMembers | api/app/database.py:84 | an equality or inequality filter selects exactly the rows whose column is present, non-null and matches; the rest are the complement |
| Database.WhereNotSelects | api/app/database.py:202 | after deleting the rows a filter matches, none matches and a second delete removes nothing |
| Database.SelectWhere | api/app/database.py:133 | a select fails exactly when the table fails; otherwise it returns the first up-to-200 matching rows in table order |
| Database.FillDefaults | api/app/database.py:21-26 | a falsy `brand_name` becomes `unknown`, a missing `comment_sentiment` becomes the empty string, and all other fields are kept |
| Database.InsertComment | api/app/database.py:17-35 | the insert reports success exactly when the comment table accepts inserts; a failed insert changes nothing |
| Database.InsertCommentSpec | api/app/database.py:17-35 | a successful insert appends exactly the defaulted row with the next id and touches nothing else; a failed one changes nothing and reports false |
| Database.DeleteCommentsForProduct | api/app/database.py:81-92 | the rows kept are exactly those whose `product_name` differs from the product; a failing delete changes nothing and reports 0 |
| Database.DeleteAllComments | api/app/database.py:94-104 | the rows kept are exactly those without id or with id -1 |
| Database.DeleteAllEmpties | api/app/database.py:97 | when every row has an assigned non-negative id, deleting all empties the table |
| Database.UpdateCommentFields | api/app/database.py:106-120 | the rows with the id get the fields merged in, others are unchanged; a failing update changes nothing and reports false |
| Database.UpdateReadsBack | api/app/database.py:112-113 | after an update the row with the id reads back each updated field, and any other row is unchanged |
| Database.RecentCommentsSpec | api/app/database.py:69-79 | the recent rows are the `limit` newest rows of the table by timestamp, in descending order, none left out newer than one kept |
| Database.MetaScoreDefaults | api/app/database.py:138-143 | a falsy `meta_data`, or a score that does not convert, scores 0.0 |
| Database.FirstMax | api/app/database.py:144 | `max` picks the first row of maximal score |
| Database.GetTopRedditChannel | api/app/database.py:122-151 | a returned channel is a non-empty `channel_id` of a Reddit row that one of the two source tables returns |
| Database.TopChannelFirstTable | api/app/database.py:130-147 | when the first table has reddit rows, the answer is the first best row's id if that is a non-empty string |
| Database.TopChannelFallsBack | api/app/database.py:131-136 | a failing or empty first table defers to the second table name |
| Database.TopChannelSkipsBadId | api/app/database.py:144-151 | a first table whose best row has no non-empty string `channel_id` also defers to the second table name |
| Database.TopChannelNoneWhenUnreadable | api/app/database.py:130-151 | when neither table can be read there is no top channel |
| Database.ScanRowsSpec | api/app/database.py:167-177 | the scan keeps each non-empty string id once, skips ids already seen, and pairs each with the converted score of a row that carries it |
| Database.GetTopRedditChannels | api/app/database.py:153-188 | the ids are non-empty, pairwise distinct and at most `max(limit, 0)`; no candidates give no ids |
| Database.TopChannelsSpec | api/app/database.py:153-188 | the answer is the ids of the `limit` best-scored candidates from both tables, sorted by score, distinct, non-empty, none left out scoring higher than one kept |
| Database.ReplaceSourceChannels | api/app/database.py:190-238 | without an error summary every channel counts as inserted; with one nothing counts as inserted and both tables count an error; tables other than the two source tables, the table names and the failures are untouched |
| Database.ReplaceFirstTable | api/app/database.py:199-232 | when the first table accepts delete and insert, its platform rows are replaced by exactly the new rows, its other rows are kept, other tables are untouched, and all rows count as inserted |
| Database.ReplaceSkipsFailedDelete | api/app/database.py:233-236 | a failing delete on the first table counts one error and tries the second table |
| Database.ReplaceKeepsDeleteBeforeFailedInsert | api/app/database.py:202-226 | an insert failing after a successful delete leaves the first table without the platform's rows |
| Database.ReplaceWithNothing | api/app/database.py:223-224 | replacing with no channels deletes the platform's rows and returns without error |
| Database.ReplaceAllFail | api/app/database.py:237-238 | when both tables fail to delete, nothing changes and the summary counts two errors |
| Database.ReplaceIdempotent | api/app/database.py:190-238 | replacing twice with the same channels leaves the store as replacing once |
| Database.SelectAfterReplace | api/app/database.py:133 | after a replacement of up to 200 channels, the reddit rows read back from the first table are exactly the new rows, in order |
| Database.TopChannelAfterReplace | api/app/database.py:122-151 | after replacing with scored channels, the top-channel read names a channel of the highest stored score |
| Ingestion.Subreddits | api/app/services/ingestion_service.py:39-43 | the top channels when there are any; otherwise the single top channel, or `all` when there is none; never empty |
| Ingestion.SubredditsSpec | api/app/services/ingestion_service.py:39-43 | the subreddits consulted are non-empty, distinct and at most `max(limit, 1)` |
| Ingestion.Fetch | api/app/services/ingestion_service.py:47-50 | with a non-negative cap, every row fetched from any of the subreddits carries the product's name and no id |
| Ingestion.InsertAllCounts | api/app/services/ingestion_service.py:54-61 | when inserts succeed every row counts as inserted and ids advance by the row count |
| Ingestion.InsertAllFails | api/app/services/ingestion_service.py:54-61 | when inserts fail every row counts as failed and the store is unchanged |
| Ingestion.InsertAllAppends | api/app/services/ingestion_service.py:56-61 | the rows appended are the defaulted fetched rows, in order, with consecutive ids |
| Ingestion.IngestProduct | api/app/services/ingestion_service.py:32-63 | inserted plus failed equals fetched; only the comment table changes |
| Ingestion.IngestCounts | api/app/services/ingestion_service.py:54-63 | inserted plus failed equals fetched; with store failures fixed per table and operation, every row is inserted when the comment table accepts inserts and every row fails when it does not |
| Ingestion.IngestReplacesProductRows | api/app/services/ingestion_service.py:32-63 | after one product's ingestion, its rows in the comment table are exactly the newly fetched ones, every other product's rows are kept, and other tables are untouched |
| Ingestion.IngestAll | api/app/services/ingestion_service.py:25-30 | one report per product, each with inserted plus failed equal to fetched; only the comment table changes |
| Ingestion.IngestAllFrom | api/app/services/ingestion_service.py:25-30 | ingesting products one by one keeps the comment table holding rows of the listed products only |
| Ingestion.RunOnce | api/app/services/ingestion_service.py:17-23 | the wipe and the per-product passes give one report per product and change only the comment table |
| Ingestion.RunOnceReplacesTable | api/app/services/ingestion_service.py:17-23 | after a run, every row in the comment table belongs to one of the products of the run |
| Ingestion.RunOnceWithoutProducts | api/app/services/ingestion_service.py:17-23 | a run with no products only empties the comment table |
| Analysis.FixTo100 | api/app/services/analysis_service.py:85-99 | the result sums to 100; a triad already summing to 100 is unchanged; otherwise only the first largest component moves |
| Analysis.FixTo100Ties | api/app/services/analysis_service.py:90-91 | ties for the largest go to the earlier component |
| Analysis.FixTo100NotClamped | api/app/services/analysis_service.py:89-98 | components are not clamped: 100/100/100 becomes -100/100/100 |
| Analysis.FixTo100Idempotent | api/app/services/analysis_service.py:85-99 | normalising twice equals normalising once |
| Analysis.ClassifyFromNet | api/app/services/analysis_service.py:102-112 | negative exactly when the net is below 40, neutral exactly when it is from 40 to 60, positive exactly above 60 |
| Analysis.ClassifyMonotone | api/app/services/analysis_service.py:102-112 | more positive or less negative never lowers the label |
| Analysis.AnalyzeReply | api/app/services/analysis_service.py:138-154 | a reply is accepted exactly when it is an object with all seven keys and six integer-convertible percentages; the result has the three analysis fields, the attribute passed through, and each label is the classification of its triad normalised to 100 |
| Analysis.ReplyClassifiedAsGiven | api/app/services/analysis_service.py:140-148 | a reply whose triads already sum to 100 is classified on its own numbers |
| Analysis.ReplyNormalisedFirst | api/app/services/analysis_service.py:140-148 | triads are normalised before classifying: 50/0/0 is labelled positive, and 0/100/0 negative |
| Analysis.StepSpec | api/app/services/analysis_service.py:166-176 | a row is skipped exactly when its id is falsy or its stripped comment is empty; an updated row has a truthy id converted with `int()` and the three analysis fields |
| Analysis.RunSteps | api/app/services/analysis_service.py:164-178 | the pass completes exactly when no row raises; then updated plus skipped equals scanned equals the row count and the updates are those of the rows, in order; otherwise the updates are those before the first raising row |
| Analysis.AnalyzeRecentComments | api/app/services/analysis_service.py:156-178 | the same for the actual row step: the skipped count is the number of rows with a falsy id or blank text |
| Analysis.UpdatesOfMembers | api/app/services/analysis_service.py:172-176 | each requested update comes from a processed row with that id and the three analysis fields |
| Analysis.SkipIgnoresModel | api/app/services/analysis_service.py:169-171 | a skipped row never reaches the model: the step is the same whatever the model answers |
| IngestionRoutes.IngestProducts | api/app/routers/ingestion.py:26-38 | the resolved products are never empty and each is non-blank and stripped |
| IngestionRoutes.DefaultsWithoutList | api/app/routers/ingestion.py:29-32 | no body, a non-dict body, or a `products` value that is not a list gives the defaults |
| IngestionRoutes.DefaultsForBlankList | api/app/routers/ingestion.py:33-35 | a list whose elements are all blank once stringified gives the defaults |
| IngestionRoutes.CleanListRoundTrip | api/app/routers/ingestion.py:31-33 | a list of clean product names comes back unchanged from both endpoints |
| IngestionRoutes.ProductsFromList | api/app/routers/ingestion.py:33 | each resolved product is the stripped string of some listed element, unless the defaults were used |
| IngestionRoutes.StartReadsSources | api/app/routers/ingestion.py:64 | `/start` reads `products` when it is truthy and otherwise reads `sources` as if it were `products` |
| IngestionRoutes.IngestSources | api/app/routers/ingestion.py:26-49 | the response is `completed` with the resolved, non-empty product list, and the store is the one a run over exactly those products leaves |
| IngestionRoutes.IngestSourcesStart | api/app/routers/ingestion.py:51-74 | the same for `/start`: `completed` with its resolved products, and the store a run over them leaves |
| IngestionRoutes.IngestAnswersWhatRan | api/app/routers/ingestion.py:45-49 | after `/ingest` the comment table holds only rows of the products the response lists |
| DiscoveryRoutes.DiscoverProducts | api/app/routers/discovery.py:16-37 | the request is rejected with 400 exactly when no product is left after stripping; it fails with 500 and an unchanged store exactly when products remain and a model call raised; otherwise the response has the key `reddit` |
| DiscoveryRoutes.RejectsOnlyBlank | api/app/routers/discovery.py:16-22 | rejection happens exactly when every product is blank |
| DiscoveryRoutes.RespondsWithDiscovery | api/app/routers/discovery.py:25 | when discovery does not fail, the response is its result on the cleaned products, sorted by score and within the maximum |
| DiscoveryRoutes.StoresOnlyFindings | api/app/routers/discovery.py:28-30 | when Reddit finds nothing the store is unchanged |
| DiscoveryRoutes.DiscoveredTopIsReadBack | api/app/routers/discovery.py:28-30 | after storing discovered channels, the top-channel read names a channel with the highest discovered score |
| QaRoutes.WhereFilter | api/app/routers/qa.py:51-66 | there is a filter exactly when a brand or a product is given |
| QaRoutes.WhereFilterShape | api/app/routers/qa.py:51-66 | a single condition is the bare `Equal` operand; two are wrapped in `And`, brand first |
| QaRoutes.WhereFilterRoundTrip | api/app/routers/qa.py:51-66 | reading the conditions back from the filter gives exactly the requested field/value pairs, in order |
| QaRoutes.SearchComments | api/app/routers/qa.py:68-69 | the response echoes the query, returns the search results unchanged and counts them |
| QaRoutes.AskLimit | api/app/routers/qa.py:35 | a missing or zero limit becomes 5, any other value is kept |

## Left out

- External services are parameters and their internals are not modelled:
  the OpenAI client and its prompts, the PRAW and asyncpraw clients, the
  Supabase client, the Weaviate service and the Gate22 gateway client.
  A call that raises appears as the raised outcome of its oracle:
  `Alias.Reply.Raised`, `None` from the gateway, `JNull` from the analysis
  model, or a `Listing` that stops by raising.
- `weaviate_service.py`, `aci_mcp_client.py`, `main.py`, `models.py`,
  `config.py` and the comments, analysis and health routers are not part of
  this model beyond the constants they supply.
- `/qa/ask`, `/qa/sync` and `/qa/stats`: they only delegate to the Weaviate
  service. Only the ask limit's default is modelled.
- Asynchronous execution and worker threads are left out: every operation is
  sequential, as the code awaits each step in turn.
- Logging and `print` are left out, because they do not affect results.
- The clock is a parameter: `time.time()` enters as `now`, which
  `Discovery.DiscoverReddit` turns into the cut-off through `Discovery.Earliest`.
  The lookback setting `DISCOVERY_LOOKBACK_DAYS` is a parameter too; its
  environment lookup and `int()` parse are not modelled.
- Floating point is modelled by exact reals. Rounding in the average and in
  the composite score is not modelled.
- `Json.PyFloat`, `Json.PyInt`: string conversion covers decimal literals
  with an optional sign, digits and one optional point, after whitespace
  stripping. Exponents, `inf`, `nan` and digit underscores are read as
  unconvertible.
- `IngestionRoutes.Str`: `str()` of floats, lists and dicts is a rendering
  parameter, not Python's `repr`.
- `Discovery.ExtractSubmissionsQueue`: the identity-based `seen` guard is
  left out. Decoded JSON values are trees with no sharing, so the guard
  never fires.
- `Database.GetRecentComments`: the timestamp ordering is a key parameter
  `stamp`. Ordering by the ISO text is not modelled.
- The comment timestamp (`datetime.fromtimestamp(...).isoformat()`) is left
  out of fetched comment rows, because it is a formatting of the clock.
  `Reddit.CommentRowsExactly` therefore states five fields.
- Select returns rows in table order: the store has no ordering beyond
  insertion.
- `Database.ReplaceFirstTable`: the `inserted` count is the number of rows
  sent. The client's returned data is not modelled.
- Ingestion.IngestCounts: whether a store operation fails is fixed per
  table and operation for a whole run, so one product's inserts all succeed
  or all fail. The source catches each `insert_comment` failure on its own
  and counts it, so a transient failure could split a product's rows between
  the two counts. The model does not state that mixed case; only
  `inserted + failed == fetched` is promised in general.
- The per-product exception handler of ingestion is left out, because no
  modelled step of it raises: store failures are reported as values, as the
  database helpers do.
- `DEFAULT_PRODUCTS` and the other settings are taken at their defaults
  (`iPhone16`, 50 comments per submission, 20 results, 2 top subreddits,
  limit 100). The environment overrides are not modelled.
- The attribute vocabulary is a constant. The reply's `attribute_discussed`
  is passed through unchecked, as in the code.
- `discover_subreddits` in the Reddit client is modelled as
  `Reddit.DiscoverSync`. It is not reached from the endpoints.
