# github-metrics-api in Dafny

A model of the four AWS Lambda functions that make up github-metrics-api,
with proofs about it. The system:

- **EventPoller** polls the public GitHub events feed with an ETag and keeps
  the events of interest (`WatchEvent`, `PullRequestEvent`, `IssuesEvent`)
  that come before the first id it has already seen. It sends them to a
  queue in batches of ten, then replaces its stored poll state.
- **EventProcessor** consumes the queue. It normalises each event into a
  small record and writes it to the processed-events table only when its
  key `("event#" + id, created_at)` is absent. On a first insert of an
  opened pull request it adds 1 to the repository's counter in the summary
  table.
- **StatisticsAPI** answers two requests. The first gives the average time
  between opened pull requests of one repository, or without a repository
  name the list of repositories with enough of them. The second gives the
  number of events per type over a trailing window.
- **VisualizationAPI** cuts the last `hours` hours into buckets of
  `interval` minutes. It counts each event type per bucket and returns the
  points oldest first.

Every store (both tables, the state table, the queue, the secondary index)
is an in-memory `map` or `seq`. The clock is an integer parameter. Each
store failure is an explicit input: a fault flag, a set of failed types or
buckets, or the index of the batch the queue rejects. Code that updates
state in place is a class with `modifies` clauses:

- `EventProcessor.EventProcessor` holds the two tables.
- `EventPoller.Poller` holds the poll state and the queue.

Each method of those classes is proved against a pure function of the old
state (`StoreStep`, `ApplyBatch`, `NextPollState`, `Chunks`). The lemmas
about those functions carry the system's promises: idempotence, counter
exactness, the dedup boundary, batching, the mean gap, and bucket geometry.

Files:

- `common.dfy`: the shared types (`GitHubEvents`).
- `sorting.dfy`: Python's stable `sort` (`Sorting`).
- `event_index.dfy`: the count queries on the event-type index (`EventIndex`).
- `event_processor.dfy`, `event_poller.dfy`, `statistics_api.dfy`,
  `visualization_api.dfy`: one module per Lambda.

Behaviour of the code worth knowing, which the model follows:

- The repository list is built from counters *greater than* 2
  (`gt(min_count=2)`), so a repository with exactly two opened pull requests
  has an average but is not listed (`ListedIffEnoughOpened`).
- `calculate_average_time_between_pr` falls back to all pull-request rows
  when fewer than two are opened. The handler only ever passes it two or
  more opened rows, so the fallback is dead code there
  (`HandlerNeverFallsBack`). The handler answers "insufficient data" itself
  and never takes an average over non-opened rows.
- An offset of 0 minutes is accepted, although the error message speaks of
  a "positive number".
- Both ends of a timeline bucket's range are inclusive (`BETWEEN`). In the
  model's integer time an entry created exactly on the boundary of two
  adjacent buckets is therefore counted in both
  (`AdjacentBucketsShareBoundary`). In the code the bounds are `isoformat()`
  strings ending in `+00:00` while stored `created_at` values end in `Z`,
  which sorts after `+` and `.`; so an event stamped in the boundary second
  falls only in the newer bucket. That string-level behaviour is outside
  the integer abstraction (see "Left out").
- The poller's new poll state remembers the ids of the first 100 events of
  the whole fetched batch, not only of the new ones. It is written only
  after every batch was sent.

## Model

| member | source | states |
|---|---|---|
| EventIndex.AdjacentRangesShareEndpoint | api/VisualizationAPI/app.py:215 | two inclusive ranges meeting at `mid` count the joined range plus the entries at `mid` |
| Sorting.InsertionSortProperties | api/StatisticsAPI/app.py:192 | the stable sort's result is ordered by the key, is a permutation of the input, and has its length |
| Sorting.SortBy | api/VisualizationAPI/app.py:172 | the in-place sort loop computes the stable sort: ordered by key and a permutation of the input |
| Sorting.SortStrictlyDecreasing | api/VisualizationAPI/app.py:171-172 | when keys strictly decrease along the input, sorting ascending reverses it |
| EventProcessor.TypeSpecificFields | api/EventProcessor/app.py:73-114 | pull requests get only `pr_action`, issues and watches only `action`, any other type neither; the value is the payload's action |
| EventProcessor.Normalise | api/EventProcessor/app.py:57-71 | the record keeps id, type, created_at and repo id; a missing repo or actor name becomes "unknown"; processed_at is the clock reading |
| EventProcessor.StoreStep | api/EventProcessor/app.py:116-176 | returns true exactly on a first insert and adds exactly that row; a duplicate returns false and changes nothing; a missing sort key or failed put fails and changes nothing; existing rows are never overwritten; the counter rises by one only on a first insert of an opened PR, and a failed counter update still returns true |
| EventProcessor.StoreStepKeepsBounded | api/EventProcessor/app.py:155-168 | even with a swallowed counter failure, no counter exceeds the number of opened-PR rows of its repository |
| EventProcessor.StoreStepKeepsExact | api/EventProcessor/app.py:155-164 | without counter failures a store call keeps every counter equal to its repository's opened-PR row count |
| EventProcessor.BatchKeepsExact | api/EventProcessor/app.py:30-45 | a batch without counter failures keeps every counter exact |
| EventProcessor.BatchKeepsBounded | api/EventProcessor/app.py:30-45 | any batch keeps every counter at most its row count |
| EventProcessor.StoreTwiceIsStoreOnce | api/EventProcessor/app.py:148-175 | storing a record again after it was stored returns false and leaves both tables unchanged |
| EventProcessor.ProcessTwiceIsProcessOnce | api/EventProcessor/app.py:57-87 | processing the same event twice, even with a later clock reading, leaves both tables as one processing does |
| EventProcessor.BatchStoresAll | api/EventProcessor/app.py:30-38 | after a batch without put failures every record with a sort key has its row in the table |
| EventProcessor.StoredRecordsAreNoOps | api/EventProcessor/app.py:170-175 | records whose rows are all present change neither table |
| EventProcessor.BatchReplayIsNoOp | api/EventProcessor/app.py:30-45 | redelivering a processed batch leaves both tables unchanged |
| EventProcessor.OpenedTwiceWithDuplicate | tests/test_event_processor.py:98-134 | pr-42, a duplicate of pr-42, then pr-43 leave the repository's counter at 2 |
| EventProcessor.EventProcessor.StoreProcessedEvent | api/EventProcessor/app.py:116-176 | the new tables and the result are those of `StoreStep`; counters stay bounded |
| EventProcessor.EventProcessor.ProcessGitHubEvent | api/EventProcessor/app.py:57-87 | stores the normalised record and returns it; fails exactly when the store call fails |
| EventProcessor.EventProcessor.HandleBatch | api/EventProcessor/app.py:23-55 | the tables become `ApplyBatch` of the records in order; the status is 200; processed plus failed is the record count; processed counts duplicates too |
| EventPoller.Boundary | api/EventPoller/app.py:190-194 | no id before the boundary was seen, and the event at the boundary was seen |
| EventPoller.FilterNewEvents | api/EventPoller/app.py:183-203 | returns the events of interest before the first seen id, in order |
| EventPoller.InterestingIsFilter | api/EventPoller/app.py:196-198 | an event is kept exactly when it is in the input and of interest, and the result is no longer than the input |
| EventPoller.NewEventsAreUnseenAndInteresting | api/EventPoller/app.py:190-198 | no returned event has a seen id, and each is of interest |
| EventPoller.NothingSeenKeepsAllInteresting | api/EventPoller/app.py:190-198 | with nothing seen the result is the category filter of the whole batch |
| EventPoller.FirstSeenMeansNothingNew | api/EventPoller/app.py:190-194 | when the newest event was seen, nothing is new |
| EventPoller.FreshHeadIsNew | api/EventPoller/app.py:187-198 | unseen events on top of a batch whose newest id was seen yield exactly their interesting part |
| EventPoller.EntryFor | api/EventPoller/app.py:215-249 | the entry id is "github_" + id, the body is the event, and repo and actor attributes default to "unknown" |
| EventPoller.Chunks | api/EventPoller/app.py:208-211 | there are ceil(n/10) batches |
| EventPoller.ChunksPartition | api/EventPoller/app.py:208-211 | the batches concatenate to the input and each holds 1 to 10 elements |
| EventPoller.ChunkAt | api/EventPoller/app.py:210-211 | batch b is `events[10b : 10b+10]` |
| EventPoller.BuildEntries | api/EventPoller/app.py:213-249 | one entry per event of the batch, in order |
| EventPoller.Poller.GetPollState | api/EventPoller/app.py:91-113 | the stored state, or etag None, no seen ids and interval 60 when there is none or the read fails |
| EventPoller.Poller.SendEventsToSqs | api/EventPoller/app.py:206-253 | the queue gains the entry batches in order, up to the batch the queue rejects; succeeds exactly when all were sent |
| EventPoller.Poller.HandlePoll | api/EventPoller/app.py:23-88 | 304 sends nothing and writes nothing; a failed fetch raises without writes; otherwise the new events are sent, and the poll state is replaced, with the first 100 ids of the fetched batch, only when there were new events, every batch was sent and the write succeeded |
| EventPoller.NextPollState | api/EventPoller/app.py:46-57 | the new state holds the first min(n,100) fetched ids in order, the new etag and interval, and the poll time |
| EventPoller.RepollSendsNothing | api/EventPoller/app.py:43-57 | after the state was written, polling the same batch again finds nothing new |
| EventPoller.NextPollSendsOnlyFresh | api/EventPoller/app.py:43-57 | a later batch of unseen events on top of the previous one sends exactly their interesting part |
| StatisticsApi.Split | api/StatisticsAPI/app.py:26 | `str.split('/')` always yields at least one piece |
| StatisticsApi.SplitPiecesHaveNoSeparator | api/StatisticsAPI/app.py:26 | no piece of the split holds the separator |
| StatisticsApi.SplitJoin | api/StatisticsAPI/app.py:26 | joining the pieces of `split('/')` with '/' gives back the name |
| StatisticsApi.SplitAtOnlySeparator | api/StatisticsAPI/app.py:26-30 | a name with exactly one slash splits into the text before and after it |
| StatisticsApi.IsValidRepoNameAsWritten | api/StatisticsAPI/app.py:16-45 | the code's validator: an accepted name is non-empty, holds no "..", neither starts nor ends with '/', and splits into exactly two pieces, an owner of at most 39 and a repository of at most 100 characters |
| StatisticsApi.IsValidRepoName | api/StatisticsAPI/app.py:35-39 | the corrected validator (parts matched in full) accepts no more than the code's, and an accepted name holds only letters, digits, '.', '_', '-' and '/' |
| StatisticsApi.AsWrittenDiffersOnlyByNewline | api/StatisticsAPI/app.py:35-39 | the corrected validator accepts a subset of what the code accepts, and every name the code accepts but the corrected one rejects holds a newline |
| StatisticsApi.ValidIsWellFormed | api/StatisticsAPI/app.py:16-45 | a name the corrected validator accepts is `owner/repo` with one slash, parts matching the pattern, owner ≤ 39 and repo ≤ 100, and no ".." |
| StatisticsApi.WellFormedIsValid | api/StatisticsAPI/app.py:16-45 | the corrected validator accepts every such well-formed name |
| StatisticsApi.ValidRepoNameIff | api/StatisticsAPI/app.py:16-45 | the corrected validator accepts exactly the well-formed `owner/repo` names |
| StatisticsApi.TrailingNewlineAccepted | api/StatisticsAPI/app.py:35-39 | as written, "octo/repo\n" is accepted; the corrected validator rejects it |
| StatisticsApi.GapsTelescope | api/StatisticsAPI/app.py:194-197 | the consecutive differences add up to last minus first |
| StatisticsApi.SortedGapsSpread | api/StatisticsAPI/app.py:192-197 | after sorting, the differences add up to max minus min, and there are n−1 of them |
| StatisticsApi.SelectOpened | api/StatisticsAPI/app.py:174-177 | keeps exactly the rows whose action is "opened", in order |
| StatisticsApi.ParseTimestamps | api/StatisticsAPI/app.py:187-190 | succeeds exactly when every timestamp parses, with the timestamps in order |
| StatisticsApi.ConsecutiveGaps | api/StatisticsAPI/app.py:194-197 | the differences of consecutive elements |
| StatisticsApi.CalculateAverageTimeBetweenPr | api/StatisticsAPI/app.py:170-200 | uses the opened rows when there are two or more, else all rows; fails with fewer than two or an unparsable timestamp; otherwise returns (max − min)/(n − 1) |
| StatisticsApi.MeanGapNonNegative | api/StatisticsAPI/app.py:192-200 | the average is never negative |
| StatisticsApi.MeanGapOrderIndependent | api/StatisticsAPI/app.py:192-200 | any permutation of the timestamps gives the same average |
| StatisticsApi.MeanGapExample | tests/test_statistics_api.py:130-133 | 12:00, 12:10 and 12:25 average 750 seconds |
| StatisticsApi.HandlerNeverFallsBack | api/StatisticsAPI/app.py:98-109 | given two or more opened rows, the averager selects exactly them |
| StatisticsApi.ReposWithOpenedPr | api/StatisticsAPI/app.py:252-268 | a repository is listed exactly when its counter exceeds the minimum |
| StatisticsApi.ListedIffEnoughOpened | api/StatisticsAPI/app.py:84-88 | with exact counters, a repository is listed exactly when more than two of its opened PRs were stored |
| StatisticsApi.HandlePrAverageRequest | api/StatisticsAPI/app.py:80-127 | no name: the list, null when empty, or 500 on a failed scan; otherwise 400 on an invalid name, 500 on a failed query, "insufficient data" with both counts under two opened rows, 400 on a bad timestamp, else the mean gap of the opened rows with their counts and first and last dates |
| StatisticsApi.GetEventsByTypeAndTime | api/StatisticsAPI/app.py:228-250 | one entry per type: 0 when its query fails, otherwise the count of that type created at or after the cutoff |
| StatisticsApi.HandleEventCountRequest | api/StatisticsAPI/app.py:129-168 | 400 exactly for a non-integer or negative offset; otherwise the window [now − 60·offset, now] (default 10 minutes), the three types' counts and their sum |
| VisualizationApi.NumIntervals | api/VisualizationAPI/app.py:129-131 | never more than 100 buckets |
| VisualizationApi.NumIntervalsBounds | api/VisualizationAPI/app.py:129-131 | there are no buckets exactly when one interval exceeds the window, and the buckets never reach beyond it |
| VisualizationApi.OlderEndsAtStart | api/VisualizationAPI/app.py:140-142 | bucket i+1 ends where bucket i starts |
| VisualizationApi.BucketStartsDecrease | api/VisualizationAPI/app.py:140-142 | later buckets start strictly earlier |
| VisualizationApi.TimelinePointsShape | api/VisualizationAPI/app.py:148-169 | every point spans one interval and carries exactly the three types |
| VisualizationApi.TimelineContiguous | api/VisualizationAPI/app.py:140-142 | each point ends where the next begins, and the newest ends at now |
| VisualizationApi.SortedTimelineIsReversed | api/VisualizationAPI/app.py:171-172 | sorting the newest-first points by start reverses them |
| VisualizationApi.GetIntervalCounts | api/VisualizationAPI/app.py:178-221 | one entry per type: 0 when its query fails, otherwise the count in the closed range |
| VisualizationApi.GetEventTimelineData | api/VisualizationAPI/app.py:126-175 | one point per bucket, min(hours·60 div interval, 100) of them, ascending by start; each spans one interval, carries the three types and ends where the next begins; the newest ends at now |
| VisualizationApi.TotalEventsReverse | api/VisualizationAPI/app.py:92 | reversing the points, which is all the timeline's sort does to them, keeps the total of all counts |
| VisualizationApi.FailedBucketIsZero | api/VisualizationAPI/app.py:159-169 | a failed bucket reports 0 for each of the three types |
| VisualizationApi.AdjacentBucketsShareBoundary | api/VisualizationAPI/app.py:215 | adjacent buckets share their endpoint, and in integer time an entry on it is counted in both |
| VisualizationApi.HandleTimelineRequest | api/VisualizationAPI/app.py:64-123 | 400 exactly for a non-integer or out-of-range hours (1..168, default 24), then interval (1..1440, default 60); otherwise the sorted timeline, its length, the total of all counts and the window [now − hours·3600, now] |

## Left out

- Network and store protocols are not modelled. This covers the HTTP fetch, DynamoDB and SQS calls and the `LastEvaluatedKey` pagination loops. Their results are inputs and their failures are fault inputs.
- The concurrency of the timeline endpoint is not modelled: thread pools, `future.result(timeout=…)` and `as_completed`. A bucket or a (bucket, type) cell either delivers its count or fails and counts 0. The points are collected in submission order, as the code collects its futures.
- Timestamps are integer seconds. ISO-8601 parsing and formatting are left out, and so is the string comparison of `created_at` with the query bounds. The code compares `created_at` as strings with bounds in two formats (`...Z` for the count cutoff, `isoformat()` with `+00:00` for the timeline), so which events sit exactly on a boundary depends on the string format, which this model does not capture.
- `datetime.now()` is one `now` parameter. The code re-reads the clock for each bucket and for `start_time` and `end_time`. The processor's `processed_at` is an input per record.
- Floating point is left out. The mean is an exact `real`, and `round(avg, 2)` and `convert_decimals` are not modelled.
- `first_pr_date` and `last_pr_date` are the parsed seconds, not the stored strings.
- A stored pull-request row always has `created_at`, since it is the table's sort key. The KeyError that a row without it would raise, answered with 500, is therefore not modelled. A row whose `created_at` does not parse is `None`, which gives the 400 of the `ValueError` branch.
- The event-count and timeline handlers also answer 500 when anything else raises (api/StatisticsAPI/app.py:166-168, api/VisualizationAPI/app.py:121-123). Their queries already degrade to 0, so only the clock could raise there, and those branches are not modelled.
- `int()` parsing of query parameters is an `IntParam` input: absent, not an integer, or its value.
- The repository list is a set, not a list in scan order.
- The queue message body is the event itself. The JSON serialisation and the `source` and `received_at` metadata fields are not modelled.
- The raw event carries only the fields the pipeline reads: of `payload` only its `action`. `public` and `org` are only forwarded and are not modelled.
- A JSON `null` for `repo`, `actor` or `payload` is not distinguished from an absent key. The code raises on a null (`None.get`) and fails the record, while this model uses "unknown" for the names and no action for the payload.
- A queue record whose body is not JSON, or lacks `id` or `type`, is one `Malformed` input.
- `send_message_batch` may report per-entry failures without raising. The code ignores them, and the model counts a batch as sent unless the call itself fails.
- The rate-limit logging in the poller is not modelled, and neither is the `x-poll-interval` parse. A header that does not parse makes the fetch fail.
- Routing, CORS and `create_response` are not modelled, nor are the 404 of the `lambda_handler`s, logging, `handle_repos_with_pr_request` (never routed) and the scratch script `api/StatisticsAPI/test.py`.
- StatisticsApi.HandlePrAverageRequest: validates the name with the corrected `IsValidRepoName`. The code calls its own validator (api/StatisticsAPI/app.py:93), which also accepts a part followed by one newline, such as "octo/repo\n" or "octo\n/repo". For such a name the code queries and answers 200, where the model answers 400. `AsWrittenDiffersOnlyByNewline` proves these newline names are the only ones where the two differ (see Findings).
- StatisticsApi.GetEventsByTypeAndTime: a successful count is the count over the whole index. The code's `Select='COUNT'` query (api/StatisticsAPI/app.py:241-246) reads only the first result page and does not follow `LastEvaluatedKey`, so over a wide window it can undercount. The model assumes the count is complete.
- VisualizationApi.GetIntervalCounts: a successful count is the closed-range count over the whole index. The code's `Select='COUNT'` query (api/VisualizationAPI/app.py:212-218) reads only the first result page, so a wide bucket can be undercounted. The model assumes the count is complete.
- EventProcessor.EventProcessor.Valid: the class invariant is that counters never exceed their row counts, not that they are exact. A swallowed counter failure can leave a counter one short. Exactness is proved for failure-free runs (`StoreStepKeepsExact`, `BatchKeepsExact`).

## Findings

| source | as written | input that shows it | evidently intended | confidence | as-written member | corrected member |
|---|---|---|---|---|---|---|
| api/StatisticsAPI/app.py:35-39 | the name pattern is anchored with `$`, which in Python's `re.match` also matches just before a final newline | "octo/repo\n" is accepted | accept only names whose parts match in full, rejecting a trailing newline | not executed | StatisticsApi.TrailingNewlineAccepted | StatisticsApi.ValidRepoNameIff |
