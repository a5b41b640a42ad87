# Insight enqueuer: discovery-and-enqueue pass

This project models the pass that the code-insights background worker runs periodically
(`discoverAndEnqueueInsights`). It also models the query normaliser that the pass applies,
`withCountUnlimited`.

The pass does the following:

- takes the discovered insights, or the error from discovery;
- walks every series of every insight in order;
- derives each series' identity with `Encode`;
- skips identities already seen in the same pass;
- gives each new series a query-runner job that is due at `now() + offset`, where the offset
  grows by 30 seconds per new series;
- hands the job to an enqueue callback and collects the callback's errors in a multierror.

Modules:

- `Wrappers`: `Option` and `Result`.
- `Strings`: `Contains`, Go's `strings.Contains`.
- `EnqueuerSpec`: the data model, `WithCountUnlimited`, and the pass as a fold. `Step` is one
  turn of the inner loop and `Run` folds it over all series. The module also holds an
  independent reference for deduplication, `UniqueFirst` (the first series of each identity),
  and the lemmas that relate the fold to that reference.
- `InsightEnqueuer`: the pass as the Go code writes it. It is one method with two nested loops
  that update the `uniqueSeries` map, the `offset`, the `multi` error list and the shared `err`
  variable. The method is proved to compute exactly `Run`.

The collaborators are parameters, gathered in an `Env` value:

- `encode`: the series-identity function (`discovery.Encode`).
- `clock(k)`: what the k-th call of `now()` returns. A fixed instant is the special case
  `StaggeredUnderFixedClock`.
- `enqueue(history, job)`: the enqueue callback as an oracle. It gives the outcome of submitting
  `job` after the jobs in `history`.
- `highPriority` and `indexedCost`: the integer values of `priority.High` and
  `priority.Indexed`. The priority package is not part of this model.

Discovery is a `Result<seq<Insight>, Error>`. Times are integer nanoseconds, which is what Go's
`time.Duration` counts. The method returns two things: the jobs handed to the callback, in call
order, and the pass's error. The error is `None` for Go's nil.

The error path follows the code as written:

- Line 81 tests the outer `err`, and line 95 assigns that same variable, so once one enqueue
  fails, `err` stays non-nil.
- After a failure the pass does not try the remaining series. Every later series only
  re-appends the stale error, duplicates included, and the callback is not called again.
- `NoCallAfterFailure` and `StaleErrorRepeated` state this behaviour.

The identity is derived from the raw series (line 80). The normalised query is used only for the
job's `SearchQuery` (line 97).

## Model

All source paths are in `enterprise/internal/insights/background/insight_enqueuer.go`.

| member | source | states |
|---|---|---|
| `Strings.ContainsIff` | enterprise/internal/insights/background/insight_enqueuer.go:118 | the `strings.Contains` test succeeds exactly when `count:` (any `t`) occurs at some position of the query |
| `EnqueuerSpec.WithCountUnlimitedSpec` | enterprise/internal/insights/background/insight_enqueuer.go:117-122 | the input is a prefix of the result; the result always contains `count:`; the result equals the input exactly when the input contains `count:`; otherwise the result is the input followed by ` count:9999999` |
| `EnqueuerSpec.WithCountUnlimitedIdempotent` | enterprise/internal/insights/background/insight_enqueuer.go:117-122 | normalising twice equals normalising once |
| `InsightEnqueuer.DiscoverAndEnqueueInsights` | enterprise/internal/insights/background/insight_enqueuer.go:59-109 | a failed Discover returns that error wrapped with "Discover", with no callback call; otherwise the jobs handed over and the returned error are those of the fold `Run`; job k is due at the k-th clock reading plus k times 30 s; no series ID is handed over twice; the result is nil exactly when discovery and every callback call succeeded |
| `EnqueuerSpec.RunCharacterized` | enterprise/internal/insights/background/insight_enqueuer.go:78-106 | after any prefix of the series, the keys of `uniqueSeries`, the jobs handed over, `multi`, `err` and the offset are fully determined. Without a failure: one job per first occurrence, all accepted, no errors, and the map's keys are the identities seen. After a failure at series p: the jobs stop at p's job, that job failed with `err`, `multi` holds that error once for p and once for every later series, and the map's keys stay the identities of the series up to p |
| `EnqueuerSpec.JobsFollowFirstOccurrences` | enterprise/internal/insights/background/insight_enqueuer.go:93-102 | the k-th job is built from the k-th first occurrence. Its series ID is that series' identity and its query is the normalised query. Its `ProcessAfter` is the k-th clock reading plus k times 30 s. Its state is "queued", its priority High and its cost Indexed |
| `EnqueuerSpec.OffsetCountsCalls` | enterprise/internal/insights/background/insight_enqueuer.go:93-94 | the offset has grown by exactly 30 s for every job handed over, including one whose enqueue failed |
| `EnqueuerSpec.StaggeredUnderFixedClock` | enterprise/internal/insights/background/insight_enqueuer.go:93-94 | with `now()` fixed at t, the jobs are due at t, t+30s, t+60s, ... in call order |
| `EnqueuerSpec.SeriesIdsEnqueuedOnce` | enterprise/internal/insights/background/insight_enqueuer.go:85-89 | within one pass the callback never receives the same series ID twice |
| `EnqueuerSpec.FirstSeriesWins` | enterprise/internal/insights/background/insight_enqueuer.go:80-89 | every job handed over is built from a series that no earlier series shares an identity with |
| `EnqueuerSpec.AllFirstsEnqueuedWithoutFailure` | enterprise/internal/insights/background/insight_enqueuer.go:78-106 | when the pass returns nil, every first occurrence got its job, and there are exactly as many jobs as first occurrences |
| `EnqueuerSpec.OneJobPerIdentityWithoutFailure` | enterprise/internal/insights/background/insight_enqueuer.go:78-106 | when the pass returns nil, there are exactly as many jobs as distinct identities |
| `EnqueuerSpec.NilIffNoFailure` | enterprise/internal/insights/background/insight_enqueuer.go:103-108 | the pass returns nil exactly when no callback call failed |
| `EnqueuerSpec.NoCallAfterFailure` | enterprise/internal/insights/background/insight_enqueuer.go:81-83 | a failing callback call is the last call of the pass |
| `EnqueuerSpec.StaleErrorRepeated` | enterprise/internal/insights/background/insight_enqueuer.go:81-84 | when the pass fails, the last call failed with some e. If that call was for series p, the returned multierror holds e once for p and once more for each later series, duplicates included, and the map's keys are the identities of the series up to p |
| `EnqueuerSpec.DuplicateQueryScenario` | enterprise/internal/insights/background/insight_enqueuer.go:71-102 | two insights whose series share an identity and the query "lang:go" yield exactly one job, whether the callback accepts it or not. It is for the first series, and its query is "lang:go count:9999999". The pass returns nil exactly when that call succeeds |
| `EnqueuerSpec.UniqueFirstDistinct` | enterprise/internal/insights/background/insight_enqueuer.go:85-89 | the reference deduplication keeps no identity twice |
| `EnqueuerSpec.UniqueFirstIds` | enterprise/internal/insights/background/insight_enqueuer.go:85-89 | the reference deduplication loses no identity |
| `EnqueuerSpec.UniqueFirstCount` | enterprise/internal/insights/background/insight_enqueuer.go:85-89 | the reference deduplication keeps exactly one series per distinct identity |
| `EnqueuerSpec.UniqueFirstAreFirst` | enterprise/internal/insights/background/insight_enqueuer.go:85-89 | each series the reference keeps is the first series of its identity |

## Left out

- `enterprise/cmd/executor-queue/main.go`: process bootstrap, not modelled. That covers
  configuration loading and validation, the debug server, the database connection, metric
  registration and the queue API server.
- `newInsightEnqueuer` (lines 26-53): not modelled. It wires a periodic goroutine on a 12-hour
  timer, with metrics and observation. Its comment says "every 10 minutes", which disagrees with
  the `12*time.Hour` it passes.
- The internals of `discovery.Discover`, `discovery.Encode`, `insights.NewLoader` and
  `queryrunner.EnqueueJob` are not part of this model. They enter as a discovery result, an
  uninterpreted identity function and an enqueue oracle.
- The job store behind the callback is not modelled: duplicate rejection, leasing, heartbeats,
  stall reclaim and priority-ordered dequeue. No modelled code implements these.
- `ctx` and cancellation: not modelled. The model passes no context to the collaborators and
  never aborts early.
- `DiscoverAndEnqueueInsights`: does not model the 64-bit width of `time.Duration` and
  `time.Time`. The offset is an unbounded integer, and Go's offset would overflow only after
  about 307 million unique series.
- `DiscoverAndEnqueueInsights`: each callback error is kept as one opaque element of the
  multierror. The flattening that `multierror.Append` applies to an appended multierror is
  library behaviour that is not part of this model. So is the text of the aggregated error.
- The `*queryrunner.Job` and `*time.Time` pointers built by the source are modelled as values.
  No aliasing is observable, because the pass never reads them back.
- The series stored as values of the `uniqueSeries` map are kept in the model, but no lemma
  mentions them: the pass only ever tests the map's keys.
- Strings are modelled as Dafny `string`, a sequence of characters, while Go strings are bytes.
  The needle `count:` is ASCII, so on valid UTF-8 the search at line 118 and the concatenation at
  line 121 behave the same on either view. Byte strings that are not valid UTF-8 are not modelled.
