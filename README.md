# SeekAll: the job generator of seeker

This project models the `SeekAll` job of the seeker package
(`src/Jobs/SeekAll.php`). SeekAll decides which `Seek` jobs to dispatch for
one rate-limited queue, and fans out one `SeekAll` per queue when it has no
queue. The database is replaced by plain data:

- queues as `Queue(id, name, maxPerMinute)`;
- stored responses as `Response`. Each holds its seekable, its endpoint, the
  queue of that endpoint, the nullable `seekable_urls` count, the urls of its
  child responses and the candidate urls `iterableUrls()` would enumerate;
- the seekables registry as a sequence of `SeekableClass`. Each entry holds its
  marker interfaces, its rows (`Instance(key, hasData)`) in query order and its
  endpoints in registration order. Each endpoint's constraining closure is
  given as the set of keys of the rows it admits.

Modules:

- `Types` (types.dfy): the records above and the `Seek` / `SeekAll` jobs.
- `Iterative` (iterative.dfy): `getSeekIterativeJobs`. It covers the
  selection predicate, the set-once write of `seekable_urls` and the
  rejection of urls already fetched. The only mutable state of the job, the
  stored responses, is the class `ResponseStore`. The imperative cursor loop
  `SeekIterativeJobs` is proved against the functions `IterativeJobs` and
  `AfterPass`.
- `Seekables` (seekables.dfy): `getSeekJobs`. It covers classification by
  marker interfaces, the once-mode "no Data" filter and the per-class pass
  that picks, for each endpoint, the first matching row whose key is not yet
  taken. The imperative loops `SeekJobs` / `SeekClass` (with their `$keys`
  list) are proved against `SeekJobsOf` / `ClassJobs`.
- `Scheduler` (scheduler.dfy): `getJobs`, `getJobsForQueue` and `uniqueId`.
  It covers the stream order, the counter loop that cuts the stream at the
  budget (proved against `Cutoff` / `Generate`), the fan-out and the unique
  id.

Behaviour of the code that the model keeps as written:

- **Null budget.** `max_per_minute == 0` is a loose PHP comparison, so a
  null budget compares equal to 0 and the queue emits nothing
  (`Scheduler.NullBudgetEmitsNothing`).
- **Negative budget.** A negative budget also emits nothing, because the
  counter test `0 >= max` already holds for the first job.
- **One Seek per missing url.** A response that knows 3 urls and has fetched
  1 yields two Seeks, one per missing url, and with a budget of 2 they use up
  the whole budget (`Scheduler.BudgetSpentOnPagination`).
- **Re-running.** A second pass seeds the same classes again until the
  dispatched Seeks have stored Data; seek-continually classes are seeded on
  every pass. A response is resumed only while its number of children is below
  `seekable_urls`, whatever urls those children were fetched from. It yields
  nothing once every candidate url has a child
  (`Iterative.AllFetchedYieldsNothing`), and it stops being resumed once its
  child count reaches the recorded count, even when children repeat a url and
  some candidate was never fetched (`Iterative.ResumeStopsAtChildCount`,
  `Iterative.RepeatedChildUrlStopsResume`). A second pass writes no
  `seekable_urls` (`Iterative.AfterPassIdempotent`).

- **Seeding ignores the queue.** `getSeekJobs` never reads the queue, so
  every queue's pass emits the seek-once and seek-continually jobs of every
  registered class and endpoint, and each queue's budget is charged for them
  (`Scheduler.SeedingIgnoresQueue`).

A key is tested for PHP truthiness (`if ($key = …)`). When the first
admissible row has the key 0, "" or "0", that endpoint yields no job, the key
is not recorded, and the next row is not tried.

## Model

| member | source | states |
|---|---|---|
| Iterative.Unsought | src/Jobs/SeekAll.php:146-152 | The urls kept are exactly the candidates that no child was fetched from, and there are no more of them than candidates |
| Iterative.UnsoughtCounts | src/Jobs/SeekAll.php:152 | Rejection drops every occurrence of a fetched url and keeps every occurrence of any other candidate |
| Iterative.UnsoughtAppend | src/Jobs/SeekAll.php:152-155 | Rejection distributes over concatenation, so the kept urls stay in candidate order |
| Iterative.NeedsSeeking | src/Jobs/SeekAll.php:115-131 | The query's condition: the count is null, or it is positive and above the number of children. Its consequences are stated by `IterativeJobsSound`, `IterativeJobsComplete` and `ResumeStopsAtChildCount` |
| Iterative.Selected | src/Jobs/SeekAll.php:107-131 | A response is visited iff its endpoint belongs to the queue and it needs seeking; stated through `IterativeJobsSound` and `IterativeJobsComplete` |
| Iterative.ResponseJobs | src/Jobs/SeekAll.php:142-161 | The jobs of one visited response; `ResponseJobsExact`, `ResponseJobsContain` and `AllFetchedYieldsNothing` state what they are |
| Iterative.SeeksFor | src/Jobs/SeekAll.php:155-161 | The Seeks the yield loop builds, one per url; `ResponseJobsExact` and `EmitSeeks` state them |
| Iterative.ResponseJobsExact | src/Jobs/SeekAll.php:142-161 | A response yields one Seek of its seekable and endpoint per kept url, in order, and nothing when it has no candidate urls |
| Iterative.ResponseJobsContain | src/Jobs/SeekAll.php:146-161 | A response yields a Seek of url u iff u is a candidate and no child was fetched from u |
| Iterative.AllFetchedYieldsNothing | src/Jobs/SeekAll.php:142-161 | A response yields no job iff every candidate url already has a child |
| Iterative.PassSetsCountOnce | src/Jobs/SeekAll.php:137-140 | A pass sets `seekable_urls` to the candidate count exactly for the queue's responses where it is null; a set count and every other field are never changed |
| Iterative.Recorded | src/Jobs/SeekAll.php:137-140 | The set-once write of `seekable_urls`; `PassSetsCountOnce` and `AfterPassIdempotent` state its effect |
| Iterative.AfterPassIdempotent | src/Jobs/SeekAll.php:137-140 | A second pass over the written responses changes nothing |
| Iterative.ResumeStopsAtChildCount | src/Jobs/SeekAll.php:115-140 | A selected response with a null count and no more candidates than children is no longer selected after the pass that records its count |
| Iterative.RepeatedChildUrlStopsResume | src/Jobs/SeekAll.php:115-161 | Children fetched twice from url a, candidates a and b: the first pass seeks b and the next pass seeks nothing, although no child was fetched from b |
| Iterative.IterativeJobsSound | src/Jobs/SeekAll.php:107-161 | Every iterative job is a Seek with a url that comes from a response of this queue that needs seeking. The url is one of its candidates and no child was fetched from it |
| Iterative.IterativeJobsComplete | src/Jobs/SeekAll.php:107-161 | Conversely, every candidate url of a selected response that has no child is sought |
| Iterative.NoResponsesNoIterativeJobs | src/Jobs/SeekAll.php:107-114 | A queue none of whose endpoints has a stored response yields no iterative job |
| Iterative.ResponseStore.Save | src/Jobs/SeekAll.php:139 | Saving a response replaces that row and leaves the others unchanged |
| Iterative.EmitSeeks | src/Jobs/SeekAll.php:155-161 | The yield loop emits, in order, one Seek of the response's seekable and endpoint per url |
| Iterative.Visit | src/Jobs/SeekAll.php:134-161 | Visiting one response records its count only when it is selected and the count is null, and emits that response's jobs only when it is selected |
| Iterative.SeekIterativeJobs | src/Jobs/SeekAll.php:104-163 | The cursor loop leaves the store in the state `AfterPass` describes and emits exactly `IterativeJobs` of the old rows |
| Seekables.Classify | src/Jobs/SeekAll.php:169-177 | A class is kept iff it is in the requested mode: once-mode means ShouldSeekOnce and not ShouldSeekContinually, continual mode means ShouldSeekContinually. No kept class is in the other mode |
| Seekables.InMode | src/Jobs/SeekAll.php:171-176 | The `Arr::where` test of a mode; `Classify` and `ContinualWins` state it |
| Seekables.ClassifyAppend | src/Jobs/SeekAll.php:169-179 | Classification distributes over concatenation, so the kept classes stay in registry order, each once |
| Seekables.ContinualWins | src/Jobs/SeekAll.php:171-176 | Both directions of each mode's membership hold, and no class is in both modes, so a class tagged both ways is seeded continually only |
| Seekables.WithoutData | src/Jobs/SeekAll.php:183-192 | The once-mode filter keeps exactly the rows that have no Data |
| Seekables.WithoutDataAppend | src/Jobs/SeekAll.php:183-192 | The once-mode filter distributes over concatenation, so the rows it keeps stay in the class's query order |
| Seekables.FirstMatchWithoutData | src/Jobs/SeekAll.php:183-200 | In once-mode `first()` returns the first row, in the class's own row order, that has no Data, matches the endpoint and has an untaken key, and returns nothing only when no such row exists |
| Seekables.BaseQuery | src/Jobs/SeekAll.php:181-192 | The base query holds all rows of the class, or in once-mode exactly those without Data |
| Seekables.FirstMatch | src/Jobs/SeekAll.php:197-200 | `first()` returns an instance that the endpoint matches, whose key is not taken, and before which no instance qualifies. It returns nothing only when no instance qualifies |
| Seekables.EndpointJobs | src/Jobs/SeekAll.php:194-210 | One class's pass over its endpoints; `EndpointJobsSplit`, `EndpointAtTurn`, `EndpointJobsSound`, `EndpointJobsPickFirst`, `EndpointJobsComplete` and `OneJobPerEndpoint` state its properties |
| Seekables.EndpointJobsSplit | src/Jobs/SeekAll.php:194-210 | The pass over all endpoints is the pass over the first e of them followed by the pass over the rest, starting with the keys the first part took, so endpoints are served in registration order |
| Seekables.EndpointAtTurn | src/Jobs/SeekAll.php:195-209 | At its turn, endpoint e seeks the first row it matches whose key was taken neither before the pass nor by the endpoints registered before it, when that key is truthy, and yields nothing otherwise; of two endpoints matching the same row, the earlier gets it |
| Seekables.EndpointJobsSound | src/Jobs/SeekAll.php:194-210 | A class's pass emits at most one job per endpoint. Each job is a url-less Seek of a base-query row with a truthy key not taken before, through an endpoint that matches it. No two jobs share a key |
| Seekables.FirstMatchGrowTaken | src/Jobs/SeekAll.php:197-200 | Excluding more keys never makes `first()` find a row it did not find, and keeps its pick while that pick's key is not excluded |
| Seekables.PassKeysTruthy | src/Jobs/SeekAll.php:202-203 | Every key a pass appends to `$keys` is truthy |
| Seekables.EndpointJobsComplete | src/Jobs/SeekAll.php:195-209 | No endpoint is skipped while a row it matches with a truthy key is left: every endpoint of the pass got a job, or its query, run against all keys taken by the end of the pass, finds nothing or a falsy key |
| Seekables.EndpointJobsPickFirst | src/Jobs/SeekAll.php:195-203 | Each job of a pass seeks the first row its endpoint matches among those whose key was not taken before the pass or by an earlier job of the pass |
| Seekables.OneJobPerEndpoint | src/Jobs/SeekAll.php:195-210 | When the endpoint classes are distinct, no endpoint class appears twice among a pass's jobs |
| Seekables.SeekJobsInMode | src/Jobs/SeekAll.php:165-212 | Every seek job of a mode seeks, without a url, a truthy-keyed row of a registered class of that mode. In once-mode the row has no Data |
| Seekables.PassJobsInMode | src/Jobs/SeekAll.php:179-210 | The same property for a run of classes that are all in the mode |
| Seekables.SoughtNeverSeededOnce | src/Jobs/SeekAll.php:183-192 | A row that has Data is never the target of a once-mode job |
| Seekables.SeekJobs | src/Jobs/SeekAll.php:167-211 | The loop over the classes of the mode emits exactly `SeekJobsOf`, that is, each selected class's pass in registry order |
| Seekables.PassJobs | src/Jobs/SeekAll.php:179-211 | The jobs of the selected classes, one class after the other; `SeekJobs` and `PassJobsInMode` state them |
| Seekables.SeekClass | src/Jobs/SeekAll.php:180-210 | The endpoint loop with its `$keys` list emits exactly the class's pass `ClassJobs` |
| Scheduler.PhasesOfStream | src/Jobs/SeekAll.php:81-91 | Iterative jobs are in phase 0, seek-once jobs in phase 1 and seek-continually jobs in phase 2 |
| Scheduler.StreamOrdered | src/Jobs/SeekAll.php:79-92 | In the queue stream, no seek-once job precedes an iterative job and no continual job precedes a seek-once job |
| Scheduler.JobsForQueue | src/Jobs/SeekAll.php:79-92 | The stream is iterative ++ seek-once ++ seek-continually, and building it leaves the responses as one pass does |
| Scheduler.QueueStream | src/Jobs/SeekAll.php:79-92 | The queue's stream; its order is stated by `PhasesOfStream` and `StreamOrdered` |
| Scheduler.SeedingIgnoresQueue | src/Jobs/SeekAll.php:79-92 | For a queue without stored responses, the stream is the seek-once and seek-continually jobs of the whole registry |
| Scheduler.CutoffIsPrefix | src/Jobs/SeekAll.php:62-71 | The counter loop lets through exactly the prefix of the stream that the remaining budget has room for |
| Scheduler.Cutoff | src/Jobs/SeekAll.php:62-71 | The counter loop over a stream; `CutoffIsPrefix` states that it lets through a prefix of the budget's length |
| Scheduler.LooselyZero | src/Jobs/SeekAll.php:58 | PHP's loose `== 0` on the nullable budget holds for 0 and null; `BudgetCutoff` and `NullBudgetEmitsNothing` state its effect |
| Scheduler.BudgetCutoff | src/Jobs/SeekAll.php:58-71 | For a queue, the output is the first min(max(0, max_per_minute), length of stream) jobs of the stream, in order. A null, zero or negative budget yields nothing |
| Scheduler.Quota | src/Jobs/SeekAll.php:66 | The number of jobs the counter test lets through: the budget when positive, else none; `BudgetCutoff` states it |
| Scheduler.FanOutPerQueue | src/Jobs/SeekAll.php:50-56 | With no queue, the output is one SeekAll per queue in queue order, with no budget and no Seek |
| Scheduler.SeekAllQueues | src/Jobs/SeekAll.php:51-53 | The fan-out loop builds exactly one SeekAll per queue, in order |
| Scheduler.FanOut | src/Jobs/SeekAll.php:50-53 | One SeekAll per queue, in queue order; `FanOutPerQueue` and `SeekAllQueues` state it |
| Scheduler.GeneratedOrdered | src/Jobs/SeekAll.php:62-91 | The emitted jobs keep the stream's phase order |
| Scheduler.GetJobs | src/Jobs/SeekAll.php:45-72 | The job list equals `Generate`. The responses are written as one pass does only when the queue is set and its budget is not loosely 0; otherwise they are unchanged |
| Scheduler.NullBudgetEmitsNothing | src/Jobs/SeekAll.php:58-60 | A null `max_per_minute` compares loosely equal to 0 and yields no job |
| Scheduler.BudgetSpentOnPagination | src/Jobs/SeekAll.php:62-161 | Budget 2 with one response that knows 3 urls and has fetched 1: exactly the two missing urls are emitted, whatever seeding work is pending |
| Scheduler.OneFetchedOfThree | src/Jobs/SeekAll.php:142-161 | That response yields the Seeks of the two unfetched urls, in candidate order |
| Scheduler.UniqueIdPerQueueName | src/Jobs/SeekAll.php:231-234 | Two queue-scoped SeekAll jobs share a unique id iff their queues share a name |
| Scheduler.UniqueIdUnsetQueue | src/Jobs/SeekAll.php:231-234 | A SeekAll without a queue has the bare class name as its id, the same as for a queue with an empty name |
| Scheduler.UniqueId | src/Jobs/SeekAll.php:231-234 | The class name followed by the queue's name, if any; `UniqueIdPerQueueName` and `UniqueIdUnsetQueue` state when two ids coincide |
| Types.Truthy | src/Jobs/SeekAll.php:202 | PHP truthiness of a key: 0, "" and "0" are falsy; `PassKeysTruthy` and `EndpointAtTurn` state how it gates a job |

## Left out

- Dispatching (`handle`, src/Jobs/SeekAll.php:219-224), the Laravel bus and the queue traits: the model returns the job list that would be dispatched.
- The `ShouldBeUnique` lock and its ten-minute `$uniqueFor` (src/Jobs/SeekAll.php:32): this is framework concurrency. Only the id string `uniqueId` is modelled.
- Eloquent and SQL query building (`whereHas`, `Expression`, `cursor()`, `clone`, `first()`): replaced by filters over plain sequences in query order.
- `Response::iterableUrls()`, `Seekables::all()` and `Queue::all()`: their code is not part of this model, so their results are inputs. The endpoint closures are inputs too, as the set of row keys each admits.
- The `resolveRelationUsing('soughtData', …)` closure (src/Jobs/SeekAll.php:184-189) does not return the relation it builds. The model takes the intended filter, "the row has no Data", as a `hasData` flag per row.
- Laziness: the generator stops pulling after one job past the budget, so how many responses get `seekable_urls` written depends on pull depth. `Scheduler.GetJobs` instead writes the count of every selected response whenever the budget is not loosely 0.
- The constructor types the queue as non-nullable, while `getJobs` and `uniqueId` test for a missing queue. The model takes an optional queue so that the fan-out branch is reachable.
- `childUrls` of a response is taken to be the urls of all its child responses. The code reads them with `load('children:url')` (src/Jobs/SeekAll.php:147-150), which selects only the `url` column. The Response model and its `children` relation are not part of this model. If `children` is a has-many relation, that eager load cannot match the children to their parent without the foreign key, so no url would be rejected and every candidate would be sought again on every pass. The iterative lemmas hold only under the assumption that the load returns every child's url.
- `Iterative.Unsought`: urls are compared by plain string equality. The code's `contains` (src/Jobs/SeekAll.php:152) compares loosely, so two numeric strings such as "10" and "1e1" count as the same url there but not in the model.
- `Seekables.OneJobPerEndpoint` requires distinct endpoint classes. The registry is keyed by endpoint class, so two entries for the same class cannot occur in the source.
- `Seekables.SoughtNeverSeededOnce` requires that keys identify the rows of a class and that class names are unique, as primary keys and the class-keyed registry guarantee.
- tests/TestCase.php and tests/Models/SeedableModel.php hold test bootstrap and a stub; they have no logic to model.
