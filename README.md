# protocol-resender, modelled in Dafny

protocol-resender fires outbound requests ("tasks") spread over a day, a week
or a month according to a coarse weight curve. This project models its core
and proves properties of the model:

- **the periodic distribution generator** (`helper.dfy`, module `Helper`):
  - the cycle length, with the current month as a parameter;
  - the segments and the linear interpolation, filled into an array in place;
  - the random redistribution of the rounding error, with each random index
    as a nondeterministic choice;
  - the random high port.
- **the HTTP sender** (`http_sender.dfy`, module `HttpSender`):
  - the defaults and the scheme choice;
  - the request options;
  - the redirect rule and its budget;
  - the one-shot result promise, resolved from a sequence of response events.

  The network is a script of "hops": what happens to the i-th request the
  sender issues.
- **sender routing** (`sender_manager.dfy`, module `SenderManager`).
- **the scheduler** (`task_scheduler.dfy`, module `TaskScheduler`):
  - `getShouldProcessCount`;
  - one tick, as the ordered list of `processTask` calls it makes;
  - one attempt, as the ordered list of store effects it performs;
  - the `start`/`close` guard on the interval handle.
- **the management API's own logic** (`api_server.dfy`, module `ApiServer`):
  - the Bearer-token pre-handler, built on a model of `split(' ')`;
  - the query filter and the paging arithmetic;
  - the create/start/stop updates of the tasks table.

Shared records are in `types.dfy` and `wrappers.dfy`.

Numbers are modelled as Dafny `real` where the source mixes fractions (the
weights, the multiplier, the interpolation) and as `int` where they hold
counts. `Math.round(x)` is `Floor(x + 1/2)`, which also rounds negative
halves up, as JavaScript does.

## Behaviour worth knowing

- **An HTTP request is never sent.** A request is created, but
  `request.end()` is never called, so no response arrives. No `timeout`
  listener is installed either. So every HTTP attempt whose request is
  created and whose connection does not fail stays pending
  (`Send(spec, [])`), and its task stays Processing for good
  (`TaskScheduler.UnsentRequestHangs`).
- An attempt whose request cannot be created (`requestClient.request`
  throws, for instance on a URL with a space, since the path is the whole
  URL) is rejected. It is recorded Failed, and its task goes back to Ready
  (`TaskScheduler.UncreatableRequestFails`).
- A connection failure emits `error` on the request object, which has no
  `error` listener. That ends the process, which the model does not capture
  (see "## Left out").
- **A bad rule aborts the tick, and with it the process.** The error thrown
  by `getShouldProcessCount` for a task with an unsupported rule leaves the
  interval callback. That task and every later task get no attempt in that
  tick (`TaskScheduler.Tick`). The callback is `async`, so the error becomes
  an unhandled rejection. Under Node's default unhandled-rejection mode
  (since version 15) that ends the process, so no later tick runs either.
  The model stops at the aborted tick.
- **Every resolved send is recorded as Successful.** This includes the
  unsupported-protocol result and a response `error` event. `Failed` is
  recorded only when the send rejects
  (`TaskScheduler.UnsupportedProtocolRecordedSuccessful`).
- **A redirect response can settle the attempt itself.** The redirect
  response keeps its own `data`/`end`/`close` listeners beside the follow-up
  request's `.then(resolve)`. Whichever `resolve` comes first wins
  (`HttpSender.OwnEventBeatsRedirect`, `HttpSender.RedirectBeatsOwnEvent`).
- **A stop during an attempt is undone.** `/stop` on a task whose attempt is
  in flight is overwritten by that attempt's final `Ready` write
  (`TaskScheduler.StopDuringAttemptIsOverwritten`).

## Model

| member | source | states |
|---|---|---|
| Helper.RandomHighPort | source/helper.ts:3-10 | for every random value in [0, 1) the port lies in [49152, 65535] |
| Helper.EveryHighPortReachable | source/helper.ts:3-10 | every port of [49152, 65535] is produced by some random value in [0, 1), so repeated calls can differ |
| Helper.Round | source/helper.ts:97-98 | `Math.round` returns the integer n with n − ½ ≤ x < n + ½ |
| Helper.Lerp | source/helper.ts:46-48 | `lerp` gives a at t = 0 and b at t = 1, and stays between a and b for t in [0, 1] |
| Helper.DaysInMonth | source/helper.ts:29-34 | the last day of a month is 28 to 31; February has 29 days in a leap year and 28 otherwise; April, June, September and November have 30 days; January, March, May, July, August, October and December have 31 |
| Helper.YearLength | source/helper.ts:33 | the twelve month lengths add up to 365 days, or 366 in a leap year |
| Helper.CycleSeconds | source/helper.ts:23-38 | day is 86400 s, week is 604800 s, month is days-in-month × 86400 s; any other cycle fails with InvalidPeriod; every length is a positive multiple of a day |
| Helper.ThirtyOneDayMonth | source/helper.ts:29-34 | a 31-day month lasts 2678400 s |
| Helper.CycleSteps | source/helper.ts:83-89 | generation gets past its checks exactly for a known cycle and a positive interval that divides it; an unknown cycle gives InvalidPeriod; a zero or non-dividing interval gives IntervalNotDivisor; a negative divisor gives InvalidArrayLength; a success has steps × interval = cycle seconds |
| Helper.DistributeErrorRandomly | source/helper.ts:56-81 | both loops keep sum + error constant, so the array's sum grows by exactly `error`; a positive error only raises slots; a negative error only lowers slots, and never lowers one below 0 |
| Helper.BoundaryMonotone | source/helper.ts:96-98 | segment boundaries `round(i·m)` never decrease in i, so the segments are disjoint and in order |
| Helper.BoundaryEnds | source/helper.ts:96-98 | the first segment starts at slot 0 and the last one ends at `steps` |
| Helper.BoundaryInRange | source/helper.ts:96-98 | every boundary lies in [0, steps], so every segment lies inside the array |
| Helper.SegmentsTile | source/helper.ts:96-102 | every slot lies in some segment [round(i·m), round((i+1)·m)) |
| Helper.SlotAllocation | source/helper.ts:99-105 | the first slot of segment i receives `round(weight[i] × amount / segment length)`, the interpolation at t = 0 |
| Helper.Fill | source/helper.ts:96-110 | the interpolated fill has one slot per step |
| Helper.SlotAllocationNonNegative | source/helper.ts:99-105 | with non-negative weights and amount, an interpolated allocation is never negative |
| Helper.FillAt | source/helper.ts:95-110 | slot j of segment i receives the interpolation from weight i toward weight (i + 1) mod D, so the last segment wraps to the first weight; the value is divided by the segment length, which is positive wherever the division runs |
| Helper.FillNonNegative | source/helper.ts:95-110 | with non-negative weights and amount, no slot of the interpolated fill is negative |
| Helper.FillSegment | source/helper.ts:101-109 | the inner loop writes the segment's allocations into [start, end), leaves every other slot unchanged, and returns what it added to the sum |
| Helper.FillSegments | source/helper.ts:95-110 | the nested loops turn the zero-filled array into the interpolated fill, and `totalAllocated` equals its sum |
| Helper.GeneratePeriodicDistribution | source/helper.ts:22-113 | fails exactly when the checks fail, with the same error; otherwise returns `cycleSeconds / interval` slots summing exactly to `amount`, obtained from the interpolated fill by adding or removing error units; with non-negative weights every slot is ≥ 0 |
| Helper.TenMinuteDailyExample | source/helper.test.ts:29-64 | the tests' rule (eight weights, a day, 10-minute slots) yields 144 non-negative slots summing to the amount, with a positive slot when the amount is positive |
| HttpSender.MergeDefault | source/task-scheduler/sender/http/index.ts:10-12 | a given value wins over the default, and the default fills in a missing value |
| HttpSender.DefaultSettings | source/task-scheduler/sender/http/index.ts:23-30 | the defaults are timeout 10000, maxRedirects 3, followRedirects true and receiveResponse false |
| HttpSender.GivenSettingsWin | source/task-scheduler/sender/http/index.ts:23-30 | a given 0 or false is kept, not replaced by the default |
| HttpSender.IsHttpsProtocolSpec | source/task-scheduler/sender/http/index.ts:6-8 | the https client is chosen iff the URL's first five characters spell "https" in any mix of cases; nothing after them, ':' included, is looked at |
| HttpSender.IsHttpsProtocol | source/task-scheduler/sender/http/index.ts:6-8 | the choice depends on the URL's first five characters only: it is https iff they lower-case to "https" |
| HttpSender.SchemeExamples | source/task-scheduler/sender/http/index.ts:6-8 | "HTTPS://a" and "httpsfoo" select https |
| HttpSender.SchemeCounterExamples | source/task-scheduler/sender/http/index.ts:6-8 | "http://a" and "/https" do not select https |
| HttpSender.ClientFor | source/task-scheduler/sender/http/index.ts:25-26 | the https client is used iff the URL's first five characters lower-case to "https"; the http client otherwise |
| HttpSender.OptionsFor | source/task-scheduler/sender/http/index.ts:16-23 | the path is the whole URL; the method is copied; the host is set exactly when it is a non-empty string; the headers are set exactly when given; the timeout is merged with its default |
| HttpSender.FollowUp | source/task-scheduler/sender/http/index.ts:34-42 | a follow-up is issued exactly when the status is 301, 302, 307 or 308, redirects are followed, the budget is positive and the Location is a non-empty string; its spec is the original with url := location and maxRedirects := budget − 1 |
| HttpSender.FollowUpKeepsOptions | source/task-scheduler/sender/http/index.ts:39 | the follow-up's request options differ from the original's only in the path; its budget is one less and its other settings are unchanged |
| HttpSender.RedirectBudget | source/task-scheduler/sender/http/index.ts:36-39 | a redirect chain issues at most 1 + maxRedirects requests, whatever the responses |
| HttpSender.ExchangesFollowTheChain | source/task-scheduler/sender/http/index.ts:33-41 | the first request carries the spec's own options, and the rest are exactly the follow-up's requests |
| HttpSender.Candidate | source/task-scheduler/sender/http/index.ts:34-60 | every event of the response's own resolves the promise; an `error` resolves `{success: false, message}`; only the follow-up slot yields nothing, and only while the follow-up is unsettled |
| HttpSender.FirstCandidate | source/task-scheduler/sender/http/index.ts:34-60 | the promise stays unsettled only when no event of the response's own arrives and the follow-up does not settle |
| HttpSender.FirstCandidateIsEarliest | source/task-scheduler/sender/http/index.ts:45-60 | the promise settles with the earliest candidate value; every later `resolve` is ignored |
| HttpSender.NoCandidateFallsBack | source/task-scheduler/sender/http/index.ts:39-60 | when a response emits none of its own events, the promise settles with the follow-up's result, or stays pending when there is none |
| HttpSender.Send | source/task-scheduler/sender/http/index.ts:15-64 | the promise rejects exactly when the first request cannot be created, so a follow-up's rejection never reaches the outer promise; a request is created exactly when the first hop does not throw, and it carries the spec's own client and options |
| HttpSender.FirstEventDecides | source/task-scheduler/sender/http/index.ts:45-60 | a first `data`, `end` or `close` resolves as `{success: true, message: ''}`, and a first `error` resolves as `{success: false, message}` |
| HttpSender.SilentResponseHangs | source/task-scheduler/sender/http/index.ts:32-62 | with no redirect followed, a response that emits nothing leaves the promise pending |
| HttpSender.DestroyOnData | source/task-scheduler/sender/http/index.ts:45-48 | the request is destroyed exactly when a `data` event arrives and the body is not wanted |
| HttpSender.FoundRedirectExample | source/task-scheduler/sender/http/index.ts:34-48 | a 302 with budget 1 issues one redirected request, and the follow-up decides the result; with budget 0 no follow-up is issued, and the 302's own first chunk resolves success and destroys the request |
| HttpSender.OwnEventBeatsRedirect | source/task-scheduler/sender/http/index.ts:39-56 | a redirect response's own `end` before the follow-up settles resolves the attempt as delivered |
| HttpSender.RedirectBeatsOwnEvent | source/task-scheduler/sender/http/index.ts:39-60 | a follow-up that settles first decides the outer result, and a later `error` is ignored |
| HttpSender.ResultPromise.Resolve | source/task-scheduler/sender/http/index.ts:32 | the first `resolve` sets the result; a later one changes nothing |
| HttpSender.DeliverEvents | source/task-scheduler/sender/http/index.ts:45-60 | running the listeners over the events settles the promise with the first candidate, and destroys the request exactly on a `data` event when the body is not wanted |
| HttpSender.SendRequest | source/task-scheduler/sender/http/index.ts:15-64 | the imperative `send`, recursing on a followed redirect, has the outcome and issues the requests that `Send` specifies |
| SenderManager.Dispatch | source/task-scheduler/sender/index.ts:14-24 | only an HTTP task can reject, and only when its first request cannot be created; only an HTTP task creates a request, and that request carries its own spec's options |
| SenderManager.HttpDelegates | source/task-scheduler/sender/index.ts:15-18 | protocol "http" delegates to the HTTP sender with its own spec |
| SenderManager.OtherProtocolsUnsupported | source/task-scheduler/sender/index.ts:20-23 | any other protocol resolves with `{success: false, message: 'unsupported protocol'}`, issues no request, and does not depend on the network |
| SenderManager.RoutingIsCaseSensitive | source/task-scheduler/sender/index.ts:15 | "HTTP" and "https" have no sender |
| TaskScheduler.ShouldProcessCount | source/task-scheduler/index.ts:11-27 | fails with 'unsupported rule type' exactly for a missing rule or a type other than "periodicDistribution"; fails with the generator's own error when the cycle check fails for 10-second slots; otherwise returns the current-slot count taken from a generated distribution that has the right length and sum and comes from the rule's interpolated fill by redistributing the rounding error; only a periodic rule's amount must be non-negative |
| TaskScheduler.SlotCounts | source/task-scheduler/index.ts:22 | a day has 8640 ten-second slots, and a 30-day month has 259200 |
| TaskScheduler.ReadyTasks | source/task-scheduler/index.ts:83-85 | the tick lists exactly the tasks whose status is Ready |
| TaskScheduler.ReadyTasksCount | source/task-scheduler/index.ts:83-85 | each Ready row is listed as often as the store holds it, and no other row is listed |
| TaskScheduler.ReadyTasksDistinct | source/task-scheduler/index.ts:83-85 | rows with distinct ids give Ready tasks with distinct ids |
| TaskScheduler.Attempts | source/task-scheduler/index.ts:87-93 | the nested loops' calls: task after task, each repeated its count of times (defined function; its properties are the next rows) |
| TaskScheduler.AttemptsLength | source/task-scheduler/index.ts:87-93 | the loops make as many calls as the counts add up to, a count below 1 adding none |
| TaskScheduler.AttemptsPerTask | source/task-scheduler/index.ts:87-93 | with distinct ids, task k gets exactly its count of `processTask` calls, and none for a count below 1 |
| TaskScheduler.IssueAttempts | source/task-scheduler/index.ts:90-92 | the inner loop makes `count` calls for that task, and none when `count` < 1 |
| TaskScheduler.Tick | source/task-scheduler/index.ts:81-94 | the calls are those of the tasks whose counts were obtained, in order; with no error every Ready task is counted; an error is that of the first uncounted Ready task, and no later task gets a call; every call is for a Ready task of the store; only Ready tasks with a periodic rule must have a non-negative amount |
| TaskScheduler.TickShares | source/task-scheduler/index.ts:83-93 | in a completed tick over rows with distinct ids, every call is for a Ready task of the store, and each Ready task gets exactly its count |
| TaskScheduler.AttemptEffects | source/task-scheduler/index.ts:53-77 | an attempt has two effects while its send is pending and four once it settles, and every effect concerns that task's own id |
| TaskScheduler.ProcessTask | source/task-scheduler/index.ts:53-77 | an attempt performs exactly the effects `AttemptEffects` lists for the outcome of its send |
| TaskScheduler.AttemptLifecycle | source/task-scheduler/index.ts:53-77 | the Processing write precedes the send; a settled attempt creates exactly one record, Successful exactly when the send resolved, and then leaves that task Ready; a pending attempt leaves it Processing with no record |
| TaskScheduler.OtherTasksUntouched | source/task-scheduler/index.ts:33-39 | status writes for other ids never change a task's status |
| TaskScheduler.UnsupportedProtocolRecordedSuccessful | source/task-scheduler/index.ts:58-65 | a task whose protocol has no sender gets one Successful record that holds the unsupported-protocol result |
| TaskScheduler.UnsentRequestHangs | source/task-scheduler/index.ts:53-77 | an HTTP attempt whose request gets no response never settles; it leaves its task Processing and creates no record |
| TaskScheduler.UncreatableRequestFails | source/task-scheduler/index.ts:53-77 | an HTTP attempt whose request cannot be created rejects, records one Failed record for that task, and leaves the task Ready |
| TaskScheduler.StopDuringAttemptIsOverwritten | source/task-scheduler/index.ts:74-76 | a Stopped write between the send and its settlement is overwritten with Ready |
| TaskScheduler.Scheduler.Start | source/task-scheduler/index.ts:79-95 | `start` arms a fresh interval only when none is armed, and otherwise changes nothing; at most one interval stays armed |
| TaskScheduler.Scheduler.Close | source/task-scheduler/index.ts:97-100 | `close` clears the armed interval, if any, and forgets it, so a later `start` re-arms |
| TaskScheduler.AtMostOneTimer | source/task-scheduler/index.ts:79-100 | no sequence of `start` and `close` calls leaves two intervals running |
| ApiServer.Split | source/api-server/index.ts:82 | `split(' ')` always returns at least one field, and no field contains a space |
| ApiServer.JoinSplit | source/api-server/index.ts:82 | joining the fields with single spaces gives back the header |
| ApiServer.SplitJoin | source/api-server/index.ts:82 | space-free fields joined by single spaces split back into the same fields |
| ApiServer.PreHandler | source/api-server/index.ts:67-90 | with no token configured every request passes; with one, a missing or empty header gets 401 |
| ApiServer.PreHandlerSpec | source/api-server/index.ts:81-89 | a header passes iff it is "Bearer", one space and the token, alone or followed by a space and anything; a token that contains a space never matches |
| ApiServer.TrailingFieldsIgnored | source/api-server/index.ts:82-87 | "Bearer t" and "Bearer t x" both pass for token t |
| ApiServer.DoubleSpaceEmptiesToken | source/api-server/index.ts:82-87 | "Bearer  t" fails for token t but passes for the empty token |
| ApiServer.SchemeAndTokenRequired | source/api-server/index.ts:82-87 | "bearer t" and a bare "Bearer" get 401 |
| ApiServer.Where | source/api-server/index.ts:122-130 | the protocol condition is present exactly when the filter gives a non-empty protocol; the status condition is present exactly when the filter gives a status |
| ApiServer.WhereSpec | source/api-server/index.ts:122-132 | a task is selected iff there is no filter, or it matches each given protocol and status, where an empty protocol matches everything |
| ApiServer.Selected | source/api-server/index.ts:132 | the counted rows are exactly the rows that match the where input |
| ApiServer.SelectedCount | source/api-server/index.ts:132 | each matching row is counted as often as the store holds it, and no other row is counted |
| ApiServer.QueryWindow | source/api-server/index.ts:134-139 | a missing or zero size becomes 10 and a missing or zero page becomes 1; take = size and skip = (page − 1) × size |
| ApiServer.Page | source/api-server/index.ts:134-141 | a window inside the rows is exactly `rows[skip..skip + take]`; one starting at or past the end is empty; none holds more than `take` rows |
| ApiServer.PagesTile | source/api-server/index.ts:134-141 | pages 1 to n of the same size are exactly the first n × size rows, in order |
| ApiServer.Query | source/api-server/index.ts:119-147 | the count is the number of matching rows; the page is exactly the matching rows from position `skip` up to `skip + take`, cut off at the end, so it holds at most `take` rows |
| ApiServer.SetStatus | source/api-server/index.ts:105-116 | an unknown id gets 400 'Task not found' and nothing changes; otherwise only that task's status changes |
| ApiServer.StopThenStart | source/api-server/index.ts:105-116 | stop then start leaves that task as start alone does, and setting a status twice is the same as once |
| ApiServer.TaskTable.Create | source/api-server/index.ts:93-102 | a new row under a fresh id, always in status Ready, whatever status the request carries |
| ApiServer.TaskTable.Start | source/api-server/index.ts:105-109 | `/start` updates the table and answers as `SetStatus(…, Ready)` specifies |
| ApiServer.TaskTable.Stop | source/api-server/index.ts:112-116 | `/stop` updates the table and answers as `SetStatus(…, Stopped)` specifies |

## Left out

- Helper.GeneratePeriodicDistribution: requires a non-negative `amount`. With a negative amount the source's negative-error loop can spin forever.
- Helper.GeneratePeriodicDistribution: uses exact reals, not IEEE-754 doubles, so the rounding of tiny fractions may differ from JavaScript's. A fractional `amount` or `interval` is not modelled; both are integers here.
- Helper.DistributeErrorRandomly: a random index is a nondeterministic choice, so the uniform distribution of `Math.random` is not modelled. An iteration of the negative loop that picks a slot that is not positive changes nothing, so only the iterations that pick a positive slot are modelled.
- Helper.DistributeErrorRandomly: the requires on a negative error is exactly the condition under which the source's loop can end.
- Helper.CycleSeconds: the current year and month are a parameter instead of `new Date()`. Time zones are not modelled.
- HttpSender.IsHttpsProtocol: `toLowerCase` is modelled on ASCII letters only. No other character lowers to h, t, p or s, so the prefix test has the same outcome.
- HttpSender.Send: the network is a script of hops. These are not modelled:
  - socket I/O;
  - the `timeout` event, which has no listener, so a request that times out just hangs;
  - errors on the request object, such as a failed connection. The request has no `error` listener, so Node ends the process;
  - the fact that `request.end()` is never called.
- HttpSender.Send: `maxRedirects` is an integer here. A fractional budget is not modelled.
- SenderManager: `start` and `close` return at once and touch no state, so there is nothing to model.
- TaskScheduler.ShouldProcessCount: `getCurrentDateDistribution` is not part of this model, so it is a function parameter. A periodic rule must have a non-negative amount; this requires is inherited from the generator. Other rule types throw before the amount is read, so they may have any amount.
- TaskScheduler.Tick: the attempts are not awaited and run concurrently in the source. Here each attempt is modelled on its own (`ProcessTask`), and the interleaving of the store writes of different attempts is not modelled. The one exception is `StopDuringAttemptIsOverwritten`.
- TaskScheduler.ProcessTask: store writes never fail. In the source:
  - a rejected `updateTaskStatus(task, 'Processing')` ends the attempt before the send;
  - a failing record create or final `Ready` write is only logged by `promiseToLog`;
  - a rejected `processTask` call is not awaited, and a rejected follow-up
    `send(...).then(resolve)` has no handler. Either is an unhandled rejection
    that ends the process under Node's default mode.
- TaskScheduler: the `setInterval` timing, the record's `startTime`/`completedTime`, and the logging in `promiseToLog` are left out. These are clocks and I/O.
- ApiServer.Query: Prisma's `findMany` window is modelled only for a non-negative take and skip. A negative take reads backwards and a negative skip is rejected by Prisma, which is not part of this model. The store rows are given already in `createdTime` descending order.
- ApiServer: the fastify server lifecycle and the reply bodies are left out, except for the 400 and 401 answers. Task ids are natural numbers handed out by the table, not the database's own ids.
- source/index.ts (environment parsing, bootstrap, signal handling) is process glue and is not part of this model.
