/**
 * source/task-scheduler/index.ts: the polling scheduler.
 *
 * One tick is modelled sequentially: it lists the Ready tasks, asks each one
 * how many attempts it is due, and issues that many `processTask` calls.
 * Each attempt is an ordered list of store effects. The timer runtime is
 * reduced to the set of armed interval handles.
 */
module TaskScheduler {
  import opened Wrappers
  import opened Types
  import opened Helper
  import opened HttpSender
  import opened SenderManager

  const PeriodicDistribution: string := "periodicDistribution"

  /** The slot length, in seconds, the scheduler asks the generator for. */
  const SlotSeconds: int := 10

  datatype SchedulerError =
    | UnsupportedRuleType                 // `throw new Error('unsupported rule type')`
    | Generation(error: GenerationError)  // thrown by generatePeriodicDistribution

  // ---------------------------------------------------------------------------
  // getShouldProcessCount

  /** The error `getShouldProcessCount` throws for a task, if any; it depends on the rule alone. */
  function CountFailure(task: Task, now: CalendarMonth): Option<SchedulerError>
  {
    if task.rule.None? || task.rule.value.ruleType != PeriodicDistribution then Some(UnsupportedRuleType)
    else match CycleSteps(task.rule.value, SlotSeconds, now)
      case Failure(e) => Some(Generation(e))
      case Success(_) => None
  }

  /** The generator is only reached for a periodic rule, so only such a rule's amount matters. */
  predicate AmountNonNegative(task: Task)
  {
    task.rule.Some? && task.rule.value.ruleType == PeriodicDistribution ==> task.rule.value.amount >= 0
  }

  /**
   * `count` is what `currentDateDistribution` makes of `distribution`, an
   * array the generator can return for that task's rule with 10-second slots:
   * one slot per 10 seconds of the cycle, summing to the amount, obtained
   * from the interpolated fill of the rule by redistributing the rounding
   * error, and with no negative slot when the weights are non-negative.
   */
  ghost predicate DrawnCount(task: Task, now: CalendarMonth, currentDateDistribution: (seq<int>, string) -> int,
                             distribution: seq<int>, count: int)
  {
    task.rule.Some? &&
    CycleSteps(task.rule.value, SlotSeconds, now).Success? &&
    |distribution| == CycleSteps(task.rule.value, SlotSeconds, now).value &&
    Sum(distribution) == task.rule.value.amount &&
    AbsorbsError(Fill(task.rule.value, |distribution|), distribution) &&
    (NonNegativeWeights(task.rule.value.distribution) ==> forall k :: 0 <= k < |distribution| ==> distribution[k] >= 0) &&
    count == currentDateDistribution(distribution, task.rule.value.cycle)
  }

  /**
   * `getShouldProcessCount(task)`. `currentDateDistribution` stands for
   * `getCurrentDateDistribution`, which is not part of this model; `distribution`
   * is the array it is given.
   */
  method ShouldProcessCount(task: Task, now: CalendarMonth, currentDateDistribution: (seq<int>, string) -> int)
    returns (r: Result<int, SchedulerError>, ghost distribution: seq<int>)
    requires AmountNonNegative(task)
    ensures r.Failure? <==> CountFailure(task, now).Some?
    ensures r.Failure? ==> r.error == CountFailure(task, now).value
    ensures r.Success? ==> DrawnCount(task, now, currentDateDistribution, distribution, r.value)
  {
    distribution := [];
    if task.rule.Some? && task.rule.value.ruleType == PeriodicDistribution {
      var rule := task.rule.value;
      var generated, filled := GeneratePeriodicDistribution(rule, SlotSeconds, now);
      if generated.Failure? {
        r := Failure(Generation(generated.error));
        return;
      }
      distribution := generated.value;
      r := Success(currentDateDistribution(generated.value, rule.cycle));
      return;
    }
    r := Failure(UnsupportedRuleType);
  }

  /** A day of 10-second slots has 8640 of them; a 30-day month 259200. */
  lemma SlotCounts(rule: DistributionRule, now: CalendarMonth)
    ensures rule.cycle == "day" ==> CycleSteps(rule, SlotSeconds, now) == Success(8640)
    ensures rule.cycle == "month" && DaysInMonth(now.year, now.month) == 30 ==>
              CycleSteps(rule, SlotSeconds, now) == Success(259200)
  {
  }

  // ---------------------------------------------------------------------------
  // The tick

  /** `db.task.findMany({ where: { status: 'Ready' } })` over the rows in store order. */
  function ReadyTasks(tasks: seq<Task>): (ready: seq<Task>)
    ensures forall t :: t in ready <==> t in tasks && t.status == Ready
  {
    if tasks == [] then []
    else (if tasks[0].status == Ready then [tasks[0]] else []) + ReadyTasks(tasks[1..])
  }

  /** Each Ready row is listed as often as the store holds it, and no other row is listed. */
  lemma {:induction false} ReadyTasksCount(tasks: seq<Task>, t: Task)
    ensures multiset(ReadyTasks(tasks))[t] == if t.status == Ready then multiset(tasks)[t] else 0
  {
    if tasks != [] {
      assert tasks == [tasks[0]] + tasks[1..];
      ReadyTasksCount(tasks[1..], t);
    }
  }

  /** How many calls the counts add up to; a count below 1 adds none. */
  function TotalCalls(counts: seq<int>): nat
  {
    if counts == [] then 0 else TotalCalls(counts[..|counts| - 1]) + Max0(counts[|counts| - 1])
  }

  /** The `processTask` calls the nested loops issue: `counts[k]` calls for `tasks[k]`, in order. */
  function Attempts(tasks: seq<Task>, counts: seq<int>): (calls: seq<Task>)
    requires |counts| == |tasks|
    decreases |tasks|
  {
    if tasks == [] then []
    else
      var n := |tasks| - 1;
      Attempts(tasks[..n], counts[..n]) + seq(Max0(counts[n]), _ => tasks[n])
  }

  /** The nested loops make as many calls as the counts add up to. */
  lemma {:induction false} AttemptsLength(tasks: seq<Task>, counts: seq<int>)
    requires |counts| == |tasks|
    ensures |Attempts(tasks, counts)| == TotalCalls(counts)
    decreases |tasks|
  {
    if tasks != [] {
      var n := |tasks| - 1;
      AttemptsLength(tasks[..n], counts[..n]);
    }
  }

  lemma {:induction false} AttemptsOfTasks(tasks: seq<Task>, counts: seq<int>, t: Task)
    requires |counts| == |tasks|
    requires t in Attempts(tasks, counts)
    ensures t in tasks
    decreases |tasks|
  {
    var n := |tasks| - 1;
    if t !in seq(Max0(counts[n]), _ => tasks[n]) {
      AttemptsOfTasks(tasks[..n], counts[..n], t);
    }
  }

  lemma {:induction false} CopiesCount(n: nat, t: Task, u: Task)
    ensures multiset(seq(n, _ => t))[u] == if t == u then n else 0
  {
    if n > 0 {
      assert seq(n, _ => t) == seq(n - 1, _ => t) + [t];
      CopiesCount(n - 1, t, u);
    }
  }

  ghost predicate DistinctIds(tasks: seq<Task>)
  {
    forall i, j :: 0 <= i < j < |tasks| ==> tasks[i].id != tasks[j].id
  }

  lemma DistinctIdsTail(tasks: seq<Task>)
    requires tasks != [] && DistinctIds(tasks)
    ensures DistinctIds(tasks[1..])
  {
    var rest := tasks[1..];
    forall i, j | 0 <= i < j < |rest|
      ensures rest[i].id != rest[j].id
    {
      assert rest[i] == tasks[i + 1] && rest[j] == tasks[j + 1];
    }
  }

  lemma DistinctIdsCons(t: Task, tasks: seq<Task>)
    requires DistinctIds(tasks)
    requires forall u :: u in tasks ==> u.id != t.id
    ensures DistinctIds([t] + tasks)
  {
    var s := [t] + tasks;
    forall i, j | 0 <= i < j < |s|
      ensures s[i].id != s[j].id
    {
      assert s[j] == tasks[j - 1];
      if i == 0 {
        assert s[j] in tasks;
      } else {
        assert s[i] == tasks[i - 1];
      }
    }
  }

  /** Rows with distinct ids (the store's primary key) give Ready tasks with distinct ids. */
  lemma {:induction false} ReadyTasksDistinct(store: seq<Task>)
    requires DistinctIds(store)
    ensures DistinctIds(ReadyTasks(store))
    decreases |store|
  {
    if store != [] {
      var rest := store[1..];
      DistinctIdsTail(store);
      ReadyTasksDistinct(rest);
      if store[0].status == Ready {
        forall u | u in ReadyTasks(rest)
          ensures u.id != store[0].id
        {
          var m :| 0 <= m < |rest| && rest[m] == u;
          assert store[m + 1] == u;
        }
        DistinctIdsCons(store[0], ReadyTasks(rest));
      }
    }
  }

  /** With distinct task ids, task k gets exactly its count of attempts (none for a count below 1). */
  lemma {:induction false} AttemptsPerTask(tasks: seq<Task>, counts: seq<int>, k: int)
    requires |counts| == |tasks| && DistinctIds(tasks)
    requires 0 <= k < |tasks|
    ensures multiset(Attempts(tasks, counts))[tasks[k]] == Max0(counts[k])
    decreases |tasks|
  {
    var n := |tasks| - 1;
    var front := Attempts(tasks[..n], counts[..n]);
    assert Attempts(tasks, counts) == front + seq(Max0(counts[n]), _ => tasks[n]);
    CopiesCount(Max0(counts[n]), tasks[n], tasks[k]);
    if k < n {
      AttemptsPerTask(tasks[..n], counts[..n], k);
    } else {
      if tasks[n] in front {
        AttemptsOfTasks(tasks[..n], counts[..n], tasks[n]);
        assert false;
      }
    }
  }

  lemma AttemptsSnoc(tasks: seq<Task>, counts: seq<int>, c: int)
    requires |counts| < |tasks|
    ensures Attempts(tasks[..|counts| + 1], counts + [c]) ==
              Attempts(tasks[..|counts|], counts) + seq(Max0(c), _ => tasks[|counts|])
  {
    var n := |counts|;
    assert tasks[..n + 1][..n] == tasks[..n];
    assert (counts + [c])[..n] == counts;
  }

  /**
   * The inner loop of source/task-scheduler/index.ts:90-92: `count` calls of
   * `processTask(task)`, and none for a count below 1.
   */
  method IssueAttempts(task: Task, count: int) returns (calls: seq<Task>)
    ensures calls == seq(Max0(count), _ => task)
    ensures forall c :: c in calls ==> c == task
  {
    calls := [];
    var processIndex := 0;
    while processIndex < count
      invariant 0 <= processIndex <= Max0(count)
      invariant calls == seq(processIndex, _ => task)
      invariant forall c :: c in calls ==> c == task
    {
      assert seq(processIndex + 1, _ => task) == seq(processIndex, _ => task) + [task];
      calls := calls + [task];
      processIndex := processIndex + 1;
    }
  }

  /**
   * The first `|counts|` tasks passed `getShouldProcessCount`: task k drew
   * `counts[k]` from the generated `distributions[k]`.
   */
  ghost predicate AllDrawn(tasks: seq<Task>, now: CalendarMonth, currentDateDistribution: (seq<int>, string) -> int,
                           distributions: seq<seq<int>>, counts: seq<int>)
  {
    |distributions| == |counts| <= |tasks| &&
    forall k :: 0 <= k < |counts| ==>
      CountFailure(tasks[k], now).None? && DrawnCount(tasks[k], now, currentDateDistribution, distributions[k], counts[k])
  }

  lemma AllDrawnSnoc(tasks: seq<Task>, now: CalendarMonth, currentDateDistribution: (seq<int>, string) -> int,
                     distributions: seq<seq<int>>, counts: seq<int>, distribution: seq<int>, count: int)
    requires AllDrawn(tasks, now, currentDateDistribution, distributions, counts) && |counts| < |tasks|
    requires CountFailure(tasks[|counts|], now).None?
    requires DrawnCount(tasks[|counts|], now, currentDateDistribution, distribution, count)
    ensures AllDrawn(tasks, now, currentDateDistribution, distributions + [distribution], counts + [count])
  {
    var ds, cs := distributions + [distribution], counts + [count];
    forall k | 0 <= k < |cs|
      ensures CountFailure(tasks[k], now).None? && DrawnCount(tasks[k], now, currentDateDistribution, ds[k], cs[k])
    {
      if k < |counts| {
        assert cs[k] == counts[k] && ds[k] == distributions[k];
      }
    }
  }

  /**
   * One firing of the `setInterval` callback (source/task-scheduler/index.ts:81-94)
   * over the store's rows. `attempts` are the `processTask` calls in order;
   * `counts` are the counts obtained before the tick ended. An error thrown
   * by `getShouldProcessCount` leaves the callback, so that task and every
   * later one get no attempt in this tick.
   */
  method Tick(store: seq<Task>, now: CalendarMonth, currentDateDistribution: (seq<int>, string) -> int)
    returns (attempts: seq<Task>, aborted: Option<SchedulerError>, ghost counts: seq<int>, ghost distributions: seq<seq<int>>)
    requires forall t :: t in store && t.status == Ready ==> AmountNonNegative(t)
    ensures var ready := ReadyTasks(store);
            |counts| <= |ready| &&
            attempts == Attempts(ready[..|counts|], counts) &&
            (aborted.None? ==> |counts| == |ready|) &&
            (aborted.Some? ==> |counts| < |ready| && CountFailure(ready[|counts|], now) == aborted)
    ensures AllDrawn(ReadyTasks(store), now, currentDateDistribution, distributions, counts)
    ensures forall t :: t in attempts ==> t in store && t.status == Ready
  {
    var tasks := ReadyTasks(store);
    attempts := [];
    aborted := None;
    counts := [];
    distributions := [];
    for index := 0 to |tasks|
      invariant |counts| == index
      invariant attempts == Attempts(tasks[..index], counts)
      invariant forall t :: t in attempts ==> t in tasks
      invariant AllDrawn(tasks, now, currentDateDistribution, distributions, counts)
    {
      var task := tasks[index];
      assert task in tasks;
      var count, distribution := ShouldProcessCount(task, now, currentDateDistribution);
      if count.Failure? {
        aborted := Some(count.error);
        return;
      }
      var calls := IssueAttempts(task, count.value);
      assert forall t :: t in attempts + calls ==> t in attempts || t in calls;
      attempts := attempts + calls;
      AttemptsSnoc(tasks, counts, count.value);
      AllDrawnSnoc(tasks, now, currentDateDistribution, distributions, counts, distribution, count.value);
      counts := counts + [count.value];
      distributions := distributions + [distribution];
    }
    assert tasks[..|tasks|] == tasks;
  }

  /** A completed tick gives each Ready task exactly its count and no other task any attempt. */
  lemma TickShares(store: seq<Task>, attempts: seq<Task>, counts: seq<int>)
    requires |counts| == |ReadyTasks(store)| && DistinctIds(store)
    requires attempts == Attempts(ReadyTasks(store)[..|counts|], counts)
    ensures forall t :: t in attempts ==> t in store && t.status == Ready
    ensures forall k :: 0 <= k < |counts| ==> multiset(attempts)[ReadyTasks(store)[k]] == Max0(counts[k])
  {
    var ready := ReadyTasks(store);
    ReadyTasksDistinct(store);
    assert ready[..|counts|] == ready;
    forall t | t in attempts
      ensures t in store && t.status == Ready
    {
      AttemptsOfTasks(ready, counts, t);
    }
    forall k | 0 <= k < |counts|
      ensures multiset(attempts)[ready[k]] == Max0(counts[k])
    {
      AttemptsPerTask(ready, counts, k);
    }
  }

  // ---------------------------------------------------------------------------
  // processTask

  datatype RecordStatus = Successful | Failed

  /** What a record stores as `result`: the sender's result, or the rejection reason. */
  datatype RecordResult = Outcome(result: SenderResult) | Exception(reason: string)

  /** A task record; its start and completion times are not modelled. */
  datatype TaskRecord = TaskRecord(taskId: TaskId, status: RecordStatus, result: RecordResult)

  /** The store operations one attempt performs, and the send between them. */
  datatype Effect =
    | WriteStatus(taskId: TaskId, status: Status)
    | IssueSend(taskId: TaskId)
    | CreateRecord(record: TaskRecord)

  /** What a settled attempt does after the send: its record, then the Ready write. */
  function Settlement(task: Task, outcome: SendOutcome): seq<Effect>
  {
    match outcome
    case Pending => []
    case Resolved(result) => [CreateRecord(TaskRecord(task.id, Successful, Outcome(result))), WriteStatus(task.id, Ready)]
    case Rejected(reason) => [CreateRecord(TaskRecord(task.id, Failed, Exception(reason))), WriteStatus(task.id, Ready)]
  }

  /**
   * The effects of `processTask(task)` when the send ends in `outcome`: the
   * Processing write, the send, then (once it settles) one record and the
   * Ready write of the `finally`. Any resolved send is recorded as Successful.
   */
  function AttemptEffects(task: Task, outcome: SendOutcome): (effects: seq<Effect>)
    ensures |effects| == if outcome.Pending? then 2 else 4
    ensures forall k :: 0 <= k < |effects| ==>
              (if effects[k].CreateRecord? then effects[k].record.taskId else effects[k].taskId) == task.id
  {
    [WriteStatus(task.id, Processing), IssueSend(task.id)] + Settlement(task, outcome)
  }

  /** `processTask(task)`, its send scripted by `hops`. */
  method ProcessTask(task: Task, hops: seq<Hop>) returns (effects: seq<Effect>)
    ensures effects == AttemptEffects(task, Dispatch(task, hops).outcome)
  {
    effects := [WriteStatus(task.id, Processing)];
    effects := effects + [IssueSend(task.id)];
    var sent := Dispatch(task, hops);
    match sent.outcome {
      case Pending =>
      case Resolved(result) =>
        effects := effects + [CreateRecord(TaskRecord(task.id, Successful, Outcome(result)))];
        effects := effects + [WriteStatus(task.id, Ready)];
      case Rejected(reason) =>
        effects := effects + [CreateRecord(TaskRecord(task.id, Failed, Exception(reason)))];
        effects := effects + [WriteStatus(task.id, Ready)];
    }
  }

  /** The records among some effects, in order. */
  function Records(effects: seq<Effect>): seq<TaskRecord>
  {
    if effects == [] then []
    else (if effects[0].CreateRecord? then [effects[0].record] else []) + Records(effects[1..])
  }

  /** A task's status after one effect. */
  function StatusStep(id: TaskId, status: Status, e: Effect): Status
  {
    if e.WriteStatus? && e.taskId == id then e.status else status
  }

  /** A task's status after a run of effects, starting from `status`. */
  function StatusAfter(id: TaskId, status: Status, effects: seq<Effect>): Status
    decreases |effects|
  {
    if effects == [] then status
    else StatusAfter(id, StatusStep(id, status, effects[0]), effects[1..])
  }

  lemma RecordsCons(e: Effect, rest: seq<Effect>)
    ensures Records([e] + rest) == (if e.CreateRecord? then [e.record] else []) + Records(rest)
  {
    assert ([e] + rest)[1..] == rest;
  }

  lemma StatusAfterCons(id: TaskId, status: Status, e: Effect, rest: seq<Effect>)
    ensures StatusAfter(id, status, [e] + rest) == StatusAfter(id, StatusStep(id, status, e), rest)
  {
    assert ([e] + rest)[1..] == rest;
  }

  lemma {:induction false} StatusAfterAppend(id: TaskId, status: Status, a: seq<Effect>, b: seq<Effect>)
    ensures StatusAfter(id, status, a + b) == StatusAfter(id, StatusAfter(id, status, a), b)
    decreases |a|
  {
    if a == [] {
      assert a + b == b;
    } else {
      assert a + b == [a[0]] + (a[1..] + b);
      assert a == [a[0]] + a[1..];
      StatusAfterCons(id, status, a[0], a[1..] + b);
      StatusAfterCons(id, status, a[0], a[1..]);
      StatusAfterAppend(id, StatusStep(id, status, a[0]), a[1..], b);
    }
  }

  lemma SettlementEffects(task: Task, outcome: SendOutcome, status: Status)
    ensures AttemptEffects(task, outcome) ==
              [WriteStatus(task.id, Processing)] + ([IssueSend(task.id)] + Settlement(task, outcome))
    ensures outcome.Pending? ==> Records(Settlement(task, outcome)) == [] &&
                                 StatusAfter(task.id, status, Settlement(task, outcome)) == status
    ensures !outcome.Pending? ==> Records(Settlement(task, outcome)) == [Settlement(task, outcome)[0].record] &&
                                  StatusAfter(task.id, status, Settlement(task, outcome)) == Ready
  {
    var tail := Settlement(task, outcome);
    if !outcome.Pending? {
      assert tail == [tail[0]] + ([tail[1]] + []);
      RecordsCons(tail[0], [tail[1]] + []);
      RecordsCons(tail[1], []);
      StatusAfterCons(task.id, status, tail[0], [tail[1]] + []);
      StatusAfterCons(task.id, StatusStep(task.id, status, tail[0]), tail[1], []);
    }
  }

  /**
   * The Processing write comes before the send; a settled attempt creates
   * exactly one record, Successful exactly when the send resolved (even with
   * `success: false`), and then leaves that task Ready; a pending one leaves it
   * Processing with no record.
   */
  lemma AttemptLifecycle(task: Task, outcome: SendOutcome, status: Status)
    ensures var effects := AttemptEffects(task, outcome);
            effects[0] == WriteStatus(task.id, Processing) && effects[1] == IssueSend(task.id)
    ensures var records := Records(AttemptEffects(task, outcome));
            (outcome.Pending? ==> records == []) &&
            (!outcome.Pending? ==> |records| == 1 && records[0].taskId == task.id &&
                                   (records[0].status == Successful <==> outcome.Resolved?))
    ensures StatusAfter(task.id, status, AttemptEffects(task, outcome)) == if outcome.Pending? then Processing else Ready
  {
    var id := task.id;
    var tail := Settlement(task, outcome);
    SettlementEffects(task, outcome, Processing);
    RecordsCons(WriteStatus(id, Processing), [IssueSend(id)] + tail);
    RecordsCons(IssueSend(id), tail);
    StatusAfterCons(id, status, WriteStatus(id, Processing), [IssueSend(id)] + tail);
    StatusAfterCons(id, Processing, IssueSend(id), tail);
  }

  /** Attempts of other tasks never touch a task's status. */
  lemma {:induction false} OtherTasksUntouched(id: TaskId, status: Status, effects: seq<Effect>)
    requires forall k :: 0 <= k < |effects| ==> !(effects[k].WriteStatus? && effects[k].taskId == id)
    ensures StatusAfter(id, status, effects) == status
    decreases |effects|
  {
    if effects != [] {
      assert !(effects[0].WriteStatus? && effects[0].taskId == id);
      OtherTasksUntouched(id, status, effects[1..]);
    }
  }

  /** A task whose protocol has no sender is recorded as Successful with the unsupported-protocol result. */
  lemma UnsupportedProtocolRecordedSuccessful(task: Task, hops: seq<Hop>)
    requires task.protocol != "http"
    ensures Records(AttemptEffects(task, Dispatch(task, hops).outcome)) ==
              [TaskRecord(task.id, Successful, Outcome(SenderResult(false, "unsupported protocol")))]
  {
    var outcome := Dispatch(task, hops).outcome;
    AttemptLifecycle(task, outcome, Ready);
    SettlementEffects(task, outcome, Processing);
    RecordsCons(WriteStatus(task.id, Processing), [IssueSend(task.id)] + Settlement(task, outcome));
    RecordsCons(IssueSend(task.id), Settlement(task, outcome));
  }

  /**
   * `request.end()` is never called, so no HTTP response ever arrives: an
   * HTTP attempt whose request is created and whose connection does not fail
   * stays pending, its task stays Processing and no record is made.
   */
  lemma UnsentRequestHangs(task: Task, status: Status)
    requires task.protocol == "http"
    ensures Dispatch(task, []).outcome == Pending
    ensures StatusAfter(task.id, status, AttemptEffects(task, Dispatch(task, []).outcome)) == Processing
    ensures Records(AttemptEffects(task, Dispatch(task, []).outcome)) == []
  {
    AttemptLifecycle(task, Pending, status);
  }

  /**
   * An HTTP request that cannot be created (the call throws) rejects the
   * send: the attempt records Failed and puts the task back to Ready.
   */
  lemma UncreatableRequestFails(task: Task, reason: string, status: Status)
    requires task.protocol == "http"
    ensures Dispatch(task, [Threw(reason)]).outcome.Rejected?
    ensures var records := Records(AttemptEffects(task, Dispatch(task, [Threw(reason)]).outcome));
            |records| == 1 && records[0].taskId == task.id && records[0].status == Failed
    ensures StatusAfter(task.id, status, AttemptEffects(task, Dispatch(task, [Threw(reason)]).outcome)) == Ready
  {
    AttemptLifecycle(task, Dispatch(task, [Threw(reason)]).outcome, status);
  }

  /**
   * A stop issued while an attempt is in flight is undone: the attempt's
   * Ready write after settlement puts that task back in the polling set.
   */
  lemma StopDuringAttemptIsOverwritten(task: Task, outcome: SendOutcome, status: Status)
    requires !outcome.Pending?
    ensures var effects := AttemptEffects(task, outcome);
            StatusAfter(task.id, status, effects[..2] + [WriteStatus(task.id, Stopped)] + effects[2..]) == Ready
  {
    var effects := AttemptEffects(task, outcome);
    var front := effects[..2] + [WriteStatus(task.id, Stopped)];
    SettlementEffects(task, outcome, StatusAfter(task.id, status, front));
    assert effects[2..] == Settlement(task, outcome);
    StatusAfterAppend(task.id, status, front, effects[2..]);
  }

  // ---------------------------------------------------------------------------
  // start / close

  /**
   * The scheduler's `intervalId`, with the timer runtime reduced to the set of
   * armed interval handles and the next handle it hands out.
   */
  class Scheduler {
    var intervalId: Option<nat>
    var timers: set<nat>
    var nextHandle: nat

    /** At most one interval is armed, and it is the one `intervalId` holds. */
    ghost predicate Valid()
      reads this
    {
      (intervalId.None? ==> timers == {}) &&
      (intervalId.Some? ==> timers == {intervalId.value} && intervalId.value < nextHandle)
    }

    constructor()
      ensures Valid() && intervalId.None? && timers == {}
    {
      intervalId := None;
      timers := {};
      nextHandle := 0;
    }

    /** `start`: arms the tick interval, unless one is already armed. */
    method Start()
      requires Valid()
      modifies this
      ensures Valid() && intervalId.Some?
      ensures old(intervalId).Some? ==> intervalId == old(intervalId) && timers == old(timers) && nextHandle == old(nextHandle)
      ensures old(intervalId).None? ==> intervalId == Some(old(nextHandle)) && timers == {old(nextHandle)} && nextHandle == old(nextHandle) + 1
    {
      if intervalId.Some? {
        return;
      }
      intervalId := Some(nextHandle);
      timers := timers + {nextHandle};
      nextHandle := nextHandle + 1;
    }

    /** `close`: clears the armed interval, if any, and forgets it, so a later `start` re-arms. */
    method Close()
      requires Valid()
      modifies this
      ensures Valid() && intervalId.None? && timers == {} && nextHandle == old(nextHandle)
    {
      if intervalId.Some? {
        timers := timers - {intervalId.value};
      }
      intervalId := None;
    }
  }

  /** However `start` and `close` are called, no two intervals run at once. */
  lemma AtMostOneTimer(s: Scheduler)
    requires s.Valid()
    ensures |s.timers| <= 1
  {
  }
}
