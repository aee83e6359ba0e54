/**
 * The records shared by the scheduler, the senders and the management API
 * (source/type.ts and the persisted Task row).
 */
module Types {
  import opened Wrappers

  /** The outcome a sender reports for one attempt. */
  datatype SenderResult = SenderResult(success: bool, message: string)

  /**
   * An HTTP request description; every optional member of the TypeScript
   * interface is an Option (absent, `undefined` and `null` all read as None).
   */
  datatype HttpSpec = HttpSpec(
    url: string,
    host: Option<string>,
    httpMethod: string,
    headers: Option<map<string, string>>,
    receiveResponse: Option<bool>,
    timeout: Option<int>,
    maxRedirects: Option<int>,
    followRedirects: Option<bool>)

  /**
   * A distribution rule as stored in a task's JSON `rule` column. `ruleType`
   * is the `type` tag; `cycle` is a free string because the generator
   * rejects anything other than day, week and month at run time.
   */
  datatype DistributionRule = DistributionRule(
    ruleType: string,
    amount: int,
    cycle: string,
    distribution: seq<real>)

  /** Task lifecycle states of the persistence schema. */
  datatype Status = Ready | Processing | Stopped

  type TaskId = nat

  /** A task row; `rule` is None when the JSON column holds no rule object. */
  datatype Task = Task(
    id: TaskId,
    protocol: string,
    spec: HttpSpec,
    rule: Option<DistributionRule>,
    status: Status)

  /** The calendar month of "now", as `getFullYear()` and `getMonth() + 1` give it. */
  type MonthNumber = m: int | 1 <= m <= 12 witness 1

  datatype CalendarMonth = CalendarMonth(year: int, month: MonthNumber)
}
