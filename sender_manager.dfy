/**
 * source/task-scheduler/sender/index.ts: routes a task to the sender of its
 * protocol. Only "http" has a sender.
 */
module SenderManager {
  import opened Types
  import opened HttpSender

  const HttpProtocol: string := "http"

  /** The fixed answer for every protocol without a sender. */
  const UnsupportedProtocol: SenderResult := SenderResult(false, "unsupported protocol")

  /**
   * `createSenderManager().send(task)`, with `hops` scripting the network for
   * the HTTP sender. Only an HTTP task can reject or create a request.
   */
  function Dispatch(task: Task, hops: seq<Hop>): (t: SendTrace)
    ensures t.outcome.Rejected? ==> task.protocol == HttpProtocol && hops != [] && hops[0].Threw?
    ensures t.exchanges != [] ==> task.protocol == HttpProtocol && t.exchanges[0].options == OptionsFor(task.spec)
  {
    if task.protocol == HttpProtocol then Send(task.spec, hops)
    else SendTrace(Resolved(UnsupportedProtocol), [])
  }

  /** Exactly "http" delegates to the HTTP sender with its own spec. */
  lemma HttpDelegates(task: Task, hops: seq<Hop>)
    requires task.protocol == "http"
    ensures Dispatch(task, hops) == Send(task.spec, hops)
  {
  }

  /**
   * Any other protocol resolves (never rejects) with the unsupported-protocol
   * result and issues no request, whatever the network would do.
   */
  lemma OtherProtocolsUnsupported(task: Task, hops: seq<Hop>, hops': seq<Hop>)
    requires task.protocol != "http"
    ensures Dispatch(task, hops).outcome == Resolved(SenderResult(false, "unsupported protocol"))
    ensures Dispatch(task, hops).exchanges == []
    ensures Dispatch(task, hops) == Dispatch(task, hops')
  {
  }

  /** The comparison is case-sensitive: "HTTP" and "https" have no sender. */
  lemma RoutingIsCaseSensitive(task: Task, hops: seq<Hop>)
    requires task.protocol == "HTTP" || task.protocol == "https"
    ensures Dispatch(task, hops) == SendTrace(Resolved(UnsupportedProtocol), [])
  {
  }
}
