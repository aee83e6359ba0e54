/**
 * source/task-scheduler/sender/http/index.ts: the HTTP sender's decisions.
 *
 * The network is replaced by a script of "hops": what happens to the i-th
 * request the sender issues (its constructor throws, or a response arrives
 * with a status, a Location header and a sequence of response events). The
 * result promise is a cell that keeps only its first `resolve`.
 */
module HttpSender {
  import opened Wrappers
  import opened Types

  // ---------------------------------------------------------------------------
  // Defaults and settings

  const DefaultTimeout: int := 10000
  const DefaultMaxRedirects: int := 3
  const DefaultFollowRedirects: bool := true
  const DefaultReceiveResponse: bool := false

  /** `mergeDefault(v, d)`: the value when one is given (`v != null`), the default otherwise. */
  function MergeDefault<T>(v: Option<T>, d: T): (r: T)
    ensures v.Some? ==> r == v.value
    ensures v.None? ==> r == d
  {
    match v
    case Some(x) => x
    case None => d
  }

  function Timeout(spec: HttpSpec): int { MergeDefault(spec.timeout, DefaultTimeout) }
  function MaxRedirects(spec: HttpSpec): int { MergeDefault(spec.maxRedirects, DefaultMaxRedirects) }
  function FollowRedirects(spec: HttpSpec): bool { MergeDefault(spec.followRedirects, DefaultFollowRedirects) }
  function ReceiveResponse(spec: HttpSpec): bool { MergeDefault(spec.receiveResponse, DefaultReceiveResponse) }

  /** A spec that sets nothing optional gets a 10 s timeout, three redirects followed, and no body read. */
  lemma DefaultSettings(spec: HttpSpec)
    requires spec.timeout.None? && spec.maxRedirects.None?
    requires spec.followRedirects.None? && spec.receiveResponse.None?
    ensures Timeout(spec) == 10000 && MaxRedirects(spec) == 3
    ensures FollowRedirects(spec) && !ReceiveResponse(spec)
  {
  }

  /** A value that is given, even 0 or false, overrides the default. */
  lemma GivenSettingsWin(spec: HttpSpec)
    requires spec.timeout == Some(0) && spec.maxRedirects == Some(0)
    requires spec.followRedirects == Some(false) && spec.receiveResponse == Some(true)
    ensures Timeout(spec) == 0 && MaxRedirects(spec) == 0
    ensures !FollowRedirects(spec) && ReceiveResponse(spec)
  {
  }

  // ---------------------------------------------------------------------------
  // Scheme selection

  /** `toLowerCase` on one character, for the ASCII letters. */
  function LowerChar(c: char): char
  {
    if 'A' <= c <= 'Z' then (c as int - 'A' as int + 'a' as int) as char else c
  }

  function Lower(s: string): (l: string)
    ensures |l| == |s|
    ensures forall k :: 0 <= k < |s| ==> l[k] == LowerChar(s[k])
  {
    if s == [] then [] else [LowerChar(s[0])] + Lower(s[1..])
  }

  /** `isHttpsProtocol`: the lower-cased URL starts with "https". */
  predicate IsHttpsProtocol(url: string)
    ensures IsHttpsProtocol(url) <==> |url| >= 5 && Lower(url[..5]) == "https"
  {
    var l := Lower(url);
    assert |url| >= 5 ==> l[..5] == Lower(url[..5]);
    |l| >= 5 && l[..5] == "https"
  }

  /**
   * The check is case-insensitive letter by letter and looks at nothing after
   * the fifth character: "HtTpS...", "https" and "httpsfoo" all qualify.
   */
  lemma IsHttpsProtocolSpec(url: string)
    ensures IsHttpsProtocol(url) <==>
              |url| >= 5 && forall k :: 0 <= k < 5 ==> url[k] == "https"[k] || url[k] == "HTTPS"[k]
  {
    var l := Lower(url);
    if |url| >= 5 {
      if forall k :: 0 <= k < 5 ==> url[k] == "https"[k] || url[k] == "HTTPS"[k] {
        assert l[..5] == "https";
      }
      if l[..5] == "https" {
        forall k | 0 <= k < 5
          ensures url[k] == "https"[k] || url[k] == "HTTPS"[k]
        {
          assert LowerChar(url[k]) == "https"[k];
        }
      }
    }
  }

  lemma SchemeExamples()
    ensures IsHttpsProtocol("HTTPS://a")
    ensures IsHttpsProtocol("httpsfoo")
  {
    IsHttpsProtocolSpec("HTTPS://a");
    IsHttpsProtocolSpec("httpsfoo");
  }

  lemma SchemeCounterExamples()
    ensures !IsHttpsProtocol("http://a")
    ensures !IsHttpsProtocol("/https")
  {
    IsHttpsProtocolSpec("http://a");
    IsHttpsProtocolSpec("/https");
  }

  // ---------------------------------------------------------------------------
  // Request options

  datatype Client = HttpClient | HttpsClient

  /** The fields of `http.RequestOptions` that `send` sets. */
  datatype RequestOptions = RequestOptions(
    path: string,
    httpMethod: string,
    host: Option<string>,
    headers: Option<map<string, string>>,
    timeout: int)

  /**
   * `requestOptions` as built in source/task-scheduler/sender/http/index.ts:16-23:
   * the whole URL is the path, and the host is set only when it is a
   * non-empty string (a truthy value); any headers object is truthy.
   */
  function OptionsFor(spec: HttpSpec): (o: RequestOptions)
    ensures o.path == spec.url && o.httpMethod == spec.httpMethod
    ensures o.host.Some? <==> spec.host.Some? && spec.host.value != ""
    ensures o.host.Some? ==> o.host == spec.host
    ensures o.headers == spec.headers
    ensures o.timeout == Timeout(spec)
  {
    var host := if spec.host.Some? && spec.host.value != "" then spec.host else None;
    RequestOptions(spec.url, spec.httpMethod, host, spec.headers, Timeout(spec))
  }

  function ClientFor(spec: HttpSpec): (c: Client)
    ensures c == HttpsClient <==> |spec.url| >= 5 && Lower(spec.url[..5]) == "https"
  {
    if IsHttpsProtocol(spec.url) then HttpsClient else HttpClient
  }

  // ---------------------------------------------------------------------------
  // Redirects

  predicate IsRedirectStatus(code: int)
  {
    code == 301 || code == 302 || code == 307 || code == 308
  }

  /**
   * The redirect rule of source/task-scheduler/sender/http/index.ts:34-42: the
   * spec of the follow-up request, if one is issued.
   */
  function FollowUp(spec: HttpSpec, statusCode: Option<int>, location: Option<string>): (next: Option<HttpSpec>)
    ensures next.Some? <==>
              statusCode.Some? && IsRedirectStatus(statusCode.value) && FollowRedirects(spec) &&
              MaxRedirects(spec) > 0 && location.Some? && location.value != ""
    ensures next.Some? ==> next.value == spec.(url := location.value, maxRedirects := Some(MaxRedirects(spec) - 1))
  {
    if statusCode.Some? && IsRedirectStatus(statusCode.value) && FollowRedirects(spec) && MaxRedirects(spec) > 0 then
      if location.Some? && location.value != "" then
        Some(spec.(url := location.value, maxRedirects := Some(MaxRedirects(spec) - 1)))
      else None
    else None
  }

  /**
   * The follow-up request keeps every option but the path; only the URL
   * and the remaining budget change in its spec.
   */
  lemma FollowUpKeepsOptions(spec: HttpSpec, statusCode: Option<int>, location: Option<string>)
    requires FollowUp(spec, statusCode, location).Some?
    ensures var next := FollowUp(spec, statusCode, location).value;
            OptionsFor(next) == OptionsFor(spec).(path := location.value) &&
            MaxRedirects(next) == MaxRedirects(spec) - 1 &&
            FollowRedirects(next) == FollowRedirects(spec) &&
            ReceiveResponse(next) == ReceiveResponse(spec)
  {
  }

  // ---------------------------------------------------------------------------
  // Responses and the result promise

  /**
   * What a response emits, in order. `InnerSettled` marks the moment the
   * follow-up request's promise calls this promise's `resolve`.
   */
  datatype ResponseEvent = Data | End | Close | Error(message: string) | InnerSettled

  /** What happens to one issued request. */
  datatype Hop =
    | Threw(reason: string)    // the request constructor throws, so the promise rejects
    | Responded(statusCode: Option<int>, location: Option<string>, events: seq<ResponseEvent>)

  datatype SendOutcome = Pending | Resolved(result: SenderResult) | Rejected(reason: string)

  /** One request created by `requestClient.request`; `destroyed` when a `data` event destroyed it. */
  datatype Exchange = Exchange(client: Client, options: RequestOptions, destroyed: bool)

  datatype SendTrace = SendTrace(outcome: SendOutcome, exchanges: seq<Exchange>)

  const Delivered: SenderResult := SenderResult(true, "")

  /** The value an event hands to `resolve`, if any; `inner` is the follow-up's result, if it resolves. */
  function Candidate(e: ResponseEvent, inner: Option<SenderResult>): (r: Option<SenderResult>)
    ensures r.None? <==> e == InnerSettled && inner.None?
    ensures e.Error? ==> r == Some(SenderResult(false, e.message))
  {
    match e
    case Data => Some(Delivered)
    case End => Some(Delivered)
    case Close => Some(Delivered)
    case Error(m) => Some(SenderResult(false, m))
    case InnerSettled => inner
  }

  /**
   * The value the promise settles with. After the marker the follow-up's
   * result is spent; without a marker it arrives after all own events.
   */
  function FirstCandidate(events: seq<ResponseEvent>, inner: Option<SenderResult>): (r: Option<SenderResult>)
    ensures r.None? ==> inner.None? && forall k :: 0 <= k < |events| ==> events[k] == InnerSettled
  {
    if events == [] then inner
    else if Candidate(events[0], inner).Some? then Candidate(events[0], inner)
    else FirstCandidate(events[1..], if events[0] == InnerSettled then None else inner)
  }

  /** The promise settles with the earliest candidate; every later `resolve` is ignored. */
  lemma {:induction false} FirstCandidateIsEarliest(events: seq<ResponseEvent>, inner: Option<SenderResult>, k: int)
    requires 0 <= k < |events| && Candidate(events[k], inner).Some?
    requires forall j :: 0 <= j < k ==> Candidate(events[j], inner).None?
    ensures FirstCandidate(events, inner) == Candidate(events[k], inner)
  {
    if k > 0 {
      assert Candidate(events[0], inner).None?;
      if events[0] == InnerSettled {
        assert inner.None?;
      }
      FirstCandidateIsEarliest(events[1..], inner, k - 1);
    }
  }

  /** With no candidate among the events, only the follow-up's result (if any) settles the promise. */
  lemma {:induction false} NoCandidateFallsBack(events: seq<ResponseEvent>, inner: Option<SenderResult>)
    requires forall j :: 0 <= j < |events| ==> events[j] == InnerSettled
    ensures FirstCandidate(events, inner) == inner
  {
    if events != [] && inner.None? {
      assert events[0] == InnerSettled;
      NoCandidateFallsBack(events[1..], inner);
    }
  }

  /**
   * `send(spec)` against the script `hops`: the outcome of its promise and the
   * requests it issues, the follow-up chain included.
   */
  function Send(spec: HttpSpec, hops: seq<Hop>): (t: SendTrace)
    ensures t.outcome.Rejected? <==> hops != [] && hops[0].Threw?
    ensures t.exchanges == [] <==> hops != [] && hops[0].Threw?
    ensures t.exchanges != [] ==> t.exchanges[0].client == ClientFor(spec) && t.exchanges[0].options == OptionsFor(spec)
    decreases |hops|
  {
    if hops == [] then SendTrace(Pending, [Exchange(ClientFor(spec), OptionsFor(spec), false)])
    else match hops[0]
      case Threw(reason) => SendTrace(Rejected(reason), [])
      case Responded(statusCode, location, events) =>
        var next := FollowUp(spec, statusCode, location);
        var inner := if next.Some? then Send(next.value, hops[1..]) else SendTrace(Pending, []);
        var innerResult := if inner.outcome.Resolved? then Some(inner.outcome.result) else None;
        var settled := FirstCandidate(events, innerResult);
        var destroyed := !ReceiveResponse(spec) && Data in events;
        SendTrace(if settled.Some? then Resolved(settled.value) else Pending,
                  [Exchange(ClientFor(spec), OptionsFor(spec), destroyed)] + inner.exchanges)
  }

  /**
   * A redirect chain issues at most the initial `maxRedirects` extra
   * requests.
   */
  lemma {:induction false} RedirectBudget(spec: HttpSpec, hops: seq<Hop>)
    ensures |Send(spec, hops).exchanges| <= 1 + Max0(MaxRedirects(spec))
    decreases |hops|
  {
    if hops != [] && hops[0].Responded? {
      var next := FollowUp(spec, hops[0].statusCode, hops[0].location);
      if next.Some? {
        RedirectBudget(next.value, hops[1..]);
      }
    }
  }

  /** Each issued request carries the options its own spec builds, in the order they are issued. */
  lemma {:induction false} ExchangesFollowTheChain(spec: HttpSpec, hops: seq<Hop>)
    requires hops != [] && hops[0].Responded?
    requires FollowUp(spec, hops[0].statusCode, hops[0].location).Some?
    ensures var next := FollowUp(spec, hops[0].statusCode, hops[0].location).value;
            Send(spec, hops).exchanges[0].options == OptionsFor(spec) &&
            Send(spec, hops).exchanges[1..] == Send(next, hops[1..]).exchanges
  {
  }

  /** A response's own first `data`, `end` or `close` resolves as delivered; its `error` resolves as failed. */
  lemma FirstEventDecides(spec: HttpSpec, hops: seq<Hop>)
    requires hops != [] && hops[0].Responded? && hops[0].events != []
    requires hops[0].events[0] != InnerSettled
    ensures hops[0].events[0].Error? ==> Send(spec, hops).outcome == Resolved(SenderResult(false, hops[0].events[0].message))
    ensures !hops[0].events[0].Error? ==> Send(spec, hops).outcome == Resolved(Delivered)
  {
  }

  /** With no redirect followed, a response without events leaves the promise pending forever. */
  lemma SilentResponseHangs(spec: HttpSpec, statusCode: Option<int>, location: Option<string>, rest: seq<Hop>)
    requires FollowUp(spec, statusCode, location).None?
    ensures Send(spec, [Responded(statusCode, location, [])] + rest).outcome == Pending
  {
  }

  /** The destroy on `data` happens exactly when the response body is not wanted. */
  lemma DestroyOnData(spec: HttpSpec, hops: seq<Hop>)
    requires hops != [] && hops[0].Responded?
    ensures Send(spec, hops).exchanges != []
    ensures Send(spec, hops).exchanges[0].destroyed <==> !ReceiveResponse(spec) && Data in hops[0].events
  {
  }

  /**
   * A 302 to /next of a request that allows one redirect: two requests go
   * out, and the follow-up's `end` decides when the first response is silent.
   * With no budget left only one request goes out, and the 302 response's own
   * first chunk resolves the attempt as delivered.
   */
  lemma FoundRedirectExample(spec: HttpSpec)
    requires spec.url == "http://a/" && spec.followRedirects.None? && spec.receiveResponse.None?
    ensures var s := spec.(maxRedirects := Some(1));
            var t := Send(s, [Responded(Some(302), Some("/next"), []), Responded(Some(200), None, [End])]);
            t.outcome == Resolved(Delivered) && |t.exchanges| == 2 && t.exchanges[1].options.path == "/next"
    ensures var s := spec.(maxRedirects := Some(0));
            var t := Send(s, [Responded(Some(302), Some("/next"), [Data]), Responded(Some(200), None, [End])]);
            t.outcome == Resolved(Delivered) && |t.exchanges| == 1 && t.exchanges[0].destroyed
  {
    var s := spec.(maxRedirects := Some(1));
    var next := s.(url := "/next", maxRedirects := Some(0));
    var hops := [Responded(Some(302), Some("/next"), []), Responded(Some(200), None, [End])];
    assert FollowUp(s, Some(302), Some("/next")) == Some(next);
    assert hops[1..] == [Responded(Some(200), None, [End])];
    assert FollowUp(next, Some(200), None).None?;
    assert Send(next, hops[1..]).outcome == Resolved(Delivered);
  }

  /** The race of source/task-scheduler/sender/http/index.ts:39-60: a response's own `end` can beat the follow-up. */
  lemma OwnEventBeatsRedirect(spec: HttpSpec, rest: seq<Hop>)
    requires FollowUp(spec, Some(301), Some("/moved")).Some?
    ensures Send(spec, [Responded(Some(301), Some("/moved"), [End, InnerSettled])] + rest).outcome == Resolved(Delivered)
  {
  }

  /** ... and a follow-up that settles first decides the outcome. */
  lemma RedirectBeatsOwnEvent(spec: HttpSpec, rest: seq<Hop>)
    requires FollowUp(spec, Some(301), Some("/moved")).Some?
    requires Send(FollowUp(spec, Some(301), Some("/moved")).value, rest).outcome.Resolved?
    ensures var inner := Send(FollowUp(spec, Some(301), Some("/moved")).value, rest).outcome;
            Send(spec, [Responded(Some(301), Some("/moved"), [InnerSettled, Error("socket hang up")])] + rest).outcome == inner
  {
    var hops := [Responded(Some(301), Some("/moved"), [InnerSettled, Error("socket hang up")])] + rest;
    assert hops[1..] == rest;
  }

  // ---------------------------------------------------------------------------
  // The imperative sender

  /** The promise of one `send`: only the first `resolve` takes effect. */
  class ResultPromise {
    var settled: Option<SenderResult>

    constructor()
      ensures settled.None?
    {
      settled := None;
    }

    method Resolve(r: SenderResult)
      modifies this
      ensures settled == if old(settled).None? then Some(r) else old(settled)
    {
      if settled.None? {
        settled := Some(r);
      }
    }
  }

  lemma FirstCandidateStep(events: seq<ResponseEvent>, i: int, inner: Option<SenderResult>)
    requires 0 <= i < |events|
    ensures FirstCandidate(events[i..], inner) ==
              if Candidate(events[i], inner).Some? then Candidate(events[i], inner)
              else FirstCandidate(events[i + 1..], if events[i] == InnerSettled then None else inner)
  {
    assert events[i..][0] == events[i];
    assert events[i..][1..] == events[i + 1..];
  }

  /**
   * The response listeners of source/task-scheduler/sender/http/index.ts:45-60
   * run over the events as they arrive; `inner` is the follow-up's result,
   * handed to `resolve` at the marker or, without one, after the events.
   */
  method DeliverEvents(promise: ResultPromise, events: seq<ResponseEvent>, inner: Option<SenderResult>, receiveResponse: bool)
    returns (destroyed: bool)
    requires promise.settled.None?
    modifies promise
    ensures promise.settled == FirstCandidate(events, inner)
    ensures destroyed <==> !receiveResponse && Data in events
  {
    destroyed := false;
    var pendingInner := inner;
    var i := 0;
    while i < |events|
      invariant 0 <= i <= |events|
      invariant promise.settled.Some? ==> promise.settled == FirstCandidate(events, inner)
      invariant promise.settled.None? ==> FirstCandidate(events, inner) == FirstCandidate(events[i..], pendingInner)
      invariant pendingInner.Some? ==> pendingInner == inner
      invariant destroyed <==> !receiveResponse && Data in events[..i]
    {
      FirstCandidateStep(events, i, pendingInner);
      match events[i] {
        case Data =>
          promise.Resolve(Delivered);
          if !receiveResponse {
            destroyed := true;
          }
        case End =>
          promise.Resolve(Delivered);
        case Close =>
          promise.Resolve(Delivered);
        case Error(message) =>
          promise.Resolve(SenderResult(false, message));
        case InnerSettled =>
          if pendingInner.Some? {
            promise.Resolve(pendingInner.value);
          }
          pendingInner := None;
      }
      assert events[..i + 1] == events[..i] + [events[i]];
      i := i + 1;
    }
    if pendingInner.Some? {
      promise.Resolve(pendingInner.value);
    }
  }

  /** `send(spec)`, recursing on a followed redirect. */
  method SendRequest(spec: HttpSpec, hops: seq<Hop>) returns (trace: SendTrace)
    ensures trace == Send(spec, hops)
    decreases |hops|
  {
    var options := OptionsFor(spec);
    var client := if IsHttpsProtocol(spec.url) then HttpsClient else HttpClient;
    var maxRedirects := MergeDefault(spec.maxRedirects, DefaultMaxRedirects);
    var followRedirects := MergeDefault(spec.followRedirects, DefaultFollowRedirects);
    var receiveResponse := MergeDefault(spec.receiveResponse, DefaultReceiveResponse);

    if hops == [] {
      return SendTrace(Pending, [Exchange(client, options, false)]);
    }
    match hops[0]
    case Threw(reason) =>
      return SendTrace(Rejected(reason), []);
    case Responded(statusCode, location, events) =>
      var promise := new ResultPromise();
      var inner := SendTrace(Pending, []);
      if statusCode.Some? {
        var isRedirect := IsRedirectStatus(statusCode.value);
        if followRedirects && isRedirect && maxRedirects > 0 {
          if location.Some? && location.value != "" {
            inner := SendRequest(spec.(url := location.value, maxRedirects := Some(maxRedirects - 1)), hops[1..]);
          }
        }
      }
      ghost var next := FollowUp(spec, statusCode, location);
      assert inner == if next.Some? then Send(next.value, hops[1..]) else SendTrace(Pending, []);
      var innerResult := if inner.outcome.Resolved? then Some(inner.outcome.result) else None;
      var destroyed := DeliverEvents(promise, events, innerResult, receiveResponse);
      assert client == ClientFor(spec) && receiveResponse == ReceiveResponse(spec);
      var outcome := if promise.settled.Some? then Resolved(promise.settled.value) else Pending;
      trace := SendTrace(outcome, [Exchange(client, options, destroyed)] + inner.exchanges);
  }
}
