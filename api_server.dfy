/**
 * source/api-server/index.ts: the management API's own logic — the Bearer
 * token pre-handler, the query filter and paging arithmetic, and the
 * create/start/stop status updates over the tasks table.
 */
module ApiServer {
  import opened Wrappers
  import opened Types

  // ---------------------------------------------------------------------------
  // String.prototype.split(' ')

  /** `s.split(' ')`: the fields between single spaces, empty ones included. */
  function Split(s: string): (parts: seq<string>)
    ensures |parts| >= 1
    ensures forall k :: 0 <= k < |parts| ==> ' ' !in parts[k]
  {
    if s == [] then [""]
    else if s[0] == ' ' then [""] + Split(s[1..])
    else
      var rest := Split(s[1..]);
      [[s[0]] + rest[0]] + rest[1..]
  }

  /** `parts.join(' ')`. */
  function Join(parts: seq<string>): string
    requires |parts| >= 1
  {
    if |parts| == 1 then parts[0] else parts[0] + " " + Join(parts[1..])
  }

  /** Splitting loses nothing: joining the fields with single spaces gives the string back. */
  lemma {:induction false} JoinSplit(s: string)
    ensures Join(Split(s)) == s
  {
    if s != [] {
      JoinSplit(s[1..]);
      var rest := Split(s[1..]);
      if s[0] == ' ' {
        assert Split(s)[1..] == rest;
      } else {
        assert s == [s[0]] + s[1..];
        if |rest| == 1 {
          assert Join(Split(s)) == [s[0]] + rest[0];
        } else {
          assert Split(s)[1..] == rest[1..];
          assert Join(rest) == rest[0] + " " + Join(rest[1..]);
        }
      }
    }
  }

  /** A string without spaces is a single field. */
  lemma {:induction false} SplitWord(w: string)
    requires ' ' !in w
    ensures Split(w) == [w]
  {
    if w != [] {
      assert w[0] != ' ';
      SplitWord(w[1..]);
      assert w == [w[0]] + w[1..];
    }
  }

  /** A space-free word followed by a space is the first field. */
  lemma {:induction false} SplitAfterWord(w: string, t: string)
    requires ' ' !in w
    ensures Split(w + " " + t) == [w] + Split(t)
  {
    if w == [] {
      assert w + " " + t == [' '] + t;
      assert (w + " " + t)[1..] == t;
    } else {
      assert w[0] != ' ';
      assert (w + " " + t)[1..] == w[1..] + " " + t;
      SplitAfterWord(w[1..], t);
      assert w == [w[0]] + w[1..];
    }
  }

  /** Fields without spaces split back to themselves. */
  lemma {:induction false} SplitJoin(parts: seq<string>)
    requires |parts| >= 1
    requires forall k :: 0 <= k < |parts| ==> ' ' !in parts[k]
    ensures Split(Join(parts)) == parts
    decreases |parts|
  {
    if |parts| == 1 {
      SplitWord(parts[0]);
    } else {
      SplitAfterWord(parts[0], Join(parts[1..]));
      SplitJoin(parts[1..]);
    }
  }

  // ---------------------------------------------------------------------------
  // The preHandler hook

  datatype Verdict = Pass | Unauthorized  // Unauthorized: 401 `{ error: 'Unauthorized' }`

  /**
   * The preHandler of source/api-server/index.ts:67-90. `apiToken` is
   * `process.env.API_TOKEN` when it is a string; `authorization` is the header.
   */
  function PreHandler(apiToken: Option<string>, authorization: Option<string>): (v: Verdict)
    ensures apiToken.None? ==> v == Pass
    ensures apiToken.Some? && (authorization.None? || authorization == Some("")) ==> v == Unauthorized
  {
    if apiToken.None? then Pass
    else if authorization.None? || authorization.value == "" then Unauthorized
    else
      var parts := Split(authorization.value);
      var tokenType := parts[0];
      var token := if |parts| >= 2 then Some(parts[1]) else None;
      if tokenType != "Bearer" || token != Some(apiToken.value) then Unauthorized else Pass
  }

  /**
   * A header passes exactly when it is "Bearer", one space and the token,
   * either alone or followed by a space and anything at all; a token with a
   * space in it can never match.
   */
  lemma PreHandlerSpec(token: string, header: string)
    ensures PreHandler(Some(token), Some(header)) == Pass <==>
              ' ' !in token &&
              (header == "Bearer " + token || "Bearer " + token + " " <= header)
  {
    var parts := Split(header);
    if PreHandler(Some(token), Some(header)) == Pass {
      assert parts[0] == "Bearer" && |parts| >= 2 && parts[1] == token;
      JoinSplit(header);
      assert header == "Bearer" + " " + Join(parts[1..]);
      if |parts| == 2 {
        assert Join(parts[1..]) == token;
        assert header == "Bearer " + token;
      } else {
        assert parts[1..][1..] == parts[2..];
        assert Join(parts[1..]) == token + " " + Join(parts[2..]);
        assert header == "Bearer " + token + " " + Join(parts[2..]);
      }
    }
    if ' ' !in token && header == "Bearer " + token {
      SplitWord(token);
      SplitAfterWord("Bearer", token);
      assert "Bearer" + " " + token == header;
    }
    if ' ' !in token && "Bearer " + token + " " <= header {
      var rest := header[|"Bearer " + token + " "|..];
      assert header == "Bearer" + " " + (token + " " + rest);
      SplitAfterWord("Bearer", token + " " + rest);
      SplitAfterWord(token, rest);
    }
  }

  /** Fields after the token are ignored. */
  lemma TrailingFieldsIgnored()
    ensures PreHandler(Some("t"), Some("Bearer t")) == Pass
    ensures PreHandler(Some("t"), Some("Bearer t x")) == Pass
  {
    PreHandlerSpec("t", "Bearer t");
    PreHandlerSpec("t", "Bearer t x");
  }

  /** A double space makes the token field empty, which matches only an empty configured token. */
  lemma DoubleSpaceEmptiesToken()
    ensures PreHandler(Some("t"), Some("Bearer  t")) == Unauthorized
    ensures PreHandler(Some(""), Some("Bearer  t")) == Pass
  {
    PreHandlerSpec("t", "Bearer  t");
    PreHandlerSpec("", "Bearer  t");
  }

  /** The scheme is compared case-sensitively, and a missing token field never matches. */
  lemma SchemeAndTokenRequired()
    ensures PreHandler(Some("t"), Some("bearer t")) == Unauthorized
    ensures PreHandler(Some("t"), Some("Bearer")) == Unauthorized
  {
    PreHandlerSpec("t", "bearer t");
    PreHandlerSpec("t", "Bearer");
  }

  // ---------------------------------------------------------------------------
  // The query handler

  datatype TaskFilter = TaskFilter(status: Option<Status>, protocol: Option<string>)

  /** The `Prisma.TaskWhereInput` the handler builds. */
  datatype WhereInput = WhereInput(protocol: Option<string>, status: Option<Status>)

  /**
   * source/api-server/index.ts:122-130: a filter member is used only when it is
   * truthy; every status name is a non-empty string.
   */
  function Where(filter: Option<TaskFilter>): (w: WhereInput)
    ensures w.protocol.Some? <==> filter.Some? && filter.value.protocol.Some? && filter.value.protocol.value != ""
    ensures w.status.Some? <==> filter.Some? && filter.value.status.Some?
  {
    var protocol := if filter.Some? && filter.value.protocol.Some? && filter.value.protocol.value != "" then filter.value.protocol else None;
    var status := if filter.Some? && filter.value.status.Some? then filter.value.status else None;
    WhereInput(protocol, status)
  }

  /** The rows a where input selects. */
  predicate Matches(w: WhereInput, task: Task)
  {
    (w.protocol.Some? ==> task.protocol == w.protocol.value) &&
    (w.status.Some? ==> task.status == w.status.value)
  }

  /** An empty protocol filter and a missing one both select every protocol. */
  lemma WhereSpec(filter: Option<TaskFilter>, task: Task)
    ensures Matches(Where(filter), task) <==>
              filter.None? ||
              ((filter.value.protocol.None? || filter.value.protocol.value == "" || task.protocol == filter.value.protocol.value) &&
               (filter.value.status.None? || task.status == filter.value.status.value))
  {
  }

  /** The rows of the store a where input selects, in store order (what `count` counts). */
  function Selected(rows: seq<Task>, w: WhereInput): (s: seq<Task>)
    ensures |s| <= |rows|
    ensures forall t :: t in s <==> t in rows && Matches(w, t)
  {
    if rows == [] then []
    else (if Matches(w, rows[0]) then [rows[0]] else []) + Selected(rows[1..], w)
  }

  /** Each matching row is selected, and counted, as often as the store holds it; no other row is. */
  lemma {:induction false} SelectedCount(rows: seq<Task>, w: WhereInput, t: Task)
    ensures multiset(Selected(rows, w))[t] == if Matches(w, t) then multiset(rows)[t] else 0
  {
    if rows != [] {
      assert rows == [rows[0]] + rows[1..];
      SelectedCount(rows[1..], w, t);
    }
  }

  datatype QueryPaging = QueryPaging(size: Option<int>, page: Option<int>)

  /** The `take` and `skip` handed to `findMany`. */
  datatype Window = Window(take: int, skip: int)

  /** `paging?.size || 10` and `paging?.page || 1`: a missing or zero value takes the default. */
  function QueryWindow(paging: Option<QueryPaging>): (w: Window)
    ensures paging.None? ==> w == Window(10, 0)
    ensures paging.Some? && paging.value.size.Some? && paging.value.size.value != 0 ==> w.take == paging.value.size.value
    ensures paging.Some? && (paging.value.size.None? || paging.value.size == Some(0)) ==> w.take == 10
    ensures paging.Some? && paging.value.page.Some? && paging.value.page.value != 0 ==> w.skip == (paging.value.page.value - 1) * w.take
    ensures paging.Some? && (paging.value.page.None? || paging.value.page == Some(0)) ==> w.skip == 0
  {
    var size := if paging.Some? && paging.value.size.Some? && paging.value.size.value != 0 then paging.value.size.value else 10;
    var page := if paging.Some? && paging.value.page.Some? && paging.value.page.value != 0 then paging.value.page.value else 1;
    Window(size, (page - 1) * size)
  }

  /** `findMany` with a non-negative `take` and `skip` over rows already in result order. */
  function Page(rows: seq<Task>, take: nat, skip: nat): (p: seq<Task>)
    ensures |p| <= take
    ensures skip + take <= |rows| ==> |p| == take && p == rows[skip..skip + take]
    ensures skip >= |rows| ==> p == []
  {
    var lo := if skip <= |rows| then skip else |rows|;
    var hi := if skip + take <= |rows| then skip + take else |rows|;
    rows[lo..hi]
  }

  /** Pages 1 to n of size `size`, one after the other. */
  function FirstPages(rows: seq<Task>, size: nat, n: nat): seq<Task>
    requires size > 0
  {
    if n == 0 then []
    else
      var w := QueryWindow(Some(QueryPaging(Some(size), Some(n))));
      FirstPages(rows, size, n - 1) + Page(rows, w.take, (n - 1) * size)
  }

  lemma NextPageStart(m: nat, size: nat)
    ensures (m + 1) * size == m * size + size
  {
  }

  lemma PageSlice(rows: seq<Task>, size: nat, lo: nat)
    ensures Page(rows, size, lo) ==
              rows[(if lo <= |rows| then lo else |rows|)..(if lo + size <= |rows| then lo + size else |rows|)]
  {
  }

  /** Consecutive pages of the same size tile the rows: pages 1..n are exactly the first n * size rows. */
  lemma {:induction false} PagesTile(rows: seq<Task>, size: nat, n: nat)
    requires size > 0
    ensures FirstPages(rows, size, n) == rows[..if n * size <= |rows| then n * size else |rows|]
  {
    if n > 0 {
      var m := n - 1;
      PagesTile(rows, size, m);
      NextPageStart(m, size);
      PageSlice(rows, size, m * size);
      var a := if m * size <= |rows| then m * size else |rows|;
      var b := if n * size <= |rows| then n * size else |rows|;
      assert rows[..b] == rows[..a] + rows[a..b];
    }
  }

  datatype QueryReply = QueryReply(count: int, tasks: seq<Task>)

  /**
   * The query handler over the store's rows in `createdTime` descending
   * order, for windows `findMany` accepts (no negative take or skip).
   */
  function Query(rows: seq<Task>, filter: Option<TaskFilter>, paging: Option<QueryPaging>): (r: QueryReply)
    requires QueryWindow(paging).take >= 0 && QueryWindow(paging).skip >= 0
    ensures r.count == |Selected(rows, Where(filter))|
    ensures |r.tasks| <= QueryWindow(paging).take
    ensures forall t :: t in r.tasks ==> t in rows && Matches(Where(filter), t)
    ensures var selected := Selected(rows, Where(filter));
            var w := QueryWindow(paging);
            var lo := if w.skip <= |selected| then w.skip else |selected|;
            var hi := if w.skip + w.take <= |selected| then w.skip + w.take else |selected|;
            r.tasks == selected[lo..hi]
  {
    var where := Where(filter);
    var selected := Selected(rows, where);
    var window := QueryWindow(paging);
    QueryReply(|selected|, Page(selected, window.take, window.skip))
  }

  // ---------------------------------------------------------------------------
  // create / start / stop

  datatype Reply = Ok | BadRequest(error: string, message: string)

  const TaskNotFound: Reply := BadRequest("Bad Request", "Task not found")

  /**
   * The start and stop handlers' effect on the table: an unknown id is
   * answered 400 and changes nothing; otherwise only the addressed task
   * changes, and only its status.
   */
  function SetStatus(rows: map<TaskId, Task>, id: TaskId, status: Status): (r: (map<TaskId, Task>, Reply))
    ensures var (rows', reply) := r;
            rows'.Keys == rows.Keys &&
            (id !in rows ==> reply == BadRequest("Bad Request", "Task not found") && rows' == rows) &&
            (id in rows ==> reply == Ok && rows'[id].status == status &&
                            rows'[id] == rows[id].(status := status)) &&
            (forall other :: other in rows && other != id ==> rows'[other] == rows[other])
  {
    if id !in rows then (rows, TaskNotFound)
    else (rows[id := rows[id].(status := status)], Ok)
  }

  /** Stopping then starting a task leaves it Ready, and setting a status twice is setting it once. */
  lemma StopThenStart(rows: map<TaskId, Task>, id: TaskId, status: Status)
    ensures SetStatus(SetStatus(rows, id, Stopped).0, id, Ready).0 == SetStatus(rows, id, Ready).0
    ensures SetStatus(SetStatus(rows, id, status).0, id, status) == SetStatus(rows, id, status)
  {
    if id in rows {
      var once := SetStatus(rows, id, status).0;
      assert once[id := once[id].(status := status)] == once;
    }
  }

  /** The tasks table, with the store's id assignment as `nextId`. */
  class TaskTable {
    var rows: map<TaskId, Task>
    var nextId: TaskId

    /** Every row is filed under its own id, and every id given out is below `nextId`. */
    ghost predicate Valid()
      reads this
    {
      forall id :: id in rows ==> id < nextId && rows[id].id == id
    }

    constructor()
      ensures Valid() && rows == map[]
    {
      rows := map[];
      nextId := 0;
    }

    /** `/create`: a new row in status Ready, whatever status the request carries. */
    method Create(protocol: string, spec: HttpSpec, rule: Option<DistributionRule>, requestedStatus: Status)
      requires Valid()
      modifies this
      ensures Valid()
      ensures old(nextId) !in old(rows)
      ensures rows == old(rows)[old(nextId) := Task(old(nextId), protocol, spec, rule, Ready)]
      ensures nextId == old(nextId) + 1
    {
      rows := rows[nextId := Task(nextId, protocol, spec, rule, Ready)];
      nextId := nextId + 1;
    }

    /** `/start`: that task becomes Ready. */
    method Start(id: TaskId) returns (reply: Reply)
      requires Valid()
      modifies this
      ensures Valid() && nextId == old(nextId)
      ensures (rows, reply) == SetStatus(old(rows), id, Ready)
    {
      if id !in rows {
        return TaskNotFound;
      }
      rows := rows[id := rows[id].(status := Ready)];
      reply := Ok;
    }

    /** `/stop`: that task becomes Stopped. */
    method Stop(id: TaskId) returns (reply: Reply)
      requires Valid()
      modifies this
      ensures Valid() && nextId == old(nextId)
      ensures (rows, reply) == SetStatus(old(rows), id, Stopped)
    {
      if id !in rows {
        return TaskNotFound;
      }
      rows := rows[id := rows[id].(status := Stopped)];
      reply := Ok;
    }
  }
}
