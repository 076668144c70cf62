/** The evaluation lifecycle: create with a 24-hour edit window, read, partial
    update while the window is open, delete at any time, and the filtered
    newest-first listing.

    The request handlers are the methods of `EvaluationStore`, a class over the
    `evaluations` table. Each is specified by a pure transition over `Table`
    (`CreateStep`, `UpdateStep`, `DeleteStep`, `Lookup`); the lemmas below are
    about those transitions, and `Replay` strings them together so that the
    edit lock can be followed across any sequence of requests. The clock is a
    parameter of every operation that reads it. */
module Evaluations {
  import opened Http
  import opened Schema
  import Recency

  /** `setHours(getHours() + 24)`, on a millisecond clock. */
  const EDIT_WINDOW: int := 24 * 60 * 60 * 1000

  const MSG_REQUIRED := "guard_id and client_id are required"
  const MSG_NOT_FOUND := "Evaluation not found"
  const MSG_LOCKED := "Evaluation is no longer editable"
  const MSG_DELETED := "Evaluation deleted successfully"

  /** The body of `POST /evaluations`; `total_score` is given as its string form. */
  datatype CreateBody = CreateBody(
    guardId: Option<string>,
    clientId: Option<string>,
    kpiScores: Option<KpiScores>,
    totalScore: Option<string>,
    remarks: Option<string>,
    evaluatedBy: Option<string>)

  /** A field of an update: absent (`undefined`, which `.set` skips) or written,
      possibly with JSON `null`. */
  datatype Patch<+T> = Keep | Write(value: T)

  /** The body of `PUT /evaluations/:id`. `total_score` is an `Option` and not a
      `Patch`: `total_score?.toString()` turns `null` into `undefined`, so it is
      never written as `null`. */
  datatype UpdateBody = UpdateBody(
    kpiScores: Patch<Option<KpiScores>>,
    totalScore: Option<string>,
    remarks: Patch<Option<string>>)

  /** `x || null` on a string field. */
  function OrNull(s: Option<string>): Option<string> {
    if Present(s) then s else None
  }

  /** `x || fallback` on a string field. */
  function OrElse(s: Option<string>, fallback: string): string {
    if Present(s) then s.value else fallback
  }

  /** The row `createEvaluation` inserts at time `now` under the next serial id:
      the values the body supplies, the column defaults for the others, and
      the deadline 24 hours after creation. */
  function NewEvaluation(id: nat, body: CreateBody, now: Timestamp): (e: Evaluation)
    requires Present(body.guardId) && Present(body.clientId)
    ensures e.id == id && e.guardId == body.guardId.value && e.clientId == body.clientId.value
    ensures e.createdAt == now && e.updatedAt == now && e.editableUntil == Some(e.createdAt + EDIT_WINDOW)
    ensures body.kpiScores.Some? ==> e.kpiScores == body.kpiScores
    ensures body.kpiScores.None? ==> e.kpiScores == Some(map[])
    ensures Present(body.totalScore) ==> e.totalScore == body.totalScore
    ensures !Present(body.totalScore) ==> e.totalScore == Some("0")
    ensures Present(body.remarks) ==> e.remarks == body.remarks
    ensures !Present(body.remarks) ==> e.remarks.None?
    ensures Present(body.evaluatedBy) ==> e.evaluatedBy == body.evaluatedBy
    ensures !Present(body.evaluatedBy) ==> e.evaluatedBy.None?
  {
    Evaluation(
      id, body.clientId.value, body.guardId.value,
      Some(if body.kpiScores.Some? then body.kpiScores.value else DEFAULT_KPI_SCORES),
      Some(OrElse(body.totalScore, DEFAULT_TOTAL_SCORE)),
      Some(now + EDIT_WINDOW),
      OrNull(body.remarks), OrNull(body.evaluatedBy),
      now, now)
  }

  /** The lock test of `updateEvaluation`: a deadline exists and has strictly
      passed. A row without a deadline is never locked, and a row is still
      open at the very deadline. */
  predicate Locked(e: Evaluation, now: Timestamp): (locked: bool)
    ensures e.editableUntil.None? ==> !locked
    ensures e.editableUntil == Some(now) ==> !locked
    ensures locked ==> e.editableUntil.value < now
    ensures e.editableUntil.Some? && e.editableUntil.value < now ==> locked
  {
    e.editableUntil.Some? && e.editableUntil.value < now
  }

  function Patched<T>(current: T, p: Patch<T>): T {
    match p
    case Keep => current
    case Write(v) => v
  }

  /** The row after the `.set({kpiScores, totalScore, remarks, updatedAt})` of
      an update: every other column keeps its value. */
  function Updated(e: Evaluation, body: UpdateBody, now: Timestamp): (u: Evaluation)
    ensures u.id == e.id && u.guardId == e.guardId && u.clientId == e.clientId
    ensures u.editableUntil == e.editableUntil && u.evaluatedBy == e.evaluatedBy
    ensures u.createdAt == e.createdAt && u.updatedAt == now
    ensures body.kpiScores.Keep? && body.totalScore.None? && body.remarks.Keep? ==> u == e.(updatedAt := now)
  {
    e.(kpiScores := Patched(e.kpiScores, body.kpiScores),
       totalScore := if body.totalScore.Some? then body.totalScore else e.totalScore,
       remarks := Patched(e.remarks, body.remarks),
       updatedAt := now)
  }

  /** One condition of the list query's `where`. */
  datatype Condition = GuardIdIs(guardId: string) | ClientIdIs(clientId: string)

  /** `eq(evaluations.guardId, guard_id)` or `eq(evaluations.clientId, client_id)`. */
  predicate Holds(c: Condition, e: Evaluation): (h: bool)
    ensures c.GuardIdIs? ==> (h <==> e.guardId == c.guardId)
    ensures c.ClientIdIs? ==> (h <==> e.clientId == c.clientId)
  {
    match c
    case GuardIdIs(g) => e.guardId == g
    case ClientIdIs(cl) => e.clientId == cl
  }

  /** `and(...conditions)`; with no condition the query has no `where`. */
  predicate AllHold(conditions: seq<Condition>, e: Evaluation): (a: bool)
    ensures conditions == [] ==> a
    ensures a <==> forall i :: 0 <= i < |conditions| ==> Holds(conditions[i], e)
  {
    forall c :: c in conditions ==> Holds(c, e)
  }

  /** Reference meaning of the two optional list filters: each one that is
      given must match, and one that is absent or empty filters nothing. */
  predicate Matches(e: Evaluation, guardFilter: Option<string>, clientFilter: Option<string>): (m: bool)
    ensures !Present(guardFilter) && !Present(clientFilter) ==> m
    ensures m && Present(guardFilter) ==> e.guardId == guardFilter.value
    ensures m && Present(clientFilter) ==> e.clientId == clientFilter.value
  {
    && (Present(guardFilter) ==> e.guardId == guardFilter.value)
    && (Present(clientFilter) ==> e.clientId == clientFilter.value)
  }

  /** The `evaluations` table: rows by id and the next value of its serial sequence. */
  datatype Table = Table(rows: map<nat, Evaluation>, nextId: nat)

  /** Every row sits under its own id. Rows may carry ids the sequence has not
      reached: the import script inserts explicit ids and leaves the sequence
      where it was. */
  ghost predicate WellFormed(t: Table) {
    forall k :: k in t.rows ==> t.rows[k].id == k
  }

  /** The serial sequence is past every id in the table, as it is when every
      row was created through the sequence. */
  ghost predicate SequenceAhead(t: Table) {
    forall k :: k in t.rows ==> k < t.nextId
  }

  /** `getEvaluationById`'s query. */
  function Lookup(t: Table, id: nat): (r: Response<Evaluation>)
    ensures r.Success? <==> id in t.rows
    ensures r.Success? ==> r.status == OK && r.data == t.rows[id]
    ensures r.Failure? ==> r == Failure(NOT_FOUND, MSG_NOT_FOUND)
  {
    if id !in t.rows then Failure(NOT_FOUND, MSG_NOT_FOUND) else Success(OK, t.rows[id])
  }

  /** `createEvaluation`. The insert draws the next serial value whenever it
      runs, and fails on the primary key (a 500) when that value is already
      an id of the table; the drawn value is spent either way. */
  function CreateStep(t: Table, body: CreateBody, now: Timestamp): (res: (Table, Response<Evaluation>))
    ensures res.1.Failure? ==> res.0.rows == t.rows
    ensures res.1.Success? ==> t.nextId !in t.rows && res.0.rows == t.rows[t.nextId := res.1.data]
    ensures res.0.nextId == if Present(body.guardId) && Present(body.clientId) then t.nextId + 1 else t.nextId
  {
    if !Present(body.guardId) || !Present(body.clientId) then
      (t, Failure(BAD_REQUEST, MSG_REQUIRED))
    else if t.nextId in t.rows then
      (t.(nextId := t.nextId + 1), Failure(SERVER_ERROR, MSG_DB_ERROR))
    else
      var e := NewEvaluation(t.nextId, body, now);
      (Table(t.rows[t.nextId := e], t.nextId + 1), Success(CREATED, e))
  }

  /** `updateEvaluation`: the row is looked up, the lock tested, then the set applied. */
  function UpdateStep(t: Table, id: nat, body: UpdateBody, now: Timestamp): (res: (Table, Response<Evaluation>))
    ensures res.0.nextId == t.nextId && res.0.rows.Keys == t.rows.Keys
    ensures res.1.Failure? ==> res.0 == t
    ensures res.1.Success? ==> id in t.rows && !Locked(t.rows[id], now) && res.0.rows == t.rows[id := res.1.data]
  {
    if id !in t.rows then
      (t, Failure(NOT_FOUND, MSG_NOT_FOUND))
    else if Locked(t.rows[id], now) then
      (t, Failure(FORBIDDEN, MSG_LOCKED))
    else
      var e := Updated(t.rows[id], body, now);
      (t.(rows := t.rows[id := e]), Success(OK, e))
  }

  /** Delete answers `{success: true, message}`; the message is carried as the data. */
  function DeleteStep(t: Table, id: nat): (res: (Table, Response<string>))
    ensures res.0.nextId == t.nextId && res.0.rows.Keys == t.rows.Keys - {id}
    ensures forall k :: k in res.0.rows ==> res.0.rows[k] == t.rows[k]
    ensures res.1.Success? <==> id in t.rows
  {
    if id !in t.rows then
      (t, Failure(NOT_FOUND, MSG_NOT_FOUND))
    else
      (t.(rows := t.rows - {id}), Success(OK, MSG_DELETED))
  }

  /** A request that changes the table, with the clock reading it is handled at. */
  datatype Request =
    | CreateRequest(body: CreateBody)
    | UpdateRequest(id: nat, patch: UpdateBody)
    | DeleteRequest(id: nat)

  datatype Timed = Timed(at: Timestamp, request: Request)

  function Handle(t: Table, r: Timed): Table {
    match r.request
    case CreateRequest(body) => CreateStep(t, body, r.at).0
    case UpdateRequest(id, patch) => UpdateStep(t, id, patch, r.at).0
    case DeleteRequest(id) => DeleteStep(t, id).0
  }

  /** The table after handling `trace` one request after another. */
  function Replay(t: Table, trace: seq<Timed>): Table
    decreases |trace|
  {
    if trace == [] then t else Replay(Handle(t, trace[0]), trace[1..])
  }

  // ---------------------------------------------------------------------------
  // Properties of single requests

  /** Create rejects a missing or empty guard_id or client_id with 400 and
      leaves the table as it was. Otherwise it draws the next serial value:
      when a row already holds that id the insert fails with 500 and only the
      sequence moves on; else exactly one row is inserted under it, holding
      the supplied values, the defaults for the others, and the edit window
      stamped at creation time plus 24 hours. When the sequence is past every
      id, a create with both fields always succeeds. */
  lemma CreateOutcome(t: Table, body: CreateBody, now: Timestamp)
    requires WellFormed(t)
    ensures var (t', r) := CreateStep(t, body, now);
      && (r.Failure? <==> !Present(body.guardId) || !Present(body.clientId) || t.nextId in t.rows)
      && (!Present(body.guardId) || !Present(body.clientId) ==> r == Failure(BAD_REQUEST, MSG_REQUIRED) && t' == t)
      && (Present(body.guardId) && Present(body.clientId) && t.nextId in t.rows ==>
            r == Failure(SERVER_ERROR, MSG_DB_ERROR) && t'.rows == t.rows && t'.nextId == t.nextId + 1)
      && (SequenceAhead(t) ==> (r.Failure? <==> !Present(body.guardId) || !Present(body.clientId)))
      && (r.Success? ==>
            && r.status == CREATED
            && r.data.id == t.nextId && r.data.id !in t.rows
            && t'.rows == t.rows[r.data.id := r.data]
            && t'.nextId == t.nextId + 1
            && WellFormed(t')
            && r.data.guardId == body.guardId.value
            && r.data.clientId == body.clientId.value
            && r.data.createdAt == now && r.data.updatedAt == now
            && r.data.editableUntil == Some(r.data.createdAt + EDIT_WINDOW)
            && (body.kpiScores.Some? ==> r.data.kpiScores == body.kpiScores)
            && (body.kpiScores.None? ==> r.data.kpiScores == Some(map[]))
            && (Present(body.totalScore) ==> r.data.totalScore == body.totalScore)
            && (!Present(body.totalScore) ==> r.data.totalScore == Some("0"))
            && (Present(body.remarks) ==> r.data.remarks == body.remarks)
            && (!Present(body.remarks) ==> r.data.remarks.None?)
            && (Present(body.evaluatedBy) ==> r.data.evaluatedBy == body.evaluatedBy)
            && (!Present(body.evaluatedBy) ==> r.data.evaluatedBy.None?))
  {
  }

  /** Read, update and delete of an id that is not in the table answer 404 and
      change nothing. */
  lemma MissingIdIsNotFound(t: Table, id: nat, body: UpdateBody, now: Timestamp)
    requires id !in t.rows
    ensures Lookup(t, id) == Failure(NOT_FOUND, MSG_NOT_FOUND)
    ensures UpdateStep(t, id, body, now) == (t, Failure(NOT_FOUND, MSG_NOT_FOUND))
    ensures DeleteStep(t, id) == (t, Failure(NOT_FOUND, MSG_NOT_FOUND))
  {
  }

  /** On an existing row, update is refused with 403 exactly when the row is
      locked, and a refused update changes nothing. An update at the very
      deadline is still accepted. */
  lemma UpdateRefusedIffLocked(t: Table, id: nat, body: UpdateBody, now: Timestamp)
    requires id in t.rows
    ensures var (t', r) := UpdateStep(t, id, body, now);
      && (r.Failure? <==> t.rows[id].editableUntil.Some? && t.rows[id].editableUntil.value < now)
      && (r.Failure? ==> r == Failure(FORBIDDEN, MSG_LOCKED) && t' == t)
    ensures t.rows[id].editableUntil == Some(now) ==> UpdateStep(t, id, body, now).1.Success?
    ensures t.rows[id].editableUntil.None? ==> UpdateStep(t, id, body, now).1.Success?
  {
  }

  /** A successful update rewrites only the scores, the remarks and `updatedAt`
      of that one row; a field the body leaves out keeps its value. */
  lemma UpdateTouchesOnlyScoredFields(t: Table, id: nat, body: UpdateBody, now: Timestamp)
    requires WellFormed(t)
    requires UpdateStep(t, id, body, now).1.Success?
    ensures var (t', r) := UpdateStep(t, id, body, now);
      var before := t.rows[id];
      && id in t.rows
      && t'.nextId == t.nextId
      && t'.rows.Keys == t.rows.Keys
      && (forall k :: k in t.rows && k != id ==> t'.rows[k] == t.rows[k])
      && t'.rows[id] == r.data
      && WellFormed(t')
      && r.data.id == before.id
      && r.data.guardId == before.guardId
      && r.data.clientId == before.clientId
      && r.data.editableUntil == before.editableUntil
      && r.data.evaluatedBy == before.evaluatedBy
      && r.data.createdAt == before.createdAt
      && r.data.updatedAt == now
      && (body.kpiScores.Keep? ==> r.data.kpiScores == before.kpiScores)
      && (body.kpiScores.Write? ==> r.data.kpiScores == body.kpiScores.value)
      && (body.totalScore.None? ==> r.data.totalScore == before.totalScore)
      && (body.totalScore.Some? ==> r.data.totalScore == body.totalScore)
      && (body.remarks.Keep? ==> r.data.remarks == before.remarks)
      && (body.remarks.Write? ==> r.data.remarks == body.remarks.value)
  {
  }

  /** Delete of an existing row removes exactly that row, locked or not. */
  lemma DeleteIgnoresWindow(t: Table, id: nat, now: Timestamp)
    requires id in t.rows && Locked(t.rows[id], now)
    ensures DeleteStep(t, id) == (t.(rows := t.rows - {id}), Success(OK, MSG_DELETED))
    ensures forall k :: k in t.rows && k != id ==> k in DeleteStep(t, id).0.rows
  {
  }

  /** Once locked, a row stays locked at every later clock reading. */
  lemma LockIsMonotonic(e: Evaluation, t0: Timestamp, t1: Timestamp)
    requires Locked(e, t0) && t0 <= t1
    ensures Locked(e, t1)
  {
  }

  // ---------------------------------------------------------------------------
  // Properties of request sequences

  /** No request rewrites the deadline of a row that survives it, and the
      table stays well formed. */
  lemma HandleKeepsDeadline(t: Table, r: Timed, id: nat)
    requires WellFormed(t) && id in t.rows
    ensures WellFormed(Handle(t, r))
    ensures id in Handle(t, r).rows ==> Handle(t, r).rows[id].editableUntil == t.rows[id].editableUntil
  {
    match r.request
    case CreateRequest(body) =>
    case UpdateRequest(i, patch) =>
    case DeleteRequest(i) =>
  }

  /** `editableUntil` is written only when a row is created: across any
      sequence of requests, a row that is still present has the deadline it
      had at the start. An id the sequence has passed is never reused once
      deleted. */
  lemma {:induction false} DeadlineNeverRewritten(t: Table, trace: seq<Timed>, id: nat)
    requires WellFormed(t) && id in t.rows && id < t.nextId
    ensures WellFormed(Replay(t, trace))
    ensures id in Replay(t, trace).rows ==>
      Replay(t, trace).rows[id].editableUntil == t.rows[id].editableUntil
    decreases |trace|
  {
    if trace != [] {
      var t1 := Handle(t, trace[0]);
      HandleKeepsDeadline(t, trace[0], id);
      if id in t1.rows {
        DeadlineNeverRewritten(t1, trace[1..], id);
      } else {
        StaysGone(t1, trace[1..], id);
      }
    }
  }

  /** An id that is absent and already issued never appears again. */
  lemma {:induction false} StaysGone(t: Table, trace: seq<Timed>, id: nat)
    requires WellFormed(t) && id !in t.rows && id < t.nextId
    ensures WellFormed(Replay(t, trace)) && id !in Replay(t, trace).rows
    decreases |trace|
  {
    if trace != [] {
      var t1 := Handle(t, trace[0]);
      assert WellFormed(t1) && id !in t1.rows && id < t1.nextId by {
        match trace[0].request
        case CreateRequest(body) =>
        case UpdateRequest(i, patch) =>
        case DeleteRequest(i) =>
      }
      StaysGone(t1, trace[1..], id);
    }
  }

  /** The lock never re-opens: once an update of a row is refused for expiry
      at time `t0`, an update of that id after any further requests, at any
      time from `t0` on, is refused as well (with 403, or with 404 if the row
      has been deleted meanwhile). */
  lemma LockNeverReopens(t: Table, id: nat, refused: UpdateBody, t0: Timestamp,
                         trace: seq<Timed>, body: UpdateBody, t1: Timestamp)
    requires WellFormed(t) && id in t.rows && id < t.nextId
    requires UpdateStep(t, id, refused, t0).1 == Failure(FORBIDDEN, MSG_LOCKED)
    requires t0 <= t1
    ensures UpdateStep(Replay(t, trace), id, body, t1).1.Failure?
    ensures UpdateStep(Replay(t, trace), id, body, t1).0 == Replay(t, trace)
  {
    DeadlineNeverRewritten(t, trace, id);
  }

  /** Every request keeps the sequence past every id. */
  lemma {:induction false} SequenceAheadKept(t: Table, trace: seq<Timed>)
    requires SequenceAhead(t)
    ensures SequenceAhead(Replay(t, trace))
    decreases |trace|
  {
    if trace != [] {
      var t1 := Handle(t, trace[0]);
      assert SequenceAhead(t1) by {
        match trace[0].request
        case CreateRequest(body) =>
        case UpdateRequest(i, patch) =>
        case DeleteRequest(i) =>
      }
      SequenceAheadKept(t1, trace[1..]);
    }
  }

  /** The import script inserts rows with explicit ids and leaves the serial
      sequence untouched. A fresh sequence starts at 1, so after importing a
      row with id 1 the next create fails with 500 and only the one after it
      succeeds. */
  lemma ImportedIdCollides(imported: Evaluation, body: CreateBody, now: Timestamp)
    requires imported.id == 1
    requires Present(body.guardId) && Present(body.clientId)
    ensures var t := Table(map[1 := imported], 1);
      && WellFormed(t) && !SequenceAhead(t)
      && CreateStep(t, body, now) == (Table(t.rows, 2), Failure(SERVER_ERROR, MSG_DB_ERROR))
      && CreateStep(Table(t.rows, 2), body, now).1.Success?
  {
    var t := Table(map[1 := imported], 1);
    assert 1 in t.rows;
  }

  /** An imported id above the sequence is issued again once deleted: a
      locked imported row with id 1, deleted and followed by a create, is
      replaced by a fresh row under id 1 that can be edited for 24 hours. */
  lemma ImportedIdReissued(imported: Evaluation, body: CreateBody, now: Timestamp)
    requires imported.id == 1 && Locked(imported, now)
    requires Present(body.guardId) && Present(body.clientId)
    ensures var t := DeleteStep(Table(map[1 := imported], 1), 1).0;
      var (t', r) := CreateStep(t, body, now);
      && r.Success? && r.data.id == 1 && 1 in t'.rows
      && !Locked(t'.rows[1], now)
      && UpdateStep(t', 1, UpdateBody(Keep, None, Keep), now).1.Success?
  {
  }

  /** One more than the largest of `keys`, 0 for none. */
  ghost function Above(keys: set<nat>): (n: nat)
    ensures forall k :: k in keys ==> k < n
    decreases keys
  {
    if keys == {} then 0
    else
      var k :| k in keys;
      var m := Above(keys - {k});
      assert forall j :: j in keys ==> j == k || j in keys - {k};
      if k + 1 > m then k + 1 else m
  }

  /** The table after an import that ends by moving the sequence past the
      largest imported id (`setval`), as creates through the sequence need. */
  ghost function ResyncSequence(t: Table): (t': Table)
    ensures t'.rows == t.rows && t.nextId <= t'.nextId
    ensures SequenceAhead(t')
  {
    var n := Above(t.rows.Keys);
    Table(t.rows, if n > t.nextId then n else t.nextId)
  }

  /** After the sequence is moved past the imported ids, every create with
      both fields succeeds, whatever requests came before it. */
  lemma ResyncedCreatesSucceed(t: Table, trace: seq<Timed>, body: CreateBody, now: Timestamp)
    requires Present(body.guardId) && Present(body.clientId)
    ensures CreateStep(Replay(ResyncSequence(t), trace), body, now).1.Success?
  {
    SequenceAheadKept(ResyncSequence(t), trace);
  }

  /** Every row's deadline is its creation time plus 24 hours. */
  ghost predicate WindowFromCreation(t: Table) {
    forall k :: k in t.rows ==> t.rows[k].editableUntil == Some(t.rows[k].createdAt + EDIT_WINDOW)
  }

  /** Requests keep every deadline at creation time plus 24 hours: starting
      from an empty table (or any table where it holds), it holds after any
      sequence of requests. */
  lemma {:induction false} WindowFromCreationKept(t: Table, trace: seq<Timed>)
    requires WindowFromCreation(t)
    ensures WindowFromCreation(Replay(t, trace))
    decreases |trace|
  {
    if trace != [] {
      var t1 := Handle(t, trace[0]);
      assert WindowFromCreation(t1) by {
        match trace[0].request
        case CreateRequest(body) =>
        case UpdateRequest(i, patch) =>
        case DeleteRequest(i) =>
      }
      WindowFromCreationKept(t1, trace[1..]);
    }
  }

  // ---------------------------------------------------------------------------
  // The list query

  function CreatedAt(e: Evaluation): Timestamp {
    e.createdAt
  }

  /** The rows named by `order`, in that order. */
  function RowsIn(table: map<nat, Evaluation>, order: seq<nat>): (r: seq<Evaluation>)
    requires forall i :: 0 <= i < |order| ==> order[i] in table
    ensures |r| == |order| && forall i :: 0 <= i < |r| ==> r[i] == table[order[i]]
  {
    seq(|order|, i requires 0 <= i < |order| => table[order[i]])
  }

  /** The conditions the query pushes, one per filter that is given, are all
      met exactly when the row matches both filters. */
  lemma ConditionsMeanMatches(conditions: seq<Condition>, guardFilter: Option<string>, clientFilter: Option<string>)
    requires conditions == (if Present(guardFilter) then [GuardIdIs(guardFilter.value)] else [])
                         + (if Present(clientFilter) then [ClientIdIs(clientFilter.value)] else [])
    ensures forall e :: AllHold(conditions, e) <==> Matches(e, guardFilter, clientFilter)
  {
    forall e: Evaluation ensures AllHold(conditions, e) <==> Matches(e, guardFilter, clientFilter) {
      if Present(guardFilter) {
        assert GuardIdIs(guardFilter.value) in conditions;
      }
      if Present(clientFilter) {
        assert ClientIdIs(clientFilter.value) in conditions;
      }
    }
  }

  /** Listing the matching rows in a newest-first order of their ids gives
      each matching row exactly once, newest first, and nothing else. */
  lemma ListedRows(table: map<nat, Evaluation>, keys: set<nat>, order: seq<nat>,
                   guardFilter: Option<string>, clientFilter: Option<string>)
    requires forall k :: k in table ==> table[k].id == k
    requires forall k :: k in keys <==> k in table && Matches(table[k], guardFilter, clientFilter)
    requires Recency.Enumerates(order, keys) && Recency.NewestFirst(order, table, CreatedAt)
    ensures var result := RowsIn(table, order);
      && (forall i :: 0 <= i < |result| ==>
            result[i].id in table && table[result[i].id] == result[i] && Matches(result[i], guardFilter, clientFilter))
      && (forall k :: k in table && Matches(table[k], guardFilter, clientFilter) ==> table[k] in result)
      && (forall i, j :: 0 <= i < j < |result| ==>
            result[i].id != result[j].id && result[i].createdAt >= result[j].createdAt)
  {
    var result := RowsIn(table, order);
    forall k | k in table && Matches(table[k], guardFilter, clientFilter)
      ensures table[k] in result
    {
      assert k in keys;
      var i :| 0 <= i < |order| && order[i] == k;
      assert result[i] == table[k];
    }
    forall i, j | 0 <= i < j < |result|
      ensures result[i].id != result[j].id && result[i].createdAt >= result[j].createdAt
    {
      assert CreatedAt(table[order[i]]) >= CreatedAt(table[order[j]]);
    }
  }

  // ---------------------------------------------------------------------------
  // The request handlers, in place on the table

  class EvaluationStore {
    var rows: map<nat, Evaluation>
    var nextId: nat

    ghost predicate Valid()
      reads this
    {
      WellFormed(Table(rows, nextId))
    }

    function Snapshot(): Table
      reads this
    {
      Table(rows, nextId)
    }

    /** A store over existing rows (for instance migrated ones, whose ids the
        sequence may not have reached). */
    constructor (t: Table)
      requires WellFormed(t)
      ensures Valid() && Snapshot() == t
    {
      rows := t.rows;
      nextId := t.nextId;
    }

    /** `getEvaluationById`. */
    method GetById(id: nat) returns (r: Response<Evaluation>)
      ensures r == Lookup(Snapshot(), id)
      ensures r.Success? <==> id in rows
      ensures r.Success? ==> r.status == OK && r.data == rows[id]
    {
      if id !in rows {
        return Failure(NOT_FOUND, MSG_NOT_FOUND);
      }
      r := Success(OK, rows[id]);
    }

    /** `createEvaluation`: validate, fill defaults, stamp the deadline, insert
        under the next serial value (a 500 when that id is already taken). */
    method Create(body: CreateBody, now: Timestamp) returns (r: Response<Evaluation>)
      requires Valid()
      modifies this
      ensures Valid()
      ensures (Snapshot(), r) == CreateStep(old(Snapshot()), body, now)
    {
      if !Present(body.guardId) || !Present(body.clientId) {
        return Failure(BAD_REQUEST, MSG_REQUIRED);
      }
      if nextId in rows {
        nextId := nextId + 1;
        return Failure(SERVER_ERROR, MSG_DB_ERROR);
      }
      var editableUntil := now + EDIT_WINDOW;
      var e := Evaluation(
        nextId, body.clientId.value, body.guardId.value,
        Some(if body.kpiScores.Some? then body.kpiScores.value else DEFAULT_KPI_SCORES),
        Some(OrElse(body.totalScore, DEFAULT_TOTAL_SCORE)),
        Some(editableUntil),
        OrNull(body.remarks), OrNull(body.evaluatedBy),
        now, now);
      rows := rows[nextId := e];
      nextId := nextId + 1;
      r := Success(CREATED, e);
    }

    /** `updateEvaluation`: not-found check, then edit-window check, then the
        partial write. */
    method Update(id: nat, body: UpdateBody, now: Timestamp) returns (r: Response<Evaluation>)
      requires Valid()
      modifies this
      ensures Valid()
      ensures (Snapshot(), r) == UpdateStep(old(Snapshot()), id, body, now)
    {
      if id !in rows {
        return Failure(NOT_FOUND, MSG_NOT_FOUND);
      }
      var evaluation := rows[id];
      if evaluation.editableUntil.Some? && evaluation.editableUntil.value < now {
        return Failure(FORBIDDEN, MSG_LOCKED);
      }
      var e := Updated(evaluation, body, now);
      rows := rows[id := e];
      r := Success(OK, e);
    }

    /** `deleteEvaluation`: no edit-window check. */
    method Delete(id: nat) returns (r: Response<string>)
      requires Valid()
      modifies this
      ensures Valid()
      ensures (Snapshot(), r) == DeleteStep(old(Snapshot()), id)
    {
      if id !in rows {
        return Failure(NOT_FOUND, MSG_NOT_FOUND);
      }
      rows := rows - {id};
      r := Success(OK, MSG_DELETED);
    }

    /** `getAllEvaluations`: the rows that match every given filter, newest first. */
    method List(guardFilter: Option<string>, clientFilter: Option<string>) returns (result: seq<Evaluation>)
      requires Valid()
      ensures forall i :: 0 <= i < |result| ==>
        result[i].id in rows && rows[result[i].id] == result[i] && Matches(result[i], guardFilter, clientFilter)
      ensures forall k :: k in rows && Matches(rows[k], guardFilter, clientFilter) ==> rows[k] in result
      ensures forall i, j :: 0 <= i < j < |result| ==>
        result[i].id != result[j].id && result[i].createdAt >= result[j].createdAt
    {
      var conditions: seq<Condition> := [];
      if Present(guardFilter) {
        conditions := conditions + [GuardIdIs(guardFilter.value)];
      }
      if Present(clientFilter) {
        conditions := conditions + [ClientIdIs(clientFilter.value)];
      }
      ConditionsMeanMatches(conditions, guardFilter, clientFilter);
      var table := rows;
      var keys := set k | k in table && AllHold(conditions, table[k]);
      var order := Recency.SortNewestFirst(table, keys, CreatedAt);
      result := RowsIn(table, order);
      ListedRows(table, keys, order, guardFilter, clientFilter);
    }
  }
}
