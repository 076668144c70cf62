/** The guard registry: create after a duplicate check on the guard code,
    delete, read by id, and list newest first in the snake_case response shape.
    Guards are never updated. */
module Guards {
  import opened Http
  import opened Schema
  import Recency

  const MSG_REQUIRED := "Name and guard_id are required"
  const MSG_DUPLICATE := "A guard with this ID already exists"
  const MSG_NOT_FOUND := "Guard not found"
  const MSG_DELETED := "Guard deleted successfully"

  /** The shape the read handlers answer with; its field names are the JSON
      keys of the response. */
  datatype GuardJson = GuardJson(id: nat, name: string, guard_id: string, created_at: Timestamp, updated_at: Timestamp)

  /** The `map` reformat of the read handlers: same values, snake_case keys. */
  function Format(g: Guard): (j: GuardJson)
    ensures j.id == g.id && j.name == g.name && j.guard_id == g.guardId
    ensures j.created_at == g.createdAt && j.updated_at == g.updatedAt
  {
    GuardJson(g.id, g.name, g.guardId, g.createdAt, g.updatedAt)
  }

  /** Some row already carries guard code `code`. */
  predicate CodeTaken(rows: map<nat, Guard>, code: string): (taken: bool)
    ensures taken <==> code in (set k | k in rows :: rows[k].guardId)
    ensures rows == map[] ==> !taken
  {
    exists k :: k in rows && rows[k].guardId == code
  }

  /** Inserting a row whose code is not taken under an unused id keeps the
      guard codes unique. */
  lemma InsertKeepsCodesUnique(rows: map<nat, Guard>, g: Guard)
    requires GuardCodesUnique(rows) && g.id !in rows && !CodeTaken(rows, g.guardId)
    ensures GuardCodesUnique(rows[g.id := g])
  {
  }

  /** Removing a row keeps the guard codes unique. */
  lemma RemoveKeepsCodesUnique(rows: map<nat, Guard>, id: nat)
    requires GuardCodesUnique(rows)
    ensures GuardCodesUnique(rows - {id})
  {
  }

  class GuardStore {
    var rows: map<nat, Guard>
    var nextId: nat

    /** Rows sit under their ids and the `guard_id` column is unique. The
        sequence need not be past every id: imported guards carry explicit
        ids. */
    ghost predicate Valid()
      reads this
    {
      && (forall k :: k in rows ==> rows[k].id == k)
      && GuardCodesUnique(rows)
    }

    constructor (rows: map<nat, Guard>, nextId: nat)
      requires forall k :: k in rows ==> rows[k].id == k
      requires GuardCodesUnique(rows)
      ensures Valid() && this.rows == rows && this.nextId == nextId
    {
      this.rows := rows;
      this.nextId := nextId;
    }

    /** `createGuard`: 400 if a field is missing, 409 if the code is taken,
        otherwise an insert under the next serial value: a 500 when that id is
        already taken (the value is spent all the same), else exactly one new
        row with the given name and code. */
    method Create(name: Option<string>, code: Option<string>, now: Timestamp) returns (r: Response<Guard>)
      requires Valid()
      modifies this
      ensures Valid()
      ensures !Present(name) || !Present(code) ==>
        r == Failure(BAD_REQUEST, MSG_REQUIRED) && rows == old(rows) && nextId == old(nextId)
      ensures Present(name) && Present(code) && CodeTaken(old(rows), code.value) ==>
        r == Failure(CONFLICT, MSG_DUPLICATE) && rows == old(rows) && nextId == old(nextId)
      ensures Present(name) && Present(code) && !CodeTaken(old(rows), code.value) && old(nextId) in old(rows) ==>
        r == Failure(SERVER_ERROR, MSG_DB_ERROR) && rows == old(rows) && nextId == old(nextId) + 1
      ensures Present(name) && Present(code) && !CodeTaken(old(rows), code.value) && old(nextId) !in old(rows) ==>
        && r == Success(CREATED, Guard(old(nextId), code.value, name.value, now, now))
        && rows == old(rows)[old(nextId) := r.data]
        && nextId == old(nextId) + 1
    {
      if !Present(name) || !Present(code) {
        return Failure(BAD_REQUEST, MSG_REQUIRED);
      }
      if exists k :: k in rows && rows[k].guardId == code.value {
        return Failure(CONFLICT, MSG_DUPLICATE);
      }
      if nextId in rows {
        nextId := nextId + 1;
        return Failure(SERVER_ERROR, MSG_DB_ERROR);
      }
      var g := Guard(nextId, code.value, name.value, now, now);
      InsertKeepsCodesUnique(rows, g);
      rows := rows[nextId := g];
      nextId := nextId + 1;
      r := Success(CREATED, g);
    }

    /** `deleteGuard`: 404 if absent, otherwise removes exactly that row. */
    method Delete(id: nat) returns (r: Response<string>)
      requires Valid()
      modifies this
      ensures Valid()
      ensures id !in old(rows) ==> r == Failure(NOT_FOUND, MSG_NOT_FOUND) && rows == old(rows)
      ensures id in old(rows) ==> r == Success(OK, MSG_DELETED) && rows == old(rows) - {id}
      ensures nextId == old(nextId)
    {
      if id !in rows {
        return Failure(NOT_FOUND, MSG_NOT_FOUND);
      }
      RemoveKeepsCodesUnique(rows, id);
      rows := rows - {id};
      r := Success(OK, MSG_DELETED);
    }

    /** `getGuardById`: 404 if absent, otherwise the row in response shape. */
    method GetById(id: nat) returns (r: Response<GuardJson>)
      ensures id !in rows ==> r == Failure(NOT_FOUND, MSG_NOT_FOUND)
      ensures id in rows ==>
        && r.Success? && r.status == OK
        && r.data.id == rows[id].id
        && r.data.name == rows[id].name
        && r.data.guard_id == rows[id].guardId
        && r.data.created_at == rows[id].createdAt
        && r.data.updated_at == rows[id].updatedAt
    {
      if id !in rows {
        return Failure(NOT_FOUND, MSG_NOT_FOUND);
      }
      r := Success(OK, Format(rows[id]));
    }

    /** `getAllGuards`: every guard exactly once, newest first, in response shape. */
    method List() returns (result: seq<GuardJson>)
      requires Valid()
      ensures forall i :: 0 <= i < |result| ==> result[i].id in rows && result[i] == Format(rows[result[i].id])
      ensures forall k :: k in rows ==> Format(rows[k]) in result
      ensures forall i, j :: 0 <= i < j < |result| ==>
        result[i].id != result[j].id && result[i].created_at >= result[j].created_at
    {
      var table := rows;
      var order := Recency.SortNewestFirst(table, table.Keys, (g: Guard) => g.createdAt);
      result := seq(|order|, i requires 0 <= i < |order| && order[i] in table => Format(table[order[i]]));
      forall k | k in rows
        ensures Format(rows[k]) in result
      {
        var i :| 0 <= i < |order| && order[i] == k;
        assert result[i] == Format(rows[k]);
      }
    }
  }

  /** Two creates with the same guard code: the first is stored, the second
      is refused with 409 and the table keeps exactly one row for that code. */
  method DuplicateCodeScenario(now: Timestamp) returns (first: Response<Guard>, second: Response<Guard>)
    ensures first.Success? && first.data.id == 1 && first.data.guardId == "GRD001"
    ensures second == Failure(CONFLICT, MSG_DUPLICATE)
  {
    var store := new GuardStore(map[], 1);
    first := store.Create(Some("Alice"), Some("GRD001"), now);
    assert CodeTaken(store.rows, "GRD001") by {
      assert store.rows[1].guardId == "GRD001";
    }
    second := store.Create(Some("Bob"), Some("GRD001"), now + 1);
    assert store.rows.Keys == {1};
  }
}
