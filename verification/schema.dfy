/** The three tables of the database as record types, with the column defaults
    and the uniqueness constraints the handlers rely on. Timestamps are
    milliseconds on one integer clock. */
module Schema {
  import opened Http

  type Timestamp = int

  /** `user_role` enum: exactly two values. */
  datatype Role = UserRole | AdminRole

  /** `users`: `email` and `password` not null, `email` unique, `userid`
      unique but nullable, `name` nullable. */
  datatype User = User(
    id: nat,
    userid: Option<string>,
    name: Option<string>,
    email: string,
    password: string,
    role: Role,
    createdAt: Timestamp,
    updatedAt: Timestamp)

  /** `guards`: `guardId` (column guard_id) unique and not null, `name` not null. */
  datatype Guard = Guard(
    id: nat,
    guardId: string,
    name: string,
    createdAt: Timestamp,
    updatedAt: Timestamp)

  /** A `kpi_scores` jsonb object: each KPI key with its score kept as JSON text. */
  type KpiScores = map<string, string>

  /** `kpi_scores` defaults to `{}`. */
  const DEFAULT_KPI_SCORES: KpiScores := map[]

  /** `total_score` (numeric(5, 2)) defaults to '0'. */
  const DEFAULT_TOTAL_SCORE := "0"

  /** `evaluations`: `clientId` and `guardId` not null; the scores,
      `editableUntil` (which has no default), `remarks` and `evaluatedBy`
      nullable. The two timestamps are nullable columns too, but every insert
      fills them (`defaultNow` or an explicit value), so they are plain
      timestamps here. */
  datatype Evaluation = Evaluation(
    id: nat,
    clientId: string,
    guardId: string,
    kpiScores: Option<KpiScores>,
    totalScore: Option<string>,
    editableUntil: Option<Timestamp>,
    remarks: Option<string>,
    evaluatedBy: Option<string>,
    createdAt: Timestamp,
    updatedAt: Timestamp)

  /** The unique constraints of `users`: ids, emails and the non-null userids
      are pairwise distinct (a unique column admits several NULLs). */
  ghost predicate UsersUnique(users: seq<User>) {
    forall i, j :: 0 <= i < j < |users| ==>
      && users[i].id != users[j].id
      && users[i].email != users[j].email
      && (users[i].userid.Some? && users[j].userid.Some? ==> users[i].userid != users[j].userid)
  }

  /** The unique constraint of `guards.guard_id`. */
  ghost predicate GuardCodesUnique(rows: map<nat, Guard>) {
    forall a, b :: a in rows && b in rows && rows[a].guardId == rows[b].guardId ==> a == b
  }
}
