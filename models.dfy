/**
 * The records exchanged by the commands (src-tauri/src/models.rs).
 * Rust `String` is `string`, `i64` is `int` (see README for overflow),
 * `Vec<T>` is `seq<T>`, `Option<T>` is `Option<T>`.
 */
module Models {
  import opened Common

  /** One row of the project registry. */
  datatype Project = Project(
    id: string,
    name: string,
    path: string,
    tags: seq<string>,
    color: Option<string>,
    sortOrder: int,
    isArchived: bool,
    createdAt: string,
    identityKey: Option<string>)

  /** Argument of `upsert_project` / `import_scanned_projects`. */
  datatype CreateProjectInput = CreateProjectInput(
    name: string,
    path: string,
    tags: Option<seq<string>>,
    color: Option<string>,
    identityKey: Option<string>)

  /** Outcome of `sync_projects`. */
  datatype SyncResult = SyncResult(
    updated: seq<Project>,
    added: seq<Project>,
    unchangedCount: nat,
    archivedCount: nat)

  datatype PlanningStatus = Backlog | Todo | InProgress | Done

  /** The strings the `status` column of `planning_items` admits (its CHECK constraint). */
  const StatusCheckSet: set<string> := {"backlog", "todo", "in_progress", "done"}

  /** `impl Display for PlanningStatus`. */
  function StatusName(s: PlanningStatus): (r: string)
    ensures r in StatusCheckSet
  {
    match s
    case Backlog => "backlog"
    case Todo => "todo"
    case InProgress => "in_progress"
    case Done => "done"
  }

  /** Distinct statuses are displayed differently. */
  lemma StatusNameInjective(s: PlanningStatus, t: PlanningStatus)
    ensures StatusName(s) == StatusName(t) ==> s == t
  {
  }

  /** Every string of the CHECK set is the display of some status. */
  lemma StatusNameOnto(x: string)
    requires x in StatusCheckSet
    ensures exists s :: StatusName(s) == x
  {
    if x == "backlog" { assert StatusName(Backlog) == x; }
    else if x == "todo" { assert StatusName(Todo) == x; }
    else if x == "in_progress" { assert StatusName(InProgress) == x; }
    else { assert StatusName(Done) == x; }
  }

  datatype PlanningItem = PlanningItem(
    id: string,
    projectId: Option<string>,
    subject: string,
    description: Option<string>,
    status: PlanningStatus,
    priority: int,
    sortOrder: int,
    createdAt: string,
    updatedAt: string)

  /** The status arrives as free text; only the database's CHECK constraint validates it. */
  datatype CreatePlanningItemInput = CreatePlanningItemInput(
    projectId: string,
    subject: string,
    description: Option<string>,
    status: string)

  datatype UpdatePlanningItemInput = UpdatePlanningItemInput(
    id: string,
    subject: string,
    description: Option<string>)

  datatype TaskGithubLink = TaskGithubLink(
    taskId: string,
    teamId: string,
    issueUrl: string,
    issueNumber: Option<int>,
    repo: Option<string>,
    createdAt: string,
    issueState: Option<string>,
    stateUpdatedAt: Option<string>)

  datatype UpsertTaskGithubLinkInput = UpsertTaskGithubLinkInput(
    taskId: string,
    teamId: string,
    issueUrl: string,
    issueNumber: Option<int>,
    repo: Option<string>)

  datatype EnvVar = EnvVar(key: string, value: string, masked: bool)

  datatype ClaudePlan = ClaudePlan(
    id: string,
    filename: string,
    title: string,
    preview: string,
    content: string,
    modifiedAt: Option<string>)

  datatype SessionMessage = SessionMessage(uuid: string, role: string, content: string, timestamp: string)

  /** Session records; their declarations are inferred from their use in claude.rs. */
  datatype SessionToolCall = SessionToolCall(id: string, name: string, input: string, output: Option<string>)

  datatype SessionTurn = SessionTurn(
    uuid: string,
    role: string,
    content: string,
    timestamp: string,
    toolCalls: seq<SessionToolCall>)

  datatype SessionDetail = SessionDetail(turns: seq<SessionTurn>, totalCount: nat)
}
