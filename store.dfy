/**
 * The SQLite database the commands share, reduced to the three tables the
 * core touches, with the constraints of src-tauri/src/db.rs as the object
 * invariant: `id` is the primary key of `projects`, `path` is UNIQUE over
 * every row (archived or not), `planning_items.project_id` references
 * `projects(id)` ON DELETE CASCADE with foreign keys switched on, and
 * `planning_items.status` is CHECKed against four strings.
 *
 * Each method below is one SQL statement. Statements commit one by one:
 * there is no transaction around a command, so a command that stops with
 * an error keeps the statements it already ran.
 */
module Store {
  import opened Common
  import opened Models

  /** A `planning_items` row as stored: the status column is text. */
  datatype PlanningRow = PlanningRow(
    id: string,
    projectId: Option<string>,
    subject: string,
    description: Option<string>,
    status: string,
    priority: int,
    sortOrder: int,
    createdAt: string,
    updatedAt: string)

  /** Primary key of `task_github_links`: `(task_id, team_id)`. */
  type LinkKey = (string, string)

  /** The constraint failures SQLite reports for these statements. */
  datatype DbError =
    | UniqueViolation(column: string)
    | CheckViolation(column: string)
    | ForeignKeyViolation
    | NoRows

  ghost predicate ProjectsKeyed(projects: map<string, Project>) {
    forall id | id in projects :: projects[id].id == id
  }

  ghost predicate PathsUnique(projects: map<string, Project>) {
    forall a, b | a in projects && b in projects && a != b :: projects[a].path != projects[b].path
  }

  /** Some row other than `id` holds `path`. */
  predicate PathHeldByOther(projects: map<string, Project>, path: string, id: string) {
    exists other | other in projects :: other != id && projects[other].path == path
  }

  ghost predicate PlanningKeyed(planning: map<string, PlanningRow>) {
    forall k | k in planning :: planning[k].id == k
  }

  ghost predicate ForeignKeysHold(planning: map<string, PlanningRow>, projects: map<string, Project>) {
    forall k | k in planning :: planning[k].projectId.Some? ==> planning[k].projectId.value in projects
  }

  ghost predicate StatusesChecked(planning: map<string, PlanningRow>) {
    forall k | k in planning :: planning[k].status in StatusCheckSet
  }

  ghost predicate LinksKeyed(links: map<LinkKey, TaskGithubLink>) {
    forall k | k in links :: (links[k].taskId, links[k].teamId) == k
  }

  /** ON DELETE CASCADE: the planning rows that survive when the project ids `left` remain. */
  function Cascade(planning: map<string, PlanningRow>, left: set<string>): (r: map<string, PlanningRow>)
    ensures forall k :: k in r <==> k in planning && (planning[k].projectId.None? || planning[k].projectId.value in left)
    ensures forall k | k in r :: r[k] == planning[k]
  {
    map k | k in planning && (planning[k].projectId.None? || planning[k].projectId.value in left) :: planning[k]
  }

  /** Cascading twice, the second time to fewer projects, is cascading once. */
  lemma CascadeTwice(planning: map<string, PlanningRow>, a: set<string>, b: set<string>)
    requires b <= a
    ensures Cascade(Cascade(planning, a), b) == Cascade(planning, b)
  {
  }

  /** Projects that no row refers to do not change what a cascade keeps. */
  lemma CascadeUnreferenced(planning: map<string, PlanningRow>, a: set<string>, b: set<string>)
    requires a <= b
    requires forall k | k in planning && planning[k].projectId.Some? && planning[k].projectId.value in b :: planning[k].projectId.value in a
    ensures Cascade(planning, b) == Cascade(planning, a)
  {
  }

  /** The table left by `DELETE FROM projects WHERE id IN doomed`. */
  function Without(projects: map<string, Project>, doomed: set<string>): (r: map<string, Project>)
    ensures r.Keys == projects.Keys - doomed
    ensures forall id | id in r :: r[id] == projects[id]
  {
    map id | id in projects && id !in doomed :: projects[id]
  }

  /** A string longer than every string in `used`. */
  lemma {:induction false} LongerThanAll(used: set<string>) returns (x: string)
    ensures forall y | y in used :: |y| < |x|
    decreases |used|
  {
    if used == {} {
      x := "u";
    } else {
      var y :| y in used;
      var z := LongerThanAll(used - {y});
      x := if |y| >= |z| then y + "u" else z;
    }
  }

  /** Whatever ids are in use, a new UUID can avoid them all. */
  lemma FreshIdExists(used: set<string>)
    ensures exists x: string :: x !in used
  {
    var x := LongerThanAll(used);
  }

  class Database {
    var projects: map<string, Project>
    var planning: map<string, PlanningRow>
    var links: map<LinkKey, TaskGithubLink>

    ghost predicate Valid()
      reads this
    {
      && ProjectsKeyed(projects)
      && PathsUnique(projects)
      && PlanningKeyed(planning)
      && ForeignKeysHold(planning, projects)
      && StatusesChecked(planning)
      && LinksKeyed(links)
    }

    /** A freshly created, empty database. */
    constructor ()
      ensures Valid()
      ensures projects == map[] && planning == map[] && links == map[]
    {
      projects, planning, links := map[], map[], map[];
    }

    /** `DELETE FROM projects WHERE ...` for the rows in `doomed`; returns how many rows went. */
    method DeleteProjects(doomed: set<string>) returns (count: nat)
      requires Valid()
      modifies this
      ensures Valid()
      ensures projects == Without(old(projects), doomed)
      ensures planning == Cascade(old(planning), projects.Keys)
      ensures links == old(links)
      ensures count == |old(projects).Keys * doomed|
    {
      count := |projects.Keys * doomed|;
      projects := Without(projects, doomed);
      planning := Cascade(planning, projects.Keys);
    }

    /** `INSERT INTO projects ...`: refused when the id or the path is already taken. */
    method InsertProject(row: Project) returns (r: Result<(), DbError>)
      requires Valid()
      modifies this
      ensures Valid()
      ensures r.Err? <==> row.id in old(projects) || PathHeldByOther(old(projects), row.path, row.id)
      ensures r.Err? ==> r.error == UniqueViolation(if row.id in old(projects) then "projects.id" else "projects.path")
      ensures r.Ok? ==> projects == old(projects)[row.id := row]
      ensures r.Err? ==> projects == old(projects)
      ensures planning == old(planning) && links == old(links)
    {
      if row.id in projects {
        r := Err(UniqueViolation("projects.id"));
      } else if PathHeldByOther(projects, row.path, row.id) {
        r := Err(UniqueViolation("projects.path"));
      } else {
        projects := projects[row.id := row];
        r := Ok(());
      }
    }

    /** `UPDATE projects SET path = ?, name = ? WHERE id = ?`: no row changes when `id` is absent. */
    method SetPathAndName(id: string, path: string, name: string) returns (r: Result<(), DbError>)
      requires Valid()
      modifies this
      ensures Valid()
      ensures r.Err? <==> id in old(projects) && PathHeldByOther(old(projects), path, id)
      ensures r.Ok? && id in old(projects) ==> projects == old(projects)[id := old(projects)[id].(path := path, name := name)]
      ensures r.Err? || id !in old(projects) ==> projects == old(projects)
      ensures planning == old(planning) && links == old(links)
    {
      if id !in projects {
        r := Ok(());
      } else if PathHeldByOther(projects, path, id) {
        r := Err(UniqueViolation("projects.path"));
      } else {
        projects := projects[id := projects[id].(path := path, name := name)];
        r := Ok(());
      }
    }

    /** `UPDATE projects SET identity_key = ? WHERE id = ?` (the column carries no constraint). */
    method SetIdentityKey(id: string, key: string)
      requires Valid()
      modifies this
      ensures Valid()
      ensures projects == if id in old(projects) then old(projects)[id := old(projects)[id].(identityKey := Some(key))] else old(projects)
      ensures planning == old(planning) && links == old(links)
    {
      if id in projects {
        projects := projects[id := projects[id].(identityKey := Some(key))];
      }
    }

    /** `UPDATE projects SET is_archived = ? WHERE id = ?`. */
    method SetArchived(id: string, archived: bool)
      requires Valid()
      modifies this
      ensures Valid()
      ensures projects == if id in old(projects) then old(projects)[id := old(projects)[id].(isArchived := archived)] else old(projects)
      ensures planning == old(planning) && links == old(links)
    {
      if id in projects {
        projects := projects[id := projects[id].(isArchived := archived)];
      }
    }

    /**
     * `INSERT INTO projects (id, name, path, tags, color, identity_key) ... ON CONFLICT(id) DO UPDATE SET
     * name, path, tags, color, identity_key = COALESCE(excluded.identity_key, identity_key)`.
     * A new row takes the column defaults: sort_order 0, not archived, and
     * created_at `dbNow`, the text `datetime('now')` gives at that moment.
     */
    method UpsertProjectRow(id: string, name: string, path: string, tags: seq<string>,
                            color: Option<string>, key: Option<string>, dbNow: string)
      returns (r: Result<(), DbError>)
      requires Valid()
      modifies this
      ensures Valid()
      ensures r.Err? <==> PathHeldByOther(old(projects), path, id)
      ensures r.Ok? && id in old(projects) ==>
        projects == old(projects)[id := old(projects)[id].(name := name, path := path, tags := tags, color := color,
                                                         identityKey := key.Or(old(projects)[id].identityKey))]
      ensures r.Ok? && id !in old(projects) ==>
        projects == old(projects)[id := Project(id, name, path, tags, color, 0, false, dbNow, key)]
      ensures r.Err? ==> projects == old(projects)
      ensures planning == old(planning) && links == old(links)
    {
      if PathHeldByOther(projects, path, id) {
        r := Err(UniqueViolation("projects.path"));
      } else if id in projects {
        projects := projects[id := projects[id].(name := name, path := path, tags := tags, color := color,
                                                 identityKey := key.Or(projects[id].identityKey))];
        r := Ok(());
      } else {
        projects := projects[id := Project(id, name, path, tags, color, 0, false, dbNow, key)];
        r := Ok(());
      }
    }

    /** `INSERT INTO planning_items ...`: the CHECK on status, then the foreign key on project_id. */
    method InsertPlanningRow(row: PlanningRow) returns (r: Result<(), DbError>)
      requires Valid()
      requires row.id !in planning
      modifies this
      ensures Valid()
      ensures r == if row.status !in StatusCheckSet then Err(CheckViolation("planning_items.status"))
                   else if row.projectId.Some? && row.projectId.value !in projects then Err(ForeignKeyViolation)
                   else Ok(())
      ensures planning == if r.Ok? then old(planning)[row.id := row] else old(planning)
      ensures projects == old(projects) && links == old(links)
    {
      if row.status !in StatusCheckSet {
        r := Err(CheckViolation("planning_items.status"));
      } else if row.projectId.Some? && row.projectId.value !in projects {
        r := Err(ForeignKeyViolation);
      } else {
        planning := planning[row.id := row];
        r := Ok(());
      }
    }

    /** `UPDATE planning_items SET subject = ?, description = ?, updated_at = ? WHERE id = ?`. */
    method SetSubject(id: string, subject: string, description: Option<string>, now: string)
      requires Valid()
      modifies this
      ensures Valid()
      ensures planning == if id in old(planning)
                          then old(planning)[id := old(planning)[id].(subject := subject, description := description, updatedAt := now)]
                          else old(planning)
      ensures projects == old(projects) && links == old(links)
    {
      if id in planning {
        planning := planning[id := planning[id].(subject := subject, description := description, updatedAt := now)];
      }
    }

    /**
     * `UPDATE planning_items SET status = ?, sort_order = ?, updated_at = ? WHERE id = ?`.
     * The CHECK is evaluated only on a row being changed.
     */
    method SetStatus(id: string, status: string, sortOrder: int, now: string) returns (r: Result<(), DbError>)
      requires Valid()
      modifies this
      ensures Valid()
      ensures r.Err? <==> id in old(planning) && status !in StatusCheckSet
      ensures r.Err? ==> r.error == CheckViolation("planning_items.status")
      ensures planning == if id in old(planning) && r.Ok?
                          then old(planning)[id := old(planning)[id].(status := status, sortOrder := sortOrder, updatedAt := now)]
                          else old(planning)
      ensures projects == old(projects) && links == old(links)
    {
      if id !in planning {
        r := Ok(());
      } else if status !in StatusCheckSet {
        r := Err(CheckViolation("planning_items.status"));
      } else {
        planning := planning[id := planning[id].(status := status, sortOrder := sortOrder, updatedAt := now)];
        r := Ok(());
      }
    }

    /** `DELETE FROM planning_items WHERE id = ?`. */
    method DeletePlanningRow(id: string)
      requires Valid()
      modifies this
      ensures Valid()
      ensures planning == old(planning) - {id}
      ensures projects == old(projects) && links == old(links)
    {
      planning := planning - {id};
    }

    /**
     * `INSERT INTO task_github_links ... ON CONFLICT(task_id, team_id) DO UPDATE SET
     * github_issue_url, github_issue_number, github_repo`.
     */
    method UpsertLinkRow(key: LinkKey, url: string, number: Option<int>, repo: Option<string>, now: string)
      requires Valid()
      modifies this
      ensures Valid()
      ensures links == if key in old(links)
                       then old(links)[key := old(links)[key].(issueUrl := url, issueNumber := number, repo := repo)]
                       else old(links)[key := TaskGithubLink(key.0, key.1, url, number, repo, now, None, None)]
      ensures projects == old(projects) && planning == old(planning)
    {
      if key in links {
        links := links[key := links[key].(issueUrl := url, issueNumber := number, repo := repo)];
      } else {
        links := links[key := TaskGithubLink(key.0, key.1, url, number, repo, now, None, None)];
      }
    }

    /** `UPDATE task_github_links SET github_issue_state = 'closed', state_updated_at = ? WHERE ...`. */
    method SetLinkClosed(key: LinkKey, now: string)
      requires Valid()
      modifies this
      ensures Valid()
      ensures links == if key in old(links)
                       then old(links)[key := old(links)[key].(issueState := Some("closed"), stateUpdatedAt := Some(now))]
                       else old(links)
      ensures projects == old(projects) && planning == old(planning)
    {
      if key in links {
        links := links[key := links[key].(issueState := Some("closed"), stateUpdatedAt := Some(now))];
      }
    }

    /** `DELETE FROM task_github_links WHERE task_id = ? AND team_id = ?`. */
    method DeleteLinkRow(key: LinkKey)
      requires Valid()
      modifies this
      ensures Valid()
      ensures links == old(links) - {key}
      ensures projects == old(projects) && planning == old(planning)
    {
      links := links - {key};
    }
  }
}
