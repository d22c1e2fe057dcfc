/**
 * The project registry commands of src-tauri/src/commands/projects.rs over
 * the `projects` table: sync of scanned candidates against the active rows,
 * upsert, delete, restore, purge, reset and bulk import.
 *
 * Every command is a method on the shared `Database`; each SQL statement it
 * issues is one call of a `Database` method, so a command that stops with an
 * error keeps the statements already run. Fresh UUIDs are any id not in use,
 * the clock is the `now` argument, and the filesystem's answers (does a path
 * exist, did home-path validation pass) are arguments.
 */
module Registry {
  import opened Common
  import opened Models
  import opened Store
  import opened ProjectScan

  datatype CommandError =
    | ScanFailed(message: string)
    | InvalidPath
    | Database(cause: DbError)

  /** A row as `load_db_projects` reads it: stored, and not archived. */
  ghost predicate Loaded(table: map<string, Project>, p: Project) {
    p.id in table && table[p.id] == p && !p.isArchived
  }

  predicate DistinctIds(rows: seq<Project>) {
    forall i, j | 0 <= i < j < |rows| :: rows[i].id != rows[j].id
  }

  function Ids(rows: seq<Project>): set<string> {
    set j | 0 <= j < |rows| :: rows[j].id
  }

  lemma IdsAppend(rows: seq<Project>, p: Project)
    ensures Ids(rows + [p]) == Ids(rows) + {p.id}
  {
    var r := rows + [p];
    assert r[|rows|].id == p.id;
    assert forall j | 0 <= j < |rows| :: r[j] == rows[j];
  }

  function ActiveIds(table: map<string, Project>): set<string> {
    set id | id in table && !table[id].isArchived
  }

  /** What sync never changes in a row it found stored: an archived row not at all. */
  ghost predicate Preserved(now: Project, was: Project) {
    && now.id == was.id && now.tags == was.tags && now.color == was.color
    && now.sortOrder == was.sortOrder && now.createdAt == was.createdAt
    && (was.identityKey.Some? ==> now.identityKey == was.identityKey)
    && (was.isArchived ==> now == was)
  }

  /** The column values sync gives a row it inserts. */
  ghost predicate Inserted(p: Project, now: string) {
    p.tags == [] && p.color.None? && p.sortOrder == 0 && !p.isArchived && p.createdAt == now
  }

  /** A row reported as `updated`: a stored active row with a key, with only path and name replaced. */
  ghost predicate Renamed(before: map<string, Project>, u: Project) {
    u.id in before && !before[u.id].isArchived && before[u.id].identityKey.Some?
    && u == before[u.id].(path := u.path, name := u.name)
  }

  /** Every row sync leaves behind is either a preserved stored row or a newly inserted one. */
  ghost predicate RowsKept(before: map<string, Project>, after: map<string, Project>, now: string) {
    && (forall id | id in after && id in before :: Preserved(after[id], before[id]))
    && (forall id | id in after && id !in before :: Inserted(after[id], now))
  }

  /** The reported `updated` and `added` rows agree with the table. */
  ghost predicate Reported(before: map<string, Project>, after: map<string, Project>,
                           updated: seq<Project>, added: seq<Project>, now: string) {
    && DistinctIds(updated) && DistinctIds(added)
    && (forall j | 0 <= j < |updated| ::
          Renamed(before, updated[j]) && (updated[j].id in after ==> after[updated[j].id] == updated[j]))
    && (forall j | 0 <= j < |added| ::
          added[j].id !in before && Inserted(added[j], now) && (added[j].id in after ==> after[added[j].id] == added[j]))
    && (forall id | id in after && id !in before :: id in Ids(added))
    && (forall id | id in after && id in before && (after[id].path != before[id].path || after[id].name != before[id].name) ::
          id in Ids(updated))
  }

  /** The rows `DELETE FROM projects WHERE path = ? AND id != ?` removes. */
  function Phantoms(table: map<string, Project>, path: string, keep: string): (r: set<string>)
    ensures forall x :: x in r <==> x in table && table[x].path == path && x != keep
  {
    set x | x in table && table[x].path == path && x != keep
  }

  /** `load_db_projects`: each active row once; SQLite's row order is left open. */
  method LoadDbProjects(db: Database) returns (rows: seq<Project>)
    requires db.Valid()
    ensures forall j | 0 <= j < |rows| :: Loaded(db.projects, rows[j])
    ensures Ids(rows) == ActiveIds(db.projects)
    ensures DistinctIds(rows)
  {
    rows := [];
    var todo := ActiveIds(db.projects);
    while todo != {}
      invariant todo <= ActiveIds(db.projects)
      invariant forall j | 0 <= j < |rows| :: Loaded(db.projects, rows[j]) && rows[j].id !in todo
      invariant Ids(rows) + todo == ActiveIds(db.projects)
      invariant DistinctIds(rows)
      decreases todo
    {
      var id :| id in todo;
      IdsAppend(rows, db.projects[id]);
      rows := rows + [db.projects[id]];
      todo := todo - {id};
    }
  }

  /** `by_identity`: key → row for rows with a key; a later row replaces an earlier one with the same key. */
  function IdentityIndex(rows: seq<Project>): (m: map<string, Project>)
    ensures forall k | k in m :: m[k].identityKey == Some(k) && m[k] in rows
    ensures forall j | 0 <= j < |rows| && rows[j].identityKey.Some? :: rows[j].identityKey.value in m
    decreases |rows|
  {
    if rows == [] then map[]
    else
      var m := IdentityIndex(rows[..|rows| - 1]);
      var last := rows[|rows| - 1];
      assert forall p | p in rows[..|rows| - 1] :: p in rows;
      if last.identityKey.Some? then m[last.identityKey.value := last] else m
  }

  /** `by_path`: path → row. */
  function PathIndex(rows: seq<Project>): (m: map<string, Project>)
    ensures forall p | p in m :: m[p].path == p && m[p] in rows
    ensures forall j | 0 <= j < |rows| :: rows[j].path in m
    decreases |rows|
  {
    if rows == [] then map[]
    else
      var m := PathIndex(rows[..|rows| - 1]);
      var last := rows[|rows| - 1];
      assert forall p | p in rows[..|rows| - 1] :: p in rows;
      m[last.path := last]
  }

  /** `apply_path_update`: remove every other row holding the new path, then move and rename `id`. */
  method ApplyPathUpdate(db: Database, id: string, newPath: string, newName: string)
    requires db.Valid()
    modifies db
    ensures db.Valid()
    ensures db.projects.Keys == old(db.projects).Keys - Phantoms(old(db.projects), newPath, id)
    ensures forall x | x in db.projects ::
      db.projects[x] == (if x == id then old(db.projects)[x].(path := newPath, name := newName) else old(db.projects)[x])
    ensures db.projects == Moved(old(db.projects), id, newPath, newName)
    ensures db.planning == Cascade(old(db.planning), db.projects.Keys)
    ensures db.links == old(db.links)
  {
    var deleted := db.DeleteProjects(Phantoms(db.projects, newPath, id));
    ghost var mid := db.projects;
    var r := db.SetPathAndName(id, newPath, newName);
    assert r.Ok?;
    assert db.projects.Keys == mid.Keys;
  }

  /** What `sync_projects` reports before archiving. */
  datatype Reconciled = Reconciled(updated: seq<Project>, added: seq<Project>, unchangedCount: nat)

  /** The variables of the candidate loop of `sync_projects`. */
  datatype Tally = Tally(
    byIdentity: map<string, Project>,
    updated: seq<Project>,
    added: seq<Project>,
    unchangedCount: nat,
    matched: set<string>)
  {
    function Count(): nat {
      |updated| + |added| + unchangedCount
    }
  }

  /** The effects sync may have had on the tables so far. */
  ghost predicate SyncFrame(P0: map<string, Project>, planning0: map<string, PlanningRow>,
                            projects: map<string, Project>, planning: map<string, PlanningRow>, now: string) {
    && RowsKept(P0, projects, now)
    && (forall id | id in projects && id in P0 :: projects[id].isArchived == P0[id].isArchived)
    && planning == Cascade(planning0, projects.Keys)
    && (forall k | k in planning0 && planning0[k].projectId.Some? :: planning0[k].projectId.value in P0)
  }

  /** The loop variables agree with the table. */
  ghost predicate TallyInv(P0: map<string, Project>, projects: map<string, Project>, snapIds: set<string>, t: Tally, now: string) {
    && (forall k | k in t.byIdentity ::
          && Loaded(P0, t.byIdentity[k]) && t.byIdentity[k].identityKey == Some(k) && t.byIdentity[k].id in snapIds
          && (t.byIdentity[k].id in projects ==> projects[t.byIdentity[k].id] == t.byIdentity[k]))
    && (forall j, k | 0 <= j < |t.updated| && k in t.byIdentity :: t.byIdentity[k].id != t.updated[j].id)
    && Reported(P0, projects, t.updated, t.added, now)
    && Ids(t.updated) <= t.matched <= snapIds
  }

  // ─── The candidate loop as a function ───────────────────────────────────

  /** The table and loop variables after some candidates, and the error that stopped the loop, if any. */
  datatype Pass = Pass(table: map<string, Project>, tally: Tally, failure: Option<DbError>)

  /** The table after `apply_path_update(id, path, name)`. */
  function Moved(table: map<string, Project>, id: string, path: string, name: string): map<string, Project> {
    var rest := Without(table, Phantoms(table, path, id));
    if id in rest then rest[id := rest[id].(path := path, name := name)] else rest
  }

  /** The table after step 2 gives the snapshot row `existing` the candidate's key, when it had none. */
  function Backfilled(table: map<string, Project>, existing: Project, key: Option<string>): map<string, Project> {
    if existing.identityKey.None? && key.Some? && existing.id in table
    then table[existing.id := table[existing.id].(identityKey := key)]
    else table
  }

  /** The row step 3 inserts for candidate `c` under the UUID `id`. */
  function NewRow(c: Candidate, id: string, now: string): Project {
    Project(id, c.name, c.path, [], None, 0, false, now, c.identityKey)
  }

  /**
   * One candidate as the loop treats it, with `id` the UUID step 3 draws:
   * an unclaimed identity match claims its row and moves it when the path
   * differs; failing that, a snapshot row at the path is claimed and given
   * a missing key; failing both, the INSERT runs and fails when the id or
   * the path is taken.
   */
  function StepRef(table: map<string, Project>, byPath: map<string, Project>, t: Tally, c: Candidate,
                   id: string, now: string): Pass
  {
    if c.identityKey.Some? && c.identityKey.value in t.byIdentity then
      var existing := t.byIdentity[c.identityKey.value];
      var claimed := t.(byIdentity := t.byIdentity - {c.identityKey.value}, matched := t.matched + {existing.id});
      if existing.path != c.path then
        Pass(Moved(table, existing.id, c.path, c.name),
             claimed.(updated := t.updated + [existing.(path := c.path, name := c.name)]), None)
      else
        Pass(table, claimed.(unchangedCount := t.unchangedCount + 1), None)
    else if c.path in byPath then
      var existing := byPath[c.path];
      Pass(Backfilled(table, existing, c.identityKey),
           t.(unchangedCount := t.unchangedCount + 1, matched := t.matched + {existing.id}), None)
    else if id in table || PathHeldByOther(table, c.path, id) then
      Pass(table, t, Some(UniqueViolation(if id in table then "projects.id" else "projects.path")))
    else
      Pass(table[id := NewRow(c, id, now)], t.(added := t.added + [NewRow(c, id, now)]), None)
  }

  /** The candidate loop over `cands` in order, `ids[k]` being the UUID drawn for `cands[k]`; it stops at the first error. */
  function ReconcileRef(table: map<string, Project>, byPath: map<string, Project>, t: Tally,
                        cands: seq<Candidate>, ids: seq<string>, now: string): Pass
    requires |ids| == |cands|
    decreases |cands|
  {
    if cands == [] then Pass(table, t, None)
    else
      var prev := ReconcileRef(table, byPath, t, cands[..|cands| - 1], ids[..|ids| - 1], now);
      if prev.failure.Some? then prev
      else StepRef(prev.table, byPath, prev.tally, cands[|cands| - 1], ids[|ids| - 1], now)
  }

  /** Once the loop has stopped, later candidates change nothing. */
  lemma {:induction false} RefStops(table: map<string, Project>, byPath: map<string, Project>, t: Tally,
                                    cands: seq<Candidate>, ids: seq<string>, now: string, n: nat)
    requires |ids| == |cands| && n <= |cands|
    requires ReconcileRef(table, byPath, t, cands[..n], ids[..n], now).failure.Some?
    ensures ReconcileRef(table, byPath, t, cands, ids, now) == ReconcileRef(table, byPath, t, cands[..n], ids[..n], now)
    decreases |cands| - n
  {
    if n == |cands| {
      assert cands[..n] == cands && ids[..n] == ids;
    } else {
      var next, nextIds := cands[..n + 1], ids[..n + 1];
      assert next[..n] == cands[..n] && nextIds[..n] == ids[..n];
      RefHalted(table, byPath, t, next, nextIds, now);
      RefStops(table, byPath, t, cands, ids, now, n + 1);
    }
  }

  /** The loop over candidates whose prefix already failed returns the prefix's outcome. */
  lemma RefHalted(table: map<string, Project>, byPath: map<string, Project>, t: Tally,
                  cands: seq<Candidate>, ids: seq<string>, now: string)
    requires |ids| == |cands| && cands != []
    requires ReconcileRef(table, byPath, t, cands[..|cands| - 1], ids[..|ids| - 1], now).failure.Some?
    ensures ReconcileRef(table, byPath, t, cands, ids, now) == ReconcileRef(table, byPath, t, cands[..|cands| - 1], ids[..|ids| - 1], now)
  {
  }

  /** A candidate that matches nothing and whose path an archived row holds stops the loop with the UNIQUE error. */
  lemma ArchivedPathAborts(table: map<string, Project>, byPath: map<string, Project>, t: Tally, c: Candidate,
                           id: string, now: string, holder: string)
    requires c.identityKey.None? || c.identityKey.value !in t.byIdentity
    requires c.path !in byPath
    requires holder in table && table[holder].isArchived && table[holder].path == c.path
    requires id !in table
    ensures StepRef(table, byPath, t, c, id, now) == Pass(table, t, Some(UniqueViolation("projects.path")))
  {
    assert PathHeldByOther(table, c.path, id);
  }

  /**
   * Every stored row the loop deletes was renamed by it or held, as stored,
   * a path that a renamed row took; every stored row that survives with a
   * new path was renamed by it.
   */
  lemma {:induction false} ReconcileDeletes(table: map<string, Project>, byPath: map<string, Project>, t: Tally,
                                            cands: seq<Candidate>, ids: seq<string>, now: string)
    requires |ids| == |cands|
    requires forall k | 0 <= k < |ids| :: ids[k] !in table
    ensures var p := ReconcileRef(table, byPath, t, cands, ids, now);
      && (forall x | x in table && x !in p.table ::
            x in Ids(p.tally.updated) || exists j | 0 <= j < |p.tally.updated| :: p.tally.updated[j].path == table[x].path)
      && (forall x | x in table && x in p.table && p.table[x].path != table[x].path :: x in Ids(p.tally.updated))
      && Ids(t.updated) <= Ids(p.tally.updated)
    decreases |cands|
  {
    if cands != [] {
      var m := |cands| - 1;
      forall k | 0 <= k < m ensures ids[..m][k] !in table {
        assert ids[..m][k] == ids[k];
      }
      ReconcileDeletes(table, byPath, t, cands[..m], ids[..m], now);
      var prev := ReconcileRef(table, byPath, t, cands[..m], ids[..m], now);
      if prev.failure.None? {
        StepDeletes(table, prev, byPath, cands[m], ids[m], now);
      }
    }
  }

  /** One step of ReconcileDeletes. */
  lemma StepDeletes(table: map<string, Project>, prev: Pass, byPath: map<string, Project>, c: Candidate,
                    id: string, now: string)
    requires id !in table
    requires forall x | x in table && x !in prev.table ::
      x in Ids(prev.tally.updated) || exists j | 0 <= j < |prev.tally.updated| :: prev.tally.updated[j].path == table[x].path
    requires forall x | x in table && x in prev.table && prev.table[x].path != table[x].path :: x in Ids(prev.tally.updated)
    ensures var p := StepRef(prev.table, byPath, prev.tally, c, id, now);
      && (forall x | x in table && x !in p.table ::
            x in Ids(p.tally.updated) || exists j | 0 <= j < |p.tally.updated| :: p.tally.updated[j].path == table[x].path)
      && (forall x | x in table && x in p.table && p.table[x].path != table[x].path :: x in Ids(p.tally.updated))
      && Ids(prev.tally.updated) <= Ids(p.tally.updated)
  {
    var t := prev.tally;
    if c.identityKey.Some? && c.identityKey.value in t.byIdentity && t.byIdentity[c.identityKey.value].path != c.path {
      var existing := t.byIdentity[c.identityKey.value];
      MovedDeletes(table, prev.table, t.updated, existing.(path := c.path, name := c.name));
    } else {
      var p := StepRef(prev.table, byPath, prev.tally, c, id, now);
      assert p.tally.updated == t.updated;
      PathsKeptDeletes(table, prev.table, p.table, t.updated);
    }
  }

  /** A move deletes only rows at the moved-to path, which the new update reports. */
  lemma MovedDeletes(table: map<string, Project>, before: map<string, Project>, updated: seq<Project>, u: Project)
    requires forall x | x in table && x !in before ::
      x in Ids(updated) || exists j | 0 <= j < |updated| :: updated[j].path == table[x].path
    requires forall x | x in table && x in before && before[x].path != table[x].path :: x in Ids(updated)
    ensures var after, ups := Moved(before, u.id, u.path, u.name), updated + [u];
      && (forall x | x in table && x !in after ::
            x in Ids(ups) || exists j | 0 <= j < |ups| :: ups[j].path == table[x].path)
      && (forall x | x in table && x in after && after[x].path != table[x].path :: x in Ids(ups))
      && Ids(updated) <= Ids(ups)
  {
    var ups := updated + [u];
    IdsAppend(updated, u);
    assert ups[|updated|].path == u.path;
    forall j | 0 <= j < |updated| ensures ups[j] == updated[j] {}
  }

  /** A step that keeps every row's path and deletes nothing keeps the deletions reported. */
  lemma PathsKeptDeletes(table: map<string, Project>, before: map<string, Project>, after: map<string, Project>,
                         updated: seq<Project>)
    requires forall x | x in before :: x in after && after[x].path == before[x].path
    requires forall x | x in after && x !in before :: x !in table
    requires forall x | x in table && x !in before ::
      x in Ids(updated) || exists j | 0 <= j < |updated| :: updated[j].path == table[x].path
    requires forall x | x in table && x in before && before[x].path != table[x].path :: x in Ids(updated)
    ensures forall x | x in table && x !in after ::
      x in Ids(updated) || exists j | 0 <= j < |updated| :: updated[j].path == table[x].path
    ensures forall x | x in table && x in after && after[x].path != table[x].path :: x in Ids(updated)
  {
    forall x | x in table && x in after && after[x].path != table[x].path
      ensures x in Ids(updated)
    {
      if x in before {
        assert after[x].path == before[x].path;
      }
    }
  }

  /** Step 1 of the candidate loop: the identity key names an active row not yet claimed. */
  method IdentityMatch(db: Database, ghost P0: map<string, Project>, ghost planning0: map<string, PlanningRow>,
                       ghost snapIds: set<string>, t: Tally, c: Candidate, now: string)
    returns (t': Tally)
    requires db.Valid() && SyncFrame(P0, planning0, db.projects, db.planning, now)
    requires TallyInv(P0, db.projects, snapIds, t, now)
    requires c.identityKey.Some? && c.identityKey.value in t.byIdentity
    modifies db
    ensures db.Valid() && SyncFrame(P0, planning0, db.projects, db.planning, now)
    ensures TallyInv(P0, db.projects, snapIds, t', now)
    ensures t'.Count() == t.Count() + 1 && t'.added == t.added
    ensures var existing := t.byIdentity[c.identityKey.value];
      && t'.byIdentity == t.byIdentity - {c.identityKey.value}
      && t'.matched == t.matched + {existing.id}
      && (existing.path != c.path ==>
            && t'.updated == t.updated + [existing.(path := c.path, name := c.name)]
            && t'.unchangedCount == t.unchangedCount
            && db.projects == Moved(old(db.projects), existing.id, c.path, c.name))
      && (existing.path == c.path ==>
            t'.updated == t.updated && t'.unchangedCount == t.unchangedCount + 1 && db.projects == old(db.projects))
    ensures db.links == old(db.links)
  {
    var existing := t.byIdentity[c.identityKey.value];
    var byIdentity := t.byIdentity - {c.identityKey.value};
    var matched := t.matched + {existing.id};
    if existing.path != c.path {
      ApplyPathUpdate(db, existing.id, c.path, c.name);
      CascadeTwice(planning0, old(db.projects).Keys, db.projects.Keys);
      MoveFrame(P0, planning0, old(db.projects), old(db.planning), db.projects, snapIds, t, c.identityKey.value, c.path, c.name, now);
      MoveTally(P0, planning0, old(db.projects), old(db.planning), db.projects, snapIds, t, c.identityKey.value, c.path, c.name, now);
      var u := existing.(path := c.path, name := c.name);
      t' := Tally(byIdentity, t.updated + [u], t.added, t.unchangedCount, matched);
    } else {
      t' := Tally(byIdentity, t.updated, t.added, t.unchangedCount + 1, matched);
    }
  }

  /** Step 2 of the candidate loop: the snapshot has a row at the candidate's path. */
  method PathMatch(db: Database, ghost P0: map<string, Project>, ghost planning0: map<string, PlanningRow>,
                   ghost snapIds: set<string>, t: Tally, existing: Project, c: Candidate, now: string)
    returns (t': Tally)
    requires db.Valid() && SyncFrame(P0, planning0, db.projects, db.planning, now)
    requires TallyInv(P0, db.projects, snapIds, t, now)
    requires Loaded(P0, existing) && existing.id in snapIds
    modifies db
    ensures db.Valid() && SyncFrame(P0, planning0, db.projects, db.planning, now)
    ensures TallyInv(P0, db.projects, snapIds, t', now)
    ensures t' == t.(unchangedCount := t.unchangedCount + 1, matched := t.matched + {existing.id})
    ensures db.projects == Backfilled(old(db.projects), existing, c.identityKey)
    ensures db.links == old(db.links)
  {
    if existing.identityKey.None? && c.identityKey.Some? {
      db.SetIdentityKey(existing.id, c.identityKey.value);
      BackfillFrame(P0, planning0, old(db.projects), db.planning, db.projects, existing, c.identityKey, now);
      BackfillTally(P0, old(db.projects), db.projects, snapIds, t, existing, c.identityKey, now);
    }
    t' := t.(unchangedCount := t.unchangedCount + 1, matched := t.matched + {existing.id});
  }

  /** Step 3 of the candidate loop: insert the candidate under a fresh id. */
  method InsertNew(db: Database, ghost P0: map<string, Project>, ghost planning0: map<string, PlanningRow>,
                   ghost snapIds: set<string>, keys0: set<string>, t: Tally, c: Candidate, now: string)
    returns (r: Result<Tally, DbError>, ghost id: string)
    requires db.Valid() && SyncFrame(P0, planning0, db.projects, db.planning, now)
    requires TallyInv(P0, db.projects, snapIds, t, now)
    requires keys0 == P0.Keys
    modifies db
    ensures db.Valid() && SyncFrame(P0, planning0, db.projects, db.planning, now)
    ensures r.Ok? ==> TallyInv(P0, db.projects, snapIds, r.value, now) && r.value.Count() == t.Count() + 1
    ensures id !in old(db.projects) && id !in keys0 && id !in Ids(t.added)
    ensures r.Ok? <==> forall x | x in old(db.projects) :: old(db.projects)[x].path != c.path
    ensures r.Ok? ==> r.value == t.(added := t.added + [NewRow(c, id, now)])
    ensures r.Ok? ==> db.projects == old(db.projects)[id := NewRow(c, id, now)]
    ensures r.Err? ==> r.error == UniqueViolation("projects.path") && db.projects == old(db.projects)
    ensures db.links == old(db.links)
  {
    FreshIdExists(db.projects.Keys + keys0 + Ids(t.added));
    var newId :| newId !in db.projects.Keys + keys0 + Ids(t.added);
    id := newId;
    var row := NewRow(c, newId, now);
    var res := db.InsertProject(row);
    if res.Err? {
      r := Err(res.error);
      return;
    }
    InsertKeeps(P0, planning0, old(db.projects), db.planning, db.projects, snapIds, t, row, now);
    r := Ok(t.(added := t.added + [row]));
  }

  lemma InsertKeeps(P0: map<string, Project>, planning0: map<string, PlanningRow>, before: map<string, Project>,
                    planning: map<string, PlanningRow>, after: map<string, Project>, snapIds: set<string>,
                    t: Tally, row: Project, now: string)
    requires SyncFrame(P0, planning0, before, planning, now) && TallyInv(P0, before, snapIds, t, now)
    requires row.id !in before && row.id !in P0 && row.id !in Ids(t.added) && Inserted(row, now)
    requires after == before[row.id := row]
    ensures SyncFrame(P0, planning0, after, planning, now)
    ensures TallyInv(P0, after, snapIds, t.(added := t.added + [row]), now)
  {
    InsertFrame(P0, planning0, before, planning, after, row, now);
    InsertTally(P0, before, after, snapIds, t, row, now);
  }

  lemma InsertFrame(P0: map<string, Project>, planning0: map<string, PlanningRow>, before: map<string, Project>,
                    planning: map<string, PlanningRow>, after: map<string, Project>, row: Project, now: string)
    requires SyncFrame(P0, planning0, before, planning, now)
    requires row.id !in before && row.id !in P0 && Inserted(row, now)
    requires after == before[row.id := row]
    ensures SyncFrame(P0, planning0, after, planning, now)
  {
    CascadeUnreferenced(planning0, before.Keys, after.Keys);
  }

  lemma InsertTally(P0: map<string, Project>, before: map<string, Project>, after: map<string, Project>,
                    snapIds: set<string>, t: Tally, row: Project, now: string)
    requires TallyInv(P0, before, snapIds, t, now)
    requires row.id !in before && row.id !in P0 && row.id !in Ids(t.added) && Inserted(row, now)
    requires after == before[row.id := row]
    ensures TallyInv(P0, after, snapIds, t.(added := t.added + [row]), now)
  {
    IdsAppend(t.added, row);
  }

  /** Giving the path match its missing key keeps the sync frame. */
  lemma BackfillFrame(P0: map<string, Project>, planning0: map<string, PlanningRow>, before: map<string, Project>,
                      planning: map<string, PlanningRow>, after: map<string, Project>, existing: Project,
                      key: Option<string>, now: string)
    requires SyncFrame(P0, planning0, before, planning, now)
    requires Loaded(P0, existing)
    requires after == Backfilled(before, existing, key)
    ensures SyncFrame(P0, planning0, after, planning, now)
  {
    assert after.Keys == before.Keys;
    if existing.identityKey.None? && key.Some? && existing.id in before {
      forall x | x in after && x in P0 ensures Preserved(after[x], P0[x]) && after[x].isArchived == P0[x].isArchived {
        if x == existing.id {
          assert P0[x] == existing;
        }
      }
    }
  }

  /** Giving the path match its missing key keeps the loop variables in step with the table. */
  lemma BackfillTally(P0: map<string, Project>, before: map<string, Project>, after: map<string, Project>,
                      snapIds: set<string>, t: Tally, existing: Project, key: Option<string>, now: string)
    requires TallyInv(P0, before, snapIds, t, now)
    requires Loaded(P0, existing) && existing.id in snapIds
    requires after == Backfilled(before, existing, key)
    ensures TallyInv(P0, after, snapIds, t.(unchangedCount := t.unchangedCount + 1, matched := t.matched + {existing.id}), now)
  {
    if existing.identityKey.None? && key.Some? && existing.id in before {
      forall k | k in t.byIdentity
        ensures t.byIdentity[k].id != existing.id
        ensures t.byIdentity[k].id in after ==> after[t.byIdentity[k].id] == t.byIdentity[k]
      {
        assert Loaded(P0, t.byIdentity[k]) && t.byIdentity[k].identityKey.Some?;
      }
      forall j | 0 <= j < |t.updated|
        ensures t.updated[j].id != existing.id
        ensures t.updated[j].id in after ==> after[t.updated[j].id] == t.updated[j]
      {
        assert Renamed(P0, t.updated[j]);
      }
      forall j | 0 <= j < |t.added| ensures t.added[j].id in after ==> after[t.added[j].id] == t.added[j] {
        assert t.added[j].id !in P0;
      }
      assert Reported(P0, after, t.updated, t.added, now);
    } else {
      assert after == before;
    }
  }

  /** Moving the claimed identity match keeps the sync frame. */
  lemma MoveFrame(P0: map<string, Project>, planning0: map<string, PlanningRow>, before: map<string, Project>,
                  planning: map<string, PlanningRow>, after: map<string, Project>, snapIds: set<string>,
                  t: Tally, key: string, path: string, name: string, now: string)
    requires SyncFrame(P0, planning0, before, planning, now) && TallyInv(P0, before, snapIds, t, now)
    requires key in t.byIdentity
    requires after == Moved(before, t.byIdentity[key].id, path, name)
    ensures SyncFrame(P0, planning0, after, Cascade(planning0, after.Keys), now)
  {
    var existing := t.byIdentity[key];
    forall x | x in after && x in P0 ensures Preserved(after[x], P0[x]) && after[x].isArchived == P0[x].isArchived {
      assert x in before;
      if x == existing.id {
        assert !P0[x].isArchived;
      }
    }
  }

  /** Moving the claimed identity match keeps the loop variables in step with the table. */
  lemma MoveTally(P0: map<string, Project>, planning0: map<string, PlanningRow>, before: map<string, Project>,
                  planning: map<string, PlanningRow>, after: map<string, Project>, snapIds: set<string>,
                  t: Tally, key: string, path: string, name: string, now: string)
    requires SyncFrame(P0, planning0, before, planning, now) && TallyInv(P0, before, snapIds, t, now)
    requires key in t.byIdentity
    requires after == Moved(before, t.byIdentity[key].id, path, name)
    ensures var existing := t.byIdentity[key];
      TallyInv(P0, after, snapIds, Tally(t.byIdentity - {key}, t.updated + [existing.(path := path, name := name)],
                                         t.added, t.unchangedCount, t.matched + {existing.id}), now)
  {
    var existing := t.byIdentity[key];
    var u := existing.(path := path, name := name);
    IdsAppend(t.updated, u);
    MoveReported(P0, planning0, before, planning, after, snapIds, t, key, path, name, now);
    var ups := t.updated + [u];
    forall j | 0 <= j < |t.updated| ensures ups[j] == t.updated[j] {}
  }

  /** The moved row is reported as updated, with its new path and name. */
  lemma MoveReported(P0: map<string, Project>, planning0: map<string, PlanningRow>, before: map<string, Project>,
                     planning: map<string, PlanningRow>, after: map<string, Project>, snapIds: set<string>,
                     t: Tally, key: string, path: string, name: string, now: string)
    requires SyncFrame(P0, planning0, before, planning, now) && TallyInv(P0, before, snapIds, t, now)
    requires key in t.byIdentity
    requires after == Moved(before, t.byIdentity[key].id, path, name)
    ensures Reported(P0, after, t.updated + [t.byIdentity[key].(path := path, name := name)], t.added, now)
  {
    var existing := t.byIdentity[key];
    var u := existing.(path := path, name := name);
    IdsAppend(t.updated, u);
    var ups := t.updated + [u];
    forall j | 0 <= j < |t.updated| ensures ups[j] == t.updated[j] && ups[j].id != u.id {
      assert key in t.byIdentity;
    }
  }

  lemma SyncStart(P0: map<string, Project>, planning0: map<string, PlanningRow>, now: string)
    requires ForeignKeysHold(planning0, P0)
    ensures SyncFrame(P0, planning0, P0, planning0, now)
  {
    assert Cascade(planning0, P0.Keys) == planning0;
  }

  lemma IndexesLoaded(P0: map<string, Project>, snapshot: seq<Project>, now: string)
    requires forall j | 0 <= j < |snapshot| :: Loaded(P0, snapshot[j])
    ensures TallyInv(P0, P0, Ids(snapshot), Tally(IdentityIndex(snapshot), [], [], 0, {}), now)
    ensures forall p | p in PathIndex(snapshot) :: Loaded(P0, PathIndex(snapshot)[p]) && PathIndex(snapshot)[p].id in Ids(snapshot)
  {
    assert forall x | x in snapshot :: x.id in Ids(snapshot);
  }

  /** One pass of the candidate loop: the three branches in order. */
  method Step(db: Database, ghost P0: map<string, Project>, ghost planning0: map<string, PlanningRow>,
              ghost snapIds: set<string>, keys0: set<string>, byPath: map<string, Project>,
              t: Tally, c: Candidate, now: string)
    returns (r: Result<Tally, DbError>, ghost id: string)
    requires db.Valid() && SyncFrame(P0, planning0, db.projects, db.planning, now)
    requires TallyInv(P0, db.projects, snapIds, t, now)
    requires keys0 == P0.Keys
    requires forall p | p in byPath :: Loaded(P0, byPath[p]) && byPath[p].id in snapIds
    modifies db
    ensures db.Valid() && SyncFrame(P0, planning0, db.projects, db.planning, now)
    ensures r.Ok? ==> TallyInv(P0, db.projects, snapIds, r.value, now) && r.value.Count() == t.Count() + 1
    ensures r.Err? ==> r.error == UniqueViolation("projects.path")
    ensures id !in keys0
    ensures var p := StepRef(old(db.projects), byPath, t, c, id, now);
      && db.projects == p.table
      && (r.Ok? <==> p.failure.None?)
      && (r.Ok? ==> r.value == p.tally)
      && (r.Err? ==> r.error == p.failure.value)
    ensures db.links == old(db.links)
  {
    if c.identityKey.Some? && c.identityKey.value in t.byIdentity {
      var t' := IdentityMatch(db, P0, planning0, snapIds, t, c, now);
      r := Ok(t');
      FreshIdExists(keys0);
      id :| id !in keys0;
    } else if c.path in byPath {
      var t' := PathMatch(db, P0, planning0, snapIds, t, byPath[c.path], c, now);
      r := Ok(t');
      FreshIdExists(keys0);
      id :| id !in keys0;
    } else {
      r, id := InsertNew(db, P0, planning0, snapIds, keys0, t, c, now);
      assert PathHeldByOther(old(db.projects), c.path, id) <==> exists x | x in old(db.projects) :: old(db.projects)[x].path == c.path;
    }
  }

  /** One pass of the loop in ReconcileCandidates: Step on the next candidate, as one more step of ReconcileRef. */
  method Advance(db: Database, ghost P0: map<string, Project>, ghost planning0: map<string, PlanningRow>,
                 ghost snapIds: set<string>, keys0: set<string>, byPath: map<string, Project>, ghost t0: Tally,
                 scanned: seq<Candidate>, i: nat, ghost uuids: seq<string>, t: Tally, now: string)
    returns (r: Result<Tally, DbError>, ghost id: string)
    requires i < |scanned| && |uuids| == i
    requires db.Valid() && SyncFrame(P0, planning0, db.projects, db.planning, now)
    requires TallyInv(P0, db.projects, snapIds, t, now)
    requires keys0 == P0.Keys
    requires forall p | p in byPath :: Loaded(P0, byPath[p]) && byPath[p].id in snapIds
    requires ReconcileRef(P0, byPath, t0, scanned[..i], uuids, now) == Pass(db.projects, t, None)
    modifies db
    ensures db.Valid() && SyncFrame(P0, planning0, db.projects, db.planning, now)
    ensures r.Ok? ==> TallyInv(P0, db.projects, snapIds, r.value, now) && r.value.Count() == t.Count() + 1
    ensures r.Err? ==> r.error == UniqueViolation("projects.path")
    ensures id !in keys0
    ensures r.Ok? ==> ReconcileRef(P0, byPath, t0, scanned[..i + 1], uuids + [id], now) == Pass(db.projects, r.value, None)
    ensures r.Err? ==> ReconcileRef(P0, byPath, t0, scanned[..i + 1], uuids + [id], now) == Pass(db.projects, t, Some(r.error))
    ensures db.links == old(db.links)
  {
    ghost var table := db.projects;
    r, id := Step(db, P0, planning0, snapIds, keys0, byPath, t, scanned[i], now);
    RefAdvance(P0, byPath, t0, scanned, i, uuids, table, t, id, now);
  }

  /** After a pass that has not failed, one more candidate is one more `StepRef`. */
  lemma RefAdvance(P0: map<string, Project>, byPath: map<string, Project>, t0: Tally, scanned: seq<Candidate>, i: nat,
                   uuids: seq<string>, table: map<string, Project>, t: Tally, id: string, now: string)
    requires i < |scanned| && |uuids| == i
    requires ReconcileRef(P0, byPath, t0, scanned[..i], uuids, now) == Pass(table, t, None)
    ensures ReconcileRef(P0, byPath, t0, scanned[..i + 1], uuids + [id], now) == StepRef(table, byPath, t, scanned[i], id, now)
  {
    assert scanned[..i + 1] == scanned[..i] + [scanned[i]];
    RefSnoc(P0, byPath, t0, scanned[..i], uuids, scanned[i], id, now);
  }

  /**
   * The candidate loop of `sync_projects`: an identity match moves and
   * renames the row; failing that, a path match in the snapshot backfills a
   * missing key; failing both, a new row is inserted. Only the insert can
   * fail, on a path already held, and the loop stops there.
   */
  method ReconcileCandidates(db: Database, snapshot: seq<Project>, scanned: seq<Candidate>, now: string)
    returns (r: Result<Reconciled, DbError>, matched: set<string>, ghost uuids: seq<string>)
    requires db.Valid()
    requires forall j | 0 <= j < |snapshot| :: Loaded(db.projects, snapshot[j])
    modifies db
    ensures db.Valid()
    ensures SyncFrame(old(db.projects), old(db.planning), db.projects, db.planning, now)
    ensures db.links == old(db.links)
    ensures matched <= Ids(snapshot)
    ensures r.Err? ==> r.error == UniqueViolation("projects.path")
    ensures r.Ok? ==> |r.value.updated| + |r.value.added| + r.value.unchangedCount == |scanned|
    ensures r.Ok? ==> Reported(old(db.projects), db.projects, r.value.updated, r.value.added, now)
    ensures r.Ok? ==> Ids(r.value.updated) <= matched
    ensures |uuids| == |scanned| && forall k | 0 <= k < |uuids| :: uuids[k] !in old(db.projects)
    ensures var p := ReconcileRef(old(db.projects), PathIndex(snapshot), Tally(IdentityIndex(snapshot), [], [], 0, {}),
                                  scanned, uuids, now);
      && db.projects == p.table && matched == p.tally.matched
      && (r.Err? <==> p.failure.Some?)
      && (r.Err? ==> r.error == p.failure.value)
      && (r.Ok? ==> r.value == Reconciled(p.tally.updated, p.tally.added, p.tally.unchangedCount))
  {
    ghost var P0 := db.projects;
    ghost var planning0 := db.planning;
    ghost var snapIds := Ids(snapshot);
    var keys0 := db.projects.Keys;
    var byPath := PathIndex(snapshot);
    var t := Tally(IdentityIndex(snapshot), [], [], 0, {});
    ghost var t0 := t;
    SyncStart(P0, planning0, now);
    IndexesLoaded(P0, snapshot, now);
    uuids := [];
    assert scanned[..0] == [];

    var i := 0;
    while i < |scanned|
      invariant 0 <= i <= |scanned|
      invariant db.Valid() && SyncFrame(P0, planning0, db.projects, db.planning, now)
      invariant TallyInv(P0, db.projects, snapIds, t, now)
      invariant t.Count() == i
      invariant db.links == old(db.links)
      invariant |uuids| == i && forall u | u in uuids :: u !in keys0
      invariant ReconcileRef(P0, byPath, t0, scanned[..i], uuids, now) == Pass(db.projects, t, None)
    {
      var res, id := Advance(db, P0, planning0, snapIds, keys0, byPath, t0, scanned, i, uuids, t, now);
      if res.Err? {
        r, matched := Err(res.error), t.matched;
        uuids := StopPadding(P0, keys0, byPath, t0, scanned, uuids, id, now);
        assert ReconcileRef(P0, byPath, t0, scanned, uuids, now) == Pass(db.projects, t, Some(res.error));
        return;
      }
      uuids := uuids + [id];
      t := res.value;
      i := i + 1;
    }
    assert scanned[..i] == scanned;
    assert ReconcileRef(P0, byPath, t0, scanned, uuids, now) == Pass(db.projects, t, None);
    r, matched := Ok(Reconciled(t.updated, t.added, t.unchangedCount)), t.matched;
  }

  /** The loop over one more candidate. */
  lemma RefSnoc(table: map<string, Project>, byPath: map<string, Project>, t: Tally,
                cands: seq<Candidate>, ids: seq<string>, c: Candidate, id: string, now: string)
    requires |ids| == |cands|
    ensures var prev := ReconcileRef(table, byPath, t, cands, ids, now);
      ReconcileRef(table, byPath, t, cands + [c], ids + [id], now)
      == if prev.failure.Some? then prev else StepRef(prev.table, byPath, prev.tally, c, id, now)
  {
    assert (cands + [c])[..|cands|] == cands && (ids + [id])[..|ids|] == ids;
  }

  /** Padding the drawn UUIDs after the failing candidate leaves the loop's outcome as it was. */
  ghost method RefStopsPadded(table: map<string, Project>, byPath: map<string, Project>, t: Tally,
                              cands: seq<Candidate>, ids: seq<string>, x: string, now: string)
    returns (all: seq<string>)
    requires 0 < |ids| <= |cands|
    requires ReconcileRef(table, byPath, t, cands[..|ids|], ids, now).failure.Some?
    requires x == ids[|ids| - 1]
    ensures |all| == |cands|
    ensures forall k | 0 <= k < |cands| :: all[k] in ids
    ensures ReconcileRef(table, byPath, t, cands, all, now) == ReconcileRef(table, byPath, t, cands[..|ids|], ids, now)
  {
    all := Padded(ids, |cands|, x);
    RefStops(table, byPath, t, cands, all, now, |ids|);
    forall k | 0 <= k < |cands| ensures all[k] in ids {
      if k < |ids| {
        assert all[k] == all[..|ids|][k];
      }
    }
  }

  /** The UUIDs of a loop that stopped at candidate `|ids|`, padded to one per candidate, all unused. */
  ghost method StopPadding(table: map<string, Project>, keys0: set<string>, byPath: map<string, Project>, t: Tally,
                           cands: seq<Candidate>, ids: seq<string>, id: string, now: string)
    returns (all: seq<string>)
    requires |ids| < |cands|
    requires ReconcileRef(table, byPath, t, cands[..|ids| + 1], ids + [id], now).failure.Some?
    requires id !in keys0 && forall u | u in ids :: u !in keys0
    ensures |all| == |cands| && forall k | 0 <= k < |all| :: all[k] !in keys0
    ensures ReconcileRef(table, byPath, t, cands, all, now) == ReconcileRef(table, byPath, t, cands[..|ids| + 1], ids + [id], now)
  {
    ghost var drawn := ids + [id];
    assert forall u | u in drawn :: u !in keys0;
    all := RefStopsPadded(table, byPath, t, cands, drawn, id, now);
  }

  /** `ids` filled up to length `n` with copies of `x`. */
  function Padded(ids: seq<string>, n: nat, x: string): (r: seq<string>)
    requires |ids| <= n
    ensures |r| == n && r[..|ids|] == ids
    ensures forall k | |ids| <= k < n :: r[k] == x
  {
    ids + seq(n - |ids|, _ => x)
  }

  // ─── Archiving stale rows ───────────────────────────────────────────────

  /**
   * An unmatched row is stale when its path is gone or lies outside the scan
   * root; without a usable scan root every existing path counts as inside.
   */
  predicate IsStale(p: Project, scanBase: Option<string>, pathExists: string -> bool) {
    !pathExists(p.path) || (scanBase.Some? && !PathStartsWith(p.path, scanBase.value))
  }

  /** Ids of the first `n` snapshot rows that the archive loop archives. */
  function StaleIds(rows: seq<Project>, n: nat, matched: set<string>, scanBase: Option<string>,
                    pathExists: string -> bool): set<string>
    requires n <= |rows|
  {
    set j | 0 <= j < n && rows[j].id !in matched && IsStale(rows[j], scanBase, pathExists) :: rows[j].id
  }

  /** The active rows of `table` that sync archives, given what the candidate loop matched. */
  function StaleActive(table: map<string, Project>, matched: set<string>, scanBase: Option<string>,
                       pathExists: string -> bool): set<string>
  {
    set id | id in table && !table[id].isArchived && id !in matched && IsStale(table[id], scanBase, pathExists)
  }

  lemma StaleIdsStep(rows: seq<Project>, n: nat, matched: set<string>, scanBase: Option<string>, pathExists: string -> bool)
    requires n < |rows| && DistinctIds(rows)
    ensures var before, after := StaleIds(rows, n, matched, scanBase, pathExists), StaleIds(rows, n + 1, matched, scanBase, pathExists);
      if rows[n].id !in matched && IsStale(rows[n], scanBase, pathExists)
      then after == before + {rows[n].id} && |after| == |before| + 1
      else after == before
  {
    assert rows[n].id !in StaleIds(rows, n, matched, scanBase, pathExists);
  }

  /** The archive loop of `sync_projects`: archive each unmatched stale snapshot row and count it. */
  method ArchiveStale(db: Database, snapshot: seq<Project>, matched: set<string>, scanBase: Option<string>,
                      pathExists: string -> bool)
    returns (count: nat)
    requires db.Valid() && DistinctIds(snapshot)
    modifies db
    ensures db.Valid()
    ensures db.projects == ArchiveAll(old(db.projects), StaleIds(snapshot, |snapshot|, matched, scanBase, pathExists))
    ensures count == |StaleIds(snapshot, |snapshot|, matched, scanBase, pathExists)|
    ensures db.planning == old(db.planning) && db.links == old(db.links)
  {
    count := 0;
    ghost var P := db.projects;
    ghost var archived: set<string> := {};
    ArchiveNone(P);
    var i := 0;
    while i < |snapshot|
      invariant 0 <= i <= |snapshot|
      invariant db.Valid()
      invariant archived == StaleIds(snapshot, i, matched, scanBase, pathExists)
      invariant db.projects == ArchiveAll(P, archived) && count == |archived|
      invariant db.planning == old(db.planning) && db.links == old(db.links)
    {
      archived, count := ArchiveNext(db, P, snapshot, i, matched, scanBase, pathExists, archived, count);
      i := i + 1;
    }
  }

  /** One pass of the archive loop: archive `rows[i]` when it is unmatched and stale. */
  method ArchiveNext(db: Database, ghost P: map<string, Project>, rows: seq<Project>, i: nat, matched: set<string>,
                     scanBase: Option<string>, pathExists: string -> bool, ghost archived: set<string>, count: nat)
    returns (ghost archived': set<string>, count': nat)
    requires i < |rows| && DistinctIds(rows)
    requires db.Valid() && archived == StaleIds(rows, i, matched, scanBase, pathExists)
    requires db.projects == ArchiveAll(P, archived) && count == |archived|
    modifies db
    ensures db.Valid() && archived' == StaleIds(rows, i + 1, matched, scanBase, pathExists)
    ensures db.projects == ArchiveAll(P, archived') && count' == |archived'|
    ensures db.planning == old(db.planning) && db.links == old(db.links)
  {
    StaleIdsStep(rows, i, matched, scanBase, pathExists);
    archived', count' := archived, count;
    if rows[i].id !in matched && IsStale(rows[i], scanBase, pathExists) {
      ArchiveOne(db, P, archived, rows[i].id);
      archived', count' := archived + {rows[i].id}, count + 1;
    }
  }

  /** One archive step of the loop: the archived set grows by `id`. */
  method ArchiveOne(db: Database, ghost P: map<string, Project>, ghost archived: set<string>, id: string)
    requires db.Valid() && db.projects == ArchiveAll(P, archived)
    modifies db
    ensures db.Valid() && db.projects == ArchiveAll(P, archived + {id})
    ensures db.planning == old(db.planning) && db.links == old(db.links)
  {
    ArchiveAllMore(P, archived, id);
    db.SetArchived(id, true);
  }

  lemma ArchiveNone(table: map<string, Project>)
    ensures ArchiveAll(table, {}) == table
  {
  }

  /** The table with the rows in `ids` archived. */
  function ArchiveAll(table: map<string, Project>, ids: set<string>): (r: map<string, Project>)
    ensures r.Keys == table.Keys
    ensures forall id | id in r :: r[id] == (if id in ids then table[id].(isArchived := true) else table[id])
  {
    map id | id in table :: if id in ids then table[id].(isArchived := true) else table[id]
  }

  lemma ArchiveAllMore(table: map<string, Project>, ids: set<string>, id: string)
    ensures ArchiveAll(table, ids + {id}) ==
      (var t := ArchiveAll(table, ids); if id in t then t[id := t[id].(isArchived := true)] else t)
  {
  }

  /** Over the rows `load_db_projects` read, the archive loop archives exactly the stale active rows. */
  lemma SnapshotStale(P0: map<string, Project>, snapshot: seq<Project>, matched: set<string>,
                      scanBase: Option<string>, pathExists: string -> bool)
    requires forall j | 0 <= j < |snapshot| :: Loaded(P0, snapshot[j])
    requires Ids(snapshot) == ActiveIds(P0)
    ensures StaleIds(snapshot, |snapshot|, matched, scanBase, pathExists) == StaleActive(P0, matched, scanBase, pathExists)
  {
    forall x | x in StaleActive(P0, matched, scanBase, pathExists)
      ensures x in StaleIds(snapshot, |snapshot|, matched, scanBase, pathExists)
    {
      assert x in Ids(snapshot);
      var j :| 0 <= j < |snapshot| && snapshot[j].id == x;
    }
  }

  /** Archiving the stale rows keeps everything the candidate loop established. */
  lemma ArchiveKeeps(P0: map<string, Project>, planning0: map<string, PlanningRow>, P1: map<string, Project>,
                     planning1: map<string, PlanningRow>, P2: map<string, Project>, stale: set<string>,
                     matched: set<string>, updated: seq<Project>, added: seq<Project>, now: string)
    requires SyncFrame(P0, planning0, P1, planning1, now)
    requires Reported(P0, P1, updated, added, now) && Ids(updated) <= matched
    requires stale <= ActiveIds(P0) && stale !! matched
    requires P2 == ArchiveAll(P1, stale)
    ensures RowsKept(P0, P2, now)
    ensures Reported(P0, P2, updated, added, now)
    ensures forall id | id in P2 && id in P0 :: P2[id].isArchived <==> P0[id].isArchived || id in stale
  {
    forall j | 0 <= j < |updated|
      ensures updated[j].id !in stale
    {
      assert updated[j].id in Ids(updated);
    }
  }

  /**
   * `sync_projects`: reconcile the scan with the active rows, then archive
   * the active rows nothing matched whose path is gone or outside the scan
   * root. `scanBase` is the scan root as the archive step recomputes it
   * (None when it cannot be determined), `pathExists` the filesystem's
   * answer. `matched` is the set of row ids the candidate loop claimed.
   */
  method SyncProjects(db: Database, scan: Result<seq<Candidate>, string>, scanBase: Option<string>,
                      pathExists: string -> bool, now: string)
    returns (r: Result<SyncResult, CommandError>, ghost matched: set<string>,
             ghost loaded: seq<Project>, ghost uuids: seq<string>)
    requires db.Valid()
    modifies db
    ensures db.Valid()
    ensures scan.Ok? ==>
      && (forall j | 0 <= j < |loaded| :: Loaded(old(db.projects), loaded[j]))
      && Ids(loaded) == ActiveIds(old(db.projects)) && DistinctIds(loaded)
      && |uuids| == |scan.value| && (forall k | 0 <= k < |uuids| :: uuids[k] !in old(db.projects))
    ensures scan.Ok? ==>
      var p := ReconcileRef(old(db.projects), PathIndex(loaded), Tally(IdentityIndex(loaded), [], [], 0, {}),
                            scan.value, uuids, now);
      var stale := StaleActive(old(db.projects), p.tally.matched, scanBase, pathExists);
      && matched == p.tally.matched
      && (r.Err? <==> p.failure.Some?)
      && (r.Err? ==> r.error == Database(p.failure.value) && db.projects == p.table)
      && (r.Ok? ==> r.value == SyncResult(p.tally.updated, p.tally.added, p.tally.unchangedCount, |stale|))
      && (r.Ok? ==> db.projects == ArchiveAll(p.table, stale))
    ensures scan.Err? ==> r == Err(ScanFailed(scan.error)) && db.projects == old(db.projects) && db.planning == old(db.planning)
    ensures RowsKept(old(db.projects), db.projects, now)
    ensures db.planning == Cascade(old(db.planning), db.projects.Keys) && db.links == old(db.links)
    ensures matched <= ActiveIds(old(db.projects))
    ensures r.Err? && scan.Ok? ==> r.error == Database(UniqueViolation("projects.path"))
    ensures r.Err? ==> forall id | id in db.projects && id in old(db.projects) :: db.projects[id].isArchived == old(db.projects)[id].isArchived
    ensures r.Ok? ==> |r.value.updated| + |r.value.added| + r.value.unchangedCount == |scan.value|
    ensures r.Ok? ==> Reported(old(db.projects), db.projects, r.value.updated, r.value.added, now)
    ensures r.Ok? ==> Ids(r.value.updated) <= matched
    ensures r.Ok? ==> forall id | id in db.projects && id in old(db.projects) ::
      db.projects[id].isArchived <==> old(db.projects)[id].isArchived || id in StaleActive(old(db.projects), matched, scanBase, pathExists)
    ensures r.Ok? ==> r.value.archivedCount == |StaleActive(old(db.projects), matched, scanBase, pathExists)|
  {
    ghost var P0 := db.projects;
    ghost var planning0 := db.planning;
    matched, loaded, uuids := {}, [], [];
    if scan.Err? {
      r := Err(ScanFailed(scan.error));
      SyncStart(P0, planning0, now);
      return;
    }
    var snapshot := LoadDbProjects(db);
    loaded := snapshot;
    var rec, m, ids := ReconcileCandidates(db, snapshot, scan.value, now);
    matched, uuids := m, ids;
    if rec.Err? {
      r := Err(Database(rec.error));
      return;
    }
    ghost var P1 := db.projects;
    ghost var planning1 := db.planning;
    var archivedCount := ArchiveStale(db, snapshot, m, scanBase, pathExists);
    SnapshotStale(P0, snapshot, m, scanBase, pathExists);
    ArchiveKeeps(P0, planning0, P1, planning1, db.projects, StaleActive(P0, m, scanBase, pathExists),
                 m, rec.value.updated, rec.value.added, now);
    r := Ok(SyncResult(rec.value.updated, rec.value.added, rec.value.unchangedCount, archivedCount));
  }

  // ─── Lifecycle commands ─────────────────────────────────────────────────

  /**
   * The id `upsert_project` writes under: a row (archived or not) with the
   * input's identity key, else the row holding the input's path, else a new id.
   */
  ghost predicate ChosenId(table: map<string, Project>, input: CreateProjectInput, id: string) {
    if input.identityKey.Some? && exists x | x in table :: table[x].identityKey == input.identityKey then
      id in table && table[id].identityKey == input.identityKey
    else if exists x | x in table :: table[x].path == input.path then
      id in table && table[id].path == input.path
    else
      id !in table
  }

  /**
   * The row `INSERT ... ON CONFLICT(id) DO UPDATE` leaves under `id`: name,
   * path, tags and colour come from the input; the identity key is
   * `COALESCE(excluded.identity_key, identity_key)`; a stored row keeps its
   * sort order, archived flag and creation time, and a new row takes the
   * insert's defaults.
   */
  function Upserted(table: map<string, Project>, id: string, input: CreateProjectInput, dbNow: string): (row: Project)
    ensures row.name == input.name && row.path == input.path && row.tags == input.tags.GetOr([]) && row.color == input.color
    ensures input.identityKey.Some? ==> row.identityKey == input.identityKey
    ensures input.identityKey.None? ==> row.identityKey == (if id in table then table[id].identityKey else None)
    ensures id in table ==>
      row.id == table[id].id && row.sortOrder == table[id].sortOrder
      && row.isArchived == table[id].isArchived && row.createdAt == table[id].createdAt
    ensures id !in table ==> row.id == id && row.sortOrder == 0 && !row.isArchived && row.createdAt == dbNow
  {
    if id in table then
      table[id].(name := input.name, path := input.path, tags := input.tags.GetOr([]), color := input.color,
                 identityKey := input.identityKey.Or(table[id].identityKey))
    else
      Project(id, input.name, input.path, input.tags.GetOr([]), input.color, 0, false, dbNow, input.identityKey)
  }

  /**
   * The table after the DELETE and the upsert of `upsert_project` under `id`:
   * the input's path is held by the upserted row alone, every other row
   * holding it is gone, and all remaining rows are as they were.
   */
  function UpsertTable(table: map<string, Project>, id: string, input: CreateProjectInput, dbNow: string): (after: map<string, Project>)
    ensures after.Keys == table.Keys - Phantoms(table, input.path, id) + {id}
    ensures forall x | x in after && x != id :: after[x] == table[x]
    ensures forall x | x in after :: after[x].path == input.path <==> x == id
    ensures after[id] == Upserted(table, id, input, dbNow)
  {
    Without(table, Phantoms(table, input.path, id))[id := Upserted(table, id, input, dbNow)]
  }

  /** The value `upsert_project` returns: the input with the insert's defaults, whatever the stored row holds. */
  function Echo(id: string, input: CreateProjectInput, now: string): Project {
    Project(id, input.name, input.path, input.tags.GetOr([]), input.color, 0, false, now, input.identityKey)
  }

  /** The text SQLite's `datetime('now')` gives: `YYYY-MM-DD HH:MM:SS`, a space between date and time. */
  predicate SqliteDateTime(s: string) {
    |s| == 19 && s[10] == ' '
  }

  /** The text chrono's `to_rfc3339` gives: a `T` between date and time, then the offset. */
  predicate Rfc3339(s: string) {
    |s| >= 20 && s[10] == 'T'
  }

  /**
   * The returned value and the stored row come from two clocks: the echo
   * carries the RFC 3339 time `now` of line 441, the new row the column
   * default `dbNow`. For a new id the echo is the stored row with its
   * creation time replaced, and never the stored row itself when the two
   * clocks print their own formats; for an existing row it is the stored row
   * exactly when that row has the defaults, this creation time, and no key
   * the COALESCE would keep.
   */
  lemma EchoVersusStored(table: map<string, Project>, id: string, input: CreateProjectInput, now: string, dbNow: string)
    requires ProjectsKeyed(table)
    ensures id !in table ==> Echo(id, input, now) == Upserted(table, id, input, dbNow).(createdAt := now)
    ensures id !in table && Rfc3339(now) && SqliteDateTime(dbNow) ==>
      Echo(id, input, now) != Upserted(table, id, input, dbNow)
    ensures id in table ==>
      (Echo(id, input, now) == Upserted(table, id, input, dbNow) <==>
         table[id].sortOrder == 0 && !table[id].isArchived && table[id].createdAt == now
         && (input.identityKey.Some? || table[id].identityKey.None?))
  {
    if id !in table && Rfc3339(now) && SqliteDateTime(dbNow) {
      assert Echo(id, input, now).createdAt[10] != Upserted(table, id, input, dbNow).createdAt[10];
    }
  }

  /** The chosen id is new exactly when no row has the input's identity key and none holds its path. */
  lemma ChosenIdNew(table: map<string, Project>, input: CreateProjectInput, id: string)
    requires ChosenId(table, input, id)
    ensures id !in table <==>
      (input.identityKey.None? || forall x | x in table :: table[x].identityKey != input.identityKey)
      && forall x | x in table :: table[x].path != input.path
  {
  }

  /** Lines 386-408 of `upsert_project`: look the row up by identity key, then by path, else take a new UUID. */
  method ChooseId(db: Database, input: CreateProjectInput) returns (id: string)
    requires db.Valid()
    ensures ChosenId(db.projects, input, id)
  {
    var byIdentity: Option<string> := None;
    if input.identityKey.Some? && exists x | x in db.projects :: db.projects[x].identityKey == input.identityKey {
      var x :| x in db.projects && db.projects[x].identityKey == input.identityKey;
      byIdentity := Some(x);
    }
    var byPath: Option<string> := None;
    if exists x | x in db.projects :: db.projects[x].path == input.path {
      var x :| x in db.projects && db.projects[x].path == input.path;
      byPath := Some(x);
    }
    match byIdentity.Or(byPath) {
      case Some(x) =>
        id := x;
      case None =>
        FreshIdExists(db.projects.Keys);
        id :| id !in db.projects.Keys;
    }
  }

  /**
   * `upsert_project`; `pathValid` is the verdict of `validate_home_path` on the
   * input path, `now` the RFC 3339 time of the returned value and `dbNow` the
   * `datetime('now')` a new row's creation time defaults to.
   */
  method UpsertProject(db: Database, input: CreateProjectInput, pathValid: bool, now: string, dbNow: string)
    returns (r: Result<Project, CommandError>)
    requires db.Valid()
    modifies db
    ensures db.Valid()
    ensures r.Err? <==> !pathValid
    ensures r.Err? ==> r.error == InvalidPath && db.projects == old(db.projects) && db.planning == old(db.planning)
    ensures db.planning == Cascade(old(db.planning), db.projects.Keys) && db.links == old(db.links)
    ensures r.Ok? ==> r.value == Echo(r.value.id, input, now) && ChosenId(old(db.projects), input, r.value.id)
    ensures r.Ok? ==> db.projects == UpsertTable(old(db.projects), r.value.id, input, dbNow)
  {
    if !pathValid {
      r := Err(InvalidPath);
      return;
    }
    var id := ChooseId(db, input);
    ghost var K0 := db.projects.Keys;
    ghost var planning0 := db.planning;
    var gone := db.DeleteProjects(Phantoms(db.projects, input.path, id));
    var res := db.UpsertProjectRow(id, input.name, input.path, input.tags.GetOr([]), input.color, input.identityKey, dbNow);
    assert res.Ok?;
    assert db.projects == UpsertTable(old(db.projects), id, input, dbNow);
    CascadeUnreferenced(planning0, K0 - Phantoms(old(db.projects), input.path, id), db.projects.Keys);
    CascadeTwice(planning0, K0, K0 - Phantoms(old(db.projects), input.path, id));
    r := Ok(Echo(id, input, now));
  }

  /** `import_scanned_projects`: the inputs whose upsert succeeds, in order. */
  function Accepted(inputs: seq<CreateProjectInput>, pathValid: string -> bool): (r: seq<CreateProjectInput>)
    ensures |r| <= |inputs|
    ensures forall x :: x in r <==> x in inputs && pathValid(x.path)
    decreases |inputs|
  {
    if inputs == [] then []
    else
      var front := Accepted(inputs[..|inputs| - 1], pathValid);
      assert inputs == inputs[..|inputs| - 1] + [inputs[|inputs| - 1]];
      if pathValid(inputs[|inputs| - 1].path) then front + [inputs[|inputs| - 1]] else front
  }

  /** The accepted inputs keep their order: those of a front part come before those of the rest. */
  lemma {:induction false} AcceptedAppend(a: seq<CreateProjectInput>, b: seq<CreateProjectInput>, pathValid: string -> bool)
    ensures Accepted(a + b, pathValid) == Accepted(a, pathValid) + Accepted(b, pathValid)
    decreases |b|
  {
    if b == [] {
      assert a + b == a;
    } else {
      var b' := b[..|b| - 1];
      assert (a + b)[..|a + b| - 1] == a + b' && (a + b)[|a + b| - 1] == b[|b| - 1];
      AcceptedAppend(a, b', pathValid);
    }
  }

  /** The ids of the given rows, in order. */
  function IdSeq(rows: seq<Project>): (ids: seq<string>)
    ensures |ids| == |rows| && forall k | 0 <= k < |rows| :: ids[k] == rows[k].id
  {
    seq(|rows|, k requires 0 <= k < |rows| => rows[k].id)
  }

  /** The table after upserting `inputs` in order, `ids[k]` being the id the k-th upsert wrote under. */
  function UpsertAll(table: map<string, Project>, inputs: seq<CreateProjectInput>, ids: seq<string>, dbNow: string)
    : map<string, Project>
    requires |ids| == |inputs|
    decreases |inputs|
  {
    if inputs == [] then table
    else
      UpsertTable(UpsertAll(table, inputs[..|inputs| - 1], ids[..|ids| - 1], dbNow),
                  ids[|ids| - 1], inputs[|inputs| - 1], dbNow)
  }

  /** Each id is one that `upsert_project` may choose against the table the earlier upserts left. */
  ghost predicate ChosenAll(table: map<string, Project>, inputs: seq<CreateProjectInput>, ids: seq<string>, dbNow: string)
    requires |ids| == |inputs|
    decreases |inputs|
  {
    inputs != [] ==>
      && ChosenAll(table, inputs[..|inputs| - 1], ids[..|ids| - 1], dbNow)
      && ChosenId(UpsertAll(table, inputs[..|inputs| - 1], ids[..|ids| - 1], dbNow), inputs[|inputs| - 1], ids[|ids| - 1])
  }

  /** The rows the upserts deleted because another row took their path. */
  function RemovedAll(table: map<string, Project>, inputs: seq<CreateProjectInput>, ids: seq<string>, dbNow: string)
    : set<string>
    requires |ids| == |inputs|
    decreases |inputs|
  {
    if inputs == [] then {}
    else
      var front := inputs[..|inputs| - 1];
      RemovedAll(table, front, ids[..|ids| - 1], dbNow)
      + Phantoms(UpsertAll(table, front, ids[..|ids| - 1], dbNow), inputs[|inputs| - 1].path, ids[|ids| - 1])
  }

  /** The folds over one more input. */
  lemma ImportSnoc(table: map<string, Project>, inputs: seq<CreateProjectInput>, ids: seq<string>,
                   x: CreateProjectInput, id: string, dbNow: string)
    requires |ids| == |inputs|
    ensures var before := UpsertAll(table, inputs, ids, dbNow);
      && UpsertAll(table, inputs + [x], ids + [id], dbNow) == UpsertTable(before, id, x, dbNow)
      && (ChosenAll(table, inputs + [x], ids + [id], dbNow) <==> ChosenAll(table, inputs, ids, dbNow) && ChosenId(before, x, id))
      && RemovedAll(table, inputs + [x], ids + [id], dbNow) == RemovedAll(table, inputs, ids, dbNow) + Phantoms(before, x.path, id)
  {
    assert (inputs + [x])[..|inputs|] == inputs && (ids + [id])[..|ids|] == ids;
  }

  /**
   * One more upsert: the planning rows still present are those whose
   * project was in the table at the start and has not been deleted since.
   */
  lemma CascadeShift(planning: map<string, PlanningRow>, start: set<string>, removed: set<string>,
                     now: set<string>, gone: set<string>, after: set<string>)
    requires forall k | k in planning && planning[k].projectId.Some? :: planning[k].projectId.value in start
    requires start - removed <= now
    requires forall x | x in start - removed :: x in after <==> x !in gone
    ensures Cascade(Cascade(planning, start - removed), after) == Cascade(planning, start - (removed + gone))
    ensures start - (removed + gone) <= after
  {
  }

  /** What the import loop has done after upserting the accepted inputs `accepted`. */
  ghost predicate ImportInv(P0: map<string, Project>, planning0: map<string, PlanningRow>, accepted: seq<CreateProjectInput>,
                            imported: seq<Project>, projects: map<string, Project>, planning: map<string, PlanningRow>, now: string, dbNow: string)
  {
    && |imported| == |accepted|
    && (forall k | 0 <= k < |imported| :: imported[k] == Echo(imported[k].id, accepted[k], now))
    && ChosenAll(P0, accepted, IdSeq(imported), dbNow)
    && projects == UpsertAll(P0, accepted, IdSeq(imported), dbNow)
    && P0.Keys - RemovedAll(P0, accepted, IdSeq(imported), dbNow) <= projects.Keys
    && planning == Cascade(planning0, P0.Keys - RemovedAll(P0, accepted, IdSeq(imported), dbNow))
  }

  /** One pass of the import loop: upsert `inputs[i]` and keep its result when it succeeds. */
  method ImportStep(db: Database, ghost P0: map<string, Project>, ghost planning0: map<string, PlanningRow>,
                    inputs: seq<CreateProjectInput>, i: nat, pathValid: string -> bool, imported: seq<Project>, now: string, dbNow: string)
    returns (imported': seq<Project>)
    requires i < |inputs|
    requires db.Valid() && ForeignKeysHold(planning0, P0)
    requires ImportInv(P0, planning0, Accepted(inputs[..i], pathValid), imported, db.projects, db.planning, now, dbNow)
    modifies db
    ensures db.Valid() && db.links == old(db.links)
    ensures ImportInv(P0, planning0, Accepted(inputs[..i + 1], pathValid), imported', db.projects, db.planning, now, dbNow)
  {
    var acc := Accepted(inputs[..i], pathValid);
    AcceptedStep(inputs, i, pathValid);
    ghost var before := db.projects;
    var res := UpsertProject(db, inputs[i], pathValid(inputs[i].path), now, dbNow);
    if res.Ok? {
      imported' := imported + [res.value];
      ImportKeeps(P0, planning0, acc, imported, before, old(db.planning), inputs[i], res.value, db.projects, db.planning, now, dbNow);
    } else {
      imported' := imported;
    }
  }

  lemma AcceptedStep(inputs: seq<CreateProjectInput>, i: nat, pathValid: string -> bool)
    requires i < |inputs|
    ensures Accepted(inputs[..i + 1], pathValid) ==
      if pathValid(inputs[i].path) then Accepted(inputs[..i], pathValid) + [inputs[i]] else Accepted(inputs[..i], pathValid)
  {
    assert inputs[..i + 1][..i] == inputs[..i] && inputs[..i + 1][i] == inputs[i];
  }

  /** A successful upsert extends what the import loop has done by one accepted input. */
  lemma ImportKeeps(P0: map<string, Project>, planning0: map<string, PlanningRow>, accepted: seq<CreateProjectInput>,
                    imported: seq<Project>, before: map<string, Project>, planBefore: map<string, PlanningRow>,
                    x: CreateProjectInput, v: Project, after: map<string, Project>, planAfter: map<string, PlanningRow>, now: string, dbNow: string)
    requires ForeignKeysHold(planning0, P0)
    requires ImportInv(P0, planning0, accepted, imported, before, planBefore, now, dbNow)
    requires v == Echo(v.id, x, now) && ChosenId(before, x, v.id)
    requires after == UpsertTable(before, v.id, x, dbNow) && planAfter == Cascade(planBefore, after.Keys)
    ensures ImportInv(P0, planning0, accepted + [x], imported + [v], after, planAfter, now, dbNow)
  {
    var ids := IdSeq(imported);
    IdSeqSnoc(imported, v);
    EchoSnoc(accepted, imported, x, v, now);
    ImportSnoc(P0, accepted, ids, x, v.id, dbNow);
    CascadeShift(planning0, P0.Keys, RemovedAll(P0, accepted, ids, dbNow), before.Keys,
                 Phantoms(before, x.path, v.id), after.Keys);
  }

  /** Appending a row appends its id. */
  lemma IdSeqSnoc(rows: seq<Project>, v: Project)
    ensures IdSeq(rows + [v]) == IdSeq(rows) + [v.id]
  {
    assert forall k | 0 <= k < |rows| :: (rows + [v])[k] == rows[k];
  }

  /** Appending an echoed row to echoed rows keeps every row the echo of its input. */
  lemma EchoSnoc(accepted: seq<CreateProjectInput>, imported: seq<Project>, x: CreateProjectInput, v: Project, now: string)
    requires |imported| == |accepted|
    requires forall k | 0 <= k < |imported| :: imported[k] == Echo(imported[k].id, accepted[k], now)
    requires v == Echo(v.id, x, now)
    ensures forall k | 0 <= k < |imported + [v]| :: (imported + [v])[k] == Echo((imported + [v])[k].id, (accepted + [x])[k], now)
  {
    forall k | 0 <= k < |imported + [v]|
      ensures (imported + [v])[k] == Echo((imported + [v])[k].id, (accepted + [x])[k], now)
    {
      if k < |imported| {
        assert (imported + [v])[k] == imported[k] && (accepted + [x])[k] == accepted[k];
      }
    }
  }

  /** `import_scanned_projects`: upsert each input in turn, keeping the results of those that succeed. */
  method ImportScannedProjects(db: Database, inputs: seq<CreateProjectInput>, pathValid: string -> bool, now: string, dbNow: string)
    returns (imported: seq<Project>)
    requires db.Valid()
    modifies db
    ensures db.Valid() && db.links == old(db.links)
    ensures |imported| == |Accepted(inputs, pathValid)|
    ensures forall k | 0 <= k < |imported| :: imported[k] == Echo(imported[k].id, Accepted(inputs, pathValid)[k], now)
    ensures ChosenAll(old(db.projects), Accepted(inputs, pathValid), IdSeq(imported), dbNow)
    ensures db.projects == UpsertAll(old(db.projects), Accepted(inputs, pathValid), IdSeq(imported), dbNow)
    ensures db.planning ==
      Cascade(old(db.planning), old(db.projects).Keys - RemovedAll(old(db.projects), Accepted(inputs, pathValid), IdSeq(imported), dbNow))
  {
    ghost var P0, planning0 := db.projects, db.planning;
    imported := [];
    var i := 0;
    assert inputs[..0] == [];
    assert Cascade(planning0, P0.Keys - {}) == planning0;
    while i < |inputs|
      invariant 0 <= i <= |inputs|
      invariant db.Valid() && db.links == old(db.links) && ForeignKeysHold(planning0, P0)
      invariant ImportInv(P0, planning0, Accepted(inputs[..i], pathValid), imported, db.projects, db.planning, now, dbNow)
    {
      imported := ImportStep(db, P0, planning0, inputs, i, pathValid, imported, now, dbNow);
      i := i + 1;
    }
    assert inputs[..|inputs|] == inputs;
  }

  /** `delete_project`: the row goes, and with it its planning items. */
  method DeleteProject(db: Database, id: string)
    requires db.Valid()
    modifies db
    ensures db.Valid()
    ensures db.projects == Without(old(db.projects), {id})
    ensures db.planning == Cascade(old(db.planning), db.projects.Keys) && db.links == old(db.links)
  {
    var count := db.DeleteProjects({id});
  }

  /** `restore_project`: clears the archived flag; nothing checks the row against the active ones. */
  method RestoreProject(db: Database, id: string)
    requires db.Valid()
    modifies db
    ensures db.Valid()
    ensures db.projects == if id in old(db.projects) then old(db.projects)[id := old(db.projects)[id].(isArchived := false)] else old(db.projects)
    ensures db.planning == old(db.planning) && db.links == old(db.links)
  {
    db.SetArchived(id, false);
  }

  function ArchivedIds(table: map<string, Project>): set<string> {
    set id | id in table && table[id].isArchived
  }

  /** `purge_archived_projects`: exactly the archived rows go, with their planning items; returns how many. */
  method PurgeArchivedProjects(db: Database) returns (count: nat)
    requires db.Valid()
    modifies db
    ensures db.Valid()
    ensures count == |ArchivedIds(old(db.projects))|
    ensures db.projects.Keys == ActiveIds(old(db.projects))
    ensures forall id | id in db.projects :: db.projects[id] == old(db.projects)[id] && !db.projects[id].isArchived
    ensures db.planning == Cascade(old(db.planning), db.projects.Keys) && db.links == old(db.links)
  {
    var archived := ArchivedIds(db.projects);
    assert db.projects.Keys * archived == archived;
    count := db.DeleteProjects(archived);
    assert db.projects.Keys == ActiveIds(old(db.projects));
  }

  /** `reset_all_projects`: every row goes; only planning items without a project survive. */
  method ResetAllProjects(db: Database) returns (count: nat)
    requires db.Valid()
    modifies db
    ensures db.Valid()
    ensures count == |old(db.projects).Keys|
    ensures db.projects == map[]
    ensures forall k | k in db.planning :: db.planning[k].projectId.None?
    ensures db.planning == Cascade(old(db.planning), {}) && db.links == old(db.links)
  {
    assert db.projects.Keys * db.projects.Keys == db.projects.Keys;
    count := db.DeleteProjects(db.projects.Keys);
    assert db.projects.Keys == {};
  }
}
