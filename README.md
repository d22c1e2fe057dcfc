# Claude Commander core, modelled in Dafny

Claude Commander is a desktop app (a Tauri shell around a Rust backend). It
keeps a registry of the user's local development projects in SQLite and
layers project tools on top: a planning board, GitHub issue links, `.env`
editing, terminal launching and Claude transcript and plan viewers. This
project models the backend's core and proves what it promises.

- **Project registry.** `projects.dfy` models the pure pieces of
  `commands/projects.rs`: identity keys, the scan filter and the name sort.
  `registry.dfy` models the commands that change the `projects` table:
  - `sync_projects`, the reconciliation of scanned candidates against the
    active rows;
  - `apply_path_update`;
  - `upsert_project` and `import_scanned_projects`;
  - delete, restore, purge and reset.
- **Database.** `store.dfy` holds the database as a class `Database`. Its
  three tables are maps: `projects`, `planning_items` and
  `task_github_links`. The constraints of `db.rs` are its invariant
  `Valid()`:
  - a primary key per table;
  - `path` UNIQUE across all project rows;
  - `project_id` references `projects(id)` ON DELETE CASCADE;
  - `status` is CHECKed against `backlog`, `todo`, `in_progress` and `done`.
  Each method of the class is one SQL statement with SQLite's outcome:
  - a constraint error, or the new table;
  - an UPDATE or DELETE of a missing key changes nothing;
  - a follow-up `query_row` on a missing row gives `NoRows`.
- **Planning board.** `planning.dfy` models `commands/planning.rs`:
  - the status mapping;
  - reading a project's items in sort order;
  - create, with the `COALESCE(MAX(sort_order), 0) + 1000` allocation;
  - update, move and delete.
- **GitHub links.** `github.dfy` models `commands/github.rs`:
  - the remote and issue URL parsers;
  - `i64::from_str` for issue numbers;
  - the link table commands.
- **`.env` files.** `env.dfy` models `commands/env.rs`:
  - the line parser and secret masking;
  - the `set_env_var` loop as a method;
  - the `delete_env_var` filter.
- **Terminals.** `terminal.dfy` models `commands/terminal.rs`:
  - terminal detection and choice;
  - POSIX single quoting, read back by a parser of the quoting rules of
    section 2.2 of IEEE Std 1003.1-2017 (Shell Command Language);
  - percent-encoding per sections 2.1 and 2.3 of RFC 3986, with a decoder
    that undoes it;
  - the launch script and the Warp URL.
- **Claude transcripts and plans.** `claude.dfy` models `commands/claude.rs`:
  - turning parsed transcript lines into turns or messages;
  - the 500-line cap of `read_claude_session`;
  - plan ids, titles and previews.
- **Shared modules.**
  - `text.dfy`: the part of Rust's `str` API the code uses, on
    `seq<char>`. This covers `trim`, `trim_end_matches`, `find`, `lines`,
    `split`, `join` and ASCII lower-casing.
  - `common.dfy`: `Option` and `Result`.
  - `models.dfy`: the records of `models.rs`.

Filesystem facts are inputs:
- whether a path exists;
- directory entries and their markers;
- stamp-file contents and git remotes;
- whether `which` finds `claude`;
- whether Warp or iTerm is installed;
- file texts;
- whether `gh` succeeded.

Fresh UUIDs are "some id not in the table", and timestamps are a `now`
parameter. `serde_json` parsing is a function parameter from a line to a
`Json` value. Serialising a tool input is a function parameter too.

Where the code's own comments promise more than its statements do, and at
a few other places worth naming, the model follows the statements:

- `sync_projects` runs one SQL statement at a time with no transaction,
  although its doc comment (`projects.rs:192`) calls it atomic. An error
  half-way (a UNIQUE clash on INSERT) keeps the earlier writes.
  `Registry.SyncProjects` states what survives an error.
- `restore_project` does not check that the path still exists. It is a plain
  `UPDATE`, and restoring an unknown id changes nothing.
- `delete_project`, `purge_archived_projects` and `reset_all_projects` delete
  project rows. By `ON DELETE CASCADE` they also delete the project's planning
  items (`db.rs:27`); nothing sets the project reference to null. The
  tables that cascade at `db.rs:40` and `db.rs:55` are not part of this model.
  Purge takes every archived row and has no per-row guard.
- A rename found by `sync_projects` also overwrites the stored `name`.
- There is no `archived_at` column. `upsert_project` works with two clocks:
  a new row's `created_at` is the column default `datetime('now')`
  (`YYYY-MM-DD HH:MM:SS`, `db.rs:22`), while the value it returns carries
  `chrono::Utc::now().to_rfc3339()`. A row it updates keeps its stored
  `created_at`. The model passes the two as `dbNow` and `now`.
- The path snapshot `by_path` is built once and never refreshed. Two
  candidates can therefore both match the same stored row.
- `parse_github_repo`'s comment asks for "exactly one slash", but only the
  first `/` is checked. So `owner/repo/extra` is accepted.
- The declarations of `SessionTurn`, `SessionToolCall` and `SessionDetail`
  are not part of `models.rs` as given. Their fields are taken from their use
  in `claude.rs`.
- The `task_github_links` table and the `identity_key` column do not appear
  in the `db.rs` schema. The model takes them to exist, keyed by
  `(task_id, team_id)` and `id` respectively.

## Model

| member | source | states |
|---|---|---|
| Models.StatusName | src-tauri/src/models.rs:51-60 | every status is displayed as one of the four strings the `status` CHECK admits |
| Models.StatusNameInjective | src-tauri/src/models.rs:51-60 | distinct statuses display differently |
| Models.StatusNameOnto | src-tauri/src/db.rs:30-31 | every string the CHECK admits is the display of some status |
| Store.Cascade | src-tauri/src/db.rs:27 | ON DELETE CASCADE keeps exactly the planning rows with no project or with a project still present, unchanged |
| Store.CascadeTwice | src-tauri/src/db.rs:27 | cascading to a smaller set of projects after a larger one is one cascade to the smaller set |
| Store.CascadeUnreferenced | src-tauri/src/db.rs:27 | removing projects that no planning row references removes no planning row |
| Store.Database.constructor | src-tauri/src/db.rs:14-36 | an empty database satisfies every constraint |
| Store.Database.DeleteProjects | src-tauri/src/commands/projects.rs:453 | exactly the named rows go, their planning items cascade away, and the count is the number of rows that existed |
| Store.Database.InsertProject | src-tauri/src/commands/projects.rs:272-277 | the INSERT fails with a UNIQUE error iff the id exists or another row holds the path; otherwise the row is added and nothing else changes |
| Store.Database.SetPathAndName | src-tauri/src/commands/projects.rs:114-118 | the UPDATE fails iff another row holds the new path; it changes only path and name of an existing row, and nothing for a missing id |
| Store.Database.SetIdentityKey | src-tauri/src/commands/projects.rs:259-263 | only the identity key of the named row changes, and a missing id changes nothing |
| Store.Database.SetArchived | src-tauri/src/commands/projects.rs:317-321 | only the archived flag of the named row changes, and a missing id changes nothing |
| Store.Database.UpsertProjectRow | src-tauri/src/commands/projects.rs:420-431 | INSERT ... ON CONFLICT(id) DO UPDATE: an existing row keeps id, sort order, archived flag and creation time, and keeps its identity key when none is given (COALESCE); a new row gets the defaults, its creation time the column default `dbNow` (`datetime('now')`); a path held by another row is a UNIQUE error with no change |
| Store.Database.InsertPlanningRow | src-tauri/src/commands/planning.rs:88-100 | a status outside the CHECK set is a CHECK error, a missing project a foreign-key error; otherwise the row is added, and on error nothing changes |
| Store.Database.SetSubject | src-tauri/src/commands/planning.rs:127-132 | only subject, description and updated_at of the named row change, and a missing id changes nothing |
| Store.Database.SetStatus | src-tauri/src/commands/planning.rs:161-166 | fails with the CHECK error iff the row exists and the status is not admitted; otherwise only status, sort order and updated_at of the row change |
| Store.Database.DeletePlanningRow | src-tauri/src/commands/planning.rs:181-182 | exactly the named planning row goes |
| Store.Database.UpsertLinkRow | src-tauri/src/commands/github.rs:139-156 | ON CONFLICT(task_id, team_id): an existing link keeps created_at and its cached state and takes the new URL, number and repo; a new link has no state |
| Store.Database.SetLinkClosed | src-tauri/src/commands/github.rs:244-250 | the named link's state becomes `closed` at `now`, and a missing link changes nothing |
| Store.Database.DeleteLinkRow | src-tauri/src/commands/github.rs:347-348 | exactly the named link goes |
| ProjectScan.NormaliseRemote | src-tauri/src/commands/projects.rs:32-39 | the key never ends in `.git`, and the trimmed URL is the key followed by some `.git` copies and then some `/` copies, the part before the `/` run not ending in `/`: exactly the trailing `/` run, then the trailing `.git` run, is removed |
| ProjectScan.GitRemoteIdentity | src-tauri/src/commands/projects.rs:29-41 | a remote's key is `git:` followed by the normalised URL |
| ProjectScan.StampIdentity | src-tauri/src/commands/projects.rs:46-58 | the key is `stamp:` plus the trimmed stamp when it is non-blank, else `stamp:` plus the fresh UUID |
| ProjectScan.ComputeIdentityKey | src-tauri/src/commands/projects.rs:19-24 | a git key iff there is an origin remote, a stamp key iff there is none |
| ProjectScan.KeyKindsDisjoint | src-tauri/src/commands/projects.rs:40 | no key is both a git key and a stamp key |
| ProjectScan.GitKeySpellings | src-tauri/src/commands/projects.rs:33-39 | a remote with or without a trailing `/`, `.git` or `.git/` gives the same key |
| ProjectScan.GitSuffixSpellings | src-tauri/src/commands/projects.rs:33-39 | a bare remote URL spelled with `.git` or `.git/` normalises to the bare URL |
| ProjectScan.SegmentsOfChild | src-tauri/src/commands/projects.rs:313 | appending `/name` appends one path component |
| ProjectScan.ChildUnderBase | src-tauri/src/commands/projects.rs:311-314 | `Path::starts_with`: a directory's child lies under it |
| ProjectScan.SiblingNotUnder | src-tauri/src/commands/projects.rs:311-314 | a sibling is not under another sibling, even when one name is a prefix of the other |
| ProjectScan.FileName | src-tauri/src/commands/projects.rs:167-171 | the name is `unknown` or the last real component of the path |
| ProjectScan.FileNameOfChild | src-tauri/src/commands/projects.rs:167-171 | the name of `base/n` is `n` |
| ProjectScan.Collect | src-tauri/src/commands/projects.rs:141-186 | the walk yields at most one candidate per entry |
| ProjectScan.CollectExactly | src-tauri/src/commands/projects.rs:150-165 | a candidate is produced iff some entry is a directory with a marker file and an unexcluded path |
| ProjectScan.CollectOnlyKept | src-tauri/src/commands/projects.rs:159-173 | no candidate lies in `node_modules`, `.git`, `target` or `.cargo`, and each has an identity key |
| ProjectScan.ExcludedInside | src-tauri/src/commands/projects.rs:159-165 | a path through `node_modules`, `.git`, `target` or `.cargo` is excluded at any depth, and, since the tests are on substrings, so is one through `targets` or `.github` |
| ProjectScan.InsertByName | src-tauri/src/commands/projects.rs:188 | one insertion step keeps the list sorted by name and adds the element |
| ProjectScan.SortByName | src-tauri/src/commands/projects.rs:188 | the result is sorted by name and is a permutation of the input |
| ProjectScan.ScanProjects | src-tauri/src/commands/projects.rs:126-190 | an invalid scan path is an error, a missing base gives no candidates, otherwise the collected candidates sorted by name |
| ProjectScan.ScanFindsKept | src-tauri/src/commands/projects.rs:141-189 | the scan reports a candidate iff some kept entry produces it |
| Registry.Phantoms | src-tauri/src/commands/projects.rs:108-112 | the rows `DELETE ... WHERE path = ? AND id != ?` removes |
| Registry.LoadDbProjects | src-tauri/src/commands/projects.rs:63-95 | exactly the active rows, each once, as stored |
| Registry.IdentityIndex | src-tauri/src/commands/projects.rs:216-219 | every loaded row with a key is indexed under it, and each entry is a loaded row with that key |
| Registry.PathIndex | src-tauri/src/commands/projects.rs:220-223 | every loaded row is indexed under its path, and each entry is a loaded row with that path |
| Registry.ApplyPathUpdate | src-tauri/src/commands/projects.rs:101-121 | rows holding the new path under another id are deleted, with their planning items; the named row, if present, takes the new path and name; the table becomes exactly `Registry.Moved` of the old one |
| Registry.IdentityMatch | src-tauri/src/commands/projects.rs:235-251 | the key's index entry is consumed and its row marked matched; a changed path moves and renames the row (`Registry.Moved`) and reports it updated, an unchanged path counts it unchanged and leaves the table as it was |
| Registry.PathMatch | src-tauri/src/commands/projects.rs:255-267 | the candidate counts unchanged and the snapshot row is marked matched; the table changes only by giving that row the candidate's key when it had none (`Registry.Backfilled`) |
| Registry.InsertNew | src-tauri/src/commands/projects.rs:269-289 | the drawn id is fresh; the INSERT succeeds iff no row, active or archived, holds the path, and then adds exactly the new row with the insert's defaults and reports it added; otherwise the UNIQUE error on `projects.path` and no change |
| Registry.Step | src-tauri/src/commands/projects.rs:231-290 | one candidate changes the table, the loop variables and the outcome exactly as `Registry.StepRef`, the three branches in order, prescribes |
| Registry.Advance | src-tauri/src/commands/projects.rs:231-290 | after one more candidate the table and loop variables are those of `Registry.ReconcileRef` over one more candidate, and an error is where it stops |
| Registry.ReconcileCandidates | src-tauri/src/commands/projects.rs:215-290 | starting from the snapshot's key and path indexes, the table, the matched ids and the outcome are those of `Registry.ReconcileRef` over all candidates with fresh UUIDs; each candidate is counted once; the only error is a path UNIQUE violation |
| Registry.RefStops | src-tauri/src/commands/projects.rs:272-289 | once the INSERT fails, the `?` leaves the loop: later candidates change nothing |
| Registry.ArchivedPathAborts | src-tauri/src/commands/projects.rs:255-289 | a candidate that matches no active row while an archived row holds its path stops the sync with the UNIQUE error on `projects.path` |
| Registry.ReconcileDeletes | src-tauri/src/commands/projects.rs:235-251 | every stored row the loop deletes was moved by it or held a path that a moved row took; every stored row whose path changes was moved and is reported updated |
| Registry.ArchiveStale | src-tauri/src/commands/projects.rs:304-324 | exactly the unmatched snapshot rows whose path is gone or outside the scan root are archived, and the count is how many |
| Registry.ArchiveNext | src-tauri/src/commands/projects.rs:306-322 | one pass archives the row iff it is unmatched and stale, and the archived set and the count grow by that row alone |
| Registry.ArchiveAll | src-tauri/src/commands/projects.rs:316-321 | archiving a set of ids flips only their archived flag |
| Registry.SnapshotStale | src-tauri/src/commands/projects.rs:305-316 | the rows archived from the snapshot are the stale active rows of the table |
| Registry.ArchiveKeeps | src-tauri/src/commands/projects.rs:292-324 | archiving after the candidate loop keeps the reported diff valid and flips only stale rows |
| Registry.SyncProjects | src-tauri/src/commands/projects.rs:201-332 | a scan error changes nothing; otherwise the active rows are loaded, the candidate loop runs as `Registry.ReconcileRef`, an error leaves its partial table, and on success exactly the unmatched stale active rows are archived and counted; the planning items follow the cascade and the links are untouched |
| Registry.Upserted | src-tauri/src/commands/projects.rs:420-431 | name, path, tags and colour come from the input; the key is `COALESCE(excluded.identity_key, identity_key)`; a stored row keeps id, sort order, archived flag and creation time, and a new row takes the insert's defaults, its creation time the column default `dbNow` |
| Registry.UpsertTable | src-tauri/src/commands/projects.rs:413-431 | after the DELETE and the upsert the input's path is held by the upserted row alone, the other rows holding it are gone, and all remaining rows are as they were |
| Registry.EchoVersusStored | src-tauri/src/commands/projects.rs:433-443 | for a new id the returned value is the stored row with its creation time replaced by the RFC 3339 `now`, and differs from the stored row whenever `now` is RFC 3339 text and `dbNow` is `datetime('now')` text; for an existing row it is the stored row exactly when that row has sort order 0, is active, has creation time `now` and keeps no key the COALESCE would keep |
| Registry.ChosenIdNew | src-tauri/src/commands/projects.rs:386-408 | a new id is taken exactly when no row has the input's identity key and none holds its path |
| Registry.ChooseId | src-tauri/src/commands/projects.rs:386-408 | the id is the row with the input's identity key, else the row with its path, else a fresh id |
| Registry.UpsertProject | src-tauri/src/commands/projects.rs:375-444 | an invalid path is an error with no change; otherwise the table is the upsert under the chosen id, a new row created at the database clock `dbNow`, and the result echoes the input with the RFC 3339 `now`, unarchived and sort order 0 |
| Registry.Accepted | src-tauri/src/commands/projects.rs:542-546 | an input is accepted iff it is one of the inputs and its path passes validation (the only way an upsert fails) |
| Registry.AcceptedAppend | src-tauri/src/commands/projects.rs:542-546 | accepted inputs keep their order: those of a front part come before those of the rest |
| Registry.ImportScannedProjects | src-tauri/src/commands/projects.rs:537-548 | one returned project per accepted input, in order, each the upsert's echo carrying `now`; the table is the accepted inputs upserted one after another under ids each chosen as `upsert_project` chooses, new rows created at `dbNow`; the planning items of every row those upserts deleted go with it |
| Registry.DeleteProject | src-tauri/src/commands/projects.rs:447-457 | exactly the row goes, its planning items cascade |
| Registry.RestoreProject | src-tauri/src/commands/projects.rs:497-510 | only the archived flag of the row is cleared, with no path check, and an unknown id changes nothing |
| Registry.PurgeArchivedProjects | src-tauri/src/commands/projects.rs:513-522 | exactly the archived rows go, with their planning items; the count is how many; active rows are untouched |
| Registry.ResetAllProjects | src-tauri/src/commands/projects.rs:525-534 | every project row goes, with every planning item that referenced one; the count is how many |
| Planning.ParseStatus | src-tauri/src/commands/planning.rs:9-16 | `todo`, `in_progress` and `done` map to their statuses, and everything else to backlog |
| Planning.ParseStatusName | src-tauri/src/commands/planning.rs:9-16 | parsing a displayed status gives it back |
| Planning.StatusNameParse | src-tauri/src/commands/planning.rs:9-16 | on admitted strings, displaying a parsed status gives the string back |
| Planning.RowToItem | src-tauri/src/commands/planning.rs:18-31 | the item carries the row's id, project and sort order, and its status displays as the stored string |
| Planning.InsertBySortOrder | src-tauri/src/commands/planning.rs:50 | one insertion step keeps the items ordered by sort order and adds the element |
| Planning.SortBySortOrder | src-tauri/src/commands/planning.rs:50 | `ORDER BY sort_order`: ordered and a permutation |
| Planning.GetPlanningItems | src-tauri/src/commands/planning.rs:34-61 | exactly the project's items, each once, as `row_to_item` reads them, by non-decreasing sort order |
| Planning.MaxSortOrder | src-tauri/src/commands/planning.rs:77-83 | `COALESCE(MAX(sort_order), 0)` over the project's items of the same status |
| Planning.CreatePlanningItem | src-tauri/src/commands/planning.rs:64-112 | an unadmitted status is a CHECK error and a missing project a foreign-key error, both with no change; otherwise one new row whose sort order minus 1000 is `COALESCE(MAX(sort_order), 0)` of the row's project and status group, so 1000 for an empty group and strictly above every other in the group |
| Planning.UpdatePlanningItem | src-tauri/src/commands/planning.rs:115-144 | a missing id is `NoRows` with no change; otherwise only subject, description and updated_at change, and the requeried row is returned |
| Planning.MovePlanningItem | src-tauri/src/commands/planning.rs:147-169 | an unadmitted status on an existing row is a CHECK error; otherwise only status, sort order and updated_at change, and a missing id changes nothing |
| Planning.DeletePlanningItem | src-tauri/src/commands/planning.rs:172-185 | exactly the item goes |
| Github.StripRepoSuffix | src-tauri/src/commands/github.rs:20 | the repo never ends in `.git`, and the path is the repo followed by some `.git` copies and then some `/` copies, the part before the `/` run not ending in `/`: exactly the trailing `/` run, then the trailing `.git` run, is removed |
| Github.StripPrefix | src-tauri/src/commands/github.rs:13-19 | `strip_prefix`: present iff the prefix is, and prefix plus rest is the text |
| Github.ParseGithubRepo | src-tauri/src/commands/github.rs:11-28 | a result comes only from an HTTPS or SSH GitHub URL and has non-empty text on both sides of its first `/`, without `.git` |
| Github.ParseGithubRepoForeign | src-tauri/src/commands/github.rs:13-19 | any other URL gives nothing |
| Github.StripRepoSuffixSpellings | src-tauri/src/commands/github.rs:20 | a repo with a trailing `/`, `.git` or `.git/` strips to itself |
| Github.TrimGithubUrl | src-tauri/src/commands/github.rs:12 | a GitHub URL ending in a non-blank character is its own trim |
| Github.StripGithubPrefix | src-tauri/src/commands/github.rs:13-16 | either prefix strips to the body |
| Github.OwnerRepoNotGit | src-tauri/src/commands/github.rs:20-24 | `owner/name` without a suffix has nothing to strip |
| Github.GithubRepoSpellings | src-tauri/src/commands/github.rs:11-28 | every HTTPS or SSH spelling of `owner/name`, with or without `/`, `.git` or `.git/`, parses to `owner/name` |
| Github.ParseI64 | src-tauri/src/commands/github.rs:33 | `i64::from_str` yields only values within the i64 range (Github.ParseDecimal gives the converse) |
| Github.LastSegment | src-tauri/src/commands/github.rs:33 | `rsplit('/').next()`: a suffix of the URL without `/` |
| Github.ParseIssueNumber | src-tauri/src/commands/github.rs:32-34 | a number found is within the i64 range |
| Github.DigitsValueOf | src-tauri/src/commands/github.rs:33 | the decimal digits of `n` read back as `n` |
| Github.ParseDecimal | src-tauri/src/commands/github.rs:33 | every i64 printed in decimal parses back to itself |
| Github.LastSegmentAfterSlash | src-tauri/src/commands/github.rs:33 | the last segment of `u/seg` is `seg` |
| Github.IssueNumberOfUrl | src-tauri/src/commands/github.rs:32-34 | a URL ending in `/n` gives issue number `n` |
| Github.ParseRepoFromUrl | src-tauri/src/commands/github.rs:37-46 | a repo is found iff the URL starts with `https://github.com/` and a `/` follows |
| Github.RepoFromIssueUrl | src-tauri/src/commands/github.rs:37-46 | `https://github.com/owner/repo/...` gives `owner/repo` |
| Github.RepoFromRepoUrl | src-tauri/src/commands/github.rs:37-46 | the bare `https://github.com/owner/repo` gives `owner/repo` |
| Github.IssueUrlParts | src-tauri/src/commands/github.rs:30-46 | an issue URL gives back both its repo and its number |
| Github.UpsertTaskGithubLink | src-tauri/src/commands/github.rs:119-168 | the caller's number and repo win over those parsed from the URL; an existing link keeps created_at and state; the returned link reports `now` and no state |
| Github.CloseGithubIssue | src-tauri/src/commands/github.rs:212-275 | a failed `gh` is an error before any change; a missing link is `NoRows`; otherwise the link becomes `closed` at `now` and is returned |
| Github.DeleteTaskGithubLink | src-tauri/src/commands/github.rs:337-354 | exactly the `(task_id, team_id)` link goes |
| Env.SecretWordsAt | src-tauri/src/commands/env.rs:236-246 | a key is masked iff some stretch of it, lower-cased, is one of the secret words |
| Env.SecretInAnyCase | src-tauri/src/commands/env.rs:236-246 | a key containing a secret word in any ASCII case is masked |
| Env.SecretKeyCaseBlind | src-tauri/src/commands/env.rs:237 | masking ignores ASCII case |
| Env.TokenIsSecret | src-tauri/src/commands/env.rs:240 | `TOKEN` is masked |
| Env.UnquoteAsWritten | src-tauri/src/commands/env.rs:214-220 | the slice panics exactly on a value that is one `"` or one `'` |
| Env.Unquote | src-tauri/src/commands/env.rs:214-220 | a value of two or more characters between matching quotes loses them, and any other value is kept |
| Env.UnquoteAgrees | src-tauri/src/commands/env.rs:214-220 | where the code does not panic, it agrees with the corrected stripping |
| Env.UnquoteLoneQuote | src-tauri/src/commands/env.rs:214-217 | a lone quote panics as written and is kept by the correction |
| Env.ParseEnvLine | src-tauri/src/commands/env.rs:207-225 | comments, blank lines and lines without `=` give nothing; otherwise the key has no `=` and is masked iff it looks secret |
| Env.EnvVars | src-tauri/src/commands/env.rs:205-227 | no more variables than lines |
| Env.ParseEnvContent | src-tauri/src/commands/env.rs:204-228 | no more variables than lines of the file |
| Env.EnvVarsCons | src-tauri/src/commands/env.rs:205-227 | the variables are the first line's followed by the rest's |
| Env.LineAgrees | src-tauri/src/commands/env.rs:207-225 | a line that does not panic parses as in the corrected parser |
| Env.ParseEnvLineAsWritten | src-tauri/src/commands/env.rs:207-225 | the slice panics only on a line whose corrected value is a lone `"` or `'` |
| Common.FirstErrFails | src-tauri/src/commands/env.rs:204-226 | a run of lines aborts iff one of its lines aborts |
| Common.FirstErrValues | src-tauri/src/commands/env.rs:204-226 | a run that does not abort yields the lines' variables in line order, skipping the lines that give none |
| Env.ContentPanics | src-tauri/src/commands/env.rs:204-228 | reading a file as written panics iff one of its lines panics |
| Env.EnvVarsAgree | src-tauri/src/commands/env.rs:204-228 | a file that does not panic parses as in the corrected parser |
| Env.LoneQuoteLine | src-tauri/src/commands/env.rs:214-217 | `KEY="` panics as written and gives the value `"` when corrected |
| Env.LoneQuotePanics | src-tauri/src/commands/env.rs:204-228 | a file holding `KEY="` panics as written; corrected, it yields that one variable |
| Env.TokenLoneQuote | src-tauri/src/commands/env.rs:214-217 | the file `TOKEN="` panics as written and gives one masked variable when corrected |
| Env.EnvVarsAppend | src-tauri/src/commands/env.rs:205-227 | variables keep line order: those of two line runs are concatenated |
| Env.EnvVarsHas | src-tauri/src/commands/env.rs:205-227 | every line that parses contributes its variable |
| Env.SetDeleteSameLines | src-tauri/src/commands/env.rs:78-80 | the third test of `set_env_var` adds nothing: set and delete pick the same lines |
| Env.FirstKeyLine | src-tauri/src/commands/env.rs:77-86 | the first line that matches the key, and none before it |
| Env.SetEnvLines | src-tauri/src/commands/env.rs:73-90 | the loop replaces the first matching line and stops, or appends `key=value` when none matches |
| Env.SetLines | src-tauri/src/commands/env.rs:73-90 | when no line matches the key the entry is appended; when line i is the first match, the result is the lines with line i replaced by `key=value` and nothing else changed; the entry is always present |
| Env.SetTwice | src-tauri/src/commands/env.rs:73-90 | setting twice is setting the last value |
| Env.EnvFileText | src-tauri/src/commands/env.rs:92-95 | the written text ends with a newline |
| Env.SetEnvVar | src-tauri/src/commands/env.rs:63-98 | the file text is the edited lines joined and newline-terminated |
| Env.LinesOfEnvFileText | src-tauri/src/commands/env.rs:92-95 | reading the written text gives the lines back |
| Env.ParseEntry | src-tauri/src/commands/env.rs:209-225 | a plain `key=value` line parses to that variable |
| Env.SetLinesPlain | src-tauri/src/commands/env.rs:73-95 | after the edit, every line is a single line without a trailing carriage return, the last is non-empty and `key=value` is among them, so the written file reads back line for line |
| Env.ReadBackEntry | src-tauri/src/commands/env.rs:92-95 | a written file holding the line `key=value` reads back with that variable |
| Env.SetThenRead | src-tauri/src/commands/env.rs:63-98 | after `set_env_var`, parsing the file finds the variable with the new value |
| Env.DeleteLines | src-tauri/src/commands/env.rs:110-114 | exactly the lines other than `key` and `key=...` are kept |
| Env.DeleteLinesAppend | src-tauri/src/commands/env.rs:110-114 | the filter keeps line order |
| Env.SetThenDelete | src-tauri/src/commands/env.rs:73-114 | deleting after setting is deleting |
| Env.DeleteEnvVar | src-tauri/src/commands/env.rs:100-122 | the text is empty or newline-terminated, and empty when no line is kept |
| Terminal.DefaultTerminal | src-tauri/src/commands/terminal.rs:29-37 | warp when installed, else iterm2 when installed, else terminal |
| Terminal.DetectTerminal | src-tauri/src/commands/terminal.rs:10-25 | the list ends with `terminal`, holds warp and iterm2 iff installed, in that order, and `detected` is its first entry and the default |
| Terminal.EscapeQuotes | src-tauri/src/commands/terminal.rs:108 | escaping never shortens |
| Terminal.ShellQuote | src-tauri/src/commands/terminal.rs:107-109 | the result is wrapped in single quotes |
| Terminal.EscapedReadsBack | src-tauri/src/commands/terminal.rs:108 | inside single quotes, the escaped text reads back as the original |
| Terminal.ShellQuoteRoundTrip | src-tauri/src/commands/terminal.rs:106-109 | a shell reads `shell_quote(s)` as the one word `s` |
| Terminal.Utf8Char | src-tauri/src/commands/terminal.rs:121 | one to four bytes, one exactly for ASCII |
| Terminal.Utf8 | src-tauri/src/commands/terminal.rs:121 | at least one byte per character |
| Terminal.EncodeByte | src-tauri/src/commands/terminal.rs:122-128 | an unreserved byte is itself, any other is `%` and two upper-case hex digits |
| Terminal.EncodeBytes | src-tauri/src/commands/terminal.rs:120-130 | the length is the unreserved count plus three per other byte, over the alphabet of unreserved characters, `%` and hex digits |
| Terminal.UrlEncode | src-tauri/src/commands/terminal.rs:120-130 | encoding never shortens |
| Terminal.HexDigitValue | src-tauri/src/commands/terminal.rs:126 | each upper-case hex digit reads back as its value |
| Terminal.DecodeByte | src-tauri/src/commands/terminal.rs:122-128 | decoding undoes one byte's encoding |
| Terminal.DecodeEncode | src-tauri/src/commands/terminal.rs:119-130 | percent-decoding the encoding gives back the bytes |
| Terminal.UnreservedUnchanged | src-tauri/src/commands/terminal.rs:123-124 | text of unreserved characters encodes to itself |
| Terminal.FirstPresent | src-tauri/src/commands/terminal.rs:49-53 | the first present candidate, and none before it |
| Terminal.ClaudeBinary | src-tauri/src/commands/terminal.rs:40-54 | the path `which` found; else the first install location that is present, with none before it present; else plain `claude`, and only when none is present |
| Terminal.LaunchClaude | src-tauri/src/commands/terminal.rs:27-67 | an unknown terminal name is an error naming it; `iterm2` opens the launch script in iTerm and `terminal` in Terminal; warp opens the warp URL whose query percent-decodes to the UTF-8 of the Warp command |
| Terminal.LaunchScript | src-tauri/src/commands/terminal.rs:74-81 | after the shebang and PATH lines, the `cd` word reads back as the project path and the last line's word as the claude binary |
| Terminal.WarpCommand | src-tauri/src/commands/terminal.rs:61 | `cd <word> && <word>` whose words read back as the project path and the claude binary |
| Terminal.DefaultLaunchesDetected | src-tauri/src/commands/terminal.rs:29-37 | with no name, the launch always succeeds and uses the preferred installed terminal |
| Claude.Get | src-tauri/src/commands/claude.rs:362-370 | `Value[key]`: the field of an object, `Null` otherwise |
| Claude.AsStr | src-tauri/src/commands/claude.rs:362 | `as_str`: present iff the value is a string |
| Claude.TextPart | src-tauri/src/commands/claude.rs:380-385 | a block gives text iff its type is `text` and its `text` is a string |
| Claude.BlocksTextAppend | src-tauri/src/commands/claude.rs:380-385 | the text of blocks is the in-order concatenation of their parts |
| Claude.BlocksTextSingle | src-tauri/src/commands/claude.rs:380-385 | a text block gives its text, any other block nothing |
| Claude.ToolUseBlocks | src-tauri/src/commands/claude.rs:415-417 | exactly the blocks of type `tool_use` |
| Claude.ToolCallOf | src-tauri/src/commands/claude.rs:418-429 | id defaults to `""`, name to `unknown`, the input is serialised, no output |
| Claude.ToolCalls | src-tauri/src/commands/claude.rs:415-430 | one call per `tool_use` block, in block order, none with output |
| Claude.ToolCallsAppend | src-tauri/src/commands/claude.rs:415-430 | calls keep block order across concatenation |
| Claude.SessionTurnOf | src-tauri/src/commands/claude.rs:359-447 | a turn's role is its line's type and is user or assistant; uuid and timestamp default to `""`; user turns have text and no calls; assistant turns have text or calls |
| Claude.OtherTypesDropped | src-tauri/src/commands/claude.rs:362-366 | any other type, or none, gives no turn |
| Claude.UserStringTurn | src-tauri/src/commands/claude.rs:376-393 | string content makes a turn with that text iff it is non-empty |
| Claude.UserBlocksTurn | src-tauri/src/commands/claude.rs:378-393 | block content makes a turn with their text iff it is non-empty |
| Claude.UserOtherContentDropped | src-tauri/src/commands/claude.rs:387 | user content of any other shape gives no turn |
| Claude.AssistantTurn | src-tauri/src/commands/claude.rs:403-443 | an assistant turn exists iff there is text or a `tool_use` block, with the blocks' text and calls |
| Claude.AssistantNonArrayDropped | src-tauri/src/commands/claude.rs:404 | assistant content that is not an array gives no turn |
| Claude.ParseSessionTurn | src-tauri/src/commands/claude.rs:359-360 | a line the JSON parser rejects gives no turn |
| Claude.NonBlank | src-tauri/src/commands/claude.rs:342-346 | exactly the lines not blank after trimming |
| Claude.NonBlankAppend | src-tauri/src/commands/claude.rs:345 | the filter keeps line order |
| Claude.SessionOfLines | src-tauri/src/commands/claude.rs:340-356 | the count is the number of non-blank lines, there are at most `min(500, count)` turns, and each comes from one of the first 500 non-blank lines |
| Claude.ReadClaudeSession | src-tauri/src/commands/claude.rs:327-357 | at most 500 turns, no more than the count, which is at most the number of lines |
| Claude.BlankLineIgnored | src-tauri/src/commands/claude.rs:345 | a blank line changes neither the turns nor the count |
| Claude.CapIgnoresTail | src-tauri/src/commands/claude.rs:350-354 | after 500 non-blank lines, further lines add to the count and to no turn |
| Claude.ShortSessionKeepsTurns | src-tauri/src/commands/claude.rs:350-354 | in a transcript of at most 500 non-blank lines, every line that parses to a turn yields it |
| Claude.SessionMessageOf | src-tauri/src/commands/claude.rs:288-319 | a message's role is its line's type and is user or assistant; its text is non-empty; uuid and timestamp default to `""` |
| Claude.ReadSessionMessages | src-tauri/src/commands/claude.rs:272-323 | at most one message per line, each with text and a user or assistant role |
| Claude.MessageIsTurn | src-tauri/src/commands/claude.rs:288-319 | every message is also a turn with the same uuid, role, text and timestamp |
| Claude.UserBlocksOnlyTurn | src-tauri/src/commands/claude.rs:296 | user text given as blocks makes a turn but no message |
| Claude.FirstHeading | src-tauri/src/commands/claude.rs:147-149 | the first line starting with `# `, and none before it |
| Claude.PlanId | src-tauri/src/commands/claude.rs:174 | the id never ends in `.md`, and the file name is the id followed by some number of whole `.md` copies |
| Claude.PlanTitle | src-tauri/src/commands/claude.rs:147-151 | with no heading the title is the plan id; otherwise the heading is some number of `# ` followed by the title, which neither starts with `# ` nor holds a newline, and a single `# ` leaves exactly the rest of the heading |
| Claude.HeadingTrimmed | src-tauri/src/commands/claude.rs:147-151 | a `# ` heading line with every leading `# ` trimmed is one line that no longer starts with `# `, is what follows some run of `# ` copies, and is the rest after the first `# ` when no second one follows |
| Text.TrimStartMatchesRepeat | src-tauri/src/commands/claude.rs:150 | `trim_start_matches` removes a run of whole copies of the pattern from the front |
| Text.TrimEndMatchesRepeat | src-tauri/src/commands/claude.rs:174 | `trim_end_matches` removes a run of whole copies of the pattern from the end |
| Text.TrimEndTwiceCopies | src-tauri/src/commands/github.rs:20 | `trim_end_matches(p)` then `trim_end_matches(q)` leaves a prefix of the text, and what it removes is a run of `q` copies followed by a run of `p` copies, the part before the `p` run not ending in `p` |
| Claude.HeadingTitle | src-tauri/src/commands/claude.rs:147-151 | a plan opening with `# t` is titled `t` |
| Claude.PreviewLines | src-tauri/src/commands/claude.rs:154-156 | exactly the non-empty lines not starting with `#` |
| Claude.PreviewLinesAppend | src-tauri/src/commands/claude.rs:154-156 | the filter keeps line order |
| Claude.PreviewOfLines | src-tauri/src/commands/claude.rs:154-162 | the first `min(200, n)` characters of the first three preview lines joined by spaces, where `n` is that text's length |
| Claude.PlanPreview | src-tauri/src/commands/claude.rs:154-162 | a preview has at most 200 characters |
| Claude.PreviewOfThree | src-tauri/src/commands/claude.rs:154-162 | three short preview lines at the top become the preview, joined by spaces |
| Claude.PreviewSkipsHeadings | src-tauri/src/commands/claude.rs:156 | headings and empty lines never reach the preview |
| Claude.PlanOf | src-tauri/src/commands/claude.rs:135-180 | a plan entry has the id, title and preview above; with no heading, the title is the id |

## Left out

- Filesystem, process and network effects are not modelled; their outcomes are inputs:
  - `WalkDir` traversal, path existence, `validate_home_path` canonicalisation;
  - git2 remote lookup, reading and writing the `.claude-commander-id` stamp;
  - `which`, `gh`, `open`, `chmod`, and writing the launch script. Failures of the last three are not modelled.
- UUID generation and the clock are left out: fresh ids are "not in the table", and time is a parameter.
- Engine-level SQLite failures are not modelled: I/O errors, a poisoned DB lock, "DB not initialized". Only constraint errors are.
- Tags are modelled as a list; their JSON serialisation in the `tags` column is left out.
- Concurrency is left out: the DB mutex, the file watcher and the pseudo-terminal sessions.
- `get_projects`, `get_archived_projects`, `get_task_github_links` and `load_all_links` are plain SELECTs with ORDER BY and are not modelled.
- Not modelled: `create_github_issue`, `fetch_issue_states`, `open_in_browser` and `detect_github_repo`. These run `gh`, a browser or git2.
- Not modelled: `list_env_files`, `get_deploy_configs`, `toml_to_json`, `write_file_atomic` and `parse_env_file_count`. These are filesystem and TOML code.
  - A `delete_env_var` on a missing file writes nothing. The model takes the file text instead.
- Not modelled: `read_claude_tasks`, `list_claude_sessions`, `read_claude_plan` and `read_first_line_cwd`/`count_jsonl_lines`.
  - Also not modelled: sorting plans and sessions by modification time.
  - Lines that are not valid UTF-8, which `BufRead::lines` drops, are not modelled.
- JSON numbers are modelled as integers. Floating point is left out because no modelled command looks at a number.
- ProjectScan.NormaliseRemote, Text.Trim: whitespace and `to_lowercase` are ASCII only, and Unicode whitespace and case folding are left out.
- Github.ParseIssueNumber: `i64` parsing is exact. Other integer arithmetic is unbounded, because no sort order or issue number near `i64::MAX` is considered.
- Planning.CreatePlanningItem: `max + 1000` is not wrapped at 64 bits.
- ProjectScan.SortByName: states sortedness and permutation but not stability. `sort_by` is stable, so projects with equal names keep their walk order; the contract leaves that order open.

## Findings

| source | as written | input that shows it | evidently intended | confidence | as-written member | corrected member |
|---|---|---|---|---|---|---|
| src-tauri/src/commands/env.rs:214-218 | a value that is a single `"` or `'` both starts and ends with that quote, so `raw_value[1..raw_value.len() - 1]` is `[1..0]` and panics | the `.env` file `TOKEN="` | strip a pair of quotes only from a value of at least two characters, and keep a lone quote as the value | high, not executed | Env.TokenLoneQuote | Env.EnvVarsAgree |
