/**
 * The planning board (src-tauri/src/commands/planning.rs) over the
 * `planning_items` table: the status text ↔ `PlanningStatus` mapping, the
 * listing of one project's items, and create / update / move / delete.
 * The status column is free text guarded by a CHECK constraint; the commands
 * pass the caller's string straight to SQLite.
 */
module Planning {
  import opened Common
  import opened Models
  import opened Store

  /** `parse_status`: three names are recognised, everything else is Backlog. */
  function ParseStatus(s: string): (st: PlanningStatus)
    ensures s == "todo" <==> st == Todo
    ensures s == "in_progress" <==> st == InProgress
    ensures s == "done" <==> st == Done
  {
    match s
    case "todo" => Todo
    case "in_progress" => InProgress
    case "done" => Done
    case _ => Backlog
  }

  /** Parsing the displayed name of a status gives the status back. */
  lemma ParseStatusName(st: PlanningStatus)
    ensures ParseStatus(StatusName(st)) == st
  {
  }

  /** On the strings the CHECK constraint admits, parsing and displaying are inverse. */
  lemma StatusNameParse(s: string)
    requires s in StatusCheckSet
    ensures StatusName(ParseStatus(s)) == s
  {
  }

  /** `row_to_item`. */
  function RowToItem(row: PlanningRow): (item: PlanningItem)
    ensures item.id == row.id && item.projectId == row.projectId && item.sortOrder == row.sortOrder
    ensures row.status in StatusCheckSet ==> StatusName(item.status) == row.status
  {
    PlanningItem(row.id, row.projectId, row.subject, row.description, ParseStatus(row.status),
                 row.priority, row.sortOrder, row.createdAt, row.updatedAt)
  }

  // ─── get_planning_items ────────────────────────────────────────────────

  predicate SortedBySortOrder(items: seq<PlanningItem>) {
    forall i, j | 0 <= i < j < |items| :: items[i].sortOrder <= items[j].sortOrder
  }

  function InsertBySortOrder(x: PlanningItem, s: seq<PlanningItem>): (r: seq<PlanningItem>)
    requires SortedBySortOrder(s)
    ensures SortedBySortOrder(r)
    ensures multiset(r) == multiset(s) + multiset{x}
    ensures r[0] == x || (s != [] && r[0] == s[0])
    decreases |s|
  {
    if s == [] || x.sortOrder <= s[0].sortOrder then [x] + s
    else
      var t := InsertBySortOrder(x, s[1..]);
      assert s == [s[0]] + s[1..];
      assert multiset([s[0]] + t) == multiset{s[0]} + multiset(t);
      SortedCons(s[0], t);
      [s[0]] + t
  }

  /** An item no later than the head of a sorted list can go in front of it. */
  lemma SortedCons(y: PlanningItem, t: seq<PlanningItem>)
    requires SortedBySortOrder(t) && (t != [] ==> y.sortOrder <= t[0].sortOrder)
    ensures SortedBySortOrder([y] + t)
  {
    var r := [y] + t;
    forall i, j | 0 <= i < j < |r|
      ensures r[i].sortOrder <= r[j].sortOrder
    {
      if i == 0 && j > 1 {
        assert r[j] == t[j - 1];
        assert t[0].sortOrder <= t[j - 1].sortOrder;
      }
    }
  }

  /** `ORDER BY sort_order`: ties come in an order the model leaves open. */
  function SortBySortOrder(s: seq<PlanningItem>): (r: seq<PlanningItem>)
    ensures SortedBySortOrder(r)
    ensures multiset(r) == multiset(s)
    decreases |s|
  {
    if s == [] then []
    else
      assert s == [s[0]] + s[1..];
      InsertBySortOrder(s[0], SortBySortOrder(s[1..]))
  }

  /** Ids of the rows `WHERE project_id = ?` selects. */
  function ProjectItemIds(planning: map<string, PlanningRow>, projectId: string): set<string> {
    set k | k in planning && planning[k].projectId == Some(projectId)
  }

  /** `get_planning_items`: the project's items, each once, by non-decreasing sort order. */
  method GetPlanningItems(db: Database, projectId: string) returns (items: seq<PlanningItem>)
    requires db.Valid()
    ensures SortedBySortOrder(items)
    ensures forall k | 0 <= k < |items| :: items[k].id in db.planning && items[k] == RowToItem(db.planning[items[k].id])
    ensures forall id :: id in ProjectItemIds(db.planning, projectId) <==> exists k | 0 <= k < |items| :: items[k].id == id
    ensures forall i, j | 0 <= i < j < |items| :: items[i].id != items[j].id
  {
    var found: seq<PlanningItem> := [];
    var todo := ProjectItemIds(db.planning, projectId);
    while todo != {}
      invariant todo <= ProjectItemIds(db.planning, projectId)
      invariant forall k | 0 <= k < |found| ::
        found[k].id in ProjectItemIds(db.planning, projectId) - todo && found[k] == RowToItem(db.planning[found[k].id])
      invariant forall id | id in ProjectItemIds(db.planning, projectId) - todo :: exists k | 0 <= k < |found| :: found[k].id == id
      invariant forall i, j | 0 <= i < j < |found| :: found[i].id != found[j].id
      decreases todo
    {
      var id :| id in todo;
      ghost var before, todoBefore := found, todo;
      found := found + [RowToItem(db.planning[id])];
      todo := todo - {id};
      forall other | other in ProjectItemIds(db.planning, projectId) - todo
        ensures exists k | 0 <= k < |found| :: found[k].id == other
      {
        if other == id {
          assert found[|before|].id == other;
        } else {
          assert other in ProjectItemIds(db.planning, projectId) - todoBefore;
          var k :| 0 <= k < |before| && before[k].id == other;
          assert found[k].id == other;
        }
      }
    }
    assert ProjectItemIds(db.planning, projectId) - todo == ProjectItemIds(db.planning, projectId);
    items := SortBySortOrder(found);
    SortedKeepsRows(found, items, db.planning, projectId);
  }

  /** Reordering the gathered items keeps every fact stated per item and the distinctness of ids. */
  lemma SortedKeepsRows(found: seq<PlanningItem>, items: seq<PlanningItem>, planning: map<string, PlanningRow>, projectId: string)
    requires multiset(items) == multiset(found)
    requires forall k | 0 <= k < |found| :: found[k].id in planning && found[k] == RowToItem(planning[found[k].id])
    requires forall i, j | 0 <= i < j < |found| :: found[i].id != found[j].id
    requires forall id | id in ProjectItemIds(planning, projectId) :: exists k | 0 <= k < |found| :: found[k].id == id
    requires forall k | 0 <= k < |found| :: found[k].id in ProjectItemIds(planning, projectId)
    ensures forall k | 0 <= k < |items| :: items[k].id in planning && items[k] == RowToItem(planning[items[k].id])
    ensures forall id :: id in ProjectItemIds(planning, projectId) <==> exists k | 0 <= k < |items| :: items[k].id == id
    ensures forall i, j | 0 <= i < j < |items| :: items[i].id != items[j].id
  {
    forall k | 0 <= k < |items|
      ensures items[k] in found && multiset(items)[items[k]] == 1
    {
      assert items[k] in multiset(items);
      var m :| 0 <= m < |found| && found[m] == items[k];
      OnlyOnce(found, m);
    }
    forall id | id in ProjectItemIds(planning, projectId)
      ensures exists k | 0 <= k < |items| :: items[k].id == id
    {
      var k :| 0 <= k < |found| && found[k].id == id;
      assert found[k] in multiset(found);
      assert found[k] in items;
    }
    CountOneDistinct(items);
  }

  /** A sequence whose every element is counted once has no repeated element. */
  lemma {:induction false} CountOneDistinct(s: seq<PlanningItem>)
    requires forall k | 0 <= k < |s| :: multiset(s)[s[k]] == 1
    ensures forall i, j | 0 <= i < j < |s| :: s[i] != s[j]
  {
    if s != [] {
      var t := s[1..];
      assert s == [s[0]] + t;
      assert multiset(t)[s[0]] == 0;
      forall k | 0 <= k < |t|
        ensures multiset(t)[t[k]] == 1
      {
        assert t[k] == s[k + 1];
        assert t[k] in multiset(t);
      }
      CountOneDistinct(t);
      forall i, j | 0 <= i < j < |s|
        ensures s[i] != s[j]
      {
        if i > 0 {
          assert s[i] == t[i - 1] && s[j] == t[j - 1];
        } else {
          assert s[j] == t[j - 1];
          assert s[j] in multiset(t);
        }
      }
    }
  }

  /** With distinct ids, an item occurs once. */
  lemma {:induction false} OnlyOnce(s: seq<PlanningItem>, k: nat)
    requires k < |s|
    requires forall i, j | 0 <= i < j < |s| :: s[i].id != s[j].id
    ensures multiset(s)[s[k]] == 1
  {
    var x := s[k];
    assert s == s[..k] + [x] + s[k + 1..];
    assert x !in s[..k];
    var after := s[k + 1..];
    assert x !in after by {
      forall m | 0 <= m < |after| ensures after[m] != x {
        assert after[m] == s[k + 1 + m];
      }
    }
  }

  // ─── create_planning_item ──────────────────────────────────────────────

  /** The sort orders of the rows with this project and status text. */
  function GroupSortOrders(planning: map<string, PlanningRow>, projectId: string, status: string): set<int> {
    set k | k in planning && planning[k].projectId == Some(projectId) && planning[k].status == status :: planning[k].sortOrder
  }

  /** `COALESCE(MAX(sort_order), 0)` over a group. */
  ghost predicate IsCoalescedMax(group: set<int>, m: int) {
    if group == {} then m == 0 else m in group && forall x | x in group :: x <= m
  }

  /** `SELECT COALESCE(MAX(sort_order), 0) ... WHERE project_id = ? AND status = ?`. */
  method MaxSortOrder(db: Database, projectId: string, status: string) returns (m: int)
    ensures IsCoalescedMax(GroupSortOrders(db.planning, projectId, status), m)
  {
    var group := GroupSortOrders(db.planning, projectId, status);
    var todo := group;
    m := 0;
    while todo != {}
      invariant todo <= group
      invariant IsCoalescedMax(group - todo, m)
      decreases todo
    {
      var x :| x in todo;
      var done := group - todo;
      if done == {} || m < x {
        m := x;
      }
      todo := todo - {x};
      assert group - todo == done + {x};
    }
    assert group - todo == group;
  }

  /**
   * `create_planning_item`: sort order 1000 past the largest in the item's
   * project and status (1000 for an empty group); the CHECK then the
   * foreign key decide whether the insert is accepted.
   */
  method CreatePlanningItem(db: Database, input: CreatePlanningItemInput, now: string)
    returns (r: Result<PlanningItem, DbError>)
    requires db.Valid()
    modifies db
    ensures db.Valid()
    ensures r.Err? <==> input.status !in StatusCheckSet || input.projectId !in db.projects
    ensures r.Err? ==> r.error == (if input.status !in StatusCheckSet then CheckViolation("planning_items.status") else ForeignKeyViolation)
    ensures r.Err? ==> db.planning == old(db.planning)
    ensures r.Ok? ==> r.value.id !in old(db.planning) && r.value.id in db.planning && db.planning == old(db.planning)[r.value.id := db.planning[r.value.id]]
    ensures r.Ok? ==> (db.planning[r.value.id] ==
      PlanningRow(r.value.id, Some(input.projectId), input.subject, input.description, input.status, 0, r.value.sortOrder, now, now))
    ensures r.Ok? ==> r.value == RowToItem(db.planning[r.value.id])
    ensures r.Ok? ==> forall x | x in GroupSortOrders(old(db.planning), input.projectId, input.status) :: x < r.value.sortOrder
    ensures r.Ok? && GroupSortOrders(old(db.planning), input.projectId, input.status) == {} ==> r.value.sortOrder == 1000
    ensures r.Ok? && GroupSortOrders(old(db.planning), input.projectId, input.status) != {} ==>
      r.value.sortOrder - 1000 in GroupSortOrders(old(db.planning), input.projectId, input.status)
    ensures r.Ok? ==> IsCoalescedMax(GroupSortOrders(old(db.planning), input.projectId, input.status), r.value.sortOrder - 1000)
    ensures db.projects == old(db.projects) && db.links == old(db.links)
  {
    var maxSort := MaxSortOrder(db, input.projectId, input.status);
    var sortOrder := maxSort + 1000;
    FreshIdExists(db.planning.Keys);
    var id :| id !in db.planning.Keys;
    var row := PlanningRow(id, Some(input.projectId), input.subject, input.description, input.status, 0, sortOrder, now, now);
    var res := db.InsertPlanningRow(row);
    if res.Err? {
      r := Err(res.error);
      return;
    }
    r := Ok(RowToItem(row));
  }

  // ─── update / move / delete ────────────────────────────────────────────

  /** `update_planning_item`: new subject and description, then the row is read back. */
  method UpdatePlanningItem(db: Database, input: UpdatePlanningItemInput, now: string)
    returns (r: Result<PlanningItem, DbError>)
    requires db.Valid()
    modifies db
    ensures db.Valid()
    ensures r.Err? <==> input.id !in old(db.planning)
    ensures r.Err? ==> r.error == NoRows && db.planning == old(db.planning)
    ensures r.Ok? ==> db.planning == old(db.planning)[input.id :=
      old(db.planning)[input.id].(subject := input.subject, description := input.description, updatedAt := now)]
    ensures r.Ok? ==> r.value == RowToItem(db.planning[input.id])
    ensures db.projects == old(db.projects) && db.links == old(db.links)
  {
    db.SetSubject(input.id, input.subject, input.description, now);
    if input.id !in db.planning {
      r := Err(NoRows);
    } else {
      r := Ok(RowToItem(db.planning[input.id]));
    }
  }

  /** `move_planning_item`: new status text and sort order; an absent id changes nothing. */
  method MovePlanningItem(db: Database, id: string, status: string, sortOrder: int, now: string)
    returns (r: Result<(), DbError>)
    requires db.Valid()
    modifies db
    ensures db.Valid()
    ensures r.Err? <==> id in old(db.planning) && status !in StatusCheckSet
    ensures r.Err? ==> r.error == CheckViolation("planning_items.status")
    ensures db.planning == if r.Ok? && id in old(db.planning)
      then old(db.planning)[id := old(db.planning)[id].(status := status, sortOrder := sortOrder, updatedAt := now)]
      else old(db.planning)
    ensures db.projects == old(db.projects) && db.links == old(db.links)
  {
    r := db.SetStatus(id, status, sortOrder, now);
  }

  /** `delete_planning_item`: removes that row only; an absent id changes nothing. */
  method DeletePlanningItem(db: Database, id: string)
    requires db.Valid()
    modifies db
    ensures db.Valid()
    ensures db.planning == old(db.planning) - {id}
    ensures db.projects == old(db.projects) && db.links == old(db.links)
  {
    db.DeletePlanningRow(id);
  }
}
