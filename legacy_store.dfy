/**
 * The first version of the task store: one tasks table (id, title, completed,
 * created_at, later parent_id) with parent_id ON DELETE CASCADE and foreign keys
 * enforced, and no tags, dates or descriptions.
 */
module LegacyStore {
  import opened Wrappers
  import opened Tables

  /** The task record of the first version. */
  datatype Task = Task(id: int, title: string, completed: bool, parentId: Option<int>, createdAt: int)

  /** One row of the tasks table; `completed` is the INTEGER column, 0 or 1. */
  datatype Row = Row(title: string, completed: int, createdAt: int, parentId: Option<int>)

  datatype StoreError = NotFound(id: int) | ForeignKeyViolation

  datatype Db = Db(tasks: map<int, Row>, columns: seq<string>, nextId: int)

  function Parents(tasks: map<int, Row>): map<int, Option<int>>
  {
    map x | x in tasks :: tasks[x].parentId
  }

  /** A migrated schema, the AUTOINCREMENT counter above every id, 0/1 flags and the parent_id key. */
  ghost predicate Consistent(db: Db)
  {
    && NoDuplicates(db.columns)
    && (forall c :: c in BaseColumns + ["parent_id"] ==> c in db.columns)
    && 1 <= db.nextId
    && (forall id :: id in db.tasks ==> 1 <= id < db.nextId)
    && (forall id :: id in db.tasks ==> db.tasks[id].completed == 0 || db.tasks[id].completed == 1)
    && ParentsOrdered(Parents(db.tasks))
  }

  /** scanTask: completed is "the column is not 0". */
  function Scan(id: int, row: Row): Task
  {
    Task(id, row.title, row.completed != 0, row.parentId, row.createdAt)
  }

  predicate CanAdd(db: Db, parent: Option<int>)
  {
    parent.None? || parent.value in db.tasks
  }

  /** INSERT INTO tasks (title[, parent_id]). */
  function AddTask(db: Db, title: string, parent: Option<int>, now: int): Db
  {
    db.(tasks := db.tasks[db.nextId := Row(title, 0, now, parent)], nextId := db.nextId + 1)
  }

  /** UPDATE tasks SET completed = 1 - completed WHERE id = ? */
  function ToggleCompleteDb(db: Db, id: int): Db
  {
    if id in db.tasks then
      db.(tasks := db.tasks[id := db.tasks[id].(completed := 1 - db.tasks[id].completed)])
    else db
  }

  /** DELETE FROM tasks WHERE id = ?, cascading through parent_id. */
  function DeleteDb(db: Db, id: int): Db
    requires ParentsOrdered(Parents(db.tasks))
  {
    var gone := Subtree(Parents(db.tasks), id);
    db.(tasks := map x | x in db.tasks && x !in gone :: db.tasks[x])
  }

  /** Add uses an id no row has had, stores completed 0 and the parent, and keeps consistency. */
  lemma AddFresh(db: Db, title: string, parent: Option<int>, now: int)
    requires Consistent(db) && CanAdd(db, parent)
    ensures var db' := AddTask(db, title, parent, now);
      && Consistent(db')
      && db.nextId !in db.tasks
      && db'.tasks.Keys == db.tasks.Keys + {db.nextId}
      && (forall x :: x in db.tasks ==> db'.tasks[x] == db.tasks[x])
      && Scan(db.nextId, db'.tasks[db.nextId]) == Task(db.nextId, title, false, parent, now)
  {
    assert Parents(AddTask(db, title, parent, now).tasks) == Parents(db.tasks)[db.nextId := parent];
  }

  /** Toggling twice restores the row; toggling flips one row and changes no other. */
  lemma ToggleCompleteInvolution(db: Db, id: int)
    requires Consistent(db)
    ensures ToggleCompleteDb(ToggleCompleteDb(db, id), id) == db
    ensures var db' := ToggleCompleteDb(db, id);
      && Consistent(db')
      && db'.tasks.Keys == db.tasks.Keys
      && (id in db.tasks ==> (db'.tasks[id].completed != 0) == (db.tasks[id].completed == 0))
      && (forall x :: x in db.tasks && x != id ==> db'.tasks[x] == db.tasks[x])
  {
    var db' := ToggleCompleteDb(db, id);
    assert Parents(db'.tasks) == Parents(db.tasks);
    if id in db.tasks {
      assert ToggleCompleteDb(db', id).tasks == db.tasks;
    }
  }

  /** Delete removes exactly the rows below `id` (and `id`), keeping the others and consistency. */
  lemma DeleteCascades(db: Db, id: int)
    requires Consistent(db)
    ensures var db' := DeleteDb(db, id);
      && Consistent(db')
      && (forall x :: x in db.tasks ==> (x in db'.tasks <==> !Reaches(Parents(db.tasks), x, id)))
      && (forall x :: x in db'.tasks ==> db'.tasks[x] == db.tasks[x])
      && id !in db'.tasks
  {
    var p := Parents(db.tasks);
    SubtreeIsCascade(p, id);
    assert Parents(DeleteDb(db, id).tasks) == Prune(p, id);
    PruneKeepsOrder(p, id);
  }

  /** A freshly opened store, with parent_id migrated into any known column list, is consistent. */
  lemma OpenedConsistent(start: seq<string>)
    requires NoDuplicates(start) && forall c :: c in BaseColumns ==> c in start
    ensures Consistent(Db(map[], AddColumnIfAbsent(start, "parent_id"), 1))
  {
    MigrateColumnsGrows(start, ["parent_id"]);
    assert MigrateColumns(start, ["parent_id"]) == AddColumnIfAbsent(start, "parent_id");
  }

  class TaskStore {
    var tasks: map<int, Row>
    var columns: seq<string>
    var nextId: int

    function State(): Db
      reads this
    {
      Db(tasks, columns, nextId)
    }

    ghost predicate Valid()
      reads this
    {
      Consistent(State())
    }

    /**
     * NewTaskStore: CREATE TABLE IF NOT EXISTS tasks, then migrateParentID.
     * `existing` is the column list of a tasks table already on disk.
     */
    constructor Open(existing: Option<seq<string>>)
      requires existing.Some? ==>
        NoDuplicates(existing.value) && forall c :: c in BaseColumns ==> c in existing.value
      ensures Valid()
      ensures columns == AddColumnIfAbsent(if existing.Some? then existing.value else BaseColumns, "parent_id")
      ensures tasks == map[]
    {
      tasks := map[];
      nextId := 1;
      columns := if existing.Some? then existing.value else BaseColumns;
      new;
      ghost var start := columns;
      MigrateParentId();
      OpenedConsistent(start);
      assert State() == Db(map[], AddColumnIfAbsent(start, "parent_id"), 1);
    }

    /** migrateParentID: scan table_info for parent_id and add it only when missing. */
    method MigrateParentId()
      modifies this`columns
      ensures columns == AddColumnIfAbsent(old(columns), "parent_id")
    {
      var hasParentId := false;
      var i := 0;
      while i < |columns|
        invariant 0 <= i <= |columns|
        invariant !hasParentId ==> "parent_id" !in columns[..i]
        invariant hasParentId ==> "parent_id" in columns
      {
        if columns[i] == "parent_id" {
          hasParentId := true;
          break;
        }
        i := i + 1;
      }
      if !hasParentId {
        assert columns[..i] == columns;
        columns := columns + ["parent_id"];
      }
    }

    /** Add: insert, then read the row back; a missing parent violates the foreign key. */
    method Add(title: string, parent: Option<int>, now: int) returns (r: Result<Task, StoreError>)
      requires Valid()
      modifies this
      ensures Valid()
      ensures !CanAdd(old(State()), parent) ==> r == Err(ForeignKeyViolation) && State() == old(State())
      ensures CanAdd(old(State()), parent) ==>
        && State() == AddTask(old(State()), title, parent, now)
        && r == Ok(Task(old(nextId), title, false, parent, now))
    {
      if parent.Some? && parent.value !in tasks {
        return Err(ForeignKeyViolation);
      }
      AddFresh(State(), title, parent, now);
      var id := nextId;
      tasks := tasks[id := Row(title, 0, now, parent)];
      nextId := nextId + 1;
      r := GetByID(id);
    }

    /** GetByID: the row, or an error when no row has the id. */
    method GetByID(id: int) returns (r: Result<Task, StoreError>)
      ensures id !in tasks ==> r == Err(NotFound(id))
      ensures id in tasks ==> r == Ok(Scan(id, tasks[id]))
    {
      if id !in tasks {
        return Err(NotFound(id));
      }
      r := Ok(Scan(id, tasks[id]));
    }

    /** ToggleComplete: 1 - completed on that row; a missing id is no error. */
    method ToggleComplete(id: int)
      requires Valid()
      modifies this
      ensures Valid()
      ensures State() == ToggleCompleteDb(old(State()), id)
    {
      ToggleCompleteInvolution(State(), id);
      if id in tasks {
        tasks := tasks[id := tasks[id].(completed := 1 - tasks[id].completed)];
      }
    }

    /** Delete: the row and, through the cascade, all rows below it. */
    method Delete(id: int)
      requires Valid()
      modifies this
      ensures Valid()
      ensures State() == DeleteDb(old(State()), id)
    {
      DeleteCascades(State(), id);
      var gone := Subtree(Parents(tasks), id);
      tasks := map x | x in tasks && x !in gone :: tasks[x];
    }

    /** HasChildren: SELECT COUNT(*) ... WHERE parent_id = ?, then count > 0. */
    method HasChildren(id: int) returns (b: bool)
      ensures b <==> exists x :: x in tasks && tasks[x].parentId == Some(id)
    {
      var children := set x | x in tasks && tasks[x].parentId == Some(id);
      b := |children| > 0;
      if b {
        ghost var w := Pick(children);
        assert w in tasks && tasks[w].parentId == Some(id);
      } else {
        assert children == {};
        assert forall x :: x in tasks && tasks[x].parentId == Some(id) ==> x in children;
      }
    }

    /** List: every row once, ordered by created_at ascending (ties in any order). */
    method List() returns (r: seq<Task>)
      ensures |r| == |tasks|
      ensures forall i, j :: 0 <= i < j < |r| ==> r[i].id != r[j].id
      ensures forall i :: 0 <= i < |r| ==> r[i].id in tasks && r[i] == Scan(r[i].id, tasks[r[i].id])
      ensures forall id :: id in tasks ==> exists i :: 0 <= i < |r| && r[i].id == id
      ensures forall i, j :: 0 <= i < j < |r| ==> r[i].createdAt <= r[j].createdAt
    {
      var ids := SortByCreation(map x | x in tasks :: tasks[x].createdAt);
      DistinctIds(ids, tasks.Keys);
      r := [];
      for k := 0 to |ids|
        invariant |r| == k
        invariant forall i :: 0 <= i < k ==> r[i] == Scan(ids[i], tasks[ids[i]])
      {
        r := r + [Scan(ids[k], tasks[ids[k]])];
      }
      ListIds(ids, r);
    }

    /** The rows List reads back: every row once, in creation order. */
    lemma ListIds(ids: seq<int>, r: seq<Task>)
      requires ByCreation(map x | x in tasks :: tasks[x].createdAt, ids)
      requires multiset(ids) == multiset(tasks.Keys)
      requires forall i, j :: 0 <= i < j < |ids| ==> ids[i] != ids[j]
      requires |ids| == |tasks.Keys| && |r| == |ids|
      requires forall i :: 0 <= i < |ids| ==> ids[i] in tasks && r[i] == Scan(ids[i], tasks[ids[i]])
      ensures |r| == |tasks|
      ensures forall i, j :: 0 <= i < j < |r| ==> r[i].id != r[j].id
      ensures forall i :: 0 <= i < |r| ==> r[i].id in tasks && r[i] == Scan(r[i].id, tasks[r[i].id])
      ensures forall id :: id in tasks ==> exists i :: 0 <= i < |r| && r[i].id == id
      ensures forall i, j :: 0 <= i < j < |r| ==> r[i].createdAt <= r[j].createdAt
    {
      assert |tasks| == |tasks.Keys|;
      forall id | id in tasks ensures exists i :: 0 <= i < |r| && r[i].id == id {
        assert id in multiset(ids);
        var i :| 0 <= i < |ids| && ids[i] == id;
        assert r[i].id == id;
      }
    }
  }
}
