/**
 * The SQLite-backed task store, with its SQL read as operations on three tables:
 * tasks (id -> row), tags (id -> name and colour) and task_tags (a set of
 * (task id, tag id) pairs), plus the schema the migrations evolve and the two
 * AUTOINCREMENT counters. `Db` is the database as a value and the functions over
 * it give each statement its meaning; `TaskStore` holds the same state in fields
 * and its methods update them in place.
 */
module Store {
  import opened Wrappers
  import opened Text
  import opened Model
  import opened Tables

  /** One row of the tasks table; `completed` is the INTEGER column, 0 or 1. */
  datatype Row = Row(
    title: string,
    completed: int,
    createdAt: int,
    parentId: Option<int>,
    scheduledOn: Option<string>,
    dueDate: Option<string>,
    description: Option<string>)

  /** One row of the tags table. */
  datatype TagRow = TagRow(name: string, color: string)

  /** The failures the tables themselves produce. */
  datatype StoreError =
    | NotFound(id: int)             // no row with that id
    | ForeignKeyViolation           // a parent_id, task_id or tag_id naming no row
    | UniqueViolation(name: string) // a second tag with the same name

  datatype Db = Db(
    tasks: map<int, Row>,
    tags: map<int, TagRow>,
    taskTags: set<(int, int)>,
    tables: set<string>,
    columns: seq<string>,
    nextTaskId: int,
    nextTagId: int)

  /** The columns added by the migrations, in the order they run. */
  const MigratedColumns: seq<string> := ["parent_id", "scheduled_on", "due_date", "description"]

  /** The tables the schema set-up and the tag migration create. */
  const AllTables: set<string> := {"tasks", "tags", "task_tags"}

  function Parents(tasks: map<int, Row>): map<int, Option<int>>
  {
    map x | x in tasks :: tasks[x].parentId
  }

  /**
   * What holds of every database the store works on: a migrated schema,
   * AUTOINCREMENT counters above every id, 0/1 completion flags, the three
   * foreign keys, and unique tag names.
   */
  ghost predicate Consistent(db: Db)
  {
    && NoDuplicates(db.columns)
    && (forall c :: c in BaseColumns + MigratedColumns ==> c in db.columns)
    && AllTables <= db.tables
    && 1 <= db.nextTaskId && 1 <= db.nextTagId
    && (forall id :: id in db.tasks ==> 1 <= id < db.nextTaskId)
    && (forall id :: id in db.tags ==> 1 <= id < db.nextTagId)
    && (forall id :: id in db.tasks ==> db.tasks[id].completed == 0 || db.tasks[id].completed == 1)
    && ParentsOrdered(Parents(db.tasks))
    && (forall p :: p in db.taskTags ==> p.0 in db.tasks && p.1 in db.tags)
    && (forall a, b :: a in db.tags && b in db.tags && db.tags[a].name == db.tags[b].name ==> a == b)
  }

  // ---------------------------------------------------------------------------
  // Reading rows
  // ---------------------------------------------------------------------------

  /** scanTask: a row as a Task, completed meaning "the column is not 0". */
  function Scan(id: int, row: Row, tags: seq<Tag>): Task
  {
    Task(id, row.title, row.description, row.completed != 0, row.parentId,
         row.createdAt, row.scheduledOn, row.dueDate, tags)
  }

  function TagOf(db: Db, id: int): Tag
    requires id in db.tags
  {
    Tag(id, db.tags[id].name, db.tags[id].color)
  }

  /** `t` is a tag row, as the store reads it, assigned to `task`. */
  predicate IsAssigned(db: Db, task: int, t: Tag)
  {
    t.id in db.tags && t == TagOf(db, t.id) && (task, t.id) in db.taskTags
  }

  /** `s` lists exactly the tags assigned to `task`, ordered by name. */
  ghost predicate ListsTagsOf(db: Db, task: int, s: seq<Tag>)
  {
    ByName(s) && forall t :: t in s <==> IsAssigned(db, task, t)
  }

  /** `s` lists every tag, ordered by name. */
  ghost predicate ListsAllTags(db: Db, s: seq<Tag>)
  {
    ByName(s) && forall t :: t in s <==> t.id in db.tags && t == TagOf(db, t.id)
  }

  // ---------------------------------------------------------------------------
  // The meaning of each statement
  // ---------------------------------------------------------------------------

  /** INSERT INTO tasks: the foreign key admits no parent or an existing one. */
  predicate CanAdd(db: Db, parent: Option<int>)
  {
    parent.None? || parent.value in db.tasks
  }

  /** INSERT INTO tasks (title[, parent_id]): a fresh id, completed 0, created now. */
  function AddTask(db: Db, title: string, parent: Option<int>, now: int): Db
  {
    db.(tasks := db.tasks[db.nextTaskId := Row(title, 0, now, parent, None, None, None)],
        nextTaskId := db.nextTaskId + 1)
  }

  /** UPDATE tasks SET completed = 1 - completed WHERE id = ? */
  function ToggleCompleteDb(db: Db, id: int): Db
  {
    if id in db.tasks then
      db.(tasks := db.tasks[id := db.tasks[id].(completed := 1 - db.tasks[id].completed)])
    else db
  }

  /** CASE WHEN scheduled_on = today THEN NULL ELSE today END (NULL = today is not true). */
  function ToggledSchedule(scheduled: Option<string>, today: string): Option<string>
  {
    if scheduled == Some(today) then None else Some(today)
  }

  function ToggleTodayDb(db: Db, id: int, today: string): Db
  {
    if id in db.tasks then
      db.(tasks := db.tasks[id := db.tasks[id].(scheduledOn := ToggledSchedule(db.tasks[id].scheduledOn, today))])
    else db
  }

  /** UPDATE tasks SET due_date = ? (or NULL) WHERE id = ? */
  function SetDueDateDb(db: Db, id: int, due: Option<string>): Db
  {
    if id in db.tasks then db.(tasks := db.tasks[id := db.tasks[id].(dueDate := due)]) else db
  }

  /** UPDATE tasks SET description = ? (or NULL) WHERE id = ? */
  function UpdateDescriptionDb(db: Db, id: int, description: Option<string>): Db
  {
    if id in db.tasks then db.(tasks := db.tasks[id := db.tasks[id].(description := description)]) else db
  }

  /**
   * DELETE FROM tasks WHERE id = ?, with parent_id and task_tags.task_id both
   * ON DELETE CASCADE: the row, its whole subtree and their tag pairs go.
   */
  function DeleteDb(db: Db, id: int): Db
    requires ParentsOrdered(Parents(db.tasks))
  {
    var gone := Subtree(Parents(db.tasks), id);
    db.(tasks := map x | x in db.tasks && x !in gone :: db.tasks[x],
        taskTags := set p | p in db.taskTags && p.0 !in gone)
  }

  /** The UNIQUE constraint on tags.name admits the name. */
  predicate CanCreateTag(db: Db, name: string)
  {
    forall id :: id in db.tags ==> db.tags[id].name != name
  }

  /** INSERT INTO tags (name, color). */
  function CreateTagDb(db: Db, name: string, color: string): Db
  {
    db.(tags := db.tags[db.nextTagId := TagRow(name, color)], nextTagId := db.nextTagId + 1)
  }

  /** DELETE FROM tags WHERE id = ?, with task_tags.tag_id ON DELETE CASCADE. */
  function DeleteTagDb(db: Db, id: int): Db
  {
    db.(tags := map t | t in db.tags && t != id :: db.tags[t],
        taskTags := set p | p in db.taskTags && p.1 != id)
  }

  /** Both foreign keys of task_tags admit the pair. */
  predicate CanAssign(db: Db, task: int, tag: int)
  {
    task in db.tasks && tag in db.tags
  }

  /** INSERT OR IGNORE INTO task_tags: an existing pair is left as it is. */
  function AssignTagDb(db: Db, task: int, tag: int): Db
  {
    db.(taskTags := db.taskTags + {(task, tag)})
  }

  /** DELETE FROM task_tags WHERE task_id = ? AND tag_id = ? */
  function UnassignTagDb(db: Db, task: int, tag: int): Db
  {
    db.(taskTags := db.taskTags - {(task, tag)})
  }

  // ---------------------------------------------------------------------------
  // Properties of the statements
  // ---------------------------------------------------------------------------

  /**
   * Add gives the new row an id no row has ever had, completed 0, the given
   * title and parent, and keeps the database consistent.
   */
  lemma AddFresh(db: Db, title: string, parent: Option<int>, now: int)
    requires Consistent(db) && CanAdd(db, parent)
    ensures var db' := AddTask(db, title, parent, now);
      && Consistent(db')
      && db.nextTaskId !in db.tasks
      && db'.tasks.Keys == db.tasks.Keys + {db.nextTaskId}
      && (forall x :: x in db.tasks ==> x < db.nextTaskId && db'.tasks[x] == db.tasks[x])
      && Scan(db.nextTaskId, db'.tasks[db.nextTaskId], [])
         == Task(db.nextTaskId, title, None, false, parent, now, None, None, [])
      && db.nextTaskId < db'.nextTaskId
  {
    var db' := AddTask(db, title, parent, now);
    var p := Parents(db.tasks);
    var p' := Parents(db'.tasks);
    assert p' == p[db.nextTaskId := parent];
  }

  /** Toggling completion twice restores the database. */
  lemma ToggleCompleteInvolution(db: Db, id: int)
    ensures ToggleCompleteDb(ToggleCompleteDb(db, id), id) == db
  {
    if id in db.tasks {
      assert ToggleCompleteDb(ToggleCompleteDb(db, id), id).tasks == db.tasks;
    }
  }

  /** Toggling completion flips exactly the one task as read back, and nothing else. */
  lemma ToggleCompleteFlips(db: Db, id: int)
    requires Consistent(db)
    ensures var db' := ToggleCompleteDb(db, id);
      && Consistent(db')
      && db'.tasks.Keys == db.tasks.Keys
      && (id in db.tasks ==> (db'.tasks[id].completed != 0) == (db.tasks[id].completed == 0))
      && (forall x :: x in db.tasks && x != id ==> db'.tasks[x] == db.tasks[x])
  {
    var db' := ToggleCompleteDb(db, id);
    assert Parents(db'.tasks) == Parents(db.tasks);
  }

  /**
   * Toggling "today" twice: from today or from no date the schedule comes back;
   * an earlier different date is not restored but cleared.
   */
  lemma ToggleTodayTwice(scheduled: Option<string>, today: string)
    ensures ToggledSchedule(ToggledSchedule(scheduled, today), today)
            == if scheduled == Some(today) then Some(today) else None
    ensures ToggledSchedule(scheduled, today) == Some(today) <==> scheduled != Some(today)
  {
  }

  /**
   * ToggleToday as the list view reads it back: the task's "today" marker
   * turns on exactly when it was off, and its due-date markers stay as they were.
   */
  lemma ToggleTodayMarks(db: Db, id: int, today: string, tags: seq<Tag>)
    requires id in db.tasks
    ensures var before := Scan(id, db.tasks[id], tags);
      var after := Scan(id, ToggleTodayDb(db, id, today).tasks[id], tags);
      && (IsToday(after, today) <==> !IsToday(before, today))
      && IsDueToday(after, today) == IsDueToday(before, today)
      && IsOverdue(after, today) == IsOverdue(before, today)
  {
  }

  /**
   * SetDueDate as the list view reads it back: the task is due today exactly
   * when the new date is today, overdue exactly when it is open and the new
   * date sorts before today (so clearing the date clears both), and its
   * "today" marker is untouched.
   */
  lemma SetDueDateMarks(db: Db, id: int, due: Option<string>, today: string, tags: seq<Tag>)
    requires id in db.tasks
    ensures var after := Scan(id, SetDueDateDb(db, id, due).tasks[id], tags);
      && (IsDueToday(after, today) <==> due == Some(today))
      && (IsOverdue(after, today) <==> due.Some? && db.tasks[id].completed == 0 && Less(due.value, today))
      && IsToday(after, today) == IsToday(Scan(id, db.tasks[id], tags), today)
  {
  }

  /** ToggleToday, SetDueDate and UpdateDescription touch one field of one row. */
  lemma FieldUpdatesKeepConsistent(db: Db, id: int, today: string, v: Option<string>)
    requires Consistent(db)
    ensures Consistent(ToggleTodayDb(db, id, today))
    ensures Consistent(SetDueDateDb(db, id, v))
    ensures Consistent(UpdateDescriptionDb(db, id, v))
  {
    if id in db.tasks {
      var row := db.tasks[id];
      RowEditConsistent(db, id, row.(scheduledOn := ToggledSchedule(row.scheduledOn, today)));
      RowEditConsistent(db, id, row.(dueDate := v));
      RowEditConsistent(db, id, row.(description := v));
    }
  }

  /** Rewriting a row without touching its parent or completion flag keeps the database consistent. */
  lemma RowEditConsistent(db: Db, id: int, row: Row)
    requires Consistent(db) && id in db.tasks
    requires row.parentId == db.tasks[id].parentId && row.completed == db.tasks[id].completed
    ensures Consistent(db.(tasks := db.tasks[id := row]))
  {
    assert Parents(db.tasks[id := row]) == Parents(db.tasks);
  }

  /**
   * Delete removes the task and every descendant, keeps every other row as it
   * was, drops exactly the tag pairs of removed tasks, and leaves no row whose
   * parent is gone.
   */
  lemma DeleteCascades(db: Db, id: int)
    requires Consistent(db)
    ensures var db' := DeleteDb(db, id);
      && Consistent(db')
      && (forall x :: x in db.tasks ==> (x in db'.tasks <==> !Reaches(Parents(db.tasks), x, id)))
      && (forall x :: x in db'.tasks ==> db'.tasks[x] == db.tasks[x])
      && id !in db'.tasks
      && (forall p :: p in db'.taskTags <==> p in db.taskTags && p.0 in db'.tasks)
      && (id !in db.tasks ==> db' == db)
  {
    SubtreeIsCascade(Parents(db.tasks), id);
    DeleteConsistent(db, id);
    if id !in db.tasks {
      DeleteMissing(db, id);
    }
  }

  lemma DeleteConsistent(db: Db, id: int)
    requires Consistent(db)
    ensures Consistent(DeleteDb(db, id))
  {
    var p := Parents(db.tasks);
    assert Parents(DeleteDb(db, id).tasks) == Prune(p, id);
    PruneKeepsOrder(p, id);
  }

  /** Deleting an id no row has changes nothing. */
  lemma DeleteMissing(db: Db, id: int)
    requires Consistent(db) && id !in db.tasks
    ensures DeleteDb(db, id) == db
  {
    var db' := DeleteDb(db, id);
    SubtreeOfMissing(Parents(db.tasks), id);
    assert db'.tasks == db.tasks;
    assert db'.taskTags == db.taskTags;
  }

  /** Creating a tag with an unused name keeps names unique and uses a fresh id. */
  lemma CreateTagFresh(db: Db, name: string, color: string)
    requires Consistent(db) && CanCreateTag(db, name)
    ensures var db' := CreateTagDb(db, name, color);
      && Consistent(db')
      && db.nextTagId !in db.tags
      && TagOf(db', db.nextTagId) == Tag(db.nextTagId, name, color)
      && (forall t :: t in db.tags ==> t in db'.tags && TagOf(db', t) == TagOf(db, t))
  {
  }

  /** Assigning a tag twice leaves the same single pair as assigning it once. */
  lemma AssignTagIdempotent(db: Db, task: int, tag: int)
    ensures AssignTagDb(AssignTagDb(db, task, tag), task, tag) == AssignTagDb(db, task, tag)
    ensures (task, tag) in AssignTagDb(db, task, tag).taskTags
  {
  }

  /** Unassigning removes exactly the one pair; assigning then unassigning a new pair restores the table. */
  lemma UnassignAfterAssign(db: Db, task: int, tag: int)
    ensures UnassignTagDb(db, task, tag).taskTags == db.taskTags - {(task, tag)}
    ensures (task, tag) !in db.taskTags ==> UnassignTagDb(AssignTagDb(db, task, tag), task, tag) == db
  {
  }

  /** Pair updates keep the foreign keys when the pair names existing rows. */
  lemma PairUpdatesKeepConsistent(db: Db, task: int, tag: int)
    requires Consistent(db)
    ensures CanAssign(db, task, tag) ==> Consistent(AssignTagDb(db, task, tag))
    ensures Consistent(UnassignTagDb(db, task, tag))
  {
  }

  /** Deleting a tag removes it and every pair naming it, and nothing else. */
  lemma DeleteTagCascades(db: Db, id: int)
    requires Consistent(db)
    ensures var db' := DeleteTagDb(db, id);
      && Consistent(db')
      && db'.tags.Keys == db.tags.Keys - {id}
      && (forall p :: p in db'.taskTags <==> p in db.taskTags && p.1 != id)
      && db'.tasks == db.tasks
  {
  }

  // ---------------------------------------------------------------------------
  // The store object
  // ---------------------------------------------------------------------------

  /** The on-disk schema found when the store is opened. */
  datatype Schema = Schema(tables: set<string>, columns: seq<string>)

  /**
   * A database file written by any version of the program: when it has a tasks
   * table, that table has the base columns and no duplicates.
   */
  predicate KnownSchema(schema: Schema)
  {
    "tasks" in schema.tables ==>
      NoDuplicates(schema.columns) && forall c :: c in BaseColumns ==> c in schema.columns
  }

  /** The four column migrations, one after the other. */
  lemma MigrationSteps(start: seq<string>)
    ensures MigrateColumns(start, MigratedColumns)
            == AddColumnIfAbsent(AddColumnIfAbsent(AddColumnIfAbsent(AddColumnIfAbsent(
                 start, "parent_id"), "scheduled_on"), "due_date"), "description")
  {
    var m := MigratedColumns;
    assert m[1..][1..][1..][1..] == [];
  }

  /** A freshly opened store, migrated from any known schema, is consistent. */
  lemma OpenedConsistent(tables: set<string>, start: seq<string>)
    requires NoDuplicates(start) && forall c :: c in BaseColumns ==> c in start
    ensures AllTables <= tables ==>
      Consistent(Db(map[], map[], {}, tables, MigrateColumns(start, MigratedColumns), 1, 1))
  {
    MigrateColumnsGrows(start, MigratedColumns);
  }

  class TaskStore {
    var tasks: map<int, Row>
    var tags: map<int, TagRow>
    var taskTags: set<(int, int)>
    var tables: set<string>
    var columns: seq<string>
    var nextTaskId: int
    var nextTagId: int

    function State(): Db
      reads this
    {
      Db(tasks, tags, taskTags, tables, columns, nextTaskId, nextTagId)
    }

    ghost predicate Valid()
      reads this
    {
      Consistent(State())
    }

    /**
     * NewTaskStore: create the tasks table if absent, run the column migrations
     * in order, then create the tag tables if absent.
     */
    constructor Open(schema: Schema)
      requires KnownSchema(schema)
      ensures Valid()
      ensures tables == schema.tables + AllTables
      ensures columns == MigrateColumns(if "tasks" in schema.tables then schema.columns else BaseColumns,
                                        MigratedColumns)
      ensures tasks == map[] && tags == map[] && taskTags == {}
    {
      tasks, tags, taskTags := map[], map[], {};
      nextTaskId, nextTagId := 1, 1;
      tables, columns := schema.tables, schema.columns;
      new;
      RunMigrations();
      ghost var start := if "tasks" in schema.tables then schema.columns else BaseColumns;
      OpenedConsistent(tables, start);
      assert State() == Db(map[], map[], {}, tables, MigrateColumns(start, MigratedColumns), 1, 1);
    }

    /** The schema steps of start-up: the tasks table, the four columns, the tag tables. */
    method RunMigrations()
      modifies this`tables, this`columns
      ensures tables == old(tables) + AllTables
      ensures columns == MigrateColumns(if "tasks" in old(tables) then old(columns) else BaseColumns,
                                        MigratedColumns)
    {
      CreateTasksTable();
      ghost var start := columns;
      MigrateColumn("parent_id");
      MigrateColumn("scheduled_on");
      MigrateColumn("due_date");
      MigrateColumn("description");
      MigrateTags();
      MigrationSteps(start);
    }

    /** CREATE TABLE IF NOT EXISTS tasks (id, title, completed, created_at). */
    method CreateTasksTable()
      modifies this`tables, this`columns
      ensures tables == old(tables) + {"tasks"}
      ensures columns == if "tasks" in old(tables) then old(columns) else BaseColumns
    {
      if "tasks" !in tables {
        tables := tables + {"tasks"};
        columns := BaseColumns;
      }
    }

    /**
     * One column migration: scan the table's columns for `name` and add it
     * with ALTER TABLE only when no column has that name.
     */
    method MigrateColumn(name: string)
      modifies this`columns
      ensures columns == AddColumnIfAbsent(old(columns), name)
    {
      var has := false;
      var i := 0;
      while i < |columns|
        invariant 0 <= i <= |columns|
        invariant !has ==> name !in columns[..i]
        invariant has ==> name in columns
      {
        if columns[i] == name {
          has := true;
          break;
        }
        i := i + 1;
      }
      if !has {
        assert columns[..i] == columns;
        columns := columns + [name];
      }
    }

    /** CREATE TABLE IF NOT EXISTS tags; CREATE TABLE IF NOT EXISTS task_tags. */
    method MigrateTags()
      modifies this`tables
      ensures tables == old(tables) + {"tags", "task_tags"}
    {
      tables := tables + {"tags", "task_tags"};
    }

    /** Runs the migrations of the open path again, as every start-up does. */
    method Migrate()
      requires Valid()
      modifies this
      ensures State() == old(State())
    {
      ghost var start := columns;
      RunMigrations();
      MigrateColumnsPresent(start, MigratedColumns);
    }

    /**
     * Add inserts a task (root when `parent` is None) created at `now` and
     * reads it back. A parent that names no row violates the foreign key.
     */
    method Add(title: string, parent: Option<int>, now: int) returns (r: Result<Task, StoreError>)
      requires Valid()
      modifies this
      ensures Valid()
      ensures !CanAdd(old(State()), parent) ==> r == Err(ForeignKeyViolation) && State() == old(State())
      ensures CanAdd(old(State()), parent) ==>
        && State() == AddTask(old(State()), title, parent, now)
        && r == Ok(Task(old(nextTaskId), title, None, false, parent, now, None, None, []))
    {
      if parent.Some? && parent.value !in tasks {
        return Err(ForeignKeyViolation);
      }
      AddFresh(State(), title, parent, now);
      var id := nextTaskId;
      tasks := tasks[id := Row(title, 0, now, parent, None, None, None)];
      nextTaskId := nextTaskId + 1;
      r := GetByID(id);
      assert forall t :: !IsAssigned(State(), id, t);
      match r {
        case Ok(t) =>
          if t.tags != [] {
            assert t.tags[0] in t.tags;
          }
        case Err(_) =>
      }
    }

    /** GetByID: the row with its tags, or NotFound. */
    method GetByID(id: int) returns (r: Result<Task, StoreError>)
      requires Valid()
      ensures id !in tasks ==> r == Err(NotFound(id))
      ensures id in tasks ==> r.Ok? && r.value == Scan(id, tasks[id], r.value.tags)
                              && ListsTagsOf(State(), id, r.value.tags)
    {
      if id !in tasks {
        return Err(NotFound(id));
      }
      var ts := TagsForTask(id);
      r := Ok(Scan(id, tasks[id], ts));
    }

    /** ToggleComplete: flips the row's 0/1 flag; a missing id changes nothing. */
    method ToggleComplete(id: int)
      requires Valid()
      modifies this
      ensures Valid()
      ensures State() == ToggleCompleteDb(old(State()), id)
    {
      ToggleCompleteFlips(State(), id);
      if id in tasks {
        tasks := tasks[id := tasks[id].(completed := 1 - tasks[id].completed)];
      }
    }

    /** ToggleToday with `today` the current date: one conditional UPDATE. */
    method ToggleToday(id: int, today: string)
      requires Valid()
      modifies this
      ensures Valid()
      ensures State() == ToggleTodayDb(old(State()), id, today)
    {
      FieldUpdatesKeepConsistent(State(), id, today, None);
      if id in tasks {
        tasks := tasks[id := tasks[id].(scheduledOn := ToggledSchedule(tasks[id].scheduledOn, today))];
      }
    }

    /** SetDueDate: sets the due date, or clears it for None. */
    method SetDueDate(id: int, due: Option<string>)
      requires Valid()
      modifies this
      ensures Valid()
      ensures State() == SetDueDateDb(old(State()), id, due)
    {
      FieldUpdatesKeepConsistent(State(), id, "", due);
      if id in tasks {
        tasks := tasks[id := tasks[id].(dueDate := due)];
      }
    }

    /** UpdateDescription: sets the description, or clears it for None. */
    method UpdateDescription(id: int, description: Option<string>)
      requires Valid()
      modifies this
      ensures Valid()
      ensures State() == UpdateDescriptionDb(old(State()), id, description)
    {
      FieldUpdatesKeepConsistent(State(), id, "", description);
      if id in tasks {
        tasks := tasks[id := tasks[id].(description := description)];
      }
    }

    /** Delete: the row, its subtree and their tag pairs. */
    method Delete(id: int)
      requires Valid()
      modifies this
      ensures Valid()
      ensures State() == DeleteDb(old(State()), id)
    {
      DeleteCascades(State(), id);
      var gone := Subtree(Parents(tasks), id);
      tasks, taskTags :=
        map x | x in tasks && x !in gone :: tasks[x],
        set p | p in taskTags && p.0 !in gone;
    }

    /** HasChildren: whether some row has parent_id = id. */
    method HasChildren(id: int) returns (b: bool)
      requires Valid()
      ensures b <==> exists x :: x in tasks && tasks[x].parentId == Some(id)
    {
      var children := set x | x in tasks && tasks[x].parentId == Some(id);
      b := |children| > 0;
      if b {
        ghost var w := Pick(children);
        assert w in tasks && tasks[w].parentId == Some(id);
      } else {
        assert children == {};
        assert forall x :: x in tasks && tasks[x].parentId == Some(id) ==> x in children;
      }
    }

    /** CreateTag: inserts the tag; a name already in use violates UNIQUE. */
    method CreateTag(name: string, color: string) returns (r: Result<Tag, StoreError>)
      requires Valid()
      modifies this
      ensures Valid()
      ensures !CanCreateTag(old(State()), name) ==> r == Err(UniqueViolation(name)) && State() == old(State())
      ensures CanCreateTag(old(State()), name) ==>
        && State() == CreateTagDb(old(State()), name, color)
        && r == Ok(Tag(old(nextTagId), name, color))
    {
      if exists t :: t in tags && tags[t].name == name {
        return Err(UniqueViolation(name));
      }
      CreateTagFresh(State(), name, color);
      r := Ok(Tag(nextTagId, name, color));
      tags := tags[nextTagId := TagRow(name, color)];
      nextTagId := nextTagId + 1;
    }

    /** DeleteTag: the tag and every pair naming it. */
    method DeleteTag(id: int)
      requires Valid()
      modifies this
      ensures Valid()
      ensures State() == DeleteTagDb(old(State()), id)
    {
      DeleteTagCascades(State(), id);
      tags, taskTags :=
        map t | t in tags && t != id :: tags[t],
        set p | p in taskTags && p.1 != id;
    }

    /** AssignTag: INSERT OR IGNORE; the foreign keys still reject missing rows. */
    method AssignTag(task: int, tag: int) returns (err: Option<StoreError>)
      requires Valid()
      modifies this
      ensures Valid()
      ensures !CanAssign(old(State()), task, tag) ==> err == Some(ForeignKeyViolation) && State() == old(State())
      ensures CanAssign(old(State()), task, tag) ==> err == None && State() == AssignTagDb(old(State()), task, tag)
    {
      if task !in tasks || tag !in tags {
        return Some(ForeignKeyViolation);
      }
      PairUpdatesKeepConsistent(State(), task, tag);
      taskTags := taskTags + {(task, tag)};
      err := None;
    }

    /** UnassignTag: removes that pair, if present. */
    method UnassignTag(task: int, tag: int)
      requires Valid()
      modifies this
      ensures Valid()
      ensures State() == UnassignTagDb(old(State()), task, tag)
    {
      PairUpdatesKeepConsistent(State(), task, tag);
      taskTags := taskTags - {(task, tag)};
    }

    /** ListTags: every tag, ordered by name. */
    method ListTags() returns (r: seq<Tag>)
      requires Valid()
      ensures ListsAllTags(State(), r) && |r| == |tags|
    {
      r := [];
      var remaining := tags.Keys;
      while remaining != {}
        invariant remaining <= tags.Keys
        invariant ByName(r)
        invariant forall t :: t in r <==> t.id in tags && t.id !in remaining && t == TagOf(State(), t.id)
        invariant |r| + |remaining| == |tags|
        decreases remaining
      {
        ghost var w := Pick(remaining);
        var id :| id in remaining;
        var t := TagOf(State(), id);
        InsertByNameSorted(r, t);
        r := InsertByName(r, t);
        remaining := remaining - {id};
      }
      assert tags.Keys - remaining == tags.Keys;
    }

    /** TagsForTask: the tags joined to the task, ordered by name. */
    method TagsForTask(task: int) returns (r: seq<Tag>)
      requires Valid()
      ensures ListsTagsOf(State(), task, r)
    {
      var all := ListTags();
      r := [];
      for i := 0 to |all|
        invariant r == TagsAmong(all[..i], taskTags, task)
      {
        assert all[..i + 1] == all[..i] + [all[i]];
        if (task, all[i].id) in taskTags {
          r := r + [all[i]];
        }
      }
      assert all[..|all|] == all;
    }

    /**
     * List: every row ordered by created_at ascending, each with its tags.
     * Rows created in the same second may come in either order.
     */
    method List() returns (r: seq<Task>)
      requires Valid()
      ensures |r| == |tasks|
      ensures forall i, j :: 0 <= i < j < |r| ==> r[i].id != r[j].id
      ensures forall i :: 0 <= i < |r| ==> r[i].id in tasks
      ensures forall id :: id in tasks ==> exists i :: 0 <= i < |r| && r[i].id == id
      ensures forall i :: 0 <= i < |r| ==>
        r[i] == Scan(r[i].id, tasks[r[i].id], r[i].tags) && ListsTagsOf(State(), r[i].id, r[i].tags)
      ensures forall i, j :: 0 <= i < j < |r| ==> r[i].createdAt <= r[j].createdAt
    {
      var ids := SortByCreation(map x | x in tasks :: tasks[x].createdAt);
      DistinctIds(ids, tasks.Keys);
      var rows := ScanRows(ids);
      r := LoadTagsForTasks(rows);
      ListRows(ids, rows, r);
      ListIds(ids, r);
    }

    /** scanTask over the ids in order, with no tags yet. */
    method ScanRows(ids: seq<int>) returns (rows: seq<Task>)
      requires forall i :: 0 <= i < |ids| ==> ids[i] in tasks
      ensures |rows| == |ids|
      ensures forall i :: 0 <= i < |ids| ==> rows[i] == Scan(ids[i], tasks[ids[i]], [])
    {
      rows := [];
      for k := 0 to |ids|
        invariant |rows| == k
        invariant forall i :: 0 <= i < k ==> rows[i] == Scan(ids[i], tasks[ids[i]], [])
      {
        rows := rows + [Scan(ids[k], tasks[ids[k]], [])];
      }
    }

    /** The ids List reads back: every row once, in creation order. */
    lemma ListIds(ids: seq<int>, r: seq<Task>)
      requires ByCreation(map x | x in tasks :: tasks[x].createdAt, ids)
      requires multiset(ids) == multiset(tasks.Keys)
      requires forall i, j :: 0 <= i < j < |ids| ==> ids[i] != ids[j]
      requires |ids| == |tasks.Keys| && |r| == |ids|
      requires forall i :: 0 <= i < |ids| ==> ids[i] in tasks && r[i].id == ids[i]
      requires forall i :: 0 <= i < |ids| ==> r[i].createdAt == tasks[ids[i]].createdAt
      ensures |r| == |tasks|
      ensures forall i, j :: 0 <= i < j < |r| ==> r[i].id != r[j].id
      ensures forall id :: id in tasks ==> exists i :: 0 <= i < |r| && r[i].id == id
      ensures forall i, j :: 0 <= i < j < |r| ==> r[i].createdAt <= r[j].createdAt
    {
      assert |tasks| == |tasks.Keys|;
      forall id | id in tasks ensures exists i :: 0 <= i < |r| && r[i].id == id {
        assert id in multiset(ids);
        var i :| 0 <= i < |ids| && ids[i] == id;
        assert r[i].id == id;
      }
    }

    /** Each task List reads back is its row with exactly its tags. */
    lemma ListRows(ids: seq<int>, rows: seq<Task>, r: seq<Task>)
      requires forall i :: 0 <= i < |ids| ==> ids[i] in tasks
      requires |rows| == |ids| && forall i :: 0 <= i < |ids| ==> rows[i] == Scan(ids[i], tasks[ids[i]], [])
      requires |r| == |rows|
      requires forall i :: 0 <= i < |r| ==> r[i] == rows[i].(tags := r[i].tags)
      requires forall i :: 0 <= i < |r| ==>
        if exists t :: IsAssigned(State(), rows[i].id, t) then ListsTagsOf(State(), rows[i].id, r[i].tags)
        else r[i].tags == rows[i].tags
      ensures forall i :: 0 <= i < |r| ==> r[i].id == ids[i] && r[i].createdAt == tasks[ids[i]].createdAt
      ensures forall i :: 0 <= i < |r| ==>
        r[i] == Scan(r[i].id, tasks[r[i].id], r[i].tags) && ListsTagsOf(State(), r[i].id, r[i].tags)
    {
      forall i | 0 <= i < |r|
        ensures r[i].id == ids[i] && r[i] == Scan(r[i].id, tasks[r[i].id], r[i].tags)
        ensures ListsTagsOf(State(), r[i].id, r[i].tags)
      {
        assert r[i] == Scan(ids[i], tasks[ids[i]], []).(tags := r[i].tags);
        if !exists t :: IsAssigned(State(), rows[i].id, t) {
          assert r[i].tags == [];
        }
      }
    }

    /**
     * loadTagsForTasks: one join over task_tags and tags ordered by name,
     * grouped by task id, then written into each task that has any.
     */
    method LoadTagsForTasks(ts: seq<Task>) returns (r: seq<Task>)
      requires Valid()
      ensures |r| == |ts|
      ensures forall i :: 0 <= i < |r| ==> r[i] == ts[i].(tags := r[i].tags)
      ensures forall i :: 0 <= i < |r| ==>
        if exists t :: IsAssigned(State(), ts[i].id, t) then ListsTagsOf(State(), ts[i].id, r[i].tags)
        else r[i].tags == ts[i].tags
    {
      if |ts| == 0 {
        return ts;
      }
      var all := ListTags();
      var tagMap := GroupTags(all);
      r := [];
      for k := 0 to |ts|
        invariant |r| == k
        invariant forall i :: 0 <= i < k ==>
          r[i] == ts[i].(tags := if ts[i].id in tagMap then tagMap[ts[i].id] else ts[i].tags)
      {
        var t := ts[k];
        if t.id in tagMap {
          t := t.(tags := tagMap[t.id]);
        }
        r := r + [t];
      }
      forall i | 0 <= i < |r|
        ensures if exists t :: IsAssigned(State(), ts[i].id, t) then ListsTagsOf(State(), ts[i].id, r[i].tags)
                else r[i].tags == ts[i].tags
      {
        JoinedTags(all, ts[i].id);
      }
    }

    /** What the join yields for one task, with `all` every tag in name order. */
    lemma JoinedTags(all: seq<Tag>, x: int)
      requires Valid() && ListsAllTags(State(), all)
      ensures (exists t :: IsAssigned(State(), x, t)) <==> TagsAmong(all, taskTags, x) != []
      ensures ListsTagsOf(State(), x, TagsAmong(all, taskTags, x))
    {
      var s := TagsAmong(all, taskTags, x);
      if exists t :: IsAssigned(State(), x, t) {
        var t :| IsAssigned(State(), x, t);
        assert t in s;
      } else if s != [] {
        assert s[0] in s && s[0] in all;
        assert IsAssigned(State(), x, s[0]);
      }
    }

    /** The join rows grouped by task id: each task holding a tag maps to its tags in name order. */
    method GroupTags(all: seq<Tag>) returns (tagMap: map<int, seq<Tag>>)
      ensures forall x :: x in tagMap <==> TagsAmong(all, taskTags, x) != []
      ensures forall x :: x in tagMap ==> tagMap[x] == TagsAmong(all, taskTags, x)
    {
      tagMap := map[];
      for i := 0 to |all|
        invariant forall x :: x in tagMap <==> TagsAmong(all[..i], taskTags, x) != []
        invariant forall x :: x in tagMap ==> tagMap[x] == TagsAmong(all[..i], taskTags, x)
      {
        assert all[..i + 1] == all[..i] + [all[i]];
        tagMap := AddHolders(tagMap, all[..i], all[i]);
      }
      assert all[..|all|] == all;
    }

    /** Appends the join rows of one tag to the lists of the tasks that hold it. */
    method AddHolders(tagMap: map<int, seq<Tag>>, ghost done: seq<Tag>, tag: Tag)
      returns (m: map<int, seq<Tag>>)
      requires forall x :: x in tagMap <==> TagsAmong(done, taskTags, x) != []
      requires forall x :: x in tagMap ==> tagMap[x] == TagsAmong(done, taskTags, x)
      ensures forall x :: x in m <==> TagsAmong(done + [tag], taskTags, x) != []
      ensures forall x :: x in m ==> m[x] == TagsAmong(done + [tag], taskTags, x)
    {
      assert (done + [tag])[..|done|] == done;
      m := tagMap;
      var holders := set p | p in taskTags && p.1 == tag.id :: p.0;
      ghost var todo := holders;
      while holders != {}
        invariant holders <= todo
        invariant forall x :: x in m <==> TagsAmong(done, taskTags, x) != [] || x in todo - holders
        invariant forall x :: x in m ==>
          m[x] == TagsAmong(done, taskTags, x) + (if x in todo - holders then [tag] else [])
        decreases holders
      {
        ghost var w := Pick(holders);
        var x :| x in holders;
        var before := if x in m then m[x] else [];
        m := m[x := before + [tag]];
        holders := holders - {x};
      }
      forall x ensures (x in todo) == ((x, tag.id) in taskTags) {
        if (x, tag.id) in taskTags {
          assert (x, tag.id).0 == x;
        }
      }
    }
  }
}
