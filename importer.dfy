/**
 * The YAML importer: a forest of already-parsed task nodes is written into the
 * store depth first, each child under the task just created for its parent
 * node, with descriptions, due dates and tags attached on the way. The import
 * stops at the first error and keeps whatever it had already created.
 */
module Importer {
  import opened Wrappers
  import opened Text
  import opened Model
  import opened Store

  /** One node of the YAML input; an empty string is an absent field. */
  datatype YamlTask = YamlTask(
    title: string,
    description: string,
    dueDate: string,
    tags: seq<string>,
    children: seq<YamlTask>)

  datatype ImportError =
    | NoTasks                                 // the top-level list is empty
    | TitleRequired                           // a node has an empty title
    | AddFailed(title: string, cause: StoreError)

  // ---------------------------------------------------------------------------
  // What an import should create
  // ---------------------------------------------------------------------------

  /** The number of nodes in a tree. */
  function Size(yt: YamlTask): (r: nat)
    ensures r >= 1
    decreases yt, 1
  {
    1 + SizeAll(yt.children)
  }

  /** The number of nodes in a forest. */
  function SizeAll(ts: seq<YamlTask>): (r: nat)
    ensures r >= |ts|
    decreases ts, 0
  {
    if |ts| == 0 then 0 else SizeAll(ts[..|ts| - 1]) + Size(ts[|ts| - 1])
  }

  lemma SizeAllStep(ts: seq<YamlTask>, i: nat)
    requires i < |ts|
    ensures SizeAll(ts[..i + 1]) == SizeAll(ts[..i]) + Size(ts[i])
  {
    assert ts[..i + 1][..i] == ts[..i];
  }

  /** The pre-order id of child `j` of the node at `id`: after the node and the subtrees before it. */
  function ChildId(yt: YamlTask, id: int, j: nat): (r: int)
    requires j <= |yt.children|
    ensures r > id
  {
    id + 1 + SizeAll(yt.children[..j])
  }

  /** Every node of the tree has a title. */
  ghost predicate Titled(yt: YamlTask)
    decreases yt
  {
    yt.title != "" && forall i :: 0 <= i < |yt.children| ==> Titled(yt.children[i])
  }

  /** An empty string stands for NULL. */
  function NonEmpty(s: string): (r: Option<string>)
    ensures r.None? <==> s == ""
  {
    if s == "" then None else Some(s)
  }

  /** The row a node becomes: open, created now, with its description and due date if given. */
  function RowOf(yt: YamlTask, parent: Option<int>, now: int): Row
  {
    Row(yt.title, 0, now, parent, None, NonEmpty(yt.dueDate), NonEmpty(yt.description))
  }

  /** Every name in `names` is a tag assigned to `task`. */
  ghost predicate TaggedWith(db: Db, task: int, names: seq<string>)
  {
    forall n :: n in names ==> exists t :: t in db.tags && db.tags[t].name == n && (task, t) in db.taskTags
  }

  /**
   * The tree was created with its root at id `id` under `parent`, its nodes
   * numbered in pre-order: each child's row names the row of its parent node.
   */
  ghost predicate Created(db: Db, yt: YamlTask, parent: Option<int>, id: int, now: int)
    decreases yt
  {
    && id in db.tasks
    && db.tasks[id] == RowOf(yt, parent, now)
    && TaggedWith(db, id, yt.tags)
    && forall i :: 0 <= i < |yt.children| ==>
      Created(db, yt.children[i], Some(id), ChildId(yt, id, i), now)
  }

  /**
   * `b` extends `a` by new tasks only: no row, tag or pair of `a` is removed
   * or altered, and every row and pair added concerns an id drawn from the
   * task counter between the two states.
   */
  ghost predicate Grows(a: Db, b: Db)
  {
    && a.nextTaskId <= b.nextTaskId
    && (forall id :: id in a.tasks ==> id in b.tasks && b.tasks[id] == a.tasks[id])
    && (forall id :: id in b.tasks ==> id in a.tasks || a.nextTaskId <= id < b.nextTaskId)
    && (forall id :: a.nextTaskId <= id < b.nextTaskId ==> id in b.tasks)
    && (forall id :: id in a.tags ==> id in b.tags && b.tags[id] == a.tags[id])
    && a.taskTags <= b.taskTags
    && (forall p :: p in b.taskTags && p !in a.taskTags ==> a.nextTaskId <= p.0 < b.nextTaskId)
    && a.tables == b.tables && a.columns == b.columns
  }

  lemma GrowsTrans(a: Db, b: Db, c: Db)
    requires Grows(a, b) && Grows(b, c)
    ensures Grows(a, c)
  {
  }

  /** A parent that existed still exists. */
  lemma GrowsCanAdd(a: Db, b: Db, parent: Option<int>)
    requires Grows(a, b) && CanAdd(a, parent)
    ensures CanAdd(b, parent)
  {
    if parent.Some? {
      assert forall id :: id in a.tasks ==> id in b.tasks;
      assert parent.value in b.tasks;
    }
  }

  /** What was created stays created as the database grows. */
  lemma {:induction false} CreatedMono(a: Db, b: Db, yt: YamlTask, parent: Option<int>, id: int, now: int)
    requires Grows(a, b) && Created(a, yt, parent, id, now)
    ensures Created(b, yt, parent, id, now)
    decreases yt
  {
    forall i | 0 <= i < |yt.children|
      ensures Created(b, yt.children[i], Some(id), ChildId(yt, id, i), now)
    {
      CreatedMono(a, b, yt.children[i], Some(id), ChildId(yt, id, i), now);
    }
  }

  // ---------------------------------------------------------------------------
  // assignTags
  // ---------------------------------------------------------------------------

  /** Some tag row carries the name. */
  predicate NameInUse(tags: map<int, TagRow>, name: string)
  {
    exists id :: id in tags && tags[id].name == name
  }

  /** The existing tags by name, as ListTags returns them. */
  method TagMap(s: TaskStore) returns (tagMap: map<string, int>)
    requires s.Valid()
    ensures forall n :: n in tagMap ==> tagMap[n] in s.tags && s.tags[tagMap[n]].name == n
    ensures forall id :: id in s.tags ==> s.tags[id].name in tagMap
    ensures |tagMap| == |s.tags|
  {
    var existing := s.ListTags();
    tagMap := map[];
    for k := 0 to |existing|
      invariant forall n :: n in tagMap ==> tagMap[n] in s.tags && s.tags[tagMap[n]].name == n
      invariant forall j :: 0 <= j < k ==> existing[j].name in tagMap
      invariant forall n :: n in tagMap ==> exists j :: 0 <= j < k && existing[j].name == n
      invariant |tagMap| == k
    {
      assert existing[k] in existing;
      forall j | 0 <= j < k ensures existing[j].name != existing[k].name {
        LessIrreflexive(existing[k].name);
      }
      tagMap := tagMap[existing[k].name := existing[k].id];
    }
    forall id | id in s.tags ensures s.tags[id].name in tagMap {
      assert TagOf(s.State(), id) in existing;
    }
  }

  /** A tag created by the loop: for a listed name no tag had, in palette order. */
  ghost predicate NewTag(a: Db, b: Db, id: int, names: seq<string>)
    requires id in b.tags
  {
    && b.tags[id].name in names && !NameInUse(a.tags, b.tags[id].name)
    && b.tags[id].color == TagPalette[(|a.tags| + (id - a.nextTagId)) % |TagPalette|]
  }

  /**
   * `b` is `a` after assigning `names` to `task`: rows untouched, old tags
   * kept, new tags only for names no tag had, and exactly the pairs of `task`
   * with the tags so named added.
   */
  ghost predicate TagsAssigned(a: Db, b: Db, task: int, names: seq<string>)
  {
    && b.tasks == a.tasks && b.nextTaskId == a.nextTaskId
    && b.tables == a.tables && b.columns == a.columns
    && a.nextTagId <= b.nextTagId
    && (forall id :: id in a.tags ==> id in b.tags && b.tags[id] == a.tags[id])
    && (forall id :: id in b.tags <==> id in a.tags || a.nextTagId <= id < b.nextTagId)
    && (forall id :: a.nextTagId <= id < b.nextTagId ==> NewTag(a, b, id, names))
    && (forall p :: p in b.taskTags <==>
         p in a.taskTags || (p.0 == task && p.1 in b.tags && b.tags[p.1].name in names))
  }

  /** The loop's map names exactly the tags of `b`, one entry per tag. */
  ghost predicate MapsTags(a: Db, b: Db, tagMap: map<string, int>)
  {
    && (forall n :: n in tagMap ==> tagMap[n] in b.tags && b.tags[tagMap[n]].name == n)
    && (forall id :: id in b.tags ==> b.tags[id].name in tagMap)
    && |tagMap| == |a.tags| + (b.nextTagId - a.nextTagId)
  }

  lemma Snoc<X>(s: seq<X>, i: nat)
    requires i < |s|
    ensures s[..i + 1] == s[..i] + [s[i]]
  {
  }

  /**
   * One turn of the tag loop, from `b` to `c`: the name is looked up in the
   * map; if absent, a tag coloured by the map's size is created under the
   * next tag id and entered in the map; the pair is then assigned.
   */
  ghost predicate AssignedOne(b: Db, c: Db, task: int, name: string,
                              tagMap: map<string, int>, tagMap': map<string, int>)
  {
    && c.tasks == b.tasks && c.nextTaskId == b.nextTaskId && c.tables == b.tables && c.columns == b.columns
    && (name in tagMap ==> c.tags == b.tags && c.nextTagId == b.nextTagId && tagMap' == tagMap)
    && (name !in tagMap ==>
         && c.tags == b.tags[b.nextTagId := TagRow(name, TagPalette[|tagMap| % |TagPalette|])]
         && c.nextTagId == b.nextTagId + 1
         && tagMap' == tagMap[name := b.nextTagId])
    && name in tagMap'
    && c.taskTags == b.taskTags + {(task, tagMap'[name])}
  }

  /** The tag half of a turn: the new tag, if any, is for a fresh name, in palette order. */
  lemma StepTags(a: Db, b: Db, c: Db, task: int, done: seq<string>, name: string,
                 tagMap: map<string, int>, tagMap': map<string, int>)
    requires TagsAssigned(a, b, task, done) && MapsTags(a, b, tagMap)
    requires AssignedOne(b, c, task, name, tagMap, tagMap')
    requires forall id :: id in b.tags ==> id < b.nextTagId
    ensures a.nextTagId <= c.nextTagId
    ensures forall id :: id in a.tags ==> id in c.tags && c.tags[id] == a.tags[id]
    ensures forall id :: id in c.tags <==> id in a.tags || a.nextTagId <= id < c.nextTagId
    ensures forall id :: a.nextTagId <= id < c.nextTagId ==> NewTag(a, c, id, done + [name])
    ensures MapsTags(a, c, tagMap')
    ensures forall id :: id in b.tags ==> id in c.tags && c.tags[id] == b.tags[id]
  {
    if name in tagMap {
      StepKnownTag(a, b, c, task, done, name, tagMap, tagMap');
    } else {
      StepFreshTag(a, b, c, task, done, name, tagMap, tagMap');
    }
  }

  /** A name already in the map: no tag is created. */
  lemma StepKnownTag(a: Db, b: Db, c: Db, task: int, done: seq<string>, name: string,
                     tagMap: map<string, int>, tagMap': map<string, int>)
    requires name in tagMap
    requires TagsAssigned(a, b, task, done) && MapsTags(a, b, tagMap)
    requires AssignedOne(b, c, task, name, tagMap, tagMap')
    requires forall id :: id in b.tags ==> id < b.nextTagId
    ensures a.nextTagId <= c.nextTagId
    ensures forall id :: id in a.tags ==> id in c.tags && c.tags[id] == a.tags[id]
    ensures forall id :: id in c.tags <==> id in a.tags || a.nextTagId <= id < c.nextTagId
    ensures forall id :: a.nextTagId <= id < c.nextTagId ==> NewTag(a, c, id, done + [name])
    ensures MapsTags(a, c, tagMap')
    ensures forall id :: id in b.tags ==> id in c.tags && c.tags[id] == b.tags[id]
  {
    forall id | a.nextTagId <= id < c.nextTagId ensures NewTag(a, c, id, done + [name]) {
      assert NewTag(a, b, id, done);
    }
  }

  /** A name not yet in the map: a tag is created for it under the next id. */
  lemma StepFreshTag(a: Db, b: Db, c: Db, task: int, done: seq<string>, name: string,
                     tagMap: map<string, int>, tagMap': map<string, int>)
    requires name !in tagMap
    requires TagsAssigned(a, b, task, done) && MapsTags(a, b, tagMap)
    requires AssignedOne(b, c, task, name, tagMap, tagMap')
    requires forall id :: id in b.tags ==> id < b.nextTagId
    ensures a.nextTagId <= c.nextTagId
    ensures forall id :: id in a.tags ==> id in c.tags && c.tags[id] == a.tags[id]
    ensures forall id :: id in c.tags <==> id in a.tags || a.nextTagId <= id < c.nextTagId
    ensures forall id :: a.nextTagId <= id < c.nextTagId ==> NewTag(a, c, id, done + [name])
    ensures MapsTags(a, c, tagMap')
    ensures forall id :: id in b.tags ==> id in c.tags && c.tags[id] == b.tags[id]
  {
    var row := TagRow(name, TagPalette[|tagMap| % |TagPalette|]);
    assert b.nextTagId !in b.tags;
    forall id | id in a.tags ensures a.tags[id].name != name {
      assert id in b.tags && b.tags[id] == a.tags[id];
    }
    FreshMaps(a, b, c, name, row, tagMap, tagMap');
    FreshNewTags(a, b, c, done, name, tagMap);
  }

  /** The map keeps naming exactly the tags once the fresh one is entered. */
  lemma FreshMaps(a: Db, b: Db, c: Db, name: string, row: TagRow, tagMap: map<string, int>, tagMap': map<string, int>)
    requires MapsTags(a, b, tagMap) && name !in tagMap && b.nextTagId !in b.tags
    requires c.tags == b.tags[b.nextTagId := row] && row.name == name && c.nextTagId == b.nextTagId + 1
    requires tagMap' == tagMap[name := b.nextTagId]
    ensures MapsTags(a, c, tagMap')
  {
    assert |tagMap'| == |tagMap| + 1;
  }

  /** Every tag created so far, the fresh one included, is a new tag. */
  lemma FreshNewTags(a: Db, b: Db, c: Db, done: seq<string>, name: string, tagMap: map<string, int>)
    requires forall id :: a.nextTagId <= id < b.nextTagId ==> id in b.tags && NewTag(a, b, id, done)
    requires |tagMap| == |a.tags| + (b.nextTagId - a.nextTagId)
    requires b.nextTagId !in b.tags && !NameInUse(a.tags, name)
    requires c.tags == b.tags[b.nextTagId := TagRow(name, TagPalette[|tagMap| % |TagPalette|])]
    requires c.nextTagId == b.nextTagId + 1
    ensures forall id :: a.nextTagId <= id < c.nextTagId ==> id in c.tags && NewTag(a, c, id, done + [name])
  {
    forall id | a.nextTagId <= id < c.nextTagId ensures id in c.tags && NewTag(a, c, id, done + [name]) {
      if id < b.nextTagId {
        NewTagKept(a, b, c, id, done, name);
      } else {
        NewTagFresh(a, c, id, done + [name], name);
      }
    }
  }

  /** A tag created earlier in the loop stays a new tag. */
  lemma NewTagKept(a: Db, b: Db, c: Db, id: int, done: seq<string>, name: string)
    requires id in b.tags && NewTag(a, b, id, done)
    requires id in c.tags && c.tags[id] == b.tags[id]
    ensures NewTag(a, c, id, done + [name])
  {
    assert b.tags[id].name in done + [name];
  }

  /** The tag created for a fresh name in this turn is a new tag. */
  lemma NewTagFresh(a: Db, c: Db, id: int, names: seq<string>, name: string)
    requires id in c.tags && c.tags[id] == TagRow(name, TagPalette[(|a.tags| + (id - a.nextTagId)) % |TagPalette|])
    requires name in names && !NameInUse(a.tags, name)
    ensures NewTag(a, c, id, names)
  {
  }


  /** The pair half of a turn: exactly the pair of the task with the tag so named is added. */
  lemma StepPairs(a: Db, b: Db, c: Db, task: int, done: seq<string>, name: string,
                  tagMap: map<string, int>, tagMap': map<string, int>)
    requires TagsAssigned(a, b, task, done)
    requires AssignedOne(b, c, task, name, tagMap, tagMap')
    requires forall id :: id in b.tags ==> id in c.tags && c.tags[id] == b.tags[id]
    requires forall n :: n in tagMap' ==> tagMap'[n] in c.tags && c.tags[tagMap'[n]].name == n
    requires forall x, y :: x in c.tags && y in c.tags && c.tags[x].name == c.tags[y].name ==> x == y
    ensures forall p :: p in c.taskTags <==>
      p in a.taskTags || (p.0 == task && p.1 in c.tags && c.tags[p.1].name in done + [name])
  {
    forall p ensures p in c.taskTags <==>
      p in a.taskTags || (p.0 == task && p.1 in c.tags && c.tags[p.1].name in done + [name])
    {
      if p.0 == task && p.1 in c.tags && c.tags[p.1].name == name {
        assert p.1 == tagMap'[name];
      }
    }
  }

  /** Two facts of a consistent database the tag loop relies on. */
  lemma TagIds(db: Db)
    requires Consistent(db)
    ensures forall id :: id in db.tags ==> id < db.nextTagId
    ensures forall x, y :: x in db.tags && y in db.tags && db.tags[x].name == db.tags[y].name ==> x == y
  {
  }

  /** A whole turn of the tag loop keeps the loop's invariant. */
  lemma StepAssign(a: Db, b: Db, c: Db, task: int, done: seq<string>, name: string,
                   tagMap: map<string, int>, tagMap': map<string, int>)
    requires forall id :: id in b.tags ==> id < b.nextTagId
    requires forall x, y :: x in c.tags && y in c.tags && c.tags[x].name == c.tags[y].name ==> x == y
    requires TagsAssigned(a, b, task, done) && MapsTags(a, b, tagMap)
    requires AssignedOne(b, c, task, name, tagMap, tagMap')
    ensures TagsAssigned(a, c, task, done + [name]) && MapsTags(a, c, tagMap')
    ensures forall n :: n in tagMap ==> n in tagMap'
  {
    StepTags(a, b, c, task, done, name, tagMap, tagMap');
    StepPairs(a, b, c, task, done, name, tagMap, tagMap');
  }

  /**
   * assignTags: a name some tag already carries reuses that tag; any other
   * name gets a new tag coloured palette[len(tagMap) % 8], the map growing
   * with each tag created; every name is then assigned to the task.
   */
  method AssignTags(s: TaskStore, task: int, names: seq<string>)
    requires s.Valid() && task in s.tasks
    modifies s
    ensures s.Valid()
    ensures TagsAssigned(old(s.State()), s.State(), task, names)
    ensures TaggedWith(s.State(), task, names)
  {
    var tagMap := TagMap(s);
    for i := 0 to |names|
      invariant s.Valid() && task in s.tasks
      invariant TagsAssigned(old(s.State()), s.State(), task, names[..i])
      invariant MapsTags(old(s.State()), s.State(), tagMap)
      invariant forall n :: n in names[..i] ==> n in tagMap
    {
      ghost var before := s.State();
      ghost var mapBefore := tagMap;
      tagMap := AssignOne(s, task, names[i], tagMap);
      Snoc(names, i);
      TagIds(before);
      TagIds(s.State());
      StepAssign(old(s.State()), before, s.State(), task, names[..i], names[i], mapBefore, tagMap);
    }
    assert names[..|names|] == names;
    MapTagged(old(s.State()), s.State(), task, names, tagMap);
  }

  /** With every name in the map, every name is assigned. */
  lemma MapTagged(a: Db, b: Db, task: int, names: seq<string>, tagMap: map<string, int>)
    requires TagsAssigned(a, b, task, names) && MapsTags(a, b, tagMap)
    requires forall n :: n in names ==> n in tagMap
    ensures TaggedWith(b, task, names)
  {
    forall n | n in names
      ensures exists t :: t in b.tags && b.tags[t].name == n && (task, t) in b.taskTags
    {
      var t := tagMap[n];
      assert (task, t) in b.taskTags;
    }
  }
  /** One turn of the tag loop: look the name up, create the tag if needed, assign it. */
  method AssignOne(s: TaskStore, task: int, name: string, tagMap: map<string, int>)
    returns (tagMap': map<string, int>)
    requires s.Valid() && task in s.tasks
    requires forall n :: n in tagMap ==> tagMap[n] in s.tags && s.tags[tagMap[n]].name == n
    requires forall id :: id in s.tags ==> s.tags[id].name in tagMap
    modifies s
    ensures s.Valid() && task in s.tasks
    ensures AssignedOne(old(s.State()), s.State(), task, name, tagMap, tagMap')
  {
    var tagId: int;
    tagMap' := tagMap;
    if name in tagMap {
      tagId := tagMap[name];
    } else {
      var color := TagPalette[|tagMap| % |TagPalette|];
      var r := s.CreateTag(name, color);
      tagId := r.value.id;
      tagMap' := tagMap[name := tagId];
    }
    var e := s.AssignTag(task, tagId);
  }

  // ---------------------------------------------------------------------------
  // importTask and Import
  // ---------------------------------------------------------------------------

  /**
   * The head of importTask, from `a` to `b`: the node's own row was added under
   * the next task id with its description and due date, and its tags assigned.
   */
  ghost predicate HeadAdded(a: Db, b: Db, yt: YamlTask, parent: Option<int>, now: int)
  {
    && Grows(a, b)
    && a.nextTaskId in b.tasks
    && b.tasks[a.nextTaskId] == RowOf(yt, parent, now)
    && TaggedWith(b, a.nextTaskId, yt.tags)
  }

  /** Adding the row, then the optional description and due date. */
  lemma HeadRow(a: Db, yt: YamlTask, parent: Option<int>, now: int)
    requires Consistent(a)
    ensures var id := a.nextTaskId;
      var added := AddTask(a, yt.title, parent, now);
      var described := if yt.description != "" then UpdateDescriptionDb(added, id, Some(yt.description)) else added;
      var due := if yt.dueDate != "" then SetDueDateDb(described, id, Some(yt.dueDate)) else described;
      && Grows(a, due) && due.nextTaskId == id + 1
      && id in due.tasks && due.tasks[id] == RowOf(yt, parent, now)
      && due.tags == a.tags && due.taskTags == a.taskTags
  {
  }

  /** Assigning the tags of the new task keeps the growth and adds the tagging. */
  lemma HeadTags(a: Db, b: Db, c: Db, yt: YamlTask, parent: Option<int>, now: int)
    requires Consistent(a)
    requires Grows(a, b) && b.nextTaskId == a.nextTaskId + 1
    requires a.nextTaskId in b.tasks && b.tasks[a.nextTaskId] == RowOf(yt, parent, now)
    requires b.tags == a.tags && b.taskTags == a.taskTags
    requires TagsAssigned(b, c, a.nextTaskId, yt.tags) && TaggedWith(c, a.nextTaskId, yt.tags)
    ensures HeadAdded(a, c, yt, parent, now) && c.nextTaskId == a.nextTaskId + 1
  {
  }

  /** The head stays added as the database grows. */
  lemma HeadMono(a: Db, b: Db, c: Db, yt: YamlTask, parent: Option<int>, now: int)
    requires HeadAdded(a, b, yt, parent, now) && Grows(b, c)
    ensures HeadAdded(a, c, yt, parent, now)
  {
    GrowsTrans(a, b, c);
  }

  /** The first `i` children of the node at `id` were created, each at its pre-order id. */
  ghost predicate ChildrenCreated(db: Db, yt: YamlTask, id: int, i: nat, now: int)
    requires i <= |yt.children|
  {
    forall j :: 0 <= j < i ==> Created(db, yt.children[j], Some(id), ChildId(yt, id, j), now)
  }

  /** The first `i` children are titled throughout. */
  ghost predicate ChildrenTitled(yt: YamlTask, i: nat)
    requires i <= |yt.children|
  {
    forall j :: 0 <= j < i ==> Titled(yt.children[j])
  }

  lemma TitledStep(yt: YamlTask, i: nat)
    requires i < |yt.children| && ChildrenTitled(yt, i) && Titled(yt.children[i])
    ensures ChildrenTitled(yt, i + 1)
  {
  }

  /**
   * The state of the children loop after `i` children: the head is still
   * added, the database only grew from `origin`, and the first `i` children
   * are titled and were created one after the other, `count` nodes in all.
   */
  ghost predicate ChildrenDone(start: Db, origin: Db, db: Db, yt: YamlTask, parent: Option<int>,
                               i: nat, count: nat, now: int)
  {
    && i <= |yt.children|
    && HeadAdded(start, db, yt, parent, now) && Grows(origin, db)
    && count == SizeAll(yt.children[..i])
    && db.nextTaskId == ChildId(yt, start.nextTaskId, i)
    && ChildrenTitled(yt, i)
    && ChildrenCreated(db, yt, start.nextTaskId, i, now)
  }

  /** One more child imported: the head and the earlier children survive, the counter moves on. */
  lemma ChildStep(start: Db, origin: Db, before: Db, after: Db, yt: YamlTask, parent: Option<int>,
                  i: nat, count: nat, n: nat, now: int)
    requires i < |yt.children|
    requires ChildrenDone(start, origin, before, yt, parent, i, count, now) && Grows(before, after)
    requires Titled(yt.children[i]) && n == Size(yt.children[i])
    requires after.nextTaskId == before.nextTaskId + n
    requires Created(after, yt.children[i], Some(start.nextTaskId), before.nextTaskId, now)
    ensures ChildrenDone(start, origin, after, yt, parent, i + 1, count + n, now)
  {
    GrowsTrans(origin, before, after);
    HeadMono(start, before, after, yt, parent, now);
    SizeAllStep(yt.children, i);
    var id := start.nextTaskId;
    forall j | 0 <= j < i + 1
      ensures Created(after, yt.children[j], Some(id), ChildId(yt, id, j), now)
    {
      if j < i {
        CreatedMono(before, after, yt.children[j], Some(id), ChildId(yt, id, j), now);
      } else {
        assert ChildId(yt, id, j) == before.nextTaskId;
      }
    }
    TitledStep(yt, i);
  }

  /** With the head added and every child created, the whole tree was created. */
  lemma AllChildren(start: Db, db: Db, yt: YamlTask, parent: Option<int>, now: int)
    requires HeadAdded(start, db, yt, parent, now)
    requires ChildrenCreated(db, yt, start.nextTaskId, |yt.children|, now)
    requires db.nextTaskId == ChildId(yt, start.nextTaskId, |yt.children|)
    ensures Created(db, yt, parent, start.nextTaskId, now)
    ensures db.nextTaskId == start.nextTaskId + Size(yt)
  {
    assert yt.children[..|yt.children|] == yt.children;
  }

  /**
   * importTask: a node without a title fails with nothing written; otherwise
   * its task is added (the foreign key failing for a missing parent), the
   * description, due date and tags are attached, and the children are
   * imported in order under the new task, the first failure ending the
   * import. On success the whole tree was created, numbered in pre-order,
   * and the count is its size; on failure everything created so far stays.
   */
  method ImportTask(s: TaskStore, yt: YamlTask, parent: Option<int>, now: int)
    returns (count: nat, err: Option<ImportError>)
    requires s.Valid()
    modifies s
    ensures s.Valid() && Grows(old(s.State()), s.State())
    ensures yt.title == "" ==> err == Some(TitleRequired) && count == 0 && s.State() == old(s.State())
    ensures yt.title != "" && !CanAdd(old(s.State()), parent) ==>
      err == Some(AddFailed(yt.title, ForeignKeyViolation)) && count == 0 && s.State() == old(s.State())
    ensures err.Some? && CanAdd(old(s.State()), parent) ==> err == Some(TitleRequired)
    ensures err.None? <==> Titled(yt) && CanAdd(old(s.State()), parent)
    ensures err.None? ==>
      && count == Size(yt)
      && s.nextTaskId == old(s.nextTaskId) + Size(yt)
      && Created(s.State(), yt, parent, old(s.nextTaskId), now)
    ensures count <= s.nextTaskId - old(s.nextTaskId)
    decreases yt, 1
  {
    if yt.title == "" {
      return 0, Some(TitleRequired);
    }
    ghost var start := s.State();
    var r := ImportHead(s, yt, parent, now);
    if r.Err? {
      return 0, Some(AddFailed(yt.title, r.error));
    }
    var n;
    n, err := ImportChildren(s, yt, parent, r.value, now, start);
    count := 1 + n;
  }

  /**
   * The head of importTask: add the node's row under the parent, set its
   * description and due date when given, and assign its tags. Only the row
   * insertion can fail, when the parent is missing.
   */
  method ImportHead(s: TaskStore, yt: YamlTask, parent: Option<int>, now: int) returns (r: Result<int, StoreError>)
    requires s.Valid() && yt.title != ""
    modifies s
    ensures s.Valid()
    ensures r.Err? <==> !CanAdd(old(s.State()), parent)
    ensures r.Err? ==> r.error == ForeignKeyViolation && s.State() == old(s.State())
    ensures r.Ok? ==>
      && r.value == old(s.nextTaskId) && s.nextTaskId == r.value + 1
      && HeadAdded(old(s.State()), s.State(), yt, parent, now)
  {
    ghost var start := s.State();
    var added := s.Add(yt.title, parent, now);
    if added.Err? {
      return Err(added.error);
    }
    var id := added.value.id;
    HeadRow(start, yt, parent, now);
    if yt.description != "" {
      s.UpdateDescription(id, Some(yt.description));
    }
    if yt.dueDate != "" {
      s.SetDueDate(id, Some(yt.dueDate));
    }
    ghost var row := s.State();
    if |yt.tags| > 0 {
      AssignTags(s, id, yt.tags);
    } else {
      assert TagsAssigned(row, s.State(), id, yt.tags);
    }
    HeadTags(start, row, s.State(), yt, parent, now);
    return Ok(id);
  }

  /**
   * The children loop of importTask: each child is imported under the task
   * just added for `yt`, in order, the first failure ending the loop with the
   * count of the children imported before it.
   */
  method ImportChildren(s: TaskStore, yt: YamlTask, parent: Option<int>, id: int, now: int, ghost start: Db)
    returns (count: nat, err: Option<ImportError>)
    requires s.Valid() && HeadAdded(start, s.State(), yt, parent, now)
    requires id == start.nextTaskId && s.nextTaskId == id + 1
    modifies s
    ensures s.Valid() && HeadAdded(start, s.State(), yt, parent, now) && Grows(old(s.State()), s.State())
    ensures err.Some? ==> err == Some(TitleRequired)
    ensures err.None? <==> ChildrenTitled(yt, |yt.children|)
    ensures err.None? ==>
      && count == SizeAll(yt.children)
      && s.nextTaskId == id + Size(yt)
      && Created(s.State(), yt, parent, id, now)
    ensures count <= s.nextTaskId - old(s.nextTaskId)
    decreases yt, 0
  {
    count := 0;
    ghost var origin := s.State();
    for i := 0 to |yt.children|
      invariant s.Valid() && ChildrenDone(start, origin, s.State(), yt, parent, i, count, now)
    {
      ghost var before := s.State();
      var n, e := ImportTask(s, yt.children[i], Some(id), now);
      ghost var after := s.State();
      if e.Some? {
        GrowsTrans(origin, before, after);
        HeadMono(start, before, after, yt, parent, now);
        return count, e;
      }
      ChildStep(start, origin, before, after, yt, parent, i, count, n, now);
      count := count + n;
    }
    AllChildren(start, s.State(), yt, parent, now);
    err := None;
  }

  /** The pre-order id of root `j` of a forest whose first root takes id `base`. */
  function RootId(input: seq<YamlTask>, base: int, j: nat): (r: int)
    requires j <= |input|
    ensures r >= base
  {
    base + SizeAll(input[..j])
  }

  /** Every node of the forest has a title. */
  ghost predicate AllTitled(input: seq<YamlTask>)
  {
    forall j :: 0 <= j < |input| ==> Titled(input[j])
  }

  /** The first `i` roots are titled throughout. */
  ghost predicate RootsTitled(input: seq<YamlTask>, i: nat)
    requires i <= |input|
  {
    forall j :: 0 <= j < i ==> Titled(input[j])
  }

  /** The first `i` roots were created under `parent`, each at its pre-order id. */
  ghost predicate RootsCreated(db: Db, input: seq<YamlTask>, parent: Option<int>, base: int, i: nat, now: int)
    requires i <= |input|
  {
    forall j :: 0 <= j < i ==> Created(db, input[j], parent, RootId(input, base, j), now)
  }

  /**
   * The state of the roots loop after `i` roots: the database only grew, the
   * parent exists once a root was imported, and the first `i` roots are
   * titled and were created one after the other, `count` nodes in all.
   */
  ghost predicate RootsDone(start: Db, db: Db, input: seq<YamlTask>, parent: Option<int>,
                            i: nat, count: nat, now: int)
  {
    && i <= |input|
    && Grows(start, db)
    && (i == 0 ==> db == start)
    && (i > 0 ==> CanAdd(start, parent))
    && count == SizeAll(input[..i])
    && db.nextTaskId == RootId(input, start.nextTaskId, i)
    && RootsTitled(input, i)
    && RootsCreated(db, input, parent, start.nextTaskId, i, now)
  }

  /** One more root imported: the earlier roots survive and the counter moves on. */
  lemma RootStep(start: Db, before: Db, after: Db, input: seq<YamlTask>, parent: Option<int>,
                 i: nat, count: nat, n: nat, now: int)
    requires i < |input|
    requires RootsDone(start, before, input, parent, i, count, now) && Grows(before, after)
    requires CanAdd(before, parent) && CanAdd(start, parent)
    requires Titled(input[i]) && n == Size(input[i])
    requires after.nextTaskId == before.nextTaskId + n
    requires Created(after, input[i], parent, before.nextTaskId, now)
    ensures RootsDone(start, after, input, parent, i + 1, count + n, now)
  {
    GrowsTrans(start, before, after);
    SizeAllStep(input, i);
    var base := start.nextTaskId;
    forall j | 0 <= j < i + 1
      ensures Created(after, input[j], parent, RootId(input, base, j), now)
    {
      if j < i {
        CreatedMono(before, after, input[j], parent, RootId(input, base, j), now);
      } else {
        assert RootId(input, base, j) == before.nextTaskId;
      }
    }
  }

  /**
   * Import: an empty list fails with nothing written; otherwise the roots
   * are imported in order under `parent`, the first failure ending the
   * import with the count of the roots imported before it. On success every
   * tree was created, numbered in pre-order one after the other, and the
   * count is the number of nodes.
   */
  method Import(s: TaskStore, input: seq<YamlTask>, parent: Option<int>, now: int)
    returns (count: nat, err: Option<ImportError>)
    requires s.Valid()
    modifies s
    ensures s.Valid() && Grows(old(s.State()), s.State())
    ensures input == [] ==> err == Some(NoTasks) && count == 0 && s.State() == old(s.State())
    ensures input != [] ==> (err.None? <==> CanAdd(old(s.State()), parent) && AllTitled(input))
    ensures input != [] && CanAdd(old(s.State()), parent) && err.Some? ==> err == Some(TitleRequired)
    ensures err.None? ==>
      && count == SizeAll(input)
      && s.nextTaskId == old(s.nextTaskId) + SizeAll(input)
      && RootsCreated(s.State(), input, parent, old(s.nextTaskId), |input|, now)
    ensures count <= s.nextTaskId - old(s.nextTaskId)
  {
    if |input| == 0 {
      return 0, Some(NoTasks);
    }
    count, err := ImportRoots(s, input, parent, now);
  }

  /** The loop of Import over a non-empty list of roots. */
  method ImportRoots(s: TaskStore, input: seq<YamlTask>, parent: Option<int>, now: int)
    returns (count: nat, err: Option<ImportError>)
    requires s.Valid() && input != []
    modifies s
    ensures s.Valid() && Grows(old(s.State()), s.State())
    ensures err.None? <==> CanAdd(old(s.State()), parent) && AllTitled(input)
    ensures CanAdd(old(s.State()), parent) && err.Some? ==> err == Some(TitleRequired)
    ensures err.None? ==>
      && count == SizeAll(input)
      && s.nextTaskId == old(s.nextTaskId) + SizeAll(input)
      && RootsCreated(s.State(), input, parent, old(s.nextTaskId), |input|, now)
    ensures count <= s.nextTaskId - old(s.nextTaskId)
  {
    ghost var start := s.State();
    count := 0;
    for i := 0 to |input|
      invariant s.Valid() && RootsDone(start, s.State(), input, parent, i, count, now)
    {
      var n, e := ImportRoot(s, input, parent, i, count, now, start);
      if e.Some? {
        return count, e;
      }
      count := count + n;
    }
    assert input[..|input|] == input;
    assert AllTitled(input);
    err := None;
  }

  /** One turn of the roots loop: import root `i` under `parent`. */
  method ImportRoot(s: TaskStore, input: seq<YamlTask>, parent: Option<int>, i: nat, count: nat, now: int,
                    ghost start: Db)
    returns (n: nat, e: Option<ImportError>)
    requires s.Valid() && i < |input| && RootsDone(start, s.State(), input, parent, i, count, now)
    modifies s
    ensures s.Valid() && Grows(start, s.State())
    ensures e.None? ==> RootsDone(start, s.State(), input, parent, i + 1, count + n, now)
    ensures e.Some? ==> !CanAdd(start, parent) || (!Titled(input[i]) && e == Some(TitleRequired))
    ensures count <= s.nextTaskId - start.nextTaskId
  {
    ghost var before := s.State();
    if CanAdd(start, parent) {
      GrowsCanAdd(start, before, parent);
    }
    n, e := ImportTask(s, input[i], parent, now);
    ghost var after := s.State();
    GrowsTrans(start, before, after);
    if e.None? {
      RootStep(start, before, after, input, parent, i, count, n, now);
    }
  }
}
