/**
 * The logic of the terminal UI that does not draw anything: extracting YAML
 * from a pasted Markdown code block, the round-robin tag colour, the tag
 * selector's cursor and assign/unassign toggle, and the two-entry menus of the
 * prompt and import dialogs with the import they trigger.
 */
module Ui {
  import opened Wrappers
  import opened Text
  import opened Model
  import opened Store
  import opened Importer

  // ---------------------------------------------------------------------------
  // stripCodeBlock
  // ---------------------------------------------------------------------------

  /** A line that opens a block when outside one. */
  predicate Opens(line: string)
  {
    var t := TrimSpace(line);
    t == "```yaml" || t == "```yml" || t == "```"
  }

  /** A line that closes a block when inside one. */
  predicate Closes(line: string)
  {
    TrimSpace(line) == "```"
  }

  /**
   * The line scan: whether the scan ends inside a block, and the lines
   * collected from inside blocks, fence lines excluded, in order.
   */
  function Scan(lines: seq<string>): (bool, seq<string>)
  {
    if |lines| == 0 then (false, []) else Step(Scan(lines[..|lines| - 1]), lines[|lines| - 1])
  }

  /** One line of the scan: open, close, collect or skip. */
  function Step(st: (bool, seq<string>), line: string): (bool, seq<string>)
  {
    var (inBlock, out) := st;
    if !inBlock && Opens(line) then (true, out)
    else if inBlock && Closes(line) then (false, out)
    else (inBlock, if inBlock then out + [line] else out)
  }

  /** A step only ever appends to what was collected before it. */
  lemma StepAfter(prefix: seq<string>, st: (bool, seq<string>), line: string)
    ensures Step((st.0, prefix + st.1), line) == (Step(st, line).0, prefix + Step(st, line).1)
  {
    assert prefix + st.1 + [line] == prefix + (st.1 + [line]);
  }

  /** The text inside the code blocks, or the whole input when no line was collected. */
  function StripCode(s: string): string
  {
    var out := Scan(Split(s, '\n')).1;
    if |out| == 0 then s else Join(out, "\n")
  }

  /** stripCodeBlock: the line loop with its `inBlock` flag. */
  method StripCodeBlock(s: string) returns (r: string)
    ensures r == StripCode(s)
  {
    var lines := Split(s, '\n');
    var result: seq<string> := [];
    var inBlock := false;
    for i := 0 to |lines|
      invariant (inBlock, result) == Scan(lines[..i])
    {
      var line := lines[i];
      var trimmed := TrimSpace(line);
      assert lines[..i + 1][..i] == lines[..i];
      if !inBlock && (trimmed == "```yaml" || trimmed == "```yml" || trimmed == "```") {
        inBlock := true;
      } else if inBlock && trimmed == "```" {
        inBlock := false;
      } else if inBlock {
        result := result + [line];
      }
    }
    assert lines[..|lines|] == lines;
    if |result| == 0 {
      return s;
    }
    r := Join(result, "\n");
  }

  /** Every collected line is an input line and not itself a closing fence. */
  lemma {:induction false} ScanCollectsInnerLines(lines: seq<string>)
    ensures forall l :: l in Scan(lines).1 ==> l in lines && !Closes(l)
  {
    if |lines| > 0 {
      var init := lines[..|lines| - 1];
      ScanCollectsInnerLines(init);
      forall l | l in init ensures l in lines {
        var k :| 0 <= k < |init| && init[k] == l;
        assert lines[k] == l;
      }
    }
  }

  /** Lines none of which opens a fence are all dropped, and the scan stays outside. */
  lemma {:induction false} ScanUnfenced(lines: seq<string>)
    requires forall i :: 0 <= i < |lines| ==> !Opens(lines[i])
    ensures Scan(lines) == (false, [])
  {
    if |lines| > 0 {
      ScanUnfenced(lines[..|lines| - 1]);
    }
  }

  /** A scan that ends outside a block restarts afresh: the output of what follows is appended. */
  lemma {:induction false} ScanAppend(first: seq<string>, rest: seq<string>)
    requires !Scan(first).0
    ensures Scan(first + rest) == (Scan(rest).0, Scan(first).1 + Scan(rest).1)
    decreases |rest|
  {
    if |rest| == 0 {
      assert first + rest == first;
      assert Scan(first).1 + [] == Scan(first).1;
    } else {
      var init, last := rest[..|rest| - 1], rest[|rest| - 1];
      ScanAppend(first, init);
      var all := first + rest;
      assert all[..|all| - 1] == first + init && all[|all| - 1] == last;
      assert Scan(all) == Step(Scan(first + init), last);
      assert Scan(rest) == Step(Scan(init), last);
      StepAfter(Scan(first).1, Scan(init), last);
    }
  }

  /** Inside an open block, lines that do not close it are collected one by one. */
  lemma {:induction false} ScanInside(open: seq<string>, body: seq<string>)
    requires Scan(open) == (true, [])
    requires forall i :: 0 <= i < |body| ==> !Closes(body[i])
    ensures Scan(open + body) == (true, body)
    decreases |body|
  {
    if |body| == 0 {
      assert open + body == open;
    } else {
      var init, last := body[..|body| - 1], body[|body| - 1];
      ScanInside(open, init);
      var all := open + body;
      assert all[..|all| - 1] == open + init && all[|all| - 1] == last;
      assert Scan(all) == Step((true, init), last);
      StepCollects(init, last);
      assert init + [last] == body;
    }
  }

  /** Inside a block, a line that does not close it is collected. */
  lemma StepCollects(out: seq<string>, line: string)
    requires !Closes(line)
    ensures Step((true, out), line) == (true, out + [line])
  {
  }

  /** One fenced block amid unfenced lines: exactly its inner lines are collected. */
  lemma ScanBlock(before: seq<string>, fence: string, body: seq<string>, close: string, after: seq<string>)
    requires forall i :: 0 <= i < |before| ==> !Opens(before[i])
    requires forall i :: 0 <= i < |after| ==> !Opens(after[i])
    requires Opens(fence) && Closes(close)
    requires forall i :: 0 <= i < |body| ==> !Closes(body[i])
    ensures Scan(before + [fence] + body + [close] + after) == (false, body)
  {
    ScanUnfenced(before);
    ScanUnfenced([]);
    var withFence := before + [fence];
    assert withFence[..|withFence| - 1] == before;
    assert Scan(withFence) == (true, []);
    ScanInside(withFence, body);
    var closed := withFence + body + [close];
    assert closed[..|closed| - 1] == withFence + body;
    assert Scan(closed) == (false, body);
    ScanUnfenced(after);
    ScanAppend(closed, after);
    assert body + [] == body;
  }

  /** Text with no opening fence is returned unchanged. */
  lemma StripUnfenced(s: string)
    requires forall i :: 0 <= i < |Split(s, '\n')| ==> !Opens(Split(s, '\n')[i])
    ensures StripCode(s) == s
  {
    ScanUnfenced(Split(s, '\n'));
  }

  /**
   * The round trip: YAML lines placed in a fenced block, with prose before
   * and after that opens no block, come back exactly, joined by newlines.
   */
  lemma StripFenced(before: seq<string>, fence: string, body: seq<string>, close: string, after: seq<string>)
    requires forall i :: 0 <= i < |before| ==> !Opens(before[i])
    requires forall i :: 0 <= i < |after| ==> !Opens(after[i])
    requires Opens(fence) && Closes(close)
    requires |body| > 0 && forall i :: 0 <= i < |body| ==> !Closes(body[i])
    requires forall l :: l in before + [fence] + body + [close] + after ==> '\n' !in l
    ensures StripCode(Join(before + [fence] + body + [close] + after, "\n")) == Join(body, "\n")
  {
    SplitJoin(before + [fence] + body + [close] + after, '\n');
    ScanBlock(before, fence, body, close, after);
  }

  // ---------------------------------------------------------------------------
  // nextTagColor
  // ---------------------------------------------------------------------------

  /** nextTagColor: the palette entry for the given number of existing tags. */
  function NextTagColor(existingCount: nat): (c: string)
    ensures c in TagPalette
  {
    TagPalette[existingCount % |TagPalette|]
  }

  /** The colours repeat with period eight, and only with a multiple of it. */
  lemma NextTagColorPeriod(m: nat, n: nat)
    ensures NextTagColor(m) == NextTagColor(n) <==> m % 8 == n % 8
  {
    var i, j := m % 8, n % 8;
    assert NextTagColor(m) == TagPalette[i] && NextTagColor(n) == TagPalette[j];
    if i != j {
      assert TagPalette[i] != TagPalette[j];
    }
  }

  // ---------------------------------------------------------------------------
  // The tag selector
  // ---------------------------------------------------------------------------

  /** The ids of the tags marked to `task`. */
  function AssignedIds(db: Db, task: int): set<int>
  {
    set id | id in db.tags && (task, id) in db.taskTags
  }

  /** The ids of a list of tags. */
  method IdsOf(tags: seq<Tag>) returns (ids: set<int>)
    ensures ids == set t | t in tags :: t.id
  {
    ids := {};
    for i := 0 to |tags|
      invariant ids == set t | t in tags[..i] :: t.id
    {
      assert tags[..i + 1] == tags[..i] + [tags[i]];
      ids := ids + {tags[i].id};
    }
    assert tags[..|tags|] == tags;
  }

  /**
   * The tag selector open on one task: every tag with a cursor over it (the
   * position one past the last is "create a new tag"), the set of tags the
   * task carries, and the name-entry mode for a new tag.
   */
  class TagSelector {
    const store: TaskStore
    const taskId: int
    var allTags: seq<Tag>
    var marked: set<int>
    var cursor: int
    var creating: bool
    var err: Option<StoreError>

    /** The cursor is on a tag or on "create", and the marks mirror the task's tags. */
    ghost predicate Valid()
      reads this, store
    {
      && store.Valid()
      && 0 <= cursor <= |allTags|
      && marked == AssignedIds(store.State(), taskId)
    }

    /** Opening the selector: all tags by name, the task's tags marked, the cursor on the first. */
    constructor Open(s: TaskStore, task: int)
      requires s.Valid()
      ensures Valid() && store == s && taskId == task
      ensures ListsAllTags(s.State(), allTags)
      ensures cursor == 0 && !creating && err == None
    {
      var all := s.ListTags();
      var mine := s.TagsForTask(task);
      var ids := IdsOf(mine);
      store := s;
      taskId := task;
      allTags := all;
      marked := ids;
      cursor := 0;
      creating := false;
      err := None;
      new;
      forall id | id in AssignedIds(s.State(), task) ensures id in ids {
        assert IsAssigned(s.State(), task, TagOf(s.State(), id));
      }
    }

    /** j / down: one step towards "create", stopping there. */
    method Down()
      requires Valid()
      modifies this
      ensures Valid()
      ensures cursor == if old(cursor) < |allTags| then old(cursor) + 1 else old(cursor)
      ensures allTags == old(allTags) && marked == old(marked) && creating == old(creating) && err == old(err)
    {
      if cursor < |allTags| {
        cursor := cursor + 1;
      }
    }

    /** k / up: one step towards the first tag, stopping there. */
    method Up()
      requires Valid()
      modifies this
      ensures Valid()
      ensures cursor == if old(cursor) > 0 then old(cursor) - 1 else old(cursor)
      ensures allTags == old(allTags) && marked == old(marked) && creating == old(creating) && err == old(err)
    {
      if cursor > 0 {
        cursor := cursor - 1;
      }
    }

    /**
     * enter / space / x: on a tag, unassign it if marked and assign it
     * otherwise, the mark following the store; on "create", enter name entry.
     */
    method Choose()
      requires Valid() && !creating
      modifies this, store
      ensures Valid()
      ensures allTags == old(allTags) && cursor == old(cursor)
      ensures cursor == |allTags| ==>
        creating && store.State() == old(store.State()) && marked == old(marked) && err == old(err)
      ensures cursor < |allTags| ==> !creating
      ensures cursor < |allTags| && allTags[cursor].id in old(marked) ==>
        && store.State() == UnassignTagDb(old(store.State()), taskId, allTags[cursor].id)
        && marked == old(marked) - {allTags[cursor].id} && err == old(err)
      ensures cursor < |allTags| && allTags[cursor].id !in old(marked) ==>
        if CanAssign(old(store.State()), taskId, allTags[cursor].id) then
          && store.State() == AssignTagDb(old(store.State()), taskId, allTags[cursor].id)
          && marked == old(marked) + {allTags[cursor].id} && err == old(err)
        else
          store.State() == old(store.State()) && marked == old(marked) && err == Some(ForeignKeyViolation)
    {
      if cursor < |allTags| {
        var tag := allTags[cursor];
        if tag.id in marked {
          store.UnassignTag(taskId, tag.id);
          marked := marked - {tag.id};
        } else {
          var e := store.AssignTag(taskId, tag.id);
          if e.Some? {
            err := e;
          } else {
            marked := marked + {tag.id};
          }
        }
      } else {
        creating := true;
      }
    }

    /**
     * enter in name entry: a blank name does nothing; otherwise the tag is
     * created with the next palette colour, appended to the list and marked
     * to the task. Name entry ends either way.
     */
    method Confirm(input: string)
      requires Valid() && creating
      modifies this, store
      ensures Valid() && !creating && cursor == old(cursor)
      ensures TrimSpace(input) == "" || !CanCreateTag(old(store.State()), TrimSpace(input)) ==>
        && store.State() == old(store.State()) && allTags == old(allTags) && marked == old(marked)
        && err == (if TrimSpace(input) == "" then old(err) else Some(UniqueViolation(TrimSpace(input))))
      ensures TrimSpace(input) != "" && CanCreateTag(old(store.State()), TrimSpace(input)) ==>
        var name, id := TrimSpace(input), old(store.nextTagId);
        var created := CreateTagDb(old(store.State()), name, NextTagColor(|old(allTags)|));
        && allTags == old(allTags) + [Tag(id, name, NextTagColor(|old(allTags)|))]
        && (taskId in created.tasks ==>
             store.State() == AssignTagDb(created, taskId, id) && marked == old(marked) + {id} && err == old(err))
        && (taskId !in created.tasks ==>
             store.State() == created && marked == old(marked) && err == Some(ForeignKeyViolation))
    {
      var name := TrimSpace(input);
      if name != "" {
        ghost var before := store.State();
        var r := store.CreateTag(name, NextTagColor(|allTags|));
        if r.Err? {
          err := Some(r.error);
        } else {
          var tag := r.value;
          allTags := allTags + [tag];
          var e := store.AssignTag(taskId, tag.id);
          if e.Some? {
            err := e;
          } else {
            marked := marked + {tag.id};
          }
        }
      }
      creating := false;
    }

    /** esc in name entry: back to the list of tags, nothing written. */
    method Cancel()
      requires Valid() && creating
      modifies this
      ensures Valid() && !creating
      ensures allTags == old(allTags) && marked == old(marked) && cursor == old(cursor) && err == old(err)
    {
      creating := false;
    }
  }

  /** Toggling a marked tag twice, unassign then assign, restores the pair table. */
  lemma ToggleTwice(db: Db, task: int, tag: int)
    requires (task, tag) in db.taskTags
    ensures AssignTagDb(UnassignTagDb(db, task, tag), task, tag) == db
  {
    assert UnassignTagDb(db, task, tag).taskTags + {(task, tag)} == db.taskTags;
  }

  // ---------------------------------------------------------------------------
  // The prompt and import menus
  // ---------------------------------------------------------------------------

  /** The outcome the import dialog reports. */
  datatype ImportOutcome =
    | Imported(count: nat)
    | ImportFailed(error: ImportError)

  /**
   * The two-entry menus: the prompt menu (new breakdown / improve the
   * selected task) and the import menu (as roots / under the selected task).
   */
  class Menus {
    var genCursor: int
    var importCursor: int

    ghost predicate Valid()
      reads this
    {
      0 <= genCursor <= 1 && 0 <= importCursor <= 1
    }

    /** Opening either menu puts its cursor on the first entry. */
    constructor ()
      ensures Valid() && genCursor == 0 && importCursor == 0
    {
      genCursor := 0;
      importCursor := 0;
    }

    method GenDown()
      requires Valid()
      modifies this
      ensures Valid() && genCursor == 1 && importCursor == old(importCursor)
    {
      if genCursor < 1 {
        genCursor := genCursor + 1;
      }
    }

    method GenUp()
      requires Valid()
      modifies this
      ensures Valid() && genCursor == 0 && importCursor == old(importCursor)
    {
      if genCursor > 0 {
        genCursor := genCursor - 1;
      }
    }

    method ImportDown()
      requires Valid()
      modifies this
      ensures Valid() && importCursor == 1 && genCursor == old(genCursor)
    {
      if importCursor < 1 {
        importCursor := importCursor + 1;
      }
    }

    method ImportUp()
      requires Valid()
      modifies this
      ensures Valid() && importCursor == 0 && genCursor == old(genCursor)
    {
      if importCursor > 0 {
        importCursor := importCursor - 1;
      }
    }

    /**
     * enter in the import menu: the second entry imports under the selected
     * task, if there is one; otherwise the trees become roots.
     */
    function ImportParent(selected: Option<int>): (parent: Option<int>)
      requires Valid()
      reads this
      ensures parent.Some? <==> importCursor == 1 && selected.Some?
      ensures parent.Some? ==> parent == selected
    {
      if importCursor == 1 && selected.Some? then selected else None
    }
  }

  /**
   * doImport: runs the import and reports either the number of tasks it
   * created or the error, discarding the partial count on failure.
   */
  method DoImport(s: TaskStore, input: seq<YamlTask>, parent: Option<int>, now: int)
    returns (outcome: ImportOutcome)
    requires s.Valid()
    modifies s
    ensures s.Valid() && Grows(old(s.State()), s.State())
    ensures outcome.Imported? <==> input != [] && CanAdd(old(s.State()), parent) && AllTitled(input)
    ensures outcome.Imported? ==> outcome.count == SizeAll(input)
    ensures input == [] ==> outcome == ImportFailed(NoTasks)
  {
    var count, err := Import(s, input, parent, now);
    if err.Some? {
      return ImportFailed(err.value);
    }
    return Imported(count);
  }
}
