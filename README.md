# flow — a verified model of the task manager's core

flow is a terminal task manager written in Go. Tasks live in a SQLite
database. A task has a title, an optional description, a completion flag,
an optional parent task, a creation time, an optional "today" schedule, an
optional due date and any number of coloured tags. The list view draws the
tasks as a tree. A YAML document, typically pasted from an assistant's
answer, can be imported as a batch of nested tasks. The program also writes
the prompt that asks an assistant for such a document. A three-field date
picker sets due dates.

This project models that core in Dafny:

| file | models |
|---|---|
| `wrappers.dfy` | `Option` and `Result` |
| `text.dfy` | the Go `strings`/`strconv` behaviour the core relies on: byte order on strings, `Cut`, `Split`, `SplitN`, `Join`, `TrimSpace`, decimal digits |
| `model.dfy` | the `Task` and `Tag` records and the today / due-today / overdue markers |
| `tables.dfy` | relational behaviour shared by both stores: `ALTER TABLE ... ADD COLUMN` migrations, the `ON DELETE CASCADE` closure over `parent_id`, `ORDER BY created_at` and `ORDER BY name`, and the tag join |
| `store.dfy` | the current store (`internal/store/store.go`) as a class whose state is a value `Db` of four tables; each method is proved against a function on `Db` |
| `legacy_store.dfy` | the earlier single-file store (`store.go`), without tags or dates |
| `tree.dfy` | `BuildTree` (`internal/ui/tree.go`) and the older `buildTree` (`ui.go`), one generic algorithm over two glyph sets |
| `importer.dfy` | the YAML importer (`internal/importer/yaml.go`) over already-parsed YAML tasks |
| `ui.dfy` | the code-fence stripper, the tag colour rotation, the tag selector, the generate/import menus and the import action (`internal/ui/ui.go`) |
| `dateinput.dfy` | the date picker (`internal/ui/dateinput.go`) |
| `prompt.dfy` | the breakdown prompt (`internal/prompt/generate.go`) |

The main results are these:
- Every store operation keeps the database consistent: ids stay below the
  AUTOINCREMENT counters, completion flags stay 0/1, foreign keys hold and
  a parent's id is below its children's.
- Deleting a task removes exactly its subtree, which is the least set
  closed under the cascade rule.
- Listing returns every row exactly once, in creation order, each with
  exactly its tags sorted by name.
- The tree view draws every task whose ancestors are all present exactly
  once, in pre-order, with prefixes whose glyphs say which ancestors have
  later siblings. It omits every other task.
- A successful import creates `Size` tasks with consecutive ids in
  pre-order, each with its fields, parent and tags.
- A date put into the picker reads back unchanged.
- Each optional line of the prompt appears exactly when its field is set.

"Today", the current year and month, and creation times are parameters
rather than readings of the clock. The prompt's fixed sentences are a
`Wording` value. `Prompt.Japanese` holds the program's own Japanese text,
and the lemmas hold for any wording.

## Model

| member | source | states |
|---|---|---|
| Model.IsToday | internal/model/task.go:26-31 | the task is scheduled for today; no schedule means no marker (its partner is Store.ToggleTodayMarks) |
| Model.IsDueToday | internal/model/task.go:34-39 | the task's due date is today; no due date means no marker |
| Model.IsOverdue | internal/model/task.go:42-47 | the task is open and its due date sorts before today; no due date or a completed task means no marker |
| Model.OverdueExcludesDueToday | internal/model/task.go:33-47 | no task is both due today and overdue |
| Model.OverdueStaysOverdue | internal/model/task.go:41-47 | an overdue open task is still overdue on every later day |
| Model.DueDateClassification | internal/model/task.go:33-47 | an open task with a due date is exactly one of overdue, due today, or due later |
| Text.LessTransitive | internal/model/task.go:41-47 | the string order used for "before today" is transitive (with LessIrreflexive, LessAsymmetric and LessTotal it is a strict total order) |
| Text.TrimSpaceSpec | internal/ui/dateinput.go:69-71 | trimming keeps one contiguous stretch of the text, with no space at either end, and drops only white space around it |
| Text.SplitN | internal/ui/dateinput.go:56 | at most n parts; no separator in any part but the last |
| Text.JoinSplitN | internal/ui/dateinput.go:56 | joining the parts of SplitN with the separator gives the text back |
| Text.SplitJoin | internal/ui/ui.go:587 | splitting the join of separator-free lines gives the lines back |
| Text.ItoaValue | internal/ui/dateinput.go:74-77 | the decimal rendering of n reads back as n |
| Tables.MigrateColumnsGrows | internal/store/store.go:99-129 | column migrations never drop, rename or reorder a column, add each missing column once at the end, and keep names unique |
| Tables.MigrateColumnsPresent | internal/store/store.go:99-129 | when every column already exists, the migrations change nothing |
| Tables.MigrateColumnsIdempotent | internal/store/store.go:71-94 | running all the migrations a second time leaves the columns unchanged |
| Tables.SubtreeIsCascade | internal/store/store.go:125 | the deleted set holds the row, is closed under "the parent is deleted", and holds only rows below the row |
| Tables.SubtreeLeast | internal/store/store.go:125 | the deleted set is contained in every set closed under the cascade rule |
| Tables.SubtreeOfMissing | internal/store/store.go:377-384 | deleting an id that names no row deletes nothing |
| Tables.PruneKeepsOrder | internal/store/store.go:125 | after the cascade every remaining parent_id still names a remaining row, and parents still precede children |
| Tables.InsertByCreationSorted | internal/store/store.go:299 | inserting an id keeps the list sorted by creation time and adds exactly that id |
| Tables.InsertByCreationPerm | internal/store/store.go:299 | inserting an id adds exactly that one id to the multiset |
| Tables.SortByCreation | internal/store/store.go:299 | the ids of all rows, each once, sorted by creation time (the same sort serves store.go:146) |
| Tables.InsertByNameSorted | internal/store/store.go:459 | inserting a tag with an unused name keeps the list strictly sorted by name |
| Tables.ByNameUnique | internal/store/store.go:457-474 | two lists strictly sorted by name with the same members are equal, so the tag order is determined |
| Store.AddFresh | internal/store/store.go:281-295 | Add gives the new row an id no row has had; the row has completed 0, the given parent, creation time and no tags; other rows are kept; the database stays consistent |
| Store.ToggleCompleteInvolution | internal/store/store.go:339-346 | toggling completion twice restores the database |
| Store.ToggleCompleteFlips | internal/store/store.go:339-346 | toggling flips exactly that task's completion as read back, keeps every other row, and keeps consistency |
| Store.ToggleTodayTwice | internal/store/store.go:348-360 | the toggle schedules today exactly when the task was not scheduled today; toggling twice from today or from no date restores the schedule |
| Store.ToggleTodayMarks | internal/store/store.go:348-360 | after ToggleToday the task's "today" marker is on exactly when it was off before; its due-today and overdue markers are unchanged |
| Store.SetDueDateMarks | internal/store/store.go:362-375 | after SetDueDate the task is due today exactly when the new date is today, and overdue exactly when it is open and the new date sorts before today; clearing the date clears both; the "today" marker is unchanged |
| Store.FieldUpdatesKeepConsistent | internal/store/store.go:348-408 | ToggleToday, SetDueDate and UpdateDescription keep the database consistent |
| Store.DeleteCascades | internal/store/store.go:377-384 | Delete removes exactly the rows below the id (and the id), keeps the rest unchanged, drops exactly the tag pairs of removed tasks, keeps consistency, and changes nothing for a missing id |
| Store.DeleteConsistent | internal/store/store.go:377-384 | a delete keeps the database consistent |
| Store.DeleteMissing | internal/store/store.go:377-384 | deleting an id no row has changes nothing |
| Store.CreateTagFresh | internal/store/store.go:447-455 | a tag with an unused name gets a fresh id, reads back as given, keeps every other tag and keeps names unique |
| Store.AssignTagIdempotent | internal/store/store.go:485-492 | assigning a tag twice equals assigning it once, and the pair is then present |
| Store.UnassignAfterAssign | internal/store/store.go:494-501 | unassigning removes exactly the one pair; assigning and then unassigning a new pair restores the database |
| Store.PairUpdatesKeepConsistent | internal/store/store.go:485-501 | assigning a pair that names existing rows, and any unassign, keep consistency |
| Store.DeleteTagCascades | internal/store/store.go:476-483 | deleting a tag removes it and exactly the pairs naming it, keeps the tasks, and keeps consistency |
| Store.MigrationSteps | internal/store/store.go:71-94 | start-up adds parent_id, scheduled_on, due_date and description in that order, each only when missing |
| Store.OpenedConsistent | internal/store/store.go:36-97 | a store opened from any known schema, after the migrations, is consistent |
| Store.TaskStore.Open | internal/store/store.go:36-97 | NewTaskStore creates the missing tables and migrates the columns of any known schema; the result is a valid, empty store |
| Store.TaskStore.RunMigrations | internal/store/store.go:60-94 | the tasks table exists afterwards (with the base columns if it was new); the four column migrations are applied in order; the tag tables exist |
| Store.TaskStore.CreateTasksTable | internal/store/store.go:60-65 | CREATE TABLE IF NOT EXISTS: an existing table keeps its columns |
| Store.TaskStore.MigrateColumn | internal/store/store.go:99-129 | a column is added at the end when, and only when, no column of that name exists |
| Store.TaskStore.MigrateTags | internal/store/store.go:227-247 | the tags and task_tags tables exist afterwards |
| Store.TaskStore.Migrate | internal/store/store.go:71-94 | running the migrations on an already migrated store changes nothing |
| Store.TaskStore.Add | internal/store/store.go:281-295 | a missing parent is a foreign-key error and changes nothing; otherwise the row is inserted and returned as read back |
| Store.TaskStore.GetByID | internal/store/store.go:324-337 | a missing id is NotFound; otherwise the returned task is the row with exactly its tags in name order |
| Store.TaskStore.ToggleComplete | internal/store/store.go:339-346 | the new state is the toggled database, still valid |
| Store.TaskStore.ToggleToday | internal/store/store.go:348-360 | the new state has the conditional schedule update, still valid |
| Store.TaskStore.SetDueDate | internal/store/store.go:362-375 | the new state has the due date set, or cleared for none |
| Store.TaskStore.UpdateDescription | internal/store/store.go:396-408 | the new state has the description set, or cleared for none |
| Store.TaskStore.Delete | internal/store/store.go:377-384 | the new state is the cascaded delete, still valid |
| Store.TaskStore.HasChildren | internal/store/store.go:386-394 | true exactly when some row has the id as its parent |
| Store.TaskStore.CreateTag | internal/store/store.go:447-455 | a name in use is a UNIQUE error and changes nothing; otherwise the tag is inserted with the next id and returned |
| Store.TaskStore.DeleteTag | internal/store/store.go:476-483 | the new state drops the tag and its pairs |
| Store.TaskStore.AssignTag | internal/store/store.go:485-492 | a missing task or tag is a foreign-key error and changes nothing; otherwise the pair is present and an existing pair is left alone |
| Store.TaskStore.UnassignTag | internal/store/store.go:494-501 | the new state lacks that pair |
| Store.TaskStore.ListTags | internal/store/store.go:457-474 | every tag exactly once, sorted by name |
| Store.TaskStore.TagsForTask | internal/store/store.go:503-524 | exactly the tags assigned to the task, sorted by name |
| Store.TaskStore.List | internal/store/store.go:297-322 | every row exactly once, as scanned, in non-decreasing creation time, each with exactly its tags in name order |
| Store.TaskStore.ScanRows | internal/store/store.go:249-279 | each id's row as scanTask reads it, completed meaning "the column is not 0" |
| Store.TaskStore.ListIds | internal/store/store.go:297-322 | tasks read in creation order have distinct ids and cover every row |
| Store.TaskStore.ListRows | internal/store/store.go:297-322 | after the tag load, each task is its row with exactly its tags |
| Store.TaskStore.LoadTagsForTasks | internal/store/store.go:410-445 | tasks keep order and fields; a task holding a tag gets exactly its tags in name order; the others keep their tags |
| Store.TaskStore.JoinedTags | internal/store/store.go:416-420 | the join yields a task's tags, in name order, and yields some exactly when the task holds one |
| Store.TaskStore.GroupTags | internal/store/store.go:426-437 | the map has a key exactly for each task holding a tag, mapping it to its tags in name order |
| Store.TaskStore.AddHolders | internal/store/store.go:426-437 | adding one join row keeps the map equal to the grouping of the rows seen so far |
| LegacyStore.AddFresh | store.go:128-142 | Add uses an id no row has had, stores completed 0 and the parent, keeps other rows and consistency |
| LegacyStore.ToggleCompleteInvolution | store.go:173-180 | toggling twice restores the database; one toggle flips only that row and keeps consistency |
| LegacyStore.DeleteCascades | store.go:182-189 | Delete removes exactly the rows below the id (and the id), keeps the others unchanged and keeps consistency |
| LegacyStore.OpenedConsistent | store.go:34-77 | a freshly opened store with parent_id migrated is consistent |
| LegacyStore.TaskStore.Open | store.go:34-77 | the tasks table exists, parent_id is added only if missing, and the store is valid and empty |
| LegacyStore.TaskStore.MigrateParentId | store.go:79-109 | parent_id is added when, and only when, it is missing |
| LegacyStore.TaskStore.Add | store.go:128-142 | a missing parent is a foreign-key error and changes nothing; otherwise the row is inserted and returned |
| LegacyStore.TaskStore.GetByID | store.go:163-171 | a missing id is NotFound; otherwise the row as scanned |
| LegacyStore.TaskStore.ToggleComplete | store.go:173-180 | the new state is the toggled database |
| LegacyStore.TaskStore.Delete | store.go:182-189 | the new state is the cascaded delete |
| LegacyStore.TaskStore.HasChildren | store.go:191-199 | true exactly when some row has the id as its parent |
| LegacyStore.TaskStore.List | store.go:144-161 | every row exactly once, as scanned, in non-decreasing creation time |
| LegacyStore.TaskStore.ListIds | store.go:144-161 | rows read in creation order have distinct ids and cover every row |
| Tree.GlyphWidths | internal/ui/tree.go:22-41 | every glyph of the boxed set is 4 characters wide and every glyph of the plain set 3 |
| Tree.PrefixSegments | internal/ui/tree.go:22-41 | the prefix is one glyph per ancestor, its width is the glyph width times the depth, and it is empty exactly for a root |
| Tree.Prefixes | internal/ui/tree.go:22-41 | the loop builds the title and description prefixes of the ancestor flags |
| Tree.KidsOf | internal/ui/tree.go:8-17 | a task's children are exactly the tasks naming it as parent, in input order |
| Tree.RootsOf | internal/ui/tree.go:8-17 | the roots are exactly the tasks without a parent, in input order |
| Tree.Group | internal/ui/tree.go:8-17 | the grouping loop yields the roots and each id's children |
| Tree.Dfs | internal/ui/tree.go:20-49 | the recursive walk appends the rendering of the task's subtree |
| Tree.Build | internal/ui/tree.go:7-55 | the items are the rendering of the pre-order layout |
| Tree.BuildTree | internal/ui/tree.go:7-55 | BuildTree with the boxed glyphs renders the layout |
| Tree.LegacyBuildTree | ui.go:115-169 | the older buildTree with the plain glyphs renders the same layout |
| Tree.LayoutExactlyOnce | internal/ui/tree.go:7-55 | each task appears at most once, and appears exactly when its chain of parents reaches a root |
| Tree.LayoutDistinct | internal/ui/tree.go:20-49 | no task is drawn twice |
| Tree.LayoutMembers | internal/ui/tree.go:7-55 | drawn tasks are input tasks, and an input task is drawn exactly when it is rooted |
| Tree.DrawnComplete | internal/ui/tree.go:7-55 | every rooted task is drawn |
| Tree.DrawnSound | internal/ui/tree.go:7-55 | every drawn task is an input task with a chain to a root |
| Tree.LayoutComplete | internal/ui/tree.go:20-53 | every chain from a root is visited |
| Tree.DanglingOmitted | internal/ui/tree.go:51-53 | a task whose parent is not in the input is never drawn |
| Tree.BuildTreeShape | internal/ui/tree.go:20-49 | with tree.go's glyphs each item is indented four characters per ancestor in both prefixes, and only a parentless task is unindented |
| Tree.LegacyBuildTreeShape | ui.go:134-157 | with ui.go's glyphs each item is indented three characters per ancestor, and only a parentless task is unindented |
| Tree.WalkFlags | internal/ui/tree.go:44-48 | in every visit each ancestor flag says whether that ancestor has a later sibling |
| Tree.LayoutShape | internal/ui/tree.go:20-49 | each item shows its task with one glyph per ancestor, correct sibling flags, and an empty prefix exactly for roots |
| Ui.StripCodeBlock | internal/ui/ui.go:586-609 | the line loop computes the stripped text |
| Ui.ScanCollectsInnerLines | internal/ui/ui.go:590-603 | every collected line is an input line that does not close a fence |
| Ui.ScanUnfenced | internal/ui/ui.go:590-603 | without an opening fence nothing is collected |
| Ui.ScanBlock | internal/ui/ui.go:590-603 | of one fenced block, exactly its body lines are collected |
| Ui.StripUnfenced | internal/ui/ui.go:604-607 | text without an opening fence comes back unchanged |
| Ui.StripFenced | internal/ui/ui.go:586-609 | text with one fenced, non-empty block gives back exactly the block's body |
| Ui.NextTagColor | internal/ui/ui.go:410-412 | the colour is always one of the palette's |
| Ui.NextTagColorPeriod | internal/ui/ui.go:410-412 | two counts get the same colour exactly when they agree modulo the palette size 8 |
| Ui.IdsOf | internal/ui/ui.go:314-317 | the marked set is the ids of the assigned tags |
| Ui.TagSelector.Open | internal/ui/ui.go:297-318 | the selector lists every tag in name order, marks the task's tags, and starts at the first line, not creating |
| Ui.TagSelector.Down | internal/ui/ui.go:449-452 | the cursor moves down, stopping at the "new tag" line; nothing else changes |
| Ui.TagSelector.Up | internal/ui/ui.go:453-456 | the cursor moves up, stopping at the first tag; nothing else changes |
| Ui.TagSelector.Choose | internal/ui/ui.go:457-478 | on a marked tag it unassigns it; on an unmarked one it assigns it or records the foreign-key error; on the last line it starts tag creation |
| Ui.TagSelector.Confirm | internal/ui/ui.go:418-435 | a blank name does nothing; a name in use records the UNIQUE error; otherwise the tag is created with the next palette colour, listed, and assigned |
| Ui.TagSelector.Cancel | internal/ui/ui.go:436-439 | leaves creation mode and changes nothing else |
| Ui.ToggleTwice | internal/ui/ui.go:457-472 | unassigning then reassigning a marked tag restores the database |
| Ui.Menus.constructor | internal/ui/ui.go:331-345 | opening either menu puts its cursor on the first option |
| Ui.Menus.GenDown | internal/ui/ui.go:490-493 | the generate cursor moves to the second option and stays there |
| Ui.Menus.GenUp | internal/ui/ui.go:494-497 | the generate cursor moves to the first option and stays there |
| Ui.Menus.ImportDown | internal/ui/ui.go:546-549 | the import cursor moves to the second option and stays there |
| Ui.Menus.ImportUp | internal/ui/ui.go:550-553 | the import cursor moves to the first option and stays there |
| Ui.Menus.ImportParent | internal/ui/ui.go:554-561 | the import has a parent exactly when "under the selected task" is chosen and a task is selected |
| Ui.DoImport | internal/ui/ui.go:571-584 | success exactly when the import succeeds, reporting the number of tasks created; an empty document is a failure |
| Importer.TagMap | internal/importer/yaml.go:97-100 | the map names every tag by its name |
| Importer.AssignOne | internal/importer/yaml.go:104-118 | a known name is assigned; an unknown one is created with the next palette colour, remembered and assigned |
| Importer.StepAssign | internal/importer/yaml.go:104-118 | one loop step extends the assigned names by one and keeps the map faithful |
| Importer.AssignTags | internal/importer/yaml.go:91-120 | the task ends up holding a tag of each given name; new tags are created only for unknown names, with palette colours |
| Importer.MapTagged | internal/importer/yaml.go:91-120 | after the loop every name is a tag the task holds |
| Importer.HeadRow | internal/importer/yaml.go:53-71 | the row gets the title, parent and creation time, and the description and due date only when given |
| Importer.ImportTask | internal/importer/yaml.go:48-89 | an empty title anywhere is TitleRequired; a missing parent is an Add error and changes nothing; on success Size tasks are created in pre-order with consecutive ids, fields and tags |
| Importer.ImportHead | internal/importer/yaml.go:49-77 | inserts the task with its description, due date and tags, or fails with the foreign-key error and changes nothing |
| Importer.ImportChildren | internal/importer/yaml.go:79-86 | imports the children in order under the new task and counts them |
| Importer.Import | internal/importer/yaml.go:27-46 | no tasks is an error; otherwise success exactly when the parent exists and every task has a title, creating SizeAll tasks in order; a failure keeps what was already created |
| Importer.ImportRoots | internal/importer/yaml.go:37-45 | the top-level loop imports each task in order and stops at the first error |
| Importer.ImportRoot | internal/importer/yaml.go:38-43 | one top-level task extends the tasks created so far |
| DateInput.Validate | internal/ui/dateinput.go:28-35 | a field's text is accepted exactly when every character is a digit |
| DateInput.PadLeft | internal/ui/dateinput.go:92-97 | the loop prepends zeros while the text is shorter than the width in UTF-8 bytes, as Go's len counts |
| DateInput.PaddedShape | internal/ui/dateinput.go:92-97 | padding reaches the width in bytes, keeps the text as its tail, adds only zeros, and leaves text already that many bytes long alone |
| DateInput.PaddedDigits | internal/ui/dateinput.go:92-97 | digits are one byte each, so padded digits are exactly the width in characters |
| DateInput.PadCountsBytes | internal/ui/dateinput.go:93 | a two-byte "é" already fills a two-character field and is left alone, while "7" becomes "07" |
| Text.ByteLen | internal/ui/dateinput.go:93 | a string's length in UTF-8 bytes, never less than its length in characters |
| DateInput.PaddedValue | internal/ui/dateinput.go:92-97 | padded digits read as the same number |
| DateInput.ValueOf | internal/ui/dateinput.go:66-90 | a blank day is "day is required"; otherwise the assembled text is returned exactly when it is a valid YYYY-MM-DD date, and reported as an invalid date with its text when it is not |
| DateInput.TypedDayAccepted | internal/ui/dateinput.go:66-90 | a day of one or two digits typed alone, within the current month, is accepted as that day of the current year and month |
| DateInput.Defaults | internal/ui/dateinput.go:73-78 | a blank year and month become the current ones, zero-padded |
| DateInput.PaddedNumber | internal/ui/dateinput.go:74-77 | %04d and %02d give exactly that many digits, reading back as the number |
| DateInput.Picker.constructor | internal/ui/dateinput.go:18-40 | three empty, unfocused fields with the focus index on the year |
| DateInput.Picker.IsEmpty | internal/ui/dateinput.go:99-101 | all three fields are empty; Picker.Value then reports that the day is required |
| DateInput.Picker.Value | internal/ui/dateinput.go:66-90 | a blank day field means "day is required"; otherwise the date assembled from the fields is returned exactly when it is valid, and reported with its text when it is not |
| DateInput.Picker.SetValue | internal/ui/dateinput.go:55-64 | the fields hold the first three hyphen-separated parts, blank where there are none |
| DateInput.Picker.Focus | internal/ui/dateinput.go:42-47 | the year field alone has the cursor |
| DateInput.Picker.Blur | internal/ui/dateinput.go:49-53 | no field has the cursor |
| DateInput.Picker.FocusField | internal/ui/dateinput.go:103-114 | exactly the chosen field has the cursor |
| DateInput.Picker.Next | internal/ui/dateinput.go:119-124 | tab moves the focus right and focuses only the new field; at the day field nothing changes |
| DateInput.Picker.Prev | internal/ui/dateinput.go:125-130 | shift+tab moves the focus left and focuses only the new field; at the year field nothing changes |
| DateInput.SplitDate | internal/ui/dateinput.go:55-64 | a date splits into its year, month and day |
| DateInput.DigitFields | internal/ui/dateinput.go:66-90 | fields holding a date's digits read back as that date |
| DateInput.SetThenValue | internal/ui/dateinput.go:55-90 | a date put into the picker reads back unchanged, whatever the clock says |
| Prompt.TagNames | internal/prompt/generate.go:57-60 | the tag names in order |
| Prompt.GenerateNew | internal/prompt/generate.go:32-38 | the assistant line, the request to break the user's goal down, and the format instructions; FramedAlike states that it shares its opening and ending with the breakdown prompt |
| Prompt.GenerateFromTask | internal/prompt/generate.go:41-81 | the builder produces the prompt assembled from its parts |
| Prompt.FramedAlike | internal/prompt/generate.go:32-81 | both prompts start with the assistant line and end with the format instructions; the breakdown prompt starts with the title block |
| Prompt.DescriptionShown | internal/prompt/generate.go:50-52 | the description line follows the title exactly when the description is set and not empty |
| Prompt.DueShown | internal/prompt/generate.go:53-55 | the due line follows the description exactly when a due date is set |
| Prompt.TagsShown | internal/prompt/generate.go:56-62 | the tag line follows the due line exactly when there are tags, naming them in order joined by ", " |
| Prompt.ChildrenShown | internal/prompt/generate.go:64-74 | the children section comes just before the format instructions exactly when there are children |
| Prompt.ChildLinesAppend | internal/prompt/generate.go:66-72 | the child lines of a list are those of its parts in order |
| Prompt.ChildLineStatus | internal/prompt/generate.go:66-72 | a child's line names it and says "done" exactly when it is completed |
| Prompt.JapaneseChildLine | internal/prompt/generate.go:66-71 | with the program's wording, a child's line is "- title (完了)" when it is completed and "- title (未完了)" otherwise |
| Prompt.JapaneseStatusWords | internal/prompt/generate.go:67-70 | the program's two status words differ |

## Left out

- Terminal I/O, rendering, key dispatch outside the modelled handlers, the clipboard, `main.go` and the default database path are not modelled. The list item views (`internal/ui/item.go`, `task.go`) are not modelled either.
- The clock is not modelled: "today", the current year and month, and creation times are parameters.
- `yaml.Unmarshal` is not modelled. The importer starts from parsed tasks, so the YAML parse error is not modelled.
- I/O errors of SQLite are not modelled. Only the deterministic failures are: a foreign-key violation on insert or assign, a UNIQUE violation on tag creation, and no row on read. For the same reason the importer's failure paths after a successful insert cannot occur in the model. These are UpdateDescription, SetDueDate and the tag assignments.
- WAL mode and the `PRAGMA foreign_keys` setting are not modelled. Foreign keys are taken as enforced.
- A store opens with empty tables. The model covers any on-disk column list, but not rows already on disk.
- Ties in creation time are not ordered. Rows created in the same second may appear in any order, as SQLite leaves them.
- Importer.Import: an error returns the partial count. The model states only that the count is bounded by the tasks created. It also uses one `now` for the whole import.
- Importer.ImportHead, Importer.ImportChildren, Importer.ImportRoots, Importer.ImportRoot, Store.TaskStore.RunMigrations and Store.TaskStore.ScanRows are parts of a single source function, split so that each proof stays small.
- Tree.BuildTree requires distinct task ids. With duplicate ids the Go walk can revisit a task without end. Go's `append(ancestors, ...)` may share a backing array between siblings. That is harmless because each flag is read before a later sibling overwrites it, and the model uses fresh sequences.
- DateInput.Validate accepts only ASCII digits. The source uses `unicode.IsDigit`, which also accepts other scripts' digits; the time parser rejects those afterwards.
- DateInput.Defaults requires a year of at most four digits.
- Store.TaskStore.Add, LegacyStore.TaskStore.Add: a parent id equal to the id the insert itself receives is rejected as a foreign-key violation. SQLite accepts such a self-referencing row, so the source can create a task that is its own parent. The model keeps every parent's id below its children's, and no caller in the program passes such an id: the UI passes an existing task and the importer passes the task it has just created.
- The text input widget is not modelled: its character limit, cursor, key editing and error display. The date picker's fields are plain strings.
- `ChildrenOf`, which supplies the children for the breakdown prompt, is not part of this model.
- The tag selector's escape back to the list is not modelled, nor the reload of the list. A failing ListTags or TagsForTask on opening the selector is not modelled either: those queries cannot fail in the model.
- The add form's empty-title check is a view-level filter and is not modelled.
