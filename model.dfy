/**
 * The task and tag records shared by the store, the tree view, the importer and
 * the prompt generator, with the date predicates the list view uses to mark a task.
 * "Today" is the current local date as a YYYY-MM-DD string, passed in rather than
 * read from the clock.
 */
module Model {
  import opened Wrappers
  import opened Text

  /** A named, coloured label; `color` is a 256-colour terminal code such as "39". */
  datatype Tag = Tag(id: int, name: string, color: string)

  /**
   * A task as the store hands it out. `createdAt` is the creation time in whole
   * seconds; `tags` is derived from the task-tag join table.
   */
  datatype Task = Task(
    id: int,
    title: string,
    description: Option<string>,
    completed: bool,
    parentId: Option<int>,
    createdAt: int,
    scheduledOn: Option<string>,
    dueDate: Option<string>,
    tags: seq<Tag>)

  /** The colours given round-robin to tags created without an explicit colour. */
  const TagPalette: seq<string> := ["39", "205", "148", "214", "141", "81", "203", "227"]

  /** The task is scheduled for today. */
  predicate IsToday(t: Task, today: string)
  {
    t.scheduledOn.Some? && t.scheduledOn.value == today
  }

  /** The task is due today. */
  predicate IsDueToday(t: Task, today: string)
  {
    t.dueDate.Some? && t.dueDate.value == today
  }

  /** The task is still open and its due date sorts before today. */
  predicate IsOverdue(t: Task, today: string)
  {
    t.dueDate.Some? && !t.completed && Less(t.dueDate.value, today)
  }

  /** A task is never marked both overdue and due today. */
  lemma OverdueExcludesDueToday(t: Task, today: string)
    ensures !(IsOverdue(t, today) && IsDueToday(t, today))
  {
    if t.dueDate.Some? {
      LessIrreflexive(today);
    }
  }

  /** Once overdue, an open task stays overdue on every later day. */
  lemma OverdueStaysOverdue(t: Task, today: string, later: string)
    requires IsOverdue(t, today) && Less(today, later)
    ensures IsOverdue(t, later) && !IsDueToday(t, later)
  {
    LessTransitive(t.dueDate.value, today, later);
    LessIrreflexive(later);
  }

  /**
   * An open task with a due date is exactly one of overdue, due today, or due
   * on a later day.
   */
  lemma DueDateClassification(t: Task, today: string)
    requires t.dueDate.Some? && !t.completed
    ensures IsOverdue(t, today) || IsDueToday(t, today) || Less(today, t.dueDate.value)
    ensures !(IsOverdue(t, today) && IsDueToday(t, today))
    ensures !(IsOverdue(t, today) && Less(today, t.dueDate.value))
    ensures !(IsDueToday(t, today) && Less(today, t.dueDate.value))
  {
    LessIrreflexive(today);
    if t.dueDate.value != today {
      LessTotal(t.dueDate.value, today);
    }
    if IsOverdue(t, today) {
      LessAsymmetric(t.dueDate.value, today);
    }
  }
}
