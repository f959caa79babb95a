/**
 * The prompts handed to a language model: one asking for a fresh task
 * breakdown, one asking to break an existing task into children. Both end with
 * the same instructions describing the YAML the importer reads back.
 *
 * The fixed phrases are gathered in a `Wording`; the program's own Japanese
 * text is `Japanese`, and every property below holds for any wording.
 */
module Prompt {
  import opened Wrappers
  import opened Text
  import opened Model

  /** The output-format instructions, with an example YAML code block. */
  const YamlFormat: string :=
    "以下のYAMLフォーマットで出力してください。YAMLのコードブロックのみを出力し、それ以外の文章は含めないでください。\n"
    + "\n"
    + "```yaml\n"
    + "tasks:\n"
    + "  - title: \"タスク名\"\n"
    + "    description: \"タスクの詳細説明\"\n"
    + "    due_date: \"YYYY-MM-DD\"\n"
    + "    tags:\n"
    + "      - \"タグ名\"\n"
    + "    children:\n"
    + "      - title: \"子タスク名\"\n"
    + "        description: \"子タスクの説明\"\n"
    + "```\n"
    + "\n"
    + "フィールドの説明:\n"
    + "- title: (必須) タスクのタイトル\n"
    + "- description: (任意) タスクの詳細な説明\n"
    + "- due_date: (任意) 期限日 (YYYY-MM-DD形式)\n"
    + "- tags: (任意) タグのリスト\n"
    + "- children: (任意) 子タスクのリスト (再帰的にネスト可能)"

  /** The fixed phrases of the two prompts, each with its own line breaks. */
  datatype Wording = Wording(
    assistant: string,         // first line of both prompts
    fromScratch: string,       // second line of the fresh-breakdown prompt
    breakdown: string,         // second line of the existing-task prompt, and a blank line
    target: string,           // heading over the task's fields
    titleLabel: string,
    descriptionLabel: string,
    dueLabel: string,
    tagsLabel: string,
    childrenHeading: string,
    done: string,
    pending: string,
    childrenClosing: string,
    format: string)

  const Japanese: Wording := Wording(
    "あなたはタスク管理のアシスタントです。\n",
    "ユーザーの要求に基づいて、タスクを適切な粒度に分解してください。\n",
    "以下の既存タスクをより具体的な子タスクに分解してください。\n\n",
    "## 対象タスク\n",
    "- タイトル: ",
    "- 説明: ",
    "- 期限: ",
    "- タグ: ",
    "\n## 既存の子タスク\n",
    "完了",
    "未完了",
    "\n上記の既存子タスクを考慮した上で、不足している子タスクを追加してください。\n",
    YamlFormat)

  /** How both prompts end. */
  function Ending(w: Wording): string
  {
    "\n" + w.format + "\n"
  }

  predicate StartsWith(s: string, prefix: string)
  {
    |prefix| <= |s| && s[..|prefix|] == prefix
  }

  predicate EndsWith(s: string, suffix: string)
  {
    |suffix| <= |s| && s[|s| - |suffix|..] == suffix
  }

  /** GenerateNew: the prompt for a breakdown from scratch. */
  function GenerateNew(w: Wording): string
  {
    w.assistant + w.fromScratch + "\n" + w.format + "\n"
  }

  // ---------------------------------------------------------------------------
  // The breakdown prompt for an existing task, piece by piece
  // ---------------------------------------------------------------------------

  /** The fixed opening and the title line. */
  function TitleBlock(w: Wording, t: Task): string
  {
    w.assistant + w.breakdown + w.target + (w.titleLabel + t.title + "\n")
  }

  function DescriptionLine(w: Wording, t: Task): string
  {
    if t.description.Some? && t.description.value != "" then w.descriptionLabel + t.description.value + "\n" else ""
  }

  function DueLine(w: Wording, t: Task): string
  {
    if t.dueDate.Some? then w.dueLabel + t.dueDate.value + "\n" else ""
  }

  /** The names of the tags, in order. */
  function TagNames(tags: seq<Tag>): (names: seq<string>)
    ensures |names| == |tags|
    ensures forall i :: 0 <= i < |tags| ==> names[i] == tags[i].name
  {
    if tags == [] then [] else TagNames(tags[..|tags| - 1]) + [tags[|tags| - 1].name]
  }

  function TagLine(w: Wording, t: Task): string
  {
    if |t.tags| > 0 then w.tagsLabel + Join(TagNames(t.tags), ", ") + "\n" else ""
  }

  /** The status word of a child. */
  function Status(w: Wording, completed: bool): string
  {
    if completed then w.done else w.pending
  }

  function ChildLine(w: Wording, c: Task): string
  {
    "- " + c.title + " (" + Status(w, c.completed) + ")\n"
  }

  /** One line per child, in order. */
  function ChildLines(w: Wording, children: seq<Task>): string
  {
    if children == [] then ""
    else ChildLines(w, children[..|children| - 1]) + ChildLine(w, children[|children| - 1])
  }

  function ChildrenSection(w: Wording, children: seq<Task>): string
  {
    if |children| > 0 then w.childrenHeading + ChildLines(w, children) + w.childrenClosing else ""
  }

  /** The whole breakdown prompt. */
  function FromTask(w: Wording, t: Task, children: seq<Task>): string
  {
    TitleBlock(w, t) + DescriptionLine(w, t) + DueLine(w, t) + TagLine(w, t) + ChildrenSection(w, children) + Ending(w)
  }

  /** GenerateFromTask: the prompt built up piece by piece in a string builder. */
  method GenerateFromTask(w: Wording, t: Task, children: seq<Task>) returns (r: string)
    ensures r == FromTask(w, t, children)
  {
    var sb := w.assistant;
    sb := sb + w.breakdown;
    sb := sb + w.target;
    sb := sb + (w.titleLabel + t.title + "\n");

    if t.description.Some? && t.description.value != "" {
      sb := sb + (w.descriptionLabel + t.description.value + "\n");
    } else {
      AppendEmpty(sb);
    }
    if t.dueDate.Some? {
      sb := sb + (w.dueLabel + t.dueDate.value + "\n");
    } else {
      AppendEmpty(sb);
    }
    if |t.tags| > 0 {
      var names: seq<string> := [];
      for i := 0 to |t.tags|
        invariant names == TagNames(t.tags[..i])
      {
        assert t.tags[..i + 1][..i] == t.tags[..i];
        names := names + [t.tags[i].name];
      }
      assert t.tags[..|t.tags|] == t.tags;
      sb := sb + (w.tagsLabel + Join(names, ", ") + "\n");
    } else {
      AppendEmpty(sb);
    }
    ghost var head := sb;

    if |children| > 0 {
      sb := sb + w.childrenHeading;
      ghost var before := sb;
      AppendEmpty(sb);
      for i := 0 to |children|
        invariant sb == before + ChildLines(w, children[..i])
      {
        assert children[..i + 1][..i] == children[..i];
        var status := w.pending;
        if children[i].completed {
          status := w.done;
        }
        Associative(before, ChildLines(w, children[..i]), ChildLine(w, children[i]));
        sb := sb + ("- " + children[i].title + " (" + status + ")\n");
      }
      assert children[..|children|] == children;
      sb := sb + w.childrenClosing;
      Associative(head, w.childrenHeading, ChildLines(w, children));
      Associative(head, w.childrenHeading + ChildLines(w, children), w.childrenClosing);
    } else {
      AppendEmpty(sb);
    }

    ghost var body := sb;
    sb := sb + "\n";
    sb := sb + w.format;
    sb := sb + "\n";
    Associative(body, "\n", w.format);
    Associative(body, "\n" + w.format, "\n");
    r := sb;
  }

  // ---------------------------------------------------------------------------
  // Concatenation facts about arbitrary strings
  // ---------------------------------------------------------------------------

  // Called at the exact terms a proof needs: the solver does not apply these
  // facts to long concatenations of its own accord, and runs out of resource.
  lemma AppendEmpty(a: string)
    ensures a + "" == a
  {
  }

  lemma Associative(a: string, b: string, c: string)
    ensures a + b + c == a + (b + c)
  {
  }

  /** Inserting `x` at a boundary of a concatenation. */
  lemma Splice(a: string, b: string, x: string)
    ensures |a| <= |a + b| && (a + b)[..|a|] == a && a + x + b == (a + b)[..|a|] + x + (a + b)[|a|..]
  {
    assert (a + b)[|a|..] == b;
  }

  // ---------------------------------------------------------------------------
  // What the breakdown prompt contains
  // ---------------------------------------------------------------------------

  /**
   * Both prompts open with the assistant line and close with the format
   * instructions; the breakdown prompt opens with the title line.
   */
  lemma FramedAlike(w: Wording, t: Task, children: seq<Task>)
    ensures StartsWith(FromTask(w, t, children), TitleBlock(w, t))
    ensures StartsWith(FromTask(w, t, children), w.assistant) && StartsWith(GenerateNew(w), w.assistant)
    ensures EndsWith(FromTask(w, t, children), Ending(w)) && EndsWith(GenerateNew(w), Ending(w))
  {
    var tb := TitleBlock(w, t);
    var middle := DescriptionLine(w, t) + DueLine(w, t) + TagLine(w, t) + ChildrenSection(w, children);
    assert FromTask(w, t, children) == tb + middle + Ending(w) by {
      Associative(tb, DescriptionLine(w, t), DueLine(w, t));
      Associative(tb, DescriptionLine(w, t) + DueLine(w, t), TagLine(w, t));
      Associative(tb, DescriptionLine(w, t) + DueLine(w, t) + TagLine(w, t), ChildrenSection(w, children));
    }
    Associative(tb, middle, Ending(w));
    Splice(tb, middle + Ending(w), "");
    Splice(tb + middle, Ending(w), "");
    var rest := w.breakdown + w.target + (w.titleLabel + t.title + "\n");
    assert tb == w.assistant + rest by {
      Associative(w.assistant, w.breakdown, w.target);
      Associative(w.assistant, w.breakdown + w.target, w.titleLabel + t.title + "\n");
    }
    Splice(w.assistant, rest, "");
    Splice(w.assistant, rest + middle + Ending(w), "");
    assert FromTask(w, t, children) == w.assistant + (rest + middle + Ending(w)) by {
      Associative(w.assistant, rest, middle);
      Associative(w.assistant, rest + middle, Ending(w));
    }
    var scratch := w.assistant + w.fromScratch;
    assert GenerateNew(w) == scratch + Ending(w) by {
      Associative(scratch, "\n", w.format);
      Associative(scratch, "\n" + w.format, "\n");
    }
    Splice(scratch, Ending(w), "");
    Splice(w.assistant, w.fromScratch + Ending(w), "");
    Associative(w.assistant, w.fromScratch, Ending(w));
  }

  /**
   * The description line appears, right after the title line, exactly when the
   * description is set and not empty; an empty description reads as none, and
   * nothing else in the prompt depends on it.
   */
  lemma DescriptionShown(w: Wording, t: Task, children: seq<Task>, d: string)
    ensures var without := FromTask(w, t.(description := None), children);
      && FromTask(w, t.(description := Some("")), children) == without
      && StartsWith(without, TitleBlock(w, t))
      && (d != "" ==> FromTask(w, t.(description := Some(d)), children)
                      == TitleBlock(w, t) + (w.descriptionLabel + d + "\n") + without[|TitleBlock(w, t)|..])
  {
    var tb := TitleBlock(w, t);
    var rest := DueLine(w, t) + TagLine(w, t) + ChildrenSection(w, children) + Ending(w);
    var without := FromTask(w, t.(description := None), children);
    assert without == tb + rest by {
      AppendEmpty(tb);
      Associative(tb, DueLine(w, t), TagLine(w, t));
      Associative(tb, DueLine(w, t) + TagLine(w, t), ChildrenSection(w, children));
      Associative(tb, DueLine(w, t) + TagLine(w, t) + ChildrenSection(w, children), Ending(w));
    }
    var x := w.descriptionLabel + d + "\n";
    Splice(tb, rest, x);
    if d != "" {
      assert FromTask(w, t.(description := Some(d)), children) == tb + x + rest by {
        Associative(tb + x, DueLine(w, t), TagLine(w, t));
        Associative(tb + x, DueLine(w, t) + TagLine(w, t), ChildrenSection(w, children));
        Associative(tb + x, DueLine(w, t) + TagLine(w, t) + ChildrenSection(w, children), Ending(w));
      }
    }
  }

  /** The due line appears, after the description, exactly when a due date is set. */
  lemma DueShown(w: Wording, t: Task, children: seq<Task>, due: string)
    ensures var without := FromTask(w, t.(dueDate := None), children);
      var k := |TitleBlock(w, t) + DescriptionLine(w, t)|;
      && k <= |without|
      && FromTask(w, t.(dueDate := Some(due)), children)
         == without[..k] + (w.dueLabel + due + "\n") + without[k..]
  {
    var head := TitleBlock(w, t) + DescriptionLine(w, t);
    var rest := TagLine(w, t) + ChildrenSection(w, children) + Ending(w);
    var x := w.dueLabel + due + "\n";
    assert FromTask(w, t.(dueDate := None), children) == head + rest by {
      AppendEmpty(head);
      Associative(head, TagLine(w, t), ChildrenSection(w, children));
      Associative(head, TagLine(w, t) + ChildrenSection(w, children), Ending(w));
    }
    assert FromTask(w, t.(dueDate := Some(due)), children) == head + x + rest by {
      Associative(head + x, TagLine(w, t), ChildrenSection(w, children));
      Associative(head + x, TagLine(w, t) + ChildrenSection(w, children), Ending(w));
    }
    Splice(head, rest, x);
  }

  /**
   * The tag line appears, after the due line, exactly when the task has tags,
   * and lists their names in order separated by ", ".
   */
  lemma TagsShown(w: Wording, t: Task, children: seq<Task>, tags: seq<Tag>)
    requires |tags| > 0
    ensures var without := FromTask(w, t.(tags := []), children);
      var k := |TitleBlock(w, t) + DescriptionLine(w, t) + DueLine(w, t)|;
      && k <= |without|
      && FromTask(w, t.(tags := tags), children)
         == without[..k] + (w.tagsLabel + Join(TagNames(tags), ", ") + "\n") + without[k..]
  {
    var head := TitleBlock(w, t) + DescriptionLine(w, t) + DueLine(w, t);
    var rest := ChildrenSection(w, children) + Ending(w);
    var x := w.tagsLabel + Join(TagNames(tags), ", ") + "\n";
    assert FromTask(w, t.(tags := []), children) == head + rest by {
      AppendEmpty(head);
      Associative(head, ChildrenSection(w, children), Ending(w));
    }
    assert FromTask(w, t.(tags := tags), children) == head + x + rest by {
      Associative(head + x, ChildrenSection(w, children), Ending(w));
    }
    Splice(head, rest, x);
  }

  /**
   * The children section appears, just before the format instructions, exactly
   * when there are children.
   */
  lemma ChildrenShown(w: Wording, t: Task, children: seq<Task>)
    requires |children| > 0
    ensures var without := FromTask(w, t, []);
      var k := |without| - |Ending(w)|;
      && EndsWith(without, Ending(w))
      && FromTask(w, t, children) == without[..k] + ChildrenSection(w, children) + without[k..]
  {
    var head := TitleBlock(w, t) + DescriptionLine(w, t) + DueLine(w, t) + TagLine(w, t);
    AppendEmpty(head);
    Splice(head, Ending(w), ChildrenSection(w, children));
  }

  /** The child lines of a list are those of its parts in order. */
  lemma {:induction false} ChildLinesAppend(w: Wording, a: seq<Task>, b: seq<Task>)
    ensures ChildLines(w, a + b) == ChildLines(w, a) + ChildLines(w, b)
    decreases |b|
  {
    if b == [] {
      assert a + b == a;
      AppendEmpty(ChildLines(w, a));
    } else {
      var init := b[..|b| - 1];
      ChildLinesAppend(w, a, init);
      assert (a + b)[..|a + b| - 1] == a + init;
      Associative(ChildLines(w, a), ChildLines(w, init), ChildLine(w, b[|b| - 1]));
    }
  }

  /**
   * A child's line names it and carries the "done" word exactly when it is
   * completed, as long as the two status words differ, as they do in Japanese.
   */
  lemma ChildLineStatus(w: Wording, c: Task)
    requires w.done != w.pending
    ensures ChildLines(w, [c]) == "- " + c.title + " (" + Status(w, c.completed) + ")\n"
    ensures Status(w, c.completed) == w.done <==> c.completed
  {
    assert [c][..0] == [];
  }

  lemma JapaneseStatusWords()
    ensures Japanese.done != Japanese.pending
  {
    assert |Japanese.done| == 2 && |Japanese.pending| == 3;
  }
  /** With the program's own words, a child's line says 完了 exactly when it is completed. */
  lemma JapaneseChildLine(c: Task)
    ensures ChildLines(Japanese, [c]) == "- " + c.title + " (" + Japanese.done + ")\n" <==> c.completed
    ensures ChildLines(Japanese, [c]) == "- " + c.title + " (" + Japanese.pending + ")\n" <==> !c.completed
  {
    JapaneseStatusWords();
    ChildLineStatus(Japanese, c);
    var pre, post := "- " + c.title + " (", ")\n";
    if c.completed {
      assert |pre + Japanese.pending + post| != |pre + Japanese.done + post|;
    } else {
      assert |pre + Japanese.done + post| != |pre + Japanese.pending + post|;
    }
  }
}
