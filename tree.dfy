/**
 * The tree view's layout: a flat task list grouped by parent and walked depth
 * first from the roots, each task drawn after a prefix built from one flag per
 * level ("this ancestor still has a sibling below it"). The same algorithm serves
 * both versions of the program, which differ only in their box-drawing segments.
 *
 * The walk is specified by ghost functions over the path from a root to the
 * task being visited; `BuildTree` is proved to produce exactly that walk.
 */
module Tree {
  import opened Wrappers
  import Model
  import LegacyStore

  /** The two fields of a task the layout reads: its id and its parent's id. */
  datatype Link = Link(id: int, parent: Option<int>)

  /** A task with its tree-drawing prefixes (TaskItem). */
  datatype Item<T> = Item(task: T, prefix: string, descPrefix: string)

  /** The four segments a prefix is drawn from. */
  datatype Glyphs = Glyphs(bar: string, blank: string, tee: string, elbow: string)

  /** The segments of the current tree view. */
  const Boxed: Glyphs := Glyphs(" │  ", "    ", " ├─ ", " └─ ")

  /** The segments of the first version's tree view. */
  const Plain: Glyphs := Glyphs("│  ", "   ", "├─ ", "└─ ")

  function TaskLink(t: Model.Task): Link
  {
    Link(t.id, t.parentId)
  }

  function LegacyLink(t: LegacyStore.Task): Link
  {
    Link(t.id, t.parentId)
  }

  // ---------------------------------------------------------------------------
  // Prefixes: a function of the ancestor flags alone
  // ---------------------------------------------------------------------------

  /** Every segment has `w` characters. */
  predicate Uniform(g: Glyphs, w: nat)
  {
    |g.bar| == w && |g.blank| == w && |g.tee| == w && |g.elbow| == w
  }

  lemma GlyphWidths()
    ensures Uniform(Boxed, 4) && Uniform(Plain, 3)
  {
  }

  /** The column under an ancestor: a bar while that ancestor has a later sibling. */
  function Column(g: Glyphs, hasSibling: bool): string
  {
    if hasSibling then g.bar else g.blank
  }

  /** One column per flag, in order. */
  function Columns(g: Glyphs, flags: seq<bool>): string
  {
    if |flags| == 0 then "" else Columns(g, flags[..|flags| - 1]) + Column(g, flags[|flags| - 1])
  }

  /** The connector in front of the task: a tee when more siblings follow, else an elbow. */
  function Prefix(g: Glyphs, ancestors: seq<bool>): string
  {
    if |ancestors| == 0 then ""
    else
      var d := |ancestors|;
      Columns(g, ancestors[..d - 1]) + Connector(g, ancestors[d - 1])
  }

  /** The continuation drawn in front of the description line. */
  function DescPrefix(g: Glyphs, ancestors: seq<bool>): string
  {
    if |ancestors| == 0 then ""
    else
      var d := |ancestors|;
      Columns(g, ancestors[..d - 1]) + Column(g, ancestors[d - 1])
  }

  /** The connector at the task's own level. */
  function Connector(g: Glyphs, hasSibling: bool): string
  {
    if hasSibling then g.tee else g.elbow
  }

  /** Strings written one after the other. */
  function Concat(parts: seq<string>): string
  {
    if |parts| == 0 then "" else Concat(parts[..|parts| - 1]) + parts[|parts| - 1]
  }

  /**
   * The segments of a prefix, level by level: a column for each ancestor level
   * above the parent, then the connector.
   */
  function PrefixParts(g: Glyphs, ancestors: seq<bool>): (r: seq<string>)
    ensures |r| == |ancestors|
  {
    seq(|ancestors|, k requires 0 <= k < |ancestors| =>
      if k < |ancestors| - 1 then Column(g, ancestors[k]) else Connector(g, ancestors[k]))
  }

  /** The segments of a description prefix: a column for every level. */
  function DescParts(g: Glyphs, ancestors: seq<bool>): (r: seq<string>)
    ensures |r| == |ancestors|
  {
    seq(|ancestors|, k requires 0 <= k < |ancestors| => Column(g, ancestors[k]))
  }

  lemma {:induction false} ColumnsParts(g: Glyphs, flags: seq<bool>)
    ensures Columns(g, flags) == Concat(DescParts(g, flags))
  {
    if |flags| > 0 {
      var n := |flags| - 1;
      ColumnsParts(g, flags[..n]);
      assert DescParts(g, flags)[..n] == DescParts(g, flags[..n]);
    }
  }

  lemma {:induction false} ConcatWidth(parts: seq<string>, w: nat)
    requires forall k :: 0 <= k < |parts| ==> |parts[k]| == w
    ensures |Concat(parts)| == w * |parts|
  {
    if |parts| > 0 {
      var n := |parts| - 1;
      ConcatWidth(parts[..n], w);
      assert w * |parts| == w * n + w;
    }
  }

  /**
   * Both prefixes are their segments written in order, one segment per level;
   * they agree on every level above the parent, and with uniform segments a
   * prefix is empty exactly at a root.
   */
  lemma PrefixSegments(g: Glyphs, w: nat, ancestors: seq<bool>)
    requires Uniform(g, w)
    ensures Prefix(g, ancestors) == Concat(PrefixParts(g, ancestors))
    ensures DescPrefix(g, ancestors) == Concat(DescParts(g, ancestors))
    ensures |Prefix(g, ancestors)| == w * |ancestors| == |DescPrefix(g, ancestors)|
    ensures w > 0 ==> (Prefix(g, ancestors) == "" <==> |ancestors| == 0)
    ensures w > 0 ==> (DescPrefix(g, ancestors) == "" <==> |ancestors| == 0)
  {
    if |ancestors| > 0 {
      var n := |ancestors| - 1;
      ColumnsParts(g, ancestors[..n]);
      assert PrefixParts(g, ancestors)[..n] == DescParts(g, ancestors[..n]);
      assert DescParts(g, ancestors)[..n] == DescParts(g, ancestors[..n]);
    }
    ConcatWidth(PrefixParts(g, ancestors), w);
    ConcatWidth(DescParts(g, ancestors), w);
  }

  /** The prefix loop: one column per ancestor above the parent, then the connector. */
  method Prefixes(g: Glyphs, ancestors: seq<bool>) returns (prefix: string, descPrefix: string)
    ensures prefix == Prefix(g, ancestors) && descPrefix == DescPrefix(g, ancestors)
  {
    prefix, descPrefix := "", "";
    var depth := |ancestors|;
    if depth > 0 {
      for k := 0 to depth - 1
        invariant prefix == descPrefix == Columns(g, ancestors[..k])
      {
        assert ancestors[..k + 1][..k] == ancestors[..k];
        if ancestors[k] {
          prefix := prefix + g.bar;
          descPrefix := descPrefix + g.bar;
        } else {
          prefix := prefix + g.blank;
          descPrefix := descPrefix + g.blank;
        }
      }
      if ancestors[depth - 1] {
        prefix := prefix + g.tee;
        descPrefix := descPrefix + g.bar;
      } else {
        prefix := prefix + g.elbow;
        descPrefix := descPrefix + g.blank;
      }
    }
  }

  // ---------------------------------------------------------------------------
  // Grouping by parent
  // ---------------------------------------------------------------------------

  /** No two tasks share an id, as the store guarantees. */
  predicate DistinctIds<T(!new)>(tasks: seq<T>, link: T -> Link)
  {
    forall i, j :: 0 <= i < j < |tasks| ==> link(tasks[i]).id != link(tasks[j]).id
  }

  /** The tasks whose parent is `p`, in input order. */
  function KidsOf<T(!new)>(tasks: seq<T>, link: T -> Link, p: int): (r: seq<T>)
    ensures forall t :: t in r <==> t in tasks && link(t).parent == Some(p)
    ensures DistinctIds(tasks, link) ==> DistinctIds(r, link)
  {
    if |tasks| == 0 then []
    else
      var n := |tasks| - 1;
      var rest := KidsOf(tasks[..n], link, p);
      assert tasks == tasks[..n] + [tasks[n]];
      if link(tasks[n]).parent == Some(p) then rest + [tasks[n]] else rest
  }

  /** The tasks with no parent, in input order. */
  function RootsOf<T(!new)>(tasks: seq<T>, link: T -> Link): (r: seq<T>)
    ensures forall t :: t in r <==> t in tasks && link(t).parent.None?
    ensures DistinctIds(tasks, link) ==> DistinctIds(r, link)
  {
    if |tasks| == 0 then []
    else
      var n := |tasks| - 1;
      var rest := RootsOf(tasks[..n], link);
      assert tasks == tasks[..n] + [tasks[n]];
      if link(tasks[n]).parent.None? then rest + [tasks[n]] else rest
  }

  function Children<T(!new)>(children: map<int, seq<T>>, p: int): seq<T>
  {
    if p in children then children[p] else []
  }

  /** The grouping loop: roots in order, and each parent's children in order. */
  method Group<T(!new)>(tasks: seq<T>, link: T -> Link) returns (children: map<int, seq<T>>, roots: seq<T>)
    ensures roots == RootsOf(tasks, link)
    ensures forall p :: Children(children, p) == KidsOf(tasks, link, p)
  {
    children := map[];
    roots := [];
    for i := 0 to |tasks|
      invariant roots == RootsOf(tasks[..i], link)
      invariant forall p :: Children(children, p) == KidsOf(tasks[..i], link, p)
    {
      assert tasks[..i + 1][..i] == tasks[..i];
      var t := tasks[i];
      match link(t).parent {
        case None =>
          roots := roots + [t];
        case Some(p) =>
          children := children[p := Children(children, p) + [t]];
      }
    }
    assert tasks[..|tasks|] == tasks;
  }

  // ---------------------------------------------------------------------------
  // The walk, over root-to-task paths
  // ---------------------------------------------------------------------------

  function Last<T(!new)>(s: seq<T>): T
    requires |s| > 0
  {
    s[|s| - 1]
  }

  /** A path from a root down to a task: each step goes to a child of the previous task. */
  ghost predicate Chain<T(!new)>(tasks: seq<T>, link: T -> Link, path: seq<T>)
  {
    && |path| > 0
    && (forall k :: 0 <= k < |path| ==> path[k] in tasks)
    && link(path[0]).parent.None?
    && forall k :: 0 < k < |path| ==> link(path[k]).parent == Some(link(path[k - 1]).id)
  }

  /** The task is reachable from a root along parent links. */
  ghost predicate Rooted<T(!new)>(tasks: seq<T>, link: T -> Link, t: T)
  {
    exists path :: Chain(tasks, link, path) && Last(path) == t
  }

  ghost function IdSet<T(!new)>(tasks: seq<T>, link: T -> Link): set<int>
  {
    set t | t in tasks :: link(t).id
  }

  ghost function PathIds<T(!new)>(path: seq<T>, link: T -> Link): set<int>
  {
    set k | 0 <= k < |path| :: link(path[k]).id
  }

  /** One visit of the walk: the path to the task and the flags passed down to it. */
  datatype Visit<T> = Visit(path: seq<T>, ancestors: seq<bool>)

  ghost predicate WellFormed<T(!new)>(tasks: seq<T>, link: T -> Link, v: Visit<T>)
  {
    Chain(tasks, link, v.path) && |v.ancestors| == |v.path| - 1
  }

  /** The visit of the last task of `path`, then of its subtree. */
  ghost function Walk<T(!new)>(tasks: seq<T>, link: T -> Link, path: seq<T>, ancestors: seq<bool>): (r: seq<Visit<T>>)
    requires DistinctIds(tasks, link) && Chain(tasks, link, path) && |ancestors| == |path| - 1
    ensures |r| > 0 && r[0] == Visit(path, ancestors)
    ensures forall v :: v in r ==>
      && WellFormed(tasks, link, v)
      && |v.path| >= |path| && v.path[..|path|] == path && v.ancestors[..|ancestors|] == ancestors
    decreases IdSet(tasks, link) - PathIds(path, link), 1, 0
  {
    var kids := KidsOf(tasks, link, link(Last(path)).id);
    [Visit(path, ancestors)] + WalkKids(tasks, link, path, ancestors, kids, 0)
  }

  /** The subtrees of kids[i..], one after the other. */
  ghost function WalkKids<T(!new)>(tasks: seq<T>, link: T -> Link, path: seq<T>, ancestors: seq<bool>,
                                 kids: seq<T>, i: nat): (r: seq<Visit<T>>)
    requires DistinctIds(tasks, link) && Chain(tasks, link, path) && |ancestors| == |path| - 1
    requires kids == KidsOf(tasks, link, link(Last(path)).id) && i <= |kids|
    ensures forall v :: v in r ==>
      && WellFormed(tasks, link, v)
      && |v.path| > |path| && v.path[..|path|] == path && v.ancestors[..|ancestors|] == ancestors
      && v.path[|path|] in kids[i..]
    decreases IdSet(tasks, link) - PathIds(path, link), 0, |kids| - i
  {
    if i == |kids| then []
    else
      var c := kids[i];
      ChainExtend(tasks, link, path, c);
      PathIdsSnoc(path, link, c);
      var sub := Walk(tasks, link, path + [c], ancestors + [i != |kids| - 1]);
      var rest := WalkKids(tasks, link, path, ancestors, kids, i + 1);
      SubtreeVisits(tasks, link, path, ancestors, c, i != |kids| - 1, sub);
      assert kids[i..] == [c] + kids[i + 1..];
      sub + rest
  }

  /** The visits of a child's subtree all run through the parent's path and then the child. */
  lemma SubtreeVisits<T(!new)>(tasks: seq<T>, link: T -> Link, path: seq<T>, ancestors: seq<bool>, c: T, flag: bool,
                               sub: seq<Visit<T>>)
    requires forall v :: v in sub ==>
      && |v.path| >= |path| + 1 && v.path[..|path| + 1] == path + [c]
      && |v.ancestors| >= |ancestors| + 1 && v.ancestors[..|ancestors| + 1] == ancestors + [flag]
    ensures forall v :: v in sub ==>
      && |v.path| > |path| && v.path[..|path|] == path && v.ancestors[..|ancestors|] == ancestors
      && v.path[|path|] == c
  {
    forall v | v in sub
      ensures v.path[..|path|] == path && v.ancestors[..|ancestors|] == ancestors && v.path[|path|] == c
    {
      assert v.path[..|path| + 1][..|path|] == v.path[..|path|];
      assert v.ancestors[..|ancestors| + 1][..|ancestors|] == v.ancestors[..|ancestors|];
      assert v.path[|path|] == v.path[..|path| + 1][|path|];
    }
  }

  /** The trees of roots[i..], one after the other. */
  ghost function WalkRoots<T(!new)>(tasks: seq<T>, link: T -> Link, roots: seq<T>, i: nat): (r: seq<Visit<T>>)
    requires DistinctIds(tasks, link) && roots == RootsOf(tasks, link) && i <= |roots|
    ensures forall v :: v in r ==> WellFormed(tasks, link, v) && v.path[0] in roots[i..]
    decreases |roots| - i
  {
    if i == |roots| then []
    else
      var sub := Walk(tasks, link, [roots[i]], []);
      assert forall v :: v in sub ==> v.path[0] == v.path[..1][0];
      sub + WalkRoots(tasks, link, roots, i + 1)
  }

  /** The whole pre-order walk: each root's tree in input order. */
  ghost function Layout<T(!new)>(tasks: seq<T>, link: T -> Link): (r: seq<Visit<T>>)
    requires DistinctIds(tasks, link)
    ensures forall v :: v in r ==> WellFormed(tasks, link, v)
  {
    WalkRoots(tasks, link, RootsOf(tasks, link), 0)
  }

  function ItemOf<T(!new)>(g: Glyphs, task: T, ancestors: seq<bool>): Item<T>
  {
    Item(task, Prefix(g, ancestors), DescPrefix(g, ancestors))
  }

  /** The items drawn for a sequence of visits. */
  ghost function Render<T(!new)>(g: Glyphs, vs: seq<Visit<T>>): (r: seq<Item<T>>)
    requires forall v :: v in vs ==> |v.path| > 0
    ensures |r| == |vs|
    ensures forall i :: 0 <= i < |vs| ==> r[i] == ItemOf(g, Last(vs[i].path), vs[i].ancestors)
  {
    if |vs| == 0 then []
    else [ItemOf(g, Last(vs[0].path), vs[0].ancestors)] + Render(g, vs[1..])
  }

  lemma RenderAppend<T(!new)>(g: Glyphs, a: seq<Visit<T>>, b: seq<Visit<T>>)
    requires forall v :: v in a + b ==> |v.path| > 0
    ensures Render(g, a + b) == Render(g, a) + Render(g, b)
  {
    assert forall v :: v in a ==> v in a + b;
    assert forall v :: v in b ==> v in a + b;
  }

  // ---------------------------------------------------------------------------
  // Paths
  // ---------------------------------------------------------------------------

  /** With distinct ids, a task is determined by its id. */
  lemma SameId<T(!new)>(tasks: seq<T>, link: T -> Link, a: T, b: T)
    requires DistinctIds(tasks, link) && a in tasks && b in tasks && link(a).id == link(b).id
    ensures a == b
  {
    var i :| 0 <= i < |tasks| && tasks[i] == a;
    var j :| 0 <= j < |tasks| && tasks[j] == b;
    assert link(tasks[i]).id == link(tasks[j]).id;
    assert i == j;
  }

  /** A task has at most one path from a root. */
  lemma {:induction false} ChainUnique<T(!new)>(tasks: seq<T>, link: T -> Link, p: seq<T>, q: seq<T>)
    requires DistinctIds(tasks, link) && Chain(tasks, link, p) && Chain(tasks, link, q) && Last(p) == Last(q)
    ensures p == q
    decreases |p|
  {
    var m, n := |p| - 1, |q| - 1;
    assert m > 0 ==> link(p[m]).parent == Some(link(p[m - 1]).id);
    assert n > 0 ==> link(q[n]).parent == Some(link(q[n - 1]).id);
    if m > 0 && n > 0 {
      SameId(tasks, link, p[m - 1], q[n - 1]);
      assert Chain(tasks, link, p[..m]) && Chain(tasks, link, q[..n]);
      ChainUnique(tasks, link, p[..m], q[..n]);
      assert p == p[..m] + [Last(p)] && q == q[..n] + [Last(q)];
    } else {
      assert p == [Last(p)] && q == [Last(q)];
    }
  }

  lemma PathIdsSnoc<T(!new)>(path: seq<T>, link: T -> Link, c: T)
    ensures PathIds(path + [c], link) == PathIds(path, link) + {link(c).id}
  {
    var p := path + [c];
    assert forall k :: 0 <= k < |path| ==> p[k] == path[k];
    assert p[|path|] == c;
  }

  /** A child of the last task extends a path, and its id is not yet on it. */
  lemma ChainExtend<T(!new)>(tasks: seq<T>, link: T -> Link, path: seq<T>, c: T)
    requires DistinctIds(tasks, link) && Chain(tasks, link, path)
    requires c in KidsOf(tasks, link, link(Last(path)).id)
    ensures Chain(tasks, link, path + [c])
    ensures link(c).id in IdSet(tasks, link) && link(c).id !in PathIds(path, link)
  {
    var p := path + [c];
    ChainSnoc(tasks, link, path, c);
    if link(c).id in PathIds(path, link) {
      var k :| 0 <= k < |path| && link(path[k]).id == link(c).id;
      var q := path[..k + 1];
      ChainPrefix(tasks, link, path, k + 1);
      SameId(tasks, link, path[k], c);
      assert Last(q) == Last(p) && |q| < |p|;
      ChainUnique(tasks, link, q, p);
      assert false;
    }
  }

  lemma ChainSnoc<T(!new)>(tasks: seq<T>, link: T -> Link, path: seq<T>, c: T)
    requires Chain(tasks, link, path)
    requires c in tasks && link(c).parent == Some(link(Last(path)).id)
    ensures Chain(tasks, link, path + [c])
  {
    var p := path + [c];
    assert forall k :: 0 <= k < |path| ==> p[k] == path[k];
  }

  lemma ChainPrefix<T(!new)>(tasks: seq<T>, link: T -> Link, path: seq<T>, n: nat)
    requires Chain(tasks, link, path) && 0 < n <= |path|
    ensures Chain(tasks, link, path[..n])
  {
  }

  // ---------------------------------------------------------------------------
  // BuildTree
  // ---------------------------------------------------------------------------

  /** Visiting a task draws it, then the subtrees of its children. */
  lemma RenderWalk<T(!new)>(tasks: seq<T>, link: T -> Link, g: Glyphs, path: seq<T>, ancestors: seq<bool>)
    requires DistinctIds(tasks, link) && Chain(tasks, link, path) && |ancestors| == |path| - 1
    ensures Render(g, Walk(tasks, link, path, ancestors)) ==
      [ItemOf(g, Last(path), ancestors)] +
      Render(g, WalkKids(tasks, link, path, ancestors, KidsOf(tasks, link, link(Last(path)).id), 0))
  {
    RenderAppend(g, [Visit(path, ancestors)],
                 WalkKids(tasks, link, path, ancestors, KidsOf(tasks, link, link(Last(path)).id), 0));
  }

  /** The children's subtrees: kids[i]'s own, then those of the later kids. */
  lemma RenderWalkKids<T(!new)>(tasks: seq<T>, link: T -> Link, g: Glyphs, path: seq<T>, ancestors: seq<bool>,
                                kids: seq<T>, i: nat)
    requires DistinctIds(tasks, link) && Chain(tasks, link, path) && |ancestors| == |path| - 1
    requires kids == KidsOf(tasks, link, link(Last(path)).id) && i < |kids|
    ensures Chain(tasks, link, path + [kids[i]])
    ensures IdSet(tasks, link) - PathIds(path + [kids[i]], link) < IdSet(tasks, link) - PathIds(path, link)
    ensures Render(g, WalkKids(tasks, link, path, ancestors, kids, i)) ==
      Render(g, Walk(tasks, link, path + [kids[i]], ancestors + [i != |kids| - 1])) +
      Render(g, WalkKids(tasks, link, path, ancestors, kids, i + 1))
  {
    ChainExtend(tasks, link, path, kids[i]);
    PathIdsSnoc(path, link, kids[i]);
    RenderAppend(g, Walk(tasks, link, path + [kids[i]], ancestors + [i != |kids| - 1]),
                 WalkKids(tasks, link, path, ancestors, kids, i + 1));
  }

  /** The whole drawing: roots[i]'s tree, then those of the later roots. */
  lemma RenderWalkRoots<T(!new)>(tasks: seq<T>, link: T -> Link, g: Glyphs, roots: seq<T>, i: nat)
    requires DistinctIds(tasks, link) && roots == RootsOf(tasks, link) && i < |roots|
    ensures Chain(tasks, link, [roots[i]])
    ensures Render(g, WalkRoots(tasks, link, roots, i)) ==
      Render(g, Walk(tasks, link, [roots[i]], [])) + Render(g, WalkRoots(tasks, link, roots, i + 1))
  {
    RootChain(tasks, link, roots, i);
    RenderAppend(g, Walk(tasks, link, [roots[i]], []), WalkRoots(tasks, link, roots, i + 1));
  }

  /**
   * The recursive visit: append the task's item, then visit its children in
   * order, telling each whether a later sibling follows it.
   */
  method Dfs<T(!new)>(tasks: seq<T>, link: T -> Link, g: Glyphs, children: map<int, seq<T>>,
                      task: T, ancestors: seq<bool>, ghost path: seq<T>, items: seq<Item<T>>)
    returns (out: seq<Item<T>>)
    requires DistinctIds(tasks, link) && Chain(tasks, link, path) && |ancestors| == |path| - 1
    requires task == Last(path)
    requires forall p :: Children(children, p) == KidsOf(tasks, link, p)
    ensures out == items + Render(g, Walk(tasks, link, path, ancestors))
    decreases IdSet(tasks, link) - PathIds(path, link)
  {
    var prefix, descPrefix := Prefixes(g, ancestors);
    out := items + [Item(task, prefix, descPrefix)];
    var kids := Children(children, link(task).id);
    assert kids == KidsOf(tasks, link, link(Last(path)).id);
    RenderWalk(tasks, link, g, path, ancestors);
    AppendAssoc(items, [ItemOf(g, task, ancestors)], Render(g, WalkKids(tasks, link, path, ancestors, kids, 0)));
    for idx := 0 to |kids|
      invariant out + Render(g, WalkKids(tasks, link, path, ancestors, kids, idx)) ==
        items + Render(g, Walk(tasks, link, path, ancestors))
    {
      var isLast := idx == |kids| - 1;
      RenderWalkKids(tasks, link, g, path, ancestors, kids, idx);
      ghost var before := out;
      ghost var here := Render(g, Walk(tasks, link, path + [kids[idx]], ancestors + [!isLast]));
      ghost var later := Render(g, WalkKids(tasks, link, path, ancestors, kids, idx + 1));
      out := Dfs(tasks, link, g, children, kids[idx], ancestors + [!isLast], path + [kids[idx]], out);
      assert out == before + here;
      AppendAssoc(before, here, later);
    }
  }

  /** BuildTree over any task type: group, then visit each root in input order. */
  method Build<T(!new)>(tasks: seq<T>, link: T -> Link, g: Glyphs) returns (items: seq<Item<T>>)
    requires DistinctIds(tasks, link)
    ensures items == Render(g, Layout(tasks, link))
  {
    var children, roots := Group(tasks, link);
    items := [];
    assert WalkRoots(tasks, link, roots, 0) == Layout(tasks, link);
    for i := 0 to |roots|
      invariant items + Render(g, WalkRoots(tasks, link, roots, i)) == Render(g, Layout(tasks, link))
    {
      RenderWalkRoots(tasks, link, g, roots, i);
      ghost var before := items;
      ghost var here := Render(g, Walk(tasks, link, [roots[i]], []));
      ghost var later := Render(g, WalkRoots(tasks, link, roots, i + 1));
      items := Dfs(tasks, link, g, children, roots[i], [], [roots[i]], items);
      assert items == before + here;
      AppendAssoc(before, here, later);
    }
    assert WalkRoots(tasks, link, roots, |roots|) == [];
  }

  /** The current tree view's BuildTree. */
  method BuildTree(tasks: seq<Model.Task>) returns (items: seq<Item<Model.Task>>)
    requires DistinctIds(tasks, TaskLink)
    ensures items == Render(Boxed, Layout(tasks, TaskLink))
  {
    items := Build(tasks, TaskLink, Boxed);
  }

  /** The first version's buildTree: the same walk with three-character segments. */
  method LegacyBuildTree(tasks: seq<LegacyStore.Task>) returns (items: seq<Item<LegacyStore.Task>>)
    requires DistinctIds(tasks, LegacyLink)
    ensures items == Render(Plain, Layout(tasks, LegacyLink))
  {
    items := Build(tasks, LegacyLink, Plain);
  }

  // ---------------------------------------------------------------------------
  // What the walk draws
  // ---------------------------------------------------------------------------

  /** The task is not the last of its parent's children. */
  ghost predicate HasLaterSibling<T(!new)>(tasks: seq<T>, link: T -> Link, c: T)
  {
    link(c).parent.Some? &&
    var kids := KidsOf(tasks, link, link(c).parent.value);
    |kids| > 0 && Last(kids) != c
  }

  /** Every flag names whether the task one level below has a later sibling. */
  ghost predicate FlagsMeanSiblings<T(!new)>(tasks: seq<T>, link: T -> Link, v: Visit<T>)
    requires |v.ancestors| < |v.path|
  {
    forall k :: 0 <= k < |v.ancestors| ==> v.ancestors[k] == HasLaterSibling(tasks, link, v.path[k + 1])
  }

  lemma {:induction false} WalkFlags<T(!new)>(tasks: seq<T>, link: T -> Link, path: seq<T>, ancestors: seq<bool>)
    requires DistinctIds(tasks, link) && Chain(tasks, link, path) && |ancestors| == |path| - 1
    requires FlagsMeanSiblings(tasks, link, Visit(path, ancestors))
    ensures forall v :: v in Walk(tasks, link, path, ancestors) ==> FlagsMeanSiblings(tasks, link, v)
    decreases IdSet(tasks, link) - PathIds(path, link), 1, 0
  {
    var kids := KidsOf(tasks, link, link(Last(path)).id);
    WalkKidsFlags(tasks, link, path, ancestors, kids, 0);
  }

  lemma {:induction false} WalkKidsFlags<T(!new)>(tasks: seq<T>, link: T -> Link, path: seq<T>, ancestors: seq<bool>,
                                                  kids: seq<T>, i: nat)
    requires DistinctIds(tasks, link) && Chain(tasks, link, path) && |ancestors| == |path| - 1
    requires kids == KidsOf(tasks, link, link(Last(path)).id) && i <= |kids|
    requires FlagsMeanSiblings(tasks, link, Visit(path, ancestors))
    ensures forall v :: v in WalkKids(tasks, link, path, ancestors, kids, i) ==> FlagsMeanSiblings(tasks, link, v)
    decreases IdSet(tasks, link) - PathIds(path, link), 0, |kids| - i
  {
    if i < |kids| {
      var c := kids[i];
      ChainExtend(tasks, link, path, c);
      PathIdsSnoc(path, link, c);
      var p', a' := path + [c], ancestors + [i != |kids| - 1];
      assert c in kids;
      assert KidsOf(tasks, link, link(c).parent.value) == kids;
      assert Last(kids) == c ==> i == |kids| - 1;
      forall k | 0 <= k < |a'| ensures a'[k] == HasLaterSibling(tasks, link, p'[k + 1]) {
        if k < |ancestors| {
          assert a'[k] == ancestors[k] && p'[k + 1] == path[k + 1];
        }
      }
      WalkFlags(tasks, link, p', a');
      WalkKidsFlags(tasks, link, path, ancestors, kids, i + 1);
    }
  }

  /** No path is visited twice. */
  ghost predicate DistinctPaths<T>(vs: seq<Visit<T>>)
  {
    forall a, b :: 0 <= a < b < |vs| ==> vs[a].path != vs[b].path
  }

  lemma ConcatDistinct<T>(x: seq<Visit<T>>, y: seq<Visit<T>>)
    requires DistinctPaths(x) && DistinctPaths(y)
    requires forall v, u :: v in x && u in y ==> v.path != u.path
    ensures DistinctPaths(x + y)
  {
    var z := x + y;
    forall a, b | 0 <= a < b < |z| ensures z[a].path != z[b].path {
      if b < |x| {
        assert z[a] == x[a] && z[b] == x[b];
      } else if a >= |x| {
        assert z[a] == y[a - |x|] && z[b] == y[b - |x|];
      } else {
        assert z[a] in x && z[b] in y;
      }
    }
  }

  lemma {:induction false} WalkDistinct<T(!new)>(tasks: seq<T>, link: T -> Link, path: seq<T>, ancestors: seq<bool>)
    requires DistinctIds(tasks, link) && Chain(tasks, link, path) && |ancestors| == |path| - 1
    ensures DistinctPaths(Walk(tasks, link, path, ancestors))
    decreases IdSet(tasks, link) - PathIds(path, link), 1, 0
  {
    var kids := KidsOf(tasks, link, link(Last(path)).id);
    WalkKidsDistinct(tasks, link, path, ancestors, kids, 0);
    ConcatDistinct([Visit(path, ancestors)], WalkKids(tasks, link, path, ancestors, kids, 0));
  }

  lemma {:induction false} WalkKidsDistinct<T(!new)>(tasks: seq<T>, link: T -> Link, path: seq<T>, ancestors: seq<bool>,
                                                     kids: seq<T>, i: nat)
    requires DistinctIds(tasks, link) && Chain(tasks, link, path) && |ancestors| == |path| - 1
    requires kids == KidsOf(tasks, link, link(Last(path)).id) && i <= |kids|
    ensures DistinctPaths(WalkKids(tasks, link, path, ancestors, kids, i))
    decreases IdSet(tasks, link) - PathIds(path, link), 0, |kids| - i
  {
    if i < |kids| {
      var c := kids[i];
      ChainExtend(tasks, link, path, c);
      PathIdsSnoc(path, link, c);
      var sub := Walk(tasks, link, path + [c], ancestors + [i != |kids| - 1]);
      var rest := WalkKids(tasks, link, path, ancestors, kids, i + 1);
      WalkDistinct(tasks, link, path + [c], ancestors + [i != |kids| - 1]);
      WalkKidsDistinct(tasks, link, path, ancestors, kids, i + 1);
      forall v, u | v in sub && u in rest ensures v.path != u.path {
        assert v.path[..|path| + 1] == path + [c];
        assert v.path[|path|] == c;
        var j :| i + 1 <= j < |kids| && u.path[|path|] == kids[j];
      }
      ConcatDistinct(sub, rest);
    }
  }

  lemma {:induction false} WalkRootsDistinct<T(!new)>(tasks: seq<T>, link: T -> Link, roots: seq<T>, i: nat)
    requires DistinctIds(tasks, link) && roots == RootsOf(tasks, link) && i <= |roots|
    ensures DistinctPaths(WalkRoots(tasks, link, roots, i))
    decreases |roots| - i
  {
    if i < |roots| {
      RootChain(tasks, link, roots, i);
      var sub := Walk(tasks, link, [roots[i]], []);
      var rest := WalkRoots(tasks, link, roots, i + 1);
      WalkDistinct(tasks, link, [roots[i]], []);
      WalkRootsDistinct(tasks, link, roots, i + 1);
      forall v, u | v in sub && u in rest ensures v.path != u.path {
        assert v.path[..1] == [roots[i]];
        assert v.path[0] == roots[i];
        var j :| i + 1 <= j < |roots| && u.path[0] == roots[j];
      }
      ConcatDistinct(sub, rest);
    }
  }

  /** The subtree of kids[j] is part of the walk over kids[i..] when i <= j. */
  lemma {:induction false} WalkKidsContains<T(!new)>(tasks: seq<T>, link: T -> Link, path: seq<T>, ancestors: seq<bool>,
                                                     kids: seq<T>, i: nat, j: nat)
    requires DistinctIds(tasks, link) && Chain(tasks, link, path) && |ancestors| == |path| - 1
    requires kids == KidsOf(tasks, link, link(Last(path)).id) && i <= j < |kids|
    ensures Chain(tasks, link, path + [kids[j]])
    ensures forall v :: v in Walk(tasks, link, path + [kids[j]], ancestors + [j != |kids| - 1]) ==>
      v in WalkKids(tasks, link, path, ancestors, kids, i)
    decreases j - i
  {
    ChainExtend(tasks, link, path, kids[j]);
    ChainExtend(tasks, link, path, kids[i]);
    var sub := Walk(tasks, link, path + [kids[j]], ancestors + [j != |kids| - 1]);
    var here := Walk(tasks, link, path + [kids[i]], ancestors + [i != |kids| - 1]);
    var rest := WalkKids(tasks, link, path, ancestors, kids, i + 1);
    assert WalkKids(tasks, link, path, ancestors, kids, i) == here + rest;
    if i < j {
      WalkKidsContains(tasks, link, path, ancestors, kids, i + 1, j);
      forall v | v in sub ensures v in here + rest {
        assert v in rest;
      }
    } else {
      assert sub == here;
    }
  }

  /** Every path from a root that extends `path` is visited by the walk from `path`. */
  lemma {:induction false} WalkReaches<T(!new)>(tasks: seq<T>, link: T -> Link, path: seq<T>, ancestors: seq<bool>, q: seq<T>)
    requires DistinctIds(tasks, link) && Chain(tasks, link, path) && |ancestors| == |path| - 1
    requires Chain(tasks, link, q) && |q| >= |path| && q[..|path|] == path
    ensures exists v :: v in Walk(tasks, link, path, ancestors) && v.path == q
    decreases |q| - |path|
  {
    var r := Walk(tasks, link, path, ancestors);
    if |q| == |path| {
      assert q == path;
      assert r[0] in r;
    } else {
      var c := q[|path|];
      assert link(c).parent == Some(link(q[|path| - 1]).id);
      assert q[|path| - 1] == path[|path| - 1];
      var kids := KidsOf(tasks, link, link(Last(path)).id);
      assert c in kids;
      var j :| 0 <= j < |kids| && kids[j] == c;
      WalkKidsContains(tasks, link, path, ancestors, kids, 0, j);
      assert q[..|path| + 1] == path + [c];
      WalkReaches(tasks, link, path + [c], ancestors + [j != |kids| - 1], q);
      var v :| v in Walk(tasks, link, path + [c], ancestors + [j != |kids| - 1]) && v.path == q;
      var rest := WalkKids(tasks, link, path, ancestors, kids, 0);
      assert v in rest;
      assert r == [Visit(path, ancestors)] + rest;
      assert v in r;
    }
  }

  /** Every path from a root is visited by the whole walk. */
  lemma LayoutComplete<T(!new)>(tasks: seq<T>, link: T -> Link, q: seq<T>)
    requires DistinctIds(tasks, link) && Chain(tasks, link, q)
    ensures exists v :: v in Layout(tasks, link) && v.path == q
  {
    var roots := RootsOf(tasks, link);
    assert q[0] in roots;
    var j :| 0 <= j < |roots| && roots[j] == q[0];
    assert q[..1] == [q[0]];
    assert Chain(tasks, link, [q[0]]);
    WalkReaches(tasks, link, [q[0]], [], q);
    WalkRootsContains(tasks, link, roots, 0, j);
  }

  lemma {:induction false} WalkRootsContains<T(!new)>(tasks: seq<T>, link: T -> Link, roots: seq<T>, i: nat, j: nat)
    requires DistinctIds(tasks, link) && roots == RootsOf(tasks, link) && i <= j < |roots|
    ensures Chain(tasks, link, [roots[j]])
    ensures forall v :: v in Walk(tasks, link, [roots[j]], []) ==> v in WalkRoots(tasks, link, roots, i)
    decreases j - i
  {
    RootChain(tasks, link, roots, i);
    RootChain(tasks, link, roots, j);
    var here := Walk(tasks, link, [roots[i]], []);
    var rest := WalkRoots(tasks, link, roots, i + 1);
    assert WalkRoots(tasks, link, roots, i) == here + rest;
    if i < j {
      WalkRootsContains(tasks, link, roots, i + 1, j);
      forall v | v in Walk(tasks, link, [roots[j]], []) ensures v in here + rest {
        assert v in rest;
      }
    }
  }

  /** Each root on its own is a path. */
  lemma RootChain<T(!new)>(tasks: seq<T>, link: T -> Link, roots: seq<T>, i: nat)
    requires roots == RootsOf(tasks, link) && i < |roots|
    ensures Chain(tasks, link, [roots[i]])
  {
    assert roots[i] in roots;
  }

  lemma AppendAssoc<X>(a: seq<X>, b: seq<X>, c: seq<X>)
    ensures a + b + c == a + (b + c)
  {
  }

  // ---------------------------------------------------------------------------
  // Every rooted task exactly once, dangling ones never
  // ---------------------------------------------------------------------------

  /** Distinct values drawn from `u` number at most |u|. */
  lemma {:induction false} DistinctFits<T>(s: seq<T>, u: set<T>)
    requires forall a, b :: 0 <= a < b < |s| ==> s[a] != s[b]
    requires forall x :: x in s ==> x in u
    ensures |s| <= |u|
    decreases |s|
  {
    if |s| > 0 {
      var n := |s| - 1;
      assert forall x :: x in s[..n] ==> x in s && x != s[n];
      DistinctFits(s[..n], u - {s[n]});
    }
  }

  lemma {:induction false} ElementsFit<T>(s: seq<T>)
    ensures |set x | x in s| <= |s|
  {
    if |s| > 0 {
      var n := |s| - 1;
      ElementsFit(s[..n]);
      assert (set x | x in s) == (set x | x in s[..n]) + {s[n]};
    }
  }

  lemma WalkRootsFlags<T(!new)>(tasks: seq<T>, link: T -> Link, roots: seq<T>, i: nat)
    requires DistinctIds(tasks, link) && roots == RootsOf(tasks, link) && i <= |roots|
    ensures forall v :: v in WalkRoots(tasks, link, roots, i) ==> FlagsMeanSiblings(tasks, link, v)
    decreases |roots| - i
  {
    if i < |roots| {
      RootChain(tasks, link, roots, i);
      WalkFlags(tasks, link, [roots[i]], []);
      WalkRootsFlags(tasks, link, roots, i + 1);
      assert WalkRoots(tasks, link, roots, i) ==
        Walk(tasks, link, [roots[i]], []) + WalkRoots(tasks, link, roots, i + 1);
    }
  }

  /** The task drawn on each line of the walk. */
  ghost function Drawn<T(!new)>(tasks: seq<T>, link: T -> Link): (r: seq<T>)
    requires DistinctIds(tasks, link)
    ensures |r| == |Layout(tasks, link)|
    ensures forall a :: 0 <= a < |r| ==> Chain(tasks, link, Layout(tasks, link)[a].path) && r[a] == Last(Layout(tasks, link)[a].path)
  {
    var L := Layout(tasks, link);
    assert forall a :: 0 <= a < |L| ==> L[a] in L;
    seq(|L|, a requires 0 <= a < |L| => Last(L[a].path))
  }

  /** No task is drawn twice. */
  lemma LayoutDistinct<T(!new)>(tasks: seq<T>, link: T -> Link)
    requires DistinctIds(tasks, link)
    ensures var d := Drawn(tasks, link); forall a, b :: 0 <= a < b < |d| ==> d[a] != d[b]
  {
    var L, d := Layout(tasks, link), Drawn(tasks, link);
    WalkRootsDistinct(tasks, link, RootsOf(tasks, link), 0);
    forall a, b | 0 <= a < b < |d| ensures d[a] != d[b] {
      if d[a] == d[b] {
        ChainUnique(tasks, link, L[a].path, L[b].path);
      }
    }
  }

  /** A task of the input is drawn exactly when it is reached from a root. */
  lemma LayoutMembers<T(!new)>(tasks: seq<T>, link: T -> Link)
    requires DistinctIds(tasks, link)
    ensures var d := Drawn(tasks, link);
      && (forall t :: t in d ==> t in tasks)
      && (forall t :: t in tasks ==> (t in d <==> Rooted(tasks, link, t)))
  {
    DrawnComplete(tasks, link);
    DrawnSound(tasks, link);
  }

  lemma DrawnComplete<T(!new)>(tasks: seq<T>, link: T -> Link)
    requires DistinctIds(tasks, link)
    ensures forall t :: t in tasks && Rooted(tasks, link, t) ==> t in Drawn(tasks, link)
  {
    forall t | t in tasks && Rooted(tasks, link, t) ensures t in Drawn(tasks, link) {
      var q :| Chain(tasks, link, q) && Last(q) == t;
      DrawnPath(tasks, link, q);
    }
  }

  /** The last task of every path from a root is drawn. */
  lemma DrawnPath<T(!new)>(tasks: seq<T>, link: T -> Link, q: seq<T>)
    requires DistinctIds(tasks, link) && Chain(tasks, link, q)
    ensures Last(q) in Drawn(tasks, link)
  {
    var L, d := Layout(tasks, link), Drawn(tasks, link);
    LayoutComplete(tasks, link, q);
    var v :| v in L && v.path == q;
    var a :| 0 <= a < |L| && L[a] == v;
    assert d[a] == Last(q);
  }

  lemma DrawnSound<T(!new)>(tasks: seq<T>, link: T -> Link)
    requires DistinctIds(tasks, link)
    ensures forall t :: t in Drawn(tasks, link) ==> t in tasks && Rooted(tasks, link, t)
  {
    var L, d := Layout(tasks, link), Drawn(tasks, link);
    forall t | t in d ensures t in tasks && Rooted(tasks, link, t) {
      var a :| 0 <= a < |d| && d[a] == t;
      assert Chain(tasks, link, L[a].path);
    }
  }

  /**
   * BuildTree's output holds each task at most once, holds a task exactly when
   * it is reached from a root by parent links, and is never longer than its
   * input; a task under a missing parent, with its whole subtree, is left out.
   */
  lemma LayoutExactlyOnce<T(!new)>(tasks: seq<T>, link: T -> Link)
    requires DistinctIds(tasks, link)
    ensures var d := Drawn(tasks, link);
      && (forall a, b :: 0 <= a < b < |d| ==> d[a] != d[b])
      && (forall t :: t in tasks ==> (t in d <==> Rooted(tasks, link, t)))
      && |d| <= |tasks|
  {
    var d := Drawn(tasks, link);
    LayoutDistinct(tasks, link);
    LayoutMembers(tasks, link);
    DistinctFits(d, set x | x in tasks);
    ElementsFit(tasks);
  }

  /** A task whose parent id names no task is never reached from a root. */
  lemma DanglingOmitted<T(!new)>(tasks: seq<T>, link: T -> Link, t: T)
    requires link(t).parent.Some? && link(t).parent.value !in IdSet(tasks, link)
    ensures !Rooted(tasks, link, t)
  {
    RootedParentKnown(tasks, link, t);
  }

  /** A task reached from a root that has a parent id has one naming a task of the list. */
  lemma RootedParentKnown<T(!new)>(tasks: seq<T>, link: T -> Link, t: T)
    ensures Rooted(tasks, link, t) && link(t).parent.Some? ==> link(t).parent.value in IdSet(tasks, link)
  {
    if Rooted(tasks, link, t) && link(t).parent.Some? {
      var path :| Chain(tasks, link, path) && Last(path) == t;
      var up := path[|path| - 2];
      assert up in tasks && link(up).id == link(t).parent.value;
    }
  }

  /**
   * What each drawn line shows: the task at the end of its path from a root;
   * a prefix that is one segment per level below the root, empty exactly for a
   * root; and at every level the flag says whether the task one level down has
   * a later sibling, so the last segment is a tee exactly when the task itself
   * is not its parent's last child.
   */
  lemma LayoutShape<T(!new)>(tasks: seq<T>, link: T -> Link, g: Glyphs, w: nat)
    requires DistinctIds(tasks, link) && Uniform(g, w) && w > 0
    ensures var L := Layout(tasks, link); var items := Render(g, L);
      forall i :: 0 <= i < |items| ==>
        && items[i].task == Last(L[i].path)
        && |L[i].ancestors| == |L[i].path| - 1
        && FlagsMeanSiblings(tasks, link, L[i])
        && items[i].prefix == Concat(PrefixParts(g, L[i].ancestors))
        && items[i].descPrefix == Concat(DescParts(g, L[i].ancestors))
        && |items[i].prefix| == w * |L[i].ancestors| == |items[i].descPrefix|
        && (items[i].prefix == "" <==> link(items[i].task).parent.None?)
  {
    var L := Layout(tasks, link);
    WalkRootsFlags(tasks, link, RootsOf(tasks, link), 0);
    forall i | 0 <= i < |L|
      ensures (Prefix(g, L[i].ancestors) == "" <==> link(Last(L[i].path)).parent.None?)
      ensures FlagsMeanSiblings(tasks, link, L[i])
    {
      assert L[i] in L;
      PrefixSegments(g, w, L[i].ancestors);
      var n := |L[i].path| - 1;
      assert n > 0 ==> link(L[i].path[n]).parent == Some(link(L[i].path[n - 1]).id);
    }
    forall i | 0 <= i < |L|
      ensures Prefix(g, L[i].ancestors) == Concat(PrefixParts(g, L[i].ancestors))
      ensures DescPrefix(g, L[i].ancestors) == Concat(DescParts(g, L[i].ancestors))
      ensures |Prefix(g, L[i].ancestors)| == w * |L[i].ancestors| == |DescPrefix(g, L[i].ancestors)|
    {
      PrefixSegments(g, w, L[i].ancestors);
    }
  }

  /**
   * BuildTree with its own glyphs: each item indents its task by four
   * characters per ancestor, and only a task without a parent is unindented.
   */
  lemma BuildTreeShape(tasks: seq<Model.Task>)
    requires DistinctIds(tasks, TaskLink)
    ensures var L := Layout(tasks, TaskLink); var items := Render(Boxed, L);
      forall i :: 0 <= i < |items| ==>
        && items[i].task == Last(L[i].path)
        && |items[i].prefix| == 4 * (|L[i].path| - 1) == |items[i].descPrefix|
        && (items[i].prefix == "" <==> items[i].task.parentId.None?)
  {
    GlyphWidths();
    LayoutShape(tasks, TaskLink, Boxed, 4);
  }

  /** The older buildTree with its own glyphs: three characters per ancestor. */
  lemma LegacyBuildTreeShape(tasks: seq<LegacyStore.Task>)
    requires DistinctIds(tasks, LegacyLink)
    ensures var L := Layout(tasks, LegacyLink); var items := Render(Plain, L);
      forall i :: 0 <= i < |items| ==>
        && items[i].task == Last(L[i].path)
        && |items[i].prefix| == 3 * (|L[i].path| - 1) == |items[i].descPrefix|
        && (items[i].prefix == "" <==> items[i].task.parentId.None?)
  {
    GlyphWidths();
    LayoutShape(tasks, LegacyLink, Plain, 3);
  }
}
