/**
 * The relational meaning of the SQL the task stores issue, stated over plain values:
 * "add column if absent" migrations, the parent_id foreign key with ON DELETE CASCADE,
 * and the two sort orders used by queries (created_at ascending, tag name ascending).
 */
module Tables {
  import opened Wrappers
  import opened Text
  import opened Model

  /** Some member of a non-empty set: the row a query engine happens to produce next. */
  lemma Pick<T>(s: set<T>) returns (w: T)
    requires s != {}
    ensures w in s
  {
    w :| w in s;
  }

  // ---------------------------------------------------------------------------
  // Schema migrations
  // ---------------------------------------------------------------------------

  /** The columns of `CREATE TABLE IF NOT EXISTS tasks`, in declaration order. */
  const BaseColumns: seq<string> := ["id", "title", "completed", "created_at"]

  /** ALTER TABLE ... ADD COLUMN appends the column, unless a column of that name exists. */
  function AddColumnIfAbsent(columns: seq<string>, name: string): (r: seq<string>)
  {
    if name in columns then columns else columns + [name]
  }

  /** A sequence of column migrations, applied in order. */
  function MigrateColumns(columns: seq<string>, names: seq<string>): seq<string>
    decreases |names|
  {
    if |names| == 0 then columns
    else MigrateColumns(AddColumnIfAbsent(columns, names[0]), names[1..])
  }

  predicate NoDuplicates(s: seq<string>)
  {
    forall i, j :: 0 <= i < j < |s| ==> s[i] != s[j]
  }

  /**
   * Migrations never drop, rename or reorder a column, they end with every
   * migrated column present, and they never introduce a duplicate column.
   */
  lemma {:induction false} MigrateColumnsGrows(columns: seq<string>, names: seq<string>)
    ensures var r := MigrateColumns(columns, names);
      |columns| <= |r| && r[..|columns|] == columns
      && (forall n :: n in names ==> n in r)
      && (forall c :: c in r ==> c in columns || c in names)
      && (NoDuplicates(columns) ==> NoDuplicates(r))
    decreases |names|
  {
    if |names| > 0 {
      var next := AddColumnIfAbsent(columns, names[0]);
      MigrateColumnsGrows(next, names[1..]);
      var r := MigrateColumns(next, names[1..]);
      assert r[..|columns|] == r[..|next|][..|columns|];
      forall n | n in names ensures n in r {
        if n != names[0] {
          assert n in names[1..];
        } else {
          assert n in next;
          var k :| 0 <= k < |next| && next[k] == n;
          assert r[..|next|][k] == n;
        }
      }
    }
  }

  /** When every column already exists, the migrations change nothing. */
  lemma {:induction false} MigrateColumnsPresent(columns: seq<string>, names: seq<string>)
    requires forall n :: n in names ==> n in columns
    ensures MigrateColumns(columns, names) == columns
    decreases |names|
  {
    if |names| > 0 {
      MigrateColumnsPresent(columns, names[1..]);
    }
  }

  /** Running the whole migration sequence a second time leaves the columns as they are. */
  lemma MigrateColumnsIdempotent(columns: seq<string>, names: seq<string>)
    ensures MigrateColumns(MigrateColumns(columns, names), names) == MigrateColumns(columns, names)
  {
    MigrateColumnsGrows(columns, names);
    MigrateColumnsPresent(MigrateColumns(columns, names), names);
  }

  // ---------------------------------------------------------------------------
  // parent_id REFERENCES tasks(id) ON DELETE CASCADE
  // ---------------------------------------------------------------------------

  /**
   * The foreign key holds and parents precede their children: a parent must
   * exist when its child is inserted, and AUTOINCREMENT ids only grow.
   */
  predicate ParentsOrdered(parents: map<int, Option<int>>)
  {
    forall x :: x in parents && parents[x].Some? ==>
      parents[x].value in parents && 0 <= parents[x].value < x
  }

  /** `x` is `root` or lies below it along parent_id links. */
  predicate Reaches(parents: map<int, Option<int>>, x: int, root: int)
    requires ParentsOrdered(parents)
    decreases if x in parents then x else 0
  {
    x == root || (x in parents && parents[x].Some? && Reaches(parents, parents[x].value, root))
  }

  /** The rows a DELETE of `root` removes: the row itself and every descendant. */
  function Subtree(parents: map<int, Option<int>>, root: int): (s: set<int>)
    requires ParentsOrdered(parents)
    ensures s <= parents.Keys
  {
    set x | x in parents && Reaches(parents, x, root)
  }

  /** The remaining rows after the cascade. */
  function Prune(parents: map<int, Option<int>>, root: int): map<int, Option<int>>
    requires ParentsOrdered(parents)
  {
    map x | x in parents && x !in Subtree(parents, root) :: parents[x]
  }

  /**
   * The deleted set is what ON DELETE CASCADE computes: it contains the row,
   * every row whose parent was deleted is deleted, and every deleted row other
   * than `root` was deleted because its parent was.
   */
  lemma SubtreeIsCascade(parents: map<int, Option<int>>, root: int)
    requires ParentsOrdered(parents)
    ensures root in parents ==> root in Subtree(parents, root)
    ensures forall x :: x in parents && parents[x].Some? && parents[x].value in Subtree(parents, root)
              ==> x in Subtree(parents, root)
    ensures forall x :: x in Subtree(parents, root) && x != root
              ==> parents[x].Some? && parents[x].value in Subtree(parents, root)
  {
  }

  /** Among all sets closed under the cascade rule, the deleted set is the least one. */
  lemma {:induction false} SubtreeLeast(parents: map<int, Option<int>>, root: int, s: set<int>)
    requires ParentsOrdered(parents)
    requires root in s
    requires forall x :: x in parents && parents[x].Some? && parents[x].value in s ==> x in s
    ensures Subtree(parents, root) <= s
  {
    forall x | x in Subtree(parents, root) ensures x in s {
      ReachesWithin(parents, x, root, s);
    }
  }

  lemma {:induction false} ReachesWithin(parents: map<int, Option<int>>, x: int, root: int, s: set<int>)
    requires ParentsOrdered(parents)
    requires root in s
    requires forall y :: y in parents && parents[y].Some? && parents[y].value in s ==> y in s
    requires Reaches(parents, x, root)
    ensures x in s
    decreases if x in parents then x else 0
  {
    if x != root {
      ReachesWithin(parents, parents[x].value, root, s);
    }
  }

  /** Deleting an id that names no row deletes nothing. */
  lemma {:induction false} SubtreeOfMissing(parents: map<int, Option<int>>, root: int)
    requires ParentsOrdered(parents) && root !in parents
    ensures Subtree(parents, root) == {}
  {
    forall x | x in parents ensures !Reaches(parents, x, root) {
      NotReachesMissing(parents, x, root);
    }
  }

  lemma {:induction false} NotReachesMissing(parents: map<int, Option<int>>, x: int, root: int)
    requires ParentsOrdered(parents) && root !in parents && x in parents
    ensures !Reaches(parents, x, root)
    decreases x
  {
    if parents[x].Some? {
      NotReachesMissing(parents, parents[x].value, root);
    }
  }

  /** The rows left after the cascade still satisfy the foreign key. */
  lemma PruneKeepsOrder(parents: map<int, Option<int>>, root: int)
    requires ParentsOrdered(parents)
    ensures ParentsOrdered(Prune(parents, root))
    ensures Prune(parents, root).Keys == parents.Keys - Subtree(parents, root)
  {
    SubtreeIsCascade(parents, root);
  }

  // ---------------------------------------------------------------------------
  // ORDER BY created_at ASC
  // ---------------------------------------------------------------------------

  predicate ByCreation(created: map<int, int>, ids: seq<int>)
  {
    (forall i :: 0 <= i < |ids| ==> ids[i] in created)
    && forall i, j :: 0 <= i < j < |ids| ==> created[ids[i]] <= created[ids[j]]
  }

  /** Places `x` after every id created no later than it. */
  function InsertByCreation(created: map<int, int>, ids: seq<int>, x: int): (r: seq<int>)
    requires x in created && forall i :: 0 <= i < |ids| ==> ids[i] in created
    ensures |r| == |ids| + 1
    ensures forall i :: 0 <= i < |r| ==> r[i] in created
  {
    if |ids| == 0 then [x]
    else if created[x] < created[ids[0]] then [x] + ids
    else [ids[0]] + InsertByCreation(created, ids[1..], x)
  }

  /** Insertion keeps the order and adds exactly the one id. */
  lemma {:induction false} InsertByCreationSorted(created: map<int, int>, ids: seq<int>, x: int)
    requires x in created && ByCreation(created, ids)
    ensures ByCreation(created, InsertByCreation(created, ids, x))
    ensures multiset(InsertByCreation(created, ids, x)) == multiset(ids) + multiset{x}
  {
    InsertByCreationPerm(created, ids, x);
    if |ids| > 0 && created[x] >= created[ids[0]] {
      var rest := InsertByCreation(created, ids[1..], x);
      InsertByCreationSorted(created, ids[1..], x);
      assert ids == [ids[0]] + ids[1..];
      forall k | 0 <= k < |rest| ensures created[ids[0]] <= created[rest[k]] {
        assert rest[k] in multiset(rest);
        if rest[k] != x {
          assert rest[k] in ids[1..];
        }
      }
      assert InsertByCreation(created, ids, x) == [ids[0]] + rest;
    }
  }

  /** Insertion adds exactly the one id. */
  lemma {:induction false} InsertByCreationPerm(created: map<int, int>, ids: seq<int>, x: int)
    requires x in created && forall i :: 0 <= i < |ids| ==> ids[i] in created
    ensures multiset(InsertByCreation(created, ids, x)) == multiset(ids) + multiset{x}
  {
    if |ids| > 0 {
      assert ids == [ids[0]] + ids[1..];
      if created[x] >= created[ids[0]] {
        InsertByCreationPerm(created, ids[1..], x);
      }
    }
  }

  /**
   * The sort behind ORDER BY created_at: the ids of all rows, each once, in
   * creation order; rows created in the same second come in any order.
   */
  method SortByCreation(created: map<int, int>) returns (ids: seq<int>)
    ensures ByCreation(created, ids)
    ensures multiset(ids) == multiset(created.Keys)
  {
    ids := [];
    var remaining := created.Keys;
    while remaining != {}
      invariant remaining <= created.Keys
      invariant ByCreation(created, ids)
      invariant multiset(ids) == multiset(created.Keys - remaining)
      decreases remaining
    {
      ghost var w := Pick(remaining);
      var x :| x in remaining;
      InsertByCreationSorted(created, ids, x);
      ids := InsertByCreation(created, ids, x);
      assert created.Keys - (remaining - {x}) == (created.Keys - remaining) + {x};
      remaining := remaining - {x};
    }
    assert created.Keys - remaining == created.Keys;
  }

  // ---------------------------------------------------------------------------
  // ORDER BY name ASC on tags (names are UNIQUE, so the order is strict)
  // ---------------------------------------------------------------------------

  predicate ByName(tags: seq<Tag>)
  {
    forall i, j :: 0 <= i < j < |tags| ==> Less(tags[i].name, tags[j].name)
  }

  /** Places `t` among tags sorted by name; no tag there carries its name. */
  function InsertByName(tags: seq<Tag>, t: Tag): (r: seq<Tag>)
    ensures forall u :: u in r <==> u in tags || u == t
    ensures |r| == |tags| + 1
  {
    if |tags| == 0 then [t]
    else if Less(t.name, tags[0].name) then [t] + tags
    else [tags[0]] + InsertByName(tags[1..], t)
  }

  /** Insertion keeps a list sorted by name. */
  lemma {:induction false} InsertByNameSorted(tags: seq<Tag>, t: Tag)
    requires ByName(tags) && forall u :: u in tags ==> u.name != t.name
    ensures ByName(InsertByName(tags, t))
  {
    if |tags| > 0 {
      assert tags == [tags[0]] + tags[1..];
      if Less(t.name, tags[0].name) {
        forall j | 0 < j < |tags| ensures Less(t.name, tags[j].name) {
          LessTransitive(t.name, tags[0].name, tags[j].name);
        }
      } else {
        LessTotal(t.name, tags[0].name);
        var rest := InsertByName(tags[1..], t);
        InsertByNameSorted(tags[1..], t);
        forall k | 0 <= k < |rest| ensures Less(tags[0].name, rest[k].name) {
          assert rest[k] in rest;
          if rest[k] != t {
            var j :| 0 <= j < |tags[1..]| && tags[1..][j] == rest[k];
            assert tags[j + 1] == rest[k];
          }
        }
      }
    }
  }

  /** The tags of `all` assigned through `pairs` to `task`, keeping the order of `all`. */
  function TagsAmong(all: seq<Tag>, pairs: set<(int, int)>, task: int): (r: seq<Tag>)
    ensures forall t :: t in r <==> t in all && (task, t.id) in pairs
    ensures ByName(all) ==> ByName(r)
  {
    if |all| == 0 then []
    else
      var rest := TagsAmong(all[..|all| - 1], pairs, task);
      var last := all[|all| - 1];
      assert all == all[..|all| - 1] + [last];
      if (task, last.id) in pairs then rest + [last] else rest
  }

  /**
   * A list sorted strictly by name is determined by its members: two such lists
   * holding the same tags are equal.
   */
  lemma {:induction false} ByNameUnique(a: seq<Tag>, b: seq<Tag>)
    requires ByName(a) && ByName(b)
    requires forall t :: t in a <==> t in b
    ensures a == b
  {
    if |a| > 0 { assert a[0] in a; }
    if |b| > 0 { assert b[0] in b; }
    if |a| > 0 && |b| > 0 {
      // The first element of each is the least of the common members.
      assert a[0] in a && b[0] in b;
      var i :| 0 <= i < |b| && b[i] == a[0];
      var j :| 0 <= j < |a| && a[j] == b[0];
      if i > 0 && j > 0 {
        LessAsymmetric(b[0].name, a[0].name);
      }
      assert a[0] == b[0];
      LessIrreflexive(a[0].name);
      forall t ensures t in a[1..] <==> t in b[1..] {
        if t in a[1..] {
          var k :| 1 <= k < |a| && a[k] == t;
          assert t in b;
          var m :| 0 <= m < |b| && b[m] == t;
          assert m != 0;
          assert b[1..][m - 1] == t;
        }
        if t in b[1..] {
          var k :| 1 <= k < |b| && b[k] == t;
          assert t in a;
          var m :| 0 <= m < |a| && a[m] == t;
          assert m != 0;
          assert a[1..][m - 1] == t;
        }
      }
      ByNameUnique(a[1..], b[1..]);
      assert a == [a[0]] + a[1..] && b == [b[0]] + b[1..];
    }
  }

  /** A sequence whose multiset is that of a set has no repeats and covers the set. */
  lemma DistinctIds(ids: seq<int>, s: set<int>)
    requires multiset(ids) == multiset(s)
    ensures forall i, j :: 0 <= i < j < |ids| ==> ids[i] != ids[j]
    ensures forall i :: 0 <= i < |ids| ==> ids[i] in s
    ensures |ids| == |s|
  {
    assert |multiset(ids)| == |ids|;
    assert |multiset(s)| == |s|;
    forall i, j | 0 <= i < j < |ids| ensures ids[i] != ids[j] {
      var v := ids[i];
      assert ids == ids[..i] + [v] + ids[i + 1..j] + [ids[j]] + ids[j + 1..];
      assert multiset(ids)[v] >= 1 + multiset([ids[j]])[v];
      assert multiset(s)[v] <= 1;
    }
    forall i | 0 <= i < |ids| ensures ids[i] in s {
      assert ids[i] in multiset(ids);
    }
  }
}
