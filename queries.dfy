/** The three list queries: read a table, project every row to its DTO, order by a key. */
module Queries {
  import opened Common
  import opened Entities
  import opened Ordering
  import Tables
  import opened Dtos
  import Items = TaskItemRepository
  import Categories = TaskCategoryRepository
  import Comments = TaskCommentRepository

  /** The table with every row projected, under the same keys. */
  function Projected<V, D>(table: map<Id, V>, project: V -> D): (m: map<Id, D>)
    ensures m.Keys == table.Keys
    ensures forall k :: k in m ==> m[k] == project(table[k])
  {
    map k | k in table :: project(table[k])
  }

  /** The shape of every query: the projected rows, ordered by `key`. */
  function ProjectAndSort<V, D, K(!new)>(table: map<Id, V>, project: V -> D, key: D -> K, leq: (K, K) -> bool): (r: seq<D>)
    requires TotalPreorder(leq)
    ensures SortedBy(r, key, leq)
    ensures multiset(r) == multiset(Tables.Rows(Projected(table, project)))
  {
    SortBy(Tables.Rows(Projected(table, project)), key, leq)
  }

  /** What the query shape returns: as many DTOs as rows, each row's DTO, and nothing else. */
  lemma ProjectAndSortContents<V, D, K(!new)>(table: map<Id, V>, project: V -> D, key: D -> K, leq: (K, K) -> bool)
    requires TotalPreorder(leq)
    ensures |ProjectAndSort(table, project, key, leq)| == |table|
    ensures forall k :: k in table ==> project(table[k]) in ProjectAndSort(table, project, key, leq)
    ensures forall d :: d in ProjectAndSort(table, project, key, leq) ==> exists k :: k in table && d == project(table[k])
  {
    ProjectedRows(table, project, ProjectAndSort(table, project, key, leq));
  }

  /** Any reordering of the projected rows holds one DTO per row, each row's DTO, and nothing else. */
  lemma ProjectedRows<V, D>(table: map<Id, V>, project: V -> D, r: seq<D>)
    requires multiset(r) == multiset(Tables.Rows(Projected(table, project)))
    ensures |r| == |table|
    ensures forall k :: k in table ==> project(table[k]) in r
    ensures forall d :: d in r ==> exists k :: k in table && d == project(table[k])
  {
    var m := Projected(table, project);
    RowsOfProjection(table, project, m, r);
  }

  lemma RowsOfProjection<V, D>(table: map<Id, V>, project: V -> D, m: map<Id, D>, r: seq<D>)
    requires m.Keys == table.Keys
    requires forall k :: k in m ==> m[k] == project(table[k])
    requires multiset(r) == multiset(Tables.Rows(m))
    ensures |r| == |table|
    ensures forall k :: k in table ==> project(table[k]) in r
    ensures forall d :: d in r ==> exists k :: k in table && d == project(table[k])
  {
    var rows := Tables.Rows(m);
    assert |m| == |m.Keys| == |table.Keys| == |table|;
    SameMembers(r, rows);
    forall k | k in table ensures project(table[k]) in r {
      assert m[k] in rows;
    }
    forall d | d in r ensures exists k :: k in table && d == project(table[k]) {
      assert d in rows;
      var i :| 0 <= i < |rows| && rows[i] == d;
      var k :| k in m && rows[i] == m[k];
    }
  }

  /** Two lists holding the same multiset have the same length and the same members. */
  lemma SameMembers<T>(xs: seq<T>, ys: seq<T>)
    requires multiset(xs) == multiset(ys)
    ensures |xs| == |ys|
    ensures forall x :: x in xs <==> x in ys
  {
    assert |xs| == |multiset(xs)| == |multiset(ys)| == |ys|;
    forall x ensures x in xs <==> x in ys {
      assert x in xs <==> x in multiset(xs);
      assert x in ys <==> x in multiset(ys);
    }
  }

  lemma {:induction false} DistinctCountsOnce<T>(xs: seq<T>, x: T)
    requires forall i, j :: 0 <= i < j < |xs| ==> xs[i] != xs[j]
    ensures multiset(xs)[x] <= 1
  {
    if xs != [] {
      assert xs == [xs[0]] + xs[1..];
      DistinctCountsOnce(xs[1..], x);
      if x == xs[0] {
        assert x !in xs[1..];
      }
    }
  }

  /** A member of a list without repeats occurs in it exactly once. */
  lemma CountsOnce<T>(xs: seq<T>, x: T)
    requires forall i, j :: 0 <= i < j < |xs| ==> xs[i] != xs[j]
    requires x in xs
    ensures multiset(xs)[x] == 1
  {
    DistinctCountsOnce(xs, x);
    assert x in multiset(xs);
  }

  /** When distinct rows project to distinct DTOs, each row's DTO appears in the result exactly once. */
  lemma ProjectAndSortOnce<V, D, K(!new)>(table: map<Id, V>, project: V -> D, key: D -> K, leq: (K, K) -> bool)
    requires TotalPreorder(leq)
    requires forall k1, k2 :: k1 in table && k2 in table && project(table[k1]) == project(table[k2]) ==> k1 == k2
    ensures forall k :: k in table ==> multiset(ProjectAndSort(table, project, key, leq))[project(table[k])] == 1
  {
    ProjectedRowsOnce(table, project, Projected(table, project));
  }

  lemma ProjectedRowsOnce<V, D>(table: map<Id, V>, project: V -> D, m: map<Id, D>)
    requires m.Keys == table.Keys
    requires forall k :: k in m ==> m[k] == project(table[k])
    requires forall k1, k2 :: k1 in table && k2 in table && project(table[k1]) == project(table[k2]) ==> k1 == k2
    ensures forall k :: k in table ==> multiset(Tables.Rows(m))[project(table[k])] == 1
  {
    var rows := Tables.Rows(m);
    Tables.RowsDistinct(m);
    forall k | k in table ensures multiset(rows)[project(table[k])] == 1 {
      assert m[k] in rows;
      CountsOnce(rows, m[k]);
    }
  }

  /** The query shape over a filtered table: the DTO of every row kept by `keep`, and nothing else. */
  lemma FilteredContents<V, D>(table: map<Id, V>, keep: V -> bool, source: map<Id, V>, project: V -> D, r: seq<D>)
    requires forall k :: k in source <==> k in table && keep(table[k])
    requires forall k :: k in source ==> source[k] == table[k]
    requires forall k :: k in source ==> project(source[k]) in r
    requires forall d :: d in r ==> exists k :: k in source && d == project(source[k])
    ensures forall k :: k in table && keep(table[k]) ==> project(table[k]) in r
    ensures forall d :: d in r ==> exists k :: k in table && keep(table[k]) && d == project(table[k])
  {
  }

  // The sort keys.

  function Title(d: TaskItemDto): Option<string>
  {
    d.title
  }

  function Created(d: TaskItemCommentDto): Instant
  {
    d.created
  }

  function Name(d: CategoryDto): Option<string>
  {
    d.categoryName
  }

  /** The tasks `GetTaskItems` reads: one category's when a category is given, else all. */
  function TaskItemsSource(db: Store, categoryId: Option<Id>): (m: map<Id, TaskItem>)
    ensures forall k :: k in m <==> k in db.items && (categoryId.None? || db.items[k].categoryId == categoryId.value)
    ensures forall k :: k in m ==> m[k] == db.items[k]
  {
    if categoryId.Some? then Items.GetAllByCategoryIdQuery(db, categoryId.value) else Items.GetAllQuery(db)
  }

  /**
   * The task list, optionally of one category, ordered by title. Projecting
   * before sorting gives the same list as sorting before projecting, since a
   * DTO's title is its task's.
   */
  function GetTaskItems(db: Store, categoryId: Option<Id>): (r: seq<TaskItemDto>)
    ensures SortedBy(r, Title, NullsFirst)
    ensures |r| == |TaskItemsSource(db, categoryId)|
    ensures forall k :: k in db.items && (categoryId.None? || db.items[k].categoryId == categoryId.value) ==>
      TaskItemDto.MapFrom(db.items[k]) in r
    ensures forall d :: d in r ==>
      (categoryId.Some? ==> d.categoryId == categoryId.value)
      && exists k :: k in db.items && d == TaskItemDto.MapFrom(db.items[k])
  {
    NullsFirstIsTotalPreorder();
    var source := TaskItemsSource(db, categoryId);
    ProjectAndSortContents(source, TaskItemDto.MapFrom, Title, NullsFirst);
    var r := ProjectAndSort(source, TaskItemDto.MapFrom, Title, NullsFirst);
    var keep := (t: TaskItem) => categoryId.None? || t.categoryId == categoryId.value;
    FilteredContents(db.items, keep, source, TaskItemDto.MapFrom, r);
    r
  }

  /** In a keyed store every listed task appears exactly once. */
  lemma GetTaskItemsListsEachOnce(db: Store, categoryId: Option<Id>)
    requires Keyed(db)
    ensures forall k :: k in TaskItemsSource(db, categoryId) ==>
      multiset(GetTaskItems(db, categoryId))[TaskItemDto.MapFrom(db.items[k])] == 1
  {
    NullsFirstIsTotalPreorder();
    var source := TaskItemsSource(db, categoryId);
    forall k1, k2 | k1 in source && k2 in source && TaskItemDto.MapFrom(source[k1]) == TaskItemDto.MapFrom(source[k2])
      ensures k1 == k2
    {
      assert source[k1].id == k1 && source[k2].id == k2;
    }
    ProjectAndSortOnce(source, TaskItemDto.MapFrom, Title, NullsFirst);
  }

  /** The comments on one task, ordered by creation time. */
  function GetTaskComments(db: Store, taskId: Id): (r: seq<TaskItemCommentDto>)
    ensures SortedBy(r, Created, InstantLeq)
    ensures |r| == |Comments.GetAllByTaskIdQuery(db, taskId)|
    ensures forall k :: k in db.comments && db.comments[k].taskId == taskId ==>
      TaskItemCommentDto.MapFrom(db.comments[k]) in r
    ensures forall d :: d in r ==>
      exists k :: k in db.comments && db.comments[k].taskId == taskId && d == TaskItemCommentDto.MapFrom(db.comments[k])
  {
    InstantLeqIsTotalPreorder();
    var source := Comments.GetAllByTaskIdQuery(db, taskId);
    ProjectAndSortContents(source, TaskItemCommentDto.MapFrom, Created, InstantLeq);
    var r := ProjectAndSort(source, TaskItemCommentDto.MapFrom, Created, InstantLeq);
    var keep := (c: TaskItemComment) => c.taskId == taskId;
    FilteredContents(db.comments, keep, source, TaskItemCommentDto.MapFrom, r);
    r
  }

  /** In a keyed store every comment on the task appears exactly once. */
  lemma GetTaskCommentsListsEachOnce(db: Store, taskId: Id)
    requires Keyed(db)
    ensures forall k :: k in Comments.GetAllByTaskIdQuery(db, taskId) ==>
      multiset(GetTaskComments(db, taskId))[TaskItemCommentDto.MapFrom(db.comments[k])] == 1
  {
    InstantLeqIsTotalPreorder();
    var source := Comments.GetAllByTaskIdQuery(db, taskId);
    forall k1, k2 | k1 in source && k2 in source
      && TaskItemCommentDto.MapFrom(source[k1]) == TaskItemCommentDto.MapFrom(source[k2])
      ensures k1 == k2
    {
      assert source[k1].id == k1 && source[k2].id == k2;
    }
    ProjectAndSortOnce(source, TaskItemCommentDto.MapFrom, Created, InstantLeq);
    assert forall k :: k in source ==> source[k] == db.comments[k];
  }

  /** A category projected with its tasks, as the category list shows it. */
  function CategoryView(db: Store): TaskCategory -> CategoryDto
  {
    (c: TaskCategory) => CategoryDto.Project(db, c)
  }

  /** Every category, each with its tasks, ordered by name. */
  function GetCategories(db: Store): (r: seq<CategoryDto>)
    ensures SortedBy(r, Name, NullsFirst)
    ensures |r| == |db.categories|
    ensures forall k :: k in db.categories ==> CategoryDto.Project(db, db.categories[k]) in r
    ensures forall d :: d in r ==> exists k :: k in db.categories && d == CategoryDto.Project(db, db.categories[k])
  {
    NullsFirstIsTotalPreorder();
    var source := Categories.GetAllQuery(db, None);
    ProjectAndSortContents(source, CategoryView(db), Name, NullsFirst);
    ProjectAndSort(source, CategoryView(db), Name, NullsFirst)
  }

  /** In a keyed store every category appears exactly once. */
  lemma GetCategoriesListsEachOnce(db: Store)
    requires Keyed(db)
    ensures forall k :: k in db.categories ==> multiset(GetCategories(db))[CategoryDto.Project(db, db.categories[k])] == 1
  {
    NullsFirstIsTotalPreorder();
    var source := Categories.GetAllQuery(db, None);
    assert source == db.categories;
    forall k1, k2 | k1 in source && k2 in source && CategoryView(db)(source[k1]) == CategoryView(db)(source[k2])
      ensures k1 == k2
    {
      CategoryDtoHoldsItsTasks(db, source[k1]);
      CategoryDtoHoldsItsTasks(db, source[k2]);
    }
    ProjectAndSortOnce(source, CategoryView(db), Name, NullsFirst);
  }
}
