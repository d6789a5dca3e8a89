/** The three entities of the task board and the relational store that holds them. */
module Entities {
  import opened Common

  datatype Status = ToDo | InProgress | Completed | OnHold | Cancelled

  /** `NoPriority` is the C# enum member `Priority.None`. */
  datatype Priority = NoPriority | Low | Medium | High | Critical

  /** Audit fields, written by a save interceptor that is not part of this model. */
  datatype Audit = Audit(created: Instant, createdBy: Option<string>, lastModified: Instant, lastModifiedBy: Option<string>)

  /** The audit fields of a freshly constructed entity: default instants and null actors. */
  const NoAudit := Audit(0, None, 0, None)

  datatype TaskCategory = TaskCategory(id: Id, categoryName: Option<string>, audit: Audit)

  datatype TaskItem = TaskItem(
    id: Id,
    categoryId: Id,
    title: Option<string>,
    description: Option<string>,
    status: Status,
    priority: Priority,
    dueDate: Option<Instant>,
    audit: Audit)

  datatype TaskItemComment = TaskItemComment(id: Id, taskId: Id, comment: Option<string>, audit: Audit)

  /**
   * The three tables, keyed by id, with the next value of each table's
   * AUTOINCREMENT sequence. A task's comments are the comment rows whose
   * `taskId` is the task's id; a category's tasks likewise.
   */
  datatype Store = Store(
    categories: map<Id, TaskCategory>,
    items: map<Id, TaskItem>,
    comments: map<Id, TaskItemComment>,
    nextCategoryId: Id,
    nextItemId: Id,
    nextCommentId: Id)

  /** Every row sits under its own id, and every id lies between 1 and its table's next sequence value. */
  ghost predicate Keyed(s: Store)
  {
    && 1 <= s.nextCategoryId && 1 <= s.nextItemId && 1 <= s.nextCommentId
    && (forall k :: k in s.categories ==> s.categories[k].id == k && 1 <= k < s.nextCategoryId)
    && (forall k :: k in s.items ==> s.items[k].id == k && 1 <= k < s.nextItemId)
    && (forall k :: k in s.comments ==> s.comments[k].id == k && 1 <= k < s.nextCommentId)
  }

  /** The two foreign keys: a task's category and a comment's task exist. */
  ghost predicate Intact(s: Store)
  {
    && (forall k :: k in s.items ==> s.items[k].categoryId in s.categories)
    && (forall k :: k in s.comments ==> s.comments[k].taskId in s.items)
  }

  /** Declared column lengths: `CategoryName` and `Title` are `HasMaxLength(200)`, `Comment` is `HasMaxLength(1000)`. */
  const NameColumnLength := 200
  const CommentColumnLength := 1000

  /** The NOT NULL columns: every category has a name and every task a title. SQLite enforces these at save. */
  ghost predicate Required(s: Store)
  {
    && (forall k :: k in s.categories ==> s.categories[k].categoryName.Some?)
    && (forall k :: k in s.items ==> s.items[k].title.Some?)
  }

  /** The declared lengths hold. SQLite stores longer text regardless, so only the schema declares these. */
  ghost predicate WithinLengths(s: Store)
  {
    && (forall k :: k in s.categories && s.categories[k].categoryName.Some? ==>
          |s.categories[k].categoryName.value| <= NameColumnLength)
    && (forall k :: k in s.items && s.items[k].title.Some? ==> |s.items[k].title.value| <= NameColumnLength)
    && (forall k :: k in s.comments && s.comments[k].comment.Some? ==>
          |s.comments[k].comment.value| <= CommentColumnLength)
  }

  /** Every row meets its table's column rules. */
  ghost predicate Conforms(s: Store)
  {
    Required(s) && WithinLengths(s)
  }

  /** The empty database: all tables empty, all sequences at 1. */
  const EmptyStore := Store(map[], map[], map[], 1, 1, 1)
}
