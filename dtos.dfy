/** The data-transfer objects the handlers return, and how they are built from entities. */
module Dtos {
  import opened Common
  import opened Entities
  import Tables
  import Items = TaskItemRepository

  /**
   * A task as the API returns it. The query-side task DTO and the
   * category listing's item DTO carry the same fields and are this type too.
   */
  datatype TaskItemDto = TaskItemDto(
    id: Id,
    categoryId: Id,
    title: Option<string>,
    description: Option<string>,
    status: Status,
    priority: Priority,
    dueDate: Option<Instant>)
  {
    /** Copies every field of the task except its audit fields. */
    static function MapFrom(t: TaskItem): TaskItemDto
    {
      TaskItemDto(t.id, t.categoryId, t.title, t.description, t.status, t.priority, t.dueDate)
    }

    /** The task this DTO was mapped from, given the audit fields the mapping dropped. */
    function ToEntity(audit: Audit): TaskItem
    {
      TaskItem(id, categoryId, title, description, status, priority, dueDate, audit)
    }
  }

  /** A comment as the API returns it: no task key, but the audit fields. */
  datatype TaskItemCommentDto = TaskItemCommentDto(
    id: Id,
    comment: Option<string>,
    created: Instant,
    createdBy: Option<string>,
    lastModified: Instant,
    lastModifiedBy: Option<string>)
  {
    static function MapFrom(c: TaskItemComment): TaskItemCommentDto
    {
      TaskItemCommentDto(c.id, c.comment, c.audit.created, c.audit.createdBy, c.audit.lastModified, c.audit.lastModifiedBy)
    }

    /** The comment this DTO was mapped from, given the task key the mapping dropped. */
    function ToEntity(taskId: Id): TaskItemComment
    {
      TaskItemComment(id, taskId, comment, Audit(created, createdBy, lastModified, lastModifiedBy))
    }
  }

  /** A category with its tasks, as the category listing projects it from a store. */
  datatype CategoryDto = CategoryDto(id: Id, categoryName: Option<string>, tasks: seq<TaskItemDto>)
  {
    static function Project(s: Store, c: TaskCategory): CategoryDto
    {
      CategoryDto(c.id, c.categoryName, MapAll(Items.GetAllByCategoryIdAsync(s, c.id)))
    }
  }

  /** Every task of a list mapped to its DTO, in order. */
  function MapAll(tasks: seq<TaskItem>): seq<TaskItemDto>
  {
    seq(|tasks|, i requires 0 <= i < |tasks| => TaskItemDto.MapFrom(tasks[i]))
  }

  /** A category's DTO carries its key and name, and exactly the DTOs of its tasks. */
  lemma CategoryDtoHoldsItsTasks(s: Store, c: TaskCategory)
    ensures CategoryDto.Project(s, c).id == c.id && CategoryDto.Project(s, c).categoryName == c.categoryName
    ensures forall i :: 0 <= i < |CategoryDto.Project(s, c).tasks| ==>
      CategoryDto.Project(s, c).tasks[i].categoryId == c.id
      && exists k :: k in s.items && CategoryDto.Project(s, c).tasks[i] == TaskItemDto.MapFrom(s.items[k])
    ensures forall k :: k in s.items && s.items[k].categoryId == c.id ==>
      TaskItemDto.MapFrom(s.items[k]) in CategoryDto.Project(s, c).tasks
    ensures |CategoryDto.Project(s, c).tasks| == |Items.GetAllByCategoryIdQuery(s, c.id)|
  {
    var tasks := Items.GetAllByCategoryIdAsync(s, c.id);
    var d := CategoryDto.Project(s, c);
    assert d.tasks == MapAll(tasks);
    MapAllContents(s.items, c.id, tasks);
  }

  /** Mapping a category's task list keeps exactly that category's tasks, as DTOs. */
  lemma MapAllContents(items: map<Id, TaskItem>, categoryId: Id, tasks: seq<TaskItem>)
    requires forall i :: 0 <= i < |tasks| ==> tasks[i].categoryId == categoryId && exists k :: k in items && tasks[i] == items[k]
    requires forall k :: k in items && items[k].categoryId == categoryId ==> items[k] in tasks
    ensures forall i :: 0 <= i < |MapAll(tasks)| ==>
      MapAll(tasks)[i].categoryId == categoryId && exists k :: k in items && MapAll(tasks)[i] == TaskItemDto.MapFrom(items[k])
    ensures forall k :: k in items && items[k].categoryId == categoryId ==> TaskItemDto.MapFrom(items[k]) in MapAll(tasks)
  {
    var dtos := MapAll(tasks);
    forall k | k in items && items[k].categoryId == categoryId
      ensures TaskItemDto.MapFrom(items[k]) in dtos
    {
      var i :| 0 <= i < |tasks| && tasks[i] == items[k];
      assert dtos[i] == TaskItemDto.MapFrom(items[k]);
    }
    forall i | 0 <= i < |dtos|
      ensures dtos[i].categoryId == categoryId && exists k :: k in items && dtos[i] == TaskItemDto.MapFrom(items[k])
    {
      assert tasks[i].categoryId == categoryId && exists k :: k in items && tasks[i] == items[k];
      var k :| k in items && tasks[i] == items[k];
      assert dtos[i] == TaskItemDto.MapFrom(tasks[i]);
    }
  }

  /** The task DTO round-trips: it loses the audit fields and nothing else. */
  lemma TaskItemDtoRoundTrip(t: TaskItem, d: TaskItemDto)
    ensures TaskItemDto.MapFrom(t).ToEntity(t.audit) == t
    ensures TaskItemDto.MapFrom(d.ToEntity(t.audit)) == d
  {
  }

  /** Two tasks with the same DTO differ at most in their audit fields. */
  lemma TaskItemDtoDeterminesTask(a: TaskItem, b: TaskItem)
    requires TaskItemDto.MapFrom(a) == TaskItemDto.MapFrom(b)
    ensures a.(audit := b.audit) == b
  {
  }

  /** The comment DTO round-trips: it loses the task key and nothing else. */
  lemma CommentDtoRoundTrip(c: TaskItemComment, d: TaskItemCommentDto)
    ensures TaskItemCommentDto.MapFrom(c).ToEntity(c.taskId) == c
    ensures TaskItemCommentDto.MapFrom(d.ToEntity(c.taskId)) == d
  {
  }

  /** The comment DTO does not depend on the task the comment is on. */
  lemma CommentDtoIgnoresTask(c: TaskItemComment, taskId: Id)
    ensures TaskItemCommentDto.MapFrom(c.(taskId := taskId)) == TaskItemCommentDto.MapFrom(c)
  {
  }
}
