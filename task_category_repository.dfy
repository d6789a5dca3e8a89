/** The category repository: lookups over the category table and the three entity steps. */
module TaskCategoryRepository {
  import opened Common
  import opened Entities
  import opened Persistence

  const NotFoundMessage := "Task category not found"

  function GetByIdAsync(s: Store, id: Id): Result<TaskCategory>
  {
    if id in s.categories then Success(s.categories[id]) else Failure(NotFound(NotFoundMessage))
  }

  /** All categories when no name is given, else those whose name is exactly the one given. */
  function GetAllQuery(s: Store, categoryName: Option<string>): map<Id, TaskCategory>
  {
    if categoryName.Some? then
      map k | k in s.categories && s.categories[k].categoryName == categoryName :: s.categories[k]
    else s.categories
  }

  function Inserted(s: Store, category: TaskCategory): TaskCategory
  {
    category.(id := s.nextCategoryId)
  }

  function Added(s: Store, category: TaskCategory): Store
  {
    s.(categories := s.categories[s.nextCategoryId := Inserted(s, category)], nextCategoryId := s.nextCategoryId + 1)
  }

  /** The stored category after `Update`: the incoming name, null included, and nothing else. */
  function Renamed(stored: TaskCategory, incoming: TaskCategory): TaskCategory
  {
    stored.(categoryName := incoming.categoryName)
  }

  function Updated(s: Store, category: TaskCategory): Result<Store>
  {
    if category.id in s.categories then
      Success(s.(categories := s.categories[category.id := Renamed(s.categories[category.id], category)]))
    else Failure(KeyNotFound(category.id))
  }

  /** The keys of the category's tasks, which the delete cascades to. */
  function TasksOf(s: Store, categoryId: Id): set<Id>
  {
    set k | k in s.items && s.items[k].categoryId == categoryId
  }

  /** `Remove` with the cascade the schema declares: the category, its tasks, and their comments. */
  function Removed(s: Store, category: TaskCategory): Store
  {
    var doomed := TasksOf(s, category.id);
    s.(categories := s.categories - {category.id},
       items := map k | k in s.items && k !in doomed :: s.items[k],
       comments := map k | k in s.comments && s.comments[k].taskId !in doomed :: s.comments[k])
  }

  method Create(ctx: Context, category: TaskCategory) returns (created: TaskCategory)
    modifies ctx
    ensures created == Inserted(old(ctx.pending), category)
    ensures ctx.pending == Added(old(ctx.pending), category) && ctx.db == old(ctx.db)
  {
    created := category.(id := ctx.pending.nextCategoryId);
    ctx.pending := ctx.pending.(
      categories := ctx.pending.categories[created.id := created],
      nextCategoryId := ctx.pending.nextCategoryId + 1);
  }

  method Update(ctx: Context, category: TaskCategory) returns (o: Outcome)
    modifies ctx
    ensures ctx.db == old(ctx.db)
    ensures Updated(old(ctx.pending), category).Success? ==>
      o == Ok && ctx.pending == Updated(old(ctx.pending), category).value
    ensures Updated(old(ctx.pending), category).Failure? ==>
      o == Threw(Updated(old(ctx.pending), category).error) && ctx.pending == old(ctx.pending)
  {
    if category.id !in ctx.pending.categories {
      return Threw(KeyNotFound(category.id));
    }
    var entity := ctx.pending.categories[category.id];
    entity := entity.(categoryName := category.categoryName);
    ctx.pending := ctx.pending.(categories := ctx.pending.categories[category.id := entity]);
    o := Ok;
  }

  method Delete(ctx: Context, category: TaskCategory)
    modifies ctx
    ensures ctx.pending == Removed(old(ctx.pending), category) && ctx.db == old(ctx.db)
  {
    ctx.pending := Removed(ctx.pending, category);
  }

  // Properties of the lookups and the steps.

  /** With a name, the query holds exactly the categories of that name; without one, all of them. */
  lemma QueryByName(s: Store, categoryName: Option<string>, k: Id)
    ensures categoryName.Some? ==>
      (k in GetAllQuery(s, categoryName) <==> k in s.categories && s.categories[k].categoryName == categoryName)
    ensures categoryName.None? ==> GetAllQuery(s, categoryName) == s.categories
    ensures k in GetAllQuery(s, categoryName) ==> GetAllQuery(s, categoryName)[k] == s.categories[k]
  {
  }

  lemma CreateThenFind(s: Store, category: TaskCategory)
    requires Keyed(s)
    ensures Inserted(s, category).id !in s.categories
    ensures GetByIdAsync(Added(s, category), Inserted(s, category).id) == Success(Inserted(s, category))
    ensures forall k :: k in s.categories ==> GetByIdAsync(Added(s, category), k) == GetByIdAsync(s, k)
    ensures Keyed(Added(s, category)) && Added(s, category).items == s.items
  {
  }

  lemma CreateKeepsIntact(s: Store, category: TaskCategory)
    requires Intact(s)
    ensures Intact(Added(s, category))
  {
  }

  /** Updating fails exactly when no category has the key; otherwise only that category's name changes, to the incoming one, null included. */
  lemma UpdateFindsOrFails(s: Store, category: TaskCategory)
    ensures Updated(s, category).Failure? <==> GetByIdAsync(s, category.id).Failure?
    ensures Updated(s, category).Success? ==>
      GetByIdAsync(Updated(s, category).value, category.id)
        == Success(s.categories[category.id].(categoryName := category.categoryName))
    ensures Updated(s, category).Success? ==>
      forall k :: k != category.id ==> GetByIdAsync(Updated(s, category).value, k) == GetByIdAsync(s, k)
    ensures Updated(s, category).Success? ==>
      Updated(s, category).value.items == s.items && Updated(s, category).value.comments == s.comments
  {
  }

  /** A rename never breaks a foreign key. */
  lemma UpdateKeepsIntact(s: Store, category: TaskCategory)
    requires Intact(s) && Updated(s, category).Success?
    ensures Intact(Updated(s, category).value)
  {
  }

  /** After a delete the category, all its tasks and all their comments are gone; nothing else is. */
  lemma DeleteCascades(s: Store, category: TaskCategory)
    requires Intact(s)
    ensures GetByIdAsync(Removed(s, category), category.id) == Failure(NotFound(NotFoundMessage))
    ensures forall k :: k in Removed(s, category).items ==> Removed(s, category).items[k].categoryId != category.id
    ensures forall k :: k in Removed(s, category).comments ==>
      Removed(s, category).items[Removed(s, category).comments[k].taskId].categoryId != category.id
    ensures forall k :: k in s.items && s.items[k].categoryId != category.id ==>
      k in Removed(s, category).items && Removed(s, category).items[k] == s.items[k]
    ensures forall k :: k != category.id ==> GetByIdAsync(Removed(s, category), k) == GetByIdAsync(s, k)
    ensures Intact(Removed(s, category))
  {
  }
}
