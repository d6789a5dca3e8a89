/** The three category command handlers, and the name uniqueness their validators protect. */
module CategoryCommands {
  import opened Common
  import opened Entities
  import opened Persistence
  import opened Repositories
  import opened Validation
  import Categories = TaskCategoryRepository

  /** The name is declared non-nullable, but nothing stops a request from leaving it null. */
  datatype CreateCategoryCommand = CreateCategoryCommand(categoryName: Option<string>)

  datatype UpdateListCommand = UpdateListCommand(id: Id, title: Option<string>)

  function NewCategory(c: CreateCategoryCommand): TaskCategory
  {
    TaskCategory(0, c.categoryName, NoAudit)
  }

  function RequestedCategory(c: UpdateListCommand): TaskCategory
  {
    TaskCategory(c.id, c.title, NoAudit)
  }

  /** What the create handler answers: the repository's result, the category it added. */
  function CreateResponse(open: bool, f: Faults, s: Store, c: CreateCategoryCommand): Result<TaskCategory>
  {
    Surface(open, f, Success(Categories.Inserted(s, NewCategory(c))))
  }

  /** The step `UpdateAsync` runs on a category: the argument back, or the repository's exception. */
  function UpdateCategoryStep(s: Store, category: TaskCategory): Result<TaskCategory>
  {
    if Categories.Updated(s, category).Success? then Success(category) else Failure(Categories.Updated(s, category).error)
  }

  /** What the update handler answers: nothing, or an exception. */
  function UpdateResponse(open: bool, f: Faults, s: Store, c: UpdateListCommand): Outcome
  {
    AsOutcome(Surface(open, f, UpdateCategoryStep(s, RequestedCategory(c))))
  }

  method HandleCreate(repo: BaseRepository, request: CreateCategoryCommand, f: Faults) returns (r: Result<TaskCategory>)
    requires repo.Wired()
    modifies repo, repo.uow, repo.ctx
    ensures r == CreateResponse(old(repo.uow.hasTx), f, old(repo.ctx.pending), request)
    ensures repo.uow.hasTx == old(repo.uow.hasTx)
    ensures repo.calls == old(repo.calls) + Calls(old(repo.uow.hasTx), f, true)
    ensures repo.ctx.pending == if Began(old(repo.uow.hasTx), f) then Categories.Added(old(repo.ctx.pending), NewCategory(request)) else old(repo.ctx.pending)
    ensures repo.ctx.db == if r.Success? then repo.ctx.pending else old(repo.ctx.db)
  {
    var created := repo.CreateAsync(CategoryEntity(NewCategory(request)), f);
    r := if created.Success? then Success(created.value.category) else Failure(created.error);
  }

  method HandleUpdate(repo: BaseRepository, request: UpdateListCommand, f: Faults) returns (o: Outcome)
    requires repo.Wired()
    modifies repo, repo.uow, repo.ctx
    ensures o == UpdateResponse(old(repo.uow.hasTx), f, old(repo.ctx.pending), request)
    ensures repo.uow.hasTx == old(repo.uow.hasTx)
    ensures repo.calls == old(repo.calls) + Calls(old(repo.uow.hasTx), f, request.id in old(repo.ctx.pending.categories))
    ensures repo.ctx.pending ==
      if Began(old(repo.uow.hasTx), f) && request.id in old(repo.ctx.pending.categories)
      then Categories.Updated(old(repo.ctx.pending), RequestedCategory(request)).value else old(repo.ctx.pending)
    ensures repo.ctx.db == if o.Ok? then repo.ctx.pending else old(repo.ctx.db)
  {
    var updated := repo.UpdateAsync(CategoryEntity(RequestedCategory(request)), f);
    o := AsOutcome(updated);
  }

  method HandleDelete(repo: BaseRepository, id: Id, f: Faults) returns (o: Outcome)
    requires repo.Wired()
    modifies repo, repo.uow, repo.ctx
    ensures repo.uow.hasTx == old(repo.uow.hasTx)
    ensures id !in old(repo.ctx.pending.categories) ==>
      o == Threw(NotFound(Categories.NotFoundMessage))
      && repo.calls == old(repo.calls) && repo.ctx.pending == old(repo.ctx.pending) && repo.ctx.db == old(repo.ctx.db)
    ensures id in old(repo.ctx.pending.categories) ==>
      o == AsOutcome(Surface(old(repo.uow.hasTx), f, Success(true)))
      && repo.calls == old(repo.calls) + Calls(old(repo.uow.hasTx), f, true)
      && repo.ctx.pending == (if Began(old(repo.uow.hasTx), f) then Categories.Removed(old(repo.ctx.pending), old(repo.ctx.pending.categories[id])) else old(repo.ctx.pending))
      && repo.ctx.db == (if o.Ok? then repo.ctx.pending else old(repo.ctx.db))
  {
    var entity := Categories.GetByIdAsync(repo.ctx.pending, id);
    if entity.Failure? {
      return Threw(entity.error);
    }
    var deleted := repo.DeleteAsync(CategoryEntity(entity.value), f);
    o := AsOutcome(deleted);
  }

  // Properties of the handlers.

  /** A create that goes through answers with the new category under the next key, named as requested. */
  lemma CreateAnswersWithNewCategory(s: Store, c: CreateCategoryCommand)
    requires Keyed(s)
    ensures CreateResponse(false, NoFaults, s, c).Success?
    ensures CreateResponse(false, NoFaults, s, c).value.id == s.nextCategoryId
    ensures CreateResponse(false, NoFaults, s, c).value.categoryName == c.categoryName
    ensures Categories.GetByIdAsync(Categories.Added(s, NewCategory(c)), s.nextCategoryId) == CreateResponse(false, NoFaults, s, c)
  {
    Categories.CreateThenFind(s, NewCategory(c));
  }

  /** A rename stores the requested title, null included, and touches no other category. */
  lemma UpdateStoresTitle(s: Store, c: UpdateListCommand)
    requires c.id in s.categories
    ensures UpdateResponse(false, NoFaults, s, c) == Ok
    ensures Categories.Updated(s, RequestedCategory(c)).value.categories[c.id].categoryName == c.title
    ensures forall k :: k in s.categories && k != c.id ==>
      k in Categories.Updated(s, RequestedCategory(c)).value.categories
      && Categories.Updated(s, RequestedCategory(c)).value.categories[k] == s.categories[k]
  {
  }

  /** A rename of an absent category surfaces the repository's NotFound, unless the rollback itself throws. */
  lemma UpdateOfAbsentCategoryFails(f: Faults, s: Store, c: UpdateListCommand)
    requires c.id !in s.categories && f.begin.None?
    ensures f.rollback.None? ==> UpdateResponse(false, f, s, c) == Threw(KeyNotFound(c.id))
    ensures f.rollback.Some? ==> UpdateResponse(false, f, s, c) == Threw(f.rollback.value)
  {
  }

  /** A name the create validator accepts keeps every category name unique once added. */
  lemma ValidatedCreateKeepsNamesUnique(s: Store, c: CreateCategoryCommand)
    requires Keyed(s) && UniqueNames(s)
    requires ValidateCreateCategory(s, c.categoryName) == []
    ensures UniqueNames(Categories.Added(s, NewCategory(c)))
  {
    CreateCategoryRules(s, c.categoryName);
    var t := Categories.Added(s, NewCategory(c));
    forall j, k | j in t.categories && k in t.categories && j != k && t.categories[j].categoryName.Some?
      ensures t.categories[j].categoryName != t.categories[k].categoryName
    {
      if j != s.nextCategoryId && k != s.nextCategoryId {
        assert t.categories[j] == s.categories[j] && t.categories[k] == s.categories[k];
      }
    }
  }

  /** A title the update validator accepts keeps every category name unique once stored. */
  lemma ValidatedRenameKeepsNamesUnique(s: Store, c: UpdateListCommand)
    requires UniqueNames(s) && c.id in s.categories
    requires ValidateUpdateCategory(s, c.id, c.title) == []
    ensures UniqueNames(Categories.Updated(s, RequestedCategory(c)).value)
  {
    UpdateCategoryRules(s, c.id, c.title);
    var t := Categories.Updated(s, RequestedCategory(c)).value;
    forall j, k | j in t.categories && k in t.categories && j != k && t.categories[j].categoryName.Some?
      ensures t.categories[j].categoryName != t.categories[k].categoryName
    {
      if j != c.id && k != c.id {
        assert t.categories[j] == s.categories[j] && t.categories[k] == s.categories[k];
      }
    }
  }

  // The schema's column rules (ItemListConfiguration: `CategoryName` is required, at most 200 characters).

  /** A create the validator accepted keeps every row within its table's column rules. */
  lemma ValidatedCreateConforms(s: Store, c: CreateCategoryCommand)
    requires Conforms(s) && ValidateCreateCategory(s, c.categoryName) == []
    ensures Conforms(Categories.Added(s, NewCategory(c)))
  {
    CreateCategoryRules(s, c.categoryName);
  }

  /** A rename the validator accepted keeps every row within its table's column rules. */
  lemma ValidatedRenameConforms(s: Store, c: UpdateListCommand)
    requires Conforms(s) && c.id in s.categories && ValidateUpdateCategory(s, c.id, c.title) == []
    ensures Conforms(Categories.Updated(s, RequestedCategory(c)).value)
  {
    UpdateCategoryRules(s, c.id, c.title);
  }

  /**
   * Without a validator in front, a null name reaches the NOT NULL column:
   * the store the save would write breaks `Required`. When SQLite refuses
   * that save, the caller sees the second rollback's error, not the
   * constraint violation.
   */
  lemma NullNameIsRefused(s: Store, create: CreateCategoryCommand, rename: UpdateListCommand, f: Faults)
    requires create.categoryName.None?
    requires rename.id in s.categories && rename.title.None?
    ensures !Required(Categories.Added(s, NewCategory(create)))
    ensures !Required(Categories.Updated(s, RequestedCategory(rename)).value)
    ensures f.begin.None? && f.save.Some? ==>
      CreateResponse(false, f, s, create) == Failure(InvalidOperation(NoTransactionToRollback))
      && UpdateResponse(false, f, s, rename) == Threw(InvalidOperation(NoTransactionToRollback))
  {
    assert Categories.Added(s, NewCategory(create)).categories[s.nextCategoryId].categoryName.None?;
    assert Categories.Updated(s, RequestedCategory(rename)).value.categories[rename.id].categoryName.None?;
  }
}
