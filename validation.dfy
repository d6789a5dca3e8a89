/**
 * The FluentValidation rules the command validators use, as string
 * predicates, and the five validators built from them. A validator runs
 * every rule of a property in order (the default cascade continues past a
 * failing rule) and reports one failure per rule that fails.
 */
module Validation {
  import opened Common
  import opened Entities
  import Categories = TaskCategoryRepository

  /** The characters .NET's `char.IsWhiteSpace` accepts. */
  predicate IsWhiteSpace(c: char)
  {
    ('\U{9}' <= c <= '\U{D}') || c == ' ' || c == '\U{85}' || c == '\U{A0}' || c == '\U{1680}'
    || ('\U{2000}' <= c <= '\U{200A}') || c == '\U{2028}' || c == '\U{2029}' || c == '\U{202F}'
    || c == '\U{205F}' || c == '\U{3000}'
  }

  /** Empty or made of white space only. */
  predicate IsBlank(s: string)
  {
    forall i :: 0 <= i < |s| ==> IsWhiteSpace(s[i])
  }

  /** `NotEmpty` on a string property: not null, not empty, not white space only. */
  predicate NotEmpty(s: Option<string>)
  {
    s.Some? && !IsBlank(s.value)
  }

  /** `MaximumLength(max)`: a null value passes. */
  predicate MaximumLength(s: Option<string>, max: nat)
  {
    s.None? || |s.value| <= max
  }

  datatype ValidationFailure = ValidationFailure(propertyName: string, errorCode: string, message: Option<string>)

  const NotEmptyCode := "NotEmptyValidator"
  const MaximumLengthCode := "MaximumLengthValidator"
  const UniqueCode := "Unique"
  const UniqueMessage := "'{PropertyName}' must be unique."

  /** One rule: no failure when it holds, its failure when it does not. */
  function Rule(holds: bool, failure: ValidationFailure): seq<ValidationFailure>
  {
    if holds then [] else [failure]
  }

  // CreateTaskItemCommandValidator: NotEmpty (with its own message), MaximumLength(200), NotEmpty again.

  function ValidateTaskItemTitle(title: Option<string>): (failures: seq<ValidationFailure>)
  {
    Rule(NotEmpty(title), ValidationFailure("Title", NotEmptyCode, Some("Title is required.")))
    + Rule(MaximumLength(title, NameColumnLength), ValidationFailure("Title", MaximumLengthCode, None))
    + Rule(NotEmpty(title), ValidationFailure("Title", NotEmptyCode, None))
  }

  /** A title is accepted exactly when it has a non-blank character and at most 200 characters. */
  lemma TaskItemTitleRules(title: Option<string>)
    ensures ValidateTaskItemTitle(title) == [] <==> title.Some? && !IsBlank(title.value) && |title.value| <= NameColumnLength
    ensures !NotEmpty(title) ==> ValidateTaskItemTitle(title)[0].message == Some("Title is required.")
    ensures |ValidateTaskItemTitle(title)| == (if NotEmpty(title) then 0 else 2) + (if MaximumLength(title, NameColumnLength) then 0 else 1)
  {
  }

  /** The title boundary cases: null, empty and blank fail; one and 200 characters pass, 201 fail. */
  lemma TaskItemTitleBoundaries(blank: string, s: string)
    requires IsBlank(blank)
    requires !IsBlank(s)
    ensures ValidateTaskItemTitle(None) != [] && ValidateTaskItemTitle(Some("")) != []
    ensures ValidateTaskItemTitle(Some(blank)) != []
    ensures |s| <= NameColumnLength ==> ValidateTaskItemTitle(Some(s)) == []
    ensures |s| > NameColumnLength ==> ValidateTaskItemTitle(Some(s)) == [ValidationFailure("Title", MaximumLengthCode, None)]
  {
    TaskItemTitleRules(Some(s));
  }

  // CreateCategoryCommandValidator: NotEmpty, MaximumLength(200), and no category already has the name.

  /** `BeUniqueTitle`: no category selected by the name has that name. */
  predicate BeUniqueTitle(s: Store, name: Option<string>)
  {
    !exists k :: k in Categories.GetAllQuery(s, name) && Categories.GetAllQuery(s, name)[k].categoryName == name
  }

  function ValidateCreateCategory(s: Store, name: Option<string>): (failures: seq<ValidationFailure>)
  {
    Rule(NotEmpty(name), ValidationFailure("CategoryName", NotEmptyCode, None))
    + Rule(MaximumLength(name, NameColumnLength), ValidationFailure("CategoryName", MaximumLengthCode, None))
    + Rule(BeUniqueTitle(s, name), ValidationFailure("CategoryName", UniqueCode, Some(UniqueMessage)))
  }

  /** A new name is accepted exactly when it is non-blank, at most 200 characters, and no stored category carries it. */
  lemma CreateCategoryRules(s: Store, name: Option<string>)
    ensures ValidateCreateCategory(s, name) == [] <==>
      NotEmpty(name) && |name.value| <= NameColumnLength && forall k :: k in s.categories ==> s.categories[k].categoryName != name
    ensures (exists k :: k in s.categories && s.categories[k].categoryName == name) ==>
      ValidationFailure("CategoryName", UniqueCode, Some(UniqueMessage)) in ValidateCreateCategory(s, name)
  {
    var failures := ValidateCreateCategory(s, name);
    if exists k :: k in s.categories && s.categories[k].categoryName == name {
      var k :| k in s.categories && s.categories[k].categoryName == name;
      Categories.QueryByName(s, name, k);
      assert !BeUniqueTitle(s, name);
      assert failures[|failures| - 1] == ValidationFailure("CategoryName", UniqueCode, Some(UniqueMessage));
    } else {
      forall k | k in Categories.GetAllQuery(s, name)
        ensures Categories.GetAllQuery(s, name)[k].categoryName != name
      {
        Categories.QueryByName(s, name, k);
      }
    }
  }

  // UpdateListCommandValidator: the same rules on Title; uniqueness ignores the category being renamed.

  /** `BeUniqueTitle` of the update validator: no other category has the name. */
  predicate BeUniqueAmongOthers(s: Store, id: Id, name: Option<string>)
  {
    !exists k :: k in s.categories && k != id && s.categories[k].categoryName == name
  }

  function ValidateUpdateCategory(s: Store, id: Id, title: Option<string>): (failures: seq<ValidationFailure>)
  {
    Rule(NotEmpty(title), ValidationFailure("Title", NotEmptyCode, None))
    + Rule(MaximumLength(title, NameColumnLength), ValidationFailure("Title", MaximumLengthCode, None))
    + Rule(BeUniqueAmongOthers(s, id, title), ValidationFailure("Title", UniqueCode, Some(UniqueMessage)))
  }

  /** A rename is accepted exactly when the name is non-blank, at most 200 characters, and no other category carries it. */
  lemma UpdateCategoryRules(s: Store, id: Id, title: Option<string>)
    ensures ValidateUpdateCategory(s, id, title) == [] <==>
      NotEmpty(title) && |title.value| <= NameColumnLength
      && forall k :: k in s.categories && k != id ==> s.categories[k].categoryName != title
  {
  }

  /** Keeping a category's own (valid) name is accepted, as long as no other category shares it. */
  lemma RenameToOwnName(s: Store, id: Id)
    requires id in s.categories && NotEmpty(s.categories[id].categoryName)
    requires |s.categories[id].categoryName.value| <= NameColumnLength
    requires forall k :: k in s.categories && k != id ==> s.categories[k].categoryName != s.categories[id].categoryName
    ensures ValidateUpdateCategory(s, id, s.categories[id].categoryName) == []
    ensures ValidateCreateCategory(s, s.categories[id].categoryName) != []
  {
    CreateCategoryRules(s, s.categories[id].categoryName);
  }

  // CreateTaskItemCommentValidator and UpdateTaskItemCommentValidator: NotEmpty with their own message.

  function ValidateComment(comment: Option<string>): (failures: seq<ValidationFailure>)
  {
    Rule(NotEmpty(comment), ValidationFailure("Comment", NotEmptyCode, Some("Comment is required.")))
  }

  /** A comment is accepted exactly when it has a non-blank character; there is no upper bound. */
  lemma CommentRules(comment: Option<string>)
    ensures ValidateComment(comment) == [] <==> comment.Some? && exists i :: 0 <= i < |comment.value| && !IsWhiteSpace(comment.value[i])
    ensures ValidateComment(None) == [ValidationFailure("Comment", NotEmptyCode, Some("Comment is required."))]
    ensures ValidateComment(Some("")) != []
  {
  }

  // The category names the two category validators protect.

  /** Every named category's name belongs to no other category. */
  ghost predicate UniqueNames(s: Store)
  {
    forall j, k :: j in s.categories && k in s.categories && j != k && s.categories[j].categoryName.Some? ==>
      s.categories[j].categoryName != s.categories[k].categoryName
  }
}
