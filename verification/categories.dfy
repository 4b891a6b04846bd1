/** The category repository (repositories/category.repository.ts): categories are created, listed
    oldest first, updated unconditionally and removed for good on delete. */
module Categories {
  import opened Common
  import opened Schemas
  import opened NamedModel
  import Store

  const CreatePrefix := "Error creating category: "
  const FindAllPrefix := "Error fetching categories: "
  const FindByIdPrefix := "Error finding category by ID: "
  const UpdatePrefix := "Error updating category: "
  const DeletePrefix := "Error deleting category: "

  class CategoryRepository {
    /** The categories collection, by identifier. */
    var categories: map<Id, Named>
    var nextId: Id

    ghost predicate Valid()
      reads this
    {
      && Store.KeyedBy(categories, IdOf)
      && forall k | k in categories :: k < nextId
    }

    constructor ()
      ensures Valid() && categories == map[] && nextId == 0
    {
      categories := map[];
      nextId := 0;
    }

    /** `createCategory`: stores a new category, or throws the schema's validation
        error when the name is missing or empty. A stored category is found again by
        its identifier. */
    method CreateCategory(draft: NameDraft, now: Time, fault: Option<string>) returns (r: Result<Named>)
      requires Valid()
      modifies this
      ensures Valid()
      ensures !HasRequired(draft) ==>
        r == Failed(CreatePrefix, ValidationMessage(ModelName, Names(MissingPaths(draft), PathName)))
        && categories == old(categories) && nextId == old(nextId)
      ensures HasRequired(draft) && fault.Some? ==>
        r == Failed(CreatePrefix, fault.value) && categories == old(categories) && nextId == old(nextId)
      ensures HasRequired(draft) && fault.None? ==>
        && r == Ok(NewNamed(draft, old(nextId), now))
        && old(nextId) !in old(categories)
        && categories == old(categories)[old(nextId) := r.value]
        && nextId == old(nextId) + 1
      ensures r.Ok? ==> FindCategoryById(r.value.id, None) == Ok(Some(r.value))
    {
      var missing := MissingPaths(draft);
      if missing != [] {
        r := Failed(CreatePrefix, ValidationMessage(ModelName, Names(missing, PathName)));
        return;
      }
      if fault.Some? {
        r := Failed(CreatePrefix, fault.value);
        return;
      }
      var x := NewNamed(draft, nextId, now);
      categories := categories[nextId := x];
      nextId := nextId + 1;
      r := Ok(x);
    }

    /** `findAllCategories`: every category, each once, oldest first. */
    function FindAllCategories(fault: Option<string>): (r: Result<seq<Named>>)
      reads this
      requires Valid()
      ensures fault.Some? ==> r == Failed(FindAllPrefix, fault.value)
      ensures fault.None? ==> r.Ok?
      ensures r.Ok? ==> forall x | x in r.value :: x.id in categories && categories[x.id] == x
      ensures r.Ok? ==> forall k | k in categories :: categories[k] in r.value
      ensures r.Ok? ==> Store.NoDuplicates(r.value)
      ensures r.Ok? ==> forall i, j | 0 <= i < j < |r.value| :: r.value[i].createdAt <= r.value[j].createdAt
    {
      if fault.Some? then Failed(FindAllPrefix, fault.value) else Ok(AllOldestFirst(categories, nextId))
    }

    /** `findCategoryById`: the category with this identifier, if there is one. */
    function FindCategoryById(id: Id, fault: Option<string>): (r: Result<Option<Named>>)
      reads this
      ensures fault.Some? ==> r == Failed(FindByIdPrefix, fault.value)
      ensures fault.None? ==> r.Ok?
      ensures r.Ok? ==> (r.value.Some? <==> id in categories)
      ensures r.Ok? && r.value.Some? ==> r.value.value == categories[id]
    {
      if fault.Some? then Failed(FindByIdPrefix, fault.value) else Ok(Lookup(categories, id))
    }

    /** `updateCategory`: applies the update to the category if it exists and returns
        the updated category. */
    method UpdateCategory(id: Id, patch: NamePatch, now: Time, fault: Option<string>) returns (r: Result<Option<Named>>)
      requires Valid()
      modifies this`categories
      ensures Valid()
      ensures fault.Some? ==> r == Failed(UpdatePrefix, fault.value) && categories == old(categories)
      ensures fault.None? && id !in old(categories) ==> r == Ok(None) && categories == old(categories)
      ensures fault.None? && id in old(categories) ==>
        categories == old(categories)[id := ApplyPatch(old(categories)[id], patch, now)] && r == Ok(Some(categories[id]))
    {
      if fault.Some? {
        r := Failed(UpdatePrefix, fault.value);
      } else if id !in categories {
        r := Ok(None);
      } else {
        categories := categories[id := ApplyPatch(categories[id], patch, now)];
        r := Ok(Some(categories[id]));
      }
    }

    /** `deleteCategory`: removes the category and returns it as it was, or returns
        none when there is no such category. */
    method DeleteCategory(id: Id, fault: Option<string>) returns (r: Result<Option<Named>>)
      requires Valid()
      modifies this`categories
      ensures Valid()
      ensures fault.Some? ==> r == Failed(DeletePrefix, fault.value) && categories == old(categories)
      ensures fault.None? ==> r == Ok(Lookup(old(categories), id)) && categories == old(categories) - {id}
      ensures fault.None? ==> FindCategoryById(id, None) == Ok(None)
    {
      if fault.Some? {
        r := Failed(DeletePrefix, fault.value);
      } else {
        r := Ok(Lookup(categories, id));
        categories := categories - {id};
      }
    }
  }
}
