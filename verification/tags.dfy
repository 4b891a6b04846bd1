/** The tag repository (repositories/tags.repository.ts): tags are created, listed
    oldest first, updated unconditionally and removed for good on delete. */
module Tags {
  import opened Common
  import opened Schemas
  import opened NamedModel
  import Store

  const CreatePrefix := "Error creating tag: "
  const FindAllPrefix := "Error fetching tags: "
  const FindByIdPrefix := "Error finding tag by ID: "
  const UpdatePrefix := "Error updating tag: "
  const DeletePrefix := "Error deleting tag: "

  class TagRepository {
    /** The tags collection, by identifier. */
    var tags: map<Id, Named>
    var nextId: Id

    ghost predicate Valid()
      reads this
    {
      && Store.KeyedBy(tags, IdOf)
      && forall k | k in tags :: k < nextId
    }

    constructor ()
      ensures Valid() && tags == map[] && nextId == 0
    {
      tags := map[];
      nextId := 0;
    }

    /** `createTag`: stores a new tag, or throws the schema's validation
        error when the name is missing or empty. A stored tag is found again by
        its identifier. */
    method CreateTag(draft: NameDraft, now: Time, fault: Option<string>) returns (r: Result<Named>)
      requires Valid()
      modifies this
      ensures Valid()
      ensures !HasRequired(draft) ==>
        r == Failed(CreatePrefix, ValidationMessage(ModelName, Names(MissingPaths(draft), PathName)))
        && tags == old(tags) && nextId == old(nextId)
      ensures HasRequired(draft) && fault.Some? ==>
        r == Failed(CreatePrefix, fault.value) && tags == old(tags) && nextId == old(nextId)
      ensures HasRequired(draft) && fault.None? ==>
        && r == Ok(NewNamed(draft, old(nextId), now))
        && old(nextId) !in old(tags)
        && tags == old(tags)[old(nextId) := r.value]
        && nextId == old(nextId) + 1
      ensures r.Ok? ==> FindTagById(r.value.id, None) == Ok(Some(r.value))
    {
      var missing := MissingPaths(draft);
      if missing != [] {
        r := Failed(CreatePrefix, ValidationMessage(ModelName, Names(missing, PathName)));
        return;
      }
      if fault.Some? {
        r := Failed(CreatePrefix, fault.value);
        return;
      }
      var x := NewNamed(draft, nextId, now);
      tags := tags[nextId := x];
      nextId := nextId + 1;
      r := Ok(x);
    }

    /** `findAllTags`: every tag, each once, oldest first. */
    function FindAllTags(fault: Option<string>): (r: Result<seq<Named>>)
      reads this
      requires Valid()
      ensures fault.Some? ==> r == Failed(FindAllPrefix, fault.value)
      ensures fault.None? ==> r.Ok?
      ensures r.Ok? ==> forall x | x in r.value :: x.id in tags && tags[x.id] == x
      ensures r.Ok? ==> forall k | k in tags :: tags[k] in r.value
      ensures r.Ok? ==> Store.NoDuplicates(r.value)
      ensures r.Ok? ==> forall i, j | 0 <= i < j < |r.value| :: r.value[i].createdAt <= r.value[j].createdAt
    {
      if fault.Some? then Failed(FindAllPrefix, fault.value) else Ok(AllOldestFirst(tags, nextId))
    }

    /** `findTagById`: the tag with this identifier, if there is one. */
    function FindTagById(id: Id, fault: Option<string>): (r: Result<Option<Named>>)
      reads this
      ensures fault.Some? ==> r == Failed(FindByIdPrefix, fault.value)
      ensures fault.None? ==> r.Ok?
      ensures r.Ok? ==> (r.value.Some? <==> id in tags)
      ensures r.Ok? && r.value.Some? ==> r.value.value == tags[id]
    {
      if fault.Some? then Failed(FindByIdPrefix, fault.value) else Ok(Lookup(tags, id))
    }

    /** `updateTag`: applies the update to the tag if it exists and returns
        the updated tag. */
    method UpdateTag(id: Id, patch: NamePatch, now: Time, fault: Option<string>) returns (r: Result<Option<Named>>)
      requires Valid()
      modifies this`tags
      ensures Valid()
      ensures fault.Some? ==> r == Failed(UpdatePrefix, fault.value) && tags == old(tags)
      ensures fault.None? && id !in old(tags) ==> r == Ok(None) && tags == old(tags)
      ensures fault.None? && id in old(tags) ==>
        tags == old(tags)[id := ApplyPatch(old(tags)[id], patch, now)] && r == Ok(Some(tags[id]))
    {
      if fault.Some? {
        r := Failed(UpdatePrefix, fault.value);
      } else if id !in tags {
        r := Ok(None);
      } else {
        tags := tags[id := ApplyPatch(tags[id], patch, now)];
        r := Ok(Some(tags[id]));
      }
    }

    /** `deleteTag`: removes the tag and returns it as it was, or returns
        none when there is no such tag. */
    method DeleteTag(id: Id, fault: Option<string>) returns (r: Result<Option<Named>>)
      requires Valid()
      modifies this`tags
      ensures Valid()
      ensures fault.Some? ==> r == Failed(DeletePrefix, fault.value) && tags == old(tags)
      ensures fault.None? ==> r == Ok(Lookup(old(tags), id)) && tags == old(tags) - {id}
      ensures fault.None? ==> FindTagById(id, None) == Ok(None)
    {
      if fault.Some? {
        r := Failed(DeletePrefix, fault.value);
      } else {
        r := Ok(Lookup(tags, id));
        tags := tags - {id};
      }
    }
  }
}
