/** The Category and Tag documents (models/Category.ts, models/Tags.ts): both are a
    required name plus timestamps, and both are removed for good on delete. */
module NamedModel {
  import opened Common
  import opened Schemas
  import Store

  datatype Named = Named(id: Id, name: Option<string>, createdAt: Time, updatedAt: Time)

  /** The data handed to the store on create. */
  datatype NameDraft = NameDraft(name: Option<string>)

  /** A `$set` update; `None` leaves the name as it is. The update body is not
      validated, so it can also set the name to null: `Some(None)`. */
  datatype NamePatch = NamePatch(name: Option<Option<string>>)

  /** Both schemas are registered under the model name "Comment", which is the name
      their validation errors carry. */
  const ModelName := "Comment"

  predicate HasRequired(d: NameDraft)
  {
    RequiredText(d.name)
  }

  /** The one path the schema marks required. */
  datatype RequiredPath = Name

  function PathName(path: RequiredPath): string
  {
    "name"
  }

  function MissingPaths(d: NameDraft): (missing: seq<RequiredPath>)
    ensures missing == [] <==> HasRequired(d)
    ensures missing != [] ==> missing == [Name]
  {
    if RequiredText(d.name) then [] else [Name]
  }

  function NewNamed(d: NameDraft, id: Id, now: Time): (x: Named)
    requires HasRequired(d)
  {
    Named(id, d.name, now, now)
  }

  function ApplyPatch(x: Named, u: NamePatch, now: Time): (q: Named)
  {
    x.(name := if u.name.Some? then u.name.value else x.name, updatedAt := now)
  }

  function IdOf(x: Named): Id
  {
    x.id
  }

  function OldestFirst(x: Named): int
  {
    x.createdAt
  }

  function Everything(x: Named): bool
  {
    true
  }

  /** The lookup by identifier. */
  function Lookup(t: map<Id, Named>, id: Id): (r: Option<Named>)
    ensures r.Some? <==> id in t
    ensures r.Some? ==> r.value == t[id]
  {
    if id in t then Some(t[id]) else None
  }

  /** Every stored document, each once, oldest first. */
  function AllOldestFirst(t: map<Id, Named>, n: nat): (r: seq<Named>)
    requires Store.KeyedBy(t, IdOf) && forall k | k in t :: k < n
    ensures forall x | x in r :: x.id in t && t[x.id] == x
    ensures forall k | k in t :: t[k] in r
    ensures Store.NoDuplicates(r)
    ensures forall i, j | 0 <= i < j < |r| :: r[i].createdAt <= r[j].createdAt
  {
    var all := Store.Scan(t, n, Everything);
    Store.ScanExactly(t, n, Everything, IdOf);
    Store.AscendingIdsNoDuplicates(all, IdOf);
    var oldest := Store.SortBy(all, OldestFirst);
    Store.PermutationNoDuplicates(oldest, all);
    assert forall x :: x in oldest <==> x in all by {
      forall x ensures x in oldest <==> x in all {
        assert x in oldest <==> x in multiset(oldest);
      }
    }
    oldest
  }

  /** After a hard delete the document is gone: the lookup finds nothing and the
      listing no longer holds it, while every other document stays as it was. */
  lemma HardDeleteRemoves(t: map<Id, Named>, n: nat, id: Id)
    requires Store.KeyedBy(t, IdOf) && forall k | k in t :: k < n
    ensures Lookup(t - {id}, id) == None
    ensures forall x | x in AllOldestFirst(t - {id}, n) :: x.id != id
    ensures forall k | k in t && k != id :: Lookup(t - {id}, k) == Lookup(t, k)
  {
  }

  /** An update changes only the name it supplies, and is idempotent. */
  lemma PatchChangesOnlySupplied(x: Named, u: NamePatch, now: Time)
    ensures var q := ApplyPatch(x, u, now);
      && (u.name.Some? ==> q.name == u.name.value) && (u.name.None? ==> q.name == x.name)
      && q.id == x.id && q.createdAt == x.createdAt && q.updatedAt == now
    ensures ApplyPatch(ApplyPatch(x, u, now), u, now) == ApplyPatch(x, u, now)
  {
  }
}
