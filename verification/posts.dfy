/** The post repository (repositories/post.repository.ts): posts are soft-deleted,
    every query hides deleted posts, and every store failure becomes a DatabaseError
    carrying the operation's prefix. */
module Posts {
  import opened Common
  import opened Schemas
  import opened PostModel
  import Store
  import Text

  /** The prefixes of the errors each operation throws. Listing all posts and searching
      reuse the prefix of create. */
  const CreatePrefix := "Error creating Post: "
  const FindAllPrefix := "Error creating Post: "
  const QueryPrefix := "Error creating Post: "
  const FindByIdPrefix := "Error finding post by ID: "
  const DeletePrefix := "Error soft-deleting post: "
  const UpdatePrefix := "Error updating post: "
  const CreateManyPrefix := "Error creating multiple posts: "
  const FindByCategoryPrefix := "Error finding post by ID: "

  /** The page size of a search; the search always starts at the first match. */
  const ResultsPerPage: nat := 1000

  /** A post is active while it carries no deletion time. */
  predicate IsActive(p: Post)
  {
    p.deletedAt.None?
  }

  function IdOf(p: Post): Id
  {
    p.id
  }

  /** The sort key of "newest first". */
  function NewestFirst(p: Post): int
  {
    -p.createdAt
  }

  /** Whether a post matches a search: active, and, when the keyword is a non-empty
      string, its title contains the keyword regardless of letter case. */
  predicate QueryMatch(p: Post, keyword: Option<string>)
  {
    IsActive(p) && (keyword.Some? && keyword.value != "" ==> Text.ContainsIgnoringCase(p.title, keyword.value))
  }

  function MatchesQuery(keyword: Option<string>): Post -> bool
  {
    p => QueryMatch(p, keyword)
  }

  function InCategory(category: Id): Post -> bool
  {
    p => IsActive(p) && p.category == category
  }

  /** A post with its deletion time set; the update also stamps `updatedAt`. */
  function Stamped(p: Post, now: Time): (q: Post)
  {
    p.(deletedAt := Some(now), updatedAt := now)
  }

  /** The collection after a soft delete of `id`. */
  function SoftDeleted(t: map<Id, Post>, id: Id, now: Time): (t': map<Id, Post>)
    requires id in t
  {
    t[id := Stamped(t[id], now)]
  }

  /** The posts a batch insert creates: the i-th draft gets identifier `first + i`. */
  function Batch(drafts: seq<PostDraft>, first: Id, now: Time): (created: seq<Post>)
    requires forall i | 0 <= i < |drafts| :: HasRequired(drafts[i])
    ensures |created| == |drafts|
    ensures forall i | 0 <= i < |drafts| :: created[i] == NewPost(drafts[i], first + i, now)
  {
    seq(|drafts|, i requires 0 <= i < |drafts| => NewPost(drafts[i], first + i, now))
  }

  /** The batch stored under consecutive identifiers starting at `first`. */
  function Keyed(created: seq<Post>, first: Id): (m: map<Id, Post>)
    ensures forall k :: k in m <==> first <= k < first + |created|
    ensures forall i | 0 <= i < |created| :: m[first + i] == created[i]
  {
    if created == [] then map[]
    else Keyed(created[..|created| - 1], first)[first + |created| - 1 := created[|created| - 1]]
  }

  /** The position of the first draft that lacks a required path, if any. */
  function FirstInvalid(drafts: seq<PostDraft>): (r: Option<nat>)
    ensures r.None? <==> forall i | 0 <= i < |drafts| :: HasRequired(drafts[i])
    ensures r.Some? ==> r.value < |drafts| && !HasRequired(drafts[r.value])
    ensures r.Some? ==> forall i | 0 <= i < r.value :: HasRequired(drafts[i])
  {
    if drafts == [] then None
    else if !HasRequired(drafts[0]) then Some(0)
    else
      match FirstInvalid(drafts[1..])
      case None => None
      case Some(k) => Some(k + 1)
  }

  class PostRepository {
    /** The posts collection, by identifier, deleted posts included. */
    var posts: map<Id, Post>
    /** The identifier the next created post receives. */
    var nextId: Id

    ghost predicate Valid()
      reads this
    {
      && Store.KeyedBy(posts, IdOf)
      && forall k | k in posts :: k < nextId
    }

    constructor ()
      ensures Valid() && posts == map[] && nextId == 0
    {
      posts := map[];
      nextId := 0;
    }

    /** `CreatePost`: stores a new post, or throws the schema's validation error when a
        required path is missing. */
    method CreatePost(draft: PostDraft, now: Time, fault: Option<string>) returns (r: Result<Post>)
      requires Valid()
      modifies this
      ensures Valid()
      ensures !HasRequired(draft) ==>
        r == Failed(CreatePrefix, ValidationMessage("Post", Names(MissingPaths(draft), PathName)))
        && posts == old(posts) && nextId == old(nextId)
      ensures HasRequired(draft) && fault.Some? ==>
        r == Failed(CreatePrefix, fault.value) && posts == old(posts) && nextId == old(nextId)
      ensures HasRequired(draft) && fault.None? ==>
        && r == Ok(NewPost(draft, old(nextId), now))
        && old(nextId) !in old(posts)
        && posts == old(posts)[old(nextId) := r.value]
        && nextId == old(nextId) + 1
      ensures r.Ok? ==> FindPostById(r.value.id, None) == Ok(if draft.deletedAt.None? then Some(r.value) else None)
    {
      var missing := MissingPaths(draft);
      if missing != [] {
        r := Failed(CreatePrefix, ValidationMessage("Post", Names(missing, PathName)));
        return;
      }
      if fault.Some? {
        r := Failed(CreatePrefix, fault.value);
        return;
      }
      var post := NewPost(draft, nextId, now);
      posts := posts[nextId := post];
      nextId := nextId + 1;
      r := Ok(post);
    }

    /** `findAllPosts`: every active post, each once, newest first. */
    function FindAllPosts(fault: Option<string>): (r: Result<seq<Post>>)
      reads this
      requires Valid()
      ensures fault.Some? ==> r == Failed(FindAllPrefix, fault.value)
      ensures fault.None? ==> r.Ok?
      ensures r.Ok? ==> forall p | p in r.value :: p.id in posts && posts[p.id] == p && IsActive(p)
      ensures r.Ok? ==> forall k | k in posts && IsActive(posts[k]) :: posts[k] in r.value
      ensures r.Ok? ==> Store.NoDuplicates(r.value)
      ensures r.Ok? ==> forall i, j | 0 <= i < j < |r.value| :: r.value[i].createdAt >= r.value[j].createdAt
    {
      if fault.Some? then Failed(FindAllPrefix, fault.value)
      else
        var active := Store.Scan(posts, nextId, IsActive);
        Store.ScanExactly(posts, nextId, IsActive, IdOf);
        Store.AscendingIdsNoDuplicates(active, IdOf);
        var newest := Store.SortBy(active, NewestFirst);
        Store.PermutationNoDuplicates(newest, active);
        assert forall p :: p in newest <==> p in active by {
          forall p ensures p in newest <==> p in active {
            assert p in newest <==> p in multiset(newest);
          }
        }
        Ok(newest)
    }

    /** `findByQuery`: the first page of active posts whose title contains the keyword,
        in natural order. A post that matches is left out only when the page is full and
        the post was inserted after the last one on the page. */
    function FindByQuery(keyword: Option<string>, fault: Option<string>): (r: Result<seq<Post>>)
      reads this
      requires Valid()
      ensures fault.Some? ==> r == Failed(QueryPrefix, fault.value)
      ensures fault.None? ==> r.Ok?
      ensures r.Ok? ==> |r.value| <= ResultsPerPage
      ensures r.Ok? ==> forall p | p in r.value :: p.id in posts && posts[p.id] == p && QueryMatch(p, keyword)
      ensures r.Ok? ==> forall i, j | 0 <= i < j < |r.value| :: r.value[i].id < r.value[j].id
      ensures r.Ok? ==> forall k | k in posts && QueryMatch(posts[k], keyword) && posts[k] !in r.value ::
        |r.value| == ResultsPerPage && r.value[|r.value| - 1].id < k
      ensures r.Ok? && |r.value| < ResultsPerPage ==> forall k | k in posts && QueryMatch(posts[k], keyword) :: posts[k] in r.value
    {
      if fault.Some? then Failed(QueryPrefix, fault.value)
      else
        var keep := MatchesQuery(keyword);
        var found := Store.Scan(posts, nextId, keep);
        Store.ScanExactly(posts, nextId, keep, IdOf);
        var page := Store.Limit(found, ResultsPerPage);
        Store.PageMissesOnlyLater(posts, nextId, keep, IdOf, ResultsPerPage);
        Ok(page)
    }

    /** `findPostById`: the post with this identifier, unless it is missing or
        deleted. */
    function FindPostById(id: Id, fault: Option<string>): (r: Result<Option<Post>>)
      reads this
      ensures fault.Some? ==> r == Failed(FindByIdPrefix, fault.value)
      ensures fault.None? ==> r.Ok?
      ensures r.Ok? ==> (r.value.Some? <==> id in posts && IsActive(posts[id]))
      ensures r.Ok? && r.value.Some? ==> r.value.value == posts[id]
    {
      if fault.Some? then Failed(FindByIdPrefix, fault.value) else Ok(Store.FindOne(posts, id, IsActive))
    }

    /** `DeletePost`: stamps the deletion time on the post, deleted or not, and returns
        it; nothing is removed. */
    method DeletePost(id: Id, now: Time, fault: Option<string>) returns (r: Result<Option<Post>>)
      requires Valid()
      modifies this`posts
      ensures Valid()
      ensures fault.Some? ==> r == Failed(DeletePrefix, fault.value) && posts == old(posts)
      ensures fault.None? && id !in old(posts) ==> r == Ok(None) && posts == old(posts)
      ensures fault.None? && id in old(posts) ==>
        posts == SoftDeleted(old(posts), id, now) && r == Ok(Some(posts[id]))
    {
      if fault.Some? {
        r := Failed(DeletePrefix, fault.value);
      } else if id !in posts {
        r := Ok(None);
      } else {
        posts := SoftDeleted(posts, id, now);
        r := Ok(Some(posts[id]));
      }
    }

    /** `updatePostById`: applies the update to the post only while it is active and
        returns the updated post. */
    method UpdatePostById(id: Id, patch: PostPatch, now: Time, fault: Option<string>) returns (r: Result<Option<Post>>)
      requires Valid()
      modifies this`posts
      ensures Valid()
      ensures fault.Some? ==> r == Failed(UpdatePrefix, fault.value) && posts == old(posts)
      ensures fault.None? && Store.FindOne(old(posts), id, IsActive).None? ==> r == Ok(None) && posts == old(posts)
      ensures fault.None? && Store.FindOne(old(posts), id, IsActive).Some? ==>
        posts == old(posts)[id := ApplyPatch(old(posts)[id], patch, now)] && r == Ok(Some(posts[id]))
    {
      if fault.Some? {
        r := Failed(UpdatePrefix, fault.value);
      } else if Store.FindOne(posts, id, IsActive).None? {
        r := Ok(None);
      } else {
        posts := posts[id := ApplyPatch(posts[id], patch, now)];
        r := Ok(Some(posts[id]));
      }
    }

    /** `createMany`: inserts the whole batch with consecutive identifiers, or nothing
        when a draft lacks a required path (the first such draft is reported). An
        empty batch returns the empty list without reaching the store, so it cannot
        fail. */
    method CreateMany(drafts: seq<PostDraft>, now: Time, fault: Option<string>) returns (r: Result<seq<Post>>)
      requires Valid()
      modifies this
      ensures Valid()
      ensures FirstInvalid(drafts).Some? ==>
        r == Failed(CreateManyPrefix, ValidationMessage("Post", Names(MissingPaths(drafts[FirstInvalid(drafts).value]), PathName)))
        && posts == old(posts) && nextId == old(nextId)
      ensures FirstInvalid(drafts).None? && fault.Some? && drafts != [] ==>
        r == Failed(CreateManyPrefix, fault.value) && posts == old(posts) && nextId == old(nextId)
      ensures drafts == [] ==> r == Ok([]) && posts == old(posts) && nextId == old(nextId)
      ensures FirstInvalid(drafts).None? && (fault.None? || drafts == []) ==>
        && r == Ok(Batch(drafts, old(nextId), now))
        && nextId == old(nextId) + |drafts|
        && (forall k :: k in posts <==> k in old(posts) || old(nextId) <= k < nextId)
        && (forall k | k in old(posts) :: posts[k] == old(posts)[k])
        && (forall i | 0 <= i < |drafts| :: posts[old(nextId) + i] == r.value[i])
    {
      var bad := FirstInvalid(drafts);
      if bad.Some? {
        r := Failed(CreateManyPrefix, ValidationMessage("Post", Names(MissingPaths(drafts[bad.value]), PathName)));
        return;
      }
      if fault.Some? && drafts != [] {
        r := Failed(CreateManyPrefix, fault.value);
        return;
      }
      var first := nextId;
      var created := Batch(drafts, first, now);
      posts := posts + Keyed(created, first);
      nextId := first + |drafts|;
      r := Ok(created);
      forall k | k in posts ensures IdOf(posts[k]) == k {
        if first <= k {
          assert posts[first + (k - first)] == created[k - first];
        }
      }
    }

    /** `findPostsByCatergoryId`: the active posts of one category, each once, in
        natural order. */
    function FindPostsByCategoryId(category: Id, fault: Option<string>): (r: Result<seq<Post>>)
      reads this
      requires Valid()
      ensures fault.Some? ==> r == Failed(FindByCategoryPrefix, fault.value)
      ensures fault.None? ==> r.Ok?
      ensures r.Ok? ==> forall p | p in r.value :: p.id in posts && posts[p.id] == p && IsActive(p) && p.category == category
      ensures r.Ok? ==> forall k | k in posts && IsActive(posts[k]) && posts[k].category == category :: posts[k] in r.value
      ensures r.Ok? ==> forall i, j | 0 <= i < j < |r.value| :: r.value[i].id < r.value[j].id
    {
      if fault.Some? then Failed(FindByCategoryPrefix, fault.value)
      else
        var keep := InCategory(category);
        Store.ScanExactly(posts, nextId, keep, IdOf);
        Ok(Store.Scan(posts, nextId, keep))
    }
  }

  /** A soft-deleted post stays in the collection with its other fields intact, but
      the lookup by identifier and every listing stop returning it; other posts are
      untouched. */
  lemma {:induction false} SoftDeleteHides(t: map<Id, Post>, n: nat, id: Id, now: Time)
    requires Store.KeyedBy(t, IdOf) && id in t
    ensures id in SoftDeleted(t, id, now)
    ensures SoftDeleted(t, id, now)[id] == t[id].(deletedAt := Some(now), updatedAt := now)
    ensures Store.FindOne(SoftDeleted(t, id, now), id, IsActive) == None
    ensures forall k | k in t && k != id :: k in SoftDeleted(t, id, now) && SoftDeleted(t, id, now)[k] == t[k]
    ensures forall p | p in Store.Scan(SoftDeleted(t, id, now), n, IsActive) :: p.id != id
  {
    var t' := SoftDeleted(t, id, now);
    assert Store.KeyedBy(t', IdOf);
    Store.ScanExactly(t', n, IsActive, IdOf);
  }

  /** Deleting a deleted post again moves its deletion time to the later call. */
  lemma DeleteAgainRestamps(t: map<Id, Post>, id: Id, first: Time, second: Time)
    requires id in t
    ensures SoftDeleted(SoftDeleted(t, id, first), id, second) == SoftDeleted(t, id, second)
    ensures SoftDeleted(SoftDeleted(t, id, first), id, second)[id].deletedAt == Some(second)
  {
  }

  /** Once deleted, a post stays deleted, and it is the update's filter that keeps it
      so: the filter does not find a deleted post, while the patch alone would make it
      active again exactly when it sets `deletedAt` to null. */
  lemma DeletedStaysDeleted(t: map<Id, Post>, id: Id, u: PostPatch, now: Time)
    requires id in t && !IsActive(t[id])
    ensures Store.FindOne(t, id, IsActive).None?
    ensures IsActive(ApplyPatch(t[id], u, now)) <==> u.deletedAt == Some(None)
  {
  }
}
