/** The comment repository (repositories/comments.repository.ts): comments are
    soft-deleted like posts and listed per post, oldest first. */
module Comments {
  import opened Common
  import opened Schemas
  import opened CommentModel
  import Store

  const CreatePrefix := "Error creating comment: "
  const FetchPrefix := "Error fetching comments: "
  const DeletePrefix := "Error soft-deleting comment: "
  const UpdatePrefix := "Error updating comment: "
  const FindByIdPrefix := "Error finding comment by ID: "

  predicate IsActive(c: Comment)
  {
    c.deletedAt.None?
  }

  function IdOf(c: Comment): Id
  {
    c.id
  }

  function OldestFirst(c: Comment): int
  {
    c.createdAt
  }

  function OnPost(postId: Id): Comment -> bool
  {
    c => IsActive(c) && c.postId == postId
  }

  /** The collection after a soft delete of `id`. */
  function SoftDeleted(t: map<Id, Comment>, id: Id, now: Time): (t': map<Id, Comment>)
    requires id in t
  {
    t[id := t[id].(deletedAt := Some(now), updatedAt := now)]
  }

  class CommentRepository {
    /** The comments collection, by identifier, deleted comments included. */
    var comments: map<Id, Comment>
    var nextId: Id

    ghost predicate Valid()
      reads this
    {
      && Store.KeyedBy(comments, IdOf)
      && forall k | k in comments :: k < nextId
    }

    constructor ()
      ensures Valid() && comments == map[] && nextId == 0
    {
      comments := map[];
      nextId := 0;
    }

    /** `createComment`: stores a new comment, or throws the schema's validation error
        when a required path is missing. */
    method CreateComment(draft: CommentDraft, now: Time, fault: Option<string>) returns (r: Result<Comment>)
      requires Valid()
      modifies this
      ensures Valid()
      ensures !HasRequired(draft) ==>
        r == Failed(CreatePrefix, ValidationMessage("Comment", Names(MissingPaths(draft), PathName)))
        && comments == old(comments) && nextId == old(nextId)
      ensures HasRequired(draft) && fault.Some? ==>
        r == Failed(CreatePrefix, fault.value) && comments == old(comments) && nextId == old(nextId)
      ensures HasRequired(draft) && fault.None? ==>
        && r == Ok(NewComment(draft, old(nextId), now))
        && old(nextId) !in old(comments)
        && comments == old(comments)[old(nextId) := r.value]
        && nextId == old(nextId) + 1
      ensures r.Ok? ==> FindCommentById(r.value.id, None) == Ok(if draft.deletedAt.None? then Some(r.value) else None)
    {
      var missing := MissingPaths(draft);
      if missing != [] {
        r := Failed(CreatePrefix, ValidationMessage("Comment", Names(missing, PathName)));
        return;
      }
      if fault.Some? {
        r := Failed(CreatePrefix, fault.value);
        return;
      }
      var comment := NewComment(draft, nextId, now);
      comments := comments[nextId := comment];
      nextId := nextId + 1;
      r := Ok(comment);
    }

    /** `findCommentsByPostId`: the active comments of one post, each once, oldest
        first. */
    function FindCommentsByPostId(postId: Id, fault: Option<string>): (r: Result<seq<Comment>>)
      reads this
      requires Valid()
      ensures fault.Some? ==> r == Failed(FetchPrefix, fault.value)
      ensures fault.None? ==> r.Ok?
      ensures r.Ok? ==> forall c | c in r.value :: c.id in comments && comments[c.id] == c && IsActive(c) && c.postId == postId
      ensures r.Ok? ==> forall k | k in comments && IsActive(comments[k]) && comments[k].postId == postId :: comments[k] in r.value
      ensures r.Ok? ==> Store.NoDuplicates(r.value)
      ensures r.Ok? ==> forall i, j | 0 <= i < j < |r.value| :: r.value[i].createdAt <= r.value[j].createdAt
    {
      if fault.Some? then Failed(FetchPrefix, fault.value)
      else
        var keep := OnPost(postId);
        var found := Store.Scan(comments, nextId, keep);
        Store.ScanExactly(comments, nextId, keep, IdOf);
        Store.AscendingIdsNoDuplicates(found, IdOf);
        var oldest := Store.SortBy(found, OldestFirst);
        Store.PermutationNoDuplicates(oldest, found);
        assert forall c :: c in oldest <==> c in found by {
          forall c ensures c in oldest <==> c in found {
            assert c in oldest <==> c in multiset(oldest);
          }
        }
        Ok(oldest)
    }

    /** `deleteComment`: stamps the deletion time on the comment, deleted or not, and
        returns it; nothing is removed. */
    method DeleteComment(id: Id, now: Time, fault: Option<string>) returns (r: Result<Option<Comment>>)
      requires Valid()
      modifies this`comments
      ensures Valid()
      ensures fault.Some? ==> r == Failed(DeletePrefix, fault.value) && comments == old(comments)
      ensures fault.None? && id !in old(comments) ==> r == Ok(None) && comments == old(comments)
      ensures fault.None? && id in old(comments) ==>
        comments == SoftDeleted(old(comments), id, now) && r == Ok(Some(comments[id]))
    {
      if fault.Some? {
        r := Failed(DeletePrefix, fault.value);
      } else if id !in comments {
        r := Ok(None);
      } else {
        comments := SoftDeleted(comments, id, now);
        r := Ok(Some(comments[id]));
      }
    }

    /** `updateComment`: applies the update to the comment only while it is active. */
    method UpdateComment(id: Id, patch: CommentPatch, now: Time, fault: Option<string>) returns (r: Result<Option<Comment>>)
      requires Valid()
      modifies this`comments
      ensures Valid()
      ensures fault.Some? ==> r == Failed(UpdatePrefix, fault.value) && comments == old(comments)
      ensures fault.None? && Store.FindOne(old(comments), id, IsActive).None? ==> r == Ok(None) && comments == old(comments)
      ensures fault.None? && Store.FindOne(old(comments), id, IsActive).Some? ==>
        comments == old(comments)[id := ApplyPatch(old(comments)[id], patch, now)] && r == Ok(Some(comments[id]))
    {
      if fault.Some? {
        r := Failed(UpdatePrefix, fault.value);
      } else if Store.FindOne(comments, id, IsActive).None? {
        r := Ok(None);
      } else {
        comments := comments[id := ApplyPatch(comments[id], patch, now)];
        r := Ok(Some(comments[id]));
      }
    }

    /** `findCommentById`: the comment with this identifier, unless it is missing or
        deleted. */
    function FindCommentById(id: Id, fault: Option<string>): (r: Result<Option<Comment>>)
      reads this
      ensures fault.Some? ==> r == Failed(FindByIdPrefix, fault.value)
      ensures fault.None? ==> r.Ok?
      ensures r.Ok? ==> (r.value.Some? <==> id in comments && IsActive(comments[id]))
      ensures r.Ok? && r.value.Some? ==> r.value.value == comments[id]
    {
      if fault.Some? then Failed(FindByIdPrefix, fault.value) else Ok(Store.FindOne(comments, id, IsActive))
    }
  }

  /** A soft-deleted comment stays stored but leaves the lookup and its post's
      listing; other comments are untouched. */
  lemma {:induction false} SoftDeleteHides(t: map<Id, Comment>, n: nat, id: Id, now: Time)
    requires Store.KeyedBy(t, IdOf) && id in t
    ensures id in SoftDeleted(t, id, now) && SoftDeleted(t, id, now)[id].deletedAt == Some(now)
    ensures Store.FindOne(SoftDeleted(t, id, now), id, IsActive) == None
    ensures forall k | k in t && k != id :: k in SoftDeleted(t, id, now) && SoftDeleted(t, id, now)[k] == t[k]
    ensures forall c | c in Store.Scan(SoftDeleted(t, id, now), n, OnPost(t[id].postId)) :: c.id != id
  {
    var t' := SoftDeleted(t, id, now);
    assert Store.KeyedBy(t', IdOf);
    Store.ScanExactly(t', n, OnPost(t[id].postId), IdOf);
  }

  /** Deleting a deleted comment again moves its deletion time to the later call. */
  lemma DeleteAgainRestamps(t: map<Id, Comment>, id: Id, first: Time, second: Time)
    requires id in t
    ensures SoftDeleted(SoftDeleted(t, id, first), id, second) == SoftDeleted(t, id, second)
  {
  }
}
