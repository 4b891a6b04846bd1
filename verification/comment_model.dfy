/** The Comment document (models/Comment.ts): a comment on one post, with the
    commenter's name and e-mail address. */
module CommentModel {
  import opened Common
  import opened Schemas

  datatype Comment = Comment(
    id: Id,
    content: string,
    name: string,
    email: string,
    postId: Id,
    deletedAt: Option<Time>,
    createdAt: Time,
    updatedAt: Time)

  /** The data handed to the store on create. */
  datatype CommentDraft = CommentDraft(
    content: Option<string>,
    name: Option<string>,
    email: Option<string>,
    postId: Option<Id>,
    deletedAt: Option<Time>)

  /** The fields of a `$set` update; `None` leaves a field as it is. The update body
      is not validated, so `deletedAt` can also be set to null: `Some(None)`. */
  datatype CommentPatch = CommentPatch(
    content: Option<string>,
    name: Option<string>,
    email: Option<string>,
    postId: Option<Id>,
    deletedAt: Option<Option<Time>>)

  /** The paths the schema marks required: all of them but `deletedAt`. */
  datatype RequiredPath = Content | Name | Email | PostId

  /** The required paths in schema order. */
  const RequiredPaths: seq<RequiredPath> := [Content, Name, Email, PostId]

  function PathName(path: RequiredPath): string
  {
    match path
    case Content => "content"
    case Name => "name"
    case Email => "email"
    case PostId => "postId"
  }

  /** Every path of the schema except `deletedAt` is required. */
  predicate HasRequired(d: CommentDraft)
  {
    RequiredText(d.content) && RequiredText(d.name) && RequiredText(d.email) && d.postId.Some?
  }

  /** Whether the create data sets the required path `path`, possibly to the empty
      string. */
  predicate Given(d: CommentDraft, path: RequiredPath)
  {
    match path
    case Content => d.content.Some?
    case Name => d.name.Some?
    case Email => d.email.Some?
    case PostId => d.postId.Some?
  }

  /** Whether the required path `path` holds what the schema requires. */
  predicate Filled(d: CommentDraft, path: RequiredPath)
  {
    match path
    case Content => RequiredText(d.content)
    case Name => RequiredText(d.name)
    case Email => RequiredText(d.email)
    case PostId => d.postId.Some?
  }

  /** Where each required path stands in schema order. */
  function Slot(path: RequiredPath): (n: nat)
    ensures n < |RequiredPaths| && RequiredPaths[n] == path
  {
    match path case Content => 0 case Name => 1 case Email => 2 case PostId => 3
  }

  lemma PathPositions()
    ensures forall path :: Position(RequiredPaths, path) == Slot(path)
    ensures Distinct(RequiredPaths)
  {
  }

  /** Picking required paths by flag keeps exactly the flagged ones, in schema order. */
  lemma PickPaths(flags: seq<bool>)
    requires |flags| == |RequiredPaths|
    ensures forall path :: path in Pick(RequiredPaths, flags) <==> flags[Slot(path)]
    ensures Ascending(RequiredPaths, Pick(RequiredPaths, flags))
  {
    PathPositions();
    PickMembers(RequiredPaths, flags);
    PickAscending(RequiredPaths, flags);
    forall path ensures path in RequiredPaths {
      assert RequiredPaths[Slot(path)] == path;
    }
  }

  /** The required paths the create data never sets, in schema order. */
  function Pending(d: CommentDraft): (pending: seq<RequiredPath>)
    ensures forall path :: path in pending <==> !Given(d, path)
    ensures Ascending(RequiredPaths, pending)
  {
    var flags := [d.content.None?, d.name.None?, d.email.None?, d.postId.None?];
    PickPaths(flags);
    Pick(RequiredPaths, flags)
  }

  /** The required paths the create data sets to the empty string, in schema order. */
  function Blank(d: CommentDraft): (blank: seq<RequiredPath>)
    ensures forall path :: path in blank <==> Given(d, path) && !Filled(d, path)
    ensures Ascending(RequiredPaths, blank)
  {
    var flags := [d.content == Some(""), d.name == Some(""), d.email == Some(""), false];
    PickPaths(flags);
    Pick(RequiredPaths, flags)
  }

  /** The required paths that are missing, in the order the store reports them: those
      never given first, then those given as empty strings. */
  function MissingPaths(d: CommentDraft): (missing: seq<RequiredPath>)
    ensures missing == [] <==> HasRequired(d)
    ensures Content in missing <==> !RequiredText(d.content)
    ensures Name in missing <==> !RequiredText(d.name)
    ensures Email in missing <==> !RequiredText(d.email)
    ensures PostId in missing <==> d.postId.None?
    ensures InStoreOrder(missing, path => Given(d, path), RequiredPaths)
  {
    var pending, blank := Pending(d), Blank(d);
    MissingMembers(d);
    assert forall i | 0 <= i < |pending| :: pending[i] in pending;
    assert forall i | 0 <= i < |blank| :: blank[i] in blank;
    PendingThenBlank(pending, blank, path => Given(d, path), RequiredPaths);
    pending + blank
  }

  /** A path is missing when it was never given or given empty, and nothing else is. */
  lemma MissingMembers(d: CommentDraft)
    ensures Pending(d) + Blank(d) == [] <==> HasRequired(d)
    ensures forall path :: path in Pending(d) + Blank(d) <==> !Filled(d, path)
  {
    var missing := Pending(d) + Blank(d);
    if missing != [] {
      assert missing[0] in missing;
    } else {
      assert Filled(d, Content) && Filled(d, Name) && Filled(d, Email) && Filled(d, PostId);
    }
  }

  /** The document the store keeps for a draft, stamped with its identifier and the
      time of creation. */
  function NewComment(d: CommentDraft, id: Id, now: Time): (c: Comment)
    requires HasRequired(d)
  {
    Comment(id, d.content.value, d.name.value, d.email.value, d.postId.value, d.deletedAt, now, now)
  }

  /** The caller-supplied fields of a stored comment, as a draft. */
  function DraftOf(c: Comment): CommentDraft
  {
    CommentDraft(Some(c.content), Some(c.name), Some(c.email), Some(c.postId), c.deletedAt)
  }

  /** Storing a draft keeps every field it gives. */
  lemma NewCommentKeepsDraft(d: CommentDraft, id: Id, now: Time)
    requires HasRequired(d)
    ensures DraftOf(NewComment(d, id, now)) == d
    ensures NewComment(d, id, now).createdAt == NewComment(d, id, now).updatedAt == now
  {
  }

  /** `$set` of the supplied fields, stamping `updatedAt`; no validator runs. */
  function ApplyPatch(c: Comment, u: CommentPatch, now: Time): (q: Comment)
  {
    c.(content := if u.content.Some? then u.content.value else c.content,
       name := if u.name.Some? then u.name.value else c.name,
       email := if u.email.Some? then u.email.value else c.email,
       postId := if u.postId.Some? then u.postId.value else c.postId,
       deletedAt := if u.deletedAt.Some? then u.deletedAt.value else c.deletedAt,
       updatedAt := now)
  }

  const NoChange := CommentPatch(None, None, None, None, None)

  /** An update changes only the fields it supplies, and applying it twice is the
      same as applying it once. */
  lemma PatchChangesOnlySupplied(c: Comment, u: CommentPatch, now: Time)
    ensures var q := ApplyPatch(c, u, now);
      && (u.content.Some? ==> q.content == u.content.value) && (u.content.None? ==> q.content == c.content)
      && (u.name.Some? ==> q.name == u.name.value) && (u.name.None? ==> q.name == c.name)
      && (u.email.Some? ==> q.email == u.email.value) && (u.email.None? ==> q.email == c.email)
      && (u.postId.Some? ==> q.postId == u.postId.value) && (u.postId.None? ==> q.postId == c.postId)
      && (u.deletedAt.Some? ==> q.deletedAt == u.deletedAt.value) && (u.deletedAt.None? ==> q.deletedAt == c.deletedAt)
      && q.id == c.id && q.createdAt == c.createdAt && q.updatedAt == now
    ensures ApplyPatch(c, NoChange, now) == c.(updatedAt := now)
    ensures ApplyPatch(ApplyPatch(c, u, now), u, now) == ApplyPatch(c, u, now)
  {
  }
}
