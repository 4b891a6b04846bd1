/** The Post document (models/Post.ts): its stored shape, the paths required on
    create, and what the store adds: identity, `createdAt` and `updatedAt`. */
module PostModel {
  import opened Common
  import opened Schemas

  /** A stored post. `content` is optional at the schema level and `deletedAt`
      has no declared type; an absent `deletedAt` is what "active" means. */
  datatype Post = Post(
    id: Id,
    title: string,
    content: Option<string>,
    imageUrl: Option<string>,
    author: string,
    category: Id,
    tags: seq<Id>,
    deletedAt: Option<Time>,
    createdAt: Time,
    updatedAt: Time)

  /** The data handed to the store on create. `comment` is part of the request type
      but not a path of the schema, so the store drops it. */
  datatype PostDraft = PostDraft(
    title: Option<string>,
    content: Option<string>,
    imageUrl: Option<string>,
    author: Option<string>,
    category: Option<Id>,
    tags: Option<seq<Id>>,
    deletedAt: Option<Time>,
    comment: Option<Id>)

  /** The fields of a `$set` update; `None` leaves a field as it is. The update body
      is not validated, so the optional paths can also be set to null: `Some(None)`. */
  datatype PostPatch = PostPatch(
    title: Option<string>,
    content: Option<Option<string>>,
    imageUrl: Option<Option<string>>,
    author: Option<string>,
    category: Option<Id>,
    tags: Option<seq<Id>>,
    deletedAt: Option<Option<Time>>)

  /** The paths the schema marks required. */
  datatype RequiredPath = Title | Author | Category

  /** The required paths in schema order. */
  const RequiredPaths: seq<RequiredPath> := [Title, Author, Category]

  function PathName(path: RequiredPath): string
  {
    match path
    case Title => "title"
    case Author => "author"
    case Category => "category"
  }

  /** The schema's required paths are all present: a non-empty title and author and
      a category reference. */
  predicate HasRequired(d: PostDraft)
  {
    RequiredText(d.title) && RequiredText(d.author) && d.category.Some?
  }

  /** Whether the create data sets the required path `path`, possibly to the empty
      string. */
  predicate Given(d: PostDraft, path: RequiredPath)
  {
    match path
    case Title => d.title.Some?
    case Author => d.author.Some?
    case Category => d.category.Some?
  }

  /** Whether the required path `path` holds what the schema requires. */
  predicate Filled(d: PostDraft, path: RequiredPath)
  {
    match path
    case Title => RequiredText(d.title)
    case Author => RequiredText(d.author)
    case Category => d.category.Some?
  }

  /** Where each required path stands in schema order. */
  function Slot(path: RequiredPath): (n: nat)
    ensures n < |RequiredPaths| && RequiredPaths[n] == path
  {
    match path case Title => 0 case Author => 1 case Category => 2
  }

  lemma PathPositions()
    ensures forall path :: Position(RequiredPaths, path) == Slot(path)
    ensures Distinct(RequiredPaths)
  {
  }

  /** Picking required paths by flag keeps exactly the flagged ones, in schema order. */
  lemma PickPaths(flags: seq<bool>)
    requires |flags| == |RequiredPaths|
    ensures forall path :: path in Pick(RequiredPaths, flags) <==> flags[Slot(path)]
    ensures Ascending(RequiredPaths, Pick(RequiredPaths, flags))
  {
    PathPositions();
    PickMembers(RequiredPaths, flags);
    PickAscending(RequiredPaths, flags);
    forall path ensures path in RequiredPaths {
      assert RequiredPaths[Slot(path)] == path;
    }
  }

  /** The required paths the create data never sets, in schema order. */
  function Pending(d: PostDraft): (pending: seq<RequiredPath>)
    ensures forall path :: path in pending <==> !Given(d, path)
    ensures Ascending(RequiredPaths, pending)
  {
    var flags := [d.title.None?, d.author.None?, d.category.None?];
    PickPaths(flags);
    Pick(RequiredPaths, flags)
  }

  /** The required paths the create data sets to the empty string, in schema order. */
  function Blank(d: PostDraft): (blank: seq<RequiredPath>)
    ensures forall path :: path in blank <==> Given(d, path) && !Filled(d, path)
    ensures Ascending(RequiredPaths, blank)
  {
    var flags := [d.title == Some(""), d.author == Some(""), false];
    PickPaths(flags);
    Pick(RequiredPaths, flags)
  }

  /** The required paths that are missing, in the order the store reports them: those
      never given first, then those given as empty strings. */
  function MissingPaths(d: PostDraft): (missing: seq<RequiredPath>)
    ensures missing == [] <==> HasRequired(d)
    ensures Title in missing <==> !RequiredText(d.title)
    ensures Author in missing <==> !RequiredText(d.author)
    ensures Category in missing <==> d.category.None?
    ensures InStoreOrder(missing, path => Given(d, path), RequiredPaths)
  {
    var pending, blank := Pending(d), Blank(d);
    MissingMembers(d);
    assert forall i | 0 <= i < |pending| :: pending[i] in pending;
    assert forall i | 0 <= i < |blank| :: blank[i] in blank;
    PendingThenBlank(pending, blank, path => Given(d, path), RequiredPaths);
    pending + blank
  }

  /** A path is missing when it was never given or given empty, and nothing else is. */
  lemma MissingMembers(d: PostDraft)
    ensures Pending(d) + Blank(d) == [] <==> HasRequired(d)
    ensures forall path :: path in Pending(d) + Blank(d) <==> !Filled(d, path)
  {
    var missing := Pending(d) + Blank(d);
    if missing != [] {
      assert missing[0] in missing;
    } else {
      assert Filled(d, Title) && Filled(d, Author) && Filled(d, Category);
    }
  }

  /** An empty title is reported after an author that was never given. */
  lemma AbsentBeforeEmpty(category: Id)
    ensures MissingPaths(PostDraft(Some(""), None, None, None, Some(category), None, None, None)) == [Author, Title]
  {
    var d := PostDraft(Some(""), None, None, None, Some(category), None, None, None);
    assert Pending(d) == Pick(RequiredPaths, [false, true, false]) == [Author];
    assert Blank(d) == Pick(RequiredPaths, [true, false, false]) == [Title];
  }

  /** The document the store keeps for a draft: the given fields (tags default to the
      empty list, `comment` is dropped), the new identifier, and both timestamps set to
      the time of creation. */
  function NewPost(d: PostDraft, id: Id, now: Time): (p: Post)
    requires HasRequired(d)
  {
    Post(id, d.title.value, d.content, d.imageUrl, d.author.value, d.category.value,
         if d.tags.Some? then d.tags.value else [], d.deletedAt, now, now)
  }

  /** The caller-supplied fields of a stored post, as a draft. */
  function DraftOf(p: Post): PostDraft
  {
    PostDraft(Some(p.title), p.content, p.imageUrl, Some(p.author), Some(p.category), Some(p.tags), p.deletedAt, None)
  }

  /** Storing a draft keeps every field the schema declares: reading the fields back
      gives the draft, with tags defaulted and `comment` dropped. */
  lemma NewPostKeepsDraft(d: PostDraft, id: Id, now: Time)
    requires HasRequired(d)
    ensures DraftOf(NewPost(d, id, now)) == d.(tags := Some(if d.tags.Some? then d.tags.value else []), comment := None)
    ensures NewPost(d, id, now).createdAt == NewPost(d, id, now).updatedAt == now
  {
  }

  /** `$set` of the supplied fields; the timestamps option stamps `updatedAt`. No
      validator runs on an update. */
  function ApplyPatch(p: Post, u: PostPatch, now: Time): (q: Post)
  {
    p.(title := if u.title.Some? then u.title.value else p.title,
       content := if u.content.Some? then u.content.value else p.content,
       imageUrl := if u.imageUrl.Some? then u.imageUrl.value else p.imageUrl,
       author := if u.author.Some? then u.author.value else p.author,
       category := if u.category.Some? then u.category.value else p.category,
       tags := if u.tags.Some? then u.tags.value else p.tags,
       deletedAt := if u.deletedAt.Some? then u.deletedAt.value else p.deletedAt,
       updatedAt := now)
  }

  const NoChange := PostPatch(None, None, None, None, None, None, None)

  /** An update changes only the fields it supplies: a field left out keeps its value,
      identity and creation time never change, and applying the same update twice is
      the same as applying it once. */
  lemma PatchChangesOnlySupplied(p: Post, u: PostPatch, now: Time)
    ensures var q := ApplyPatch(p, u, now);
      && (u.title.Some? ==> q.title == u.title.value) && (u.title.None? ==> q.title == p.title)
      && (u.content.Some? ==> q.content == u.content.value) && (u.content.None? ==> q.content == p.content)
      && (u.imageUrl.Some? ==> q.imageUrl == u.imageUrl.value) && (u.imageUrl.None? ==> q.imageUrl == p.imageUrl)
      && (u.author.Some? ==> q.author == u.author.value) && (u.author.None? ==> q.author == p.author)
      && (u.category.Some? ==> q.category == u.category.value) && (u.category.None? ==> q.category == p.category)
      && (u.tags.Some? ==> q.tags == u.tags.value) && (u.tags.None? ==> q.tags == p.tags)
      && (u.deletedAt.Some? ==> q.deletedAt == u.deletedAt.value) && (u.deletedAt.None? ==> q.deletedAt == p.deletedAt)
      && q.id == p.id && q.createdAt == p.createdAt && q.updatedAt == now
    ensures ApplyPatch(p, NoChange, now) == p.(updatedAt := now)
    ensures ApplyPatch(ApplyPatch(p, u, now), u, now) == ApplyPatch(p, u, now)
  {
  }
}
