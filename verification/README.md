# Blog persistence core, modelled in Dafny

This project models the persistence core of a small blog backend. The backend stores
posts, comments, categories and tags in a document store.

- **Posts and comments are soft-deleted.** A record is *active* while it has no
  `deletedAt`. Reads and updates see only active records. A delete stamps
  `deletedAt` with the current time and removes nothing.
- **Categories and tags are deleted for good.** Their reads and updates do not filter
  on a deletion time.
- **The store adds fields on create.** Each record gets an identifier, and
  `createdAt` and `updatedAt` set to the time of creation. Every update and soft
  delete stamps `updatedAt`. Creating a record that lacks a required path fails with the
  schema's validation error.
- **Errors carry a prefix.** Every store failure is rethrown as a `DatabaseError`
  whose message is the operation's prefix followed by the store's message.
- **Create bodies are validated first; update bodies are not.** The post and
  comment validators give each field one rule or a chain of rules, and they collect
  every broken rule instead of stopping at the first. Update bodies go to the store's
  `$set` unchecked, so an update can set a path to null.
- **Uploads are filtered.** The upload filter admits `.png`, `.jpg` and `.jpeg` files
  in any letter case. A stored upload is named by the upload time, a dash, and the
  client's file name.

## How it is built

- **Repositories are classes.** Each repository in `src/repositories` is a class.
  It holds its collection as a `map` from identifier to record, plus the next
  identifier to hand out.
  - Creates, updates and deletes are `method`s. Each one states the whole new
    collection and the result, for every outcome.
  - Queries are functions on the collection. They state which records they return,
    that none is returned twice, and in what order.
- **The store is a parameter.** A store failure is an `Option<string>` parameter
  (`fault`); `Some(m)` is a failing store call with message `m`. The current time is
  a parameter `now`.
- **Natural order is taken to be insertion order.** Identifiers are natural numbers
  handed out in ascending order. A query without a sort is modelled as returning
  records in ascending identifier order. The store does not promise that order (see
  Left out).
- **Generic pieces are shared.** The store's filtered scan, one-key sort and `limit`
  are in `Store`. The Joi object-schema semantics is in `Joi`. The two validators are
  schemas given to it.

### Behaviour of the code worth knowing

- **A delete re-stamps.** The post and comment deletes use an update by identifier
  with no `deletedAt` filter. Deleting a record that is already deleted finds it,
  moves its `deletedAt` to the new time, and returns it. Only an unknown identifier
  gives null; a second delete does not.
- **Two post queries reuse the create prefix.** `findAllPosts` and `findByQuery`
  rethrow with "Error creating Post: ". The model keeps that prefix.
- **`createMany` has no transaction.** The store inserts the drafts without one. The
  model treats the call as either all records inserted or an error (see Left out).

## Model

| member | source | states |
|---|---|---|
| Posts.PostRepository.CreatePost | src/repositories/post.repository.ts:7-13 | When title, author or category is missing, the call throws "Error creating Post: " followed by the schema's message naming the missing paths in the store's order, and the collection is unchanged. On a store failure it throws the same prefix with the store's message, and nothing changes. Otherwise exactly one post is added under a fresh identifier and returned, and it is found again by identifier exactly when it was created without `deletedAt`. |
| Posts.PostRepository.FindAllPosts | src/repositories/post.repository.ts:16-26 | The result holds exactly the stored posts without `deletedAt`, each once, ordered newest `createdAt` first. A store failure throws "Error creating Post: " followed by the store's message. |
| Posts.PostRepository.FindByQuery | src/repositories/post.repository.ts:28-49 | At most 1000 posts are returned, in natural order, each active and stored. When the keyword is a non-empty string, each returned title contains it regardless of case. When the page is not full, every matching post is in it; a matching post is missing only when the page is full and the post comes after the page's last one. A store failure throws "Error creating Post: ". |
| Posts.PostRepository.FindPostById | src/repositories/post.repository.ts:51-58 | Returns the post exactly when the identifier is stored and the post is active, otherwise null. A store failure throws "Error finding post by ID: ". |
| Posts.PostRepository.DeletePost | src/repositories/post.repository.ts:60-71 | For a stored identifier, already deleted or not, the post gets `deletedAt` and `updatedAt` set to now; the updated post is returned and no other post changes. An unknown identifier returns null and changes nothing. A store failure throws "Error soft-deleting post: " and changes nothing. |
| Posts.PostRepository.UpdatePostById | src/repositories/post.repository.ts:73-87 | An active post gets the update applied and is returned; the update may set `content`, `imageUrl` or `deletedAt` to null. A missing or deleted post gives null, and the collection is unchanged. A store failure throws "Error updating post: ". |
| Posts.PostRepository.CreateMany | src/repositories/post.repository.ts:88-97 | If some draft lacks a required path, the first such draft's validation message is thrown with "Error creating multiple posts: " and nothing is inserted. An empty batch returns the empty list and cannot fail. Otherwise a store failure throws the prefix with the store's message; without one, one post per draft is added under consecutive new identifiers and returned in input order; existing posts are untouched. |
| Posts.PostRepository.FindPostsByCategoryId | src/repositories/post.repository.ts:99-111 | Returns exactly the active posts of the category, each once, in natural order. A store failure throws "Error finding post by ID: ". |
| Posts.SoftDeleteHides | src/repositories/post.repository.ts:62-67 | A soft-deleted post stays stored with only `deletedAt` and `updatedAt` changed. The lookup by identifier no longer returns it, no listing of active posts holds it, and every other post is unchanged. |
| Posts.DeleteAgainRestamps | src/repositories/post.repository.ts:62-66 | Deleting a post twice leaves it as a single delete at the second time would: the deletion time moves to the later call. |
| Posts.DeletedStaysDeleted | src/repositories/post.repository.ts:78-83 | The update's filter does not find a deleted post, so no update reaches it; the patch alone would make it active again exactly when it sets `deletedAt` to null. |
| PostModel.MissingPaths | src/models/Post.ts:8-19 | Each of title, author and category is reported exactly when it is missing (an absent or empty string, or no category). The paths never given come first and those given as empty strings after them, each group in schema order and each path once; nothing is reported exactly when all three are present. |
| PostModel.AbsentBeforeEmpty | src/models/Post.ts:8-19 | A draft with an empty title, no author and a category reports author before title. |
| PostModel.NewPostKeepsDraft | src/models/Post.ts:6-26 | A stored post carries back every field of its draft, with `tags` defaulting to the empty list and `comment` dropped. In this model `content` is kept as given and is not required; how the store treats its nested declaration is under Left out. `createdAt` and `updatedAt` are both the time of creation. |
| PostModel.PatchChangesOnlySupplied | src/repositories/post.repository.ts:78-83 | Every field the update supplies takes the supplied value, null included for `content`, `imageUrl` and `deletedAt`, and every field it leaves out keeps its old value; `updatedAt` becomes now, and the identifier and `createdAt` stay the same. An empty update only stamps `updatedAt`. Applying the same update twice equals applying it once. |
| Comments.CommentRepository.CreateComment | src/repositories/comments.repository.ts:7-14 | When content, name, email or postId is missing, the call throws "Error creating comment: " with the schema's message, naming the missing paths in the store's order, and nothing changes. On a store failure it throws the prefix with the store's message. Otherwise exactly one comment is added and returned, and it is found by identifier exactly when it was created without `deletedAt`. |
| Comments.CommentRepository.FindCommentsByPostId | src/repositories/comments.repository.ts:16-27 | Returns exactly the active comments of the post, each once, oldest `createdAt` first. A store failure throws "Error fetching comments: ". |
| Comments.CommentRepository.DeleteComment | src/repositories/comments.repository.ts:29-42 | A stored comment, deleted or not, gets `deletedAt` and `updatedAt` set to now and is returned. An unknown identifier gives null and no change. A store failure throws "Error soft-deleting comment: ". |
| Comments.CommentRepository.UpdateComment | src/repositories/comments.repository.ts:44-58 | Only an active comment is updated and returned, and the update may set `deletedAt` to null; a missing or deleted one gives null with the collection unchanged. A store failure throws "Error updating comment: ". |
| Comments.CommentRepository.FindCommentById | src/repositories/comments.repository.ts:60-67 | Returns the comment exactly when it is stored and active, else null. A store failure throws "Error finding comment by ID: ". |
| Comments.SoftDeleteHides | src/repositories/comments.repository.ts:33-37 | A soft-deleted comment stays stored but leaves the lookup and its post's listing; other comments are unchanged. |
| Comments.DeleteAgainRestamps | src/repositories/comments.repository.ts:33-37 | A second delete moves the deletion time to the later call. |
| CommentModel.MissingPaths | src/models/Comment.ts:8-18 | Each of content, name, email and postId is reported exactly when it is missing. The paths never given come first and those given as empty strings after them, each group in schema order and each path once; nothing is reported exactly when all four are present. |
| CommentModel.NewCommentKeepsDraft | src/models/Comment.ts:6-22 | A stored comment carries back every field of its draft. `createdAt` and `updatedAt` are the time of creation. |
| CommentModel.PatchChangesOnlySupplied | src/repositories/comments.repository.ts:49-53 | Every supplied field takes the supplied value and every other field keeps its old one; `updatedAt` becomes now, the identifier and `createdAt` stay. An empty update only stamps `updatedAt`, and the update is idempotent. |
| NamedModel.MissingPaths | src/models/Category.ts:6-14 | A category or tag can be stored exactly when its name is a non-empty string; otherwise the only missing path is `name`. |
| NamedModel.AllOldestFirst | src/repositories/category.repository.ts:18 | Returns every stored document, with no visibility filter, each once, ordered by `createdAt` ascending. |
| NamedModel.HardDeleteRemoves | src/repositories/category.repository.ts:54 | After a delete the lookup finds nothing and the listing no longer holds the document; every other lookup is unchanged. |
| NamedModel.PatchChangesOnlySupplied | src/repositories/category.repository.ts:41-45 | A supplied name, null included, replaces the old one and an omitted name keeps it; `updatedAt` becomes now, the identifier and `createdAt` stay. The update is idempotent. |
| Categories.CategoryRepository.CreateCategory | src/repositories/category.repository.ts:7-14 | A missing or empty name throws "Error creating category: " with the validation message of the model named "Comment", and nothing changes. A store failure throws the prefix with the store's message. Otherwise one category is added, returned, and found again by identifier. |
| Categories.CategoryRepository.FindAllCategories | src/repositories/category.repository.ts:16-23 | Returns exactly the stored categories, each once, oldest first. A store failure throws "Error fetching categories: ". |
| Categories.CategoryRepository.FindCategoryById | src/repositories/category.repository.ts:25-34 | Returns the category exactly when it is stored, else null. A store failure throws "Error finding category by ID: ". |
| Categories.CategoryRepository.UpdateCategory | src/repositories/category.repository.ts:36-50 | Any stored category gets the update, which may set its name to null, and is returned; an unknown identifier gives null with no change. A store failure throws "Error updating category: ". |
| Categories.CategoryRepository.DeleteCategory | src/repositories/category.repository.ts:52-59 | The category is removed and returned as it was, or null when absent; a later lookup gives null. A store failure throws "Error deleting category: " and changes nothing. |
| Tags.TagRepository.CreateTag | src/repositories/tags.repository.ts:7-14 | A missing or empty name throws "Error creating tag: " with the validation message. A store failure throws the prefix with the store's message. Otherwise one tag is added, returned, and found again by identifier. |
| Tags.TagRepository.FindAllTags | src/repositories/tags.repository.ts:16-23 | Returns exactly the stored tags, each once, oldest first. A store failure throws "Error fetching tags: ". |
| Tags.TagRepository.FindTagById | src/repositories/tags.repository.ts:25-32 | Returns the tag exactly when it is stored, else null. A store failure throws "Error finding tag by ID: ". |
| Tags.TagRepository.UpdateTag | src/repositories/tags.repository.ts:34-48 | Any stored tag gets the update, which may set its name to null, and is returned; an unknown identifier gives null with no change. A store failure throws "Error updating tag: ". |
| Tags.TagRepository.DeleteTag | src/repositories/tags.repository.ts:50-57 | The tag is removed and returned as it was, or null when absent; a later lookup gives null. A store failure throws "Error deleting tag: ". |
| PostValidation.SchemaSaysWhatFieldsSay | src/validations/post.validation.ts:6-13 | Each key of the post schema is satisfied exactly when its field meets its rule. title, content, author and category must be non-empty strings; title has at most 100 UTF-16 code units, as JavaScript counts string length; category may be any such string. imageUrl, when given, is a URI. tags, when given, is a list of 24-digit hex strings. deletedAt, when given, is a date: a Date, a timestamp within the 8.64e15 milliseconds a JavaScript Date can hold, or date text. comment, when given, is a 24-digit hex string. |
| PostValidation.FarTimestampRejected | src/validations/post.validation.ts:12 | A deletedAt timestamp beyond the range of a JavaScript Date is reported. |
| PostValidation.AstralTitleTooLong | src/validations/post.validation.ts:6 | A title of 51 emoji outside the Basic Multilingual Plane is 102 UTF-16 units long and breaks the 100 limit, though it has only 51 characters. |
| PostValidation.ValidatePostAccepts | src/validations/post.validation.ts:4-17 | `validatePost` returns no error exactly when every field of the body meets its rule. |
| PostValidation.ValidatePostReportsEveryField | src/validations/post.validation.ts:16 | With `abortEarly: false`, a field is reported exactly when it is a schema field whose rule it breaks: every broken field, and nothing else. |
| CommentValidation.SchemaSaysWhatFieldsSay | src/validations/comments.valdation.ts:6-10 | content and name must be non-empty strings, and email a non-empty string of e-mail syntax. postId must be a 24-digit hex string. deletedAt, when given, must be a date, a timestamp only within the range a JavaScript Date can hold. |
| CommentValidation.ValidateCommentAccepts | src/validations/comments.valdation.ts:4-14 | `validateComment` returns no error exactly when every field meets its rule. |
| CommentValidation.ValidateCommentReportsEveryField | src/validations/comments.valdation.ts:13 | Every broken comment field is reported, and nothing outside the schema. |
| Joi.RuleIssues | src/validations/post.validation.ts:6 | Every rule the string breaks is reported, every issue comes from a broken rule, and no issue is reported exactly when every rule holds; all issues carry the field's path. |
| Joi.TextIssues | src/validations/post.validation.ts:6 | A string rule gives no issue exactly when the value is a non-empty string that keeps every chained rule. A non-string fails the base check alone, and so does the empty string. Otherwise each broken rule is reported, all under the field's own path. |
| Joi.ItemIssues | src/validations/post.validation.ts:10 | An array of strings is clean exactly when every element conforms; each element's issues carry the array's key. |
| Joi.KeyIssues | src/validations/post.validation.ts:6-13 | A key gives no issue exactly when it is present and conforms, or absent and optional. |
| Joi.ValidateAccepts | src/validations/post.validation.ts:16 | The issues of an object schema are empty exactly when every key is satisfied. |
| Joi.ValidateReportsEveryKey | src/validations/post.validation.ts:16 | For schemas with distinct keys, a key is reported exactly when its own rule fails; earlier failures do not hide later ones. |
| Text.ContainsIgnoringCase | src/repositories/post.repository.ts:33-40 | The title matches exactly when the lower-cased keyword occurs at some position of the lower-cased title. |
| Upload.DestinationIsFixed | src/config/multer.config.ts:16-18 | Every file goes to the same upload directory, whatever the file. |
| Upload.StoredFilename | src/config/multer.config.ts:19-22 | The stored name ends with a dash followed by the original name. |
| Upload.StoredFilenameRoundTrip | src/config/multer.config.ts:20 | Splitting a stored name at its first dash gives back the upload time and the whole original name, dashes in it included. |
| Text.DecimalRoundTrip | src/config/multer.config.ts:20 | The decimal rendering of the time reads back as the same number. |
| Upload.FileFilter | src/config/multer.config.ts:32-33 | Every rejection carries the message "Only images are allowed". |
| Upload.FileFilterAcceptsImageNames | src/config/multer.config.ts:31-35 | The filter accepts a name exactly when, trailing slashes aside, it ends in ".png", ".jpg" or ".jpeg" in any letter case, after a character that is not a slash. |
| Upload.FileFilterIgnoresCase | src/config/multer.config.ts:31 | Lower-casing the name never changes the filter's decision. |
| Upload.UpperCaseImageAccepted | src/config/multer.config.ts:31-35 | "photo.PNG" is accepted. |
| Upload.HiddenFileRejected | src/config/multer.config.ts:31-33 | ".png" has no extension, so it is rejected. |
| Upload.OtherExtensionRejected | src/config/multer.config.ts:31-33 | "notes.png.txt" is rejected: only the last extension counts. |

## Left out

- **Populating references.** `populate("tags")` and `populate("category")` in
  `findAllPosts` are not modelled. The model returns posts holding category and tag
  identifiers, and claims nothing about resolved documents.
- Posts.PostRepository.FindByQuery: matches the keyword as literal text with ASCII
  case folding. The store feeds it unescaped to a regular-expression match, so a
  keyword holding regular-expression syntax can behave differently.
- Posts.PostRepository.FindByQuery: returns its page in ascending identifier
  order, which is insertion order. The store applies no sort here and does not
  promise any order, so which matches land on a full page may differ. When the page
  is not full, the model's promise that every match is returned does not depend on
  order.
- Posts.PostRepository.FindPostsByCategoryId: returns posts in ascending identifier
  order, which the store does not promise without a sort. The set of posts returned
  does not depend on this.
- Posts.PostRepository.CreateMany: all-or-nothing. It inserts every draft or none.
  The store's partial commit, where drafts before a failure stay inserted, is not
  modelled.
- Posts.PostRepository.UpdatePostById: a patch can null only `content`, `imageUrl`
  and `deletedAt`. The unvalidated update body can also set `title`, `author`,
  `category` or `tags` to null, which the model's patch cannot express, so the model
  does not capture posts whose required paths became null.
- Comments.CommentRepository.UpdateComment: a patch can null only `deletedAt`. The
  unvalidated update body can also set `content`, `name`, `email` or `postId` to
  null, which the model's patch cannot express.
- PostModel.MissingPaths: lists paths never given, in schema order, then paths given
  as empty strings, in schema order. This assumes the store sets the paths of the
  create data in schema order; a store version that sets them in the order of the
  data's keys would list the empty ones in that order.
- CommentModel.MissingPaths: the same order assumption as the line above.
- **Casting and store-side checks.** Identifiers are natural numbers, not ObjectIds.
  Casting request strings to ObjectIds or dates, and any failure of that casting,
  belongs to the store and is covered only through the `fault` parameter.
- PostModel.NewPostKeepsDraft: keeps `content` as the given optional string. The
  schema declares `content` as `{ String }`, which the schema library reads as a
  nested path rather than a string path, so the store does not keep a string
  `content` as given. That loss is not modelled.
- Posts.PostRepository.CreatePost: stores `content` as given, for the same reason as
  the line above; the store's handling of the nested `content` path is not modelled.
- **The Post `deletedAt` path.** It has no declared type. The model treats it like
  the Comment one: absent, or a time.
- **Joi grammars.** URI syntax, e-mail syntax and Joi's conversion of text to a date
  are uninterpreted predicates (`Grammar`).
- **Other Joi defaults.** The unknown-key policy, type conversion of values other
  than `date()`'s reading of a timestamp, and the wording of Joi's messages are not
  modelled. Numbers are integers; fractional timestamps are not modelled. An issue is a path and an error code.
- **The shared model name.** Category and Tag both register under the model name
  "Comment". Each repository is modelled over its own collection, and the
  registration conflict that the library reports at start-up is not modelled. Only
  the name appearing in their validation messages is kept.
- **Timestamps.** The clock is a parameter. Nothing assumes later calls see later
  times.
- **Upload side effects.** Creating the upload directory at start-up, and writing
  the file, are filesystem effects and are left out. The directory path is a
  parameter of `Upload.Destination`.
- Upload.StoredFilename: renders the time as plain decimal digits. This is how
  JavaScript prints integers below 10^21; larger values, and negative clocks, are
  not modelled.
- **Path rules.** The extension is taken by the POSIX rules of Node's
  `path.extname`, with `/` as the only separator. Node on Windows uses its win32
  rules, where `\` also separates segments; that variant is not modelled.
- Upload.FileFilter: lower-cases ASCII letters only. JavaScript's `toLowerCase`
  also folds letters of other alphabets; the model keeps those as they are.
- **The route layer.** Routers, handlers, use cases, Swagger documentation and server
  start-up are outside this model.
