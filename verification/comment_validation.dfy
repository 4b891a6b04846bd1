/** The request validator for comments (`validateComment`): a Joi object schema
    checked with `abortEarly: false`, so every broken field is reported together. */
module CommentValidation {
  import opened Common
  import opened Joi

  /** The schema, key by key, in the order it is written. */
  const CommentSchema: seq<KeyRule> := [
    KeyRule("content", Required, Text([])),
    KeyRule("name", Required, Text([])),
    KeyRule("email", Required, Text([Email])),
    KeyRule("postId", Required, Text([Hex, ExactLength(24)])),
    KeyRule("deletedAt", Optional, DateValue)
  ]

  const CommentKeys: set<string> := {"content", "name", "email", "postId", "deletedAt"}

  /** The rule for each field of a comment body, in plain words: content and name
      must be non-empty strings, email a non-empty e-mail address, postId a 24-digit
      hex string; deletedAt, when given, a date. */
  ghost predicate CommentFieldOk(body: map<string, Value>, key: string, g: Grammar)
  {
    if key in {"content", "name"} then key in body && NonEmptyText(body[key])
    else if key == "email" then key in body && NonEmptyText(body[key]) && g.isEmail(body[key].s)
    else if key == "postId" then key in body && ObjectIdText(body[key])
    else if key == "deletedAt" then key in body ==> IsDate(body[key], g)
    else true
  }

  /** `validateComment(body)`: the details of the error Joi returns, empty when the
      body is accepted. */
  function ValidateComment(body: map<string, Value>, g: Grammar): (issues: seq<Issue>)
  {
    Validate(CommentSchema, body, g)
  }

  /** No key is written twice in the schema. */
  lemma SchemaKeysDistinct()
    ensures forall i, j | 0 <= i < j < |CommentSchema| :: CommentSchema[i].key != CommentSchema[j].key
  {
  }

  /** Where each field sits in the schema. */
  function KeyIndex(key: string): (n: nat)
    requires key in CommentKeys
    ensures n < |CommentSchema| && CommentSchema[n].key == key
  {
    if key == "content" then 0
    else if key == "name" then 1
    else if key == "email" then 2
    else if key == "postId" then 3
    else 4
  }

  lemma SchemaSaysWhatFieldsSay(body: map<string, Value>, g: Grammar, n: nat)
    requires n < |CommentSchema|
    ensures KeySatisfied(CommentSchema[n], body, g) <==> CommentFieldOk(body, CommentSchema[n].key, g)
  {
    var key := CommentSchema[n].key;
    if key in body {
      var v := body[key];
      NoRules(v, g);
      SingleRule(Email, v, g);
      HexIdRules(v, g);
    }
  }

  /** A comment body is accepted exactly when every field keeps its rule. */
  lemma ValidateCommentAccepts(body: map<string, Value>, g: Grammar)
    ensures ValidateComment(body, g) == [] <==> forall key | key in CommentKeys :: CommentFieldOk(body, key, g)
  {
    ValidateAccepts(CommentSchema, body, g);
    forall n | 0 <= n < |CommentSchema| {
      SchemaSaysWhatFieldsSay(body, g, n);
    }
    forall key | key in CommentKeys
      ensures CommentFieldOk(body, key, g) <==> KeySatisfied(CommentSchema[KeyIndex(key)], body, g)
    {
    }
  }

  /** Validation does not stop at the first broken field: each field of the schema
      is reported exactly when its own rule fails, and nothing outside the schema is
      reported. */
  lemma ValidateCommentReportsEveryField(body: map<string, Value>, g: Grammar, key: string)
    ensures Reported(ValidateComment(body, g), key) <==> key in CommentKeys && !CommentFieldOk(body, key, g)
  {
    ReportedKeysAreSchemaKeys(CommentSchema, body, g, key);
    if key in CommentKeys {
      var n := KeyIndex(key);
      SchemaKeysDistinct();
      ValidateReportsEveryKey(CommentSchema, body, g, n);
      SchemaSaysWhatFieldsSay(body, g, n);
    }
  }
}
