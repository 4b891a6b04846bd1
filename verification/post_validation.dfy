/** The request validator for posts (`validatePost`): a Joi object schema checked
    with `abortEarly: false`, so every broken field is reported together. */
module PostValidation {
  import opened Common
  import opened Joi
  import Text

  /** The schema, key by key, in the order it is written. */
  const PostSchema: seq<KeyRule> := [
    KeyRule("title", Required, Text([MaxLength(100)])),
    KeyRule("content", Required, Text([])),
    KeyRule("imageUrl", Optional, Text([Uri])),
    KeyRule("author", Required, Text([])),
    KeyRule("tags", Optional, TextList([Hex, ExactLength(24)])),
    KeyRule("category", Required, Text([])),
    KeyRule("deletedAt", Optional, DateValue),
    KeyRule("comment", Optional, Text([Hex, ExactLength(24)]))
  ]

  const PostKeys: set<string> := {"title", "content", "imageUrl", "author", "tags", "category", "deletedAt", "comment"}

  /** The rule for each field of a post body, in plain words:
      title, content, author and category must be non-empty strings (a title at most
      100 UTF-16 code units as JavaScript counts them, a category any string at all); imageUrl, when given, a URI;
      tags, when given, a list of 24-digit hex strings; deletedAt, when given, a
      date; comment, when given, a 24-digit hex string. */
  ghost predicate PostFieldOk(body: map<string, Value>, key: string, g: Grammar)
  {
    if key == "title" then key in body && NonEmptyText(body[key]) && Text.Utf16Length(body[key].s) <= 100
    else if key in {"content", "author", "category"} then key in body && NonEmptyText(body[key])
    else if key == "imageUrl" then key in body ==> NonEmptyText(body[key]) && g.isUri(body[key].s)
    else if key == "tags" then
      key in body ==> body[key].List? && forall j | 0 <= j < |body[key].items| :: ObjectIdText(body[key].items[j])
    else if key == "deletedAt" then key in body ==> IsDate(body[key], g)
    else if key == "comment" then key in body ==> ObjectIdText(body[key])
    else true
  }

  /** `validatePost(body)`: the details of the error Joi returns, empty when the body
      is accepted. */
  function ValidatePost(body: map<string, Value>, g: Grammar): (issues: seq<Issue>)
  {
    Validate(PostSchema, body, g)
  }

  /** No key is written twice in the schema. */
  lemma SchemaKeysDistinct()
    ensures forall i, j | 0 <= i < j < |PostSchema| :: PostSchema[i].key != PostSchema[j].key
  {
  }

  /** Where each field sits in the schema. */
  function KeyIndex(key: string): (n: nat)
    requires key in PostKeys
    ensures n < |PostSchema| && PostSchema[n].key == key
  {
    if key == "title" then 0
    else if key == "content" then 1
    else if key == "imageUrl" then 2
    else if key == "author" then 3
    else if key == "tags" then 4
    else if key == "category" then 5
    else if key == "deletedAt" then 6
    else 7
  }

  /** A title of 51 emoji is 102 code units long, so it is refused. */
  lemma AstralTitleTooLong(g: Grammar)
    ensures !PostFieldOk(map["title" := Str(seq(51, i => '\U{1F600}'))], "title", g)
  {
    var t := seq(51, i => '\U{1F600}');
    assert forall i | 0 <= i < |t| :: t[i] as int >= 0x1_0000;
    Text.Utf16LengthOfAstral(t);
  }

  /** A timestamp outside the range of a JavaScript Date gives an invalid Date, so a
      body carrying one as deletedAt has that field reported. */
  lemma FarTimestampRejected(body: map<string, Value>, g: Grammar)
    requires "deletedAt" in body && body["deletedAt"].Num?
    requires body["deletedAt"].n < -MaxTimeValue || MaxTimeValue < body["deletedAt"].n
    ensures Reported(ValidatePost(body, g), "deletedAt")
  {
    ValidatePostReportsEveryField(body, g, "deletedAt");
  }

  lemma SchemaSaysWhatFieldsSay(body: map<string, Value>, g: Grammar, n: nat)
    requires n < |PostSchema|
    ensures KeySatisfied(PostSchema[n], body, g) <==> PostFieldOk(body, PostSchema[n].key, g)
  {
    var key := PostSchema[n].key;
    if key in body {
      var v := body[key];
      SingleRule(MaxLength(100), v, g);
      SingleRule(Uri, v, g);
      NoRules(v, g);
      HexIdRules(v, g);
      if n == 4 && v.List? {
        forall j | 0 <= j < |v.items| {
          HexIdRules(v.items[j], g);
        }
      }
    }
  }

  /** A post body is accepted exactly when every field keeps its rule. */
  lemma ValidatePostAccepts(body: map<string, Value>, g: Grammar)
    ensures ValidatePost(body, g) == [] <==> forall key | key in PostKeys :: PostFieldOk(body, key, g)
  {
    ValidateAccepts(PostSchema, body, g);
    EveryKeyEveryField(body, g);
  }

  /** Every key of the schema is satisfied exactly when every field keeps its rule. */
  lemma EveryKeyEveryField(body: map<string, Value>, g: Grammar)
    ensures (forall n | 0 <= n < |PostSchema| :: KeySatisfied(PostSchema[n], body, g))
        <==> forall key | key in PostKeys :: PostFieldOk(body, key, g)
  {
    if forall n | 0 <= n < |PostSchema| :: KeySatisfied(PostSchema[n], body, g) {
      forall key | key in PostKeys ensures PostFieldOk(body, key, g) {
        SchemaSaysWhatFieldsSay(body, g, KeyIndex(key));
      }
    }
    if forall key | key in PostKeys :: PostFieldOk(body, key, g) {
      forall n | 0 <= n < |PostSchema| ensures KeySatisfied(PostSchema[n], body, g) {
        assert PostSchema[n].key in PostKeys;
        SchemaSaysWhatFieldsSay(body, g, n);
      }
    }
  }

  /** Validation does not stop at the first broken field: each field of the schema
      is reported exactly when its own rule fails, and nothing outside the schema is
      reported. */
  lemma ValidatePostReportsEveryField(body: map<string, Value>, g: Grammar, key: string)
    ensures Reported(ValidatePost(body, g), key) <==> key in PostKeys && !PostFieldOk(body, key, g)
  {
    ReportedKeysAreSchemaKeys(PostSchema, body, g, key);
    if key in PostKeys {
      var n := KeyIndex(key);
      SchemaKeysDistinct();
      ValidateReportsEveryKey(PostSchema, body, g, n);
      SchemaSaysWhatFieldsSay(body, g, n);
    }
  }
}
