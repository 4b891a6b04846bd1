/** The part of the Joi object-schema validator the request validators use: a schema
    is data (one rule per key), and validating an object with `abortEarly: false`
    reports every failing rule of every key instead of stopping at the first. */
module Joi {
  import opened Common
  import opened Text

  /** A request-body value as the validator receives it. `When` is a Date object. */
  datatype Value =
    | Str(s: string)
    | Num(n: int)
    | When(ms: Time)
    | Bool(b: bool)
    | List(items: seq<Value>)
    | Null
    | Object

  /** The syntax checks Joi implements with its own grammars, left uninterpreted:
      `uri()`, `email()`, and which strings `date()` can convert to a date. */
  datatype Grammar = Grammar(isUri: string -> bool, isEmail: string -> bool, isDateText: string -> bool)

  /** The rules chained after `Joi.string()`, checked in the order written. Lengths
      are JavaScript lengths, in UTF-16 code units. */
  datatype StringRule = MaxLength(limit: nat) | Hex | ExactLength(size: nat) | Uri | Email

  /** `Joi.string()...`, `Joi.date()`, or `Joi.array().items(Joi.string()...)`. */
  datatype Schema = Text(rules: seq<StringRule>) | DateValue | TextList(itemRules: seq<StringRule>)

  datatype Presence = Required | Optional

  /** One key of `Joi.object({...})`. */
  datatype KeyRule = KeyRule(key: string, presence: Presence, schema: Schema)

  /** Joi's error codes for the rules above. */
  datatype Code =
    | AnyRequired
    | StringBase
    | StringEmpty
    | StringMax
    | StringHex
    | StringLength
    | StringUri
    | StringEmail
    | DateBase
    | ArrayBase

  /** Where an issue was found: a key of the object, or an element of an array key. */
  datatype Path = Path(key: string, index: Option<nat>)

  /** One entry of the `details` of the error Joi returns. */
  datatype Issue = Issue(path: Path, code: Code)

  predicate IsHexDigit(c: char)
  {
    '0' <= c <= '9' || 'a' <= c <= 'f' || 'A' <= c <= 'F'
  }

  /** A string value Joi's `string()` accepts: a string, and not the empty one. */
  predicate NonEmptyText(v: Value)
  {
    v.Str? && v.s != ""
  }

  /** A value `Joi.string().hex().length(24)` accepts: the text of an ObjectId. */
  predicate ObjectIdText(v: Value)
  {
    NonEmptyText(v) && |v.s| == 24 && forall i | 0 <= i < |v.s| :: IsHexDigit(v.s[i])
  }

  /** The largest distance from the epoch, in milliseconds, that a JavaScript Date
      can hold; a Date built from a number beyond it is invalid. */
  const MaxTimeValue: int := 8_640_000_000_000_000

  /** A value `Joi.date()` accepts: a Date, a timestamp that makes a valid Date, or
      convertible text. */
  predicate IsDate(v: Value, g: Grammar)
  {
    v.When? || (v.Num? && -MaxTimeValue <= v.n <= MaxTimeValue) || (v.Str? && g.isDateText(v.s))
  }

  predicate RuleHolds(rule: StringRule, s: string, g: Grammar)
  {
    match rule
    case MaxLength(limit) => Utf16Length(s) <= limit
    case Hex => forall i | 0 <= i < |s| :: IsHexDigit(s[i])
    case ExactLength(size) => Utf16Length(s) == size
    case Uri => g.isUri(s)
    case Email => g.isEmail(s)
  }

  function CodeOf(rule: StringRule): Code
  {
    match rule
    case MaxLength(_) => StringMax
    case Hex => StringHex
    case ExactLength(_) => StringLength
    case Uri => StringUri
    case Email => StringEmail
  }

  /** What it means for a value to satisfy a schema, stated without issues. */
  ghost predicate TextConforms(rules: seq<StringRule>, v: Value, g: Grammar)
  {
    NonEmptyText(v) && forall k | 0 <= k < |rules| :: RuleHolds(rules[k], v.s, g)
  }

  ghost predicate Conforms(schema: Schema, v: Value, g: Grammar)
  {
    match schema
    case Text(rules) => TextConforms(rules, v, g)
    case DateValue => IsDate(v, g)
    case TextList(itemRules) => v.List? && forall j | 0 <= j < |v.items| :: TextConforms(itemRules, v.items[j], g)
  }

  ghost predicate KeySatisfied(rule: KeyRule, obj: map<string, Value>, g: Grammar)
  {
    if rule.key in obj then Conforms(rule.schema, obj[rule.key], g) else rule.presence == Optional
  }

  /** One issue for every rule the string breaks, in the order the rules are written. */
  function RuleIssues(path: Path, rules: seq<StringRule>, s: string, g: Grammar): (r: seq<Issue>)
    ensures r == [] <==> forall k | 0 <= k < |rules| :: RuleHolds(rules[k], s, g)
    ensures forall i | 0 <= i < |r| :: r[i].path == path
    ensures forall k | 0 <= k < |rules| && !RuleHolds(rules[k], s, g) :: Issue(path, CodeOf(rules[k])) in r
    ensures forall i | 0 <= i < |r| :: exists k | 0 <= k < |rules| :: !RuleHolds(rules[k], s, g) && r[i].code == CodeOf(rules[k])
    ensures |r| <= |rules|
  {
    if rules == [] then []
    else
      var rest := RuleIssues(path, rules[1..], s, g);
      assert forall k | 1 <= k < |rules| :: rules[k] == rules[1..][k - 1];
      (if RuleHolds(rules[0], s, g) then [] else [Issue(path, CodeOf(rules[0]))]) + rest
  }

  /** A value that is not a string, or is empty, fails the base check and no rule
      runs; otherwise every broken rule is reported. */
  function TextIssues(path: Path, rules: seq<StringRule>, v: Value, g: Grammar): (r: seq<Issue>)
    ensures r == [] <==> TextConforms(rules, v, g)
    ensures forall i | 0 <= i < |r| :: r[i].path == path
    ensures !v.Str? ==> r == [Issue(path, StringBase)]
    ensures v == Str("") ==> r == [Issue(path, StringEmpty)]
    ensures NonEmptyText(v) ==> forall k | 0 <= k < |rules| && !RuleHolds(rules[k], v.s, g) :: Issue(path, CodeOf(rules[k])) in r
    ensures NonEmptyText(v) ==> forall i | 0 <= i < |r| :: exists k | 0 <= k < |rules| :: !RuleHolds(rules[k], v.s, g) && r[i].code == CodeOf(rules[k])
  {
    if !v.Str? then [Issue(path, StringBase)]
    else if v.s == "" then [Issue(path, StringEmpty)]
    else RuleIssues(path, rules, v.s, g)
  }

  /** The issues of the elements `items[from..]`, each under its own index. */
  function ItemIssues(key: string, rules: seq<StringRule>, items: seq<Value>, from: nat, g: Grammar): (r: seq<Issue>)
    requires from <= |items|
    ensures r == [] <==> forall j | from <= j < |items| :: TextConforms(rules, items[j], g)
    ensures forall i | 0 <= i < |r| :: r[i].path.key == key
    decreases |items| - from
  {
    if from == |items| then []
    else TextIssues(Path(key, Some(from)), rules, items[from], g) + ItemIssues(key, rules, items, from + 1, g)
  }

  function ValueIssues(key: string, schema: Schema, v: Value, g: Grammar): (r: seq<Issue>)
    ensures r == [] <==> Conforms(schema, v, g)
    ensures forall i | 0 <= i < |r| :: r[i].path.key == key
  {
    match schema
    case Text(rules) => TextIssues(Path(key, None), rules, v, g)
    case DateValue => if IsDate(v, g) then [] else [Issue(Path(key, None), DateBase)]
    case TextList(itemRules) =>
      if v.List? then ItemIssues(key, itemRules, v.items, 0, g) else [Issue(Path(key, None), ArrayBase)]
  }

  /** A missing key is an issue only when the key is required. */
  function KeyIssues(rule: KeyRule, obj: map<string, Value>, g: Grammar): (r: seq<Issue>)
    ensures r == [] <==> KeySatisfied(rule, obj, g)
    ensures forall i | 0 <= i < |r| :: r[i].path.key == rule.key
  {
    if rule.key in obj then ValueIssues(rule.key, rule.schema, obj[rule.key], g)
    else if rule.presence == Required then [Issue(Path(rule.key, None), AnyRequired)]
    else []
  }

  /** What the schemas the validators use come to, rule by rule. */
  lemma NoRules(v: Value, g: Grammar)
    ensures TextConforms([], v, g) <==> NonEmptyText(v)
  {
  }

  lemma SingleRule(rule: StringRule, v: Value, g: Grammar)
    ensures TextConforms([rule], v, g) <==> NonEmptyText(v) && RuleHolds(rule, v.s, g)
  {
    var rules := [rule];
    assert rules[0] == rule;
    if NonEmptyText(v) && RuleHolds(rule, v.s, g) {
      assert forall k | 0 <= k < |rules| :: RuleHolds(rules[k], v.s, g);
    }
  }

  lemma HexIdRules(v: Value, g: Grammar)
    ensures TextConforms([Hex, ExactLength(24)], v, g) <==> ObjectIdText(v)
  {
    var rules := [Hex, ExactLength(24)];
    if v.Str? && RuleHolds(Hex, v.s, g) {
      Utf16LengthOfBmp(v.s);
    }
    if NonEmptyText(v) && RuleHolds(rules[0], v.s, g) && RuleHolds(rules[1], v.s, g) {
      assert forall k | 0 <= k < |rules| :: RuleHolds(rules[k], v.s, g);
    }
  }

  /** `schema.validate(obj, { abortEarly: false })`: the issues of every key, in the
      order the keys are written. An empty result means Joi returns no error. */
  function Validate(rules: seq<KeyRule>, obj: map<string, Value>, g: Grammar): (r: seq<Issue>)
  {
    if rules == [] then [] else KeyIssues(rules[0], obj, g) + Validate(rules[1..], obj, g)
  }

  /** Some issue is reported under `key`. */
  ghost predicate Reported(issues: seq<Issue>, key: string)
  {
    exists i :: 0 <= i < |issues| && issues[i].path.key == key
  }

  lemma ReportedAppend(a: seq<Issue>, b: seq<Issue>, key: string)
    ensures Reported(a + b, key) <==> Reported(a, key) || Reported(b, key)
  {
    if Reported(a + b, key) {
      var i :| 0 <= i < |a + b| && (a + b)[i].path.key == key;
      if i >= |a| {
        assert b[i - |a|] == (a + b)[i];
      }
    }
    if Reported(a, key) {
      var i :| 0 <= i < |a| && a[i].path.key == key;
      assert (a + b)[i] == a[i];
    }
    if Reported(b, key) {
      var i :| 0 <= i < |b| && b[i].path.key == key;
      assert (a + b)[|a| + i] == b[i];
    }
  }

  /** The issues of one key are reported under that key and no other. */
  lemma KeyReported(rule: KeyRule, obj: map<string, Value>, g: Grammar, key: string)
    ensures Reported(KeyIssues(rule, obj, g), key) <==> key == rule.key && !KeySatisfied(rule, obj, g)
  {
    var r := KeyIssues(rule, obj, g);
    if r != [] && key == rule.key {
      assert r[0].path.key == key;
    }
  }

  /** Every reported key is a key of the schema. */
  lemma {:induction false} ReportedKeysAreSchemaKeys(rules: seq<KeyRule>, obj: map<string, Value>, g: Grammar, key: string)
    ensures Reported(Validate(rules, obj, g), key) ==> exists n :: 0 <= n < |rules| && rules[n].key == key
  {
    if rules == [] {
      assert Validate(rules, obj, g) == [];
      return;
    }
    var tail := rules[1..];
    ReportedAppend(KeyIssues(rules[0], obj, g), Validate(tail, obj, g), key);
    KeyReported(rules[0], obj, g, key);
    if key != rules[0].key && Reported(Validate(tail, obj, g), key) {
      ReportedKeysAreSchemaKeys(tail, obj, g, key);
      var m :| 0 <= m < |tail| && tail[m].key == key;
      assert rules[m + 1] == tail[m];
    }
  }

  /** An object is accepted exactly when every key is satisfied. */
  lemma {:induction false} ValidateAccepts(rules: seq<KeyRule>, obj: map<string, Value>, g: Grammar)
    ensures Validate(rules, obj, g) == [] <==> forall n | 0 <= n < |rules| :: KeySatisfied(rules[n], obj, g)
  {
    if rules != [] {
      var tail := rules[1..];
      ValidateAccepts(tail, obj, g);
      assert forall n | 1 <= n < |rules| :: rules[n] == tail[n - 1];
    }
  }

  /** No key's check cuts short another's: with distinct keys, a key is reported
      exactly when its own rule fails. */
  lemma {:induction false} ValidateReportsEveryKey(rules: seq<KeyRule>, obj: map<string, Value>, g: Grammar, n: nat)
    requires forall i, j | 0 <= i < j < |rules| :: rules[i].key != rules[j].key
    requires n < |rules|
    ensures Reported(Validate(rules, obj, g), rules[n].key) <==> !KeySatisfied(rules[n], obj, g)
  {
    var tail := rules[1..];
    var key := rules[n].key;
    ReportedAppend(KeyIssues(rules[0], obj, g), Validate(tail, obj, g), key);
    KeyReported(rules[0], obj, g, key);
    if n == 0 {
      ReportedKeysAreSchemaKeys(tail, obj, g, key);
      forall m | 0 <= m < |tail| ensures tail[m].key != key {
        assert tail[m] == rules[m + 1];
      }
    } else {
      assert rules[n] == tail[n - 1];
      ValidateReportsEveryKey(tail, obj, g, n - 1);
    }
  }
}
