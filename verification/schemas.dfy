/** What the document store's schema layer does on create: the `required` check and
    the message of the validation error it raises. */
module Schemas {
  import opened Common

  /** A required string path is satisfied only by a non-empty string. */
  predicate RequiredText(v: Option<string>)
  {
    v.Some? && v.value != ""
  }

  /** Where `path` first stands in `order`, or `|order|` when it is not there. */
  function Position<P(==)>(order: seq<P>, path: P): (i: nat)
    ensures i <= |order|
    ensures i < |order| ==> order[i] == path
    ensures i < |order| <==> path in order
  {
    if order == [] then 0
    else if order[0] == path then 0
    else 1 + Position(order[1..], path)
  }

  /** The entries of `s` stand in `order` at strictly ascending positions. */
  predicate Ascending<P(==)>(order: seq<P>, s: seq<P>)
  {
    forall i, j | 0 <= i < j < |s| :: Position(order, s[i]) < Position(order, s[j])
  }

  predicate Distinct<P(==)>(order: seq<P>)
  {
    forall i, j | 0 <= i < j < |order| :: order[i] != order[j]
  }

  /** The entries of `order` whose flag is set, in the order of `order`. */
  function Pick<P>(order: seq<P>, flags: seq<bool>): (s: seq<P>)
    requires |flags| == |order|
    ensures |s| <= |order|
  {
    if order == [] then [] else (if flags[0] then [order[0]] else []) + Pick(order[1..], flags[1..])
  }

  lemma DistinctTail<P>(order: seq<P>)
    requires order != [] && Distinct(order)
    ensures Distinct(order[1..])
    ensures order[0] !in order[1..]
    ensures forall x | x in order[1..] :: Position(order, x) == 1 + Position(order[1..], x)
  {
    var rest := order[1..];
    forall i, j | 0 <= i < j < |rest| ensures rest[i] != rest[j] {
      assert rest[i] == order[i + 1] && rest[j] == order[j + 1];
    }
    forall x | x in rest ensures x != order[0] {
      var k :| 0 <= k < |rest| && rest[k] == x;
      assert order[k + 1] == x;
    }
  }

  /** `Pick` keeps only entries of `order`. */
  lemma {:induction false} PickSubset<P>(order: seq<P>, flags: seq<bool>)
    requires |flags| == |order|
    ensures forall x | x in Pick(order, flags) :: x in order
  {
    if order != [] {
      PickSubset(order[1..], flags[1..]);
      assert forall x | x in order[1..] :: x in order;
    }
  }

  /** `Pick` keeps exactly the flagged entries of `order`. */
  lemma {:induction false} PickMembers<P>(order: seq<P>, flags: seq<bool>)
    requires |flags| == |order| && Distinct(order)
    ensures forall x | x in order :: x in Pick(order, flags) <==> flags[Position(order, x)]
    ensures forall x | x in Pick(order, flags) :: x in order
  {
    PickSubset(order, flags);
    if order != [] {
      var rest, restFlags := order[1..], flags[1..];
      DistinctTail(order);
      PickMembers(rest, restFlags);
      forall x | x in order && x != order[0] ensures x in rest {
        var k :| 0 <= k < |order| && order[k] == x;
        assert k > 0 && rest[k - 1] == x;
      }
    }
  }

  /** The `k`th entry of `Pick(order, flags)`, read off the pick of the rest. */
  lemma PickAt<P>(order: seq<P>, flags: seq<bool>, k: nat)
    requires |flags| == |order| && order != [] && k < |Pick(order, flags)|
    ensures flags[0] && k == 0 ==> Pick(order, flags)[k] == order[0]
    ensures flags[0] && k > 0 ==> Pick(order, flags)[k] == Pick(order[1..], flags[1..])[k - 1]
    ensures !flags[0] ==> Pick(order, flags)[k] == Pick(order[1..], flags[1..])[k]
  {
  }

  /** Behind a head that does not recur, an entry of the rest stands one further on. */
  lemma PositionAfterHead<P>(order: seq<P>, x: P)
    requires order != [] && order[0] !in order[1..] && x in order[1..]
    ensures Position(order, x) == 1 + Position(order[1..], x)
  {
  }

  /** One step of `PickAscending`: a flagged head stands before the rest, and the
      rest keeps its relative order. */
  lemma PickPair<P>(order: seq<P>, flags: seq<bool>, i: nat, j: nat)
    requires |flags| == |order| && order != [] && order[0] !in order[1..]
    requires Ascending(order[1..], Pick(order[1..], flags[1..]))
    requires i < j < |Pick(order, flags)|
    ensures Position(order, Pick(order, flags)[i]) < Position(order, Pick(order, flags)[j])
  {
    var rest, tail, s := order[1..], Pick(order[1..], flags[1..]), Pick(order, flags);
    PickAt(order, flags, i);
    PickAt(order, flags, j);
    PickSubset(rest, flags[1..]);
    var j' := if flags[0] then j - 1 else j;
    assert s[j] == tail[j'] && tail[j'] in rest;
    PositionAfterHead(order, s[j]);
    if flags[0] && i == 0 {
      assert Position(order, s[i]) == 0;
    } else {
      var i' := if flags[0] then i - 1 else i;
      assert s[i] == tail[i'] && tail[i'] in rest;
      PositionAfterHead(order, s[i]);
    }
  }

  /** `Pick` keeps the order of `order`, each entry once. */
  lemma {:induction false} PickAscending<P>(order: seq<P>, flags: seq<bool>)
    requires |flags| == |order| && Distinct(order)
    ensures Ascending(order, Pick(order, flags))
  {
    if order != [] {
      DistinctTail(order);
      PickAscending(order[1..], flags[1..]);
      forall i, j | 0 <= i < j < |Pick(order, flags)|
        ensures Position(order, Pick(order, flags)[i]) < Position(order, Pick(order, flags)[j])
      {
        PickPair(order, flags, i, j);
      }
    }
  }

  /** The order in which the store reports missing required paths. A new document
      starts with every required path pending; a path the create data sets, even to
      the empty string, leaves that state and is validated after the pending ones. So
      every path never given comes before every path given as an empty string, and
      paths of one kind come in schema order (`order`), each once. */
  predicate InStoreOrder<P(==)>(missing: seq<P>, given: P -> bool, order: seq<P>)
  {
    forall i, j | 0 <= i < j < |missing| ::
      if given(missing[i]) == given(missing[j]) then Position(order, missing[i]) < Position(order, missing[j])
      else !given(missing[i])
  }

  /** The names of `paths`, as the validation message writes them. */
  function Names<P>(paths: seq<P>, name: P -> string): (r: seq<string>)
    ensures |r| == |paths|
    ensures forall i | 0 <= i < |paths| :: r[i] == name(paths[i])
  {
    seq(|paths|, i requires 0 <= i < |paths| => name(paths[i]))
  }

  function RequiredMessage(path: string): string
  {
    "Path `" + path + "` is required."
  }

  function Details(paths: seq<string>): string
    decreases |paths|
  {
    if paths == [] then ""
    else if |paths| == 1 then paths[0] + ": " + RequiredMessage(paths[0])
    else paths[0] + ": " + RequiredMessage(paths[0]) + ", " + Details(paths[1..])
  }

  /** The message of the validation error raised when `model` is created with the
      required `missing` paths absent. */
  function ValidationMessage(model: string, missing: seq<string>): string
  {
    model + " validation failed: " + Details(missing)
  }

  /** Paths never given, in schema order, followed by paths given but not filled, in
      schema order, are in the store's order. */
  lemma {:induction false} PendingThenBlank<P>(pending: seq<P>, blank: seq<P>, given: P -> bool, order: seq<P>)
    requires Ascending(order, pending) && Ascending(order, blank)
    requires forall i | 0 <= i < |pending| :: !given(pending[i])
    requires forall i | 0 <= i < |blank| :: given(blank[i])
    ensures InStoreOrder(pending + blank, given, order)
  {
    var m := pending + blank;
    forall i, j | 0 <= i < j < |m|
      ensures if given(m[i]) == given(m[j]) then Position(order, m[i]) < Position(order, m[j]) else !given(m[i])
    {
      if j < |pending| {
        assert m[i] == pending[i] && m[j] == pending[j];
      } else if i >= |pending| {
        assert m[i] == blank[i - |pending|] && m[j] == blank[j - |pending|];
      } else {
        assert m[i] == pending[i] && m[j] == blank[j - |pending|];
      }
    }
  }
}
