/** The document store's query primitives over an in-memory collection: a filtered
    scan in natural (insertion) order, an ordering by one integer key, and the facts
    the repositories need about both. */
module Store {
  import opened Common

  /** The documents of `t` with identifiers below `n` that satisfy `keep`, in
      ascending identifier order: what a query without a sort returns. */
  function Scan<R>(t: map<Id, R>, n: nat, keep: R -> bool): (s: seq<R>)
    ensures |s| <= n
    ensures forall x | x in s :: keep(x)
  {
    if n == 0 then []
    else Scan(t, n - 1, keep) + (if n - 1 in t && keep(t[n - 1]) then [t[n - 1]] else [])
  }

  /** Every document is stored under its own identifier. */
  ghost predicate KeyedBy<R>(t: map<Id, R>, idOf: R -> Id)
  {
    forall k | k in t :: idOf(t[k]) == k
  }

  /** A scan returns exactly the stored documents below `n` that pass the filter,
      each once, in ascending identifier order. */
  lemma {:induction false} ScanExactly<R>(t: map<Id, R>, n: nat, keep: R -> bool, idOf: R -> Id)
    requires KeyedBy(t, idOf)
    ensures forall x | x in Scan(t, n, keep) :: idOf(x) < n && idOf(x) in t && t[idOf(x)] == x && keep(x)
    ensures forall k | k < n && k in t && keep(t[k]) :: t[k] in Scan(t, n, keep)
    ensures forall i, j | 0 <= i < j < |Scan(t, n, keep)| :: idOf(Scan(t, n, keep)[i]) < idOf(Scan(t, n, keep)[j])
  {
    if n > 0 {
      ScanExactly(t, n - 1, keep, idOf);
      var s, prefix := Scan(t, n, keep), Scan(t, n - 1, keep);
      if n - 1 in t && keep(t[n - 1]) {
        assert s == prefix + [t[n - 1]];
        forall i, j | 0 <= i < j < |s| ensures idOf(s[i]) < idOf(s[j]) {
          assert s[i] == prefix[i] && prefix[i] in prefix;
          if j < |prefix| {
            assert s[j] == prefix[j];
          } else {
            assert s[j] == t[n - 1] && idOf(t[n - 1]) == n - 1;
          }
        }
      } else {
        assert s == prefix;
      }
    }
  }

  /** Strictly ascending identifiers mean no document appears twice. */
  lemma AscendingIdsNoDuplicates<R>(s: seq<R>, idOf: R -> Id)
    requires forall i, j | 0 <= i < j < |s| :: idOf(s[i]) < idOf(s[j])
    ensures NoDuplicates(s)
  {
  }

  ghost predicate NoDuplicates<R>(s: seq<R>)
  {
    forall i, j | 0 <= i < j < |s| :: s[i] != s[j]
  }

  /** `s` is ordered by `key`, smallest first (ties in any order). */
  ghost predicate SortedBy<R>(s: seq<R>, key: R -> int)
  {
    forall i, j | 0 <= i < j < |s| :: key(s[i]) <= key(s[j])
  }

  /** Puts `x` into the sequence `s` before the first element whose key is not
      smaller. */
  function InsertBy<R>(x: R, s: seq<R>, key: R -> int): (r: seq<R>)
    ensures multiset(r) == multiset(s) + multiset{x}
  {
    if s == [] || key(x) <= key(s[0]) then [x] + s
    else
      assert s == [s[0]] + s[1..];
      [s[0]] + InsertBy(x, s[1..], key)
  }

  /** Inserting into a sorted sequence keeps it sorted. */
  lemma {:induction false} InsertBySorted<R>(x: R, s: seq<R>, key: R -> int)
    requires SortedBy(s, key)
    ensures SortedBy(InsertBy(x, s, key), key)
  {
    if s != [] && key(s[0]) < key(x) {
      InsertBySorted(x, s[1..], key);
      var rest := InsertBy(x, s[1..], key);
      assert s == [s[0]] + s[1..];
      InsertByBound(x, s[1..], key, key(s[0]));
      var r := [s[0]] + rest;
      forall i, j | 0 <= i < j < |r| ensures key(r[i]) <= key(r[j]) {
        assert r[j] == rest[j - 1] && rest[j - 1] in rest;
        if i > 0 {
          assert r[i] == rest[i - 1];
        }
      }
    }
  }

  /** Whatever is inserted keeps a lower bound that `x` and all of `s` keep. */
  lemma InsertByBound<R>(x: R, s: seq<R>, key: R -> int, lo: int)
    requires lo <= key(x) && forall y | y in s :: lo <= key(y)
    ensures forall y | y in InsertBy(x, s, key) :: lo <= key(y)
  {
    var r := InsertBy(x, s, key);
    forall y | y in r ensures lo <= key(y) {
      assert multiset(r)[y] > 0;
      if y != x {
        assert y in multiset(s);
      }
    }
  }

  /** Orders `s` by `key`, smallest first: the store's `sort` on one field. */
  function SortBy<R>(s: seq<R>, key: R -> int): (r: seq<R>)
    ensures multiset(r) == multiset(s)
    ensures SortedBy(r, key)
  {
    if s == [] then []
    else
      assert s == [s[0]] + s[1..];
      InsertBySorted(s[0], SortBy(s[1..], key), key);
      InsertBy(s[0], SortBy(s[1..], key), key)
  }

  /** A rearrangement of a sequence without repeats has no repeats either. */
  lemma {:induction false} PermutationNoDuplicates<R>(a: seq<R>, b: seq<R>)
    requires multiset(a) == multiset(b) && NoDuplicates(b)
    ensures NoDuplicates(a)
  {
    forall i, j | 0 <= i < j < |a| ensures a[i] != a[j] {
      if a[i] == a[j] {
        RepeatCountsTwice(a, i, j);
        AtMostOnce(b, a[i]);
        assert false;
      }
    }
  }

  lemma RepeatCountsTwice<R>(s: seq<R>, i: nat, j: nat)
    requires i < j < |s| && s[i] == s[j]
    ensures multiset(s)[s[i]] >= 2
  {
    assert s == s[..i] + [s[i]] + s[i + 1..j] + [s[j]] + s[j + 1..];
  }

  lemma {:induction false} AtMostOnce<R>(s: seq<R>, x: R)
    requires NoDuplicates(s)
    ensures multiset(s)[x] <= 1
  {
    if s != [] {
      assert s == [s[0]] + s[1..];
      AtMostOnce(s[1..], x);
      if x == s[0] {
        assert forall k | 0 <= k < |s| - 1 :: s[1..][k] == s[k + 1];
        assert x !in s[1..];
      }
    }
  }

  /** Limiting a scan leaves out a matching document only when the page is full, and
      only documents after the last one on the page. */
  lemma {:induction false} PageMissesOnlyLater<R>(t: map<Id, R>, n: nat, keep: R -> bool, idOf: R -> Id, size: nat)
    requires KeyedBy(t, idOf) && size > 0
    ensures forall k | k < n && k in t && keep(t[k]) && t[k] !in Limit(Scan(t, n, keep), size) ::
      |Limit(Scan(t, n, keep), size)| == size && idOf(Limit(Scan(t, n, keep), size)[size - 1]) < k
  {
    var found := Scan(t, n, keep);
    var page := Limit(found, size);
    ScanExactly(t, n, keep, idOf);
    forall k | k < n && k in t && keep(t[k]) && t[k] !in page
      ensures |page| == size && idOf(page[size - 1]) < k
    {
      var i :| 0 <= i < |found| && found[i] == t[k];
      assert |page| <= i;
      assert page[size - 1] == found[size - 1];
    }
  }

  /** The lookup of one record by identifier that returns nothing for a record the
      filter `keep` rejects, as a `findOne` on the identifier and the filter does. */
  function FindOne<R>(t: map<Id, R>, id: Id, keep: R -> bool): (r: Option<R>)
    ensures r.Some? <==> id in t && keep(t[id])
    ensures r.Some? ==> r.value == t[id]
  {
    if id in t && keep(t[id]) then Some(t[id]) else None
  }

  /** At most `n` elements of `s`, from the front: the store's `limit`. */
  function Limit<R>(s: seq<R>, n: nat): (r: seq<R>)
    ensures |r| <= n && r <= s
    ensures |s| <= n ==> r == s
  {
    if |s| <= n then s else s[..n]
  }
}
