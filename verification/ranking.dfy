/**
 `results.sort(key=itemgetter(sort), reverse=True)`: a stable sort into
 descending key order. Python keeps results with equal keys in their original
 order even when `reverse` is set, so the outcome is fully determined by the
 input (see `SortUnique`); it is modelled here as an insertion sort.
 */
module Ranking {
  import opened Results

  /** Neighbours never increase in key: the list is in descending order. */
  predicate Descending(f: SortField, s: seq<SearchResult>)
  {
    forall i :: 0 < i < |s| ==> !KeyLess(f, s[i - 1], s[i])
  }

  /** The entries of `s` whose key equals that of `k`, in their order in `s`. */
  function KeyRun(f: SortField, k: SearchResult, s: seq<SearchResult>): seq<SearchResult>
  {
    if |s| == 0 then []
    else (if SameKey(f, s[0], k) then [s[0]] else []) + KeyRun(f, k, s[1..])
  }

  /** Puts `x` in front of the first entry whose key is not larger, so ahead of all its equals. */
  function Insert(f: SortField, x: SearchResult, t: seq<SearchResult>): (r: seq<SearchResult>)
    requires Descending(f, t)
    ensures Descending(f, r)
    ensures multiset(r) == multiset(t) + multiset{x}
    ensures r[0] == x || (|t| > 0 && r[0] == t[0])
  {
    if |t| == 0 then [x]
    else if KeyLess(f, x, t[0]) then
      var rest := Insert(f, x, t[1..]);
      InsertStep(f, x, t, rest);
      assert t == [t[0]] + t[1..];
      [t[0]] + rest
    else [x] + t
  }

  /** The step of `Insert` that passes `x` over the larger head `t[0]`. */
  lemma InsertStep(f: SortField, x: SearchResult, t: seq<SearchResult>, rest: seq<SearchResult>)
    requires Descending(f, t) && |t| > 0 && KeyLess(f, x, t[0])
    requires Descending(f, rest) && |rest| > 0
    requires rest[0] == x || (|t| > 1 && rest[0] == t[1])
    ensures Descending(f, [t[0]] + rest)
  {
    KeyTrichotomy(f, x, t[0]);
    var r := [t[0]] + rest;
    forall i | 0 < i < |r|
      ensures !KeyLess(f, r[i - 1], r[i])
    {
      if i > 1 {
        assert r[i - 1] == rest[i - 2] && r[i] == rest[i - 1];
      }
    }
  }

  /** The sorted list: descending in the key, and a rearrangement of the input. */
  function SortDesc(f: SortField, s: seq<SearchResult>): (r: seq<SearchResult>)
    ensures Descending(f, r)
    ensures multiset(r) == multiset(s)
    ensures |r| == |s|
  {
    if |s| == 0 then []
    else
      assert s == [s[0]] + s[1..];
      Insert(f, s[0], SortDesc(f, s[1..]))
  }

  /** A descending list is ordered between any two positions, not only neighbours. */
  lemma {:induction false} DescendingPairwise(f: SortField, s: seq<SearchResult>, i: nat, j: nat)
    requires Descending(f, s)
    requires i <= j < |s|
    ensures !KeyLess(f, s[i], s[j])
  {
    if i == j {
      KeyTrichotomy(f, s[i], s[i]);
    } else {
      DescendingPairwise(f, s, i, j - 1);
      NotLessTransitive(f, s[i], s[j - 1], s[j]);
    }
  }

  /** Inserting `x` adds it in front of the run of its key and leaves every other run alone. */
  lemma {:induction false} InsertKeyRun(f: SortField, x: SearchResult, t: seq<SearchResult>, k: SearchResult)
    requires Descending(f, t)
    ensures KeyRun(f, k, Insert(f, x, t))
         == (if SameKey(f, x, k) then [x] else []) + KeyRun(f, k, t)
  {
    if |t| == 0 || !KeyLess(f, x, t[0]) {
      assert Insert(f, x, t) == [x] + t;
      KeyRunCons(f, k, x, t);
    } else {
      InsertKeyRun(f, x, t[1..], k);
      assert t == [t[0]] + t[1..];
      PassKeyRun(f, k, x, t[0], Insert(f, x, t[1..]), t[1..]);
    }
  }

  /**
   When `x` passes a result `y` of larger key, `y` and `x` cannot share a key,
   so the run of `x`'s key loses nothing by `x` moving behind `y`.
   */
  lemma PassKeyRun(f: SortField, k: SearchResult, x: SearchResult, y: SearchResult,
                   rest: seq<SearchResult>, tail: seq<SearchResult>)
    requires KeyLess(f, x, y)
    requires KeyRun(f, k, rest) == (if SameKey(f, x, k) then [x] else []) + KeyRun(f, k, tail)
    ensures KeyRun(f, k, [y] + rest) == (if SameKey(f, x, k) then [x] else []) + KeyRun(f, k, [y] + tail)
  {
    KeyRunCons(f, k, y, rest);
    KeyRunCons(f, k, y, tail);
    if SameKey(f, x, k) {
      KeyTrichotomy(f, x, y);
      assert !SameKey(f, y, k);
    }
  }

  /** Stability: for every key, the entries carrying it keep their input order. */
  lemma {:induction false} SortStable(f: SortField, s: seq<SearchResult>, k: SearchResult)
    ensures KeyRun(f, k, SortDesc(f, s)) == KeyRun(f, k, s)
  {
    if |s| > 0 {
      SortStable(f, s[1..], k);
      InsertKeyRun(f, s[0], SortDesc(f, s[1..]), k);
    }
  }

  /** The first entry of a descending list has the largest key of the list. */
  lemma HeadIsLargest(f: SortField, s: seq<SearchResult>, y: SearchResult)
    requires Descending(f, s) && |s| > 0
    requires y in s
    ensures !KeyLess(f, s[0], y)
  {
    var j :| 0 <= j < |s| && s[j] == y;
    DescendingPairwise(f, s, 0, j);
  }

  /** An entry of `s` whose key is that of `k` makes the run of `k` non-empty. */
  lemma {:induction false} KeyRunNonEmpty(f: SortField, k: SearchResult, s: seq<SearchResult>, j: nat)
    requires j < |s| && SameKey(f, s[j], k)
    ensures |KeyRun(f, k, s)| > 0
  {
    if j > 0 {
      KeyRunNonEmpty(f, k, s[1..], j - 1);
    }
  }

  /** Every entry of a run is an entry of the list. */
  lemma {:induction false} KeyRunMembers(f: SortField, k: SearchResult, s: seq<SearchResult>, y: SearchResult)
    requires y in KeyRun(f, k, s)
    ensures y in s && SameKey(f, y, k)
  {
    if !(SameKey(f, s[0], k) && y == s[0]) {
      KeyRunMembers(f, k, s[1..], y);
    }
  }

  /** Lists with the same run for every key are both empty or both non-empty. */
  lemma RunsAgreeOnEmptiness(f: SortField, a: seq<SearchResult>, b: seq<SearchResult>)
    requires forall k :: KeyRun(f, k, a) == KeyRun(f, k, b)
    ensures |a| == 0 <==> |b| == 0
  {
    if |a| > 0 {
      KeyTrichotomy(f, a[0], a[0]);
      KeyRunNonEmpty(f, a[0], a, 0);
      assert KeyRun(f, a[0], b) == KeyRun(f, a[0], a);
    }
    if |b| > 0 {
      KeyTrichotomy(f, b[0], b[0]);
      KeyRunNonEmpty(f, b[0], b, 0);
      assert KeyRun(f, b[0], a) == KeyRun(f, b[0], b);
    }
  }

  /** The run of a list with `y` in front: `y` joins the run if it carries the key. */
  lemma KeyRunCons(f: SortField, k: SearchResult, y: SearchResult, s: seq<SearchResult>)
    ensures KeyRun(f, k, [y] + s) == (if SameKey(f, y, k) then [y] else []) + KeyRun(f, k, s)
  {
    assert ([y] + s)[1..] == s;
  }

  /**
   Uniqueness: two descending lists with the same run for every key are
   equal. So any stable descending sort, whatever its algorithm, returns
   `SortDesc`.
   */
  lemma {:induction false} SortUnique(f: SortField, a: seq<SearchResult>, b: seq<SearchResult>)
    requires Descending(f, a) && Descending(f, b)
    requires forall k :: KeyRun(f, k, a) == KeyRun(f, k, b)
    ensures a == b
  {
    RunsAgreeOnEmptiness(f, a, b);
    if |a| == 0 {
      return;
    }
    // The two heads carry the same key: each is matched by an entry of the other list.
    KeyTrichotomy(f, a[0], a[0]);
    KeyTrichotomy(f, b[0], b[0]);
    KeyRunNonEmpty(f, a[0], a, 0);
    KeyRunNonEmpty(f, b[0], b, 0);
    assert KeyRun(f, a[0], a) == KeyRun(f, a[0], b);
    assert KeyRun(f, b[0], a) == KeyRun(f, b[0], b);
    var ya := KeyRun(f, b[0], a)[0];
    var yb := KeyRun(f, a[0], b)[0];
    KeyRunMembers(f, b[0], a, ya);
    KeyRunMembers(f, a[0], b, yb);
    HeadIsLargest(f, a, ya);
    HeadIsLargest(f, b, yb);
    SameKeyCompares(f, ya, b[0], a[0]);
    SameKeyCompares(f, yb, a[0], b[0]);
    KeyTrichotomy(f, a[0], b[0]);
    assert SameKey(f, a[0], b[0]);
    // Both heads open the run of their common key, so they are the same result.
    assert KeyRun(f, a[0], a)[0] == a[0];
    assert KeyRun(f, a[0], b)[0] == b[0];
    // Removing the heads keeps every run equal.
    forall k
      ensures KeyRun(f, k, a[1..]) == KeyRun(f, k, b[1..])
    {
      var head := if SameKey(f, a[0], k) then [a[0]] else [];
      assert KeyRun(f, k, a) == head + KeyRun(f, k, a[1..]);
      assert KeyRun(f, k, b) == head + KeyRun(f, k, b[1..]);
      assert KeyRun(f, k, a) == KeyRun(f, k, b);
      assert KeyRun(f, k, a[1..]) == KeyRun(f, k, a)[|head|..];
      assert KeyRun(f, k, b[1..]) == KeyRun(f, k, b)[|head|..];
    }
    SortUnique(f, a[1..], b[1..]);
    assert a == [a[0]] + a[1..] && b == [b[0]] + b[1..];
  }

  /** `SortDesc` is the one and only stable descending rearrangement of `s`. */
  lemma SortCharacterised(f: SortField, s: seq<SearchResult>, o: seq<SearchResult>)
    requires Descending(f, o)
    requires forall k :: KeyRun(f, k, o) == KeyRun(f, k, s)
    ensures o == SortDesc(f, s)
  {
    forall k
      ensures KeyRun(f, k, o) == KeyRun(f, k, SortDesc(f, s))
    {
      SortStable(f, s, k);
    }
    SortUnique(f, o, SortDesc(f, s));
  }
}
