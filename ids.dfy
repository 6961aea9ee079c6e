/**
  Activity ids and the order the registry keeps them in.

  The registry of the source is an ordered map keyed by id, so every pass
  that walks "all activities" visits them in ascending lexicographic order
  of their ids. This module defines that order on strings, the sorted key
  sequence that stands for the map's iteration order, and the cardinality
  facts about sequences of distinct ids that the passes need.
*/
module Ids {

  /** Strict lexicographic order on strings, character by character. */
  predicate Less(a: string, b: string)
  {
    if a == [] then b != []
    else if b == [] then false
    else a[0] < b[0] || (a[0] == b[0] && Less(a[1..], b[1..]))
  }

  lemma {:induction false} LessIrreflexive(a: string)
    ensures !Less(a, a)
  {
    if a != [] {
      LessIrreflexive(a[1..]);
    }
  }

  lemma {:induction false} LessTransitive(a: string, b: string, c: string)
    requires Less(a, b) && Less(b, c)
    ensures Less(a, c)
  {
    if a != [] && a[0] == b[0] && b[0] == c[0] {
      LessTransitive(a[1..], b[1..], c[1..]);
    }
  }

  lemma {:induction false} LessTotal(a: string, b: string)
    requires a != b
    ensures Less(a, b) || Less(b, a)
  {
    if a != [] && b != [] && a[0] == b[0] {
      assert a == [a[0]] + a[1..] && b == [b[0]] + b[1..];
      LessTotal(a[1..], b[1..]);
    }
  }

  /** Every id of `ks` is strictly below every later one. */
  ghost predicate StrictlySorted(ks: seq<string>)
  {
    forall i, j :: 0 <= i < j < |ks| ==> Less(ks[i], ks[j])
  }

  /** No id occurs twice. */
  ghost predicate Distinct(s: seq<string>)
  {
    forall i, j :: 0 <= i < j < |s| ==> s[i] != s[j]
  }

  lemma SortedIsDistinct(ks: seq<string>)
    requires StrictlySorted(ks)
    ensures Distinct(ks)
  {
    forall i, j | 0 <= i < j < |ks|
      ensures ks[i] != ks[j]
    {
      LessIrreflexive(ks[i]);
    }
  }

  lemma BelowAll(k: string, ks: seq<string>)
    requires StrictlySorted(ks) && ks != [] && Less(k, ks[0])
    ensures forall j :: 0 <= j < |ks| ==> Less(k, ks[j])
  {
    forall j | 0 < j < |ks|
      ensures Less(k, ks[j])
    {
      LessTransitive(k, ks[0], ks[j]);
    }
  }

  lemma ConsSorted(h: string, rest: seq<string>)
    requires StrictlySorted(rest)
    requires forall x :: x in rest ==> Less(h, x)
    ensures StrictlySorted([h] + rest)
  {
    var r := [h] + rest;
    forall i, j | 0 <= i < j < |r|
      ensures Less(r[i], r[j])
    {
      if i == 0 {
        assert r[j] == rest[j - 1];
      } else {
        assert r[i] == rest[i - 1] && r[j] == rest[j - 1];
      }
    }
  }

  /**
    The key sequence after inserting a new id into an ordered map: the id
    lands in its sorted position and nothing else moves.
  */
  function Insert(ks: seq<string>, k: string): (r: seq<string>)
    requires StrictlySorted(ks) && k !in ks
    ensures StrictlySorted(r)
    ensures |r| == |ks| + 1
    ensures forall x :: x in r <==> x in ks || x == k
  {
    if ks == [] then [k]
    else if Less(k, ks[0]) then
      BelowAll(k, ks);
      [k] + ks
    else
      LessTotal(k, ks[0]);
      var rest := Insert(ks[1..], k);
      assert forall x :: x in ks[1..] ==> Less(ks[0], x);
      ConsSorted(ks[0], rest);
      [ks[0]] + rest
  }

  /** The set of ids occurring in `s`. */
  function Elements(s: seq<string>): set<string>
  {
    set x | x in s
  }

  lemma {:induction false} DistinctCard(s: seq<string>)
    requires Distinct(s)
    ensures |Elements(s)| == |s|
  {
    if s != [] {
      var init := s[..|s| - 1];
      assert Distinct(init);
      DistinctCard(init);
      assert Elements(s) == Elements(init) + {s[|s| - 1]};
    }
  }

  /**
    Distinct ids drawn from a set `u` are at most as many as `u` has; when
    they are exactly as many, every member of `u` occurs among them.
  */
  lemma DistinctWithin(s: seq<string>, u: set<string>)
    requires Distinct(s)
    requires forall x :: x in s ==> x in u
    ensures |s| <= |u|
    ensures |s| == |u| <==> forall x :: x in u ==> x in s
  {
    DistinctCard(s);
    var e := Elements(s);
    assert e <= u;
    assert |u - e| + |e| == |u|;
    if |s| == |u| {
      assert u - e == {};
      assert u == e;
    }
    if forall x :: x in u ==> x in s {
      assert u == e;
    }
  }

  /** The first `i + 1` entries are the first `i` followed by entry `i`. */
  lemma PrefixSnoc(t: seq<string>, i: int)
    requires 0 <= i < |t|
    ensures t[..i + 1] == t[..i] + [t[i]]
  {
  }

  lemma DistinctSnoc(s: seq<string>, x: string)
    requires Distinct(s) && x !in s
    ensures Distinct(s + [x])
  {
  }
}
