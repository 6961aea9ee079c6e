/**
  The dependency graph: successor lists derived from the declared
  predecessors, topological orders, and the pending in-degrees that drive
  Kahn's algorithm.
*/
module Graph {
  import opened Ids
  import opened Activities

  /** `n` copies of `x`. */
  function Repeat(x: string, n: nat): (r: seq<string>)
    ensures |r| == n
    ensures forall i :: 0 <= i < n ==> r[i] == x
  {
    if n == 0 then [] else Repeat(x, n - 1) + [x]
  }

  lemma {:induction false} RepeatCount(x: string, n: nat, s: string)
    ensures multiset(Repeat(x, n))[s] == if s == x then n else 0
  {
    if n > 0 {
      RepeatCount(x, n - 1, s);
    }
  }

  /**
    The successor list of `q` that the graph builder derives from the
    activities `ks`, visited in that order: each activity of `ks` is
    appended once for every time it lists `q` as a predecessor.
  */
  ghost function SuccessorsFrom(m: Registry, ks: seq<string>, q: string): seq<string>
    requires AllIn(ks, m)
  {
    if ks == [] then []
    else
      var last := ks[|ks| - 1];
      SuccessorsFrom(m, ks[..|ks| - 1], q) + Repeat(last, multiset(m[last].predecessors)[q])
  }

  /** `s` occurs in the derived successors of `q` as often as `q` occurs among the predecessors of `s`. */
  lemma {:induction false} SuccessorsFromCount(m: Registry, ks: seq<string>, q: string, s: string)
    requires AllIn(ks, m)
    requires Distinct(ks)
    ensures multiset(SuccessorsFrom(m, ks, q))[s] == if s in ks then multiset(m[s].predecessors)[q] else 0
  {
    if ks != [] {
      var init, last := ks[..|ks| - 1], ks[|ks| - 1];
      assert Distinct(init);
      assert ks == init + [last];
      SuccessorsFromCount(m, init, q, s);
      RepeatCount(last, multiset(m[last].predecessors)[q], s);
    }
  }

  /**
    The graph is linked: both edge lists name only activities, and an edge
    p -> s is recorded in the successors of p exactly as often as p is
    declared among the predecessors of s.
  */
  ghost predicate Linked(m: Registry)
  {
    && PredecessorsExist(m)
    && SuccessorsExist(m)
    && forall p, s :: p in m && s in m ==>
         multiset(m[p].successors)[s] == multiset(m[s].predecessors)[p]
  }

  /**
    Successor lists built from every activity, in key order, link the
    graph whenever every declared predecessor exists.
  */
  lemma BuiltGraphIsLinked(m0: Registry, ks: seq<string>, m: Registry)
    requires Distinct(ks)
    requires forall k :: k in ks <==> k in m0
    requires PredecessorsExist(m0)
    requires SameDeclarations(m0, m)
    requires forall k :: k in m ==> m[k].successors == SuccessorsFrom(m0, ks, k)
    ensures Linked(m)
  {
    forall k, s | k in m && s in m[k].successors
      ensures s in m
    {
      SuccessorsFromCount(m0, ks, k, s);
    }
    forall p, s | p in m && s in m
      ensures multiset(m[p].successors)[s] == multiset(m[s].predecessors)[p]
    {
      SuccessorsFromCount(m0, ks, p, s);
    }
  }

  /** Every predecessor declared by the activities `ks[..i]` exists. */
  ghost predicate PrefixResolved(m: Registry, ks: seq<string>, i: int)
    requires 0 <= i <= |ks| && AllIn(ks, m)
  {
    forall a :: 0 <= a < i ==> AllIn(m[ks[a]].predecessors, m)
  }

  lemma PrefixResolvedStep(m: Registry, ks: seq<string>, i: int)
    requires 0 <= i < |ks| && AllIn(ks, m)
    requires PrefixResolved(m, ks, i) && AllIn(m[ks[i]].predecessors, m)
    ensures PrefixResolved(m, ks, i + 1)
  {
  }

  /** Once every activity of `ks` is resolved, every predecessor exists. */
  lemma PrefixResolvedAll(m: Registry, ks: seq<string>)
    requires forall k :: k in ks <==> k in m
    requires PrefixResolved(m, ks, |ks|)
    ensures PredecessorsExist(m)
  {
    forall k, p | k in m && p in m[k].predecessors
      ensures p in m
    {
      var a :| 0 <= a < |ks| && ks[a] == k;
      assert AllIn(m[ks[a]].predecessors, m);
    }
  }

  /**
    The graph builder meets its first unknown predecessor at entry `j` of
    the predecessors of activity `ks[i]`: every entry visited before it
    names an activity.
  */
  ghost predicate FirstMissing(m: Registry, ks: seq<string>, i: int, j: int)
    requires AllIn(ks, m)
  {
    && 0 <= i < |ks|
    && 0 <= j < |m[ks[i]].predecessors|
    && m[ks[i]].predecessors[j] !in m
    && PrefixResolved(m, ks, i)
    && AllIn(m[ks[i]].predecessors[..j], m)
  }

  /**
    The successor list of `q` when the graph builder has visited the
    activities `ks[..i]` and the first `j` predecessors of `ks[i]`.
  */
  ghost function PartialSuccessors(m: Registry, ks: seq<string>, i: int, j: int, q: string): seq<string>
    requires AllIn(ks, m)
    requires 0 <= i < |ks| && 0 <= j <= |m[ks[i]].predecessors|
  {
    SuccessorsFrom(m, ks[..i], q) + Repeat(ks[i], multiset(m[ks[i]].predecessors[..j])[q])
  }

  /** Visiting one more predecessor entry appends the visited activity to that predecessor's list. */
  lemma PartialSuccessorsStep(m: Registry, ks: seq<string>, i: int, j: int, q: string)
    requires AllIn(ks, m)
    requires 0 <= i < |ks| && 0 <= j < |m[ks[i]].predecessors|
    ensures PartialSuccessors(m, ks, i, j + 1, q) ==
            PartialSuccessors(m, ks, i, j, q) + (if q == m[ks[i]].predecessors[j] then [ks[i]] else [])
  {
    var preds := m[ks[i]].predecessors;
    assert preds[..j + 1] == preds[..j] + [preds[j]];
  }

  /**
    One step of the graph builder: appending `ks[i]` to the successors of
    its `j`-th predecessor moves the partial lists from entry `j` to `j + 1`.
  */
  lemma LinkStep(m0: Registry, ks: seq<string>, i: int, j: int, m: Registry)
    requires AllIn(ks, m0)
    requires 0 <= i < |ks| && 0 <= j < |m0[ks[i]].predecessors|
    requires m0[ks[i]].predecessors[j] in m
    requires OnlySuccessorsChanged(m0, m)
    requires forall q :: q in m ==> m[q].successors == PartialSuccessors(m0, ks, i, j, q)
    requires AllIn(m0[ks[i]].predecessors[..j], m0)
    ensures AllIn(m0[ks[i]].predecessors[..j + 1], m0)
    ensures var p := m0[ks[i]].predecessors[j];
            var m' := m[p := m[p].(successors := m[p].successors + [ks[i]])];
            && OnlySuccessorsChanged(m0, m')
            && forall q :: q in m' ==> m'[q].successors == PartialSuccessors(m0, ks, i, j + 1, q)
  {
    var preds := m0[ks[i]].predecessors;
    var p := preds[j];
    var m' := m[p := m[p].(successors := m[p].successors + [ks[i]])];
    forall q | q in m'
      ensures m'[q].successors == PartialSuccessors(m0, ks, i, j + 1, q)
    {
      PartialSuccessorsStep(m0, ks, i, j, q);
    }
    PrefixSnoc(preds, j);
  }


  /** Before the first and after the last predecessor entry of `ks[i]`, the partial lists are whole ones. */
  lemma PartialSuccessorsEnds(m: Registry, ks: seq<string>, i: int, q: string)
    requires AllIn(ks, m)
    requires 0 <= i < |ks|
    ensures PartialSuccessors(m, ks, i, 0, q) == SuccessorsFrom(m, ks[..i], q)
    ensures PartialSuccessors(m, ks, i, |m[ks[i]].predecessors|, q) == SuccessorsFrom(m, ks[..i + 1], q)
  {
    var preds := m[ks[i]].predecessors;
    assert preds[..|preds|] == preds;
    assert ks[..i + 1][..i] == ks[..i];
  }

  /**
    Finishing the predecessors of `ks[i]` completes the successor lists
    derived from `ks[..i + 1]`; starting on them begins from those derived
    from `ks[..i]`.
  */
  lemma LinkEnds(m0: Registry, ks: seq<string>, i: int, m: Registry)
    requires AllIn(ks, m0)
    requires 0 <= i < |ks|
    ensures (forall q :: q in m ==> m[q].successors == SuccessorsFrom(m0, ks[..i], q)) ==>
            (forall q :: q in m ==> m[q].successors == PartialSuccessors(m0, ks, i, 0, q))
    ensures (forall q :: q in m ==>
               m[q].successors == PartialSuccessors(m0, ks, i, |m0[ks[i]].predecessors|, q)) ==>
            (forall q :: q in m ==> m[q].successors == SuccessorsFrom(m0, ks[..i + 1], q))
  {
    forall q | q in m {
      PartialSuccessorsEnds(m0, ks, i, q);
    }
  }

  /** Two registries with the same activities and the same edge lists. */
  ghost predicate SameEdges(m: Registry, m': Registry)
  {
    && m.Keys == m'.Keys
    && forall k :: k in m ==>
         m[k].predecessors == m'[k].predecessors && m[k].successors == m'[k].successors
  }

  /** Everything this module says about a graph depends on its edges only. */
  lemma SameEdgesAgree(m: Registry, m': Registry)
    requires SameEdges(m, m')
    ensures PredecessorsExist(m) == PredecessorsExist(m')
    ensures SuccessorsExist(m) == SuccessorsExist(m')
    ensures Linked(m) == Linked(m')
  {
    assert forall k :: k in m ==> m[k].predecessors == m'[k].predecessors;
    assert forall k :: k in m ==> m[k].successors == m'[k].successors;
  }

  lemma SameEdgesOrders(m: Registry, m': Registry, t: seq<string>)
    requires SameEdges(m, m')
    ensures IsTopoOrder(m, t) == IsTopoOrder(m', t)
    ensures IsSuccessorOrder(m, t) == IsSuccessorOrder(m', t)
  {
    assert forall k :: k in m ==> m[k].predecessors == m'[k].predecessors;
    assert forall k :: k in m ==> m[k].successors == m'[k].successors;
  }



  /** A graph without cycles: some order lists every activity after all of its declared predecessors. */
  ghost predicate Acyclic(m: Registry)
  {
    exists t :: IsTopoOrder(m, t)
  }

  /** Rebuilding successor lists changes neither the declarations nor the topological orders. */
  lemma SuccessorsIgnored(m: Registry, m': Registry)
    requires OnlySuccessorsChanged(m, m')
    ensures SameDeclarations(m, m')
    ensures PredecessorsExist(m) == PredecessorsExist(m')
  {
    assert forall k :: k in m ==> m'[k] == m[k].(successors := m'[k].successors);
  }

  lemma TopoOrderIgnoresSuccessors(m: Registry, m': Registry, t: seq<string>)
    requires OnlySuccessorsChanged(m, m')
    ensures IsTopoOrder(m, t) == IsTopoOrder(m', t)
  {
    assert forall k :: k in m ==> m'[k] == m[k].(successors := m'[k].successors);
    assert forall k :: k in m ==> m[k].predecessors == m'[k].predecessors;
  }

  /** A successor order of the rebuilt, linked graph shows that the declared graph has no cycle. */
  lemma OrderFound(m: Registry, m': Registry, t: seq<string>)
    requires OnlySuccessorsChanged(m, m') && Linked(m') && IsSuccessorOrder(m', t)
    ensures IsTopoOrder(m', t) && Acyclic(m)
  {
    TopoOrdersAgree(m', t);
    TopoOrderIgnoresSuccessors(m, m', t);
  }

  /** When the rebuilt, linked graph has no successor order, the declared graph has a cycle. */
  lemma NoOrderFound(m: Registry, m': Registry)
    requires OnlySuccessorsChanged(m, m') && Linked(m')
    requires !HasSuccessorOrder(m')
    ensures !Acyclic(m)
  {
    forall t
      ensures !IsTopoOrder(m, t)
    {
      TopoOrdersAgree(m', t);
      TopoOrderIgnoresSuccessors(m, m', t);
    }
  }

  /** In a linked graph an edge is a successor entry exactly when it is a predecessor entry. */
  lemma LinkedEdge(m: Registry, p: string, s: string)
    requires Linked(m) && p in m && s in m
    ensures s in m[p].successors <==> p in m[s].predecessors
  {
    assert multiset(m[p].successors)[s] == multiset(m[s].predecessors)[p];
  }

  /**
    `t` lists every activity exactly once, and every declared predecessor
    of an activity comes before it.
  */
  ghost predicate IsTopoOrder(m: Registry, t: seq<string>)
  {
    && Distinct(t)
    && (forall x :: x in t <==> x in m)
    && forall i, p :: 0 <= i < |t| && p in m[t[i]].predecessors ==> p in t[..i]
  }

  /**
    `t` lists every activity exactly once, and every activity that records
    an activity among its successors comes before it.
  */
  ghost predicate IsSuccessorOrder(m: Registry, t: seq<string>)
  {
    && Distinct(t)
    && (forall x :: x in t <==> x in m)
    && SuccessorsBefore(m, t)
  }

  /** Every activity that records `t[i]` among its successors occurs in `t` before position `i`. */
  ghost predicate SuccessorsBefore(m: Registry, t: seq<string>)
  {
    forall i, v :: 0 <= i < |t| && v in m && t[i] in m[v].successors ==> v in t[..i]
  }

  /** Some order lists every activity after every activity that records it as a successor. */
  ghost predicate HasSuccessorOrder(m: Registry)
  {
    exists t :: IsSuccessorOrder(m, t)
  }

  /** On a linked graph the two notions of topological order coincide. */
  lemma TopoOrdersAgree(m: Registry, t: seq<string>)
    requires Linked(m)
    ensures IsTopoOrder(m, t) <==> IsSuccessorOrder(m, t)
  {
    if Distinct(t) && (forall x :: x in t <==> x in m) {
      if IsTopoOrder(m, t) {
        forall i, v | 0 <= i < |t| && v in m && t[i] in m[v].successors
          ensures v in t[..i]
        {
          LinkedEdge(m, v, t[i]);
        }
      }
      if IsSuccessorOrder(m, t) {
        forall i, p | 0 <= i < |t| && p in m[t[i]].predecessors
          ensures p in t[..i]
        {
          LinkedEdge(m, p, t[i]);
        }
      }
    }
  }

  /** In a successor order every successor of `t[i]` comes after position `i`. */
  lemma SuccessorsLater(m: Registry, t: seq<string>, i: int)
    requires IsSuccessorOrder(m, t) && SuccessorsExist(m)
    requires 0 <= i < |t|
    ensures forall s :: s in m[t[i]].successors ==> s in t[i + 1..]
  {
    forall s | s in m[t[i]].successors
      ensures s in t[i + 1..]
    {
      assert s in m;
      assert s in t;
      var j :| 0 <= j < |t| && t[j] == s;
      assert t[i] in t[..j];
      var k :| 0 <= k < j && t[k] == t[i];
      assert k == i;
      assert t[j] == t[i + 1..][j - i - 1];
    }
  }

  /** The position in a successor order of a successor of `t[i]`. */
  lemma LaterPosition(m: Registry, t: seq<string>, i: int, s: string) returns (j: int)
    requires IsSuccessorOrder(m, t) && SuccessorsExist(m)
    requires 0 <= i < |t| && s in m[t[i]].successors
    ensures i < j < |t| && t[j] == s
  {
    SuccessorsLater(m, t, i);
    var later := t[i + 1..];
    assert s in later;
    var n :| 0 <= n < |later| && later[n] == s;
    j := i + 1 + n;
  }

  /**
    The in-degree Kahn's algorithm keeps for `s`: the number of edges into
    `s` (counted with multiplicity) from activities of `ks` that are not yet
    in the output `done`.
  */
  ghost function PendingInDegree(m: Registry, ks: seq<string>, done: seq<string>, s: string): nat
    requires AllIn(ks, m)
  {
    if ks == [] then 0
    else
      var last := ks[|ks| - 1];
      PendingInDegree(m, ks[..|ks| - 1], done, s)
        + (if last in done then 0 else multiset(m[last].successors)[s])
  }

  /** Counting the edges of one more activity `ks[i]` into the initial in-degrees. */
  lemma PendingInDegreeStep(m: Registry, ks: seq<string>, i: int, s: string)
    requires AllIn(ks, m) && 0 <= i < |ks|
    ensures PendingInDegree(m, ks[..i + 1], [], s)
            == PendingInDegree(m, ks[..i], [], s) + multiset(m[ks[i]].successors)[s]
  {
    assert ks[..i + 1][..i] == ks[..i];
  }

  /** The pending in-degree is zero exactly when no pending activity has `s` as a successor. */
  lemma {:induction false} PendingInDegreeZero(m: Registry, ks: seq<string>, done: seq<string>, s: string)
    requires AllIn(ks, m)
    ensures PendingInDegree(m, ks, done, s) == 0 <==>
            forall v :: v in ks && v !in done ==> s !in m[v].successors
  {
    if ks != [] {
      var init, last := ks[..|ks| - 1], ks[|ks| - 1];
      assert ks == init + [last];
      PendingInDegreeZero(m, init, done, s);
    }
  }

  /** Moving `u` into the output removes exactly its own out-edges from the count. */
  lemma {:induction false} PendingInDegreeDone(m: Registry, ks: seq<string>, done: seq<string>, u: string, s: string)
    requires AllIn(ks, m)
    requires Distinct(ks) && u !in done
    ensures PendingInDegree(m, ks, done + [u], s)
            + (if u in ks then multiset(m[u].successors)[s] else 0)
            == PendingInDegree(m, ks, done, s)
  {
    if ks != [] {
      var init, last := ks[..|ks| - 1], ks[|ks| - 1];
      assert ks == init + [last];
      assert Distinct(init);
      PendingInDegreeDone(m, init, done, u, s);
    }
  }

  /** The first entry of `t` outside `done`, given that there is one. */
  lemma FirstOutside(t: seq<string>, done: seq<string>, x: string) returns (i: nat)
    requires x in t && x !in done
    ensures i < |t| && t[i] !in done
    ensures forall j :: 0 <= j < i ==> t[j] in done
  {
    var k :| 0 <= k < |t| && t[k] == x;
    i := 0;
    while t[i] in done
      invariant i <= k
      invariant forall j :: 0 <= j < i ==> t[j] in done
      decreases k - i
    {
      i := i + 1;
    }
  }

  /**
    When Kahn's algorithm stops with some activity `x` not output and every
    activity not output still has pending in-edges, the graph has no
    topological order at all: the first such activity in any candidate order
    would have a pending (hence later) activity before it.
  */
  lemma NoOrderWhenStuck(m: Registry, ks: seq<string>, done: seq<string>, x: string)
    requires forall k :: k in ks <==> k in m
    requires x in m && x !in done
    requires forall s :: s in m && s !in done ==> PendingInDegree(m, ks, done, s) > 0
    ensures !HasSuccessorOrder(m)
  {
    forall t
      ensures !IsSuccessorOrder(m, t)
    {
      if Distinct(t) && (forall y :: y in t <==> y in m) {
        var i := FirstOutside(t, done, x);
        var s := t[i];
        PendingInDegreeZero(m, ks, done, s);
        var v :| v in ks && v !in done && s in m[v].successors;
        assert v !in t[..i];
      }
    }
  }

  /**
    The state of Kahn's algorithm part-way through handling the successors
    of the activity output last: `order` is the output so far, `queue` the
    frontier, and `rest` the successors still to be visited. In-degrees
    count the pending edges plus the unvisited ones; an activity has
    in-degree zero exactly when it has been output or queued; and every
    activity output so far comes after all activities with edges into it.
  */
  ghost predicate Kahn(m: Registry, ks: seq<string>, order: seq<string>, queue: seq<string>,
                       indeg: map<string, int>, rest: seq<string>)
    requires AllIn(ks, m)
  {
    && (forall k :: k in indeg <==> k in m)
    && Distinct(order + queue)
    && AllIn(order + queue, m)
    && (forall s :: s in m ==> indeg[s] == PendingInDegree(m, ks, order, s) + multiset(rest)[s])
    && (forall s :: s in m ==> (indeg[s] == 0 <==> s in order + queue))
    && SuccessorsBefore(m, order)
  }

  /** Output and frontier together never exceed the activities. */
  lemma KahnBound(m: Registry, ks: seq<string>, order: seq<string>, queue: seq<string>,
                  indeg: map<string, int>, rest: seq<string>)
    requires AllIn(ks, m) && Distinct(ks) && (forall k :: k in m ==> k in ks)
    requires Kahn(m, ks, order, queue, indeg, rest)
    ensures |order| + |queue| <= |ks|
  {
    DistinctWithin(order + queue, m.Keys);
    DistinctWithin(ks, m.Keys);
  }

  /**
    Taking the head `u` of the frontier: `u` has no pending in-edges, so
    every activity with an edge into it is already output, and appending it
    to the output leaves its own successors to be visited.
  */
  lemma KahnPop(m: Registry, ks: seq<string>, order: seq<string>, queue: seq<string>,
                indeg: map<string, int>)
    requires AllIn(ks, m) && Distinct(ks) && (forall k :: k in m ==> k in ks)
    requires Kahn(m, ks, order, queue, indeg, []) && queue != []
    ensures Kahn(m, ks, order + [queue[0]], queue[1..], indeg, m[queue[0]].successors)
  {
    var u := queue[0];
    var order' := order + [u];
    assert order' + queue[1..] == order + queue;
    assert u !in order by {
      var c := order + queue;
      assert c[|order|] == u;
      forall k | 0 <= k < |order|
        ensures order[k] != u
      {
        assert c[k] == order[k];
      }
    }
    assert indeg[u] == 0;
    PendingInDegreeZero(m, ks, order, u);
    forall s | s in m
      ensures indeg[s] == PendingInDegree(m, ks, order', s) + multiset(m[u].successors)[s]
    {
      PendingInDegreeDone(m, ks, order, u, s);
    }
    forall i, v | 0 <= i < |order'| && v in m && order'[i] in m[v].successors
      ensures v in order'[..i]
    {
      if i < |order| {
        assert order'[..i] == order[..i];
      } else {
        assert order'[..i] == order;
      }
    }
  }

  /**
    Visiting the next successor `s`: its in-degree drops by one, and it
    joins the frontier when that reaches zero.
  */
  lemma KahnDecrement(m: Registry, ks: seq<string>, order: seq<string>, queue: seq<string>,
                      indeg: map<string, int>, rest: seq<string>)
    requires AllIn(ks, m) && AllIn(rest, m)
    requires Kahn(m, ks, order, queue, indeg, rest) && rest != []
    ensures var s := rest[0];
            var indeg' := indeg[s := indeg[s] - 1];
            var queue' := if indeg'[s] == 0 then queue + [s] else queue;
            Kahn(m, ks, order, queue', indeg', rest[1..])
  {
    var s := rest[0];
    assert rest == [s] + rest[1..];
    assert multiset(rest) == multiset{s} + multiset(rest[1..]);
    assert indeg[s] >= 1;
    var indeg' := indeg[s := indeg[s] - 1];
    if indeg'[s] == 0 {
      assert s !in order + queue;
      DistinctSnoc(order + queue, s);
      assert order + (queue + [s]) == (order + queue) + [s];
    }
  }

  /**
    When the frontier is empty: if every activity was output, the output is
    a successor order; otherwise no successor order exists.
  */
  lemma KahnDone(m: Registry, ks: seq<string>, order: seq<string>, indeg: map<string, int>)
    requires AllIn(ks, m) && Distinct(ks) && (forall k :: k in m ==> k in ks)
    requires Kahn(m, ks, order, [], indeg, [])
    ensures |order| == |m| ==> IsSuccessorOrder(m, order)
    ensures |order| != |m| ==> !HasSuccessorOrder(m)
  {
    assert order + [] == order;
    DistinctWithin(order, m.Keys);
    if |order| != |m| {
      var x :| x in m && x !in order;
      NoOrderWhenStuck(m, ks, order, x);
    }
  }
}
