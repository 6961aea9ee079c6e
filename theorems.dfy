/**
  What a completed calculation guarantees, proved from the equations the
  passes establish (the predicate `Scheduled`) and the definition of the
  critical walk.

  Every activity finishes no later than it may (slack is never negative)
  and no later than the project; every zero-slack activity with successors
  has a tight one; a non-empty schedule always has a start activity; and
  the critical path runs from time 0 to the project duration without a
  gap, so its durations add up to the project duration.
*/
module Theorems {
  import opened Ids
  import opened Activities
  import opened Graph
  import opened Times

  /** The sum of the durations of the activities `cp`. */
  ghost function TotalDuration(m: Registry, cp: seq<string>): real
    requires AllIn(cp, m)
  {
    if cp == [] then 0.0
    else TotalDuration(m, cp[..|cp| - 1]) + m[cp[|cp| - 1]].duration
  }

  /** A non-empty list whose finishes are all non-negative attains its largest finish. */
  lemma {:induction false} MaxFinishAttained(m: Registry, ids: seq<string>) returns (w: string)
    requires AllIn(ids, m) && ids != []
    requires forall i :: i in ids ==> m[i].ef >= 0.0
    ensures w in ids && m[w].ef == MaxFinish(m, ids)
  {
    var init, last := ids[..|ids| - 1], ids[|ids| - 1];
    assert ids == init + [last];
    if init == [] || m[last].ef >= MaxFinish(m, init) {
      w := last;
    } else {
      w := MaxFinishAttained(m, init);
    }
  }

  /** A non-empty list attains its smallest latest start. */
  lemma {:induction false} MinStartAttained(m: Registry, ids: seq<string>) returns (w: string)
    requires AllIn(ids, m) && ids != []
    ensures w in ids && m[w].ls == MinStart(m, ids)
  {
    if |ids| == 1 {
      w := ids[0];
    } else {
      var init, last := ids[..|ids| - 1], ids[|ids| - 1];
      assert ids == init + [last];
      var v := MinStartAttained(m, init);
      w := if m[last].ls < MinStart(m, init) then last else v;
    }
  }

  /**
    The facts of a schedule the theorems below use, activity by activity
    and edge by edge: the edge lists agree, each activity satisfies its
    equations and finishes within the project, and along `t` every
    successor sits at a later position.
  */
  ghost predicate Settled(m: Registry, t: seq<string>, d: real)
  {
    && PredecessorsExist(m) && SuccessorsExist(m)
    && (forall p, s :: p in m && s in m ==> (s in m[p].successors <==> p in m[s].predecessors))
    && (forall k :: k in m ==>
          && m[k].duration >= 0.0
          && EarlyTimes(m, k) && LateTimes(m, k, d)
          && m[k].slack == m[k].ls - m[k].es
          && m[k].ef <= d)
    && AllIn(t, m) && (forall k :: k in m ==> k in t)
    && forall i, j :: 0 <= i < |t| && 0 <= j < |t| && t[j] in m[t[i]].successors ==> i < j
  }

  /** In a topological order every successor sits at a later position. */
  lemma Ranked(m: Registry, t: seq<string>)
    requires Linked(m) && IsTopoOrder(m, t)
    ensures forall i, j :: 0 <= i < |t| && 0 <= j < |t| && t[j] in m[t[i]].successors ==> i < j
  {
    TopoOrdersAgree(m, t);
    forall i, j | 0 <= i < |t| && 0 <= j < |t| && t[j] in m[t[i]].successors
      ensures i < j
    {
      var j' := LaterPosition(m, t, i, t[j]);
      assert t[j'] == t[j];
    }
  }

  /** In a linked graph the two edge lists name the same edges. */
  lemma LinkedAgree(m: Registry)
    requires Linked(m)
    ensures forall p, s :: p in m && s in m ==> (s in m[p].successors <==> p in m[s].predecessors)
  {
    forall p, s | p in m && s in m
      ensures s in m[p].successors <==> p in m[s].predecessors
    {
      LinkedEdge(m, p, s);
    }
  }

  /** No activity listed in `t` finishes after the largest finish along `t`. */
  lemma WithinProject(m: Registry, t: seq<string>)
    requires AllIn(t, m) && forall k :: k in m ==> k in t
    ensures forall k :: k in m ==> m[k].ef <= MaxFinish(m, t)
  {
  }

  lemma ScheduledIsSettled(m: Registry, t: seq<string>, d: real)
    requires Scheduled(m, t, d)
    ensures Settled(m, t, d)
  {
    LinkedAgree(m);
    WithinProject(m, t);
    Ranked(m, t);
  }

  /** Along an edge the predecessor finishes no later than the successor starts. */
  lemma EdgeOrder(m: Registry, t: seq<string>, d: real, k: string, s: string)
    requires Settled(m, t, d) && k in m && s in m[k].successors
    ensures s in m && m[k].ef <= m[s].es
  {
  }

  /** Earliest times start at 0 and finish within the project. */
  lemma EarlyBounds(m: Registry, order: seq<string>, d: real)
    requires Scheduled(m, order, d)
    ensures forall k :: k in m ==> 0.0 <= m[k].es <= m[k].ef <= d
  {
    forall k | k in m
      ensures 0.0 <= m[k].es <= m[k].ef <= d
    {
      assert k in order;
    }
  }

  /** The activities `t[n..]` finish no later than they may, and may finish no later than the project. */
  lemma {:induction false} LateBoundsFrom(m: Registry, t: seq<string>, d: real, n: int)
    requires Settled(m, t, d) && 0 <= n <= |t|
    ensures forall i :: n <= i < |t| ==> m[t[i]].ef <= m[t[i]].lf <= d
    decreases |t| - n
  {
    if n < |t| {
      LateBoundsFrom(m, t, d, n + 1);
      var k := t[n];
      var succs := m[k].successors;
      if succs != [] {
        forall s | s in succs
          ensures m[k].ef <= m[s].ls && m[s].lf <= d
        {
          EdgeOrder(m, t, d, k, s);
          assert s in t;
          var j :| 0 <= j < |t| && t[j] == s;
          assert n < j;
        }
        var w := MinStartAttained(m, succs);
      }
    }
  }

  /** Every activity finishes no later than it may, and may finish no later than the project. */
  lemma LateBounds(m: Registry, t: seq<string>, d: real)
    requires Settled(m, t, d)
    ensures forall k :: k in m ==> m[k].ef <= m[k].lf <= d
  {
    LateBoundsFrom(m, t, d, 0);
    forall k | k in m
      ensures m[k].ef <= m[k].lf <= d
    {
      assert k in t;
      var i :| 0 <= i < |t| && t[i] == k;
    }
  }

  /** Slack is never negative: latest start minus earliest start is latest finish minus earliest finish. */
  lemma SlackNonNegative(m: Registry, order: seq<string>, d: real)
    requires Scheduled(m, order, d)
    ensures forall k :: k in m ==> m[k].slack >= 0.0
  {
    ScheduledIsSettled(m, order, d);
    LateBounds(m, order, d);
  }

  /**
    A zero-slack activity with successors has a tight one: the successor
    whose latest start fixed its latest finish starts exactly when it
    finishes and has no slack either. So the critical walk only stops at
    an activity with no successors.
  */
  lemma TightSuccessorExists(m: Registry, t: seq<string>, d: real, k: string)
    requires Settled(m, t, d) && k in m && m[k].slack == 0.0
    ensures NextOnPath(m, k).None? <==> m[k].successors == []
  {
    var succs := m[k].successors;
    if succs != [] {
      var w := MinStartAttained(m, succs);
      EdgeOrder(m, t, d, k, w);
      LateBounds(m, t, d);
      assert m[w].ef <= m[w].lf;
      assert Tight(m, k, w);
    }
  }

  /** A zero-slack activity the critical walk stops at finishes with the project. */
  lemma WalkEndFinish(m: Registry, t: seq<string>, d: real, k: string)
    requires Settled(m, t, d) && k in m && m[k].slack == 0.0
    requires NextOnPath(m, k).None?
    ensures m[k].successors == [] && m[k].ef == d
  {
    TightSuccessorExists(m, t, d, k);
    LateBounds(m, t, d);
  }

  /**
    Going back from a zero-slack activity through the predecessor that
    fixed its earliest start stays on zero slack, and ends at a start
    activity: no predecessors and no slack.
  */
  lemma {:induction false} StartBefore(m: Registry, t: seq<string>, d: real, n: int)
    requires Settled(m, t, d) && 0 <= n < |t| && m[t[n]].slack == 0.0
    requires forall k :: k in m ==> m[k].ef >= 0.0
    ensures exists j :: 0 <= j <= n && IsStart(m[t[j]])
    decreases n
  {
    var k := t[n];
    var preds := m[k].predecessors;
    if preds != [] {
      var w := MaxFinishAttained(m, preds);
      assert w in t;
      var j :| 0 <= j < |t| && t[j] == w;
      assert k in m[w].successors;
      assert j < n;
      LateBounds(m, t, d);
      assert m[w].lf <= m[k].ls;
      StartBefore(m, t, d, j);
    } else {
      assert IsStart(m[t[n]]);
    }
  }

  /** A schedule of a non-empty registry has an activity that finishes with the project and has no slack. */
  lemma CriticalEnd(m: Registry, t: seq<string>, d: real) returns (n: int)
    requires Settled(m, t, d) && m != map[] && d == MaxFinish(m, t)
    requires forall k :: k in m ==> m[k].ef >= 0.0
    ensures 0 <= n < |t| && m[t[n]].slack == 0.0 && m[t[n]].ef == d
  {
    var k :| k in m;
    assert k in t;
    LateBounds(m, t, d);
    var w := MaxFinishAttained(m, t);
    n :| 0 <= n < |t| && t[n] == w;
  }

  /** A schedule of a non-empty registry always has a start activity, so its critical path is not empty. */
  lemma StartExists(m: Registry, order: seq<string>, d: real)
    requires Scheduled(m, order, d) && m != map[]
    ensures StartIndex(m, order) < |order|
  {
    EarlyBounds(m, order, d);
    ScheduledIsSettled(m, order, d);
    SettledStart(m, order, d);
  }

  lemma SettledStart(m: Registry, t: seq<string>, d: real)
    requires Settled(m, t, d) && m != map[] && d == MaxFinish(m, t)
    requires forall k :: k in m ==> m[k].ef >= 0.0
    ensures StartIndex(m, t) < |t|
  {
    var n := CriticalEnd(m, t, d);
    StartBefore(m, t, d, n);
    var j :| 0 <= j <= n && IsStart(m[t[j]]);
    assert StartIndex(m, t) <= j;
  }

  /** Along a chain from a start activity, each activity finishes at the total duration so far. */
  lemma {:induction false} WalkFinish(m: Registry, cp: seq<string>, i: int)
    requires SuccessorsExist(m) && AllIn(cp, m) && cp != [] && m[cp[0]].es == 0.0
    requires forall x :: x in cp ==> m[x].ef == m[x].es + m[x].duration
    requires IsChain(m, cp) && 0 <= i < |cp|
    ensures m[cp[i]].ef == TotalDuration(m, cp[..i + 1])
  {
    PrefixSnoc(cp, i);
    if i == 0 {
      assert cp[..0] == [];
    } else {
      WalkFinish(m, cp, i - 1);
      assert NextOnPath(m, cp[i - 1]) == Some(cp[i]);
    }
  }

  /** The critical walk of a settled schedule with a start activity, as the theorem below states it. */
  lemma SettledWalk(m: Registry, t: seq<string>, d: real, cp: seq<string>)
    requires Settled(m, t, d) && StartIndex(m, t) < |t|
    requires IsCriticalWalk(m, t, cp)
    ensures cp != [] && AllIn(cp, m)
    ensures m[cp[0]].predecessors == [] && m[cp[0]].es == 0.0
    ensures forall x :: x in cp ==> m[x].slack == 0.0
    ensures forall i :: 0 <= i < |cp| - 1 ==>
              cp[i + 1] in m[cp[i]].successors && m[cp[i]].ef == m[cp[i + 1]].es
    ensures m[cp[|cp| - 1]].successors == [] && m[cp[|cp| - 1]].ef == d
    ensures TotalDuration(m, cp) == d
  {
    forall i | 0 <= i < |cp| - 1
      ensures cp[i + 1] in m[cp[i]].successors && Tight(m, cp[i], cp[i + 1])
    {
      assert NextOnPath(m, cp[i]) == Some(cp[i + 1]);
    }
    forall x | x in cp
      ensures m[x].slack == 0.0
    {
      var i :| 0 <= i < |cp| && cp[i] == x;
      if i > 0 {
        assert Tight(m, cp[i - 1], cp[i]);
      }
    }
    var last := |cp| - 1;
    WalkEndFinish(m, t, d, cp[last]);
    WalkFinish(m, cp, last);
    assert cp[..last + 1] == cp;
  }

  /**
    The critical path of a non-empty schedule is a gap-free chain of
    zero-slack activities from time 0 to the project duration: it is not
    empty, it begins at a start activity at time 0, every step moves to a
    successor that starts exactly when the previous activity finishes, it
    ends at an activity with no successors that finishes with the project,
    and its durations add up to the project duration.
  */
  lemma CriticalPathSpansProject(m: Registry, order: seq<string>, d: real, cp: seq<string>)
    requires Scheduled(m, order, d) && m != map[]
    requires IsCriticalWalk(m, order, cp)
    ensures cp != [] && AllIn(cp, m)
    ensures m[cp[0]].predecessors == [] && m[cp[0]].es == 0.0
    ensures forall x :: x in cp ==> m[x].slack == 0.0
    ensures forall i :: 0 <= i < |cp| - 1 ==>
              cp[i + 1] in m[cp[i]].successors && m[cp[i]].ef == m[cp[i + 1]].es
    ensures m[cp[|cp| - 1]].successors == [] && m[cp[|cp| - 1]].ef == d
    ensures TotalDuration(m, cp) == d
  {
    StartExists(m, order, d);
    ScheduledIsSettled(m, order, d);
    SettledWalk(m, order, d, cp);
  }
}
