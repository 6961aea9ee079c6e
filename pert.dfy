/**
  The PERT scheduling engine: a registry of activities and the calculation
  that derives successors, a topological order, the earliest and latest
  times, slack, the project duration and one critical path.

  The registry is an ordered map. It is modelled by `activities`, the map
  itself, and `keys`, its ids in ascending order: the order in which every
  pass over "all activities" visits them.
*/
module PertEngine {
  import opened Ids
  import opened Activities
  import opened Graph
  import opened Times
  import opened Theorems

  /**
    `ks` lists the ids of `m` in ascending order, and every activity is
    stored under its own non-empty id with a non-negative duration.
  */
  ghost predicate Registered(ks: seq<string>, m: Registry)
  {
    && StrictlySorted(ks)
    && (forall k :: k in m <==> k in ks)
    && forall k :: k in m ==> m[k].id == k && k != [] && m[k].duration >= 0.0
  }

  /** The registry invariant depends only on the declarations. */
  lemma RegisteredKept(ks: seq<string>, m: Registry, m': Registry)
    requires Registered(ks, m) && SameDeclarations(m, m')
    ensures Registered(ks, m')
  {
    assert forall k :: k in m ==> SameDeclaration(m[k], m'[k]);
  }

  class Pert {
    var activities: Registry
    var keys: seq<string>
    var projectDuration: real
    var topoOrder: seq<string>
    var criticalPath: seq<string>

    /**
      The registry invariant: `keys` lists the ids of `activities` in
      ascending order, and every activity is stored under its own non-empty
      id with a non-negative duration.
    */
    ghost predicate Valid()
      reads this
    {
      Registered(keys, activities)
    }

    /** The number of activities is the number of keys. */
    lemma KeyCount()
      requires Valid()
      ensures Distinct(keys) && |activities| == |keys|
    {
      SortedIsDistinct(keys);
      DistinctWithin(keys, activities.Keys);
    }

    constructor ()
      ensures Valid()
      ensures activities == map[] && keys == []
      ensures projectDuration == 0.0 && topoOrder == [] && criticalPath == []
    {
      activities := map[];
      keys := [];
      projectDuration := 0.0;
      topoOrder := [];
      criticalPath := [];
    }

    /**
      Registers a new activity. Rejected, with nothing changed, when the id
      is empty, the duration negative or the id taken; otherwise the new
      activity is stored with no successors and zero times, and every cached
      result is reset.
    */
    method AddActivity(id: string, duration: real, predecessors: seq<string>) returns (ok: bool)
      requires Valid()
      modifies this
      ensures Valid()
      ensures ok <==> id != [] && duration >= 0.0 && id !in old(activities)
      ensures !ok ==>
        && activities == old(activities) && keys == old(keys)
        && topoOrder == old(topoOrder) && criticalPath == old(criticalPath)
        && projectDuration == old(projectDuration)
      ensures ok ==>
        && activities.Keys == old(activities).Keys + {id}
        && activities[id] == Activity(id, duration, predecessors, [], 0.0, 0.0, 0.0, 0.0, 0.0)
        && (forall k :: k in old(activities) ==> activities[k] == old(activities)[k])
        && topoOrder == [] && criticalPath == [] && projectDuration == 0.0
    {
      if id == [] || duration < 0.0 {
        return false;
      }
      if id in activities {
        return false;
      }
      activities := activities[id := NewActivity(id, duration, predecessors)];
      keys := Insert(keys, id);
      topoOrder := [];
      criticalPath := [];
      projectDuration := 0.0;
      return true;
    }

    /** Removes every activity and every cached result. */
    method Clear()
      modifies this
      ensures Valid()
      ensures activities == map[] && keys == []
      ensures topoOrder == [] && criticalPath == [] && projectDuration == 0.0
    {
      activities := map[];
      keys := [];
      topoOrder := [];
      criticalPath := [];
      projectDuration := 0.0;
    }

    /** Read-only lookup: the activity stored under `id`, or nothing. */
    method Find(id: string) returns (r: Option<Activity>)
      ensures r.None? <==> id !in activities
      ensures r.Some? ==> id in activities && r.value == activities[id]
    {
      if id in activities {
        r := Some(activities[id]);
      } else {
        r := None;
      }
    }

    /** The cached project duration; 0 until a calculation succeeds. */
    method GetProjectDuration() returns (d: real)
      ensures d == projectDuration
    {
      d := projectDuration;
    }

    /** The cached critical path, or nothing when it is empty. */
    method GetCriticalPath() returns (r: Option<seq<string>>)
      ensures r.None? <==> criticalPath == []
      ensures r.Some? ==> r.value == criticalPath
    {
      if criticalPath == [] {
        r := None;
      } else {
        r := Some(criticalPath);
      }
    }

    /** Empties the successor list of every activity, in key order. */
    method ClearSuccessors()
      requires Valid()
      modifies this`activities
      ensures Valid()
      ensures OnlySuccessorsChanged(old(activities), activities)
      ensures forall q :: q in activities ==> activities[q].successors == []
    {
      var i := 0;
      while i < |keys|
        invariant 0 <= i <= |keys|
        invariant OnlySuccessorsChanged(old(activities), activities)
        invariant forall n :: 0 <= n < i ==> activities[keys[n]].successors == []
      {
        var k := keys[i];
        activities := activities[k := activities[k].(successors := [])];
        i := i + 1;
      }
    }

    /**
      Rebuilds every successor list from the declared predecessors, visiting
      activities in key order, and fails on the first predecessor that is not
      an activity. Only successor lists change. On success each list is
      exactly the derived one; on failure the lists hold what was appended
      before the unknown predecessor was met.
    */
    method BuildGraph() returns (ok: bool)
      requires Valid()
      modifies this`activities
      ensures Valid() && unchanged(this`keys)
      ensures OnlySuccessorsChanged(old(activities), activities)
      ensures ok <==> PredecessorsExist(old(activities))
      ensures ok ==> forall q :: q in activities ==>
        activities[q].successors == SuccessorsFrom(old(activities), keys, q)
      ensures !ok ==> exists i, j ::
        && FirstMissing(old(activities), keys, i, j)
        && forall q :: q in activities ==>
             activities[q].successors == PartialSuccessors(old(activities), keys, i, j, q)
    {
      ghost var m0 := activities;
      assert AllIn(keys, m0);
      ClearSuccessors();
      var i := 0;
      while i < |keys|
        invariant 0 <= i <= |keys|
        invariant OnlySuccessorsChanged(m0, activities)
        invariant PrefixResolved(m0, keys, i)
        invariant forall q :: q in activities ==>
          activities[q].successors == SuccessorsFrom(m0, keys[..i], q)
      {
        var k := keys[i];
        var preds := activities[k].predecessors;
        assert preds == m0[k].predecessors;
        LinkEnds(m0, keys, i, activities);
        var j := 0;
        while j < |preds|
          invariant 0 <= j <= |preds|
          invariant OnlySuccessorsChanged(m0, activities)
          invariant AllIn(preds[..j], m0)
          invariant forall q :: q in activities ==>
            activities[q].successors == PartialSuccessors(m0, keys, i, j, q)
        {
          var p := preds[j];
          if p !in activities {
            assert FirstMissing(m0, keys, i, j);
            assert p in m0[k].predecessors;
            ok := false;
            return;
          }
          LinkStep(m0, keys, i, j, activities);
          activities := activities[p := activities[p].(successors := activities[p].successors + [k])];
          j := j + 1;
        }
        LinkEnds(m0, keys, i, activities);
        assert preds[..j] == preds;
        PrefixResolvedStep(m0, keys, i);
        i := i + 1;
      }
      assert keys[..i] == keys;
      PrefixResolvedAll(m0, keys);
      ok := true;
    }

    /**
      Kahn's algorithm: in-degrees from the successor lists, a FIFO frontier
      seeded with the activities of in-degree zero in key order, and
      repeated output of the frontier's head. Succeeds, storing the output,
      exactly when every activity was output; the output then lists each
      activity once, after every activity that has it as a successor.
      Otherwise the graph has a cycle, no such order exists, and the stored
      order is empty.
    */
    method TopoSort() returns (ok: bool)
      requires Valid() && SuccessorsExist(activities)
      modifies this`topoOrder
      ensures unchanged(this`keys, this`activities)
      ensures ok ==> IsSuccessorOrder(activities, topoOrder)
      ensures !ok ==> topoOrder == [] && !HasSuccessorOrder(activities)
    {
      KeyCount();
      assert AllIn(keys, activities);
      var indeg := InDegrees(activities, keys);
      var queue := Frontier(keys, indeg);
      assert [] + queue == queue;
      assert Kahn(activities, keys, [], queue, indeg, []);
      var order;
      order, indeg := Drain(activities, keys, queue, indeg);
      KahnDone(activities, keys, order, indeg);
      // a cycle leaves some activity out
      if |order| != |activities| {
        topoOrder := [];
        return false;
      }
      topoOrder := order;
      return true;
    }

    /**
      Earliest times along the topological order: an activity starts when
      the last of its predecessors finishes (at 0 when it has none) and
      finishes its duration later; the project duration is the largest
      finish. Only earliest times and the project duration change.
    */
    method ForwardPass()
      requires Valid() && PredecessorsExist(activities) && IsTopoOrder(activities, topoOrder)
      modifies this`activities, this`projectDuration
      ensures unchanged(this`keys, this`topoOrder, this`criticalPath)
      ensures Valid() && OnlyEarlyChanged(old(activities), activities)
      ensures PredecessorsExist(activities) && IsTopoOrder(activities, topoOrder)
      ensures forall k :: k in activities ==> EarlyTimes(activities, k)
      ensures projectDuration == MaxFinish(activities, topoOrder)
    {
      var acts, d := ForwardTimes(activities, topoOrder);
      EarlyChangeKeepsEdges(activities, acts);
      RegisteredKept(keys, activities, acts);
      activities, projectDuration := acts, d;
    }

    /**
      Latest times against the reversed topological order: an activity
      nothing depends on must finish by the project duration, any other by
      the earliest latest start of its successors; it starts its duration
      earlier. Only latest times change.
    */
    method BackwardPass()
      requires Valid() && SuccessorsExist(activities) && IsSuccessorOrder(activities, topoOrder)
      modifies this`activities
      ensures unchanged(this`keys, this`topoOrder, this`projectDuration, this`criticalPath)
      ensures Valid() && OnlyLateChanged(old(activities), activities)
      ensures SuccessorsExist(activities) && IsSuccessorOrder(activities, topoOrder)
      ensures forall k :: k in activities ==> LateTimes(activities, k, projectDuration)
    {
      var acts := BackwardTimes(activities, topoOrder, projectDuration);
      LateChangeKeepsEdges(activities, acts);
      RegisteredKept(keys, activities, acts);
      activities := acts;
    }

    /** Slack of every activity, in key order: latest start minus earliest start. Only slack changes. */
    method CalculateSlack()
      requires Valid()
      modifies this`activities
      ensures unchanged(this`keys, this`topoOrder, this`projectDuration, this`criticalPath)
      ensures Valid() && OnlySlackChanged(old(activities), activities)
      ensures forall k :: k in activities ==> activities[k].slack == activities[k].ls - activities[k].es
    {
      var acts := SlackTimes(activities, keys);
      SlackChangeKeepsEdges(activities, acts);
      RegisteredKept(keys, activities, acts);
      activities := acts;
    }

    /**
      The critical path: from the first activity of the topological order
      that has no predecessors and no slack, repeatedly move to the first
      successor with no slack that starts exactly when the current one
      finishes. Empty when no activity qualifies as the first.
    */
    method DeriveCriticalPath()
      requires Valid() && SuccessorsExist(activities) && IsSuccessorOrder(activities, topoOrder)
      modifies this`criticalPath
      ensures unchanged(this`keys, this`activities, this`topoOrder, this`projectDuration)
      ensures IsCriticalWalk(activities, topoOrder, criticalPath)
    {
      var i := FindStart(activities, topoOrder);
      if i < |topoOrder| {
        criticalPath := Walk(activities, topoOrder, i);
      } else {
        criticalPath := [];
      }
    }

    /**
      The whole calculation. Fails on an empty registry (changing nothing),
      when a declared predecessor is not an activity, or when the
      dependencies form a cycle; after a failure only successor lists may
      have been rebuilt, the order may have been emptied, and the previous
      duration and critical path remain. On success every activity carries
      its earliest and latest times and its slack, the duration is the
      largest earliest finish and the critical path is the zero-slack walk.
    */
    method Calculate() returns (ok: bool)
      requires Valid()
      modifies this
      ensures Valid() && unchanged(this`keys)
      ensures ok <==> old(activities) != map[] && PredecessorsExist(old(activities)) && Acyclic(old(activities))
      ensures old(activities) == map[] ==> unchanged(this)
      ensures old(activities) != map[] && !PredecessorsExist(old(activities)) ==> unchanged(this`topoOrder)
      ensures old(activities) != map[] && PredecessorsExist(old(activities)) && !Acyclic(old(activities)) ==>
        topoOrder == []
      ensures !ok ==>
        && OnlySuccessorsChanged(old(activities), activities)
        && unchanged(this`projectDuration, this`criticalPath)
        && (unchanged(this`topoOrder) || topoOrder == [])
      ensures ok ==>
        && SameDeclarations(old(activities), activities)
        && Scheduled(activities, topoOrder, projectDuration)
        && SuccessorsExist(activities) && AllIn(topoOrder, activities)
        && IsCriticalWalk(activities, topoOrder, criticalPath)
        && criticalPath != [] && TotalDuration(activities, criticalPath) == projectDuration
      ensures old(activities) != map[] && PredecessorsExist(old(activities)) ==>
        forall q :: q in activities ==> activities[q].successors == SuccessorsFrom(old(activities), keys, q)
      ensures old(activities) != map[] && !PredecessorsExist(old(activities)) ==> exists i, j ::
        && FirstMissing(old(activities), keys, i, j)
        && forall q :: q in activities ==>
             activities[q].successors == PartialSuccessors(old(activities), keys, i, j, q)
    {
      if activities == map[] {
        return false;
      }
      ghost var m0 := activities;
      ok := BuildGraph();
      SuccessorsIgnored(m0, activities);
      if !ok {
        return;
      }
      KeyCount();
      BuiltGraphIsLinked(m0, keys, activities);
      ok := SortAndSchedule(m0);
      if ok {
        CriticalPathSpansProject(activities, topoOrder, projectDuration, criticalPath);
      }
    }

    /**
      The stages that follow a successful graph build, for a registry built
      from the declarations `m0`: the topological sort, and when it
      succeeds the scheduling stages. A failed sort empties the order and
      changes nothing else.
    */
    method SortAndSchedule(ghost m0: Registry) returns (ok: bool)
      requires Valid() && OnlySuccessorsChanged(m0, activities) && Linked(activities)
      modifies this`topoOrder, this`activities, this`projectDuration, this`criticalPath
      ensures unchanged(this`keys)
      ensures ok <==> Acyclic(m0)
      ensures !ok ==> unchanged(this`activities, this`projectDuration, this`criticalPath) && topoOrder == []
      ensures ok ==>
        && Valid() && SameDeclarations(m0, activities)
        && Scheduled(activities, topoOrder, projectDuration)
        && SuccessorsExist(activities) && AllIn(topoOrder, activities)
        && IsCriticalWalk(activities, topoOrder, criticalPath)
        && forall k :: k in activities ==> activities[k].successors == old(activities)[k].successors
    {
      ghost var m1 := activities;
      ok := TopoSort();
      if !ok {
        NoOrderFound(m0, m1);
        return;
      }
      OrderFound(m0, m1, topoOrder);
      Schedule();
      SuccessorsIgnored(m0, m1);
      SameDeclarationsTrans(m0, m1, activities);
    }

    /**
      The stages that follow a successful topological sort: forward pass,
      backward pass, slack and critical path, run in that order.
    */
    method Schedule()
      requires Valid() && Linked(activities)
      requires IsTopoOrder(activities, topoOrder) && IsSuccessorOrder(activities, topoOrder)
      modifies this`activities, this`projectDuration, this`criticalPath
      ensures unchanged(this`keys, this`topoOrder)
      ensures Valid() && SameDeclarations(old(activities), activities)
      ensures Scheduled(activities, topoOrder, projectDuration)
      ensures SuccessorsExist(activities) && AllIn(topoOrder, activities)
      ensures IsCriticalWalk(activities, topoOrder, criticalPath)
      ensures forall k :: k in activities ==> activities[k].successors == old(activities)[k].successors
    {
      ghost var m1 := activities;
      ForwardPass();
      ghost var m2 := activities;
      EarlyChangeKeepsEdges(m1, m2);
      SameEdgesAgree(m1, m2);
      SameEdgesOrders(m1, m2, topoOrder);
      BackwardPass();
      ghost var m3 := activities;
      CalculateSlack();
      SlackChangeKeepsEdges(m3, activities);
      SameEdgesAgree(m3, activities);
      SameEdgesOrders(m3, activities, topoOrder);
      DeriveCriticalPath();
      ScheduleComplete(m1, m2, m3, activities, topoOrder, projectDuration);
      LateChangeKeepsEdges(m2, m3);
    }
  }

  /**
    The forward pass on a registry value: earliest times along the
    topological order `t`, and the largest earliest finish.
  */
  method ForwardTimes(m0: Registry, t: seq<string>) returns (m: Registry, d: real)
    requires PredecessorsExist(m0) && IsTopoOrder(m0, t)
    ensures OnlyEarlyChanged(m0, m) && PredecessorsExist(m) && IsTopoOrder(m, t)
    ensures forall k :: k in m ==> EarlyTimes(m, k)
    ensures d == MaxFinish(m, t)
  {
    m, d := m0, 0.0;
    var i := 0;
    while i < |t|
      invariant 0 <= i <= |t|
      invariant OnlyEarlyChanged(m0, m)
      invariant PredecessorsExist(m) && IsTopoOrder(m, t)
      invariant EarlyPrefix(m, t, i)
      invariant d == MaxFinish(m, t[..i])
    {
      var k := t[i];
      var es := LatestFinishAmong(m, m[k].predecessors);
      ghost var prev := m;
      ForwardStep(prev, t, i, es);
      m := SetEarly(m, k, es);
      EarlyChangedTrans(m0, prev, m);
      d := Max(d, m[k].ef);
      i := i + 1;
    }
    assert t[..i] == t;
    ForwardAll(m, t);
  }

  /**
    The backward pass on a registry value: latest times against the
    reversed order `t`, for project duration `d`.
  */
  method BackwardTimes(m0: Registry, t: seq<string>, d: real) returns (m: Registry)
    requires SuccessorsExist(m0) && IsSuccessorOrder(m0, t)
    ensures OnlyLateChanged(m0, m) && SuccessorsExist(m) && IsSuccessorOrder(m, t)
    ensures forall k :: k in m ==> LateTimes(m, k, d)
  {
    m := m0;
    var i := |t|;
    while i > 0
      invariant 0 <= i <= |t|
      invariant OnlyLateChanged(m0, m)
      invariant SuccessorsExist(m) && IsSuccessorOrder(m, t)
      invariant LateSuffix(m, t, i, d)
    {
      i := i - 1;
      var k := t[i];
      var lf: real;
      if m[k].successors == [] {
        lf := d;
      } else {
        lf := EarliestStartAmong(m, m[k].successors);
      }
      ghost var prev := m;
      BackwardStep(prev, t, i, d, lf);
      m := SetLate(m, k, lf);
      LateChangedTrans(m0, prev, m);
    }
    BackwardAll(m, t, d);
  }

  /** Slack of every activity, visited in the order of `ks`: latest start minus earliest start. */
  method SlackTimes(m0: Registry, ks: seq<string>) returns (m: Registry)
    requires AllIn(ks, m0) && forall k :: k in m0 ==> k in ks
    ensures OnlySlackChanged(m0, m)
    ensures forall k :: k in m ==> m[k].slack == m[k].ls - m[k].es
  {
    m := m0;
    var i := 0;
    while i < |ks|
      invariant 0 <= i <= |ks|
      invariant OnlySlackChanged(m0, m)
      invariant forall n :: 0 <= n < i ==> m[ks[n]].slack == m[ks[n]].ls - m[ks[n]].es
    {
      var k := ks[i];
      m := m[k := m[k].(slack := m[k].ls - m[k].es)];
      i := i + 1;
    }
    assert forall k :: k in m ==> exists n :: 0 <= n < |ks| && ks[n] == k;
  }

  /**
    The position in `t` of the first activity with no predecessors and no
    slack, or `|t|` when there is none.
  */
  method FindStart(m: Registry, t: seq<string>) returns (i: int)
    requires AllIn(t, m)
    ensures i == StartIndex(m, t)
  {
    i := 0;
    while i < |t|
      invariant 0 <= i <= |t|
      invariant forall n :: 0 <= n < i ==> !IsStart(m[t[n]])
    {
      var a := m[t[i]];
      if a.predecessors == [] && a.slack == 0.0 {
        return;
      }
      i := i + 1;
    }
  }

  /** The largest earliest finish among `preds`, starting from 0. */
  method LatestFinishAmong(m: Registry, preds: seq<string>) returns (es: real)
    requires AllIn(preds, m)
    ensures es == MaxFinish(m, preds)
  {
    es := 0.0;
    var j := 0;
    while j < |preds|
      invariant 0 <= j <= |preds|
      invariant es == MaxFinish(m, preds[..j])
    {
      assert preds[..j + 1][..j] == preds[..j];
      es := Max(es, m[preds[j]].ef);
      j := j + 1;
    }
    assert preds[..j] == preds;
  }

  /**
    The smallest latest start among the non-empty `succs`. The running
    minimum starts at +infinity, written `None`: the first comparison
    always replaces it.
  */
  method EarliestStartAmong(m: Registry, succs: seq<string>) returns (lf: real)
    requires succs != [] && AllIn(succs, m)
    ensures lf == MinStart(m, succs)
  {
    var least: Option<real> := None;
    var j := 0;
    while j < |succs|
      invariant 0 <= j <= |succs|
      invariant j == 0 <==> least.None?
      invariant j > 0 ==> least == Some(MinStart(m, succs[..j]))
    {
      assert succs[..j + 1][..j] == succs[..j];
      var ls := m[succs[j]].ls;
      least := if least.None? then Some(ls) else Some(Min(least.value, ls));
      j := j + 1;
    }
    assert succs[..j] == succs;
    lf := least.value;
  }

  /**
    The first successor of `cur` with no slack that starts when `cur`
    finishes, or the empty id when there is none.
  */
  method TightSuccessor(m: Registry, cur: string) returns (next: string)
    requires cur in m && SuccessorsExist(m) && forall k :: k in m ==> k != []
    ensures next == [] <==> NextOnPath(m, cur).None?
    ensures next != [] ==> NextOnPath(m, cur) == Some(next)
  {
    next := [];
    var ss := m[cur].successors;
    var j := 0;
    while j < |ss|
      invariant 0 <= j <= |ss|
      invariant forall n :: 0 <= n < j ==> !Tight(m, cur, ss[n])
    {
      var cand := m[ss[j]];
      if cand.slack == 0.0 && m[cur].ef == cand.es {
        next := ss[j];
        assert TightIndex(m, cur, ss) == j;
        return;
      }
      j := j + 1;
    }
    assert TightIndex(m, cur, ss) == |ss|;
  }

  /**
    The zero-slack walk from `t[start]`: keeps moving to the tight
    successor until there is none. It ends because every successor comes
    later in the order `t`.
  */
  method Walk(m: Registry, t: seq<string>, start: int) returns (cp: seq<string>)
    requires SuccessorsExist(m) && IsSuccessorOrder(m, t) && 0 <= start < |t|
    requires forall k :: k in m ==> k != []
    ensures cp != [] && cp[0] == t[start] && AllIn(cp, m)
    ensures IsChain(m, cp) && NextOnPath(m, cp[|cp| - 1]) == None
  {
    var cur := t[start];
    cp := [cur];
    ghost var pos := start;
    while true
      invariant 0 <= pos < |t| && t[pos] == cur
      invariant cp != [] && cp[0] == t[start] && cp[|cp| - 1] == cur && AllIn(cp, m)
      invariant IsChain(m, cp)
      decreases |t| - pos
    {
      var next := TightSuccessor(m, cur);
      if next == [] {
        break;
      }
      pos := LaterPosition(m, t, pos, next);
      ChainSnoc(m, cp, next);
      cp := cp + [next];
      cur := next;
    }
  }

  /**
    Steps 1 and 2 of the topological sort: every activity starts at
    in-degree zero and gains one for every successor entry naming it.
  */
  method InDegrees(m: Registry, ks: seq<string>) returns (indeg: map<string, int>)
    requires AllIn(ks, m) && (forall k :: k in m ==> k in ks) && SuccessorsExist(m)
    ensures forall k :: k in indeg <==> k in m
    ensures forall s :: s in m ==> indeg[s] == PendingInDegree(m, ks, [], s)
  {
    indeg := map[];
    var i := 0;
    while i < |ks|
      invariant 0 <= i <= |ks|
      invariant forall k :: k in indeg <==> k in ks[..i]
      invariant forall k :: k in indeg ==> indeg[k] == 0
    {
      assert ks[..i + 1] == ks[..i] + [ks[i]];
      indeg := indeg[ks[i] := 0];
      i := i + 1;
    }
    assert ks[..i] == ks;
    i := 0;
    while i < |ks|
      invariant 0 <= i <= |ks|
      invariant forall k :: k in indeg <==> k in m
      invariant forall s :: s in m ==> indeg[s] == PendingInDegree(m, ks[..i], [], s)
    {
      indeg := CountEntries(indeg, m[ks[i]].successors);
      forall s | s in m
        ensures indeg[s] == PendingInDegree(m, ks[..i + 1], [], s)
      {
        PendingInDegreeStep(m, ks, i, s);
      }
      i := i + 1;
    }
    assert ks[..i] == ks;
  }

  /** Adds one to the count of every entry of `succ`, each occurrence counted. */
  method CountEntries(indeg0: map<string, int>, succ: seq<string>) returns (indeg: map<string, int>)
    requires forall s :: s in succ ==> s in indeg0
    ensures indeg.Keys == indeg0.Keys
    ensures forall s :: s in indeg ==> indeg[s] == indeg0[s] + multiset(succ)[s]
  {
    indeg := indeg0;
    var j := 0;
    while j < |succ|
      invariant 0 <= j <= |succ|
      invariant indeg.Keys == indeg0.Keys
      invariant forall s :: s in indeg ==> indeg[s] == indeg0[s] + multiset(succ[..j])[s]
    {
      assert succ[..j + 1] == succ[..j] + [succ[j]];
      indeg := indeg[succ[j] := indeg[succ[j]] + 1];
      j := j + 1;
    }
    assert succ[..j] == succ;
  }

  /** Step 3: the activities of in-degree zero, in key order. */
  method Frontier(ks: seq<string>, indeg: map<string, int>) returns (queue: seq<string>)
    requires Distinct(ks) && forall k :: k in ks ==> k in indeg
    ensures Distinct(queue)
    ensures forall x :: x in queue <==> x in ks && indeg[x] == 0
    ensures StrictlySorted(ks) ==> StrictlySorted(queue)
  {
    queue := [];
    var i := 0;
    while i < |ks|
      invariant 0 <= i <= |ks|
      invariant forall x :: x in queue <==> x in ks[..i] && indeg[x] == 0
      invariant Distinct(queue)
      invariant StrictlySorted(ks) ==> StrictlySorted(queue)
    {
      assert ks[..i + 1] == ks[..i] + [ks[i]];
      if indeg[ks[i]] == 0 {
        assert ks[i] !in ks[..i];
        if StrictlySorted(ks) {
          forall a | 0 <= a < |queue|
            ensures Less(queue[a], ks[i])
          {
            assert queue[a] in ks[..i];
            var j :| 0 <= j < i && ks[j] == queue[a];
          }
        }
        DistinctSnoc(queue, ks[i]);
        queue := queue + [ks[i]];
      }
      i := i + 1;
    }
    assert ks[..i] == ks;
  }

  /**
    Step 4: output the frontier's head and release its successors until
    the frontier is empty.
  */
  method Drain(m: Registry, ks: seq<string>, queue0: seq<string>, indeg0: map<string, int>)
    returns (order: seq<string>, indeg: map<string, int>)
    requires AllIn(ks, m) && Distinct(ks) && (forall k :: k in m ==> k in ks)
    requires SuccessorsExist(m) && Kahn(m, ks, [], queue0, indeg0, [])
    ensures Kahn(m, ks, order, [], indeg, [])
  {
    order, indeg := [], indeg0;
    var queue := queue0;
    while queue != []
      invariant Kahn(m, ks, order, queue, indeg, [])
      decreases |ks| - |order|
    {
      KahnBound(m, ks, order, queue, indeg, []);
      KahnPop(m, ks, order, queue, indeg);
      var u := queue[0];
      queue := queue[1..];
      order := order + [u];
      queue, indeg := Release(m, ks, order, queue, indeg, m[u].successors);
    }
  }

  /** Lowers the in-degree of each id of `succ`, appending those that reach zero to the frontier. */
  method Release(m: Registry, ks: seq<string>, order: seq<string>, queue0: seq<string>,
                 indeg0: map<string, int>, succ: seq<string>)
    returns (queue: seq<string>, indeg: map<string, int>)
    requires AllIn(ks, m) && AllIn(succ, m)
    requires Kahn(m, ks, order, queue0, indeg0, succ)
    ensures Kahn(m, ks, order, queue, indeg, [])
  {
    queue, indeg := queue0, indeg0;
    var j := 0;
    while j < |succ|
      invariant 0 <= j <= |succ|
      invariant Kahn(m, ks, order, queue, indeg, succ[j..])
    {
      var s := succ[j];
      assert succ[j..][0] == s && succ[j..][1..] == succ[j + 1..];
      assert AllIn(succ[j..], m);
      KahnDecrement(m, ks, order, queue, indeg, succ[j..]);
      indeg := indeg[s := indeg[s] - 1];
      if indeg[s] == 0 {
        queue := queue + [s];
      }
      j := j + 1;
    }
    assert succ[j..] == [];
  }
}
