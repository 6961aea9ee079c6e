/**
  The Critical Path Method equations: earliest times from the forward pass,
  latest times from the backward pass, slack, and the zero-slack walk that
  yields the critical path.
*/
module Times {
  import opened Ids
  import opened Activities
  import opened Graph

  function Max(a: real, b: real): real { if a >= b then a else b }

  function Min(a: real, b: real): real { if b < a then b else a }

  /**
    The largest earliest finish among `ids`, or 0 when there is none (the
    forward pass starts every maximum at 0).
  */
  function MaxFinish(m: Registry, ids: seq<string>): (r: real)
    requires AllIn(ids, m)
    ensures r >= 0.0
    ensures forall i :: i in ids ==> m[i].ef <= r
  {
    if ids == [] then 0.0
    else
      var init, last := ids[..|ids| - 1], ids[|ids| - 1];
      assert ids == init + [last];
      Max(MaxFinish(m, init), m[last].ef)
  }

  /** The smallest latest start among the non-empty `ids`. */
  function MinStart(m: Registry, ids: seq<string>): (r: real)
    requires ids != [] && AllIn(ids, m)
    ensures forall i :: i in ids ==> r <= m[i].ls
  {
    if |ids| == 1 then m[ids[0]].ls
    else
      var init, last := ids[..|ids| - 1], ids[|ids| - 1];
      assert ids == init + [last];
      Min(MinStart(m, init), m[last].ls)
  }

  /** MaxFinish reads nothing but the earliest finishes of `ids`. */
  lemma {:induction false} MaxFinishFrame(m: Registry, m': Registry, ids: seq<string>)
    requires forall i :: i in ids ==> i in m && i in m' && m[i].ef == m'[i].ef
    ensures MaxFinish(m, ids) == MaxFinish(m', ids)
  {
    if ids != [] {
      MaxFinishFrame(m, m', ids[..|ids| - 1]);
    }
  }

  /** MinStart reads nothing but the latest starts of `ids`. */
  lemma {:induction false} MinStartFrame(m: Registry, m': Registry, ids: seq<string>)
    requires ids != []
    requires forall i :: i in ids ==> i in m && i in m' && m[i].ls == m'[i].ls
    ensures MinStart(m, ids) == MinStart(m', ids)
  {
    if |ids| > 1 {
      MinStartFrame(m, m', ids[..|ids| - 1]);
    }
  }

  /**
    The latest finish of activity `k` given the project duration `d`: `d`
    for an activity nothing depends on, otherwise the smallest latest start
    among its successors.
  */
  function LatestFinish(m: Registry, k: string, d: real): real
    requires k in m && SuccessorsExist(m)
  {
    if m[k].successors == [] then d else MinStart(m, m[k].successors)
  }

  /** Forward-pass equations for one activity. */
  ghost predicate EarlyTimes(m: Registry, k: string)
    requires k in m && PredecessorsExist(m)
  {
    && m[k].es == MaxFinish(m, m[k].predecessors)
    && m[k].ef == m[k].es + m[k].duration
  }

  /** Backward-pass equations for one activity, given the project duration `d`. */
  ghost predicate LateTimes(m: Registry, k: string, d: real)
    requires k in m && SuccessorsExist(m)
  {
    && m[k].lf == LatestFinish(m, k, d)
    && m[k].ls == m[k].lf - m[k].duration
  }

  /** `m` after the forward pass gives activity `k` the earliest start `es`. */
  function SetEarly(m: Registry, k: string, es: real): Registry
    requires k in m
  {
    m[k := m[k].(es := es, ef := es + m[k].duration)]
  }

  /** `m` after the backward pass gives activity `k` the latest finish `lf`. */
  function SetLate(m: Registry, k: string, lf: real): Registry
    requires k in m
  {
    m[k := m[k].(lf := lf, ls := lf - m[k].duration)]
  }

  /** `m'` differs from `m` at most in the earliest start and finish of its activities. */
  ghost predicate OnlyEarlyChanged(m: Registry, m': Registry)
  {
    m'.Keys == m.Keys && forall k :: k in m' ==> m'[k] == m[k].(es := m'[k].es, ef := m'[k].ef)
  }

  /** `m'` differs from `m` at most in the latest start and finish of its activities. */
  ghost predicate OnlyLateChanged(m: Registry, m': Registry)
  {
    m'.Keys == m.Keys && forall k :: k in m' ==> m'[k] == m[k].(ls := m'[k].ls, lf := m'[k].lf)
  }

  /** `m'` differs from `m` at most in the slack of its activities. */
  ghost predicate OnlySlackChanged(m: Registry, m': Registry)
  {
    m'.Keys == m.Keys && forall k :: k in m' ==> m'[k] == m[k].(slack := m'[k].slack)
  }

  /** Same activities, edges and durations, and the same earliest times. */
  ghost predicate SameEarly(m: Registry, m': Registry)
  {
    && SameEdges(m, m')
    && forall k :: k in m ==>
         m[k].duration == m'[k].duration && m[k].es == m'[k].es && m[k].ef == m'[k].ef
  }

  /** Same activities, edges and durations, and the same latest times. */
  ghost predicate SameLate(m: Registry, m': Registry)
  {
    && SameEdges(m, m')
    && forall k :: k in m ==>
         m[k].duration == m'[k].duration && m[k].ls == m'[k].ls && m[k].lf == m'[k].lf
  }

  lemma LateChangeKeepsEarly(m: Registry, m': Registry)
    requires OnlyLateChanged(m, m')
    ensures SameEarly(m, m')
  {
    assert forall k :: k in m ==> m'[k] == m[k].(ls := m'[k].ls, lf := m'[k].lf);
  }

  lemma SlackChangeKeepsTimes(m: Registry, m': Registry)
    requires OnlySlackChanged(m, m')
    ensures SameEarly(m, m') && SameLate(m, m')
  {
    assert forall k :: k in m ==> m'[k] == m[k].(slack := m'[k].slack);
  }

  /** The forward-pass equations and the largest finish read only edges, durations and earliest times. */
  lemma EarlyFrame(m: Registry, m': Registry, t: seq<string>)
    requires SameEarly(m, m') && PredecessorsExist(m) && AllIn(t, m)
    ensures PredecessorsExist(m') && AllIn(t, m')
    ensures forall k :: k in m ==> EarlyTimes(m, k) == EarlyTimes(m', k)
    ensures MaxFinish(m, t) == MaxFinish(m', t)
  {
    SameEdgesAgree(m, m');
    forall k | k in m
      ensures EarlyTimes(m, k) == EarlyTimes(m', k)
    {
      MaxFinishFrame(m, m', m[k].predecessors);
    }
    MaxFinishFrame(m, m', t);
  }

  /** The backward-pass equations read only edges, durations and latest times. */
  lemma LateFrame(m: Registry, m': Registry, d: real)
    requires SameLate(m, m') && SuccessorsExist(m)
    ensures SuccessorsExist(m')
    ensures forall k :: k in m ==> LateTimes(m, k, d) == LateTimes(m', k, d)
  {
    SameEdgesAgree(m, m');
    forall k | k in m && m[k].successors != []
      ensures LateTimes(m, k, d) == LateTimes(m', k, d)
    {
      MinStartFrame(m, m', m[k].successors);
    }
  }

  lemma EarlyChangeKeepsEdges(m: Registry, m': Registry)
    requires OnlyEarlyChanged(m, m')
    ensures SameEdges(m, m') && SameDeclarations(m, m')
  {
    assert forall k :: k in m ==> m'[k] == m[k].(es := m'[k].es, ef := m'[k].ef);
  }

  lemma LateChangeKeepsEdges(m: Registry, m': Registry)
    requires OnlyLateChanged(m, m')
    ensures SameEdges(m, m') && SameDeclarations(m, m')
  {
    assert forall k :: k in m ==> m'[k] == m[k].(ls := m'[k].ls, lf := m'[k].lf);
  }

  lemma SlackChangeKeepsEdges(m: Registry, m': Registry)
    requires OnlySlackChanged(m, m')
    ensures SameEdges(m, m') && SameDeclarations(m, m')
  {
    assert forall k :: k in m ==> m'[k] == m[k].(slack := m'[k].slack);
  }

  lemma EarlyChangedTrans(m0: Registry, m: Registry, m': Registry)
    requires OnlyEarlyChanged(m0, m) && OnlyEarlyChanged(m, m')
    ensures OnlyEarlyChanged(m0, m')
  {
    forall k | k in m'
      ensures m'[k] == m0[k].(es := m'[k].es, ef := m'[k].ef)
    {
      assert m[k] == m0[k].(es := m[k].es, ef := m[k].ef);
    }
  }

  lemma LateChangedTrans(m0: Registry, m: Registry, m': Registry)
    requires OnlyLateChanged(m0, m) && OnlyLateChanged(m, m')
    ensures OnlyLateChanged(m0, m')
  {
    forall k | k in m'
      ensures m'[k] == m0[k].(ls := m'[k].ls, lf := m'[k].lf)
    {
      assert m[k] == m0[k].(ls := m[k].ls, lf := m[k].lf);
    }
  }

  /** The activities `t[..i]` satisfy the forward-pass equations. */
  ghost predicate EarlyPrefix(m: Registry, t: seq<string>, i: int)
    requires PredecessorsExist(m) && AllIn(t, m) && 0 <= i <= |t|
  {
    forall n :: 0 <= n < i ==> EarlyTimes(m, t[n])
  }

  /** An id of a sequence without repeats does not occur before its own position. */
  lemma NotEarlier(t: seq<string>, i: int, n: int)
    requires Distinct(t) && 0 <= n <= i < |t|
    ensures t[i] !in t[..n]
  {
  }

  /** An id of a sequence without repeats does not occur after its own position. */
  lemma NotLater(t: seq<string>, i: int, n: int)
    requires Distinct(t) && 0 <= i <= n < |t|
    ensures t[i] !in t[n + 1..]
  {
    var later := t[n + 1..];
    forall j | 0 <= j < |later|
      ensures later[j] != t[i]
    {
      assert later[j] == t[n + 1 + j];
    }
  }

  /** In a topological order `t[i]` is not a predecessor of any activity at or before position `i`. */
  lemma NotPredecessorOfEarlier(m: Registry, t: seq<string>, i: int, n: int)
    requires IsTopoOrder(m, t) && 0 <= n <= i < |t|
    ensures t[i] !in m[t[n]].predecessors
  {
    NotEarlier(t, i, n);
    assert forall p :: p in m[t[n]].predecessors ==> p in t[..n];
  }

  /** In a successor order `t[i]` is not a successor of any activity at or after position `i`. */
  lemma NotSuccessorOfLater(m: Registry, t: seq<string>, i: int, n: int)
    requires SuccessorsExist(m) && IsSuccessorOrder(m, t) && 0 <= i <= n < |t|
    ensures t[i] !in m[t[n]].successors
  {
    SuccessorsLater(m, t, n);
    NotLater(t, i, n);
  }

  /**
    Giving `u` the earliest start `es` its predecessors call for keeps the
    forward equation of `k`, or for `k == u` establishes it, when `u` is
    not among the predecessors of `k`.
  */
  lemma EarlyKept(m: Registry, k: string, u: string, es: real)
    requires PredecessorsExist(m) && k in m && u in m
    requires u !in m[k].predecessors
    requires k != u ==> EarlyTimes(m, k)
    requires es == MaxFinish(m, m[u].predecessors)
    ensures PredecessorsExist(SetEarly(m, u, es)) && EarlyTimes(SetEarly(m, u, es), k)
  {
    var m' := SetEarly(m, u, es);
    assert SameEdges(m, m');
    SameEdgesAgree(m, m');
    MaxFinishFrame(m, m', m[k].predecessors);
  }

  /**
    Giving `u` the latest finish `lf` its successors call for keeps the
    backward equation of `k`, or for `k == u` establishes it, when `u` is
    not among the successors of `k`.
  */
  lemma LateKept(m: Registry, k: string, u: string, d: real, lf: real)
    requires SuccessorsExist(m) && k in m && u in m
    requires u !in m[k].successors
    requires k != u ==> LateTimes(m, k, d)
    requires lf == LatestFinish(m, u, d)
    ensures SuccessorsExist(SetLate(m, u, lf)) && LateTimes(SetLate(m, u, lf), k, d)
  {
    var m' := SetLate(m, u, lf);
    assert SameEdges(m, m');
    SameEdgesAgree(m, m');
    if m[k].successors != [] {
      MinStartFrame(m, m', m[k].successors);
    }
  }

  /**
    One step of the forward pass along a topological order: giving `t[i]`
    its earliest times keeps the equations of the activities before it and
    extends the running project duration by its finish.
  */
  lemma ForwardStep(m: Registry, t: seq<string>, i: int, es: real)
    requires PredecessorsExist(m) && IsTopoOrder(m, t) && 0 <= i < |t|
    requires EarlyPrefix(m, t, i)
    requires es == MaxFinish(m, m[t[i]].predecessors)
    ensures var m' := SetEarly(m, t[i], es);
      && OnlyEarlyChanged(m, m') && PredecessorsExist(m') && IsTopoOrder(m', t)
      && EarlyPrefix(m', t, i + 1)
      && MaxFinish(m', t[..i + 1]) == Max(MaxFinish(m, t[..i]), m'[t[i]].ef)
  {
    var m' := SetEarly(m, t[i], es);
    assert SameEdges(m, m');
    SameEdgesOrders(m, m', t);
    EarlyPrefixStep(m, t, i, es);
    RunningFinishStep(m, t, i, m');
  }

  lemma EarlyPrefixStep(m: Registry, t: seq<string>, i: int, es: real)
    requires PredecessorsExist(m) && IsTopoOrder(m, t) && 0 <= i < |t|
    requires EarlyPrefix(m, t, i)
    requires es == MaxFinish(m, m[t[i]].predecessors)
    ensures PredecessorsExist(SetEarly(m, t[i], es)) && EarlyPrefix(SetEarly(m, t[i], es), t, i + 1)
  {
    NotPredecessorOfEarlier(m, t, i, i);
    EarlyKept(m, t[i], t[i], es);
    forall n | 0 <= n < i
      ensures EarlyTimes(SetEarly(m, t[i], es), t[n])
    {
      NotPredecessorOfEarlier(m, t, i, n);
      EarlyKept(m, t[n], t[i], es);
    }
  }

  lemma RunningFinishStep(m: Registry, t: seq<string>, i: int, m': Registry)
    requires IsTopoOrder(m, t) && 0 <= i < |t|
    requires t[i] in m' && m'.Keys == m.Keys
    requires forall k :: k in m && k != t[i] ==> m'[k] == m[k]
    ensures AllIn(t, m)
    ensures MaxFinish(m', t[..i + 1]) == Max(MaxFinish(m, t[..i]), m'[t[i]].ef)
  {
    NotEarlier(t, i, i);
    PrefixSnoc(t, i);
    MaxFinishFrame(m, m', t[..i]);
  }

  /** A forward pass over a whole topological order settles every activity. */
  lemma ForwardAll(m: Registry, t: seq<string>)
    requires PredecessorsExist(m) && IsTopoOrder(m, t)
    requires EarlyPrefix(m, t, |t|)
    ensures forall k :: k in m ==> EarlyTimes(m, k)
  {
    forall k | k in m
      ensures EarlyTimes(m, k)
    {
      assert k in t;
      var n :| 0 <= n < |t| && t[n] == k;
    }
  }

  /** The activities `t[i..]` satisfy the backward-pass equations. */
  ghost predicate LateSuffix(m: Registry, t: seq<string>, i: int, d: real)
    requires SuccessorsExist(m) && AllIn(t, m) && 0 <= i <= |t|
  {
    forall n :: i <= n < |t| ==> LateTimes(m, t[n], d)
  }

  /**
    One step of the backward pass along a successor order: giving `t[i]`
    its latest times keeps the equations of the activities after it.
  */
  lemma BackwardStep(m: Registry, t: seq<string>, i: int, d: real, lf: real)
    requires SuccessorsExist(m) && IsSuccessorOrder(m, t) && 0 <= i < |t|
    requires LateSuffix(m, t, i + 1, d)
    requires lf == LatestFinish(m, t[i], d)
    ensures var m' := SetLate(m, t[i], lf);
      && OnlyLateChanged(m, m') && SuccessorsExist(m') && IsSuccessorOrder(m', t)
      && LateSuffix(m', t, i, d)
  {
    var m' := SetLate(m, t[i], lf);
    assert SameEdges(m, m');
    SameEdgesOrders(m, m', t);
    LateSuffixStep(m, t, i, d, lf);
  }

  lemma LateSuffixStep(m: Registry, t: seq<string>, i: int, d: real, lf: real)
    requires SuccessorsExist(m) && IsSuccessorOrder(m, t) && 0 <= i < |t|
    requires LateSuffix(m, t, i + 1, d)
    requires lf == LatestFinish(m, t[i], d)
    ensures SuccessorsExist(SetLate(m, t[i], lf)) && LateSuffix(SetLate(m, t[i], lf), t, i, d)
  {
    NotSuccessorOfLater(m, t, i, i);
    LateKept(m, t[i], t[i], d, lf);
    forall n | i < n < |t|
      ensures LateTimes(SetLate(m, t[i], lf), t[n], d)
    {
      NotSuccessorOfLater(m, t, i, n);
      LateKept(m, t[n], t[i], d, lf);
    }
  }

  /** A backward pass over a whole successor order settles every activity. */
  lemma BackwardAll(m: Registry, t: seq<string>, d: real)
    requires SuccessorsExist(m) && IsSuccessorOrder(m, t)
    requires LateSuffix(m, t, 0, d)
    ensures forall k :: k in m ==> LateTimes(m, k, d)
  {
    forall k | k in m
      ensures LateTimes(m, k, d)
    {
      assert k in t;
      var n :| 0 <= n < |t| && t[n] == k;
    }
  }

  /**
    A complete calculation: the graph is linked, `order` is a topological
    order, `d` is the largest earliest finish, and every activity satisfies
    the forward, backward and slack equations.
  */
  ghost predicate Scheduled(m: Registry, order: seq<string>, d: real)
  {
    && Linked(m)
    && IsTopoOrder(m, order)
    && d == MaxFinish(m, order)
    && (forall k :: k in m ==> EarlyTimes(m, k))
    && (forall k :: k in m ==> LateTimes(m, k, d))
    && (forall k :: k in m ==> m[k].slack == m[k].ls - m[k].es)
    && (forall k :: k in m ==> m[k].duration >= 0.0)
  }

  /**
    The stages after the topological sort compose: the earliest times of
    the forward pass survive the backward pass and the slack step, the
    latest times survive the slack step, and edges and declarations stay
    as built.
  */
  lemma ScheduleComplete(m1: Registry, m2: Registry, m3: Registry, m4: Registry, t: seq<string>, d: real)
    requires Linked(m1) && IsTopoOrder(m1, t)
    requires forall k :: k in m1 ==> m1[k].duration >= 0.0
    requires OnlyEarlyChanged(m1, m2) && OnlyLateChanged(m2, m3) && OnlySlackChanged(m3, m4)
    requires PredecessorsExist(m2) && forall k :: k in m2 ==> EarlyTimes(m2, k)
    requires AllIn(t, m2) && d == MaxFinish(m2, t)
    requires SuccessorsExist(m3) && forall k :: k in m3 ==> LateTimes(m3, k, d)
    requires forall k :: k in m4 ==> m4[k].slack == m4[k].ls - m4[k].es
    ensures SameDeclarations(m1, m4) && Scheduled(m4, t, d)
  {
    EarlyChangeKeepsEdges(m1, m2);
    LateChangeKeepsEdges(m2, m3);
    SlackChangeKeepsEdges(m3, m4);
    SameEdgesAgree(m1, m2);
    SameEdgesAgree(m2, m3);
    SameEdgesAgree(m3, m4);
    SameEdgesOrders(m1, m2, t);
    SameEdgesOrders(m2, m3, t);
    SameEdgesOrders(m3, m4, t);
    LateChangeKeepsEarly(m2, m3);
    EarlyFrame(m2, m3, t);
    SlackChangeKeepsTimes(m3, m4);
    EarlyFrame(m3, m4, t);
    LateFrame(m3, m4, d);
    SameDeclarationsTrans(m1, m2, m3);
    SameDeclarationsTrans(m1, m3, m4);
  }

  /** A possible first activity of the critical path: nothing before it and no slack. */
  predicate IsStart(a: Activity)
  {
    a.predecessors == [] && a.slack == 0.0
  }

  /** `s` continues a critical chain at `cur`: no slack and it starts exactly when `cur` finishes. */
  predicate Tight(m: Registry, cur: string, s: string)
    requires cur in m && s in m
  {
    m[s].slack == 0.0 && m[cur].ef == m[s].es
  }

  /** Position of the first start activity in `order`, or |order| when there is none. */
  function StartIndex(m: Registry, order: seq<string>): (i: nat)
    requires AllIn(order, m)
    ensures i <= |order|
    ensures i < |order| ==> IsStart(m[order[i]])
    ensures forall j :: 0 <= j < i ==> !IsStart(m[order[j]])
  {
    if order == [] then 0
    else if IsStart(m[order[0]]) then 0
    else 1 + StartIndex(m, order[1..])
  }

  /** Position of the first successor in `ss` that is tight at `cur`, or |ss| when there is none. */
  function TightIndex(m: Registry, cur: string, ss: seq<string>): (i: nat)
    requires cur in m && forall s :: s in ss ==> s in m
    ensures i <= |ss|
    ensures i < |ss| ==> Tight(m, cur, ss[i])
    ensures forall j :: 0 <= j < i ==> !Tight(m, cur, ss[j])
  {
    if ss == [] then 0
    else if Tight(m, cur, ss[0]) then 0
    else 1 + TightIndex(m, cur, ss[1..])
  }

  /** The activity the critical path moves to after `cur`: its first tight successor, if any. */
  function NextOnPath(m: Registry, cur: string): (r: Option<string>)
    requires cur in m && SuccessorsExist(m)
    ensures r.None? <==> forall s :: s in m[cur].successors ==> !Tight(m, cur, s)
    ensures r.Some? ==> r.value in m[cur].successors && Tight(m, cur, r.value)
  {
    var ss := m[cur].successors;
    var i := TightIndex(m, cur, ss);
    if i < |ss| then Some(ss[i]) else None
  }

  /** Each activity of `cp` after the first is the tight successor the one before it moves to. */
  ghost predicate IsChain(m: Registry, cp: seq<string>)
    requires SuccessorsExist(m) && AllIn(cp, m)
  {
    forall i :: 0 <= i < |cp| - 1 ==> NextOnPath(m, cp[i]) == Some(cp[i + 1])
  }

  /** A chain extended by the tight successor of its last activity is a chain. */
  lemma ChainSnoc(m: Registry, cp: seq<string>, next: string)
    requires SuccessorsExist(m) && AllIn(cp, m) && cp != [] && IsChain(m, cp)
    requires NextOnPath(m, cp[|cp| - 1]) == Some(next)
    ensures AllIn(cp + [next], m) && IsChain(m, cp + [next])
  {
    var cp' := cp + [next];
    forall i | 0 <= i < |cp'| - 1
      ensures NextOnPath(m, cp'[i]) == Some(cp'[i + 1])
    {
      assert cp'[i] == cp[i];
    }
  }

  /**
    `cp` is the critical path derived from `order`: empty when no activity
    of `order` is a start; otherwise it begins at the first start and each
    step moves to the first tight successor until there is none.
  */
  ghost predicate IsCriticalWalk(m: Registry, order: seq<string>, cp: seq<string>)
    requires SuccessorsExist(m) && AllIn(order, m)
  {
    var first := StartIndex(m, order);
    if first == |order| then cp == []
    else
      && cp != []
      && AllIn(cp, m)
      && cp[0] == order[first]
      && IsChain(m, cp)
      && NextOnPath(m, cp[|cp| - 1]) == None
  }
}
