/**
  The activity record and the registry that holds the activities.

  An activity is identified by a non-empty id, has a non-negative duration
  and the ids of the activities it depends on. Its successors and its five
  times (earliest and latest start and finish, and slack) are derived by a
  calculation. Times are modelled as reals.
*/
module Activities {

  datatype Option<T> = None | Some(value: T)

  datatype Activity = Activity(
    id: string,
    duration: real,
    predecessors: seq<string>,
    successors: seq<string>,
    es: real,
    ef: real,
    ls: real,
    lf: real,
    slack: real)

  /** The activities, keyed by id. */
  type Registry = map<string, Activity>

  /** A newly declared activity: no successors yet and every time zero. */
  function NewActivity(id: string, duration: real, predecessors: seq<string>): Activity
  {
    Activity(id, duration, predecessors, [], 0.0, 0.0, 0.0, 0.0, 0.0)
  }

  /** `a` and `b` agree on everything the caller declared: id, duration and predecessors. */
  predicate SameDeclaration(a: Activity, b: Activity)
  {
    a.id == b.id && a.duration == b.duration && a.predecessors == b.predecessors
  }

  /** Every predecessor named by an activity is itself an activity. */
  ghost predicate PredecessorsExist(m: Registry)
  {
    forall k, p :: k in m && p in m[k].predecessors ==> p in m
  }

  /** Every successor recorded for an activity is itself an activity. */
  ghost predicate SuccessorsExist(m: Registry)
  {
    forall k, s :: k in m && s in m[k].successors ==> s in m
  }

  /** Every id of `ids` is an activity of `m`. */
  ghost predicate AllIn(ids: seq<string>, m: Registry)
  {
    forall p :: p in ids ==> p in m
  }

  /** `m'` differs from `m` at most in successor lists. */
  ghost predicate OnlySuccessorsChanged(m: Registry, m': Registry)
  {
    m'.Keys == m.Keys && forall k :: k in m' ==> m'[k] == m[k].(successors := m'[k].successors)
  }

  /** `m` and `m'` hold the same activities with the same declarations. */
  ghost predicate SameDeclarations(m: Registry, m': Registry)
  {
    m.Keys == m'.Keys && forall k :: k in m ==> SameDeclaration(m[k], m'[k])
  }

  lemma SameDeclarationsTrans(m0: Registry, m1: Registry, m2: Registry)
    requires SameDeclarations(m0, m1) && SameDeclarations(m1, m2)
    ensures SameDeclarations(m0, m2)
  {
    forall k | k in m0
      ensures SameDeclaration(m0[k], m2[k])
    {
      assert SameDeclaration(m0[k], m1[k]) && SameDeclaration(m1[k], m2[k]);
    }
  }
}
