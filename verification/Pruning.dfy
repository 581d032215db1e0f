/**
  Which snapshots the retention schedule deletes (`layout.rs`, `prune_plan`).

  The sort is a parameter: any function that sorts by creation time will do, since an unstable
  sort may order equal times as it likes.
  */
module Pruning {

  datatype Retention = Hourly | Daily | Weekly | Monthly | Manual

  datatype Snapshot = Snapshot(id: nat, createdMs: nat, retention: Retention)

  const RETENTION_LIMITS: seq<(Retention, nat)> := [(Hourly, 24), (Daily, 7), (Weekly, 4), (Monthly, 12)]

  /** How many snapshots of one class, and how many doomed ones, the source makes room for. */
  const CLASS_CAPACITY: nat := 128
  const PLAN_CAPACITY: nat := 64

  type Sorter = seq<Snapshot> -> seq<Snapshot>

  ghost predicate SortedByAge(s: seq<Snapshot>) {
    forall i, j | 0 <= i < j < |s| :: s[i].createdMs <= s[j].createdMs
  }

  /** `sort` sorts, whatever it is given. */
  ghost predicate Sorts(sort: Sorter) {
    forall s :: SortedByAge(sort(s)) && multiset(sort(s)) == multiset(s)
  }

  ghost predicate DistinctIds(s: seq<Snapshot>) {
    forall i, j | 0 <= i < j < |s| :: s[i].id != s[j].id
  }

  function OfClass(s: seq<Snapshot>, class_: Retention): (r: seq<Snapshot>)
    ensures |r| <= |s|
  {
    if s == [] then []
    else
      var last := s[|s| - 1];
      OfClass(s[..|s| - 1], class_) + if last.retention == class_ then [last] else []
  }

  function Excess(s: seq<Snapshot>, class_: Retention, limit: nat): nat {
    var n := |OfClass(s, class_)|;
    if n > limit then n - limit else 0
  }

  function Oldest(s: seq<Snapshot>, sort: Sorter, class_: Retention, limit: nat): seq<Snapshot>
  {
    var sorted := sort(OfClass(s, class_));
    var excess := Excess(s, class_, limit);
    if excess <= |sorted| then sorted[..excess] else sorted
  }

  /** Everything in excess, class by class, for the first `n` classes. */
  function AllExcess(s: seq<Snapshot>, sort: Sorter, n: nat): seq<Snapshot>
    requires n <= |RETENTION_LIMITS|
  {
    if n == 0 then []
    else AllExcess(s, sort, n - 1) + Oldest(s, sort, RETENTION_LIMITS[n - 1].0, RETENTION_LIMITS[n - 1].1)
  }

  function FirstOf<T>(s: seq<T>, n: nat): (r: seq<T>)
    ensures |r| == if |s| <= n then |s| else n
  {
    if |s| <= n then s else s[..n]
  }

  /** The plan has room for 64 names; pushes past that are dropped. */
  function Plan(s: seq<Snapshot>, sort: Sorter): seq<Snapshot> {
    FirstOf(AllExcess(s, sort, |RETENTION_LIMITS|), PLAN_CAPACITY)
  }

  function Ids(s: seq<Snapshot>): seq<nat> {
    seq(|s|, i requires 0 <= i < |s| => s[i].id)
  }

  /** The source keeps each class in a vector of 128 and does not survive an overflow. */
  ghost predicate ClassesFit(s: seq<Snapshot>) {
    forall c: Retention :: !c.Manual? ==> |OfClass(s, c)| <= CLASS_CAPACITY
  }

  method PrunePlan(snapshots: seq<Snapshot>, sort: Sorter) returns (doomed: seq<nat>)
    requires Sorts(sort) && ClassesFit(snapshots)
    ensures doomed == Ids(Plan(snapshots, sort))
  {
    hide *;
    doomed := [];
    ghost var all: seq<Snapshot> := [];
    NothingDoomed(snapshots, sort);
    for c := 0 to |RETENTION_LIMITS|
      invariant all == AllExcess(snapshots, sort, c)
      invariant doomed == Ids(FirstOf(all, PLAN_CAPACITY))
    {
      var class_, limit := RETENTION_LIMITS[c].0, RETENTION_LIMITS[c].1;
      var ofClass := sort(OfClass(snapshots, class_));
      SortedLength(OfClass(snapshots, class_), sort);
      var excess := if |ofClass| > limit then |ofClass| - limit else 0;
      ghost var before := all;
      for k := 0 to excess
        invariant all == before + ofClass[..k]
        invariant doomed == Ids(FirstOf(all, PLAN_CAPACITY))
      {
        PushOne(all, ofClass[k]);
        assert ofClass[..k + 1] == ofClass[..k] + [ofClass[k]];
        if |doomed| < PLAN_CAPACITY { doomed := doomed + [ofClass[k].id]; }
        all := all + [ofClass[k]];
      }
      ExcessStep(snapshots, sort, c);
    }
    PlanIsAll(snapshots, sort);
  }

  lemma NothingDoomed(s: seq<Snapshot>, sort: Sorter)
    ensures AllExcess(s, sort, 0) == [] && Ids(FirstOf([], PLAN_CAPACITY)) == []
  {
  }

  lemma SortedLength(s: seq<Snapshot>, sort: Sorter)
    requires Sorts(sort)
    ensures |sort(s)| == |s|
  {
    assert |multiset(sort(s))| == |multiset(s)|;
  }

  lemma PushOne(all: seq<Snapshot>, x: Snapshot)
    ensures Ids(FirstOf(all + [x], PLAN_CAPACITY)) ==
            Ids(FirstOf(all, PLAN_CAPACITY)) + if |Ids(FirstOf(all, PLAN_CAPACITY))| < PLAN_CAPACITY then [x.id] else []
  {
  }

  lemma ExcessStep(s: seq<Snapshot>, sort: Sorter, c: nat)
    requires Sorts(sort) && c < |RETENTION_LIMITS|
    ensures var sorted, n := sort(OfClass(s, RETENTION_LIMITS[c].0)), |OfClass(s, RETENTION_LIMITS[c].0)|;
            var excess := if n > RETENTION_LIMITS[c].1 then n - RETENTION_LIMITS[c].1 else 0;
            |sorted| == n && AllExcess(s, sort, c + 1) == AllExcess(s, sort, c) + sorted[..excess]
  {
    hide OfClass, Sorts;
    SortedLength(OfClass(s, RETENTION_LIMITS[c].0), sort);
  }

  lemma PlanIsAll(s: seq<Snapshot>, sort: Sorter)
    ensures Plan(s, sort) == FirstOf(AllExcess(s, sort, |RETENTION_LIMITS|), PLAN_CAPACITY)
  {
  }
}
