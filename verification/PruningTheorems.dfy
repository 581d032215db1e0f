/** What a prune plan does to the snapshots there are: exact counts, age, and what a second pass finds. */
module PruningTheorems {
  import opened Pruning

  /** The snapshots whose names are not on the plan. */
  function Survivors(s: seq<Snapshot>, plan: seq<Snapshot>): seq<Snapshot> {
    if s == [] then []
    else
      var last := s[|s| - 1];
      Survivors(s[..|s| - 1], plan) + if last.id in Ids(plan) then [] else [last]
  }

  function TotalExcess(s: seq<Snapshot>, n: nat): nat
    requires n <= |RETENTION_LIMITS|
  {
    if n == 0 then 0 else TotalExcess(s, n - 1) + Excess(s, RETENTION_LIMITS[n - 1].0, RETENTION_LIMITS[n - 1].1)
  }

  // ----- counting ------------------------------------------------------------------------

  lemma {:induction false} OfClassCounts(s: seq<Snapshot>, class_: Retention, e: Snapshot)
    ensures multiset(OfClass(s, class_))[e] == if e.retention == class_ then multiset(s)[e] else 0
  {
    if s != [] {
      OfClassCounts(s[..|s| - 1], class_, e);
      assert s == s[..|s| - 1] + [s[|s| - 1]];
    }
  }

  lemma {:induction false} SurvivorsCount(s: seq<Snapshot>, plan: seq<Snapshot>, e: Snapshot)
    ensures multiset(Survivors(s, plan))[e] == if e.id in Ids(plan) then 0 else multiset(s)[e]
  {
    if s != [] {
      SurvivorsCount(s[..|s| - 1], plan, e);
      assert s == s[..|s| - 1] + [s[|s| - 1]];
    }
  }

  lemma {:induction false} DistinctCountsOnce(s: seq<Snapshot>, e: Snapshot)
    requires DistinctIds(s)
    ensures multiset(s)[e] <= 1
  {
    if s != [] {
      var front, last := s[..|s| - 1], s[|s| - 1];
      DistinctCountsOnce(front, e);
      assert s == front + [last];
      forall i | 0 <= i < |front|
        ensures front[i] != last
      {
        assert s[i].id != s[|front|].id;
      }
    }
  }

  lemma OldestCounts(s: seq<Snapshot>, sort: Sorter, class_: Retention, limit: nat, e: Snapshot)
    requires Sorts(sort)
    ensures |Oldest(s, sort, class_, limit)| == Excess(s, class_, limit)
    ensures multiset(Oldest(s, sort, class_, limit))[e] <= if e.retention == class_ then multiset(s)[e] else 0
  {
    hide OfClass;
    var of, sorted, excess := OfClass(s, class_), sort(OfClass(s, class_)), Excess(s, class_, limit);
    SortedLength(of, sort);
    OfClassCounts(s, class_, e);
    assert sorted == sorted[..excess] + sorted[excess..];
    assert multiset(sorted) == multiset(of);
  }

  /** The excess is part of the snapshots, each as often as it is there, and only of the classes so far. */
  lemma {:induction false} ExcessIsPart(s: seq<Snapshot>, sort: Sorter, n: nat, e: Snapshot)
    requires Sorts(sort) && n <= |RETENTION_LIMITS|
    ensures |AllExcess(s, sort, n)| == TotalExcess(s, n)
    ensures multiset(AllExcess(s, sort, n))[e] <= multiset(s)[e]
    ensures e in AllExcess(s, sort, n) ==> exists k :: 0 <= k < n && RETENTION_LIMITS[k].0 == e.retention
  {
    hide Oldest, Excess, Sorts;
    if n > 0 {
      ExcessIsPart(s, sort, n - 1, e);
      var more := Oldest(s, sort, RETENTION_LIMITS[n - 1].0, RETENTION_LIMITS[n - 1].1);
      OldestCounts(s, sort, RETENTION_LIMITS[n - 1].0, RETENTION_LIMITS[n - 1].1, e);
      assert e in more ==> multiset(more)[e] > 0;
    }
  }

  lemma PlanIsPart(s: seq<Snapshot>, sort: Sorter)
    requires Sorts(sort)
    ensures multiset(Plan(s, sort)) <= multiset(s)
    ensures forall e | e in Plan(s, sort) :: e in s && !e.retention.Manual?
  {
    hide AllExcess;
    var all := AllExcess(s, sort, |RETENTION_LIMITS|);
    forall e
      ensures multiset(Plan(s, sort))[e] <= multiset(s)[e]
      ensures e in Plan(s, sort) ==> e in s && !e.retention.Manual?
    {
      ExcessIsPart(s, sort, |RETENTION_LIMITS|, e);
      assert all == FirstOf(all, PLAN_CAPACITY) + all[|FirstOf(all, PLAN_CAPACITY)|..];
      assert e in Plan(s, sort) ==> multiset(Plan(s, sort))[e] > 0;
    }
  }

  /** Pruning takes away exactly the plan, from every class. */
  lemma SurvivorsPerClass(s: seq<Snapshot>, plan: seq<Snapshot>, class_: Retention)
    requires DistinctIds(s) && multiset(plan) <= multiset(s)
    ensures |OfClass(Survivors(s, plan), class_)| + |OfClass(plan, class_)| == |OfClass(s, class_)|
  {
    var a, b, c := OfClass(Survivors(s, plan), class_), OfClass(plan, class_), OfClass(s, class_);
    hide OfClass;
    forall e
      ensures multiset(c)[e] == multiset(a)[e] + multiset(b)[e]
    {
      OfClassCounts(Survivors(s, plan), class_, e);
      OfClassCounts(plan, class_, e);
      OfClassCounts(s, class_, e);
      SurvivorsCount(s, plan, e);
      DistinctCountsOnce(s, e);
      NameMeansMember(s, plan, e);
    }
    assert multiset(c) == multiset(a) + multiset(b);
    assert |multiset(c)| == |multiset(a)| + |multiset(b)|;
  }

  /** With distinct names, a name on the plan is that of the planned snapshot. */
  lemma NameMeansMember(s: seq<Snapshot>, plan: seq<Snapshot>, e: Snapshot)
    requires DistinctIds(s) && multiset(plan) <= multiset(s)
    ensures multiset(s)[e] > 0 && e.id in Ids(plan) ==> multiset(plan)[e] > 0
    ensures e.id !in Ids(plan) ==> multiset(plan)[e] == 0
    ensures multiset(plan)[e] > 0 ==> multiset(s)[e] > 0
  {
    if e in plan {
      var k :| 0 <= k < |plan| && plan[k] == e;
      assert Ids(plan)[k] == e.id;
    }
    if e in s && e.id in Ids(plan) {
      var k :| 0 <= k < |plan| && Ids(plan)[k] == e.id;
      assert plan[k] in multiset(plan) && plan[k] in multiset(s);
      var i :| 0 <= i < |s| && s[i] == plan[k];
      var j :| 0 <= j < |s| && s[j] == e;
      assert i == j;
    }
  }

  lemma {:induction false} ClassesAddUp(plan: seq<Snapshot>)
    requires forall e | e in plan :: !e.retention.Manual?
    ensures |plan| ==
            |OfClass(plan, Hourly)| + |OfClass(plan, Daily)| + |OfClass(plan, Weekly)| + |OfClass(plan, Monthly)|
  {
    if plan != [] {
      assert forall e | e in plan[..|plan| - 1] :: e in plan;
      ClassesAddUp(plan[..|plan| - 1]);
      assert plan[|plan| - 1] in plan;
    }
  }

  // ----- main results --------------------------------------------------------------------

  /** Only snapshots of the schedule's classes are ever doomed, never a manual one, and no more than 64. */
  lemma PlanIsSound(s: seq<Snapshot>, sort: Sorter)
    requires Sorts(sort)
    ensures |Plan(s, sort)| <= 64
    ensures forall e | e in Plan(s, sort) :: e in s && !e.retention.Manual?
  {
    PlanIsPart(s, sort);
  }

  /** The class that is listed at place `k`. */
  lemma LimitOfClass(class_: Retention) returns (k: nat)
    requires !class_.Manual?
    ensures k < |RETENTION_LIMITS| && RETENTION_LIMITS[k].0 == class_
    ensures forall j | 0 <= j < |RETENTION_LIMITS| && RETENTION_LIMITS[j].0 == class_ :: j == k
  {
    k := match class_ case Hourly => 0 case Daily => 1 case Weekly => 2 case Monthly => 3;
  }

  lemma {:induction false} OfClassAppend(a: seq<Snapshot>, b: seq<Snapshot>, class_: Retention)
    ensures OfClass(a + b, class_) == OfClass(a, class_) + OfClass(b, class_)
  {
    if b == [] {
      assert a + b == a;
    } else {
      OfClassAppend(a, b[..|b| - 1], class_);
      assert (a + b)[..|a + b| - 1] == a + b[..|b| - 1];
    }
  }

  lemma {:induction false} OfClassAll(s: seq<Snapshot>, class_: Retention, same: Retention)
    requires forall e | e in s :: e.retention == class_
    ensures OfClass(s, same) == if same == class_ then s else []
  {
    if s != [] {
      assert s == s[..|s| - 1] + [s[|s| - 1]];
      OfClassAll(s[..|s| - 1], class_, same);
    }
  }

  lemma OldestIsOfClass(s: seq<Snapshot>, sort: Sorter, class_: Retention, limit: nat)
    requires Sorts(sort)
    ensures forall e | e in Oldest(s, sort, class_, limit) :: e.retention == class_
  {
    hide Oldest;
    forall e | e in Oldest(s, sort, class_, limit)
      ensures e.retention == class_
    {
      OldestCounts(s, sort, class_, limit, e);
      assert multiset(Oldest(s, sort, class_, limit))[e] > 0;
    }
  }

  /** Before the plan is cut, each class has given exactly its oldest in excess. */
  lemma {:induction false} ExcessOfClass(s: seq<Snapshot>, sort: Sorter, n: nat, k: nat)
    requires Sorts(sort) && k < n <= |RETENTION_LIMITS|
    ensures OfClass(AllExcess(s, sort, n), RETENTION_LIMITS[k].0) ==
            Oldest(s, sort, RETENTION_LIMITS[k].0, RETENTION_LIMITS[k].1)
  {
    hide Oldest, Sorts, OfClass;
    var class_, last := RETENTION_LIMITS[k].0, RETENTION_LIMITS[n - 1];
    var more := Oldest(s, sort, last.0, last.1);
    OfClassAppend(AllExcess(s, sort, n - 1), more, class_);
    OldestIsOfClass(s, sort, last.0, last.1);
    OfClassAll(more, last.0, class_);
    if k < n - 1 {
      ExcessOfClass(s, sort, n - 1, k);
    } else {
      NoneBefore(s, sort, n - 1, class_);
    }
  }

  lemma ExcessUnfolds(s: seq<Snapshot>, sort: Sorter, n: nat, class_: Retention)
    requires n <= |RETENTION_LIMITS|
    ensures n == 0 ==> AllExcess(s, sort, n) == [] && OfClass([], class_) == []
    ensures n > 0 ==> AllExcess(s, sort, n) ==
                      AllExcess(s, sort, n - 1) + Oldest(s, sort, RETENTION_LIMITS[n - 1].0, RETENTION_LIMITS[n - 1].1)
  {
    hide Oldest;
  }

  lemma {:induction false} NoneBefore(s: seq<Snapshot>, sort: Sorter, n: nat, class_: Retention)
    requires Sorts(sort) && n <= |RETENTION_LIMITS| && forall k | 0 <= k < n :: RETENTION_LIMITS[k].0 != class_
    ensures OfClass(AllExcess(s, sort, n), class_) == []
  {
    hide *;
    ExcessUnfolds(s, sort, n, class_);
    if n > 0 {
      var last := RETENTION_LIMITS[n - 1];
      var more := Oldest(s, sort, last.0, last.1);
      NoneBefore(s, sort, n - 1, class_);
      OfClassAppend(AllExcess(s, sort, n - 1), more, class_);
      OldestIsOfClass(s, sort, last.0, last.1);
      OfClassAll(more, last.0, class_);
    }
  }

  /**
    What a class loses to the plan: a prefix of its snapshots in order of age; all of its excess
    if nothing was cut.
    */
  lemma PlanOfClass(s: seq<Snapshot>, sort: Sorter, k: nat)
    requires Sorts(sort) && k < |RETENTION_LIMITS|
    ensures OfClass(Plan(s, sort), RETENTION_LIMITS[k].0) <=
            Oldest(s, sort, RETENTION_LIMITS[k].0, RETENTION_LIMITS[k].1)
    ensures TotalExcess(s, |RETENTION_LIMITS|) <= PLAN_CAPACITY ==>
              OfClass(Plan(s, sort), RETENTION_LIMITS[k].0) ==
                Oldest(s, sort, RETENTION_LIMITS[k].0, RETENTION_LIMITS[k].1)
  {
    hide Oldest, Sorts, OfClass, AllExcess, Excess, TotalExcess;
    var all := AllExcess(s, sort, |RETENTION_LIMITS|);
    var plan := Plan(s, sort);
    ExcessOfClass(s, sort, |RETENTION_LIMITS|, k);
    ExcessIsPart(s, sort, |RETENTION_LIMITS|, Snapshot(0, 0, Manual));
    assert all == plan + all[|plan|..];
    OfClassAppend(plan, all[|plan|..], RETENTION_LIMITS[k].0);
  }

  /** With room for the whole excess, each class loses exactly what it has too much. */
  lemma EachClassLosesItsExcess(s: seq<Snapshot>, sort: Sorter, k: nat)
    requires Sorts(sort) && k < |RETENTION_LIMITS| && TotalExcess(s, |RETENTION_LIMITS|) <= PLAN_CAPACITY
    ensures |OfClass(Plan(s, sort), RETENTION_LIMITS[k].0)| == Excess(s, RETENTION_LIMITS[k].0, RETENTION_LIMITS[k].1)
  {
    hide OfClass, Oldest, Plan, TotalExcess;
    PlanOfClass(s, sort, k);
    OldestCounts(s, sort, RETENTION_LIMITS[k].0, RETENTION_LIMITS[k].1, Snapshot(0, 0, Manual));
  }

  /** Cut or not, no survivor is older than a doomed snapshot of its class. */
  lemma SurvivorsAreNewer(s: seq<Snapshot>, sort: Sorter, doomed: Snapshot, survivor: Snapshot)
    requires Sorts(sort) && doomed in Plan(s, sort) && survivor in Survivors(s, Plan(s, sort))
    requires doomed.retention == survivor.retention
    ensures doomed.createdMs <= survivor.createdMs
  {
    hide Sorts, Plan, OfClass, Oldest, Survivors;
    var plan, class_ := Plan(s, sort), doomed.retention;
    PlanIsPart(s, sort);
    var k := LimitOfClass(class_);
    PlanOfClass(s, sort, k);
    OfClassCounts(plan, class_, doomed);
    OfClassCounts(plan, class_, survivor);
    OfClassCounts(s, class_, survivor);
    SurvivorsCount(s, plan, survivor);
    assert multiset(plan)[doomed] > 0;
    assert multiset(Survivors(s, plan))[survivor] > 0;
    NotPlanned(plan, survivor);
    PrefixIsOlder(s, sort, k, OfClass(plan, class_), doomed, survivor);
  }

  lemma NotPlanned(plan: seq<Snapshot>, e: Snapshot)
    requires e.id !in Ids(plan)
    ensures e !in plan
  {
    forall k | 0 <= k < |plan|
      ensures plan[k] != e
    {
      assert Ids(plan)[k] == plan[k].id;
    }
  }

  lemma PrefixIsOlder(s: seq<Snapshot>, sort: Sorter, k: nat, prefix: seq<Snapshot>, inside: Snapshot,
                      outside: Snapshot)
    requires Sorts(sort) && k < |RETENTION_LIMITS|
    requires prefix <= Oldest(s, sort, RETENTION_LIMITS[k].0, RETENTION_LIMITS[k].1)
    requires multiset(prefix)[inside] > 0 && multiset(prefix)[outside] == 0
    requires multiset(OfClass(s, RETENTION_LIMITS[k].0))[outside] > 0
    ensures inside.createdMs <= outside.createdMs
  {
    hide OfClass, Excess;
    var sorted := sort(OfClass(s, RETENTION_LIMITS[k].0));
    assert prefix <= sorted && multiset(sorted)[outside] > 0 && SortedByAge(sorted);
    var i :| 0 <= i < |prefix| && prefix[i] == inside;
    var j :| 0 <= j < |sorted| && sorted[j] == outside;
    forall m | 0 <= m < |prefix|
      ensures prefix[m] != outside
    {
      assert multiset(prefix)[prefix[m]] > 0;
    }
  }

  /** A second pass over what is left finds nothing to do exactly when the first had room for the whole excess. */
  lemma SecondPassFindsNothingExactly(s: seq<Snapshot>, sort: Sorter)
    requires Sorts(sort) && DistinctIds(s)
    ensures Plan(Survivors(s, Plan(s, sort)), sort) == [] <==> TotalExcess(s, |RETENTION_LIMITS|) <= 64
  {
    hide Sorts, OfClass, Oldest, Survivors, DistinctIds, AllExcess;
    var plan := Plan(s, sort);
    var rest := Survivors(s, plan);
    PlanIsPart(s, sort);
    ClassesAddUp(plan);
    forall k | 0 <= k < |RETENTION_LIMITS|
      ensures |OfClass(plan, RETENTION_LIMITS[k].0)| <= Excess(s, RETENTION_LIMITS[k].0, RETENTION_LIMITS[k].1)
      ensures Excess(rest, RETENTION_LIMITS[k].0, RETENTION_LIMITS[k].1) ==
              Excess(s, RETENTION_LIMITS[k].0, RETENTION_LIMITS[k].1) - |OfClass(plan, RETENTION_LIMITS[k].0)|
    {
      PlanOfClass(s, sort, k);
      OldestCounts(s, sort, RETENTION_LIMITS[k].0, RETENTION_LIMITS[k].1, Snapshot(0, 0, Manual));
      SurvivorsPerClass(s, plan, RETENTION_LIMITS[k].0);
    }
    ExcessIsPart(s, sort, |RETENTION_LIMITS|, Snapshot(0, 0, Manual));
    ExcessIsPart(rest, sort, |RETENTION_LIMITS|, Snapshot(0, 0, Manual));
    TotalOfFour(s);
    TotalOfFour(rest);
  }

  lemma TotalOfFour(s: seq<Snapshot>)
    ensures TotalExcess(s, |RETENTION_LIMITS|) ==
            Excess(s, RETENTION_LIMITS[0].0, RETENTION_LIMITS[0].1)
            + Excess(s, RETENTION_LIMITS[1].0, RETENTION_LIMITS[1].1)
            + Excess(s, RETENTION_LIMITS[2].0, RETENTION_LIMITS[2].1)
            + Excess(s, RETENTION_LIMITS[3].0, RETENTION_LIMITS[3].1)
  {
    hide Excess;
    assert TotalExcess(s, 0) == 0;
    assert TotalExcess(s, 2) == TotalExcess(s, 1) + Excess(s, RETENTION_LIMITS[1].0, RETENTION_LIMITS[1].1);
    assert TotalExcess(s, 3) == TotalExcess(s, 2) + Excess(s, RETENTION_LIMITS[2].0, RETENTION_LIMITS[2].1);
  }

  // ----- the schedule --------------------------------------------------------------------

  /** How many snapshots of a class the schedule keeps: a day of hours, a week of days, a month, a year. */
  function Kept(class_: Retention): nat
    requires !class_.Manual?
  {
    match class_
    case Hourly => 24
    case Daily => 7
    case Weekly => 4
    case Monthly => 12
  }

  /** How many of a class are there beyond those. */
  function Beyond(s: seq<Snapshot>, class_: Retention): nat
    requires !class_.Manual?
  {
    if |OfClass(s, class_)| > Kept(class_) then |OfClass(s, class_)| - Kept(class_) else 0
  }

  function AllBeyond(s: seq<Snapshot>): nat {
    Beyond(s, Hourly) + Beyond(s, Daily) + Beyond(s, Weekly) + Beyond(s, Monthly)
  }

  lemma ExcessIsBeyond(s: seq<Snapshot>)
    ensures |RETENTION_LIMITS| == 4 && TotalExcess(s, 4) == AllBeyond(s)
    ensures forall k | 0 <= k < 4 ::
              var (class_, limit) := RETENTION_LIMITS[k];
              !class_.Manual? && Excess(s, class_, limit) == Beyond(s, class_)
  {
    TotalOfFour(s);
    hide OfClass;
  }

  /**
    One pass over snapshots of distinct names takes what is beyond the schedule, 64 at most: it meets
    the schedule exactly when no more than that is beyond it, and then keeps as many of each class
    as there were, up to 24, 7, 4 and 12. Manual snapshots are all kept.
    */
  lemma OnePassMeetsScheduleExactly(s: seq<Snapshot>, sort: Sorter)
    requires Sorts(sort) && DistinctIds(s)
    ensures var rest := Survivors(s, Plan(s, sort));
            && |Plan(s, sort)| == (if AllBeyond(s) <= 64 then AllBeyond(s) else 64)
            && (AllBeyond(rest) == 0 <==> AllBeyond(s) <= 64)
            && (AllBeyond(s) <= 64 ==>
                  forall c: Retention | !c.Manual? :: |OfClass(rest, c)| == |OfClass(s, c)| - Beyond(s, c))
            && |OfClass(rest, Manual)| == |OfClass(s, Manual)|
  {
    hide Sorts, OfClass, Oldest, Survivors, DistinctIds, AllExcess, Excess, TotalExcess, Plan;
    var plan := Plan(s, sort);
    var rest := Survivors(s, plan);
    ExcessIsBeyond(s);
    ExcessIsBeyond(rest);
    PlanLength(s, sort);
    PlanIsPart(s, sort);
    SecondPassFindsNothingExactly(s, sort);
    PlanLength(rest, sort);
    SurvivorsPerClass(s, plan, Manual);
    NoManual(plan);
    if AllBeyond(s) <= 64 {
      forall c: Retention | !c.Manual?
        ensures |OfClass(rest, c)| == |OfClass(s, c)| - Beyond(s, c)
      {
        SurvivorsPerClass(s, plan, c);
        var k := LimitOfClass(c);
        EachClassLosesItsExcess(s, sort, k);
      }
    }
  }

  lemma PlanLength(s: seq<Snapshot>, sort: Sorter)
    requires Sorts(sort)
    ensures |Plan(s, sort)| == if AllBeyond(s) <= 64 then AllBeyond(s) else 64
  {
    hide Sorts, OfClass, AllExcess, Excess, TotalExcess;
    ExcessIsBeyond(s);
    ExcessIsPart(s, sort, |RETENTION_LIMITS|, Snapshot(0, 0, Manual));
    hide AllBeyond;
  }

  lemma {:induction false} NoManual(plan: seq<Snapshot>)
    requires forall e | e in plan :: !e.retention.Manual?
    ensures OfClass(plan, Manual) == []
  {
    if plan != [] {
      assert plan[|plan| - 1] in plan && forall e | e in plan[..|plan| - 1] :: e in plan;
      NoManual(plan[..|plan| - 1]);
    }
  }
}
