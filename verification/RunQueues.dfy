/**
  The run queues (`sched.rs`): the interactive queue kept sorted by deadline, the background
  queue searched for eligible threads, and the choice between them.
  */
module RunQueues {
  import opened Wrappers

  type ThreadId = nat

  datatype Entry = Entry(deadline: nat, lag: int, tid: ThreadId)

  datatype QueueError = QueueFull

  const INTERACTIVE_CAPACITY: nat := 64
  const BACKGROUND_CAPACITY: nat := 256

  // ----- threads in order of arrival -----------------------------------------------------

  /** `k` is the first of the earliest deadlines. */
  ghost predicate IsFirstMin(s: seq<Entry>, k: nat) {
    && k < |s|
    && (forall j | 0 <= j < |s| :: s[k].deadline <= s[j].deadline)
    && (forall j | 0 <= j < k :: s[k].deadline < s[j].deadline)
  }

  predicate Sorted(q: seq<Entry>) {
    forall i, j | 0 <= i < j < |q| :: q[i].deadline <= q[j].deadline
  }

  /** `partition_point`: how many leading entries are due no later than `deadline`. */
  function PartitionPoint(q: seq<Entry>, deadline: nat): (pos: nat)
    ensures pos <= |q|
    ensures forall i | 0 <= i < pos :: q[i].deadline <= deadline
    ensures pos < |q| ==> q[pos].deadline > deadline
  {
    if q == [] || q[0].deadline > deadline then 0 else 1 + PartitionPoint(q[1..], deadline)
  }

  function Insert(q: seq<Entry>, e: Entry): seq<Entry> {
    var pos := PartitionPoint(q, e.deadline);
    q[..pos] + [e] + q[pos..]
  }

  /** The arrivals in the order they will be picked. */
  function PickOrder(arrivals: seq<Entry>): (q: seq<Entry>)
    ensures |q| == |arrivals|
  {
    if arrivals == [] then []
    else Insert(PickOrder(arrivals[..|arrivals| - 1]), arrivals[|arrivals| - 1])
  }

  lemma NothingToPick()
    ensures PickOrder([]) == [] && Sorted([])
  {
  }

  lemma PickOrderStep(arrivals: seq<Entry>, e: Entry)
    ensures PickOrder(arrivals + [e]) == Insert(PickOrder(arrivals), e)
  {
    assert (arrivals + [e])[..|arrivals|] == arrivals;
  }

  lemma InsertKeepsSorted(q: seq<Entry>, e: Entry)
    requires Sorted(q)
    ensures Sorted(Insert(q, e)) && multiset(Insert(q, e)) == multiset(q) + multiset{e}
  {
    var pos, q' := PartitionPoint(q, e.deadline), Insert(q, e);
    forall i, j | 0 <= i < j < |q'|
      ensures q'[i].deadline <= q'[j].deadline
    {
      if i == pos {
        assert q'[j] == q[j - 1] && q[pos].deadline <= q[j - 1].deadline;
      } else if j == pos {
        assert q'[i] == q[i];
      }
    }
    InsertAdds(q, pos, e);
    hide Sorted;
  }

  lemma InsertAdds(q: seq<Entry>, pos: nat, e: Entry)
    requires pos <= |q|
    ensures multiset(q[..pos] + [e] + q[pos..]) == multiset(q) + multiset{e}
  {
    assert q == q[..pos] + q[pos..];
  }

  lemma {:induction false} PickOrderIsSorted(arrivals: seq<Entry>)
    ensures Sorted(PickOrder(arrivals)) && multiset(PickOrder(arrivals)) == multiset(arrivals)
  {
    hide Insert, Sorted, PickOrder;
    if arrivals == [] {
      NothingToPick();
    } else {
      var front, last := arrivals[..|arrivals| - 1], arrivals[|arrivals| - 1];
      PickOrderIsSorted(front);
      InsertKeepsSorted(PickOrder(front), last);
      assert arrivals == front + [last];
      PickOrderStep(front, last);
    }
  }

  lemma {:induction false} FirstMinExists(s: seq<Entry>) returns (k: nat)
    requires s != []
    ensures IsFirstMin(s, k)
  {
    if |s| == 1 {
      k := 0;
    } else {
      k := FirstMinExists(s[..|s| - 1]);
      if s[|s| - 1].deadline < s[k].deadline { k := |s| - 1; }
    }
  }

  /** Inserting behind an entry that is due no later leaves it in front. */
  lemma InsertBehind(q: seq<Entry>, e: Entry)
    requires q != [] && q[0].deadline <= e.deadline
    ensures Insert(q, e) == [q[0]] + Insert(q[1..], e)
  {
  }

  lemma InsertInFront(q: seq<Entry>, e: Entry)
    requires forall i | 0 <= i < |q| :: e.deadline < q[i].deadline
    ensures Insert(q, e) == [e] + q
  {
    if q != [] { assert q[0].deadline > e.deadline; }
  }

  /**
    The sorted queue refines the plain list of arrivals: its head is the first arrived of the
    earliest deadlines, and taking it off is the same as taking that entry out of the list.
    */
  lemma {:induction false} HeadIsFirstMin(arrivals: seq<Entry>, k: nat)
    requires IsFirstMin(arrivals, k)
    ensures PickOrder(arrivals)[0] == arrivals[k]
    ensures PickOrder(arrivals)[1..] == PickOrder(RemoveAt(arrivals, k))
  {
    hide Insert, Sorted, PickOrder;
    var n := |arrivals|;
    var front, last := arrivals[..n - 1], arrivals[n - 1];
    assert arrivals == front + [last];
    if k == n - 1 {
      LatestInFront(front, last);
      assert RemoveAt(arrivals, k) == front;
    } else {
      HeadIsFirstMin(front, k);
      PickOrderStep(front, last);
      InsertBehind(PickOrder(front), last);
      assert RemoveAt(arrivals, k) == RemoveAt(front, k) + [last];
      PickOrderStep(RemoveAt(front, k), last);
    }
  }

  lemma LatestInFront(arrivals: seq<Entry>, e: Entry)
    requires forall j | 0 <= j < |arrivals| :: e.deadline < arrivals[j].deadline
    ensures PickOrder(arrivals + [e]) == [e] + PickOrder(arrivals)
  {
    hide Insert, Sorted, PickOrder;
    PickOrderStep(arrivals, e);
    PickOrderIsSorted(arrivals);
    var q := PickOrder(arrivals);
    forall i | 0 <= i < |q|
      ensures e.deadline < q[i].deadline
    {
      assert q[i] in multiset(q);
      assert q[i] in arrivals;
    }
    InsertInFront(q, e);
  }

  // ----- the interactive queue -----------------------------------------------------------

  class InteractiveQueue {
    var slots: seq<Entry>

    constructor ()
      ensures slots == []
    {
      slots := [];
    }

    /** Refused exactly when 64 threads wait; otherwise behind everything due no later. */
    method Enqueue(tid: ThreadId, deadline: nat) returns (r: Result<(), QueueError>)
      modifies this
      ensures if |old(slots)| < 64
              then r == Ok(()) && slots == Insert(old(slots), Entry(deadline, 0, tid))
              else r == Err(QueueFull) && slots == old(slots)
    {
      var pos := PartitionPoint(slots, deadline);
      if |slots| >= INTERACTIVE_CAPACITY { return Err(QueueFull); }
      slots := slots[..pos] + [Entry(deadline, 0, tid)] + slots[pos..];
      r := Ok(());
    }

    method PickNext() returns (r: Option<ThreadId>)
      modifies this
      ensures slots == Rest(old(slots)) && r == Head(old(slots))
    {
      if slots == [] {
        r := None;
      } else {
        r := Some(slots[0].tid);
        slots := slots[1..];
      }
    }
  }

  function Head(q: seq<Entry>): Option<ThreadId> {
    if q == [] then None else Some(q[0].tid)
  }

  function Rest(q: seq<Entry>): seq<Entry> {
    if q == [] then [] else q[1..]
  }

  /** A call on the interactive queue, with what it answered. */
  datatype Call = Enqueue(tid: ThreadId, deadline: nat, ok: bool) | Pick(answer: Option<ThreadId>)

  /** The queue as the code keeps it. */
  ghost predicate QueueStep(q: seq<Entry>, call: Call, q': seq<Entry>) {
    match call
    case Enqueue(tid, deadline, ok) =>
      ok == (|q| < INTERACTIVE_CAPACITY) && q' == if ok then Insert(q, Entry(deadline, 0, tid)) else q
    case Pick(answer) => answer == Head(q) && q' == Rest(q)
  }

  /** The queue as a list of arrivals, from which the first of the earliest deadlines is picked. */
  ghost predicate ArrivalStep(a: seq<Entry>, call: Call, a': seq<Entry>) {
    match call
    case Enqueue(tid, deadline, ok) =>
      ok == (|a| < 64) && a' == if ok then a + [Entry(deadline, 0, tid)] else a
    case Pick(answer) =>
      if a == [] then answer == None && a' == []
      else exists k: nat :: IsFirstMin(a, k) && answer == Some(a[k].tid) && a' == RemoveAt(a, k)
  }

  ghost predicate IsQueueRun(queues: seq<seq<Entry>>, calls: seq<Call>) {
    && |queues| == |calls| + 1 && queues[0] == []
    && forall i | 0 <= i < |calls| :: QueueStep(queues[i], calls[i], queues[i + 1])
  }

  ghost predicate IsArrivalRun(lists: seq<seq<Entry>>, calls: seq<Call>) {
    && |lists| == |calls| + 1 && lists[0] == []
    && forall i | 0 <= i < |calls| :: ArrivalStep(lists[i], calls[i], lists[i + 1])
  }

  lemma CallRefinesArrivals(q: seq<Entry>, call: Call, q': seq<Entry>, a: seq<Entry>) returns (a': seq<Entry>)
    requires QueueStep(q, call, q') && q == PickOrder(a)
    ensures ArrivalStep(a, call, a') && q' == PickOrder(a')
  {
    match call
    case Enqueue(tid, deadline, ok) =>
      var e := Entry(deadline, 0, tid);
      a' := if ok then a + [e] else a;
      assert (a + [e])[..|a|] == a;
    case Pick(answer) =>
      if a == [] {
        a' := [];
      } else {
        var k := FirstMinExists(a);
        HeadIsFirstMin(a, k);
        a' := RemoveAt(a, k);
      }
  }

  /**
    Over any run the answers are those of "earliest deadline first, then first come first served",
    and the queue stays sorted.
    */
  lemma {:induction false} RunRefinesArrivals(queues: seq<seq<Entry>>, calls: seq<Call>)
    returns (lists: seq<seq<Entry>>)
    requires IsQueueRun(queues, calls)
    ensures IsArrivalRun(lists, calls)
    ensures forall i | 0 <= i <= |calls| :: queues[i] == PickOrder(lists[i]) && Sorted(queues[i])
  {
    hide ArrivalStep, PickOrder, Sorted, QueueStep, IsArrivalRun;
    if calls == [] {
      lists := [[]];
      NothingArrived();
    } else {
      var n := |calls| - 1;
      var shorter := RunRefinesArrivals(queues[..n + 1], calls[..n]);
      ArrivalRunLength(shorter, calls[..n]);
      var last := CallRefinesArrivals(queues[n], calls[n], queues[n + 1], shorter[n]);
      lists := shorter + [last];
      PickOrderIsSorted(last);
      ArrivalRunExtends(shorter, calls[..n], calls[n], last);
      assert calls == calls[..n] + [calls[n]];
    }
  }

  lemma NothingArrived()
    ensures IsArrivalRun([[]], []) && PickOrder([]) == [] && Sorted([])
  {
  }

  lemma ArrivalRunLength(lists: seq<seq<Entry>>, calls: seq<Call>)
    requires IsArrivalRun(lists, calls)
    ensures |lists| == |calls| + 1
  {
  }

  lemma ArrivalRunExtends(lists: seq<seq<Entry>>, calls: seq<Call>, call: Call, last: seq<Entry>)
    requires IsArrivalRun(lists, calls) && ArrivalStep(lists[|lists| - 1], call, last)
    ensures IsArrivalRun(lists + [last], calls + [call])
  {
    hide ArrivalStep;
  }

  // ----- the background queue ------------------------------------------------------------

  predicate Eligible(lag: int) {
    lag >= 0
  }

  /** `k` is the first of the earliest deadlines among entries that are owed service. */
  ghost predicate IsEarliestEligible(s: seq<Entry>, k: nat) {
    && k < |s| && Eligible(s[k].lag)
    && (forall j | 0 <= j < |s| && Eligible(s[j].lag) :: s[k].deadline <= s[j].deadline)
    && (forall j | 0 <= j < k && Eligible(s[j].lag) :: s[k].deadline < s[j].deadline)
  }

  class BackgroundQueue {
    var entries: seq<Entry>

    constructor ()
      ensures entries == []
    {
      entries := [];
    }

    method Enqueue(tid: ThreadId, lag: int, deadline: nat) returns (r: Result<(), QueueError>)
      modifies this
      ensures if |old(entries)| < 256
              then r == Ok(()) && entries == old(entries) + [Entry(deadline, lag, tid)]
              else r == Err(QueueFull) && entries == old(entries)
    {
      if |entries| >= BACKGROUND_CAPACITY { return Err(QueueFull); }
      entries := entries + [Entry(deadline, lag, tid)];
      r := Ok(());
    }

    /** The first of the earliest deadlines among those owed service; threads that are not are passed over. */
    method EarliestEligible() returns (best: Option<nat>)
      ensures best.None? ==> forall j | 0 <= j < |entries| :: !Eligible(entries[j].lag)
      ensures best.Some? ==> IsEarliestEligible(entries, best.value)
    {
      best := None;
      for i := 0 to |entries|
        invariant best.None? ==> forall j | 0 <= j < i :: !Eligible(entries[j].lag)
        invariant best.Some? ==> best.value < i && IsEarliestEligible(entries[..i], best.value)
      {
        if Eligible(entries[i].lag) && (best.None? || entries[i].deadline < entries[best.value].deadline) {
          best := Some(i);
        }
      }
      assert entries[..|entries|] == entries;
    }

    method PickEligible() returns (r: Option<ThreadId>)
      modifies this
      ensures r.None? ==> entries == old(entries) && forall j | 0 <= j < |entries| :: !Eligible(entries[j].lag)
      ensures r.Some? ==> exists k: nat :: IsEarliestEligible(old(entries), k) && r.value == old(entries)[k].tid
                                          && entries == RemoveAt(old(entries), k)
    {
      var best := EarliestEligible();
      match best
      case None => r := None;
      case Some(k) =>
        r := Some(entries[k].tid);
        entries := RemoveAt(entries, k);
    }
  }

  /** There is at most one such entry, so the choice is determined. */
  lemma EarliestEligibleIsUnique(s: seq<Entry>, i: nat, j: nat)
    requires IsEarliestEligible(s, i) && IsEarliestEligible(s, j)
    ensures i == j
  {
  }

  // ----- choosing between the classes ----------------------------------------------------

  function Tids(q: seq<Entry>): multiset<ThreadId> {
    if q == [] then multiset{} else multiset{q[0].tid} + Tids(q[1..])
  }

  lemma HeadRest(q: seq<Entry>)
    requires q != []
    ensures Tids(q) == multiset{q[0].tid} + Tids(q[1..])
  {
  }

  lemma {:induction false} TidsWithout(q: seq<Entry>, k: nat)
    requires k < |q|
    ensures Tids(q) == Tids(RemoveAt(q, k)) + multiset{q[k].tid}
  {
    hide Tids;
    HeadRest(q);
    if k == 0 {
      assert RemoveAt(q, k) == q[1..];
    } else {
      TidsWithout(q[1..], k - 1);
      HeadRest(RemoveAt(q, k));
      assert RemoveAt(q, k)[1..] == RemoveAt(q[1..], k - 1);
    }
  }

  /** The three queues of a processor. */
  datatype Queues = Queues(rt: seq<Entry>, interactive: seq<Entry>, background: seq<Entry>) {
    function Waiting(): multiset<ThreadId> { Tids(rt) + Tids(interactive) + Tids(background) }
  }

  /** Nobody may run from the background queue. */
  ghost predicate NoneEligible(s: seq<Entry>) {
    forall j | 0 <= j < |s| :: !Eligible(s[j].lag)
  }

  /** What the background queue does when it is asked. */
  ghost predicate BackgroundPick(s: seq<Entry>, s': seq<Entry>, r: Option<ThreadId>) {
    match r
    case None => s' == s && NoneEligible(s)
    case Some(t) => exists k: nat :: IsEarliestEligible(s, k) && t == s[k].tid && s' == RemoveAt(s, k)
  }

  /**
    One scheduling decision: a real-time thread if there is one; else, on an isolated processor,
    the first interactive thread if it is the owner's; else an interactive thread; else an
    eligible background thread.
    */
  ghost predicate PickStep(s: Queues, owner: Option<nat>, pidOf: ThreadId -> Option<nat>, s': Queues,
                           r: Option<ThreadId>) {
    if s.rt != [] then r == Head(s.rt) && s' == s.(rt := s.rt[1..])
    else if owner.Some? then
      && s' == s.(interactive := Rest(s.interactive))
      && r == if s.interactive != [] && pidOf(s.interactive[0].tid) == owner then Head(s.interactive) else None
    else if s.interactive != [] then r == Head(s.interactive) && s' == s.(interactive := s.interactive[1..])
    else s' == s.(background := s'.background) && BackgroundPick(s.background, s'.background, r)
  }

  /**
    The same for a processor whose two interactive queues are one: it comes first, and what it
    holds is never looked at again as foreign.
    */
  ghost predicate SharedPickStep(q: seq<Entry>, background: seq<Entry>, owner: Option<nat>, q': seq<Entry>,
                                 background': seq<Entry>, r: Option<ThreadId>) {
    if q != [] then r == Head(q) && q' == q[1..] && background' == background
    else
      q' == [] &&
      if owner.Some? then r == None && background' == background else BackgroundPick(background, background', r)
  }

  class CpuContext {
    const rtQueue: InteractiveQueue
    const interactive: InteractiveQueue
    const background: BackgroundQueue

    constructor (rtQueue: InteractiveQueue, interactive: InteractiveQueue, background: BackgroundQueue)
      ensures this.rtQueue == rtQueue && this.interactive == interactive && this.background == background
    {
      this.rtQueue, this.interactive, this.background := rtQueue, interactive, background;
    }

    function State(): Queues
      reads rtQueue, interactive, background
    {
      Queues(rtQueue.slots, interactive.slots, background.entries)
    }

    /** `pick_next`; the owner of an isolated processor and the process of a thread come from elsewhere. */
    method PickNext(owner: Option<nat>, pidOf: ThreadId -> Option<nat>) returns (r: Option<ThreadId>)
      modifies rtQueue, interactive, background
      ensures rtQueue != interactive ==> PickStep(old(State()), owner, pidOf, State(), r)
      ensures rtQueue == interactive ==>
                SharedPickStep(old(rtQueue.slots), old(background.entries), owner, rtQueue.slots, background.entries, r)
    {
      r := rtQueue.PickNext();
      if r.Some? { return; }
      if owner.Some? {
        r := interactive.PickNext();
        if r.Some? && pidOf(r.value) != owner { r := None; }
        return;
      }
      r := interactive.PickNext();
      if r.Some? { return; }
      r := background.PickEligible();
    }
  }

  /** The threads that wait afterwards are those that waited before, less the one picked. */
  ghost predicate Conserves(s: Queues, s': Queues, r: Option<ThreadId>) {
    s.Waiting() == s'.Waiting() + if r.Some? then multiset{r.value} else multiset{}
  }

  /** An isolated processor comes upon a thread that is not its owner's. */
  predicate MeetsForeignThread(s: Queues, owner: Option<nat>, pidOf: ThreadId -> Option<nat>) {
    s.rt == [] && owner.Some? && s.interactive != [] && pidOf(s.interactive[0].tid) != owner
  }

  /** No thread is lost or made up, exactly unless an isolated processor meets a foreign thread: that one is dropped. */
  lemma PickConservesExactly(s: Queues, owner: Option<nat>, pidOf: ThreadId -> Option<nat>, s': Queues,
                             r: Option<ThreadId>)
    requires PickStep(s, owner, pidOf, s', r)
    ensures Conserves(s, s', r) <==> !MeetsForeignThread(s, owner, pidOf)
    ensures MeetsForeignThread(s, owner, pidOf) ==>
            s.Waiting() == s'.Waiting() + multiset{s.interactive[0].tid} && r == None
  {
    hide Tids;
    if s.rt != [] {
      HeadRest(s.rt);
      TakenOut(s.rt[0].tid, Tids(s.rt[1..]), Tids(s.interactive), Tids(s.background));
    } else if s.interactive != [] {
      HeadRest(s.interactive);
      TakenOut(s.interactive[0].tid, Tids(s.interactive[1..]), Tids(s.rt), Tids(s.background));
      OneMore(s'.Waiting(), s.interactive[0].tid);
    } else if owner.None? && r.Some? {
      var k: nat :| IsEarliestEligible(s.background, k) && r.value == s.background[k].tid
        && s'.background == RemoveAt(s.background, k);
      TidsWithout(s.background, k);
    }
  }

  lemma TakenOut(x: ThreadId, rest: multiset<ThreadId>, a: multiset<ThreadId>, b: multiset<ThreadId>)
    ensures multiset{x} + rest + a + b == rest + a + b + multiset{x}
    ensures a + (multiset{x} + rest) + b == a + rest + b + multiset{x}
  {
  }

  lemma OneMore(s: multiset<ThreadId>, x: ThreadId)
    ensures s + multiset{x} != s
  {
    assert (s + multiset{x})[x] == s[x] + 1;
  }

  /** A processor that is not isolated idles exactly when nothing may run. */
  lemma IdlesExactlyWhenNothingMayRun(s: Queues, pidOf: ThreadId -> Option<nat>, s': Queues, r: Option<ThreadId>)
    requires PickStep(s, None, pidOf, s', r)
    ensures r == None <==> s.rt == [] && s.interactive == [] && NoneEligible(s.background)
  {
  }

  /** With one queue for both no thread is ever lost. */
  lemma SharedPickConserves(q: seq<Entry>, background: seq<Entry>, owner: Option<nat>, q': seq<Entry>,
                            background': seq<Entry>, r: Option<ThreadId>)
    requires SharedPickStep(q, background, owner, q', background', r)
    ensures Tids(q) + Tids(background) == Tids(q') + Tids(background') + if r.Some? then multiset{r.value}
            else multiset{}
  {
    hide Tids;
    if q != [] {
      HeadRest(q);
    } else if owner.None? && r.Some? {
      var k: nat :| IsEarliestEligible(background, k) && r.value == background[k].tid
        && background' == RemoveAt(background, k);
      TidsWithout(background, k);
    }
  }

  // ----- runs of a processor -------------------------------------------------------------

  /** A call on one of the three queues, or a decision, with its answer and whose the threads are at the time. */
  datatype Event =
    | EnqueueRt(tid: ThreadId, deadline: nat, ok: bool)
    | EnqueueInteractive(tid: ThreadId, deadline: nat, ok: bool)
    | EnqueueBackground(tid: ThreadId, lag: int, deadline: nat, ok: bool)
    | Choose(owner: Option<nat>, pidOf: ThreadId -> Option<nat>, answer: Option<ThreadId>)

  ghost predicate Step(s: Queues, e: Event, s': Queues) {
    match e
    case EnqueueRt(tid, deadline, ok) => QueueStep(s.rt, Enqueue(tid, deadline, ok), s'.rt) && s' == s.(rt := s'.rt)
    case EnqueueInteractive(tid, deadline, ok) =>
      QueueStep(s.interactive, Enqueue(tid, deadline, ok), s'.interactive) && s' == s.(interactive := s'.interactive)
    case EnqueueBackground(tid, lag, deadline, ok) =>
      && ok == (|s.background| < 256)
      && s' == s.(background := if ok then s.background + [Entry(deadline, lag, tid)] else s.background)
    case Choose(owner, pidOf, answer) => PickStep(s, owner, pidOf, s', answer)
  }

  function Accepted(e: Event): multiset<ThreadId> {
    if !e.Choose? && e.ok then multiset{e.tid} else multiset{}
  }

  function Returned(e: Event): multiset<ThreadId> {
    if e.Choose? && e.answer.Some? then multiset{e.answer.value} else multiset{}
  }

  /** What a decision throws away: the foreign thread an isolated processor comes upon. */
  function Dropped(s: Queues, e: Event): multiset<ThreadId> {
    if e.Choose? && MeetsForeignThread(s, e.owner, e.pidOf) then multiset{s.interactive[0].tid} else multiset{}
  }

  /** How often a thread is in a queue. */
  function Count(q: seq<Entry>, t: ThreadId): nat { Tids(q)[t] }

  lemma {:induction false} CountAppend(a: seq<Entry>, b: seq<Entry>, t: ThreadId)
    ensures Count(a + b, t) == Count(a, t) + Count(b, t)
  {
    hide Count;
    CountNone(t);
    if a == [] {
      assert a + b == b;
    } else {
      CountAppend(a[1..], b, t);
      assert (a + b)[1..] == a[1..] + b && (a + b)[0] == a[0];
      CountFirst(a, t);
      CountFirst(a + b, t);
    }
  }

  lemma CountNone(t: ThreadId)
    ensures Count([], t) == 0
  {
  }

  lemma CountFirst(q: seq<Entry>, t: ThreadId)
    requires q != []
    ensures Count(q, t) == (if q[0].tid == t then 1 else 0) + Count(q[1..], t)
  {
  }

  lemma CountOne(e: Entry, t: ThreadId)
    ensures Count([e], t) == if e.tid == t then 1 else 0
  {
    hide Count;
    CountFirst([e], t);
    CountNone(t);
    assert [e][1..] == [];
  }

  lemma CountInsert(q: seq<Entry>, e: Entry, t: ThreadId)
    ensures Count(Insert(q, e), t) == Count(q, t) + if e.tid == t then 1 else 0
  {
    var pos := PartitionPoint(q, e.deadline);
    assert q == q[..pos] + q[pos..] && Insert(q, e) == q[..pos] + [e] + q[pos..];
    hide Count, Insert;
    CountOne(e, t);
    CountAppend(q[..pos] + [e], q[pos..], t);
    CountAppend(q[..pos], [e], t);
    CountAppend(q[..pos], q[pos..], t);
  }

  lemma CountWaiting(s: Queues, t: ThreadId)
    ensures s.Waiting()[t] == Count(s.rt, t) + Count(s.interactive, t) + Count(s.background, t)
  {
    hide Tids;
  }

  /** One call balances, thread by thread. */
  lemma StepBalances(s: Queues, e: Event, s': Queues, t: ThreadId)
    requires Step(s, e, s')
    ensures s.Waiting()[t] + Accepted(e)[t] == s'.Waiting()[t] + Returned(e)[t] + Dropped(s, e)[t]
  {
    hide Tids, Insert, PickStep, Count, Queues.Waiting;
    CountWaiting(s, t);
    CountWaiting(s', t);
    match e {
      case EnqueueRt(tid, deadline, ok) => CountInsert(s.rt, Entry(deadline, 0, tid), t);
      case EnqueueInteractive(tid, deadline, ok) => CountInsert(s.interactive, Entry(deadline, 0, tid), t);
      case EnqueueBackground(tid, lag, deadline, ok) =>
        CountAppend(s.background, [Entry(deadline, lag, tid)], t);
        CountOne(Entry(deadline, lag, tid), t);
      case Choose(owner, pidOf, answer) => ChooseBalances(s, owner, answer, pidOf, s', t);
    }
  }

  lemma ChooseBalances(s: Queues, owner: Option<nat>, answer: Option<ThreadId>, pidOf: ThreadId -> Option<nat>,
                       s': Queues, t: ThreadId)
    requires PickStep(s, owner, pidOf, s', answer)
    ensures var e := Choose(owner, pidOf, answer);
            s.Waiting()[t] == s'.Waiting()[t] + Returned(e)[t] + Dropped(s, e)[t]
  {
    PickConservesExactly(s, owner, pidOf, s', answer);
    hide PickStep, Queues.Waiting;
  }

  ghost predicate IsRun(states: seq<Queues>, events: seq<Event>) {
    && |states| == |events| + 1 && states[0] == Queues([], [], [])
    && forall i | 0 <= i < |events| :: Step(states[i], events[i], states[i + 1])
  }

  /** How often the first `n` events accepted, returned and dropped a thread. */
  function TimesAccepted(events: seq<Event>, n: nat, t: ThreadId): nat
    requires n <= |events|
  {
    if n == 0 then 0 else TimesAccepted(events, n - 1, t) + Accepted(events[n - 1])[t]
  }

  function TimesReturned(events: seq<Event>, n: nat, t: ThreadId): nat
    requires n <= |events|
  {
    if n == 0 then 0 else TimesReturned(events, n - 1, t) + Returned(events[n - 1])[t]
  }

  function TimesDropped(states: seq<Queues>, events: seq<Event>, n: nat, t: ThreadId): nat
    requires n <= |events| <= |states|
  {
    if n == 0 then 0
    else TimesDropped(states, events, n - 1, t) + Dropped(states[n - 1], events[n - 1])[t]
  }

  /**
    Over any run from empty queues, as often as a thread was accepted it was returned, waits, or
    was dropped.
    */
  lemma {:induction false} RunConserves(states: seq<Queues>, events: seq<Event>, n: nat, t: ThreadId)
    requires IsRun(states, events) && n <= |events|
    ensures TimesAccepted(events, n, t) ==
            TimesReturned(events, n, t) + states[n].Waiting()[t] + TimesDropped(states, events, n, t)
  {
    hide Step, Accepted, Returned, Dropped, Queues.Waiting;
    if n == 0 {
      NobodyWaits();
    } else {
      RunConserves(states, events, n - 1, t);
      StepBalances(states[n - 1], events[n - 1], states[n], t);
    }
  }

  /** It was dropped exactly if an isolated processor came upon it when it was foreign. */
  lemma {:induction false} DroppedExactly(states: seq<Queues>, events: seq<Event>, n: nat, t: ThreadId)
    requires IsRun(states, events) && n <= |events|
    ensures TimesDropped(states, events, n, t) > 0 <==>
            exists i :: 0 <= i < n && DropsThread(states[i], events[i], t)
  {
    hide Step, Dropped, DropsThread;
    if n > 0 {
      DroppedExactly(states, events, n - 1, t);
      DropsOne(states[n - 1], events[n - 1], t);
    }
  }

  predicate DropsThread(s: Queues, e: Event, t: ThreadId) {
    e.Choose? && MeetsForeignThread(s, e.owner, e.pidOf) && s.interactive[0].tid == t
  }

  lemma DropsOne(s: Queues, e: Event, t: ThreadId)
    ensures Dropped(s, e)[t] > 0 <==> DropsThread(s, e, t)
  {
  }

  lemma NobodyWaits()
    ensures Queues([], [], []).Waiting() == multiset{}
  {
  }

  // ----- who comes first -----------------------------------------------------------------

  /** The entry waits in class 0, real-time, 1, interactive, or 2, background with no negative lag. */
  predicate MayRun(s: Queues, e: Entry, class_: nat) {
    (class_ == 0 && e in s.rt) || (class_ == 1 && e in s.interactive) ||
    (class_ == 2 && e in s.background && e.lag >= 0)
  }

  /** No entry that may run is of a better class, and none of its class has an earlier deadline. */
  ghost predicate IsBest(s: Queues, e: Entry, class_: nat) {
    && MayRun(s, e, class_)
    && forall other: Entry, c: nat | MayRun(s, other, c) :: class_ < c || (class_ == c && e.deadline <= other.deadline)
  }

  /** What is picked is the best that may run, and nothing is picked only when nothing may run. */
  ghost predicate PicksBest(s: Queues, r: Option<ThreadId>) {
    match r
    case Some(t) => exists e: Entry, c: nat :: e.tid == t && IsBest(s, e, c)
    case None => forall e: Entry, c: nat :: !MayRun(s, e, c)
  }

  /** Strict priority of the classes, and the earliest deadline within each, on a processor that is not isolated. */
  lemma PicksByPriority(s: Queues, pidOf: ThreadId -> Option<nat>, s': Queues, r: Option<ThreadId>)
    requires PickStep(s, None, pidOf, s', r) && Sorted(s.rt) && Sorted(s.interactive)
    ensures PicksBest(s, r)
  {
    if s.rt != [] {
      assert IsBest(s, s.rt[0], 0);
    } else if s.interactive != [] {
      assert IsBest(s, s.interactive[0], 1);
    } else if r.Some? {
      var k: nat :| IsEarliestEligible(s.background, k) && r.value == s.background[k].tid;
      assert IsBest(s, s.background[k], 2);
    }
  }

  /** An isolated processor runs real-time threads, the earliest first, and besides them only the owner's. */
  lemma IsolatedPicksOwnOnly(s: Queues, owner: nat, pidOf: ThreadId -> Option<nat>, s': Queues, r: Option<ThreadId>)
    requires PickStep(s, Some(owner), pidOf, s', r) && Sorted(s.rt)
    ensures if s.rt != [] then exists e: Entry :: IsBest(s, e, 0) && r == Some(e.tid)
            else r.Some? ==> pidOf(r.value) == Some(owner) && exists e: Entry :: MayRun(s, e, 1) && r == Some(e.tid)
  {
    if s.rt != [] {
      assert IsBest(s, s.rt[0], 0);
    } else if r.Some? {
      assert MayRun(s, s.interactive[0], 1);
    }
  }

  /** With one queue for both interactive classes its threads come first, and an isolated processor takes no other. */
  lemma SharedPicksByPriority(q: seq<Entry>, background: seq<Entry>, owner: Option<nat>, q': seq<Entry>,
                              background': seq<Entry>, r: Option<ThreadId>)
    requires SharedPickStep(q, background, owner, q', background', r) && Sorted(q)
    ensures PicksBest(Queues(q, [], if owner.Some? then [] else background), r)
  {
    var s := Queues(q, [], if owner.Some? then [] else background);
    if q != [] {
      assert IsBest(s, q[0], 0);
    } else if r.Some? {
      var k: nat :| IsEarliestEligible(background, k) && r.value == background[k].tid;
      assert IsBest(s, background[k], 2);
    }
  }

  lemma {:induction false} QueuesStaySorted(states: seq<Queues>, events: seq<Event>, i: nat)
    requires IsRun(states, events) && i <= |events|
    ensures Sorted(states[i].rt) && Sorted(states[i].interactive)
  {
    hide Sorted, PickStep, Insert;
    if i == 0 {
      NothingToPick();
    } else {
      QueuesStaySorted(states, events, i - 1);
      var s, e := states[i - 1], events[i - 1];
      assert Step(s, e, states[i]);
      match e {
        case EnqueueRt(tid, deadline, _) => InsertKeepsSorted(s.rt, Entry(deadline, 0, tid));
        case EnqueueInteractive(tid, deadline, _) => InsertKeepsSorted(s.interactive, Entry(deadline, 0, tid));
        case EnqueueBackground(_, _, _, _) =>
        case Choose(owner, pidOf, answer) => ChooseKeepsSorted(s, owner, pidOf, states[i], answer);
      }
    }
  }

  lemma ChooseKeepsSorted(s: Queues, owner: Option<nat>, pidOf: ThreadId -> Option<nat>, s': Queues,
                          r: Option<ThreadId>)
    requires PickStep(s, owner, pidOf, s', r) && Sorted(s.rt) && Sorted(s.interactive)
    ensures Sorted(s'.rt) && Sorted(s'.interactive)
  {
  }

  /** Over any run every decision of a processor that is not isolated is for the best that may run then. */
  lemma RunPicksByPriority(states: seq<Queues>, events: seq<Event>, i: nat)
    requires IsRun(states, events) && i < |events| && events[i].Choose? && events[i].owner == None
    ensures PicksBest(states[i], events[i].answer)
  {
    QueuesStaySorted(states, events, i);
    assert Step(states[i], events[i], states[i + 1]);
    hide Sorted, PickStep, PicksBest;
    PicksByPriority(states[i], events[i].pidOf, states[i + 1], events[i].answer);
  }
}
