/** What holds of a vault over whole runs: which pages open, which nonces are used again, and how a sweep ends. */
module VaultRuns {
  import opened Wrappers
  import opened Words
  import opened Vault
  import Arith

  /** A call on the arena. `Seal` carries what it left in the page and the tag it returned, `Open` what it found. */
  datatype Event =
    | Rotate(freshKey: Key, resident: nat)
    | Sweep(budget: nat, deferred: bool)
    | Seal(page: nat, contents: Page, frame: Page, tag: Tag)
    | Open(page: nat, frame: Page, tag: Tag, claimed: nat, answer: Option<Page>)

  function KeysAfter(k: Keys, e: Event): Keys {
    match e
    case Rotate(freshKey, resident) => Rotated(k, freshKey, resident)
    case Sweep(budget, deferred) => k.(stalePages := k.stalePages - Swept(k, budget, deferred))
    case Seal(_, _, _, _) => k
    case Open(_, _, _, _, _) => k
  }

  /** What a call gives back, given the keys at that moment. */
  predicate AnswersRightly(p: Place, k: Keys, e: Event) {
    match e
    case Seal(page, contents, frame, tag) => page < p.pageCount && (frame, tag) == SealedWith(p, k, page, contents)
    case Open(page, frame, tag, claimed, answer) => page < U32_SIZE && answer == Opened(p, k, page, frame, tag, claimed)
    case _ => true
  }

  /** A run from a new arena; each rotation draws a key that was never current. */
  ghost predicate IsRun(p: Place, states: seq<Keys>, events: seq<Event>) {
    && p.Valid()
    && |states| == |events| + 1 && states[0].previous == None && states[0].epoch == 0 && states[0].stalePages == 0
    && (forall i | 0 <= i < |events| :: states[i + 1] == KeysAfter(states[i], events[i]))
    && (forall i | 0 <= i < |events| :: AnswersRightly(p, states[i], events[i]))
    && (forall i, j | 0 <= i <= j < |events| && events[j].Rotate? :: events[j].freshKey != states[i].current)
  }

  ghost predicate KeysTell(k: Keys, l: Keys) {
    && (k.epoch <= l.epoch)
    && (k.current == l.current <==> k.epoch == l.epoch)
    && (l.previous == Some(k.current) <==> k.epoch + 1 == l.epoch)
  }

  /** The keys of two moments are the same exactly within an epoch, and the previous key is that of the epoch before. */
  lemma {:induction false} EpochsTellKeys(p: Place, states: seq<Keys>, events: seq<Event>, i: nat, j: nat)
    requires IsRun(p, states, events) && i <= j <= |events|
    ensures KeysTell(states[i], states[j])
    ensures states[j].previous.None? ==> states[j].epoch == 0
    decreases j
  {
    if j == 0 {
    } else if i == j {
      EpochsTellKeys(p, states, events, i - 1, j - 1);
      EpochsTellKeys(p, states, events, j - 1, j - 1);
      assert states[j] == KeysAfter(states[j - 1], events[j - 1]);
      PreviousIsOlder(p, states, events, j);
    } else {
      EpochsTellKeys(p, states, events, i, j - 1);
      assert states[j] == KeysAfter(states[j - 1], events[j - 1]);
    }
  }

  lemma {:induction false} PreviousIsOlder(p: Place, states: seq<Keys>, events: seq<Event>, j: nat)
    requires IsRun(p, states, events) && j <= |events|
    ensures states[j].previous != Some(states[j].current)
  {
    if j > 0 {
      PreviousIsOlder(p, states, events, j - 1);
      assert states[j] == KeysAfter(states[j - 1], events[j - 1]);
    }
  }

  /**
    A page sealed at one moment of a run opens at a later one exactly at the place it was sealed
    for, under the epoch it was sealed in, and while the current epoch is that one or the next;
    and then it opens to what it held.
    */
  lemma SealedPageOpensExactly(
      p: Place, states: seq<Keys>, events: seq<Event>, i: nat, j: nat, page: nat, contents: Page, at: nat, claimed: nat)
    requires IsRun(p, states, events) && i <= j <= |events| && page < p.pageCount
    requires at < U32_SIZE && states[j].epoch < U64_SIZE
    ensures var (frame, tag) := SealedWith(p, states[i], page, contents);
            var plain := Opened(p, states[j], at, frame, tag, claimed);
            && (plain.Some? <==>
                  at == page && claimed == states[i].epoch
                  && (states[j].epoch == states[i].epoch || states[j].epoch == states[i].epoch + 1))
            && (plain.Some? ==> plain.value == contents)
  {
    EpochsTellKeys(p, states, events, i, j);
    hide IsRun, Place.AadOf;
    var (frame, tag) := SealedWith(p, states[i], page, contents);
    if Opened(p, states[j], at, frame, tag, claimed).Some? {
      NonceInjective(p.owner, at, claimed, p.keyid, p.owner, page, states[i].epoch, p.keyid);
    }
  }

  /** So a page that no sweep has sealed again is lost at the second rotation, deferred or not. */
  lemma SecondRotationLosesPage(p: Place, k: Keys, first: Event, second: Event, page: nat, contents: Page)
    requires first.Rotate? && second.Rotate?
    ensures var (frame, tag) := SealedWith(p, k, page, contents);
            Opened(p, KeysAfter(KeysAfter(k, first), second), page, frame, tag, k.epoch) == None
  {
  }

  /** At every moment the previous key was the current one of some moment in the epoch before. */
  lemma {:induction false} PreviousWasCurrent(p: Place, states: seq<Keys>, events: seq<Event>, j: nat) returns (i: nat)
    requires IsRun(p, states, events) && j <= |events| && states[j].previous.Some?
    ensures i < j && states[j].previous == Some(states[i].current) && states[i].epoch + 1 == states[j].epoch
  {
    assert j > 0 && states[j] == KeysAfter(states[j - 1], events[j - 1]);
    if events[j - 1].Rotate? {
      i := j - 1;
    } else {
      i := PreviousWasCurrent(p, states, events, j - 1);
    }
  }

  // ----- what opens ----------------------------------------------------------------------

  /** The `i`-th call sealed this very page and tag. */
  predicate SealedAt(events: seq<Event>, i: nat, page: nat, contents: Page, frame: Page, tag: Tag) {
    i < |events| && events[i] == Seal(page, contents, frame, tag)
  }

  /** The tag came out of an earlier call to seal. */
  ghost predicate WasIssued(events: seq<Event>, j: nat, tag: Tag) {
    exists i: nat :: i < j && i < |events| && events[i].Seal? && events[i].tag == tag
  }

  /** The key is none that the arena ever had. */
  ghost predicate IsForeign(states: seq<Keys>, key: Key) {
    forall i | 0 <= i < |states| :: states[i].current != key
  }

  /**
    What an outsider can bring to `open_page`: any page contents at all, mixed as he likes, but
    only tags that the arena has issued before, or that were made with keys it never had.
    */
  ghost predicate TagsAreNotForged(states: seq<Keys>, events: seq<Event>) {
    forall j | 0 <= j < |events| && events[j].Open? ::
      WasIssued(events, j, events[j].tag) || IsForeign(states, events[j].tag.key)
  }

  /** The two epochs in which a page can still be opened. */
  predicate InWindow(sealed: nat, current: nat) {
    current == sealed || current == sealed + 1
  }

  /**
    Over any run in which no tag is forged: an attempt to open a page gives contents exactly when
    an earlier call of the run sealed these contents at this index, in the epoch claimed, with
    this very page and tag as outcome, and the key of that epoch is still there. All else,
    whatever is mixed, moved or replayed, is refused.
    */
  lemma OpensExactlyWhatWasSealed(p: Place, states: seq<Keys>, events: seq<Event>, j: nat, contents: Page)
    requires IsRun(p, states, events) && TagsAreNotForged(states, events)
    requires j < |events| && events[j].Open? && states[j].epoch < U64_SIZE
    ensures var e := events[j];
            e.answer == Some(contents) <==>
            exists i: nat :: i < j && SealedAt(events, i, e.page, contents, e.frame, e.tag)
                             && states[i].epoch == e.claimed && InWindow(e.claimed, states[j].epoch)
  {
    hide Nonce, PageAad;
    var e := events[j];
    OpenIsOpened(p, states, events, j);
    hide IsRun, AnswersRightly;
    if e.answer == Some(contents) {
      var i := SealBehind(p, states, events, j, contents);
      assert SealedAt(events, i, e.page, contents, e.frame, e.tag);
    }
    if i: nat :| i < j && SealedAt(events, i, e.page, contents, e.frame, e.tag)
                 && states[i].epoch == e.claimed && InWindow(e.claimed, states[j].epoch) {
      SealIsSealed(p, states, events, i);
      SealedPageOpensExactly(p, states, events, i, j, e.page, contents, e.page, e.claimed);
    }
  }

  lemma OpenIsOpened(p: Place, states: seq<Keys>, events: seq<Event>, j: nat)
    requires IsRun(p, states, events) && j < |events| && events[j].Open?
    ensures |states| == |events| + 1 && events[j].page < U32_SIZE
    ensures var e := events[j]; e.answer == Opened(p, states[j], e.page, e.frame, e.tag, e.claimed)
  {
    hide Opened;
    assert AnswersRightly(p, states[j], events[j]);
  }

  lemma SealIsSealed(p: Place, states: seq<Keys>, events: seq<Event>, i: nat)
    requires IsRun(p, states, events) && i < |events| && events[i].Seal?
    ensures |states| == |events| + 1 && events[i].page < p.pageCount && p.Valid()
    ensures (events[i].frame, events[i].tag) == SealedWith(p, states[i], events[i].page, events[i].contents)
  {
    hide SealedWith;
    assert AnswersRightly(p, states[i], events[i]);
  }

  /** Behind every page that opens there is the call that sealed it. */
  lemma SealBehind(p: Place, states: seq<Keys>, events: seq<Event>, j: nat, contents: Page) returns (i: nat)
    requires IsRun(p, states, events) && TagsAreNotForged(states, events)
    requires j < |events| && events[j].Open? && states[j].epoch < U64_SIZE && events[j].answer == Some(contents)
    ensures var e := events[j];
            && i < j && SealedAt(events, i, e.page, contents, e.frame, e.tag)
            && states[i].epoch == e.claimed && InWindow(e.claimed, states[j].epoch)
  {
    hide Nonce, PageAad;
    var e := events[j];
    OpenIsOpened(p, states, events, j);
    OwnKey(p, states, events, j);
    assert WasIssued(events, j, e.tag);
    i :| i < j && i < |events| && events[i].Seal? && events[i].tag == e.tag;
    SealIsSealed(p, states, events, i);
    EpochsTellKeys(p, states, events, i, j);
    hide IsRun, AnswersRightly;
    NonceInjective(p.owner, e.page, e.claimed, p.keyid, p.owner, events[i].page, states[i].epoch, p.keyid);
  }

  /** A page opens only under a key the arena had. */
  lemma OwnKey(p: Place, states: seq<Keys>, events: seq<Event>, j: nat)
    requires IsRun(p, states, events) && j < |events| && events[j].Open? && events[j].answer.Some?
    ensures !IsForeign(states, events[j].tag.key) && InWindow(events[j].claimed, states[j].epoch)
  {
    hide Nonce, PageAad;
    OpenIsOpened(p, states, events, j);
    if events[j].claimed != states[j].epoch {
      var i := PreviousWasCurrent(p, states, events, j);
    }
    hide IsRun, AnswersRightly;
  }

  /**
    Key and nonce are used again exactly when the same page is sealed again in the same epoch: the
    nonce tells apart all that the key does not, but not two contents of one page.
    */
  lemma NonceReusedExactly(p: Place, states: seq<Keys>, events: seq<Event>, i: nat, k: nat)
    requires IsRun(p, states, events) && i < k < |events| && events[i].Seal? && events[k].Seal?
             && states[k].epoch < U64_SIZE
    ensures events[i].tag.key == events[k].tag.key && events[i].tag.nonce == events[k].tag.nonce <==>
            events[i].page == events[k].page && states[i].epoch == states[k].epoch
  {
    hide Nonce, PageAad;
    SealIsSealed(p, states, events, i);
    SealIsSealed(p, states, events, k);
    EpochsTellKeys(p, states, events, i, k);
    hide IsRun, AnswersRightly;
    if events[i].tag.key == events[k].tag.key && events[i].tag.nonce == events[k].tag.nonce {
      NonceInjective(p.owner, events[i].page, states[i].epoch, p.keyid, p.owner, events[k].page, states[k].epoch,
                     p.keyid);
    }
  }

  /** A run that seals two contents of one page under one key and nonce. */
  lemma ResealingReusesNonce(p: Place, key: Key) returns (states: seq<Keys>, events: seq<Event>)
    requires p.Valid() && p.pageCount > 0
    ensures IsRun(p, states, events) && |events| == 2 && events[0].Seal? && events[1].Seal?
    ensures events[0].tag.key == events[1].tag.key && events[0].tag.nonce == events[1].tag.nonce
    ensures events[0].contents != events[1].contents && events[0].frame != events[1].frame
  {
    hide Nonce, PageAad;
    var k := Keys(key, None, 0, 0);
    var (frame, tag) := SealedWith(p, k, 0, Data(0));
    var (frame', tag') := SealedWith(p, k, 0, Data(1));
    states, events := [k, k, k], [Seal(0, Data(0), frame, tag), Seal(0, Data(1), frame', tag')];
  }

  // ----- the sweep -----------------------------------------------------------------------

  /** Pages swept since the last rotation, and how many were resident then. */
  function SweptSince(states: seq<Keys>, events: seq<Event>, j: nat): nat
    requires |states| == |events| + 1 && j <= |events|
  {
    if j == 0 || events[j - 1].Rotate? then 0
    else if events[j - 1].Sweep? then
      SweptSince(states, events, j - 1) + Swept(states[j - 1], events[j - 1].budget, events[j - 1].deferred)
    else SweptSince(states, events, j - 1)
  }

  function ResidentAtRotation(events: seq<Event>, j: nat): nat
    requires j <= |events|
  {
    if j == 0 then 0
    else if events[j - 1].Rotate? then events[j - 1].resident
    else ResidentAtRotation(events, j - 1)
  }

  /** Swept and stale pages always add up to what was resident at the last rotation. */
  lemma {:induction false} SweepAddsUp(p: Place, states: seq<Keys>, events: seq<Event>, j: nat)
    requires IsRun(p, states, events) && j <= |events|
    ensures SweptSince(states, events, j) + states[j].stalePages == ResidentAtRotation(events, j)
  {
    hide AnswersRightly, Swept;
    if j > 0 {
      SweepAddsUp(p, states, events, j - 1);
      assert states[j] == KeysAfter(states[j - 1], events[j - 1]);
    }
  }

  /** How many pages sweeps of an unlimited backlog would have done: 512 at most a step, none while deferred. */
  function Capacity(sweeps: seq<Event>): nat {
    if sweeps == [] then 0
    else
      var last := sweeps[|sweeps| - 1];
      Capacity(sweeps[..|sweeps| - 1]) + if last.Sweep? && !last.deferred then Arith.Min(last.budget, 512) else 0
  }

  function AfterSweeps(k: Keys, sweeps: seq<Event>): Keys {
    if sweeps == [] then k else KeysAfter(AfterSweeps(k, sweeps[..|sweeps| - 1]), sweeps[|sweeps| - 1])
  }

  /**
    Whatever the budgets, whichever steps were deferred, and whatever is sealed and opened between:
    until the next rotation sweeps leave exactly the pages that the sum of their budgets, cut at
    512 each, does not reach.
    */
  lemma {:induction false} SweepsLeaveTheRest(k: Keys, sweeps: seq<Event>)
    requires forall e | e in sweeps :: !e.Rotate?
    ensures AfterSweeps(k, sweeps) ==
            k.(stalePages := if k.stalePages >= Capacity(sweeps) then k.stalePages - Capacity(sweeps) else 0)
  {
    if sweeps != [] {
      var front, last := sweeps[..|sweeps| - 1], sweeps[|sweeps| - 1];
      assert last in sweeps && forall e | e in front :: e in sweeps;
      SweepsLeaveTheRest(k, front);
    }
  }

  /** `steps` full steps in a row. */
  function FullSteps(steps: nat): seq<Event> {
    seq(steps, _ => Sweep(512, false))
  }

  lemma {:induction false} FullCapacity(steps: nat)
    ensures Capacity(FullSteps(steps)) == 512 * steps
  {
    if steps > 0 {
      FullCapacity(steps - 1);
      assert FullSteps(steps)[..steps - 1] == FullSteps(steps - 1);
    }
  }

  /** A sweep of `n` pages is over after exactly `n / 512` full steps, rounded up, and not before. */
  lemma SweepEndsExactly(k: Keys, steps: nat)
    ensures AfterSweeps(k, FullSteps(steps)).stalePages == 0 <==> steps >= (k.stalePages + 512 - 1) / 512
  {
    SweepsLeaveTheRest(k, FullSteps(steps));
    FullCapacity(steps);
  }

  // ----- ownership of ranges -------------------------------------------------------------

  /** `owns`, with the end of the range saturated at the top of the address space. */
  predicate Owns(p: Place, base: nat, pages: nat) {
    var end := if base + pages * PAGE_SIZE < U64_SIZE then base + pages * PAGE_SIZE else U64_SIZE - 1;
    base >= p.base && end <= p.base + p.pageCount * PAGE_SIZE
  }

  predicate InArena(p: Place, a: nat) {
    p.base <= a < p.base + p.pageCount * 4096
  }

  /** Every byte of the range lies in the arena. */
  ghost predicate AllInArena(p: Place, base: nat, pages: nat) {
    forall a: nat | base <= a < base + pages * 4096 :: InArena(p, a)
  }

  /** The end of the range is past the address space, and the arena ends on its last byte but one. */
  predicate OverflowIsHidden(p: Place, base: nat, pages: nat) {
    base >= p.base && base + pages * 4096 >= U64_SIZE && p.base + p.pageCount * 4096 == U64_SIZE - 1
  }

  /**
    A range is owned exactly when each of its bytes lies in the arena, or when saturation hides
    that it runs past the end of the address space. An empty range is owned from the first byte of
    the arena up to and including its end.
    */
  lemma OwnsExactly(p: Place, base: nat, pages: nat)
    requires p.Valid() && base < U64_SIZE
    ensures pages > 0 ==> (Owns(p, base, pages) <==> AllInArena(p, base, pages) || OverflowIsHidden(p, base, pages))
    ensures pages == 0 ==> (Owns(p, base, pages) <==> p.base <= base <= p.base + p.pageCount * 4096)
  {
    if pages > 0 && AllInArena(p, base, pages) {
      assert InArena(p, base) && InArena(p, base + pages * 4096 - 1);
    }
  }

  /** Such an arena passes for the owner of a page it does not have. */
  lemma OverflowCanBeHidden()
    ensures var p := Place(1, 0, U64_SIZE - 1 - 4096, 1);
            && p.Valid() && Owns(p, p.base, 2) && OverflowIsHidden(p, p.base, 2)
            && !InArena(p, p.base + 4096) && !AllInArena(p, p.base, 2)
  {
    var p := Place(1, 0, U64_SIZE - 1 - 4096, 1);
    assert !InArena(p, p.base + 4096);
  }
}
