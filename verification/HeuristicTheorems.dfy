/**
  Why the ransomware combination is decisive: stepwise decay takes no more from the score than
  a straight line would from each observation, so what was seen in the window still counts.
  */
module HeuristicTheorems {
  import opened Words
  import opened Bits
  import opened Heuristic
  import Arith

  const WINDOW: nat := 90_000
  const FULL: nat := 2 * HALF_LIFE_MS

  /** What an observation of age `age` is still good for, in parts of `FULL`. */
  function Share(weight: nat, age: nat): nat {
    if age <= WINDOW then weight * (FULL - age) else 0
  }

  function Age(o: Observation, now: nat): nat {
    SaturatingSub(now, o.timestampMs)
  }

  /** What everything in the history is still good for at time `now`. */
  function Standing(role: DeclaredRole, history: seq<Observation>, now: nat): nat {
    if history == [] then 0
    else
      Standing(role, history[..|history| - 1], now) +
      Share(role.Discounted(history[|history| - 1].behaviour), Age(history[|history| - 1], now))
  }

  /** The score covers what the recent history is still good for. */
  ghost predicate Covers(p: Profile) {
    && FULL * p.score >= Standing(p.role, p.history, p.lastDecayMs)
    && |p.history| <= HISTORY
    && forall o | o in p.history :: o.timestampMs <= p.lastDecayMs
  }

  // ----- decay ---------------------------------------------------------------------------

  /** One decay of the score takes at most `elapsed / FULL` of it, while less than a half-life passed. */
  lemma DecayIsAtMostLinear(score: u32, elapsed: nat)
    requires elapsed < HALF_LIFE_MS
    ensures FULL * DecayedScore(score, elapsed) >= score * (FULL - elapsed)
  {
    assert elapsed / HALF_LIFE_MS == 0 && elapsed % HALF_LIFE_MS == elapsed;
    assert ShiftRight(score, 0) == score;
    ReductionBound(score, elapsed);
  }

  lemma ReductionBound(score: nat, elapsed: nat)
    requires elapsed < HALF_LIFE_MS
    ensures score * elapsed / FULL <= score
    ensures FULL * (score - score * elapsed / FULL) >= score * (FULL - elapsed)
  {
    Product(score, elapsed);
    var q := score * elapsed;
    assert FULL * (q / FULL) <= q <= score * FULL;
    assert score * (FULL - elapsed) == score * FULL - q;
  }

  lemma Product(score: nat, elapsed: nat)
    requires elapsed <= FULL
    ensures 0 <= score * elapsed <= score * FULL
  {
  }

  /** An observation loses at least as much in two steps as the straight line takes in one. */
  lemma ShareShrinks(weight: nat, age: nat, elapsed: nat)
    requires elapsed <= WINDOW
    ensures FULL * Share(weight, age + elapsed) <= (FULL - elapsed) * Share(weight, age)
  {
    if age + elapsed <= WINDOW {
      var part := FULL - age;
      ShrinkArithmetic(weight, age, elapsed);
    } else {
      Product(FULL - elapsed, 0);
    }
  }

  lemma ShrinkArithmetic(weight: nat, age: nat, elapsed: nat)
    requires age <= WINDOW && elapsed <= WINDOW
    ensures FULL * (weight * (FULL - (age + elapsed))) <= (FULL - elapsed) * (weight * (FULL - age))
  {
    var left, now, later := FULL - elapsed, FULL - age, FULL - (age + elapsed);
    assert FULL * later <= left * now by { LineBelowSteps(age, elapsed); }
    Arith.MulMonotone(FULL * later, left * now, weight);
    Regroup(FULL, weight, later);
    Regroup(left, weight, now);
  }

  /** One straight line over two ages lies below the product of the two. */
  lemma LineBelowSteps(age: nat, elapsed: nat)
    requires age <= WINDOW && elapsed <= WINDOW
    ensures FULL * (FULL - (age + elapsed)) <= (FULL - elapsed) * (FULL - age)
  {
    Product(age, elapsed);
    assert (FULL - elapsed) * (FULL - age) == FULL * (FULL - (age + elapsed)) + age * elapsed;
  }

  lemma Regroup(a: nat, b: nat, c: nat)
    ensures a * (b * c) == a * c * b
  {
  }

  lemma {:induction false} StandingShrinks(role: DeclaredRole, history: seq<Observation>, now: nat, elapsed: nat)
    requires elapsed <= WINDOW && forall o | o in history :: o.timestampMs <= now
    ensures FULL * Standing(role, history, now + elapsed) <= (FULL - elapsed) * Standing(role, history, now)
  {
    hide Share;
    if history != [] {
      var front, last := history[..|history| - 1], history[|history| - 1];
      assert last in history && forall o | o in front :: o in history;
      StandingShrinks(role, front, now, elapsed);
      ShareShrinks(role.Discounted(last.behaviour), now - last.timestampMs, elapsed);
      var x, y := Standing(role, front, now), Share(role.Discounted(last.behaviour), now - last.timestampMs);
      Distribute(FULL - elapsed, x, y);
    }
  }

  lemma Distribute(k: nat, x: nat, y: nat)
    ensures k * (x + y) == k * x + k * y
  {
  }

  /** Past the window nothing is left standing. */
  lemma {:induction false} StandingVanishes(role: DeclaredRole, history: seq<Observation>, now: nat)
    requires forall o | o in history :: o.timestampMs + WINDOW < now
    ensures Standing(role, history, now) == 0
  {
    if history != [] {
      var front, last := history[..|history| - 1], history[|history| - 1];
      assert last in history && forall o | o in front :: o in history;
      StandingVanishes(role, front, now);
    }
  }

  lemma DecayCovers(p: Profile, now: nat)
    requires Covers(p) && p.lastDecayMs <= now
    ensures Covers(Decayed(p, now)) && Decayed(p, now).lastDecayMs == now
  {
    var elapsed := now - p.lastDecayMs;
    var d := Decayed(p, now);
    assert d.score == DecayedScore(p.score, elapsed);
    hide DecayedScore;
    if elapsed <= WINDOW {
      StandingShrinks(p.role, p.history, p.lastDecayMs, elapsed);
      DecayIsAtMostLinear(p.score, elapsed);
      CoverArithmetic(p.score, d.score, Standing(p.role, p.history, p.lastDecayMs), Standing(p.role, p.history, now),
                      elapsed);
    } else {
      StandingVanishes(p.role, p.history, now);
    }
  }

  lemma CoverArithmetic(s: nat, s': nat, c: nat, c': nat, elapsed: nat)
    requires elapsed <= WINDOW && FULL * s >= c
    requires FULL * s' >= s * (FULL - elapsed) && FULL * c' <= (FULL - elapsed) * c
    ensures FULL * s' >= c'
  {
    var k := FULL - elapsed;
    assert k * c <= k * (FULL * s);
    assert k * (FULL * s) == FULL * (s * k);
    assert FULL * c' <= FULL * (FULL * s');
  }

  // ----- recording -----------------------------------------------------------------------

  lemma {:induction false} StandingBound(role: DeclaredRole, history: seq<Observation>, now: nat)
    ensures Standing(role, history, now) <= |history| * (45 * FULL)
  {
    if history != [] {
      var front, last := history[..|history| - 1], history[|history| - 1];
      StandingBound(role, front, now);
      ShareBound(role.Discounted(last.behaviour), Age(last, now));
    }
  }

  lemma ShareBound(weight: nat, age: nat)
    requires weight <= 45
    ensures Share(weight, age) <= 45 * FULL
  {
  }

  lemma {:induction false} StandingWithoutFirst(role: DeclaredRole, history: seq<Observation>, now: nat)
    requires history != []
    ensures Standing(role, history[1..], now) <= Standing(role, history, now)
  {
    if |history| > 1 {
      var front, last := history[..|history| - 1], history[|history| - 1];
      StandingWithoutFirst(role, front, now);
      assert history[1..][..|history| - 2] == front[1..];
    }
  }

  lemma RememberCovers(p: Profile, b: Behaviour, now: nat)
    requires Covers(p) && p.lastDecayMs <= now
    ensures Covers(Recorded(p, b, now)) && Recorded(p, b, now).lastDecayMs == now
  {
    hide DecayedScore, Covers;
    DecayCovers(p, now);
    AddingCovers(Decayed(p, now), b, now);
  }

  lemma AddingCovers(d: Profile, b: Behaviour, now: nat)
    requires Covers(d) && d.lastDecayMs == now
    ensures Covers(d.(score := SaturatingAdd32(d.score, d.role.Discounted(b)),
                      history := Remember(d.history, Observation(b, now))))
  {
    hide Standing;
    var kept := if |d.history| >= HISTORY then d.history[1..] else d.history;
    if |d.history| >= HISTORY { StandingWithoutFirst(d.role, d.history, now); }
    StandingBound(d.role, Remember(d.history, Observation(b, now)), now);
    LatestStands(d.role, kept, Observation(b, now), now);
  }

  /** A fresh observation stands for its whole weight. */
  lemma LatestStands(role: DeclaredRole, history: seq<Observation>, o: Observation, now: nat)
    requires o.timestampMs == now
    ensures Standing(role, history + [o], now) == Standing(role, history, now) + role.Discounted(o.behaviour) * FULL
  {
    assert (history + [o])[..|history|] == history;
  }

  lemma ObserveCovers(p: Profile, b: Behaviour, now: nat)
    requires Covers(p) && p.lastDecayMs <= now
    ensures Covers(Observed(p, b, now)) && Observed(p, b, now).lastDecayMs == now
    ensures Observed(p, b, now).role == p.role
  {
    RememberCovers(p, b, now);
    StandingBound(p.role, Recorded(p, b, now).history, now);
    hide Recorded, Firing, Bonuses, Names;
  }

  // ----- the ransomware combination ------------------------------------------------------

  /** What the observations of one behaviour are still good for. */
  function StandingOf(b: Behaviour, role: DeclaredRole, history: seq<Observation>, now: nat): nat {
    if history == [] then 0
    else
      var last := history[|history| - 1];
      StandingOf(b, role, history[..|history| - 1], now) +
      if last.behaviour == b then Share(role.Discounted(b), Age(last, now)) else 0
  }

  lemma {:induction false} FourOfStanding(role: DeclaredRole, history: seq<Observation>, now: nat)
    ensures StandingOf(EnumerateUserDocuments, role, history, now) + StandingOf(ReadForeignFile, role, history, now)
          + StandingOf(WriteHighEntropy, role, history, now) + StandingOf(DestroySnapshot, role, history, now)
         <= Standing(role, history, now)
  {
    hide Share;
    if history != [] { FourOfStanding(role, history[..|history| - 1], now); }
  }

  lemma {:induction false} SeenStands(b: Behaviour, role: DeclaredRole, history: seq<Observation>, now: nat)
    requires SeenWithin(b, history, now, WINDOW)
    ensures StandingOf(b, role, history, now) >= role.Discounted(b) * (FULL - WINDOW)
  {
    var i :| 0 <= i < |history| && history[i].behaviour == b && SaturatingSub(now, history[i].timestampMs) <= WINDOW;
    SeenAtStands(b, role, history, now, i);
  }

  lemma {:induction false} SeenAtStands(b: Behaviour, role: DeclaredRole, history: seq<Observation>, now: nat, i: nat)
    requires i < |history| && history[i].behaviour == b && Age(history[i], now) <= WINDOW
    ensures StandingOf(b, role, history, now) >= role.Discounted(b) * (FULL - WINDOW)
  {
    if i == |history| - 1 {
      OldestShare(role.Discounted(b), Age(history[i], now));
      hide Share;
    } else {
      SeenAtStands(b, role, history[..|history| - 1], now, i);
    }
  }

  lemma OldestShare(weight: nat, age: nat)
    requires age <= WINDOW
    ensures Share(weight, age) >= weight * (FULL - WINDOW)
  {
  }

  /** The event credits the ransomware combination. */
  ghost predicate CreditsRansomware(p: Profile, b: Behaviour, now: nat) {
    var r := Recorded(p, b, now);
    RansomwareEncryptLoop !in r.credited && RansomwareEncryptLoop in Observed(p, b, now).credited
  }

  lemma CreditMeansPresent(p: Profile, b: Behaviour, now: nat)
    requires CreditsRansomware(p, b, now)
    ensures var r := Recorded(p, b, now);
            && IsPresent(COMBINATIONS[0], r.history, now)
            && COMBINATIONS[0] in Firing(COMBINATIONS, r.history, r.credited, now)
  {
    hide Recorded, IsPresent;
    var r := Recorded(p, b, now);
    var fired := Firing(COMBINATIONS, r.history, r.credited, now);
    FiringIsPart(COMBINATIONS, r.history, r.credited, now);
    hide Firing;
    assert RansomwareEncryptLoop in Names(fired);
    var k :| 0 <= k < |fired| && fired[k].name == RansomwareEncryptLoop;
    assert fired[k] in fired && fired[k] in COMBINATIONS;
  }

  lemma {:induction false} BonusIncluded(cs: seq<Combination>, c: Combination)
    requires c in cs
    ensures Bonuses(cs) >= c.bonus
  {
    var last := cs[|cs| - 1];
    if last != c { BonusIncluded(cs[..|cs| - 1], c); }
  }

  /** The four behaviours' weight once the role has taken its part. */
  function FourWeights(role: DeclaredRole): nat {
    role.Discounted(EnumerateUserDocuments) + role.Discounted(ReadForeignFile)
    + role.Discounted(WriteHighEntropy) + role.Discounted(DestroySnapshot)
  }

  lemma PresentScores(role: DeclaredRole, history: seq<Observation>, now: nat)
    requires IsPresent(COMBINATIONS[0], history, now)
    ensures Standing(role, history, now) >= FourWeights(role) * (FULL - WINDOW)
  {
    var c := COMBINATIONS[0];
    assert c.required[0] in c.required && c.required[1] in c.required && c.required[2] in c.required
           && c.required[3] in c.required;
    hide SeenWithin, Standing, StandingOf, Share;
    SeenStands(EnumerateUserDocuments, role, history, now);
    SeenStands(ReadForeignFile, role, history, now);
    SeenStands(WriteHighEntropy, role, history, now);
    SeenStands(DestroySnapshot, role, history, now);
    FourOfStanding(role, history, now);
  }

  /**
    When the ransomware combination is credited, the score is at least its bonus and 85 percent
    of the four discounted weights.
    */
  lemma CreditScores(p: Profile, b: Behaviour, now: nat)
    requires Covers(p) && p.lastDecayMs <= now && CreditsRansomware(p, b, now)
    ensures var score := Observed(p, b, now).score;
            score == MAX_U32 || FULL * (score - 70) >= FourWeights(p.role) * (FULL - WINDOW)
  {
    var r := Recorded(p, b, now);
    CreditMeansPresent(p, b, now);
    RememberCovers(p, b, now);
    PresentScores(p.role, r.history, now);
    var fired := Firing(COMBINATIONS, r.history, r.credited, now);
    BonusIncluded(fired, COMBINATIONS[0]);
    RecordedKeepsRole(p, b, now);
    hide Recorded, Firing, Standing, IsPresent, FourWeights, Bonuses, CreditsRansomware;
  }

  lemma RecordedKeepsRole(p: Profile, b: Behaviour, now: nat)
    ensures Recorded(p, b, now).role == p.role
  {
  }

  // ----- runs ----------------------------------------------------------------------------

  /** A new profile after a run of observations. */
  function After(role: DeclaredRole, start: nat, run: seq<Observation>): Profile {
    Later(Profile(role, [], 0, start, []), run)
  }

  /** Times do not go back. */
  ghost predicate Ordered(start: nat, run: seq<Observation>) {
    && (forall i | 0 <= i < |run| :: start <= run[i].timestampMs)
    && (forall i, j | 0 <= i < j < |run| :: run[i].timestampMs <= run[j].timestampMs)
  }

  lemma {:induction false} RunCovers(role: DeclaredRole, start: nat, run: seq<Observation>)
    requires Ordered(start, run)
    ensures Covers(After(role, start, run)) && After(role, start, run).role == role
    ensures After(role, start, run).lastDecayMs == if run == [] then start else run[|run| - 1].timestampMs
  {
    hide Observed, Covers;
    if run == [] {
      EmptyCovers(role, start);
    } else {
      var front, last := run[..|run| - 1], run[|run| - 1];
      RunCovers(role, start, front);
      ObserveCovers(After(role, start, front), last.behaviour, last.timestampMs);
    }
  }

  lemma EmptyCovers(role: DeclaredRole, start: nat)
    ensures Covers(Profile(role, [], 0, start, []))
  {
  }

  /** Whatever else was observed before and whenever: the credit suspends the process. */
  ghost predicate AlwaysSuspends(role: DeclaredRole) {
    forall start, run, b, now | Ordered(start, run + [Observation(b, now)])
      && CreditsRansomware(After(role, start, run), b, now) ::
      VerdictOf(Observed(After(role, start, run), b, now).score) == SuspendAndAsk
  }

  lemma RunBefore(start: nat, run: seq<Observation>, o: Observation)
    requires Ordered(start, run + [o])
    ensures Ordered(start, run) && start <= o.timestampMs && (run != [] ==> run[|run| - 1].timestampMs <= o.timestampMs)
  {
    var all := run + [o];
    assert all[|run|] == o && forall i | 0 <= i < |run| :: all[i] == run[i];
  }

  lemma DecisiveRolesSuspend(role: DeclaredRole, start: nat, run: seq<Observation>, b: Behaviour, now: nat)
    requires role.NoRole? || role.BackupAgent? || role.SandboxedAntiCheat?
    requires Ordered(start, run + [Observation(b, now)]) && CreditsRansomware(After(role, start, run), b, now)
    ensures Observed(After(role, start, run), b, now).score >= SUSPEND_THRESHOLD
  {
    hide After, Observed, CreditsRansomware, Covers;
    RunBefore(start, run, Observation(b, now));
    RunCovers(role, start, run);
    CreditScores(After(role, start, run), b, now);
  }

  // ----- which roles the combination is decisive for -------------------------------------

  const FOUR: set<Behaviour> := {EnumerateUserDocuments, ReadForeignFile, WriteHighEntropy, DestroySnapshot}

  /** The other combinations need behaviours outside the four. */
  lemma OthersAbsent(history: seq<Observation>, now: nat, i: nat)
    requires 1 <= i < |COMBINATIONS| && forall o | o in history :: o.behaviour in FOUR
    ensures !IsPresent(COMBINATIONS[i], history, now)
  {
    var b := if i == 3 then LogTampering else if i == 2 then ForeignCodeWrite else CredentialAccess;
    assert b in COMBINATIONS[i].required && !SeenWithin(b, history, now, COMBINATIONS[i].windowMs);
  }

  lemma FiringAmongFour(history: seq<Observation>, credited: seq<CombinationName>, now: nat)
    requires forall o | o in history :: o.behaviour in FOUR
    ensures Firing(COMBINATIONS, history, credited, now) ==
            if RansomwareEncryptLoop !in credited && IsPresent(COMBINATIONS[0], history, now)
            then [COMBINATIONS[0]] else []
  {
    hide IsPresent;
    assert COMBINATIONS[..0] == [] && COMBINATIONS[..4] == COMBINATIONS;
    OthersAbsent(history, now, 1);
    OthersAbsent(history, now, 2);
    OthersAbsent(history, now, 3);
    FiringStep(history, credited, now, 0);
    FiringStep(history, credited, now, 1);
    FiringStep(history, credited, now, 2);
    FiringStep(history, credited, now, 3);
    hide Firing;
  }

  /** Seen at the same moment, while one of the four is still missing: only the weight is added. */
  lemma QuietObserve(p: Profile, b: Behaviour, missing: Behaviour)
    requires b in FOUR && missing in FOUR && b != missing && |p.history| < HISTORY && p.credited == [] && p.score < 1000
    requires forall o | o in p.history :: o.behaviour in FOUR && o.behaviour != missing
    ensures Observed(p, b, p.lastDecayMs) ==
            p.(score := p.score + p.role.Discounted(b), history := p.history + [Observation(b, p.lastDecayMs)])
  {
    var r := Recorded(p, b, p.lastDecayMs);
    RecordedAtOnce(p, b);
    FiringAmongFour(r.history, [], p.lastDecayMs);
    MissingIsAbsent(r.history, p.lastDecayMs, missing);
    hide Firing, DecayedScore, Recorded, IsPresent, COMBINATIONS;
  }

  lemma RecordedAtOnce(p: Profile, b: Behaviour)
    requires |p.history| < HISTORY && p.score < 1000
    ensures Recorded(p, b, p.lastDecayMs) ==
            p.(score := p.score + p.role.Discounted(b), history := p.history + [Observation(b, p.lastDecayMs)])
  {
    hide DecayedScore;
  }

  lemma MissingIsAbsent(history: seq<Observation>, now: nat, missing: Behaviour)
    requires missing in FOUR && forall o | o in history :: o.behaviour != missing
    ensures !IsPresent(COMBINATIONS[0], history, now)
  {
    assert missing in COMBINATIONS[0].required && !SeenWithin(missing, history, now, WINDOW);
  }

  /** The last of the four, as late as the window allows: the bonus comes on a score decayed once. */
  lemma LateObserve(p: Profile, b: Behaviour, now: nat)
    requires b in FOUR && |p.history| == 3 && p.credited == [] && 0 < p.score < 1000 && now == p.lastDecayMs + WINDOW
    requires forall o | o in p.history :: o.behaviour in FOUR && o.timestampMs == p.lastDecayMs
    requires forall c | c in FOUR && c != b :: exists i | 0 <= i < 3 :: p.history[i].behaviour == c
    ensures CreditsRansomware(p, b, now)
    ensures Observed(p, b, now).score == p.score - p.score * WINDOW / FULL + p.role.Discounted(b) + 70
  {
    var history := p.history + [Observation(b, now)];
    assert ShiftRight(p.score, 0) == p.score;
    assert DecayedScore(p.score, WINDOW) == p.score - p.score * WINDOW / FULL;
    hide DecayedScore;
    AllFourPresent(p, b, now);
    FiringAmongFour(history, [], now);
    assert [COMBINATIONS[0]][..0] == [] && Bonuses([COMBINATIONS[0]]) == 70;
    assert Names([COMBINATIONS[0]]) == [RansomwareEncryptLoop];
    hide Firing, IsPresent, Bonuses, Names;
  }

  lemma AllFourPresent(p: Profile, b: Behaviour, now: nat)
    requires b in FOUR && |p.history| == 3 && now == p.lastDecayMs + WINDOW
    requires forall o | o in p.history :: o.behaviour in FOUR && o.timestampMs == p.lastDecayMs
    requires forall c | c in FOUR && c != b :: exists i | 0 <= i < 3 :: p.history[i].behaviour == c
    ensures IsPresent(COMBINATIONS[0], p.history + [Observation(b, now)], now)
  {
    var history := p.history + [Observation(b, now)];
    forall c | c in FOUR
      ensures SeenWithin(c, history, now, WINDOW)
    {
      if c == b {
        assert history[3].behaviour == c;
      } else {
        var i :| 0 <= i < 3 && p.history[i].behaviour == c;
        assert history[i] == p.history[i] && p.history[i] in p.history;
      }
    }
  }

  /** Three of the four at time 0. */
  function EarlyRun(a: Behaviour, b: Behaviour, c: Behaviour): seq<Observation> {
    [Observation(a, 0), Observation(b, 0), Observation(c, 0)]
  }

  /** The score of a run that sees three of the four at time 0, and the last one when the window closes. */
  lemma LateScore(role: DeclaredRole, a: Behaviour, b: Behaviour, c: Behaviour, last: Behaviour)
    requires {a, b, c, last} == FOUR
    requires a != b && a != c && b != c && last != a && last != b && last != c
    ensures Ordered(0, EarlyRun(a, b, c) + [Observation(last, WINDOW)])
    ensures var p := After(role, 0, EarlyRun(a, b, c));
            var early := role.Discounted(a) + role.Discounted(b) + role.Discounted(c);
            && CreditsRansomware(p, last, WINDOW)
            && Observed(p, last, WINDOW).score == early - early * WINDOW / FULL + role.Discounted(last) + 70
  {
    hide Observed, CreditsRansomware, After, DeclaredRole.Discounted;
    EarlyProfile(role, a, b, c, last);
    assert a in FOUR && b in FOUR && c in FOUR;
    EarlyScore(role, a, b, c);
    var p := After(role, 0, EarlyRun(a, b, c));
    assert p.history[0].behaviour == a && p.history[1].behaviour == b && p.history[2].behaviour == c;
    LateObserve(p, last, WINDOW);
  }

  lemma EarlyProfile(role: DeclaredRole, a: Behaviour, b: Behaviour, c: Behaviour, last: Behaviour)
    requires {a, b, c, last} == FOUR && last != a && last != b && last != c
    ensures After(role, 0, EarlyRun(a, b, c)) ==
            Profile(role, EarlyRun(a, b, c), role.Discounted(a) + role.Discounted(b) + role.Discounted(c), 0, [])
  {
    hide Observed, After, DeclaredRole.Discounted;
    AfterThree(role, a, b, c);
    assert a in FOUR && b in FOUR && c in FOUR && last in FOUR;
    QuietObserve(Profile(role, [], 0, 0, []), a, last);
    QuietObserve(Profile(role, [Observation(a, 0)], role.Discounted(a), 0, []), b, last);
    var two := [Observation(a, 0), Observation(b, 0)];
    QuietObserve(Profile(role, two, role.Discounted(a) + role.Discounted(b), 0, []), c, last);
    assert EarlyRun(a, b, c) == [Observation(a, 0), Observation(b, 0)] + [Observation(c, 0)];
    assert [Observation(a, 0)] + [Observation(b, 0)] == [Observation(a, 0), Observation(b, 0)];
    assert [] + [Observation(a, 0)] == [Observation(a, 0)];
  }

  lemma AfterThree(role: DeclaredRole, a: Behaviour, b: Behaviour, c: Behaviour)
    ensures After(role, 0, EarlyRun(a, b, c)) ==
            Observed(Observed(Observed(Profile(role, [], 0, 0, []), a, 0), b, 0), c, 0)
  {
    hide Observed;
    var run := EarlyRun(a, b, c);
    assert run[..2] == [Observation(a, 0), Observation(b, 0)] && run[..2][..1] == [Observation(a, 0)];
    assert After(role, 0, []) == Profile(role, [], 0, 0, []);
    assert After(role, 0, [Observation(a, 0)]) == Observed(Profile(role, [], 0, 0, []), a, 0);
  }

  /** Three of the four weigh something under every role. */
  lemma EarlyScore(role: DeclaredRole, a: Behaviour, b: Behaviour, c: Behaviour)
    requires a in FOUR && b in FOUR && c in FOUR && a != b && a != c && b != c
    ensures 0 < role.Discounted(a) + role.Discounted(b) + role.Discounted(c) < 1000
  {
  }

  /**
    The ransomware combination suspends in every run, whatever the order, the pace and the
    noise, exactly for the roles that keep enough of the four weights. A compiler can end at
    109 and an encryption tool at 106, one step short.
    */
  lemma RansomwareAlwaysSuspendsExactly(role: DeclaredRole)
    ensures AlwaysSuspends(role) <==> role in {NoRole, BackupAgent, SandboxedAntiCheat}
  {
    hide After, Observed, CreditsRansomware, Ordered, DeclaredRole.Discounted;
    if role in {NoRole, BackupAgent, SandboxedAntiCheat} {
      forall start, run, b, now | Ordered(start, run + [Observation(b, now)])
        && CreditsRansomware(After(role, start, run), b, now)
        ensures VerdictOf(Observed(After(role, start, run), b, now).score) == SuspendAndAsk
      {
        DecisiveRolesSuspend(role, start, run, b, now);
      }
    } else {
      UndecisiveRoles(role);
      var run := EarlyRun(EnumerateUserDocuments, ReadForeignFile, DestroySnapshot);
      assert VerdictOf(Observed(After(role, 0, run), WriteHighEntropy, WINDOW).score) == Alert;
    }
  }

  lemma UndecisiveRoles(role: DeclaredRole)
    requires role.Compiler? || role.EncryptionTool?
    ensures var run := EarlyRun(EnumerateUserDocuments, ReadForeignFile, DestroySnapshot);
            && Ordered(0, run + [Observation(WriteHighEntropy, WINDOW)])
            && CreditsRansomware(After(role, 0, run), WriteHighEntropy, WINDOW)
            && Observed(After(role, 0, run), WriteHighEntropy, WINDOW).score == if role.Compiler? then 109 else 106
  {
    hide After, Observed, CreditsRansomware, Ordered, DeclaredRole.Discounted;
    WeightsLeft(role);
    LateScore(role, EnumerateUserDocuments, ReadForeignFile, DestroySnapshot, WriteHighEntropy);
  }

  lemma WeightsLeft(role: DeclaredRole)
    requires role.Compiler? || role.EncryptionTool?
    ensures role.Discounted(EnumerateUserDocuments) + role.Discounted(ReadForeignFile)
            + role.Discounted(DestroySnapshot)
            == if role.Compiler? then 45 else 42
    ensures role.Discounted(WriteHighEntropy) == 0
  {
  }

  /** For a backup agent the threshold is met with nothing to spare. */
  lemma BackupAgentBoundIsTight()
    ensures var p := After(BackupAgent, 0, EarlyRun(EnumerateUserDocuments, WriteHighEntropy, DestroySnapshot));
            && CreditsRansomware(p, ReadForeignFile, WINDOW)
            && Observed(p, ReadForeignFile, WINDOW).score == SUSPEND_THRESHOLD
  {
    hide After, Observed, CreditsRansomware;
    LateScore(BackupAgent, EnumerateUserDocuments, WriteHighEntropy, DestroySnapshot, ReadForeignFile);
  }

  // ----- credits -------------------------------------------------------------------------

  /** A combination is earned again only after the score has decayed to nothing. */
  lemma NoDoubleCredit(p: Profile, b: Behaviour, now: nat)
    requires Decayed(p, now).score > 0
    ensures var p' := Observed(p, b, now);
            && p.credited <= p'.credited
            && (forall n | n in p'.credited[|p.credited|..] :: n !in p.credited)
  {
    hide IsPresent, DecayedScore;
    var r := Recorded(p, b, now);
    var fired := Firing(COMBINATIONS, r.history, r.credited, now);
    FiringIsPart(COMBINATIONS, r.history, r.credited, now);
    hide Firing;
    assert Observed(p, b, now).credited[|p.credited|..] == Names(fired);
    forall k | 0 <= k < |fired|
      ensures fired[k].name !in p.credited
    {
      assert fired[k] in fired;
    }
  }
}
