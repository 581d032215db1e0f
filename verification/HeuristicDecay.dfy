/**
  The law of decay: what half-lives do to a score, how much of it is left after any run of
  observations, and when it does not decay at all.
  */
module HeuristicDecay {
  import opened Words
  import opened Bits
  import opened Heuristic
  import Arith

  // ----- one decay -----------------------------------------------------------------------

  lemma {:induction false} ShiftDivides(x: nat, n: nat)
    ensures ShiftRight(x, n) == x / Pow2(n)
  {
    if n > 0 {
      ShiftDivides(x / 2, n - 1);
      Arith.DivDiv(x, 2, Pow2(n - 1));
    }
  }

  /** Every whole half-life halves the score, rounded down; after 32 of them nothing is left. */
  lemma HalfLives(score: u32, k: nat)
    ensures DecayedScore(score, 300_000 * k) == if k < 32 then score / Pow2(k) else 0
  {
    ShiftDivides(score, k);
  }

  lemma GoneAfter32(score: u32, elapsed: nat)
    requires elapsed >= 32 * 300_000
    ensures DecayedScore(score, elapsed) == 0
  {
  }

  /** One half-life more is the same as starting from half the score. */
  lemma HalfLifeHalves(score: u32, elapsed: nat)
    ensures DecayedScore(score, elapsed + 300_000) == DecayedScore(score / 2, elapsed)
  {
    var p := elapsed / 300_000;
    assert (elapsed + 300_000) / 300_000 == p + 1 && (elapsed + 300_000) % 300_000 == elapsed % 300_000;
    assert ShiftRight(score, p + 1) == ShiftRight(score / 2, p);
    if p == 31 {
      ShiftDivides(score / 2, 31);
      Pow2Of31();
    }
    hide ShiftRight;
  }

  lemma Pow2Of31()
    ensures Pow2(31) == 0x8000_0000
  {
    assert Pow2(8) == 0x100;
    assert Pow2(16) == 0x1_0000;
    assert Pow2(24) == 0x100_0000;
  }

  /** Within a half-life the score falls along the straight line to its half, rounded up. */
  lemma StraightLine(score: u32, elapsed: nat)
    requires elapsed < 300_000
    ensures score * (600_000 - elapsed) <= 600_000 * DecayedScore(score, elapsed)
    ensures 600_000 * DecayedScore(score, elapsed) < score * (600_000 - elapsed) + 600_000
  {
    assert elapsed / HALF_LIFE_MS == 0 && elapsed % HALF_LIFE_MS == elapsed && ShiftRight(score, 0) == score;
    var q := score * elapsed;
    LineBounds(score, elapsed);
    assert DecayedScore(score, elapsed) == score - q / 600_000;
  }

  lemma LineBounds(score: nat, elapsed: nat)
    requires elapsed < 300_000
    ensures 0 <= 2 * (score * elapsed) <= score * 600_000
    ensures score * (600_000 - elapsed) == score * 600_000 - score * elapsed
  {
    Arith.MulMonotone(2 * elapsed, 600_000, score);
  }

  /** A score never rises with time. */
  lemma {:induction false} NeverRises(score: u32, early: nat, late: nat)
    requires early <= late
    ensures DecayedScore(score, late) <= DecayedScore(score, early)
    decreases late
  {
    hide DecayedScore;
    if late < 300_000 {
      LineNeverRises(score, early, late);
    } else if early >= 300_000 {
      HalfLifeHalves(score, early - 300_000);
      HalfLifeHalves(score, late - 300_000);
      NeverRises(score / 2, early - 300_000, late - 300_000);
    } else {
      HalfLifeHalves(score, late - 300_000);
      DecaysDown(score / 2, late - 300_000);
      AtLeastHalf(score, early);
    }
  }

  lemma LineNeverRises(score: u32, early: nat, late: nat)
    requires early <= late < 300_000
    ensures DecayedScore(score, late) <= DecayedScore(score, early)
  {
    StraightLine(score, early);
    StraightLine(score, late);
    hide DecayedScore;
    Arith.MulMonotone(600_000 - late, 600_000 - early, score);
  }

  lemma AtLeastHalf(score: u32, elapsed: nat)
    requires elapsed < 300_000
    ensures DecayedScore(score, elapsed) >= score / 2
  {
    StraightLine(score, elapsed);
    hide DecayedScore;
    Arith.MulMonotone(300_000, 600_000 - elapsed, score);
  }

  lemma DecaysDown(score: u32, elapsed: nat)
    ensures DecayedScore(score, elapsed) <= score
  {
  }

  /** A decay takes nothing at all exactly when it comes too soon for the reduction to reach one. */
  lemma StallsExactly(score: u32, elapsed: nat)
    ensures DecayedScore(score, elapsed) == score <==>
            score == 0 || (elapsed < 300_000 && score * elapsed < 600_000)
  {
    if elapsed < 300_000 {
      StraightLine(score, elapsed);
      LineBounds(score, elapsed);
    } else {
      HalfLifeHalves(score, elapsed - 300_000);
      DecaysDown(score / 2, elapsed - 300_000);
    }
    hide DecayedScore;
  }

  // ----- decay in steps ------------------------------------------------------------------

  /** Products of reals, kept apart from the rest of the arithmetic. */
  function Times(x: real, y: real): real { x * y }

  lemma TimesMonotone(x: real, x': real, y: real)
    requires x <= x' && y >= 0.0
    ensures Times(x, y) <= Times(x', y) && Times(y, x) <= Times(y, x')
  {
  }

  lemma TimesHalf(x: real, y: real)
    ensures Times(x / 2.0, y) == Times(x, y) / 2.0 && Times(y, x / 2.0) == Times(y, x) / 2.0
  {
  }

  lemma TimesAssociates(x: real, y: real, z: real)
    ensures Times(Times(x, y), z) == Times(x, Times(y, z)) && Times(x, y) == Times(y, x)
  {
  }

  lemma TimesSum(x: real, x': real, y: real)
    ensures Times(x + x', y) == Times(x, y) + Times(x', y) && Times(y, x + x') == Times(y, x) + Times(y, x')
    ensures Times(1.0, y) == y && Times(y, 1.0) == y
  {
  }

  lemma TimesInts(x: int, y: int)
    ensures Times(x as real, y as real) == (x * y) as real
  {
  }

  /** The part of a score that is left after a time, without rounding. */
  function Left(elapsed: nat): (part: real)
    ensures 0.0 < part <= 1.0
  {
    if elapsed < 300_000 then 1.0 - elapsed as real / 600_000.0 else Left(elapsed - 300_000) / 2.0
  }

  lemma LeftHalves(elapsed: nat)
    requires elapsed >= 300_000
    ensures Left(elapsed) == Left(elapsed - 300_000) / 2.0
  {
  }

  /** Decaying in two steps leaves no less than decaying at once. */
  lemma {:induction false} LeftInSteps(a: nat, b: nat)
    ensures Left(a + b) <= Times(Left(a), Left(b))
    decreases a + b
  {
    hide Left, Times;
    if a >= 300_000 {
      LeftInSteps(a - 300_000, b);
      LeftHalves(a);
      LeftHalves(a + b);
      TimesHalf(Left(a - 300_000), Left(b));
    } else if b >= 300_000 {
      LeftInSteps(a, b - 300_000);
      LeftHalves(b);
      LeftHalves(a + b);
      TimesHalf(Left(b - 300_000), Left(a));
    } else {
      BothWithinHalfLife(a, b);
    }
  }

  lemma BothWithinHalfLife(a: nat, b: nat)
    requires a < 300_000 && b < 300_000
    ensures Left(a + b) <= Times(Left(a), Left(b))
  {
    var x, y := a as real / 600_000.0, b as real / 600_000.0;
    LeftWithin(a);
    LeftWithin(b);
    LeftOfSum(a, b);
    hide Left, Times;
    Complements(x, y);
  }

  lemma LeftWithin(a: nat)
    requires a < 300_000
    ensures Left(a) == 1.0 - a as real / 600_000.0
  {
  }

  lemma LeftOfSum(a: nat, b: nat)
    requires a < 300_000 && b < 300_000
    ensures var sum := a as real / 600_000.0 + b as real / 600_000.0;
            Left(a + b) == if a + b < 300_000 then 1.0 - sum else 0.75 - sum / 2.0
  {
    if a + b >= 300_000 {
      LeftHalves(a + b);
      LeftWithin(a + b - 300_000);
    } else {
      LeftWithin(a + b);
    }
    hide Left;
  }

  lemma Complements(x: real, y: real)
    requires 0.0 <= x <= 0.5 && 0.0 <= y <= 0.5
    ensures Times(1.0 - x, 1.0 - y) >= 1.0 - (x + y)
    ensures Times(1.0 - x, 1.0 - y) >= 0.75 - (x + y) / 2.0
  {
    hide Times;
    var u, v := 0.5 - x, 0.5 - y;
    NotNegative(x, y);
    NotNegative(u, v);
    Expand(1.0, x, y);
    Expand(0.5, x, y);
  }

  lemma Expand(c: real, x: real, y: real)
    ensures Times(c - x, c - y) == c * c - c * (x + y) + Times(x, y)
  {
    assert (c - x) * (c - y) == c * c - c * y - x * c + x * y;
  }

  lemma NotNegative(x: real, y: real)
    requires x >= 0.0 && y >= 0.0
    ensures Times(x, y) >= 0.0
  {
  }

  lemma {:induction false} LeftShrinks(early: nat, late: nat)
    requires early <= late
    ensures Left(late) <= Left(early)
    decreases late
  {
    if early >= 300_000 { LeftShrinks(early - 300_000, late - 300_000); }
  }

  lemma {:induction false} LeftAfterHalfLives(k: nat)
    ensures Times(Left(300_000 * k), Pow2(k) as real) == 1.0
  {
    hide Times;
    if k == 0 {
      LeftWithin(0);
      TimesSum(0.0, 0.0, 1.0);
    } else {
      LeftAfterHalfLives(k - 1);
      LeftHalves(300_000 * k);
      var half, d := Left(300_000 * (k - 1)), Pow2(k - 1) as real;
      hide Left;
      assert Pow2(k) as real == d + d && 300_000 * k - 300_000 == 300_000 * (k - 1);
      TimesSum(d, d, half / 2.0);
      TimesHalf(half, d);
    }
  }

  /** No more than one point below that part of `score`. */
  predicate IsAbove(left: nat, score: nat, part: real) {
    (left + 1) as real >= Times((score + 1) as real, part)
  }

  /** Rounding takes less than one point off the exact curve, whatever the score. */
  lemma {:induction false} AboveTheCurve(score: u32, elapsed: nat)
    ensures IsAbove(DecayedScore(score, elapsed), score, Left(elapsed))
    decreases elapsed
  {
    hide DecayedScore, IsAbove, Left;
    if elapsed < 300_000 {
      StraightLine(score, elapsed);
      LineIsAbove(score, elapsed, DecayedScore(score, elapsed));
    } else {
      HalfLifeHalves(score, elapsed - 300_000);
      LeftHalves(elapsed);
      AboveTheCurve(score / 2, elapsed - 300_000);
      HalfIsAbove(DecayedScore(score / 2, elapsed - 300_000), score, Left(elapsed - 300_000));
    }
  }

  lemma HalfIsAbove(left: nat, score: nat, part: real)
    requires IsAbove(left, score / 2, part) && part >= 0.0
    ensures IsAbove(left, score, part / 2.0)
  {
    hide Times;
    TimesMonotone((score + 1) as real / 2.0, (score / 2 + 1) as real, part);
    TimesHalf((score + 1) as real, part);
    TimesHalf(part, (score + 1) as real);
  }

  lemma StepIsAbove(left: nat, score: nat, start: nat, before: real, part: real, total: real)
    requires IsAbove(score, start, before) && IsAbove(left, score, part) && part >= 0.0
    requires total <= Times(before, part)
    ensures IsAbove(left, start, total)
  {
    hide Times;
    var s := (start + 1) as real;
    TimesMonotone(Times(s, before), (score + 1) as real, part);
    TimesAssociates(s, before, part);
    TimesMonotone(total, Times(before, part), s);
  }

  lemma LineIsAbove(score: nat, elapsed: nat, left: nat)
    requires elapsed < 300_000 && score * (600_000 - elapsed) <= 600_000 * left
    ensures IsAbove(left, score, Left(elapsed))
  {
    LeftWithin(elapsed);
    hide Left, Times;
    var part, s := Left(elapsed), score as real;
    TimesSum(s, 1.0, part);
    TimesInts(score, 600_000 - elapsed);
    assert (600_000 - elapsed) as real == 600_000.0 * part;
    Scale(s, part);
  }

  lemma Scale(x: real, y: real)
    ensures Times(x, 600_000.0 * y) == 600_000.0 * Times(x, y)
  {
  }

  // ----- runs ----------------------------------------------------------------------------

  /** Times do not go back. */
  ghost predicate Follows(p: Profile, run: seq<Observation>) {
    run != [] ==>
      var front, last := run[..|run| - 1], run[|run| - 1];
      Follows(p, front) && Later(p, front).lastDecayMs <= last.timestampMs
  }

  lemma ObservedAtLeast(p: Profile, b: Behaviour, now: nat)
    requires p.lastDecayMs <= now
    ensures Observed(p, b, now).lastDecayMs == now && Observed(p, b, now).role == p.role
    ensures var decayed := DecayedScore(p.score, now - p.lastDecayMs);
            Observed(p, b, now).score == MAX_U32 || Observed(p, b, now).score >= decayed + p.role.Discounted(b)
    ensures Observed(p, b, now).score >= DecayedScore(p.score, now - p.lastDecayMs)
  {
    assert DecayedScore(p.score, 0) == p.score;
    hide DecayedScore, Firing, Bonuses, Names, DeclaredRole.Discounted;
  }

  lemma {:induction false} RunStaysAboveTheCurve(p: Profile, run: seq<Observation>)
    requires Follows(p, run)
    ensures var q := Later(p, run);
            && p.lastDecayMs <= q.lastDecayMs
            && IsAbove(q.score, p.score, Left(q.lastDecayMs - p.lastDecayMs))
  {
    hide Observed, DecayedScore, IsAbove;
    if run == [] {
      AllIsLeft(p.score);
    } else {
      var front, last := run[..|run| - 1], run[|run| - 1];
      RunStaysAboveTheCurve(p, front);
      var q := Later(p, front);
      ObservedAtLeast(q, last.behaviour, last.timestampMs);
      StepStaysAboveTheCurve(p.score, q.score, q.lastDecayMs - p.lastDecayMs, last.timestampMs - q.lastDecayMs);
      MoreIsAbove(DecayedScore(q.score, last.timestampMs - q.lastDecayMs), Later(p, run).score, p.score,
                  Left(last.timestampMs - p.lastDecayMs));
    }
  }

  lemma AllIsLeft(score: nat)
    ensures IsAbove(score, score, Left(0))
  {
  }

  lemma MoreIsAbove(left: nat, more: nat, score: nat, part: real)
    requires IsAbove(left, score, part) && left <= more
    ensures IsAbove(more, score, part)
  {
  }

  lemma StepStaysAboveTheCurve(start: u32, score: u32, before: nat, elapsed: nat)
    requires IsAbove(score, start, Left(before))
    ensures IsAbove(DecayedScore(score, elapsed), start, Left(before + elapsed))
  {
    hide DecayedScore, IsAbove;
    AboveTheCurve(score, elapsed);
    LeftInSteps(before, elapsed);
    StepIsAbove(DecayedScore(score, elapsed), score, start, Left(before), Left(elapsed), Left(before + elapsed));
  }

  /**
    Whatever is observed meanwhile, however often and in whatever steps the score decays: `k`
    half-lives later at least the score halved `k` times, rounded down, is left.
    */
  lemma StillCounts(p: Profile, run: seq<Observation>, now: nat, k: nat)
    requires Follows(p, run) && Later(p, run).lastDecayMs <= now <= p.lastDecayMs + 300_000 * k
    ensures Decayed(Later(p, run), now).score >= p.score / Pow2(k)
  {
    hide IsAbove, DecayedScore, Left, Observed;
    RunStaysAboveTheCurve(p, run);
    var q := Later(p, run);
    var left := DecayedScore(q.score, now - q.lastDecayMs);
    StepStaysAboveTheCurve(p.score, q.score, q.lastDecayMs - p.lastDecayMs, now - q.lastDecayMs);
    LeftShrinks(now - p.lastDecayMs, 300_000 * k);
    RoundsDown(p.score, left, k, Left(now - p.lastDecayMs));
    DecayedIsScore(q, now);
  }

  lemma DecayedIsScore(p: Profile, now: nat)
    requires p.lastDecayMs <= now
    ensures Decayed(p, now).score == DecayedScore(p.score, now - p.lastDecayMs)
  {
    hide ShiftRight;
  }

  lemma RoundsDown(score: nat, left: nat, k: nat, part: real)
    requires IsAbove(left, score, part) && part >= Left(300_000 * k)
    ensures left >= score / Pow2(k)
  {
    LeftAfterHalfLives(k);
    hide Pow2, Left, Times;
    var d, s := Pow2(k), (score + 1) as real;
    TimesMonotone(Left(300_000 * k), part, d as real);
    TimesMonotone(Times(s, part), (left + 1) as real, d as real);
    TimesAssociates(s, part, d as real);
    TimesMonotone(1.0, Times(part, d as real), s);
    TimesSum(0.0, 0.0, s);
    TimesInts(left + 1, d);
    assert (left + 1) * d >= score + 1;
    Arith.QuotientBounds(score, d, 0, left + 1);
  }

  /**
    So of what an observation adds, at least the `k`-th half still counts `k` half-lives later; and
    exactly that, if nothing else was ever observed.
    */
  lemma ObservationStillCounts(p: Profile, b: Behaviour, at: nat, run: seq<Observation>, now: nat, k: nat)
    requires p.lastDecayMs <= at && Follows(Observed(p, b, at), run)
    requires Later(Observed(p, b, at), run).lastDecayMs <= now <= at + 300_000 * k
    ensures Decayed(Later(Observed(p, b, at), run), now).score >= p.role.Discounted(b) / Pow2(k)
  {
    ObservedAtLeast(p, b, at);
    StillCounts(Observed(p, b, at), run, now, k);
    hide Observed, Decayed, Later, Follows, DecayedScore;
    Arith.QuotientMonotone(p.role.Discounted(b), Observed(p, b, at).score, Pow2(k));
  }

  lemma LoneObservation(role: DeclaredRole, b: Behaviour, at: nat, k: nat)
    requires k < 32
    ensures Decayed(Observed(Profile(role, [], 0, at, []), b, at), at + 300_000 * k).score ==
            role.Discounted(b) / Pow2(k)
  {
    var p := Profile(role, [], 0, at, []);
    FirstObservation(role, b, at);
    HalfLives(role.Discounted(b), k);
    hide Observed, DecayedScore, Pow2, DeclaredRole.Discounted;
  }

  lemma FirstObservation(role: DeclaredRole, b: Behaviour, at: nat)
    ensures var p := Observed(Profile(role, [], 0, at, []), b, at);
            p.score == role.Discounted(b) && p.lastDecayMs == at
  {
    OneIsNoCombination(Observation(b, at), at);
    hide DecayedScore, Firing, DeclaredRole.Discounted, IsPresent;
    assert Bonuses([]) == 0 && [] + [Observation(b, at)] == [Observation(b, at)];
  }

  /** A single observation is no combination. */
  lemma OneIsNoCombination(o: Observation, now: nat)
    ensures Firing(COMBINATIONS, [o], [], now) == []
  {
    forall c | c in COMBINATIONS
      ensures !IsPresent(c, [o], now)
    {
      var b := if o.behaviour == c.required[0] then c.required[1] else c.required[0];
      assert b in c.required && !SeenWithin(b, [o], now, c.windowMs);
    }
    NonePresent(COMBINATIONS, [o], now);
  }

  lemma {:induction false} NonePresent(cs: seq<Combination>, history: seq<Observation>, now: nat)
    requires forall c | c in cs :: !IsPresent(c, history, now)
    ensures Firing(cs, history, [], now) == []
  {
    hide IsPresent;
    if cs != [] {
      assert cs[|cs| - 1] in cs && forall c | c in cs[..|cs| - 1] :: c in cs;
      NonePresent(cs[..|cs| - 1], history, now);
    }
  }

  // ----- where decay does not keep up ----------------------------------------------------

  /** Every gap of the run is at most `gap` milliseconds. */
  ghost predicate NoGapOver(p: Profile, run: seq<Observation>, gap: nat) {
    run != [] ==>
      var front, last := run[..|run| - 1], run[|run| - 1];
      NoGapOver(p, front, gap) && last.timestampMs <= Later(p, front).lastDecayMs + gap
  }

  /** Up to the suspend threshold nothing decays in five seconds. */
  lemma FiveSecondsTakeNothing(score: u32, elapsed: nat, floor: nat)
    requires elapsed <= 5_000 && floor <= score && floor <= 110
    ensures DecayedScore(score, elapsed) >= floor
  {
    StraightLine(score, elapsed);
    hide DecayedScore;
    Arith.MulMonotone(elapsed, 5_000, score);
    assert score * (600_000 - elapsed) == score * 600_000 - score * elapsed;
  }

  /**
    A process without a role that is seen doing anything at all every five seconds is suspended,
    from the 22nd observation on: its score has no time to decay.
    */
  lemma {:induction false} BusyProcessIsSuspended(p: Profile, run: seq<Observation>)
    requires p.role.NoRole? && Follows(p, run) && NoGapOver(p, run, 5_000)
    ensures Later(p, run).role.NoRole?
    ensures Later(p, run).score >= Arith.Min(110, 5 * |run|)
    ensures |run| >= 22 ==> VerdictOf(Later(p, run).score) == SuspendAndAsk
  {
    hide Observed, DecayedScore, DeclaredRole.Discounted;
    if run != [] {
      var front, last := run[..|run| - 1], run[|run| - 1];
      BusyProcessIsSuspended(p, front);
      var q := Later(p, front);
      ObservedAtLeast(q, last.behaviour, last.timestampMs);
      FullWeight(last.behaviour);
      FiveSecondsTakeNothing(q.score, last.timestampMs - q.lastDecayMs, Arith.Min(110, 5 * |front|));
    }
  }

  lemma FullWeight(b: Behaviour)
    ensures NoRole.Discounted(b) >= 5
  {
    assert NoRole.Discount(b) == 0;
  }
}
