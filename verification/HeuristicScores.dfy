/**
  What observations add up to, in numbers: which combinations are credited when, what a burst of
  behaviours scores, and what a declared role may do without being noticed.
  */
module HeuristicScores {
  import opened Words
  import opened Heuristic

  // ----- credits -------------------------------------------------------------------------

  function Required(name: CombinationName): set<Behaviour> {
    match name
    case RansomwareEncryptLoop => {EnumerateUserDocuments, ReadForeignFile, WriteHighEntropy, DestroySnapshot}
    case CredentialExfiltration => {CredentialAccess, ConnectWithoutDns}
    case CodeInjection => {ForeignCodeWrite, PrivilegeRequest}
    case PersistentImplant => {PersistenceInstall, UnsignedModuleLoad, LogTampering}
  }

  /** Within how many milliseconds. */
  function Within(name: CombinationName): nat {
    match name
    case RansomwareEncryptLoop => 90_000
    case CredentialExfiltration => 300_000
    case CodeInjection => 60_000
    case PersistentImplant => 600_000
  }

  function BonusOf(name: CombinationName): nat {
    match name
    case RansomwareEncryptLoop => 70
    case CredentialExfiltration => 45
    case CodeInjection => 40
    case PersistentImplant => 55
  }

  /** Everything the combination needs was seen, and none of it too long ago. */
  ghost predicate Together(name: CombinationName, history: seq<Observation>, now: nat) {
    forall b | b in Required(name) ::
      exists i | 0 <= i < |history| :: history[i].behaviour == b && now <= history[i].timestampMs + Within(name)
  }

  function PlaceOf(name: CombinationName): (i: nat)
    ensures i < 4
  {
    match name
    case RansomwareEncryptLoop => 0
    case CredentialExfiltration => 1
    case CodeInjection => 2
    case PersistentImplant => 3
  }

  lemma Listed(name: CombinationName)
    ensures |COMBINATIONS| == 4
    ensures var c := COMBINATIONS[PlaceOf(name)];
            && c.name == name && c.windowMs == Within(name) && c.bonus == BonusOf(name)
            && (forall b :: b in c.required <==> b in Required(name))
  {
  }

  lemma TogetherIsPresent(name: CombinationName, history: seq<Observation>, now: nat)
    ensures |COMBINATIONS| == 4
    ensures Together(name, history, now) <==> IsPresent(COMBINATIONS[PlaceOf(name)], history, now)
  {
    Listed(name);
    hide COMBINATIONS, Required, Within;
    forall b
      ensures SeenWithin(b, history, now, Within(name)) <==>
              exists i | 0 <= i < |history| :: history[i].behaviour == b && now <= history[i].timestampMs + Within(name)
    {
      SeenLately(b, history, now, Within(name));
    }
  }

  lemma SeenLately(b: Behaviour, history: seq<Observation>, now: nat, window: nat)
    ensures SeenWithin(b, history, now, window) <==>
            exists i | 0 <= i < |history| :: history[i].behaviour == b && now <= history[i].timestampMs + window
  {
  }

  /** What a combination adds now: its bonus, if it is there and was not credited before. */
  ghost function Added(name: CombinationName, kept: seq<CombinationName>, history: seq<Observation>, now: nat): nat {
    if name !in kept && Together(name, history, now) then BonusOf(name) else 0
  }

  lemma FiresExactly(history: seq<Observation>, kept: seq<CombinationName>, now: nat)
    ensures var fired := Firing(COMBINATIONS, history, kept, now);
            && (forall n :: n in Names(fired) <==> n !in kept && Together(n, history, now))
            && Bonuses(fired) ==
               Added(RansomwareEncryptLoop, kept, history, now) + Added(CredentialExfiltration, kept, history, now)
               + Added(CodeInjection, kept, history, now) + Added(PersistentImplant, kept, history, now)
  {
    hide Firing, Bonuses, Names, Added, Together, COMBINATIONS;
    FiresStep(history, kept, now, RansomwareEncryptLoop);
    FiresStep(history, kept, now, CredentialExfiltration);
    FiresStep(history, kept, now, CodeInjection);
    FiresStep(history, kept, now, PersistentImplant);
    NothingFired(history, kept, now);
    assert COMBINATIONS[..4] == COMBINATIONS;
  }

  lemma FiresStep(history: seq<Observation>, kept: seq<CombinationName>, now: nat, name: CombinationName)
    ensures |COMBINATIONS| == 4
    ensures var i := PlaceOf(name);
            var before, after := Firing(COMBINATIONS[..i], history, kept, now),
                                 Firing(COMBINATIONS[..i + 1], history, kept, now);
            && Bonuses(after) == Bonuses(before) + Added(name, kept, history, now)
            && (forall n :: n in Names(after) <==>
                 n in Names(before) || (n == name && n !in kept && Together(n, history, now)))
  {
    Listed(name);
    TogetherIsPresent(name, history, now);
    FiringStep(history, kept, now, PlaceOf(name));
    var c := COMBINATIONS[PlaceOf(name)];
    var before := Firing(COMBINATIONS[..PlaceOf(name)], history, kept, now);
    BonusesStep(before, c);
    hide Firing, Bonuses, IsPresent, Together, COMBINATIONS, Names;
  }

  /** The credits an observation finds: they are gone when the score has just decayed to nothing. */
  function KeptCredits(p: Profile, now: nat): seq<CombinationName> {
    if now > p.lastDecayMs && DecayedScore(p.score, now - p.lastDecayMs) == 0 then [] else p.credited
  }

  /**
    An observation credits exactly the combinations that are together then; credits last exactly
    until the score has decayed to nothing; and each new credit adds its bonus once.
    */
  lemma CreditsExactly(p: Profile, b: Behaviour, now: nat)
    requires p.lastDecayMs <= now
    ensures var q, kept := Observed(p, b, now), KeptCredits(p, now);
            && (forall n :: n in q.credited <==> n in kept || Together(n, q.history, now))
            && q.score == SaturatingAdd32(
                            SaturatingAdd32(DecayedScore(p.score, now - p.lastDecayMs), p.role.Discounted(b)),
                            Added(RansomwareEncryptLoop, kept, q.history, now)
                            + Added(CredentialExfiltration, kept, q.history, now)
                            + Added(CodeInjection, kept, q.history, now)
                            + Added(PersistentImplant, kept, q.history, now))
            && q.role == p.role && q.lastDecayMs == now
  {
    var r, kept := Recorded(p, b, now), KeptCredits(p, now);
    RecordedParts(p, b, now);
    FiresExactly(r.history, kept, now);
    hide Recorded, KeptCredits, Firing, Bonuses, Names, Added, Together, COMBINATIONS, DecayedScore,
         DeclaredRole.Discounted;
  }

  lemma RecordedParts(p: Profile, b: Behaviour, now: nat)
    requires p.lastDecayMs <= now
    ensures var r := Recorded(p, b, now);
            && r.credited == KeptCredits(p, now) && r.role == p.role && r.lastDecayMs == now
            && r.score == SaturatingAdd32(DecayedScore(p.score, now - p.lastDecayMs), p.role.Discounted(b))
            && r.history == Remember(p.history, Observation(b, now))
  {
    assert DecayedScore(p.score, 0) == p.score;
    hide DecayedScore, DeclaredRole.Discounted;
  }

  // ----- bursts --------------------------------------------------------------------------

  /** The behaviours of a run, one after another at one moment. */
  function AtOnce(behaviours: seq<Behaviour>, now: nat): seq<Observation> {
    seq(|behaviours|, i requires 0 <= i < |behaviours| => Observation(behaviours[i], now))
  }

  function WeightsLeft(role: DeclaredRole, behaviours: seq<Behaviour>): nat {
    if behaviours == [] then 0
    else WeightsLeft(role, behaviours[..|behaviours| - 1]) + role.Discounted(behaviours[|behaviours| - 1])
  }

  /** The bonus of a combination all of whose behaviours are among these. */
  function BonusAmong(name: CombinationName, behaviours: seq<Behaviour>): nat {
    if forall b | b in Required(name) :: b in behaviours then BonusOf(name) else 0
  }

  function BonusesAmong(behaviours: seq<Behaviour>): nat {
    BonusAmong(RansomwareEncryptLoop, behaviours) + BonusAmong(CredentialExfiltration, behaviours)
    + BonusAmong(CodeInjection, behaviours) + BonusAmong(PersistentImplant, behaviours)
  }

  /**
    A burst of up to 128 behaviours scores, in whatever order, what the role leaves of their weights
    and the bonus, once, of every combination they contain.
    */
  lemma {:induction false} BurstScoresExactly(role: DeclaredRole, behaviours: seq<Behaviour>, now: nat)
    requires |behaviours| <= 128
    ensures var p := Later(Profile(role, [], 0, now, []), AtOnce(behaviours, now));
            && p.role == role && p.lastDecayMs == now && p.history == AtOnce(behaviours, now)
            && p.score == WeightsLeft(role, behaviours) + BonusesAmong(behaviours)
            && forall n :: n in p.credited <==> forall b | b in Required(n) :: b in behaviours
    decreases |behaviours|
  {
    hide Observed, DeclaredRole.Discounted, Required, BonusOf, Together;
    if behaviours == [] {
      NothingScores(role, now);
    } else {
      var front, last := behaviours[..|behaviours| - 1], behaviours[|behaviours| - 1];
      BurstScoresExactly(role, front, now);
      var q := Later(Profile(role, [], 0, now, []), AtOnce(front, now));
      assert AtOnce(behaviours, now)[..|behaviours| - 1] == AtOnce(front, now);
      hide Later;
      BurstStep(q, front, last, now, behaviours);
    }
  }

  lemma NothingScores(role: DeclaredRole, now: nat)
    ensures var p := Later(Profile(role, [], 0, now, []), AtOnce([], now));
            p == Profile(role, [], 0, now, []) && AtOnce([], now) == [] && BonusesAmong([]) == 0
    ensures forall n: CombinationName :: OneOf(n) in Required(n)
  {
  }

  /** Every combination needs something. */
  function OneOf(name: CombinationName): (b: Behaviour)
    ensures b in Required(name)
  {
    match name
    case RansomwareEncryptLoop => DestroySnapshot
    case CredentialExfiltration => CredentialAccess
    case CodeInjection => ForeignCodeWrite
    case PersistentImplant => LogTampering
  }

  lemma BurstStep(q: Profile, front: seq<Behaviour>, last: Behaviour, now: nat, behaviours: seq<Behaviour>)
    requires behaviours == front + [last] && |behaviours| <= 128
    requires q.lastDecayMs == now && q.history == AtOnce(front, now)
    requires q.score == WeightsLeft(q.role, front) + BonusesAmong(front)
    requires forall n :: n in q.credited <==> forall b | b in Required(n) :: b in front
    ensures var p := Observed(q, last, now);
            && p.role == q.role && p.lastDecayMs == now && p.history == AtOnce(behaviours, now)
            && p.score == WeightsLeft(q.role, behaviours) + BonusesAmong(behaviours)
            && forall n :: n in p.credited <==> forall b | b in Required(n) :: b in behaviours
  {
    var p := Observed(q, last, now);
    CreditsExactly(q, last, now);
    BurstHistory(q, front, last, now);
    assert DecayedScore(q.score, 0) == q.score;
    forall n: CombinationName
      ensures Together(n, p.history, now) <==> forall b | b in Required(n) :: b in behaviours
      ensures Added(n, q.credited, p.history, now) + BonusAmong(n, front) == BonusAmong(n, behaviours)
    {
      TogetherAtOnce(n, behaviours, now);
    }
    assert behaviours[..|front|] == front;
    WeightsBound(q.role, behaviours);
    hide Observed, Together, Added, DeclaredRole.Discounted, DecayedScore, BonusAmong, AtOnce;
  }

  lemma {:induction false} WeightsBound(role: DeclaredRole, behaviours: seq<Behaviour>)
    ensures WeightsLeft(role, behaviours) <= 45 * |behaviours| && BonusesAmong(behaviours) <= 210
  {
    hide DeclaredRole.Discounted;
    if behaviours != [] { WeightsBound(role, behaviours[..|behaviours| - 1]); }
  }

  lemma BurstHistory(q: Profile, front: seq<Behaviour>, last: Behaviour, now: nat)
    requires |front| < 128 && q.lastDecayMs == now && q.history == AtOnce(front, now)
    ensures Observed(q, last, now).history == AtOnce(front + [last], now)
  {
    hide Firing, DecayedScore;
    assert AtOnce(front, now) + [Observation(last, now)] == AtOnce(front + [last], now);
  }

  lemma TogetherAtOnce(name: CombinationName, behaviours: seq<Behaviour>, now: nat)
    ensures Together(name, AtOnce(behaviours, now), now) <==> forall b | b in Required(name) :: b in behaviours
  {
    hide Required, Within;
    var history := AtOnce(behaviours, now);
    forall b
      ensures b in behaviours <==>
              exists i | 0 <= i < |history| :: history[i].behaviour == b && now <= history[i].timestampMs + Within(name)
    {
      if b in behaviours {
        var i :| 0 <= i < |behaviours| && behaviours[i] == b;
        assert history[i].behaviour == b;
      }
    }
  }

  /** What each behaviour weighs, and what a role leaves of it. */
  function LeftOf(role: DeclaredRole, b: Behaviour): nat {
    match (role, b)
    case (BackupAgent, EnumerateUserDocuments) => 0
    case (BackupAgent, ReadForeignFile) => 0
    case (Compiler, WriteHighEntropy) => 0
    case (Compiler, MassRename) => 1
    case (EncryptionTool, WriteHighEntropy) => 0
    case (EncryptionTool, ReadForeignFile) => 2
    case (SandboxedAntiCheat, RawNetwork) => 0
    case (SandboxedAntiCheat, UnsignedModuleLoad) => 0
    case (_, EnumerateUserDocuments) => 5
    case (_, ReadForeignFile) => 5
    case (_, RawNetwork) => 10
    case (_, WriteHighEntropy) => 12
    case (_, PersistenceInstall) => 15
    case (_, UnsignedModuleLoad) => 15
    case (_, MassRename) => 18
    case (_, PrivilegeRequest) => 18
    case (_, CredentialAccess) => 20
    case (_, ConnectWithoutDns) => 22
    case (_, DestroySnapshot) => 35
    case (_, ForeignCodeWrite) => 40
    case (_, LogTampering) => 45
  }

  lemma LeavesExactly(role: DeclaredRole, b: Behaviour)
    ensures role.Discounted(b) == LeftOf(role, b)
  {
  }

  lemma VerdictsExactly(score: nat)
    ensures VerdictOf(score) == SuspendAndAsk <==> 110 <= score
    ensures VerdictOf(score) == Alert <==> 60 <= score < 110
    ensures VerdictOf(score) == Watch <==> 25 <= score < 60
  {
  }

  /** One behaviour alone is worth a Watch at most, and for three of them that. */
  lemma SingleBehaviourVerdict(b: Behaviour, now: nat)
    ensures var p := Observed(Profile(NoRole, [], 0, now, []), b, now);
            && p.score == LeftOf(NoRole, b)
            && VerdictOf(p.score) == if b in {DestroySnapshot, ForeignCodeWrite, LogTampering} then Watch else Clean
  {
    var p := Profile(NoRole, [], 0, now, []);
    BurstScoresExactly(NoRole, [b], now);
    assert AtOnce([b], now)[..0] == [] && Later(p, []) == p;
    OneBehaviour(NoRole, b);
    LeavesExactly(NoRole, b);
    VerdictsExactly(LeftOf(NoRole, b));
    hide Observed, BonusesAmong, DeclaredRole.Discounted, WeightsLeft;
  }

  lemma OneBehaviour(role: DeclaredRole, b: Behaviour)
    ensures WeightsLeft(role, [b]) == role.Discounted(b) && BonusesAmong([b]) == 0
  {
    hide DeclaredRole.Discounted;
    assert [b][..0] == [] && WeightsLeft(role, []) == 0;
    assert ReadForeignFile in Required(RansomwareEncryptLoop) && WriteHighEntropy in Required(RansomwareEncryptLoop);
    assert CredentialAccess in Required(CredentialExfiltration);
    assert ConnectWithoutDns in Required(CredentialExfiltration);
    assert ForeignCodeWrite in Required(CodeInjection) && PrivilegeRequest in Required(CodeInjection);
    assert PersistenceInstall in Required(PersistentImplant) && LogTampering in Required(PersistentImplant);
  }

  /** The behaviours of a combination, one each. */
  function OneEach(name: CombinationName): seq<Behaviour> {
    match name
    case RansomwareEncryptLoop => [EnumerateUserDocuments, ReadForeignFile, WriteHighEntropy, DestroySnapshot]
    case CredentialExfiltration => [CredentialAccess, ConnectWithoutDns]
    case CodeInjection => [ForeignCodeWrite, PrivilegeRequest]
    case PersistentImplant => [PersistenceInstall, UnsignedModuleLoad, LogTampering]
  }

  /** Of the four combinations on their own, at once and without a role, two suspend; the others end in an alert. */
  lemma CombinationVerdict(name: CombinationName, now: nat)
    ensures var p := Later(Profile(NoRole, [], 0, now, []), AtOnce(OneEach(name), now));
            && p.score == (match name
                           case RansomwareEncryptLoop => 127
                           case CredentialExfiltration => 87
                           case CodeInjection => 98
                           case PersistentImplant => 130)
            && VerdictOf(p.score) ==
               if name.RansomwareEncryptLoop? || name.PersistentImplant? then SuspendAndAsk else Alert
  {
    BurstScoresExactly(NoRole, OneEach(name), now);
    OneEachScores(name);
    hide Later, WeightsLeft, BonusesAmong, AtOnce;
  }

  lemma OneEachScores(name: CombinationName)
    ensures |OneEach(name)| <= 128 && BonusesAmong(OneEach(name)) == BonusOf(name)
    ensures WeightsLeft(NoRole, OneEach(name)) == match name
                                                  case RansomwareEncryptLoop => 57
                                                  case CredentialExfiltration => 42
                                                  case CodeInjection => 58
                                                  case PersistentImplant => 75
  {
    SumOfWeights(name);
    OnlyOne(name, RansomwareEncryptLoop);
    OnlyOne(name, CredentialExfiltration);
    OnlyOne(name, CodeInjection);
    OnlyOne(name, PersistentImplant);
    hide WeightsLeft, BonusAmong;
  }

  lemma OnlyOne(name: CombinationName, other: CombinationName)
    ensures BonusAmong(other, OneEach(name)) == if other == name then BonusOf(name) else 0
  {
    assert ReadForeignFile in Required(RansomwareEncryptLoop) && CredentialAccess in Required(CredentialExfiltration);
    assert ForeignCodeWrite in Required(CodeInjection) && LogTampering in Required(PersistentImplant);
  }

  lemma SumOfWeights(name: CombinationName)
    ensures WeightsLeft(NoRole, OneEach(name)) == match name
                                                  case RansomwareEncryptLoop => 57
                                                  case CredentialExfiltration => 42
                                                  case CodeInjection => 58
                                                  case PersistentImplant => 75
  {
    hide DeclaredRole.Discounted, WeightsLeft;
    match name {
      case RansomwareEncryptLoop =>
        LeavesExactly(NoRole, EnumerateUserDocuments);
        LeavesExactly(NoRole, ReadForeignFile);
        LeavesExactly(NoRole, WriteHighEntropy);
        LeavesExactly(NoRole, DestroySnapshot);
        SumOfFour(EnumerateUserDocuments, ReadForeignFile, WriteHighEntropy, DestroySnapshot);
      case CredentialExfiltration =>
        LeavesExactly(NoRole, CredentialAccess);
        LeavesExactly(NoRole, ConnectWithoutDns);
        SumOfTwo(CredentialAccess, ConnectWithoutDns);
      case CodeInjection =>
        LeavesExactly(NoRole, ForeignCodeWrite);
        LeavesExactly(NoRole, PrivilegeRequest);
        SumOfTwo(ForeignCodeWrite, PrivilegeRequest);
      case PersistentImplant =>
        LeavesExactly(NoRole, PersistenceInstall);
        LeavesExactly(NoRole, UnsignedModuleLoad);
        LeavesExactly(NoRole, LogTampering);
        SumOfThree(PersistenceInstall, UnsignedModuleLoad, LogTampering);
    }
  }

  lemma SumOfTwo(a: Behaviour, b: Behaviour)
    ensures WeightsLeft(NoRole, [a, b]) == NoRole.Discounted(a) + NoRole.Discounted(b)
  {
    hide DeclaredRole.Discounted;
    assert [a, b][..1] == [a] && [a][..0] == [] && WeightsLeft(NoRole, []) == 0;
    assert WeightsLeft(NoRole, [a]) == NoRole.Discounted(a);
  }

  lemma SumOfThree(a: Behaviour, b: Behaviour, c: Behaviour)
    ensures WeightsLeft(NoRole, [a, b, c]) == NoRole.Discounted(a) + NoRole.Discounted(b) + NoRole.Discounted(c)
  {
    hide DeclaredRole.Discounted;
    SumOfTwo(a, b);
    assert [a, b, c][..2] == [a, b];
  }

  lemma SumOfFour(a: Behaviour, b: Behaviour, c: Behaviour, d: Behaviour)
    ensures WeightsLeft(NoRole, [a, b, c, d]) ==
            NoRole.Discounted(a) + NoRole.Discounted(b) + NoRole.Discounted(c) + NoRole.Discounted(d)
  {
    hide DeclaredRole.Discounted;
    SumOfThree(a, b, c);
    assert [a, b, c, d][..3] == [a, b, c];
  }

  // ----- a role at its work --------------------------------------------------------------

  /** What a declared role is there to do. */
  function Work(role: DeclaredRole): set<Behaviour> {
    match role
    case NoRole => {}
    case BackupAgent => {EnumerateUserDocuments, ReadForeignFile}
    case Compiler => {WriteHighEntropy}
    case EncryptionTool => {WriteHighEntropy}
    case SandboxedAntiCheat => {RawNetwork, UnsignedModuleLoad}
  }

  /** A process that does nothing but the work it declared stays clean, however much it does and however fast. */
  lemma {:induction false} WorkStaysClean(role: DeclaredRole, start: nat, run: seq<Observation>)
    requires forall o | o in run :: o.behaviour in Work(role)
    requires forall i | 0 <= i < |run| :: start <= run[i].timestampMs
    requires forall i, j | 0 <= i < j < |run| :: run[i].timestampMs <= run[j].timestampMs
    ensures var p := Later(Profile(role, [], 0, start, []), run);
            && p.role == role && p.score == 0 && VerdictOf(p.score) == Clean && (forall n :: n !in p.credited)
            && p.lastDecayMs == (if run == [] then start else run[|run| - 1].timestampMs)
            && forall o | o in p.history :: o.behaviour in Work(role)
  {
    hide Observed, Work;
    if run != [] {
      var front, last := run[..|run| - 1], run[|run| - 1];
      assert last in run && forall o | o in front :: o in run;
      WorkStaysClean(role, start, front);
      WorkScoresNothing(Later(Profile(role, [], 0, start, []), front), last.behaviour, last.timestampMs);
    }
  }

  lemma WorkScoresNothing(p: Profile, b: Behaviour, now: nat)
    requires p.score == 0 && p.lastDecayMs <= now && b in Work(p.role) && forall n :: n !in p.credited
    requires forall o | o in p.history :: o.behaviour in Work(p.role)
    ensures var q := Observed(p, b, now);
            && q.role == p.role && q.score == 0 && q.lastDecayMs == now && (forall n :: n !in q.credited)
            && forall o | o in q.history :: o.behaviour in Work(p.role)
  {
    hide Observed, Together, DeclaredRole.Discounted, DecayedScore;
    var q := Observed(p, b, now);
    CreditsExactly(p, b, now);
    WorkWeighsNothing(p.role, b);
    NothingDecays(now - p.lastDecayMs);
    HistoryGrows(p, b, now);
    forall n: CombinationName
      ensures !Together(n, q.history, now)
    {
      WorkIsNoCombination(p.role, n, q.history, now);
    }
  }

  lemma WorkWeighsNothing(role: DeclaredRole, b: Behaviour)
    requires b in Work(role)
    ensures role.Discounted(b) == 0
  {
    LeavesExactly(role, b);
  }

  lemma NothingDecays(elapsed: nat)
    ensures DecayedScore(0, elapsed) == 0
  {
  }

  lemma HistoryGrows(p: Profile, b: Behaviour, now: nat)
    ensures forall o | o in Observed(p, b, now).history :: o in p.history || o == Observation(b, now)
  {
    hide Firing, DecayedScore;
  }

  lemma WorkIsNoCombination(role: DeclaredRole, name: CombinationName, history: seq<Observation>, now: nat)
    requires forall o | o in history :: o.behaviour in Work(role)
    ensures !Together(name, history, now)
  {
    var b := OneOf(name);
    assert b in Required(name) && b !in Work(role);
    forall i | 0 <= i < |history|
      ensures history[i].behaviour != b
    {
      assert history[i] in history;
    }
  }

  /** The latest 128 observations. */
  function Latest(run: seq<Observation>): seq<Observation> {
    if |run| <= 128 then run else run[|run| - 128..]
  }

  lemma LatestStep(front: seq<Observation>, last: Observation)
    ensures Latest(front + [last]) ==
            (if |Latest(front)| < 128 then Latest(front) else Latest(front)[1..]) + [last]
  {
  }

  /** The history is the latest 128 observations of the run. */
  lemma {:induction false} HistoryIsLatest(role: DeclaredRole, start: nat, run: seq<Observation>)
    ensures Later(Profile(role, [], 0, start, []), run).history == Latest(run)
  {
    hide Observed;
    if run != [] {
      var front, last := run[..|run| - 1], run[|run| - 1];
      HistoryIsLatest(role, start, front);
      assert front + [last] == run;
      LatestStep(front, last);
      hide Latest;
      RemembersLatest(Later(Profile(role, [], 0, start, []), front), last);
    }
  }

  lemma RemembersLatest(p: Profile, o: Observation)
    ensures Observed(p, o.behaviour, o.timestampMs).history ==
            (if |p.history| < 128 then p.history else p.history[1..]) + [o]
  {
    hide Firing, DecayedScore;
  }
}
