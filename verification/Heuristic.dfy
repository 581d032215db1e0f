/**
  The behavioural anomaly engine (`spectreshield/src/heuristic.rs`): a score that grows with
  what a process is seen doing, decays with a five-minute half-life, and jumps when several
  behaviours come together.
  */
module Heuristic {
  import opened Words
  import opened Bits

  datatype Behaviour =
    | EnumerateUserDocuments | ReadForeignFile | WriteHighEntropy | DestroySnapshot | MassRename
    | ForeignCodeWrite | RawNetwork | ConnectWithoutDns | CredentialAccess | PersistenceInstall
    | PrivilegeRequest | UnsignedModuleLoad | LogTampering
  {
    function Weight(): (w: nat)
      ensures 5 <= w <= 45
    {
      match this
      case EnumerateUserDocuments => 5
      case ReadForeignFile => 5
      case RawNetwork => 10
      case WriteHighEntropy => 12
      case MassRename => 18
      case PersistenceInstall => 15
      case CredentialAccess => 20
      case UnsignedModuleLoad => 15
      case ConnectWithoutDns => 22
      case PrivilegeRequest => 18
      case DestroySnapshot => 35
      case ForeignCodeWrite => 40
      case LogTampering => 45
    }
  }

  datatype CombinationName = RansomwareEncryptLoop | CredentialExfiltration | CodeInjection | PersistentImplant

  datatype Combination = Combination(name: CombinationName, required: seq<Behaviour>, windowMs: nat, bonus: nat)

  const COMBINATIONS: seq<Combination> := [
    Combination(RansomwareEncryptLoop,
                [EnumerateUserDocuments, ReadForeignFile, WriteHighEntropy, DestroySnapshot], 90_000, 70),
    Combination(CredentialExfiltration, [CredentialAccess, ConnectWithoutDns], 300_000, 45),
    Combination(CodeInjection, [ForeignCodeWrite, PrivilegeRequest], 60_000, 40),
    Combination(PersistentImplant, [PersistenceInstall, UnsignedModuleLoad, LogTampering], 600_000, 55)
  ]

  datatype DeclaredRole = NoRole | BackupAgent | Compiler | EncryptionTool | SandboxedAntiCheat {
    /** Percentage of a behaviour's weight that the role takes off. */
    function Discount(b: Behaviour): (d: nat)
      ensures d <= 100
      ensures b.DestroySnapshot? || b.ForeignCodeWrite? || b.LogTampering? ==> d == 0
    {
      match (this, b)
      case (BackupAgent, EnumerateUserDocuments) => 100
      case (BackupAgent, ReadForeignFile) => 100
      case (Compiler, WriteHighEntropy) => 100
      case (Compiler, MassRename) => 90
      case (EncryptionTool, WriteHighEntropy) => 100
      case (EncryptionTool, ReadForeignFile) => 60
      case (SandboxedAntiCheat, RawNetwork) => 100
      case (SandboxedAntiCheat, UnsignedModuleLoad) => 100
      case _ => 0
    }

    /** What the role leaves of a behaviour's weight. */
    function Discounted(b: Behaviour): (w: nat)
      ensures w <= b.Weight() <= 45
    {
      b.Weight() * (100 - Discount(b)) / 100
    }
  }

  datatype Verdict = Clean | Watch | Alert | SuspendAndAsk

  const WATCH_THRESHOLD: nat := 25
  const ALERT_THRESHOLD: nat := 60
  const SUSPEND_THRESHOLD: nat := 110
  const HALF_LIFE_MS: nat := 300_000
  const HISTORY: nat := 128

  datatype Observation = Observation(behaviour: Behaviour, timestampMs: nat)

  /** What a profile holds, as a value. */
  datatype Profile = Profile(
    role: DeclaredRole, history: seq<Observation>, score: u32, lastDecayMs: nat, credited: seq<CombinationName>)

  function SaturatingSub(a: nat, b: nat): nat {
    if a >= b then a - b else 0
  }

  function VerdictOf(score: nat): Verdict {
    if score >= SUSPEND_THRESHOLD then SuspendAndAsk
    else if score >= ALERT_THRESHOLD then Alert
    else if score >= WATCH_THRESHOLD then Watch
    else Clean
  }

  /** The score `elapsed` milliseconds on: halved once a period, linear in between. */
  function DecayedScore(score: u32, elapsed: nat): (s: u32)
    ensures s <= score
    ensures elapsed == 0 ==> s == score
  {
    var periods := elapsed / HALF_LIFE_MS;
    if periods >= 32 then 0
    else
      var halved := ShiftRight(score, periods);
      SaturatingSub(halved, halved * (elapsed % HALF_LIFE_MS) / (HALF_LIFE_MS * 2))
  }

  /** Every required behaviour was seen within the window. */
  predicate IsPresent(c: Combination, history: seq<Observation>, now: nat) {
    forall b | b in c.required :: SeenWithin(b, history, now, c.windowMs)
  }

  predicate SeenWithin(b: Behaviour, history: seq<Observation>, now: nat, window: nat) {
    exists i | 0 <= i < |history| :: history[i].behaviour == b && SaturatingSub(now, history[i].timestampMs) <= window
  }

  /** The combinations that fire now: present, and not credited yet. */
  function Firing(cs: seq<Combination>, history: seq<Observation>, credited: seq<CombinationName>, now: nat)
    : seq<Combination>
  {
    if cs == [] then []
    else
      var c := cs[|cs| - 1];
      Firing(cs[..|cs| - 1], history, credited, now) +
      if c.name !in credited && IsPresent(c, history, now) then [c] else []
  }

  function Bonuses(cs: seq<Combination>): nat {
    if cs == [] then 0 else Bonuses(cs[..|cs| - 1]) + cs[|cs| - 1].bonus
  }

  function Names(cs: seq<Combination>): seq<CombinationName> {
    seq(|cs|, i requires 0 <= i < |cs| => cs[i].name)
  }

  /** `decay`: once the score is gone, combinations can be earned again. */
  function Decayed(p: Profile, now: nat): Profile {
    if now <= p.lastDecayMs then p
    else
      var score := DecayedScore(p.score, now - p.lastDecayMs);
      p.(score := score, lastDecayMs := now, credited := if score == 0 then [] else p.credited)
  }

  /** The history ring keeps the latest 128 observations. */
  function Remember(history: seq<Observation>, o: Observation): seq<Observation> {
    (if |history| >= HISTORY then history[1..] else history) + [o]
  }

  function Recorded(p: Profile, b: Behaviour, now: nat): Profile {
    var d := Decayed(p, now);
    d.(score := SaturatingAdd32(d.score, d.role.Discounted(b)), history := Remember(d.history, Observation(b, now)))
  }

  function Observed(p: Profile, b: Behaviour, now: nat): Profile {
    var r := Recorded(p, b, now);
    var fired := Firing(COMBINATIONS, r.history, r.credited, now);
    r.(score := SaturatingAdd32(r.score, Bonuses(fired)), credited := r.credited + Names(fired))
  }

  /** The profile `p` after more observations. */
  function Later(p: Profile, run: seq<Observation>): Profile {
    if run == [] then p
    else
      var last := run[|run| - 1];
      Observed(Later(p, run[..|run| - 1]), last.behaviour, last.timestampMs)
  }

  class ProcessProfile {
    const role: DeclaredRole
    var history: seq<Observation>
    var score: u32
    var lastDecayMs: nat
    var credited: seq<CombinationName>

    constructor (role: DeclaredRole, now: nat)
      ensures State() == Profile(role, [], 0, now, [])
    {
      this.role := role;
      history, score, lastDecayMs, credited := [], 0, now, [];
    }

    function State(): Profile
      reads this
    {
      Profile(role, history, score, lastDecayMs, credited)
    }

    method Observe(behaviour: Behaviour, now: nat) returns (v: Verdict)
      modifies this
      ensures State() == Observed(old(State()), behaviour, now) && v == VerdictOf(score)
    {
      hide DecayedScore, Firing, Bonuses, Names, COMBINATIONS;
      Decay(now);
      var discount := role.Discount(behaviour);
      var weight := behaviour.Weight() * (100 - discount) / 100;
      score := SaturatingAdd32(score, weight);
      if |history| >= HISTORY { history := history[1..]; }
      history := history + [Observation(behaviour, now)];
      var bonus := CheckCombinations(now);
      score := SaturatingAdd32(score, bonus);
      v := VerdictOf(score);
    }

    method Decay(now: nat)
      modifies this
      ensures State() == Decayed(old(State()), now)
    {
      var elapsed := SaturatingSub(now, lastDecayMs);
      if elapsed == 0 { return; }
      var periods := elapsed / HALF_LIFE_MS;
      if periods >= 32 {
        score := 0;
      } else {
        score := ShiftRight(score, periods);
        var remainder := elapsed % HALF_LIFE_MS;
        var reduction := score * remainder / (HALF_LIFE_MS * 2);
        score := SaturatingSub(score, reduction);
      }
      lastDecayMs := now;
      if score == 0 { credited := []; }
    }

    method CheckCombinations(now: nat) returns (bonus: nat)
      modifies this`credited
      ensures var fired := Firing(COMBINATIONS, history, old(credited), now);
              bonus == Bonuses(fired) && credited == old(credited) + Names(fired)
    {
      hide *;
      bonus := 0;
      ghost var start := credited;
      ghost var fired: seq<Combination> := [];
      NothingFired(history, start, now);
      for i := 0 to |COMBINATIONS|
        invariant fired == Firing(COMBINATIONS[..i], history, start, now)
        invariant bonus == Bonuses(fired) && credited == start + Names(fired)
      {
        var combo := COMBINATIONS[i];
        FiringStep(history, start, now, i);
        if combo.name in credited { continue; }
        if IsPresent(combo, history, now) {
          BonusesStep(fired, combo);
          bonus := bonus + combo.bonus;
          credited := credited + [combo.name];
          fired := fired + [combo];
        }
      }
      assert COMBINATIONS[..|COMBINATIONS|] == COMBINATIONS;
    }
  }

  lemma NothingFired(history: seq<Observation>, credited: seq<CombinationName>, now: nat)
    ensures Firing(COMBINATIONS[..0], history, credited, now) == [] && Bonuses([]) == 0 && Names([]) == []
  {
  }

  /** A combination is not credited twice in one pass, as each name is listed once. */
  lemma FiringStep(history: seq<Observation>, credited: seq<CombinationName>, now: nat, i: nat)
    requires i < |COMBINATIONS|
    ensures var c, before := COMBINATIONS[i], Firing(COMBINATIONS[..i], history, credited, now);
            && Firing(COMBINATIONS[..i + 1], history, credited, now) ==
               (if c.name !in credited && IsPresent(c, history, now) then before + [c] else before)
            && (c.name in credited + Names(before) <==> c.name in credited)
  {
    hide IsPresent;
    var c, before := COMBINATIONS[i], Firing(COMBINATIONS[..i], history, credited, now);
    assert COMBINATIONS[..i + 1][..i] == COMBINATIONS[..i];
    FiringIsPart(COMBINATIONS[..i], history, credited, now);
    NamesAreDistinct(before, i);
  }

  lemma {:induction false} FiringIsPart(cs: seq<Combination>, history: seq<Observation>,
                                        credited: seq<CombinationName>, now: nat)
    ensures forall c :: c in Firing(cs, history, credited, now) <==>
                        c in cs && c.name !in credited && IsPresent(c, history, now)
  {
    hide IsPresent;
    if cs != [] { FiringIsPart(cs[..|cs| - 1], history, credited, now); }
  }

  lemma BonusesStep(fired: seq<Combination>, c: Combination)
    ensures Bonuses(fired + [c]) == Bonuses(fired) + c.bonus && Names(fired + [c]) == Names(fired) + [c.name]
  {
    assert (fired + [c])[..|fired|] == fired;
  }

  lemma NamesAreDistinct(fired: seq<Combination>, i: nat)
    requires i < |COMBINATIONS| && forall c | c in fired :: c in COMBINATIONS[..i]
    ensures COMBINATIONS[i].name !in Names(fired)
  {
    forall k | 0 <= k < |fired|
      ensures fired[k].name != COMBINATIONS[i].name
    {
      var c := fired[k];
      assert c in COMBINATIONS[..i];
      var j :| 0 <= j < i && COMBINATIONS[j] == c;
    }
  }
}
