/** Concurrent invocations of the controls gateway, as a state machine: each
    step is one port call, or the start or the end of the wrapped function, of
    one invocation.  `log` is history that no step reads. */
module Gateway {
  import opened Options
  import Q = Quota

  datatype PortErrorPolicy = Propagate | Allow | Deny

  datatype Config = Config(
    buckets: map<string, Q.Policy>,
    hasEntitlements: bool,
    cooldownSeconds: real,
    portErrorPolicy: PortErrorPolicy)

  datatype Outcome =
    | Succeeded(tokensRemaining: Option<int>)
    | HardCapped
    | QuotaExhausted(tokensRemaining: Option<int>, cooldownUntil: Option<real>)
    | Throttled(cooldownUntil: Option<real>)
    | Internal

  datatype Phase =
    | Checking                        // about to ask the entitlements hook
    | Acquiring                       // about to acquire quota
    | Admitted(tokens: Option<int>)   // about to start the function
    | Running(tokens: Option<int>)
    | Marking                         // the function was throttled; about to mark a cooldown
    | Done(outcome: Outcome)
    | Rejected                        // unknown bucket

  datatype Invocation = Invocation(tenant: string, bucket: string, phase: Phase) {
    function Key(): Q.Key {
      (tenant, bucket)
    }
  }

  datatype Event =
    | Debited(id: nat, key: Q.Key, ts: real)      // the store allowed an acquire
    | WavedThrough(id: nat)                       // the store raised and the policy is "allow"
    | Started(id: nat, key: Q.Key, ts: real)
    | Returned(id: nat)                           // the function returned
    | Threw(id: nat, throttled: bool)             // the function raised, and whether that was a throttle
    | Marked(id: nat, key: Q.Key, deadline: real)
    | Finished(id: nat, outcome: Outcome, raised: bool)

  datatype State = State(store: Q.State, now: real, invocations: map<nat, Invocation>, log: seq<Event>)

  datatype CapAnswer = Capped | NotCapped | CapError

  datatype Action =
    | Tick(ts: real)
    | Invoke(id: nat, tenant: string, bucket: string)
    | HardCap(id: nat, answer: CapAnswer)
    | Acquire(id: nat)
    | AcquireError(id: nat)
    | Start(id: nat)
    | Return(id: nat)
    | Fail(id: nat, throttled: bool)
    | Mark(id: nat, works: bool)

  const Init := State(Q.Empty, 0.0, map[], [])

  predicate Enabled(cfg: Config, s: State, a: Action) {
    match a
    case Tick(ts) => ts >= s.now
    case Invoke(id, _, _) => id !in s.invocations
    case HardCap(id, answer) =>
      id in s.invocations && s.invocations[id].phase.Checking? && (!cfg.hasEntitlements ==> answer.NotCapped?)
    case Acquire(id) => id in s.invocations && s.invocations[id].phase.Acquiring?
                        && s.invocations[id].bucket in cfg.buckets
    case AcquireError(id) => id in s.invocations && s.invocations[id].phase.Acquiring?
    case Start(id) => id in s.invocations && s.invocations[id].phase.Admitted?
    case Return(id) => id in s.invocations && s.invocations[id].phase.Running?
    case Fail(id, _) => id in s.invocations && s.invocations[id].phase.Running?
    case Mark(id, _) => id in s.invocations && s.invocations[id].phase.Marking?
  }

  function SetPhase(s: State, id: nat, phase: Phase): State
    requires id in s.invocations
  {
    s.(invocations := s.invocations[id := s.invocations[id].(phase := phase)])
  }

  /** `_finish`: report the outcome, then return it or let the error go on. */
  function Finish(s: State, id: nat, outcome: Outcome, raised: bool): State
    requires id in s.invocations
  {
    SetPhase(s, id, Done(outcome)).(log := s.log + [Finished(id, outcome, raised)])
  }

  function Next(cfg: Config, s: State, a: Action): State
    requires Enabled(cfg, s, a)
  {
    match a
    case Tick(ts) => s.(now := ts)
    case Invoke(id, tenant, bucket) =>
      var phase := if bucket in cfg.buckets then Checking else Rejected;
      s.(invocations := s.invocations[id := Invocation(tenant, bucket, phase)])
    case HardCap(id, answer) =>
      (match answer
       case Capped => Finish(s, id, HardCapped, false)
       case NotCapped => SetPhase(s, id, Acquiring)
       case CapError =>
         (match cfg.portErrorPolicy
          case Propagate => Finish(s, id, Internal, true)
          case Deny => Finish(s, id, HardCapped, false)
          case Allow => SetPhase(s, id, Acquiring)))
    case Acquire(id) =>
      var inv := s.invocations[id];
      var (store, d) := Q.Acquire(s.store, inv.Key(), cfg.buckets[inv.bucket], s.now);
      var t := s.(store := store);
      if d.allowed then
        SetPhase(t, id, Admitted(Some(d.tokensRemaining))).(log := s.log + [Debited(id, inv.Key(), s.now)])
      else
        Finish(t, id, QuotaExhausted(Some(d.tokensRemaining), d.cooldownUntil), false)
    case AcquireError(id) =>
      (match cfg.portErrorPolicy
       case Propagate => Finish(s, id, Internal, true)
       case Deny => Finish(s, id, QuotaExhausted(Some(0), None), false)
       case Allow => SetPhase(s, id, Admitted(None)).(log := s.log + [WavedThrough(id)]))
    case Start(id) =>
      var inv := s.invocations[id];
      SetPhase(s, id, Running(inv.phase.tokens)).(log := s.log + [Started(id, inv.Key(), s.now)])
    case Return(id) =>
      Finish(s.(log := s.log + [Returned(id)]), id, Succeeded(s.invocations[id].phase.tokens), false)
    case Fail(id, throttled) =>
      var t := s.(log := s.log + [Threw(id, throttled)]);
      if throttled then SetPhase(t, id, Marking) else Finish(t, id, Internal, false)
    case Mark(id, works) =>
      var key, deadline := s.invocations[id].Key(), s.now + cfg.cooldownSeconds;
      if works then
        var store := Q.MarkCooldown(s.store, key, cfg.cooldownSeconds, s.now);
        var t := s.(store := store, log := s.log + [Marked(id, key, deadline)]);
        Finish(t, id, Throttled(Some(deadline)), false)
      else
        Finish(s, id, Throttled(None), false)
  }

  // ---- One debit per start, one outcome per invocation ----

  datatype Kind = Debit | Wave | Begun | Back | Fault | Throttle | End

  predicate Is(e: Event, kind: Kind, id: nat) {
    e.id == id && match kind
                  case Debit => e.Debited?
                  case Wave => e.WavedThrough?
                  case Begun => e.Started?
                  case Back => e.Returned?
                  case Fault => e.Threw? && !e.throttled
                  case Throttle => e.Threw? && e.throttled
                  case End => e.Finished?
  }

  function Count(log: seq<Event>, kind: Kind, id: nat): nat {
    if log == [] then 0 else Count(log[..|log| - 1], kind, id) + if Is(log[|log| - 1], kind, id) then 1 else 0
  }

  lemma CountSnoc(log: seq<Event>, e: Event, kind: Kind, id: nat)
    ensures Count(log + [e], kind, id) == Count(log, kind, id) + if Is(e, kind, id) then 1 else 0
  {
    assert (log + [e])[..|log|] == log;
  }

  /** The permissions, starts, ends of the function and reports of one invocation so far. */
  datatype Tally = Tally(debits: nat, waves: nat, starts: nat, backs: nat, faults: nat, throttles: nat, ends: nat) {
    function Stops(): nat {
      backs + faults + throttles
    }
  }

  const NOTHING := Tally(0, 0, 0, 0, 0, 0, 0)

  function TallyOf(log: seq<Event>, id: nat): Tally {
    Tally(Count(log, Debit, id), Count(log, Wave, id), Count(log, Begun, id), Count(log, Back, id),
          Count(log, Fault, id), Count(log, Throttle, id), Count(log, End, id))
  }

  predicate TallyFits(cfg: Config, phase: Phase, t: Tally) {
    && (cfg.portErrorPolicy != Allow ==> t.waves == 0)
    && match phase
       case Checking => t == NOTHING
       case Acquiring => t == NOTHING
       case Rejected => t == NOTHING
       case Admitted(_) => t.debits + t.waves == 1 && t.starts == 0 && t.Stops() == 0 && t.ends == 0
       case Running(_) => t.debits + t.waves == 1 && t.starts == 1 && t.Stops() == 0 && t.ends == 0
       case Marking => t.debits + t.waves == 1 && t.starts == 1 && t.Stops() == t.throttles == 1 && t.ends == 0
       case Done(outcome) =>
         && t.ends == 1 && t.debits + t.waves == t.starts == t.Stops() <= 1
         && (outcome.Succeeded? <==> t.backs == 1)
         && (outcome.Throttled? <==> t.throttles == 1)
         && (outcome.HardCapped? || outcome.QuotaExhausted? ==> t.starts == 0)
  }

  function PhaseOf(s: State, id: nat): Phase {
    if id in s.invocations then s.invocations[id].phase else Rejected
  }

  ghost predicate TalliesFit(cfg: Config, s: State) {
    forall id: nat {:trigger TallyOf(s.log, id)} :: TallyFits(cfg, PhaseOf(s, id), TallyOf(s.log, id))
  }

  function Counted(t: Tally, e: Event): Tally {
    match e
    case Debited(_, _, _) => t.(debits := t.debits + 1)
    case WavedThrough(_) => t.(waves := t.waves + 1)
    case Started(_, _, _) => t.(starts := t.starts + 1)
    case Returned(_) => t.(backs := t.backs + 1)
    case Threw(_, throttled) => if throttled then t.(throttles := t.throttles + 1) else t.(faults := t.faults + 1)
    case Finished(_, _, _) => t.(ends := t.ends + 1)
    case Marked(_, _, _) => t
  }

  /** A step adds at most two events. */
  function CountedAll(t: Tally, more: seq<Event>): Tally
    requires |more| <= 2
  {
    if |more| == 0 then t
    else if |more| == 1 then Counted(t, more[0])
    else Counted(Counted(t, more[0]), more[1])
  }

  lemma TallySnoc(log: seq<Event>, e: Event, id: nat)
    ensures TallyOf(log + [e], id) == if e.id == id then Counted(TallyOf(log, id), e) else TallyOf(log, id)
  {
    CountSnoc(log, e, Debit, id);
    CountSnoc(log, e, Wave, id);
    CountSnoc(log, e, Begun, id);
    CountSnoc(log, e, Back, id);
    CountSnoc(log, e, Fault, id);
    CountSnoc(log, e, Throttle, id);
    CountSnoc(log, e, End, id);
  }

  /** Events of one invocation count in its own tally only. */
  lemma TallyOfAppended(log: seq<Event>, more: seq<Event>, mover: nat, id: nat)
    requires |more| <= 2 && forall i :: 0 <= i < |more| ==> more[i].id == mover
    ensures TallyOf(log + more, id) == if id == mover then CountedAll(TallyOf(log, id), more) else TallyOf(log, id)
  {
    if |more| == 0 {
      assert log + more == log;
    } else if |more| == 1 {
      assert more == [more[0]];
      TallySnoc(log, more[0], id);
    } else {
      assert log + more == (log + [more[0]]) + [more[1]];
      TallySnoc(log, more[0], id);
      TallySnoc(log + [more[0]], more[1], id);
    }
  }

  /** The events a step adds are about the invocation that moved. */
  lemma LogGrows(cfg: Config, s: State, a: Action)
    requires Enabled(cfg, s, a)
    ensures var t := Next(cfg, s, a);
            s.log <= t.log && |t.log| <= |s.log| + 2
            && (a.Tick? ==> t.log == s.log)
            && (!a.Tick? ==> forall i :: |s.log| <= i < |t.log| ==> t.log[i].id == a.id)
  {
  }

  /** A step adds these events, about the invocation that moved, which keep its
      tally in step with its phase. */
  predicate Adds(cfg: Config, s: State, t: State, id: nat, tally: Tally, more: seq<Event>) {
    && t.log == s.log + more && |more| <= 2 && (forall i :: 0 <= i < |more| ==> more[i].id == id)
    && TallyFits(cfg, PhaseOf(t, id), CountedAll(tally, more))
  }

  lemma Suffix(log: seq<Event>, longer: seq<Event>) returns (more: seq<Event>)
    requires log <= longer
    ensures longer == log + more && |more| == |longer| - |log|
    ensures forall i :: 0 <= i < |more| ==> more[i] == longer[|log| + i]
  {
    more := longer[|log|..];
  }

  lemma NothingAdded(cfg: Config, s: State, t: State, id: nat, tally: Tally)
    requires t.log == s.log && TallyFits(cfg, PhaseOf(t, id), tally)
    ensures Adds(cfg, s, t, id, tally, [])
  {
  }

  lemma OneAdded(cfg: Config, s: State, t: State, id: nat, tally: Tally, e: Event)
    requires t.log == s.log + [e] && e.id == id && TallyFits(cfg, PhaseOf(t, id), Counted(tally, e))
    ensures Adds(cfg, s, t, id, tally, [e])
  {
  }

  lemma TwoAdded(cfg: Config, s: State, t: State, id: nat, tally: Tally, e: Event, f: Event)
    requires t.log == (s.log + [e]) + [f] && e.id == f.id == id
    requires TallyFits(cfg, PhaseOf(t, id), Counted(Counted(tally, e), f))
    ensures Adds(cfg, s, t, id, tally, [e, f])
  {
    assert (s.log + [e]) + [f] == s.log + [e, f];
  }

  lemma CheckFits(cfg: Config, s: State, a: Action, tally: Tally) returns (more: seq<Event>)
    requires Enabled(cfg, s, a) && (a.Invoke? || a.HardCap?) && TallyFits(cfg, PhaseOf(s, a.id), tally)
    ensures Adds(cfg, s, Next(cfg, s, a), a.id, tally, more)
  {
    var t := Next(cfg, s, a);
    if PhaseOf(t, a.id).Done? {
      var e := Finished(a.id, PhaseOf(t, a.id).outcome, a.answer.CapError? && cfg.portErrorPolicy.Propagate?);
      OneAdded(cfg, s, t, a.id, tally, e);
      more := [e];
    } else {
      NothingAdded(cfg, s, t, a.id, tally);
      more := [];
    }
  }

  lemma PhaseFinishes(cfg: Config, s: State, t: State, id: nat, tally: Tally, raised: bool)
    requires PhaseOf(t, id).Done? && tally == NOTHING
    requires var outcome := PhaseOf(t, id).outcome; !outcome.Succeeded? && !outcome.Throttled?
    requires t.log == s.log + [Finished(id, PhaseOf(t, id).outcome, raised)]
    ensures Adds(cfg, s, t, id, tally, [Finished(id, PhaseOf(t, id).outcome, raised)])
  {
    OneAdded(cfg, s, t, id, tally, Finished(id, PhaseOf(t, id).outcome, raised));
  }

  lemma AcquireFits(cfg: Config, s: State, id: nat, tally: Tally) returns (more: seq<Event>)
    requires Enabled(cfg, s, Acquire(id)) && TallyFits(cfg, PhaseOf(s, id), tally)
    ensures Adds(cfg, s, Next(cfg, s, Acquire(id)), id, tally, more)
  {
    var t := Next(cfg, s, Acquire(id));
    var key := s.invocations[id].Key();
    if Q.Acquire(s.store, key, cfg.buckets[s.invocations[id].bucket], s.now).1.allowed {
      OneAdded(cfg, s, t, id, tally, Debited(id, key, s.now));
      more := [Debited(id, key, s.now)];
    } else {
      PhaseFinishes(cfg, s, t, id, tally, false);
      more := [Finished(id, PhaseOf(t, id).outcome, false)];
    }
  }

  lemma AcquireErrorFits(cfg: Config, s: State, id: nat, tally: Tally) returns (more: seq<Event>)
    requires Enabled(cfg, s, AcquireError(id)) && TallyFits(cfg, PhaseOf(s, id), tally)
    ensures Adds(cfg, s, Next(cfg, s, AcquireError(id)), id, tally, more)
  {
    var t := Next(cfg, s, AcquireError(id));
    if cfg.portErrorPolicy.Allow? {
      OneAdded(cfg, s, t, id, tally, WavedThrough(id));
      more := [WavedThrough(id)];
    } else {
      PhaseFinishes(cfg, s, t, id, tally, cfg.portErrorPolicy.Propagate?);
      more := [Finished(id, PhaseOf(t, id).outcome, cfg.portErrorPolicy.Propagate?)];
    }
  }

  lemma StartFits(cfg: Config, s: State, id: nat, tally: Tally) returns (more: seq<Event>)
    requires Enabled(cfg, s, Start(id)) && TallyFits(cfg, PhaseOf(s, id), tally)
    ensures Adds(cfg, s, Next(cfg, s, Start(id)), id, tally, more)
  {
    var e := Started(id, s.invocations[id].Key(), s.now);
    OneAdded(cfg, s, Next(cfg, s, Start(id)), id, tally, e);
    more := [e];
  }

  lemma ReturnFits(cfg: Config, s: State, id: nat, tally: Tally) returns (more: seq<Event>)
    requires Enabled(cfg, s, Return(id)) && TallyFits(cfg, PhaseOf(s, id), tally)
    ensures Adds(cfg, s, Next(cfg, s, Return(id)), id, tally, more)
  {
    var t, e := Next(cfg, s, Return(id)), Returned(id);
    var f := Finished(id, PhaseOf(t, id).outcome, false);
    TwoAdded(cfg, s, t, id, tally, e, f);
    more := [e, f];
  }

  lemma FaultFits(cfg: Config, s: State, id: nat, tally: Tally) returns (more: seq<Event>)
    requires Enabled(cfg, s, Fail(id, false)) && TallyFits(cfg, PhaseOf(s, id), tally)
    ensures Adds(cfg, s, Next(cfg, s, Fail(id, false)), id, tally, more)
  {
    var t, e := Next(cfg, s, Fail(id, false)), Threw(id, false);
    var f := Finished(id, PhaseOf(t, id).outcome, false);
    TwoAdded(cfg, s, t, id, tally, e, f);
    more := [e, f];
  }

  lemma ThrottleFits(cfg: Config, s: State, id: nat, tally: Tally) returns (more: seq<Event>)
    requires Enabled(cfg, s, Fail(id, true)) && TallyFits(cfg, PhaseOf(s, id), tally)
    ensures Adds(cfg, s, Next(cfg, s, Fail(id, true)), id, tally, more)
  {
    var e := Threw(id, true);
    OneAdded(cfg, s, Next(cfg, s, Fail(id, true)), id, tally, e);
    more := [e];
  }

  lemma MarkFits(cfg: Config, s: State, a: Action, tally: Tally) returns (more: seq<Event>)
    requires Enabled(cfg, s, a) && a.Mark? && TallyFits(cfg, PhaseOf(s, a.id), tally)
    ensures Adds(cfg, s, Next(cfg, s, a), a.id, tally, more)
  {
    var t := Next(cfg, s, a);
    var f := Finished(a.id, PhaseOf(t, a.id).outcome, false);
    if a.works {
      var e := Marked(a.id, s.invocations[a.id].Key(), s.now + cfg.cooldownSeconds);
      TwoAdded(cfg, s, t, a.id, tally, e, f);
      more := [e, f];
    } else {
      OneAdded(cfg, s, t, a.id, tally, f);
      more := [f];
    }
  }

  lemma StepFits(cfg: Config, s: State, a: Action, tally: Tally) returns (more: seq<Event>)
    requires Enabled(cfg, s, a) && !a.Tick? && TallyFits(cfg, PhaseOf(s, a.id), tally)
    ensures Adds(cfg, s, Next(cfg, s, a), a.id, tally, more)
  {
    if a.Invoke? || a.HardCap? {
      more := CheckFits(cfg, s, a, tally);
    } else if a.Acquire? {
      more := AcquireFits(cfg, s, a.id, tally);
    } else if a.AcquireError? {
      more := AcquireErrorFits(cfg, s, a.id, tally);
    } else if a.Mark? {
      more := MarkFits(cfg, s, a, tally);
    } else if a.Start? {
      more := StartFits(cfg, s, a.id, tally);
    } else if a.Return? {
      more := ReturnFits(cfg, s, a.id, tally);
    } else if a.throttled {
      more := ThrottleFits(cfg, s, a.id, tally);
    } else {
      more := FaultFits(cfg, s, a.id, tally);
    }
  }

  lemma OtherTallies(cfg: Config, s: State, t: State, id: nat, more: seq<Event>, other: nat)
    requires TalliesFit(cfg, s) && Adds(cfg, s, t, id, TallyOf(s.log, id), more)
    requires other != id ==> PhaseOf(t, other) == PhaseOf(s, other)
    ensures TallyFits(cfg, PhaseOf(t, other), TallyOf(t.log, other))
  {
    assert TallyFits(cfg, PhaseOf(s, other), TallyOf(s.log, other));
    TallyOfAppended(s.log, more, id, other);
  }

  lemma MovesOne(cfg: Config, s: State, a: Action, other: nat)
    requires Enabled(cfg, s, a) && (a.Tick? || other != a.id)
    ensures PhaseOf(Next(cfg, s, a), other) == PhaseOf(s, other)
  {
  }

  lemma TalliesKept(cfg: Config, s: State, a: Action)
    requires Enabled(cfg, s, a) && TalliesFit(cfg, s)
    ensures TalliesFit(cfg, Next(cfg, s, a))
  {
    var t := Next(cfg, s, a);
    if a.Tick? {
      forall id: nat ensures TallyFits(cfg, PhaseOf(t, id), TallyOf(t.log, id)) {
        assert TallyFits(cfg, PhaseOf(s, id), TallyOf(s.log, id));
      }
    } else {
      assert TallyFits(cfg, PhaseOf(s, a.id), TallyOf(s.log, a.id));
      var more := StepFits(cfg, s, a, TallyOf(s.log, a.id));
      forall id: nat ensures TallyFits(cfg, PhaseOf(t, id), TallyOf(t.log, id)) {
        if id != a.id { MovesOne(cfg, s, a, id); }
        OtherTallies(cfg, s, t, a.id, more, id);
      }
    }
  }

  // ---- Known buckets ----

  /** Only an invocation of an unknown bucket is rejected. */
  predicate BucketsKnown(cfg: Config, s: State) {
    forall id :: id in s.invocations ==>
      (s.invocations[id].phase == Rejected <==> s.invocations[id].bucket !in cfg.buckets)
  }

  lemma BucketsKept(cfg: Config, s: State, a: Action)
    requires Enabled(cfg, s, a) && BucketsKnown(cfg, s)
    ensures BucketsKnown(cfg, Next(cfg, s, a))
  {
  }

  // ---- Cooldowns ----

  /** A mark is in force until its deadline, and no mark reaches further than one from now. */
  predicate MarkHolds(cfg: Config, s: State, e: Event)
    requires e.Marked?
  {
    && e.deadline <= s.now + cfg.cooldownSeconds
    && (s.now < e.deadline ==> e.key in s.store.cooldowns && e.deadline <= s.store.cooldowns[e.key])
  }

  predicate MarksHold(cfg: Config, s: State) {
    && (forall e :: e in s.log && e.Marked? ==> MarkHolds(cfg, s, e))
    && (forall k :: k in s.store.cooldowns ==> s.store.cooldowns[k] <= s.now + cfg.cooldownSeconds)
  }

  /** No call was admitted before a deadline marked earlier, and deadlines never move back. */
  predicate PairOk(before: Event, after: Event) {
    before.Marked? ==>
      && (after.Debited? && after.key == before.key ==> before.deadline <= after.ts)
      && (after.Marked? && after.key == before.key ==> before.deadline <= after.deadline)
  }

  predicate DeadlinesRespected(log: seq<Event>) {
    forall i, j {:trigger log[i], log[j]} :: 0 <= i < j < |log| ==> PairOk(log[i], log[j])
  }

  lemma AcquireKeepsCooldowns(st: Q.State, key: Q.Key, policy: Q.Policy, ts: real)
    ensures var (t, d) := Q.Acquire(st, key, policy, ts);
            && (d.allowed && key in st.cooldowns ==> st.cooldowns[key] <= ts)
            && (forall k :: k in t.cooldowns ==> k in st.cooldowns && t.cooldowns[k] == st.cooldowns[k])
            && (forall k :: k in st.cooldowns && ts < st.cooldowns[k] ==> k in t.cooldowns)
  {
  }

  lemma DeadlinesSnoc(log: seq<Event>, e: Event)
    requires DeadlinesRespected(log) && forall i :: 0 <= i < |log| ==> PairOk(log[i], e)
    ensures DeadlinesRespected(log + [e])
  {
  }

  /** The first event a step adds, if any, is the only one that cooldowns care about. */
  lemma NewEventRespectsMarks(cfg: Config, s: State, a: Action)
    requires Enabled(cfg, s, a) && MarksHold(cfg, s) && DeadlinesRespected(s.log)
    ensures DeadlinesRespected(Next(cfg, s, a).log)
  {
    var t := Next(cfg, s, a);
    if a.Acquire? {
      AcquireKeepsCooldowns(s.store, s.invocations[a.id].Key(), cfg.buckets[s.invocations[a.id].bucket], s.now);
    }
    if |t.log| > |s.log| {
      var e := t.log[|s.log|];
      forall i | 0 <= i < |s.log| ensures PairOk(s.log[i], e) {
        assert s.log[i] in s.log;
      }
      DeadlinesSnoc(s.log, e);
      if |t.log| == |s.log| + 1 {
        assert t.log == s.log + [e];
      } else {
        assert t.log == (s.log + [e]) + [t.log[|s.log| + 1]];
        DeadlinesSnoc(s.log + [e], t.log[|s.log| + 1]);
      }
    }
  }

  lemma MarksKept(cfg: Config, s: State, a: Action)
    requires Enabled(cfg, s, a) && MarksHold(cfg, s)
    ensures MarksHold(cfg, Next(cfg, s, a))
  {
    var t := Next(cfg, s, a);
    LogGrows(cfg, s, a);
    if a.Acquire? {
      AcquireKeepsCooldowns(s.store, s.invocations[a.id].Key(), cfg.buckets[s.invocations[a.id].bucket], s.now);
    }
    forall e | e in t.log && e.Marked? ensures MarkHolds(cfg, t, e) {
      if e in s.log {
        assert MarkHolds(cfg, s, e);
      } else {
        assert a.Mark? && e.key == s.invocations[a.id].Key();
      }
    }
  }

  // ---- Behaviours ----

  ghost predicate StepAt(cfg: Config, b: seq<State>, i: nat)
    requires i + 1 < |b|
  {
    exists a :: Enabled(cfg, b[i], a) && b[i + 1] == Next(cfg, b[i], a)
  }

  /** Any interleaving of any number of invocations, under a clock that never runs backwards. */
  ghost predicate Behaviour(cfg: Config, b: seq<State>) {
    && |b| > 0 && b[0] == Init
    && forall i :: 0 <= i < |b| - 1 ==> StepAt(cfg, b, i)
  }

  lemma {:induction false} Reachable(cfg: Config, b: seq<State>, i: nat)
    requires Behaviour(cfg, b) && i < |b|
    ensures TalliesFit(cfg, b[i]) && MarksHold(cfg, b[i]) && DeadlinesRespected(b[i].log) && BucketsKnown(cfg, b[i])
  {
    if i > 0 {
      Reachable(cfg, b, i - 1);
      assert StepAt(cfg, b, i - 1);
      var a :| Enabled(cfg, b[i - 1], a) && b[i] == Next(cfg, b[i - 1], a);
      TalliesKept(cfg, b[i - 1], a);
      MarksKept(cfg, b[i - 1], a);
      NewEventRespectsMarks(cfg, b[i - 1], a);
      BucketsKept(cfg, b[i - 1], a);
    }
  }

  /** Conservation: every start of the function has exactly one permission of
      its own, a debit by the quota store unless the store raised under the
      "allow" policy, and a permission starts the function at most once. */
  lemma OneDebitPerStart(cfg: Config, b: seq<State>, i: nat, id: nat)
    requires Behaviour(cfg, b) && i < |b|
    ensures var t := TallyOf(b[i].log, id);
            && t.starts <= t.debits + t.waves <= 1
            && (cfg.portErrorPolicy != Allow ==> t.waves == 0 && t.starts <= t.debits)
            && (PhaseOf(b[i], id).Done? ==> t.starts == t.debits + t.waves)
  {
    Reachable(cfg, b, i);
    assert TallyFits(cfg, PhaseOf(b[i], id), TallyOf(b[i].log, id));
  }

  /** A start without a debit of its own is exactly one that was waved through. */
  lemma StartWithoutDebitIff(cfg: Config, b: seq<State>, i: nat, id: nat)
    requires Behaviour(cfg, b) && i < |b|
    ensures var t := TallyOf(b[i].log, id);
            t.starts > t.debits <==> t.waves > 0 && t.starts > 0
  {
    Reachable(cfg, b, i);
    assert TallyFits(cfg, PhaseOf(b[i], id), TallyOf(b[i].log, id));
  }

  /** Under the "allow" policy there are such starts: the store raises, and the function runs. */
  lemma WavedStartHappens(cfg: Config, tenant: string, bucket: string) returns (b: seq<State>)
    requires cfg.portErrorPolicy == Allow && bucket in cfg.buckets
    ensures Behaviour(cfg, b)
    ensures TallyOf(b[|b| - 1].log, 0) == NOTHING.(waves := 1, starts := 1)
  {
    var s1 := Next(cfg, Init, Invoke(0, tenant, bucket));
    var s2 := Next(cfg, s1, HardCap(0, NotCapped));
    var s3 := Next(cfg, s2, AcquireError(0));
    var s4 := Next(cfg, s3, Start(0));
    b := [Init, s1, s2, s3, s4];
    IsStep(cfg, b, 0, Invoke(0, tenant, bucket));
    IsStep(cfg, b, 1, HardCap(0, NotCapped));
    IsStep(cfg, b, 2, AcquireError(0));
    IsStep(cfg, b, 3, Start(0));
    WavedTally((tenant, bucket), 0.0);
    assert s4.log == [WavedThrough(0), Started(0, (tenant, bucket), 0.0)];
  }

  lemma IsStep(cfg: Config, b: seq<State>, i: nat, a: Action)
    requires i + 1 < |b| && Enabled(cfg, b[i], a) && b[i + 1] == Next(cfg, b[i], a)
    ensures StepAt(cfg, b, i)
  {
  }

  lemma WavedTally(key: Q.Key, ts: real)
    ensures TallyOf([WavedThrough(0), Started(0, key, ts)], 0) == NOTHING.(waves := 1, starts := 1)
  {
    TallySnoc([], WavedThrough(0), 0);
    TallySnoc([WavedThrough(0)], Started(0, key, ts), 0);
    assert [] + [WavedThrough(0)] == [WavedThrough(0)];
    assert [WavedThrough(0)] + [Started(0, key, ts)] == [WavedThrough(0), Started(0, key, ts)];
  }

  /** An invocation has reported one outcome if it is done and none before. */
  lemma OneOutcomePerInvocation(cfg: Config, b: seq<State>, i: nat, id: nat)
    requires Behaviour(cfg, b) && i < |b|
    ensures var t, phase := TallyOf(b[i].log, id), PhaseOf(b[i], id);
            && t.ends == (if phase.Done? then 1 else 0)
            && (phase.Done? ==> t.starts == t.Stops() <= 1)
  {
    Reachable(cfg, b, i);
    assert TallyFits(cfg, PhaseOf(b[i], id), TallyOf(b[i].log, id));
  }

  lemma {:induction false} CountedIsLogged(log: seq<Event>, kind: Kind, id: nat)
    ensures Count(log, kind, id) > 0 <==> exists e :: e in log && Is(e, kind, id)
  {
    if log != [] {
      var init, last := log[..|log| - 1], log[|log| - 1];
      CountedIsLogged(init, kind, id);
      assert forall e :: e in log <==> e in init || e == last;
      assert last in log;
    }
  }

  /** The outcome says how the function ended, and whether it ran at all. */
  lemma OutcomeSaysHowItEnded(cfg: Config, b: seq<State>, i: nat, id: nat)
    requires Behaviour(cfg, b) && i < |b| && PhaseOf(b[i], id).Done?
    ensures var log, outcome := b[i].log, PhaseOf(b[i], id).outcome;
            && (outcome.Succeeded? <==> Returned(id) in log)
            && (outcome.Throttled? <==> Threw(id, true) in log)
            && (Threw(id, false) in log ==> outcome.Internal?)
            && ((exists e :: e in log && e.Started? && e.id == id) <==>
                  Returned(id) in log || Threw(id, true) in log || Threw(id, false) in log)
            && (outcome.HardCapped? || outcome.QuotaExhausted? ==> !exists e :: e in log && e.Started? && e.id == id)
  {
    var log := b[i].log;
    Reachable(cfg, b, i);
    assert TallyFits(cfg, PhaseOf(b[i], id), TallyOf(log, id));
    EndsAreLogged(log, id);
    CountedIsLogged(log, Begun, id);
    assert forall e :: Is(e, Begun, id) <==> e.Started? && e.id == id;
  }

  lemma EndsAreLogged(log: seq<Event>, id: nat)
    ensures TallyOf(log, id).backs > 0 <==> Returned(id) in log
    ensures TallyOf(log, id).throttles > 0 <==> Threw(id, true) in log
    ensures TallyOf(log, id).faults > 0 <==> Threw(id, false) in log
  {
    CountedIsLogged(log, Back, id);
    CountedIsLogged(log, Throttle, id);
    CountedIsLogged(log, Fault, id);
    assert forall e :: Is(e, Back, id) <==> e == Returned(id);
    assert forall e :: Is(e, Throttle, id) <==> e == Threw(id, true);
    assert forall e :: Is(e, Fault, id) <==> e == Threw(id, false);
  }

  /** Once a throttle has marked a cooldown, no acquire on that tenant and bucket
      succeeds before its deadline, and no later mark moves the deadline back. */
  lemma CooldownsAreRespected(cfg: Config, b: seq<State>, i: nat, m: nat, k: nat)
    requires Behaviour(cfg, b) && i < |b|
    requires m < k < |b[i].log| && b[i].log[m].Marked?
    ensures var mark, later := b[i].log[m], b[i].log[k];
            && (later.Debited? && later.key == mark.key ==> mark.deadline <= later.ts)
            && (later.Marked? && later.key == mark.key ==> mark.deadline <= later.deadline)
  {
    Reachable(cfg, b, i);
    assert PairOk(b[i].log[m], b[i].log[k]);
  }

  // ---- Every invocation finishes ----

  /** The number of steps an invocation still takes at most. */
  function Rank(phase: Phase): nat {
    match phase
    case Checking => 5
    case Acquiring => 4
    case Admitted(_) => 3
    case Running(_) => 2
    case Marking => 1
    case Done(_) => 0
    case Rejected => 0
  }

  /** Each step of an invocation brings its end nearer and moves no other invocation. */
  lemma StepsApproachEnd(cfg: Config, s: State, a: Action, other: nat)
    requires Enabled(cfg, s, a) && !a.Tick? && !a.Invoke?
    ensures Rank(PhaseOf(Next(cfg, s, a), a.id)) < Rank(PhaseOf(s, a.id))
    ensures other != a.id ==> PhaseOf(Next(cfg, s, a), other) == PhaseOf(s, other)
  {
  }

  /** In every reachable state an invocation that is neither done nor rejected has
      a step that brings its end nearer. */
  lemma UnfinishedCanStep(cfg: Config, b: seq<State>, i: nat, id: nat) returns (a: Action)
    requires Behaviour(cfg, b) && i < |b| && id in b[i].invocations
    requires !b[i].invocations[id].phase.Done? && b[i].invocations[id].bucket in cfg.buckets
    ensures Enabled(cfg, b[i], a) && !a.Tick? && !a.Invoke? && a.id == id
    ensures Rank(PhaseOf(Next(cfg, b[i], a), id)) < Rank(PhaseOf(b[i], id))
  {
    Reachable(cfg, b, i);
    a := match b[i].invocations[id].phase
         case Checking => HardCap(id, NotCapped)
         case Acquiring => Acquire(id)
         case Admitted(_) => Start(id)
         case Running(_) => Return(id)
         case _ => Mark(id, true);
    StepsApproachEnd(cfg, b[i], a, id);
  }

  /** What the outside world answers to one invocation, and the clock when it marks a cooldown. */
  datatype World = World(cap: CapAnswer, acquireRaises: bool, throws: bool, throttled: bool, markWorks: bool,
                         markedAt: real)

  /** The next step of an unfinished invocation, given the world's answers. */
  function StepOf(s: State, id: nat, w: World): Action
    requires Rank(PhaseOf(s, id)) > 0
  {
    match PhaseOf(s, id)
    case Checking => HardCap(id, w.cap)
    case Acquiring => if w.acquireRaises then AcquireError(id) else Acquire(id)
    case Admitted(_) => Start(id)
    case Running(_) => if w.throws then Fail(id, w.throttled) else Return(id)
    case _ => Mark(id, w.markWorks)
  }

  predicate Runnable(cfg: Config, s: State, id: nat, w: World) {
    && id in s.invocations && s.invocations[id].bucket in cfg.buckets
    && s.invocations[id].phase != Rejected && (!cfg.hasEntitlements ==> w.cap.NotCapped?)
  }

  /** The clock moves to the time of the mark; on a clock that does not run backwards this is a tick. */
  function AtMark(s: State, id: nat, w: World): State {
    if PhaseOf(s, id).Marking? then s.(now := w.markedAt) else s
  }

  lemma AtMarkIsTick(cfg: Config, s: State, id: nat, w: World)
    requires w.markedAt >= s.now && PhaseOf(s, id).Marking?
    ensures Enabled(cfg, s, Tick(w.markedAt)) && AtMark(s, id, w) == Next(cfg, s, Tick(w.markedAt))
  {
  }

  function StepAlone(cfg: Config, s: State, id: nat, w: World): (t: State)
    requires Runnable(cfg, s, id, w) && Rank(PhaseOf(s, id)) > 0
    ensures Runnable(cfg, t, id, w) && Rank(PhaseOf(t, id)) < Rank(PhaseOf(s, id))
  {
    Next(cfg, AtMark(s, id, w), StepOf(s, id, w))
  }

  /** An invocation stepped alone until it is done. */
  function Drive(cfg: Config, s: State, id: nat, w: World): (t: State)
    requires Runnable(cfg, s, id, w)
    ensures Runnable(cfg, t, id, w) && t.invocations[id].phase.Done?
    decreases Rank(PhaseOf(s, id))
  {
    if Rank(PhaseOf(s, id)) == 0 then s else Drive(cfg, StepAlone(cfg, s, id, w), id, w)
  }

  lemma Extended(cfg: Config, b: seq<State>, a: Action) returns (c: seq<State>)
    requires Behaviour(cfg, b) && Enabled(cfg, b[|b| - 1], a)
    ensures Behaviour(cfg, c) && c == b + [Next(cfg, b[|b| - 1], a)]
  {
    c := b + [Next(cfg, b[|b| - 1], a)];
    forall i | 0 <= i < |c| - 1 ensures StepAt(cfg, c, i) {
      if i == |b| - 1 {
        IsStep(cfg, c, i, a);
      } else {
        assert StepAt(cfg, b, i);
        var earlier :| Enabled(cfg, b[i], earlier) && b[i + 1] == Next(cfg, b[i], earlier);
        IsStep(cfg, c, i, earlier);
      }
    }
  }

  lemma StepAloneTakesNoTime(cfg: Config, s: State, id: nat, w: World)
    requires Runnable(cfg, s, id, w) && Rank(PhaseOf(s, id)) > 0
    ensures Enabled(cfg, AtMark(s, id, w), StepOf(s, id, w))
    ensures StepAlone(cfg, s, id, w).now == if PhaseOf(s, id).Marking? then w.markedAt else s.now
  {
  }

  lemma StepAloneIsARun(cfg: Config, b: seq<State>, id: nat, w: World) returns (c: seq<State>)
    requires Behaviour(cfg, b) && Runnable(cfg, b[|b| - 1], id, w) && b[|b| - 1].now <= w.markedAt
    requires Rank(PhaseOf(b[|b| - 1], id)) > 0
    ensures Behaviour(cfg, c) && b <= c && c[|c| - 1] == StepAlone(cfg, b[|b| - 1], id, w)
  {
    var s := b[|b| - 1];
    StepAloneTakesNoTime(cfg, s, id, w);
    c := b;
    if PhaseOf(s, id).Marking? {
      AtMarkIsTick(cfg, s, id, w);
      c := Extended(cfg, c, Tick(w.markedAt));
    }
    c := Extended(cfg, c, StepOf(s, id, w));
  }

  /** Driving an invocation to its end continues a run, so all that holds of runs holds of it. */
  lemma {:induction false} DriveIsARun(cfg: Config, b: seq<State>, id: nat, w: World) returns (c: seq<State>)
    requires Behaviour(cfg, b) && Runnable(cfg, b[|b| - 1], id, w) && b[|b| - 1].now <= w.markedAt
    ensures Behaviour(cfg, c) && b <= c && c[|c| - 1] == Drive(cfg, b[|b| - 1], id, w)
    decreases Rank(PhaseOf(b[|b| - 1], id))
  {
    if Rank(PhaseOf(b[|b| - 1], id)) == 0 {
      return b;
    }
    StepAloneTakesNoTime(cfg, b[|b| - 1], id, w);
    c := StepAloneIsARun(cfg, b, id, w);
    c := DriveIsARun(cfg, c, id, w);
  }

  lemma DriveSteps(cfg: Config, s: State, w: World)
    requires Runnable(cfg, s, 0, w)
    ensures Rank(PhaseOf(s, 0)) > 0 ==> Drive(cfg, s, 0, w) == Drive(cfg, StepAlone(cfg, s, 0, w), 0, w)
    ensures s.invocations[0].phase.Done? ==> Drive(cfg, s, 0, w) == s
  {
  }

  /** A lone invocation that has just passed the bucket check. */
  function Invoked(store: Q.State, tenant: string, bucket: string, now: real): State {
    State(store, now, map[0 := Invocation(tenant, bucket, Checking)], [])
  }

  predicate AtPhase(s: State, inv: Invocation, store: Q.State, now: real) {
    s.store == store && s.now == now && s.invocations == map[0 := inv]
  }

  /** The lone invocation is done, and its outcome was the last thing reported. */
  predicate Ends(t: State, store: Q.State, outcome: Outcome, raised: bool) {
    && t.store == store && 0 in t.invocations && t.invocations[0].phase == Done(outcome)
    && |t.log| > 0 && t.log[|t.log| - 1] == Finished(0, outcome, raised)
  }

  lemma CapStep(cfg: Config, s: State, inv: Invocation, w: World, now: real)
    requires AtPhase(s, inv, s.store, now) && inv.phase.Checking? && Runnable(cfg, s, 0, w)
    ensures var t := StepAlone(cfg, s, 0, w);
            if w.cap.NotCapped? || (w.cap.CapError? && cfg.portErrorPolicy.Allow?)
            then AtPhase(t, inv.(phase := Acquiring), s.store, now)
            else if w.cap.CapError? && cfg.portErrorPolicy.Propagate? then Ends(t, s.store, Internal, true)
            else Ends(t, s.store, HardCapped, false)
  {
  }

  lemma AcquireStep(cfg: Config, s: State, inv: Invocation, now: real)
    requires AtPhase(s, inv, s.store, now) && Enabled(cfg, s, Acquire(0))
    ensures var (store, d) := Q.Acquire(s.store, inv.Key(), cfg.buckets[inv.bucket], now);
            var t := Next(cfg, s, Acquire(0));
            if d.allowed then AtPhase(t, inv.(phase := Admitted(Some(d.tokensRemaining))), store, now)
            else Ends(t, store, QuotaExhausted(Some(d.tokensRemaining), d.cooldownUntil), false)
  {
  }

  lemma AcquireErrorStep(cfg: Config, s: State, inv: Invocation, now: real)
    requires AtPhase(s, inv, s.store, now) && Enabled(cfg, s, AcquireError(0))
    ensures var t := Next(cfg, s, AcquireError(0));
            match cfg.portErrorPolicy
            case Propagate => Ends(t, s.store, Internal, true)
            case Deny => Ends(t, s.store, QuotaExhausted(Some(0), None), false)
            case Allow => AtPhase(t, inv.(phase := Admitted(None)), s.store, now)
  {
  }

  // ---- What an invocation answers ----

  /** An outcome, whether an error was raised as well, and the store left behind. */
  datatype Answer = Answer(outcome: Outcome, raised: bool, store: Q.State)

  /** The answer to an admitted call: how the function ends decides. */
  predicate RunAnswers(cfg: Config, before: Q.State, key: Q.Key, tokens: Option<int>, w: World, a: Answer) {
    && !a.raised
    && (a.outcome == Succeeded(tokens) <==> !w.throws)
    && (a.outcome == Internal <==> w.throws && !w.throttled)
    && (a.outcome.Throttled? <==> w.throws && w.throttled)
    && (a.outcome.Throttled? ==>
          a.outcome.cooldownUntil == if w.markWorks then Some(w.markedAt + cfg.cooldownSeconds) else None)
    && a.store == if w.throws && w.throttled && w.markWorks
                  then before.(cooldowns := before.cooldowns[key := w.markedAt + cfg.cooldownSeconds]) else before
  }

  /** The answer to a call that passed the hard cap. */
  predicate AcquiringAnswers(cfg: Config, before: Q.State, key: Q.Key, w: World, now: real, a: Answer)
    requires key.1 in cfg.buckets
  {
    var (debited, d) := Q.Acquire(before, key, cfg.buckets[key.1], now);
    if w.acquireRaises then
      && (cfg.portErrorPolicy.Propagate? ==> a == Answer(Internal, true, before))
      && (cfg.portErrorPolicy.Deny? ==> a == Answer(QuotaExhausted(Some(0), None), false, before))
      && (cfg.portErrorPolicy.Allow? ==> RunAnswers(cfg, before, key, None, w, a))
    else
      && (!d.allowed ==> a == Answer(QuotaExhausted(Some(d.tokensRemaining), d.cooldownUntil), false, debited))
      && (d.allowed ==> RunAnswers(cfg, debited, key, Some(d.tokensRemaining), w, a))
  }

  /** The answer to a call of a known bucket: the hard cap first, then the quota, then the function. */
  predicate InvokeAnswers(cfg: Config, before: Q.State, key: Q.Key, w: World, now: real, a: Answer)
    requires key.1 in cfg.buckets
  {
    var failed := w.cap.CapError?;
    && (failed && cfg.portErrorPolicy.Propagate? ==> a == Answer(Internal, true, before))
    && (a.outcome.HardCapped? <==> w.cap.Capped? || (failed && cfg.portErrorPolicy.Deny?))
    && (a.outcome.HardCapped? ==> !a.raised && a.store == before)
    && (w.cap.NotCapped? || (failed && cfg.portErrorPolicy.Allow?) ==> AcquiringAnswers(cfg, before, key, w, now, a))
  }

  lemma DrivenRun(cfg: Config, s: State, inv: Invocation, w: World, now: real) returns (a: Answer)
    requires AtPhase(s, inv, s.store, now) && inv.phase.Admitted? && Runnable(cfg, s, 0, w)
    ensures Ends(Drive(cfg, s, 0, w), a.store, a.outcome, a.raised)
    ensures RunAnswers(cfg, s.store, inv.Key(), inv.phase.tokens, w, a)
  {
    DriveSteps(cfg, s, w);
    var running := StepAlone(cfg, s, 0, w);
    DriveSteps(cfg, running, w);
    if !w.throws {
      return Answer(Succeeded(inv.phase.tokens), false, s.store);
    }
    if !w.throttled {
      return Answer(Internal, false, s.store);
    }
    var marking := StepAlone(cfg, running, 0, w);
    DriveSteps(cfg, marking, w);
    a := DrivenMark(cfg, marking, inv, w);
  }

  lemma DrivenMark(cfg: Config, s: State, inv: Invocation, w: World) returns (a: Answer)
    requires AtPhase(s, inv.(phase := Marking), s.store, s.now) && Runnable(cfg, s, 0, w) && w.throws && w.throttled
    ensures Ends(StepAlone(cfg, s, 0, w), a.store, a.outcome, a.raised)
    ensures forall tokens :: RunAnswers(cfg, s.store, inv.Key(), tokens, w, a)
  {
    var deadline := w.markedAt + cfg.cooldownSeconds;
    a := if w.markWorks then
           Answer(Throttled(Some(deadline)), false, s.store.(cooldowns := s.store.cooldowns[inv.Key() := deadline]))
         else Answer(Throttled(None), false, s.store);
  }

  lemma DrivenAcquire(cfg: Config, s: State, inv: Invocation, w: World, now: real) returns (a: Answer)
    requires AtPhase(s, inv, s.store, now) && inv.phase.Acquiring? && Runnable(cfg, s, 0, w)
    ensures Ends(Drive(cfg, s, 0, w), a.store, a.outcome, a.raised)
    ensures AcquiringAnswers(cfg, s.store, inv.Key(), w, now, a)
  {
    DriveSteps(cfg, s, w);
    var t := StepAlone(cfg, s, 0, w);
    DriveSteps(cfg, t, w);
    if w.acquireRaises {
      AcquireErrorStep(cfg, s, inv, now);
    } else {
      AcquireStep(cfg, s, inv, now);
    }
    if PhaseOf(t, 0).Admitted? {
      a := DrivenRun(cfg, t, t.invocations[0], w, now);
    } else {
      a := Answer(PhaseOf(t, 0).outcome, w.acquireRaises && cfg.portErrorPolicy.Propagate?, t.store);
    }
  }

  /** An invocation driven to its end answers as the hard cap, the quota store,
      the function and the cooldown mark of its world decide. */
  lemma DriveAnswers(cfg: Config, before: Q.State, tenant: string, bucket: string, w: World, now: real)
    returns (a: Answer)
    requires bucket in cfg.buckets && (!cfg.hasEntitlements ==> w.cap.NotCapped?)
    ensures Ends(Drive(cfg, Invoked(before, tenant, bucket, now), 0, w), a.store, a.outcome, a.raised)
    ensures InvokeAnswers(cfg, before, (tenant, bucket), w, now, a)
  {
    var s := Invoked(before, tenant, bucket, now);
    DriveSteps(cfg, s, w);
    CapStep(cfg, s, Invocation(tenant, bucket, Checking), w, now);
    var t := StepAlone(cfg, s, 0, w);
    DriveSteps(cfg, t, w);
    if PhaseOf(t, 0).Acquiring? {
      a := DrivenAcquire(cfg, t, Invocation(tenant, bucket, Acquiring), w, now);
    } else {
      a := Answer(PhaseOf(t, 0).outcome, w.cap.CapError? && cfg.portErrorPolicy.Propagate?, before);
    }
  }

  class Controller {
    const cfg: Config
    const store: Q.FixedWindowQuotaStore

    constructor (cfg: Config, store: Q.FixedWindowQuotaStore)
      ensures this.cfg == cfg && this.store == store
    {
      this.cfg, this.store := cfg, store;
    }

    /** From a granted acquire on: run the function, and mark a cooldown after a throttle. */
    method RunAdmitted(ghost s: State, inv: Invocation, w: World, now: real) returns (outcome: Outcome)
      requires AtPhase(s, inv, store.Abs(), now) && inv.phase.Admitted? && Runnable(cfg, s, 0, w)
      modifies store
      ensures Ends(Drive(cfg, s, 0, w), store.Abs(), outcome, false)
      ensures RunAnswers(cfg, old(store.Abs()), inv.Key(), inv.phase.tokens, w, Answer(outcome, false, store.Abs()))
    {
      DriveSteps(cfg, s, w);
      ghost var running := StepAlone(cfg, s, 0, w);
      DriveSteps(cfg, running, w);
      if !w.throws {
        return Succeeded(inv.phase.tokens);
      }
      if !w.throttled {
        return Internal;
      }
      DriveSteps(cfg, StepAlone(cfg, running, 0, w), w);
      if w.markWorks {
        store.Cooldown(inv.Key(), cfg.cooldownSeconds, w.markedAt);
        return Throttled(Some(w.markedAt + cfg.cooldownSeconds));
      }
      return Throttled(None);
    }

    /** `_acquire` under the port-error policy: admitted with tokens, or finished. */
    method AcquireQuota(ghost s: State, inv: Invocation, w: World, now: real)
      returns (admitted: bool, tokens: Option<int>, outcome: Outcome, raised: bool)
      requires AtPhase(s, inv, store.Abs(), now) && inv.phase.Acquiring? && Runnable(cfg, s, 0, w)
      modifies store
      ensures var t := StepAlone(cfg, s, 0, w);
              if admitted then AtPhase(t, inv.(phase := Admitted(tokens)), store.Abs(), now)
              else Ends(t, store.Abs(), outcome, raised)
      ensures var (debited, d) := Q.Acquire(old(store.Abs()), inv.Key(), cfg.buckets[inv.bucket], now);
              && store.Abs() == (if w.acquireRaises then old(store.Abs()) else debited)
              && (admitted <==> if w.acquireRaises then cfg.portErrorPolicy.Allow? else d.allowed)
              && (admitted ==> tokens == if w.acquireRaises then None else Some(d.tokensRemaining))
              && (!admitted ==> AcquiringAnswers(cfg, old(store.Abs()), inv.Key(), w, now,
                                                 Answer(outcome, raised, store.Abs())))
    {
      if w.acquireRaises {
        AcquireErrorStep(cfg, s, inv, now);
        match cfg.portErrorPolicy
        case Propagate => return false, None, Internal, true;
        case Deny => return false, None, QuotaExhausted(Some(0), None), false;
        case Allow => return true, None, Internal, false;
      }
      AcquireStep(cfg, s, inv, now);
      var decision := store.TryAcquire(inv.Key(), cfg.buckets[inv.bucket], now);
      if decision.allowed {
        return true, Some(decision.tokensRemaining), Internal, false;
      }
      return false, None, QuotaExhausted(Some(decision.tokensRemaining), decision.cooldownUntil), false;
    }

    /** From a passed hard-cap check on. */
    method RunAcquiring(ghost s: State, inv: Invocation, w: World, now: real) returns (outcome: Outcome, raised: bool)
      requires AtPhase(s, inv, store.Abs(), now) && inv.phase.Acquiring? && Runnable(cfg, s, 0, w)
      modifies store
      ensures Ends(Drive(cfg, s, 0, w), store.Abs(), outcome, raised)
      ensures AcquiringAnswers(cfg, old(store.Abs()), inv.Key(), w, now, Answer(outcome, raised, store.Abs()))
    {
      DriveSteps(cfg, s, w);
      ghost var t := StepAlone(cfg, s, 0, w);
      var admitted, tokens;
      admitted, tokens, outcome, raised := AcquireQuota(s, inv, w, now);
      DriveSteps(cfg, t, w);
      if admitted {
        outcome := RunAdmitted(t, inv.(phase := Admitted(tokens)), w, now);
        raised := false;
      }
    }

    /** One uninterrupted `invoke`: its outcome, and whether an error was raised
        as well.  None is the ValueError for an unknown bucket. */
    method Invoke(tenant: string, bucket: string, w: World, now: real) returns (outcome: Option<Outcome>, raised: bool)
      requires !cfg.hasEntitlements ==> w.cap.NotCapped?
      modifies store
      ensures outcome == None <==> bucket !in cfg.buckets
      ensures bucket !in cfg.buckets ==> store.Abs() == old(store.Abs())
      ensures bucket in cfg.buckets ==>
        && Ends(Drive(cfg, Invoked(old(store.Abs()), tenant, bucket, now), 0, w), store.Abs(), outcome.value, raised)
        && InvokeAnswers(cfg, old(store.Abs()), (tenant, bucket), w, now, Answer(outcome.value, raised, store.Abs()))
    {
      if bucket !in cfg.buckets {
        return None, true;
      }
      ghost var s := Invoked(store.Abs(), tenant, bucket, now);
      DriveSteps(cfg, s, w);
      CapStep(cfg, s, Invocation(tenant, bucket, Checking), w, now);
      DriveSteps(cfg, StepAlone(cfg, s, 0, w), w);
      if w.cap.CapError? && cfg.portErrorPolicy.Propagate? {
        return Some(Internal), true;
      }
      var capped := w.cap.Capped? || (w.cap.CapError? && cfg.portErrorPolicy.Deny?);
      if capped {
        return Some(HardCapped), false;
      }
      var result;
      result, raised := RunAcquiring(StepAlone(cfg, s, 0, w), Invocation(tenant, bucket, Acquiring), w, now);
      outcome := Some(result);
    }
  }
}
