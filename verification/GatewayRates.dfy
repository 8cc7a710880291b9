/** Rate bounds over interleaved gateway invocations: the quota operations that a
    run performs form a run of the quota store, so its bounds carry over. */
module GatewayRates {
  import opened Gateway
  import Q = Quota

  // ---- What a log says about one tenant and bucket ----

  function DebitTimes(log: seq<Event>, key: Q.Key): seq<real> {
    if log == [] then []
    else
      var e := log[|log| - 1];
      DebitTimes(log[..|log| - 1], key) + if e.Debited? && e.key == key then [e.ts] else []
  }

  function StartTimes(log: seq<Event>, key: Q.Key): seq<real> {
    if log == [] then []
    else
      var e := log[|log| - 1];
      StartTimes(log[..|log| - 1], key) + if e.Started? && e.key == key then [e.ts] else []
  }

  lemma {:induction false} TimesSnoc(log: seq<Event>, e: Event, key: Q.Key)
    ensures DebitTimes(log + [e], key) == DebitTimes(log, key) + if e.Debited? && e.key == key then [e.ts] else []
    ensures StartTimes(log + [e], key) == StartTimes(log, key) + if e.Started? && e.key == key then [e.ts] else []
  {
    assert (log + [e])[..|log|] == log;
  }

  lemma {:induction false} OtherEvent(log: seq<Event>, e: Event, key: Q.Key)
    requires !e.Debited? && !e.Started?
    ensures DebitTimes(log + [e], key) == DebitTimes(log, key)
    ensures StartTimes(log + [e], key) == StartTimes(log, key)
  {
    TimesSnoc(log, e, key);
    assert DebitTimes(log, key) + [] == DebitTimes(log, key);
    assert StartTimes(log, key) + [] == StartTimes(log, key);
  }

  /** A step that neither debits nor starts anything leaves both lists alone. */
  lemma QuietStep(cfg: Config, s: State, a: Action, t: State, key: Q.Key)
    requires Enabled(cfg, s, a) && t == Next(cfg, s, a) && !a.Start?
    requires a.Acquire? ==> !Decision(cfg, s, a.id).allowed
    ensures DebitTimes(t.log, key) == DebitTimes(s.log, key) && StartTimes(t.log, key) == StartTimes(s.log, key)
  {
    var more := QuietEvents(cfg, s, a, t);
    OtherEvents(s.log, more, key);
  }

  /** The events that a step adds are no debits and no starts. */
  predicate AddsQuietly(s: State, t: State) {
    && s.log <= t.log && |t.log| <= |s.log| + 2
    && forall i :: |s.log| <= i < |t.log| ==> !t.log[i].Debited? && !t.log[i].Started?
  }

  lemma QuietAdmission(cfg: Config, s: State, a: Action, t: State)
    requires Enabled(cfg, s, a) && t == Next(cfg, s, a)
    requires a.Tick? || a.Invoke? || a.HardCap? || a.AcquireError?
    ensures AddsQuietly(s, t)
  {
  }

  lemma QuietRunning(cfg: Config, s: State, a: Action, t: State)
    requires Enabled(cfg, s, a) && t == Next(cfg, s, a)
    requires a.Return? || a.Fail? || a.Mark?
    ensures AddsQuietly(s, t)
  {
  }

  lemma QuietDenial(cfg: Config, s: State, id: nat, t: State)
    requires Enabled(cfg, s, Acquire(id)) && t == Next(cfg, s, Acquire(id)) && !Decision(cfg, s, id).allowed
    ensures AddsQuietly(s, t)
  {
  }

  lemma QuietEvents(cfg: Config, s: State, a: Action, t: State) returns (more: seq<Event>)
    requires Enabled(cfg, s, a) && t == Next(cfg, s, a) && !a.Start?
    requires a.Acquire? ==> !Decision(cfg, s, a.id).allowed
    ensures t.log == s.log + more && |more| <= 2
    ensures forall i :: 0 <= i < |more| ==> !more[i].Debited? && !more[i].Started?
  {
    if a.Acquire? {
      QuietDenial(cfg, s, a.id, t);
    } else if a.Return? || a.Fail? || a.Mark? {
      QuietRunning(cfg, s, a, t);
    } else {
      QuietAdmission(cfg, s, a, t);
    }
    more := Suffix(s.log, t.log);
  }

  lemma {:induction false} OtherEvents(log: seq<Event>, more: seq<Event>, key: Q.Key)
    requires |more| <= 2 && forall i :: 0 <= i < |more| ==> !more[i].Debited? && !more[i].Started?
    ensures DebitTimes(log + more, key) == DebitTimes(log, key)
    ensures StartTimes(log + more, key) == StartTimes(log, key)
  {
    if |more| == 0 {
      assert log + more == log;
    } else if |more| == 1 {
      assert log + more == log + [more[0]];
      OtherEvent(log, more[0], key);
    } else {
      assert log + more == (log + [more[0]]) + [more[1]];
      OtherEvent(log, more[0], key);
      OtherEvent(log + [more[0]], more[1], key);
    }
  }

  // ---- The quota operations of a run ----

  function KeyOf(s: State, id: nat): Q.Key
    requires id in s.invocations
  {
    s.invocations[id].Key()
  }

  /** What the quota store answers the acquire of an invocation. */
  function Decision(cfg: Config, s: State, id: nat): Q.Decision
    requires id in s.invocations && s.invocations[id].bucket in cfg.buckets
  {
    Q.Acquire(s.store, KeyOf(s, id), cfg.buckets[s.invocations[id].bucket], s.now).1
  }

  predicate PositiveSpans(cfg: Config) {
    forall b :: b in cfg.buckets ==> cfg.buckets[b].span > 0.0
  }

  function SpanOf(cfg: Config, key: Q.Key): real {
    if key.1 in cfg.buckets then cfg.buckets[key.1].span else 1.0
  }

  function Spans(cfg: Config): Q.Key -> real {
    key => SpanOf(cfg, key)
  }

  /** The state's quota store is what these operations make of an empty one, and
      the debits of one key are the acquires among them that were allowed. */
  ghost predicate Performed(cfg: Config, s: State, ops: seq<Q.Op>, key: Q.Key) {
    && s.store == Q.After(true, Q.Empty, ops)
    && Q.Steady(Spans(cfg), 0.0, ops) && Q.EndTime(0.0, ops) <= s.now
    && (key.1 in cfg.buckets ==> Q.OnePolicy(key, cfg.buckets[key.1], ops))
    && DebitTimes(s.log, key) == Q.AllowedTimes(key, ops, Q.Decisions(true, Q.Empty, ops))
  }

  /** One more quota operation, of the state's time. */
  lemma PerformedSnoc(cfg: Config, s: State, ops: seq<Q.Op>, key: Q.Key, op: Q.Op, t: State)
    requires Performed(cfg, s, ops, key) && op.ts == s.now == t.now
    requires op.AcquireOp? ==> op.key.1 in cfg.buckets && op.policy == cfg.buckets[op.key.1]
    requires op.AcquireOp? ==> op.policy.span == Spans(cfg)(op.key) && Spans(cfg)(op.key) > 0.0
    requires t.store == Q.Step(true, s.store, op).0
    requires var d := Q.Step(true, s.store, op).1;
             DebitTimes(t.log, key)
             == DebitTimes(s.log, key) + if op.AcquireOp? && op.key == key && d.allowed then [op.ts] else []
    ensures Performed(cfg, t, ops + [op], key)
  {
    Q.AfterSnoc(true, Q.Empty, ops, op);
    Q.SteadySnoc(Spans(cfg), 0.0, ops, op);
    Q.AllowedTimesSnoc(key, ops, Q.Decisions(true, Q.Empty, ops), op, Q.Step(true, s.store, op).1);
  }

  lemma AcquirePerforms(cfg: Config, s: State, id: nat, ops: seq<Q.Op>, key: Q.Key, t: State)
    requires PositiveSpans(cfg)
    requires Performed(cfg, s, ops, key)
    requires Enabled(cfg, s, Acquire(id)) && t == Next(cfg, s, Acquire(id))
    ensures Performed(cfg, t, ops + [Q.AcquireOp(KeyOf(s, id), cfg.buckets[s.invocations[id].bucket], s.now)], key)
  {
    var op := Q.AcquireOp(KeyOf(s, id), cfg.buckets[s.invocations[id].bucket], s.now);
    if Decision(cfg, s, id).allowed {
      TimesSnoc(s.log, Debited(id, KeyOf(s, id), s.now), key);
    } else {
      QuietStep(cfg, s, Acquire(id), t, key);
      assert DebitTimes(s.log, key) + [] == DebitTimes(s.log, key);
    }
    PerformedSnoc(cfg, s, ops, key, op, t);
  }

  lemma MarkPerforms(cfg: Config, s: State, id: nat, ops: seq<Q.Op>, key: Q.Key, t: State)
    requires Performed(cfg, s, ops, key)
    requires Enabled(cfg, s, Mark(id, true)) && t == Next(cfg, s, Mark(id, true))
    ensures Performed(cfg, t, ops + [Q.MarkOp(KeyOf(s, id), cfg.cooldownSeconds, s.now)], key)
  {
    QuietStep(cfg, s, Mark(id, true), t, key);
    assert DebitTimes(s.log, key) + [] == DebitTimes(s.log, key);
    PerformedSnoc(cfg, s, ops, key, Q.MarkOp(KeyOf(s, id), cfg.cooldownSeconds, s.now), t);
  }

  lemma StartPerforms(cfg: Config, s: State, id: nat, key: Q.Key, t: State)
    requires Enabled(cfg, s, Start(id)) && t == Next(cfg, s, Start(id))
    ensures t.store == s.store && t.now == s.now && DebitTimes(t.log, key) == DebitTimes(s.log, key)
    ensures StartTimes(t.log, key) == StartTimes(s.log, key) + if KeyOf(s, id) == key then [s.now] else []
  {
    TimesSnoc(s.log, Started(id, KeyOf(s, id), s.now), key);
    assert DebitTimes(s.log, key) + [] == DebitTimes(s.log, key);
  }

  /** Every step performs at most one quota operation. */
  lemma StepPerforms(cfg: Config, s: State, a: Action, ops: seq<Q.Op>, key: Q.Key, t: State)
    returns (after: seq<Q.Op>)
    requires PositiveSpans(cfg)
    requires Performed(cfg, s, ops, key) && Enabled(cfg, s, a) && t == Next(cfg, s, a)
    ensures Performed(cfg, t, after, key)
  {
    after := ops;
    if a.Acquire? {
      AcquirePerforms(cfg, s, a.id, ops, key, t);
      after := ops + [Q.AcquireOp(KeyOf(s, a.id), cfg.buckets[s.invocations[a.id].bucket], s.now)];
    } else if a.Mark? && a.works {
      MarkPerforms(cfg, s, a.id, ops, key, t);
      after := ops + [Q.MarkOp(KeyOf(s, a.id), cfg.cooldownSeconds, s.now)];
    } else {
      QuietPerforms(cfg, s, a, ops, key, t);
    }
  }

  lemma QuietPerforms(cfg: Config, s: State, a: Action, ops: seq<Q.Op>, key: Q.Key, t: State)
    requires Performed(cfg, s, ops, key) && Enabled(cfg, s, a) && t == Next(cfg, s, a)
    requires !a.Acquire? && !(a.Mark? && a.works)
    ensures Performed(cfg, t, ops, key)
  {
    KeepsStore(cfg, s, a, t);
    if a.Start? {
      StartPerforms(cfg, s, a.id, key, t);
    } else {
      QuietStep(cfg, s, a, t, key);
    }
  }

  lemma KeepsStore(cfg: Config, s: State, a: Action, t: State)
    requires Enabled(cfg, s, a) && t == Next(cfg, s, a) && !a.Acquire? && !(a.Mark? && a.works)
    ensures t.store == s.store && s.now <= t.now
  {
  }

  lemma ActionAt(cfg: Config, b: seq<State>, i: nat) returns (a: Action)
    requires Behaviour(cfg, b) && i + 1 < |b|
    ensures Enabled(cfg, b[i], a) && b[i + 1] == Next(cfg, b[i], a)
  {
    assert StepAt(cfg, b, i);
    a :| Enabled(cfg, b[i], a) && b[i + 1] == Next(cfg, b[i], a);
  }

  lemma InitPerforms(cfg: Config, s: State, key: Q.Key)
    requires s == Init
    ensures Performed(cfg, s, [], key)
  {
  }

  lemma StepAtPerforms(cfg: Config, b: seq<State>, i: nat, ops: seq<Q.Op>, key: Q.Key, t: State)
    returns (after: seq<Q.Op>)
    requires PositiveSpans(cfg) && Behaviour(cfg, b) && i + 1 < |b| && t == b[i + 1]
    requires Performed(cfg, b[i], ops, key)
    ensures Performed(cfg, t, after, key)
  {
    var a := ActionAt(cfg, b, i);
    after := StepPerforms(cfg, b[i], a, ops, key, t);
  }

  lemma {:induction false} RunPerforms(cfg: Config, b: seq<State>, i: nat, key: Q.Key) returns (ops: seq<Q.Op>)
    requires PositiveSpans(cfg) && Behaviour(cfg, b) && i < |b|
    ensures Performed(cfg, b[i], ops, key)
  {
    if i == 0 {
      InitPerforms(cfg, b[i], key);
      return [];
    }
    var before := RunPerforms(cfg, b, i - 1, key);
    ops := StepAtPerforms(cfg, b, i - 1, before, key, b[i]);
  }

  /** However invocations interleave, no half-open interval of one window length
      holds more than twice the limit of debits of one tenant and bucket. */
  lemma {:induction false} DebitRateBound(cfg: Config, b: seq<State>, i: nat, tenant: string, bucket: string, lo: real)
    requires Behaviour(cfg, b) && i < |b| && PositiveSpans(cfg)
    requires bucket in cfg.buckets && cfg.buckets[bucket].limit >= 0
    ensures var policy := cfg.buckets[bucket];
            Q.Count(DebitTimes(b[i].log, (tenant, bucket)), lo, lo + policy.span) <= 2 * policy.limit
  {
    var key := (tenant, bucket);
    var ops := RunPerforms(cfg, b, i, key);
    RateOfState(cfg, b[i], ops, key, lo);
  }

  lemma {:induction false} RateOfState(cfg: Config, s: State, ops: seq<Q.Op>, key: Q.Key, lo: real)
    requires Performed(cfg, s, ops, key)
    requires key.1 in cfg.buckets && cfg.buckets[key.1].limit >= 0 && cfg.buckets[key.1].span > 0.0
    ensures var policy := cfg.buckets[key.1];
            Q.Count(DebitTimes(s.log, key), lo, lo + policy.span) <= 2 * policy.limit
  {
    RateOfTimes(ops, key, cfg.buckets[key.1], Spans(cfg), lo, DebitTimes(s.log, key));
  }

  lemma {:induction false} RateOfTimes(ops: seq<Q.Op>, key: Q.Key, policy: Q.Policy, span: Q.Key -> real, lo: real,
                                       times: seq<real>)
    requires Q.Steady(span, 0.0, ops) && Q.OnePolicy(key, policy, ops) && policy.span > 0.0 && policy.limit >= 0
    requires times == Q.AllowedTimes(key, ops, Q.Decisions(true, Q.Empty, ops))
    ensures Q.Count(times, lo, lo + policy.span) <= 2 * policy.limit
  {
    Q.RateBound(span, 0.0, ops, key, policy, lo);
  }

  // ---- Starts ----

  /** Invocations of a key that hold a permission and have not started. */
  function Waiting(s: State, key: Q.Key): set<nat> {
    set id | id in s.invocations && s.invocations[id].phase.Admitted? && KeyOf(s, id) == key
  }

  predicate PromptAt(b: seq<State>, i: nat)
    requires i + 1 < |b|
  {
    b[i + 1].now != b[i].now ==> forall id :: id in b[i].invocations ==> !b[i].invocations[id].phase.Admitted?
  }

  /** No time passes between an acquire and the start that it permits. */
  predicate Prompt(b: seq<State>) {
    forall i {:trigger PromptAt(b, i)} :: 0 <= i < |b| - 1 ==> PromptAt(b, i)
  }

  /** Each debit in an interval was used by a start in it, or still waits. */
  predicate Balanced(s: State, key: Q.Key, lo: real, hi: real) {
    Q.Count(StartTimes(s.log, key), lo, hi) + (if lo <= s.now < hi then |Waiting(s, key)| else 0)
    == Q.Count(DebitTimes(s.log, key), lo, hi)
  }

  /** Only the invocation that moves changes; it comes to be admitted by an allowed
      acquire only, and it was admitted before exactly when it now starts. */
  lemma MoverAfter(cfg: Config, s: State, a: Action, t: State)
    requires Enabled(cfg, s, a) && t == Next(cfg, s, a) && !a.Tick? && cfg.portErrorPolicy != Allow
    ensures t.invocations.Keys == s.invocations.Keys + {a.id}
    ensures forall id :: id in s.invocations && id != a.id ==> t.invocations[id] == s.invocations[id]
    ensures t.invocations[a.id].phase.Admitted? <==> a.Acquire? && Decision(cfg, s, a.id).allowed
    ensures a.id in s.invocations ==>
              KeyOf(t, a.id) == KeyOf(s, a.id) && (s.invocations[a.id].phase.Admitted? <==> a.Start?)
    ensures a.Acquire? || a.Start? ==> a.id in s.invocations
  {
  }

  lemma WaitingAfter(cfg: Config, s: State, a: Action, key: Q.Key, t: State)
    requires Enabled(cfg, s, a) && t == Next(cfg, s, a) && !a.Tick? && cfg.portErrorPolicy != Allow
    ensures Waiting(t, key) ==
              if a.Acquire? && Decision(cfg, s, a.id).allowed && KeyOf(s, a.id) == key then Waiting(s, key) + {a.id}
              else if a.Start? && KeyOf(s, a.id) == key then Waiting(s, key) - {a.id}
              else Waiting(s, key)
    ensures a.Acquire? ==> a.id !in Waiting(s, key)
    ensures a.Start? && KeyOf(s, a.id) == key ==> a.id in Waiting(s, key)
  {
    MoverAfter(cfg, s, a, t);
  }

  /** How many starts and debits of the key a step counts, and what then waits. */
  lemma BalanceSteps(s: State, t: State, key: Q.Key, lo: real, hi: real, started: nat, debited: nat)
    requires Balanced(s, key, lo, hi) && t.now == s.now
    requires Q.Count(StartTimes(t.log, key), lo, hi)
             == Q.Count(StartTimes(s.log, key), lo, hi) + if lo <= s.now < hi then started else 0
    requires Q.Count(DebitTimes(t.log, key), lo, hi)
             == Q.Count(DebitTimes(s.log, key), lo, hi) + if lo <= s.now < hi then debited else 0
    requires |Waiting(t, key)| + started == |Waiting(s, key)| + debited
    ensures Balanced(t, key, lo, hi)
  {
  }

  lemma AcquireBalances(cfg: Config, s: State, id: nat, key: Q.Key, lo: real, hi: real, t: State)
    requires Enabled(cfg, s, Acquire(id)) && t == Next(cfg, s, Acquire(id)) && cfg.portErrorPolicy != Allow
    requires Decision(cfg, s, id).allowed && Balanced(s, key, lo, hi)
    ensures Balanced(t, key, lo, hi)
  {
    WaitingAfter(cfg, s, Acquire(id), key, t);
    AllowedAcquireCounts(cfg, s, id, key, lo, hi, t);
    BalanceSteps(s, t, key, lo, hi, 0, if KeyOf(s, id) == key then 1 else 0);
  }

  lemma StartBalances(cfg: Config, s: State, id: nat, key: Q.Key, lo: real, hi: real, t: State)
    requires Enabled(cfg, s, Start(id)) && t == Next(cfg, s, Start(id)) && cfg.portErrorPolicy != Allow
    requires Balanced(s, key, lo, hi)
    ensures Balanced(t, key, lo, hi)
  {
    StartCounts(cfg, s, id, key, lo, hi, t);
    BalanceSteps(s, t, key, lo, hi, if KeyOf(s, id) == key then 1 else 0, 0);
  }

  lemma StartCounts(cfg: Config, s: State, id: nat, key: Q.Key, lo: real, hi: real, t: State)
    requires Enabled(cfg, s, Start(id)) && t == Next(cfg, s, Start(id)) && cfg.portErrorPolicy != Allow
    ensures t.now == s.now && DebitTimes(t.log, key) == DebitTimes(s.log, key)
    ensures Q.Count(StartTimes(t.log, key), lo, hi)
            == Q.Count(StartTimes(s.log, key), lo, hi) + if KeyOf(s, id) == key && lo <= s.now < hi then 1 else 0
    ensures |Waiting(t, key)| + (if KeyOf(s, id) == key then 1 else 0) == |Waiting(s, key)|
  {
    StartPerforms(cfg, s, id, key, t);
    CountMore(StartTimes(s.log, key), KeyOf(s, id) == key, s.now, lo, hi);
    StartLeavesWaiting(cfg, s, id, key, t);
  }

  lemma StartLeavesWaiting(cfg: Config, s: State, id: nat, key: Q.Key, t: State)
    requires Enabled(cfg, s, Start(id)) && t == Next(cfg, s, Start(id)) && cfg.portErrorPolicy != Allow
    ensures |Waiting(t, key)| + (if KeyOf(s, id) == key then 1 else 0) == |Waiting(s, key)|
  {
    WaitingAfter(cfg, s, Start(id), key, t);
  }

  lemma BalanceKept(cfg: Config, s: State, a: Action, key: Q.Key, lo: real, hi: real, t: State)
    requires Enabled(cfg, s, a) && t == Next(cfg, s, a) && cfg.portErrorPolicy != Allow && Balanced(s, key, lo, hi)
    requires t.now != s.now ==> Waiting(s, key) == {}
    ensures Balanced(t, key, lo, hi)
  {
    if a.Tick? {
      assert Waiting(t, key) == Waiting(s, key);
    } else if a.Acquire? && Decision(cfg, s, a.id).allowed {
      AcquireBalances(cfg, s, a.id, key, lo, hi, t);
    } else if a.Start? {
      StartBalances(cfg, s, a.id, key, lo, hi, t);
    } else {
      WaitingAfter(cfg, s, a, key, t);
      QuietStep(cfg, s, a, t, key);
      KeepsTime(cfg, s, a, t);
      BalanceSteps(s, t, key, lo, hi, 0, 0);
    }
  }

  lemma KeepsTime(cfg: Config, s: State, a: Action, t: State)
    requires Enabled(cfg, s, a) && t == Next(cfg, s, a) && !a.Tick?
    ensures t.now == s.now
  {
  }

  lemma AllowedAcquireCounts(cfg: Config, s: State, id: nat, key: Q.Key, lo: real, hi: real, t: State)
    requires Enabled(cfg, s, Acquire(id)) && t == Next(cfg, s, Acquire(id)) && Decision(cfg, s, id).allowed
    ensures StartTimes(t.log, key) == StartTimes(s.log, key)
    ensures Q.Count(DebitTimes(t.log, key), lo, hi)
            == Q.Count(DebitTimes(s.log, key), lo, hi) + if KeyOf(s, id) == key && lo <= s.now < hi then 1 else 0
  {
    TimesSnoc(s.log, Debited(id, KeyOf(s, id), s.now), key);
    assert StartTimes(s.log, key) + [] == StartTimes(s.log, key);
    CountMore(DebitTimes(s.log, key), KeyOf(s, id) == key, s.now, lo, hi);
  }

  lemma CountMore(times: seq<real>, more: bool, ts: real, lo: real, hi: real)
    ensures Q.Count(times + (if more then [ts] else []), lo, hi)
            == Q.Count(times, lo, hi) + if more && lo <= ts < hi then 1 else 0
  {
    assert times + [] == times;
    Q.CountSnoc(times, ts, lo, hi);
  }

  lemma {:induction false} RunBalanced(cfg: Config, b: seq<State>, i: nat, key: Q.Key, lo: real, hi: real)
    requires Behaviour(cfg, b) && i < |b| && Prompt(b) && cfg.portErrorPolicy != Allow
    ensures Balanced(b[i], key, lo, hi)
  {
    if i == 0 {
      assert Waiting(Init, key) == {};
    } else {
      RunBalanced(cfg, b, i - 1, key, lo, hi);
      var a := ActionAt(cfg, b, i - 1);
      assert PromptAt(b, i - 1);
      assert b[i].now != b[i - 1].now ==> Waiting(b[i - 1], key) == {};
      BalanceKept(cfg, b[i - 1], a, key, lo, hi, b[i]);
    }
  }

  /** When the function starts at the instant of its debit, and store errors do
      not wave calls through, the starts obey the same bound. */
  lemma StartRateBound(cfg: Config, b: seq<State>, i: nat, tenant: string, bucket: string, lo: real)
    requires Behaviour(cfg, b) && i < |b| && PositiveSpans(cfg) && Prompt(b) && cfg.portErrorPolicy != Allow
    requires bucket in cfg.buckets && cfg.buckets[bucket].limit >= 0
    ensures var policy := cfg.buckets[bucket];
            Q.Count(StartTimes(b[i].log, (tenant, bucket)), lo, lo + policy.span) <= 2 * policy.limit
  {
    DebitRateBound(cfg, b, i, tenant, bucket, lo);
    RunBalanced(cfg, b, i, (tenant, bucket), lo, lo + cfg.buckets[bucket].span);
  }

  // ---- Delayed starts ----

  /** Invocations 0 to n of one key: the first `m` run, the others hold a permission. */
  ghost predicate Piled(s: State, tenant: string, bucket: string, n: nat, m: nat) {
    && (forall id: nat :: id in s.invocations <==> id < n)
    && forall id: nat {:trigger s.invocations[id]} :: id < n ==>
         s.invocations[id].tenant == tenant && s.invocations[id].bucket == bucket
         && (if id < m then s.invocations[id].phase.Running? else s.invocations[id].phase.Admitted?)
  }

  /** The key's last window, the only one, is over, and no cooldown is in force. */
  predicate RoomAgain(cfg: Config, s: State, key: Q.Key)
    requires key.1 in cfg.buckets
  {
    && s.store.cooldowns == map[] && s.store.windows.Keys <= {key}
    && (key in s.store.windows ==> s.now - s.store.windows[key].start >= cfg.buckets[key.1].span)
  }

  lemma FreshAcquire(st: Q.State, key: Q.Key, policy: Q.Policy, ts: real)
    requires st.cooldowns == map[] && st.windows.Keys <= {key} && policy.limit >= 1 && policy.span > 0.0
    requires key in st.windows ==> ts - st.windows[key].start >= policy.span
    ensures var (t, d) := Q.Acquire(st, key, policy, ts);
            d.allowed && t.cooldowns == map[] && t.windows == map[key := Q.Window(ts, 1, policy.span)]
  {
    var (t, d) := Q.Admit(st, key, policy, ts);
    assert st.cooldowns - {key} == map[];
    assert t.windows == map[key := Q.Window(ts, 1, policy.span)];
    assert t.windows.Keys == {key};
  }

  /** A new invocation up to its acquire. */
  lemma ReachAcquire(cfg: Config, b: seq<State>, tenant: string, bucket: string, n: nat) returns (c: seq<State>)
    requires Behaviour(cfg, b) && bucket in cfg.buckets && Piled(b[|b| - 1], tenant, bucket, n, 0)
    ensures Behaviour(cfg, c)
    ensures var s := b[|b| - 1];
            c[|c| - 1] == s.(invocations := s.invocations[n := Invocation(tenant, bucket, Acquiring)])
  {
    c := Extended(cfg, b, Invoke(n, tenant, bucket));
    c := Extended(cfg, c, HardCap(n, NotCapped));
    var s := b[|b| - 1];
    assert c[|c| - 1].invocations == s.invocations[n := Invocation(tenant, bucket, Acquiring)];
  }

  /** The state after an admission into a fresh window. */
  predicate FreshlyAdmitted(cfg: Config, base: State, tenant: string, bucket: string, n: nat, t: State)
    requires bucket in cfg.buckets
  {
    && t.now == base.now && StartTimes(t.log, (tenant, bucket)) == StartTimes(base.log, (tenant, bucket))
    && t.store.cooldowns == map[]
    && t.store.windows == map[(tenant, bucket) := Q.Window(t.now, 1, cfg.buckets[bucket].span)]
    && n in t.invocations && t.invocations[n].phase.Admitted?
    && t.invocations == base.invocations[n := Invocation(tenant, bucket, t.invocations[n].phase)]
  }

  /** A new invocation is admitted, and then its window passes before it starts. */
  lemma AdmitAndWait(cfg: Config, b: seq<State>, tenant: string, bucket: string, n: nat)
    returns (c: seq<State>, t: State, u: State)
    requires Behaviour(cfg, b) && bucket in cfg.buckets && cfg.buckets[bucket].limit >= 1
    requires cfg.buckets[bucket].span > 0.0
    requires Piled(b[|b| - 1], tenant, bucket, n, 0) && RoomAgain(cfg, b[|b| - 1], (tenant, bucket))
    ensures Behaviour(cfg, c) && c[|c| - 1] == u && u == t.(now := t.now + cfg.buckets[bucket].span)
    ensures FreshlyAdmitted(cfg, b[|b| - 1], tenant, bucket, n, t)
  {
    c := ReachAcquire(cfg, b, tenant, bucket, n);
    var s := c[|c| - 1];
    t := Next(cfg, s, Acquire(n));
    FreshAdmit(cfg, b[|b| - 1], s, tenant, bucket, n, t);
    c := Extended(cfg, c, Acquire(n));
    u := Next(cfg, t, Tick(t.now + cfg.buckets[bucket].span));
    c := Extended(cfg, c, Tick(t.now + cfg.buckets[bucket].span));
  }

  /** The newly admitted waits until its window is over. */
  lemma WindowPasses(cfg: Config, base: State, tenant: string, bucket: string, n: nat, t: State, u: State)
    requires bucket in cfg.buckets && Piled(base, tenant, bucket, n, 0)
    requires FreshlyAdmitted(cfg, base, tenant, bucket, n, t) && u == t.(now := t.now + cfg.buckets[bucket].span)
    ensures Piled(u, tenant, bucket, n + 1, 0) && RoomAgain(cfg, u, (tenant, bucket))
  {
    PileGrows(base, tenant, bucket, n, u, t.invocations[n].phase);
  }

  lemma PileGrows(s: State, tenant: string, bucket: string, n: nat, t: State, phase: Phase)
    requires Piled(s, tenant, bucket, n, 0) && phase.Admitted?
    requires t.invocations == s.invocations[n := Invocation(tenant, bucket, phase)]
    ensures Piled(t, tenant, bucket, n + 1, 0)
  {
  }

  /** An acquire of a fresh window is admitted. */
  lemma FreshAdmit(cfg: Config, base: State, s: State, tenant: string, bucket: string, n: nat, t: State)
    requires bucket in cfg.buckets && cfg.buckets[bucket].limit >= 1 && cfg.buckets[bucket].span > 0.0
    requires s == base.(invocations := base.invocations[n := Invocation(tenant, bucket, Acquiring)])
    requires RoomAgain(cfg, base, (tenant, bucket)) && Enabled(cfg, s, Acquire(n)) && t == Next(cfg, s, Acquire(n))
    ensures FreshlyAdmitted(cfg, base, tenant, bucket, n, t)
  {
    var key := (tenant, bucket);
    FreshAcquire(s.store, key, cfg.buckets[bucket], s.now);
    TimesSnoc(s.log, Debited(n, key, s.now), key);
    assert StartTimes(s.log, key) + [] == StartTimes(s.log, key);
  }

  lemma {:induction false} PileUp(cfg: Config, tenant: string, bucket: string, n: nat) returns (b: seq<State>)
    requires bucket in cfg.buckets && cfg.buckets[bucket].limit >= 1 && cfg.buckets[bucket].span > 0.0
    ensures Behaviour(cfg, b)
    ensures Piled(b[|b| - 1], tenant, bucket, n, 0) && RoomAgain(cfg, b[|b| - 1], (tenant, bucket))
    ensures StartTimes(b[|b| - 1].log, (tenant, bucket)) == []
  {
    if n == 0 {
      return [Init];
    }
    var a := PileUp(cfg, tenant, bucket, n - 1);
    var t, u;
    b, t, u := AdmitAndWait(cfg, a, tenant, bucket, n - 1);
    WindowPasses(cfg, a[|a| - 1], tenant, bucket, n - 1, t, u);
  }

  lemma {:induction false} StartAll(cfg: Config, b: seq<State>, tenant: string, bucket: string, n: nat, m: nat,
                                    hi: real)
    returns (c: seq<State>)
    requires Behaviour(cfg, b) && m <= n && Piled(b[|b| - 1], tenant, bucket, n, m) && b[|b| - 1].now < hi
    ensures Behaviour(cfg, c) && c[|c| - 1].now == b[|b| - 1].now
    ensures var key, now := (tenant, bucket), b[|b| - 1].now;
            Q.Count(StartTimes(c[|c| - 1].log, key), now, hi)
            == Q.Count(StartTimes(b[|b| - 1].log, key), now, hi) + n - m
    decreases n - m
  {
    c := b;
    if m < n {
      c := StartNext(cfg, b, tenant, bucket, n, m, hi);
      c := StartAll(cfg, c, tenant, bucket, n, m + 1, hi);
    }
  }

  lemma StartNext(cfg: Config, b: seq<State>, tenant: string, bucket: string, n: nat, m: nat, hi: real)
    returns (c: seq<State>)
    requires Behaviour(cfg, b) && m < n && Piled(b[|b| - 1], tenant, bucket, n, m) && b[|b| - 1].now < hi
    ensures Behaviour(cfg, c) && Piled(c[|c| - 1], tenant, bucket, n, m + 1) && c[|c| - 1].now == b[|b| - 1].now
    ensures var key, now := (tenant, bucket), b[|b| - 1].now;
            Q.Count(StartTimes(c[|c| - 1].log, key), now, hi)
            == Q.Count(StartTimes(b[|b| - 1].log, key), now, hi) + 1
  {
    PileStarts(cfg, b[|b| - 1], tenant, bucket, n, m);
    OneMoreStart(cfg, b[|b| - 1], (tenant, bucket), m, hi);
    c := Extended(cfg, b, Start(m));
  }

  lemma PileStarts(cfg: Config, s: State, tenant: string, bucket: string, n: nat, m: nat)
    requires Piled(s, tenant, bucket, n, m) && m < n
    ensures Enabled(cfg, s, Start(m)) && KeyOf(s, m) == (tenant, bucket)
    ensures Piled(Next(cfg, s, Start(m)), tenant, bucket, n, m + 1) && Next(cfg, s, Start(m)).now == s.now
  {
    assert m in s.invocations && s.invocations[m].tenant == tenant;
  }

  lemma OneMoreStart(cfg: Config, s: State, key: Q.Key, m: nat, hi: real)
    requires Enabled(cfg, s, Start(m)) && KeyOf(s, m) == key && s.now < hi
    ensures Q.Count(StartTimes(Next(cfg, s, Start(m)).log, key), s.now, hi)
            == Q.Count(StartTimes(s.log, key), s.now, hi) + 1
  {
    StartPerforms(cfg, s, m, key, Next(cfg, s, Start(m)));
    Q.CountSnoc(StartTimes(s.log, key), s.now, s.now, hi);
  }

  /** Without promptness there is no bound on starts: admitted invocations that
      wait out their windows can all start at one instant, any number of them. */
  lemma DelayedStartsPileUp(cfg: Config, tenant: string, bucket: string, n: nat) returns (b: seq<State>)
    requires bucket in cfg.buckets && cfg.buckets[bucket].limit >= 1 && cfg.buckets[bucket].span > 0.0
    ensures Behaviour(cfg, b)
    ensures var s := b[|b| - 1];
            Q.Count(StartTimes(s.log, (tenant, bucket)), s.now, s.now + cfg.buckets[bucket].span) == n
  {
    b := PileUp(cfg, tenant, bucket, n);
    b := StartAll(cfg, b, tenant, bucket, n, 0, b[|b| - 1].now + cfg.buckets[bucket].span);
  }
}
