/** What the quota store decides, told by the history of its calls alone: a fixed
    window opens at the first call allowed after the window before it, and the
    cooldown marked last is in force until its deadline. */
module QuotaReference {
  import opened Options
  import opened Quota

  /** The deadline that was marked last for a key. */
  function Deadline(key: Key, ops: seq<Op>): Option<real> {
    if ops == [] then None
    else
      var op := ops[|ops| - 1];
      if op.MarkOp? && op.key == key then Some(op.ts + op.seconds) else Deadline(key, ops[..|ops| - 1])
  }

  predicate CoolingDown(key: Key, ops: seq<Op>, ts: real) {
    Deadline(key, ops).Some? && ts < Deadline(key, ops).value
  }

  /** When the window of the last allowed call opened. */
  function Opening(times: seq<real>, span: real): Option<real> {
    if times == [] then None
    else
      var before, last := Opening(times[..|times| - 1], span), times[|times| - 1];
      if before == None || last - before.value >= span then Some(last) else before
  }

  /** The calls allowed so far in the window that a call at `ts` falls into. */
  function Used(times: seq<real>, span: real, ts: real): nat {
    match Opening(times, span)
    case None => 0
    case Some(start) => if ts - start >= span then 0 else Count(times, start, start + span)
  }

  predicate WindowShows(w: Window, times: seq<real>, policy: Policy) {
    && Opening(times, policy.span) == Some(w.start)
    && w.count == Count(times, w.start, w.start + policy.span)
    && forall i :: 0 <= i < |times| ==> times[i] < w.start + policy.span
  }

  /** A store that never prunes shows its history. */
  predicate Shows(st: State, key: Key, ops: seq<Op>, times: seq<real>, policy: Policy, now: real) {
    && (if times == [] then key in st.windows ==> st.windows[key].count == 0 && policy.limit <= 0
        else policy.limit >= 1 && key in st.windows && st.windows[key].start <= now
             && WindowShows(st.windows[key], times, policy))
    && (if key in st.cooldowns then Deadline(key, ops) == Some(st.cooldowns[key])
        else Deadline(key, ops).Some? ==> Deadline(key, ops).value <= now)
  }

  /** The decision that the history calls for. */
  predicate Decides(d: Decision, key: Key, ops: seq<Op>, times: seq<real>, policy: Policy, ts: real) {
    && (d.allowed <==> !CoolingDown(key, ops, ts) && Used(times, policy.span, ts) < policy.limit)
    && d.cooldownUntil == (if CoolingDown(key, ops, ts) then Deadline(key, ops) else None)
    && d.tokensRemaining == if d.allowed then policy.limit - Used(times, policy.span, ts) - 1 else 0
  }

  lemma AdmitDecides(st: State, key: Key, ops: seq<Op>, times: seq<real>, policy: Policy, now: real, ts: real)
    requires Shows(st, key, ops, times, policy, now) && now <= ts && policy.span > 0.0
    ensures Decides(Admit(st, key, policy, ts).1, key, ops, times, policy, ts)
  {
  }

  lemma OpeningSnoc(times: seq<real>, ts: real, span: real)
    ensures Opening(times + [ts], span)
            == if Opening(times, span) == None || ts - Opening(times, span).value >= span then Some(ts)
               else Opening(times, span)
  {
    assert (times + [ts])[..|times|] == times;
  }

  lemma DeadlineSnoc(key: Key, ops: seq<Op>, op: Op)
    ensures Deadline(key, ops + [op])
            == if op.MarkOp? && op.key == key then Some(op.ts + op.seconds) else Deadline(key, ops)
  {
    assert (ops + [op])[..|ops|] == ops;
  }

  /** A call counted in the current window, or in a new one. */
  lemma CountedShows(w: Window, times: seq<real>, policy: Policy, ts: real)
    requires WindowShows(w, times, policy) && policy.span > 0.0 && w.start <= ts
    ensures ts - w.start < policy.span ==> WindowShows(w.(count := w.count + 1), times + [ts], policy)
    ensures ts - w.start >= policy.span ==> WindowShows(Window(ts, 1, policy.span), times + [ts], policy)
  {
    OpeningSnoc(times, ts, policy.span);
    CountSnoc(times, ts, w.start, w.start + policy.span);
    CountSnoc(times, ts, ts, ts + policy.span);
    if ts - w.start >= policy.span {
      CountOutside(times, ts, ts + policy.span);
    }
  }

  lemma FirstShows(policy: Policy, ts: real)
    requires policy.span > 0.0
    ensures WindowShows(Window(ts, 1, policy.span), [ts], policy)
  {
    OpeningSnoc([], ts, policy.span);
    CountSnoc([], ts, ts, ts + policy.span);
    assert [] + [ts] == [ts];
  }

  lemma AcquireShows(st: State, key: Key, ops: seq<Op>, times: seq<real>, policy: Policy, now: real, ts: real)
    requires Shows(st, key, ops, times, policy, now) && now <= ts && policy.span > 0.0
    ensures var (t, d) := Admit(st, key, policy, ts);
            Shows(t, key, ops, times + (if d.allowed then [ts] else []), policy, ts)
  {
    assert times + [] == times && [] + [ts] == [ts];
    if Admit(st, key, policy, ts).1.allowed {
      if times == [] {
        FirstShows(policy, ts);
      } else {
        CountedShows(st.windows[key], times, policy, ts);
      }
    }
  }

  lemma StepShows(st: State, key: Key, ops: seq<Op>, times: seq<real>, policy: Policy, now: real, op: Op)
    requires Shows(st, key, ops, times, policy, now) && now <= op.ts && policy.span > 0.0
    requires op.AcquireOp? && op.key == key ==> op.policy == policy
    ensures var (t, d) := Step(false, st, op);
            Shows(t, key, ops + [op],
                  times + (if op.AcquireOp? && op.key == key && d.allowed then [op.ts] else []), policy, op.ts)
  {
    DeadlineSnoc(key, ops, op);
    assert times + [] == times;
    if op.AcquireOp? && op.key == key {
      AcquireShows(st, key, ops, times, policy, now, op.ts);
    }
  }

  lemma {:induction false} RunShows(span: Key -> real, ops: seq<Op>, key: Key, policy: Policy, now: real)
    requires Steady(span, now, ops) && OnePolicy(key, policy, ops) && policy.span > 0.0
    ensures Shows(After(false, Empty, ops), key, ops, AllowedTimes(key, ops, Decisions(false, Empty, ops)), policy,
                  EndTime(now, ops))
  {
    if ops != [] {
      var init, op := ops[..|ops| - 1], ops[|ops| - 1];
      assert ops == init + [op];
      SteadyPrefix(span, now, init, op);
      RunShows(span, init, key, policy, now);
      AfterSnoc(false, Empty, init, op);
      var st := After(false, Empty, init);
      AllowedTimesSnoc(key, init, Decisions(false, Empty, init), op, Step(false, st, op).1);
      StepShows(st, key, init, AllowedTimes(key, init, Decisions(false, Empty, init)), policy, EndTime(now, init), op);
    }
  }

  lemma {:induction false} SteadyPrefix(span: Key -> real, now: real, ops: seq<Op>, op: Op)
    requires Steady(span, now, ops + [op])
    ensures Steady(span, now, ops) && EndTime(now, ops) <= op.ts == EndTime(now, ops + [op])
    ensures op.AcquireOp? ==> op.policy.span == span(op.key) && span(op.key) > 0.0
    decreases |ops|
  {
    if ops == [] {
      assert [op][1..] == [] && ops + [op] == [op];
    } else {
      assert (ops + [op])[1..] == ops[1..] + [op];
      SteadyPrefix(span, ops[0].ts, ops[1..], op);
    }
  }

  /** After any run of the pruning store, its next decision is the one that the
      history of the key calls for: allowed if and only if no cooldown is in force
      and the current window has room; the tokens are what is then left of it, and
      the deadline is reported exactly while it is in force. */
  lemma AcquireDecides(span: Key -> real, ops: seq<Op>, key: Key, policy: Policy, now: real, ts: real)
    requires Steady(span, now, ops) && OnePolicy(key, policy, ops) && EndTime(now, ops) <= ts
    requires policy.span > 0.0 && policy.span == span(key)
    ensures Decides(Acquire(After(true, Empty, ops), key, policy, ts).1, key, ops,
                    AllowedTimes(key, ops, Decisions(true, Empty, ops)), policy, ts)
  {
    PruningIsUnobservable(span, now, ops);
    StepForgets(span, After(true, Empty, ops), After(false, Empty, ops), EndTime(now, ops), AcquireOp(key, policy, ts));
    RunShows(span, ops, key, policy, now);
    AdmitDecides(After(false, Empty, ops), key, ops, AllowedTimes(key, ops, Decisions(false, Empty, ops)), policy,
                 EndTime(now, ops), ts);
  }
}
