/** The in-process fixed-window quota store: windows, cooldowns and the
    amortised prune, which callers cannot observe. */
module Quota {
  import opened Options

  type Key = (string, string)   // (tenant, bucket)

  const PRUNE_THRESHOLD := 2048
  const PRUNE_EVERY := 256
  const PRUNE_HARD_BOUND := 4096

  datatype Policy = Policy(limit: int, span: real)

  datatype Window = Window(start: real, count: int, span: real)

  datatype Decision = Decision(allowed: bool, tokensRemaining: int, cooldownUntil: Option<real>)

  datatype State = State(windows: map<Key, Window>, cooldowns: map<Key, real>, sincePrune: nat)

  // ---- What the operations do ----

  /** `acquire` up to, and without, its call of `_prune`. */
  function Admit(st: State, key: Key, policy: Policy, ts: real): (State, Decision) {
    if key in st.cooldowns && ts < st.cooldowns[key] then
      (st, Decision(false, 0, Some(st.cooldowns[key])))
    else
      var open := st.(cooldowns := st.cooldowns - {key});
      var w := if key in st.windows then st.windows[key] else Window(ts, 0, policy.span);
      var current := if ts - w.start >= policy.span then Window(ts, 0, policy.span) else w.(span := policy.span);
      if current.count >= policy.limit then
        (open.(windows := open.windows[key := current]), Decision(false, 0, None))
      else
        var counted := current.(count := current.count + 1);
        var left := policy.limit - counted.count;
        (open.(windows := open.windows[key := counted]), Decision(true, if left > 0 then left else 0, None))
  }

  /** Whether `_prune` scans in this state, and not merely counts the call. */
  predicate Scans(st: State) {
    |st.windows| > PRUNE_THRESHOLD
    && (|st.windows| > PRUNE_HARD_BOUND || st.sincePrune + 1 >= PRUNE_EVERY)
  }

  predicate IsStale(w: Window, ts: real) {
    w.start < ts - 2.0 * w.span
  }

  function Prune(st: State, ts: real): State {
    if |st.windows| <= PRUNE_THRESHOLD then st
    else if !Scans(st) then st.(sincePrune := st.sincePrune + 1)
    else State(map k | k in st.windows && !IsStale(st.windows[k], ts) :: st.windows[k],
               map k | k in st.cooldowns && !(st.cooldowns[k] < ts) :: st.cooldowns[k],
               0)
  }

  /** A prune scans above 4096 windows, and from 2049 on at every 256th allowed
      call; a scan removes exactly the windows older than twice their own span and
      the cooldowns that are over. */
  lemma PruneRemoves(st: State, ts: real)
    ensures var t, scans := Prune(st, ts), |st.windows| > 4096 || (|st.windows| > 2048 && st.sincePrune >= 255);
            && (forall k :: k in t.windows <==>
                  k in st.windows && !(scans && st.windows[k].start < ts - 2.0 * st.windows[k].span))
            && (forall k :: k in t.windows ==> t.windows[k] == st.windows[k])
            && (forall k :: k in t.cooldowns <==> k in st.cooldowns && !(scans && st.cooldowns[k] < ts))
            && (forall k :: k in t.cooldowns ==> t.cooldowns[k] == st.cooldowns[k])
            && t.sincePrune == if scans then 0 else st.sincePrune + if |st.windows| > 2048 then 1 else 0
  {
  }

  function Acquire(st: State, key: Key, policy: Policy, ts: real): (State, Decision) {
    var (admitted, d) := Admit(st, key, policy, ts);
    (if d.allowed then Prune(admitted, ts) else admitted, d)
  }

  function MarkCooldown(st: State, key: Key, seconds: real, ts: real): State {
    st.(cooldowns := st.cooldowns[key := ts + seconds])
  }

  class FixedWindowQuotaStore {
    var windows: map<Key, Window>
    var cooldowns: map<Key, real>
    var acquiresSincePrune: nat

    function Abs(): State
      reads this
    {
      State(windows, cooldowns, acquiresSincePrune)
    }

    constructor ()
      ensures Abs() == State(map[], map[], 0)
    {
      windows, cooldowns, acquiresSincePrune := map[], map[], 0;
    }

    method TryAcquire(key: Key, policy: Policy, ts: real) returns (d: Decision)
      modifies this
      ensures (Abs(), d) == Acquire(old(Abs()), key, policy, ts)
    {
      if key in cooldowns {
        if ts < cooldowns[key] {
          return Decision(false, 0, Some(cooldowns[key]));
        }
        cooldowns := cooldowns - {key};
      }
      assert cooldowns == old(cooldowns) - {key};
      var w := if key in windows then windows[key] else Window(ts, 0, policy.span);
      var start, count := w.start, w.count;
      if ts - start >= policy.span {
        start, count := ts, 0;
      }
      if count >= policy.limit {
        windows := windows[key := Window(start, count, policy.span)];
        return Decision(false, 0, None);
      }
      count := count + 1;
      windows := windows[key := Window(start, count, policy.span)];
      assert Abs() == Admit(old(Abs()), key, policy, ts).0;
      PruneLocked(ts);
      d := Decision(true, if policy.limit - count > 0 then policy.limit - count else 0, None);
    }

    method Cooldown(key: Key, seconds: real, ts: real)
      modifies this
      ensures Abs() == MarkCooldown(old(Abs()), key, seconds, ts)
    {
      cooldowns := cooldowns[key := ts + seconds];
    }

    method PruneLocked(ts: real)
      modifies this
      ensures Abs() == Prune(old(Abs()), ts)
    {
      if |windows| <= PRUNE_THRESHOLD {
        return;
      }
      acquiresSincePrune := acquiresSincePrune + 1;
      if |windows| <= PRUNE_HARD_BOUND && acquiresSincePrune < PRUNE_EVERY {
        return;
      }
      acquiresSincePrune := 0;
      var stale := set k | k in windows && IsStale(windows[k], ts);
      while stale != {}
        invariant stale == set k | k in windows && IsStale(windows[k], ts)
        invariant cooldowns == old(cooldowns) && acquiresSincePrune == 0
        invariant forall k :: k in windows <==> k in old(windows) && (k in stale || !IsStale(old(windows)[k], ts))
        invariant forall k :: k in windows ==> windows[k] == old(windows)[k]
        decreases stale
      {
        var k :| k in stale;
        windows := windows - {k};
        stale := stale - {k};
      }
      var expired := set k | k in cooldowns && cooldowns[k] < ts;
      while expired != {}
        invariant expired == set k | k in cooldowns && cooldowns[k] < ts
        invariant acquiresSincePrune == 0
        invariant windows == map k | k in old(windows) && !IsStale(old(windows)[k], ts) :: old(windows)[k]
        invariant forall k :: k in cooldowns <==> k in old(cooldowns) && (k in expired || !(old(cooldowns)[k] < ts))
        invariant forall k :: k in cooldowns ==> cooldowns[k] == old(cooldowns)[k]
        decreases expired
      {
        var k :| k in expired;
        cooldowns := cooldowns - {k};
        expired := expired - {k};
      }
    }
  }

  // ---- Runs ----

  datatype Op =
    | AcquireOp(key: Key, policy: Policy, ts: real)
    | MarkOp(key: Key, seconds: real, ts: real)

  /** One operation; `prune` false gives the store that never forgets. */
  function Step(prune: bool, st: State, op: Op): (State, Decision) {
    match op
    case AcquireOp(key, policy, ts) => if prune then Acquire(st, key, policy, ts) else Admit(st, key, policy, ts)
    case MarkOp(key, seconds, ts) => (MarkCooldown(st, key, seconds, ts), Decision(false, 0, None))
  }

  function Decisions(prune: bool, st: State, ops: seq<Op>): (ds: seq<Decision>)
    ensures |ds| == |ops|
    decreases |ops|
  {
    if ops == [] then []
    else [Step(prune, st, ops[0]).1] + Decisions(prune, Step(prune, st, ops[0]).0, ops[1..])
  }

  function After(prune: bool, st: State, ops: seq<Op>): State
    decreases |ops|
  {
    if ops == [] then st else After(prune, Step(prune, st, ops[0]).0, ops[1..])
  }

  /** The time of the last operation. */
  function EndTime(now: real, ops: seq<Op>): real
    decreases |ops|
  {
    if ops == [] then now else EndTime(ops[0].ts, ops[1..])
  }

  /** A clock that never runs backwards from `now`, and one positive window length per key. */
  predicate Steady(span: Key -> real, now: real, ops: seq<Op>)
    decreases |ops|
  {
    ops == [] ||
    (ops[0].ts >= now
     && (ops[0].AcquireOp? ==> ops[0].policy.span == span(ops[0].key) && span(ops[0].key) > 0.0)
     && Steady(span, ops[0].ts, ops[1..]))
  }

  // ---- Pruning is unobservable ----

  /** `p` is `u` without some windows and cooldowns that no later call can see. */
  predicate Forgets(span: Key -> real, p: State, u: State, now: real) {
    && (forall k :: k in p.windows ==> k in u.windows && p.windows[k] == u.windows[k])
    && (forall k :: k in u.windows ==> u.windows[k].span == span(k) && span(k) > 0.0)
    && (forall k :: k in u.windows && k !in p.windows ==> IsStale(u.windows[k], now))
    && (forall k :: k in p.cooldowns ==> k in u.cooldowns && p.cooldowns[k] == u.cooldowns[k])
    && (forall k :: k in u.cooldowns && k !in p.cooldowns ==> u.cooldowns[k] < now)
  }

  lemma AdmitForgets(span: Key -> real, p: State, u: State, now: real, key: Key, policy: Policy, ts: real)
    requires Forgets(span, p, u, now) && ts >= now && policy.span == span(key) && span(key) > 0.0
    ensures Admit(p, key, policy, ts).1 == Admit(u, key, policy, ts).1
    ensures Forgets(span, Admit(p, key, policy, ts).0, Admit(u, key, policy, ts).0, ts)
  {
    var a, b := Admit(p, key, policy, ts), Admit(u, key, policy, ts);
    assert key in u.windows && key !in p.windows ==> ts - u.windows[key].start >= policy.span;
    assert a.1 == b.1;
    if a.1.cooldownUntil == None {
      assert a.0.windows[key] == b.0.windows[key];
    }
  }

  lemma PruneForgets(span: Key -> real, p: State, u: State, now: real)
    requires Forgets(span, p, u, now)
    ensures Forgets(span, Prune(p, now), u, now)
  {
  }

  lemma StepForgets(span: Key -> real, p: State, u: State, now: real, op: Op)
    requires Forgets(span, p, u, now) && op.ts >= now
    requires op.AcquireOp? ==> op.policy.span == span(op.key) && span(op.key) > 0.0
    ensures Step(true, p, op).1 == Step(false, u, op).1
    ensures Forgets(span, Step(true, p, op).0, Step(false, u, op).0, op.ts)
  {
    if op.AcquireOp? {
      AdmitForgets(span, p, u, now, op.key, op.policy, op.ts);
      PruneForgets(span, Admit(p, op.key, op.policy, op.ts).0, Admit(u, op.key, op.policy, op.ts).0, op.ts);
    }
  }

  lemma {:induction false} ForgettingDecidesAlike(span: Key -> real, p: State, u: State, now: real, ops: seq<Op>)
    requires Forgets(span, p, u, now) && Steady(span, now, ops)
    ensures Decisions(true, p, ops) == Decisions(false, u, ops)
    ensures Forgets(span, After(true, p, ops), After(false, u, ops), EndTime(now, ops))
    decreases |ops|
  {
    if ops != [] {
      StepForgets(span, p, u, now, ops[0]);
      ForgettingDecidesAlike(span, Step(true, p, ops[0]).0, Step(false, u, ops[0]).0, ops[0].ts, ops[1..]);
    }
  }

  const Empty := State(map[], map[], 0)

  /** From an empty store, every caller gets the decisions of a store that never prunes. */
  lemma PruningIsUnobservable(span: Key -> real, now: real, ops: seq<Op>)
    requires Steady(span, now, ops)
    ensures Decisions(true, Empty, ops) == Decisions(false, Empty, ops)
    ensures Forgets(span, After(true, Empty, ops), After(false, Empty, ops), EndTime(now, ops))
  {
    ForgettingDecidesAlike(span, Empty, Empty, now, ops);
  }

  // ---- The cost of pruning ----

  function AllowedCount(ds: seq<Decision>): nat {
    if ds == [] then 0 else (if ds[0].allowed then 1 else 0) + AllowedCount(ds[1..])
  }

  /** The number of windows looked at by the scan that this operation triggers, if any. */
  function ScanCost(st: State, op: Op): nat {
    var (admitted, d) := Step(false, st, op);
    if op.AcquireOp? && d.allowed && Scans(admitted) then |admitted.windows| else 0
  }

  function ScanWork(st: State, ops: seq<Op>): nat
    decreases |ops|
  {
    if ops == [] then 0 else ScanCost(st, ops[0]) + ScanWork(Step(true, st, ops[0]).0, ops[1..])
  }

  /** At no point of the run, not even just before a prune, more than the hard bound. */
  predicate WithinHardBound(st: State, ops: seq<Op>)
    decreases |ops|
  {
    ops == [] || (|Step(false, st, ops[0]).0.windows| <= PRUNE_HARD_BOUND
                  && WithinHardBound(Step(true, st, ops[0]).0, ops[1..]))
  }

  /** Within the hard bound the scans cost at most 16 windows per allowed call. */
  lemma {:induction false} ScanWorkIsAmortised(st: State, ops: seq<Op>)
    requires WithinHardBound(st, ops)
    ensures ScanWork(st, ops) <= 16 * (AllowedCount(Decisions(true, st, ops)) + st.sincePrune)
    decreases |ops|
  {
    if ops != [] {
      var ds := Decisions(true, st, ops);
      assert ds[1..] == Decisions(true, Step(true, st, ops[0]).0, ops[1..]);
      ScanWorkIsAmortised(Step(true, st, ops[0]).0, ops[1..]);
    }
  }

  // ---- The size of the window table ----

  /** Above the hard bound every window is younger than twice its own span at `ts`. */
  predicate Lean(st: State, ts: real) {
    |st.windows| > PRUNE_HARD_BOUND ==> forall k :: k in st.windows ==> !IsStale(st.windows[k], ts)
  }

  /** Spans are the configured ones, and every window has admitted a call. */
  predicate WellFormed(span: Key -> real, st: State) {
    forall k :: k in st.windows ==> st.windows[k].span == span(k) && st.windows[k].count >= 1
  }

  function LastAllowed(st: State, ops: seq<Op>, last: real): real
    decreases |ops|
  {
    if ops == [] then last
    else LastAllowed(Step(true, st, ops[0]).0, ops[1..], if Step(true, st, ops[0]).1.allowed then ops[0].ts else last)
  }

  predicate PositiveLimits(ops: seq<Op>) {
    forall i :: 0 <= i < |ops| && ops[i].AcquireOp? ==> ops[i].policy.limit >= 1
  }

  lemma AdmitKeepsForm(span: Key -> real, st: State, key: Key, policy: Policy, ts: real)
    requires WellFormed(span, st) && policy.span == span(key) && span(key) > 0.0 && policy.limit >= 1
    ensures var (t, d) := Admit(st, key, policy, ts);
            WellFormed(span, t) && (!d.allowed ==> t.windows == st.windows)
  {
    if key in st.windows {
      assert st.windows[key].span == policy.span && st.windows[key].count >= 1;
    }
  }

  lemma PruneLeavesLean(span: Key -> real, st: State, ts: real)
    requires WellFormed(span, st)
    ensures WellFormed(span, Prune(st, ts)) && Lean(Prune(st, ts), ts)
  {
  }

  /** Only allowed calls touch the table, and they leave it lean. */
  lemma StepStaysLean(span: Key -> real, st: State, op: Op, last: real)
    requires WellFormed(span, st) && Lean(st, last)
    requires op.AcquireOp? ==> op.policy.span == span(op.key) && span(op.key) > 0.0 && op.policy.limit >= 1
    ensures var (t, d) := Step(true, st, op);
            WellFormed(span, t) && Lean(t, if d.allowed then op.ts else last)
            && (!d.allowed ==> t.windows == st.windows)
  {
    if op.AcquireOp? {
      AdmitKeepsForm(span, st, op.key, op.policy, op.ts);
      PruneLeavesLean(span, Admit(st, op.key, op.policy, op.ts).0, op.ts);
    }
  }

  /** In every reachable state, a table above the hard bound holds only windows
      that were younger than twice their span at the last allowed call. */
  lemma {:induction false} TableStaysLean(span: Key -> real, st: State, ops: seq<Op>, now: real, last: real)
    requires WellFormed(span, st) && Lean(st, last)
    requires Steady(span, now, ops) && PositiveLimits(ops)
    ensures Lean(After(true, st, ops), LastAllowed(st, ops, last))
    decreases |ops|
  {
    if ops != [] {
      StepStaysLean(span, st, ops[0], last);
      var (t, d) := Step(true, st, ops[0]);
      assert forall i :: 0 <= i < |ops[1..]| ==> ops[1..][i] == ops[i + 1];
      TableStaysLean(span, t, ops[1..], ops[0].ts, if d.allowed then ops[0].ts else last);
    }
  }

  // ---- Rate bounds ----

  /** The times at which calls on a key were allowed. */
  function AllowedTimes(key: Key, ops: seq<Op>, ds: seq<Decision>): seq<real>
    requires |ops| == |ds|
  {
    if ops == [] then []
    else (if ops[0].AcquireOp? && ops[0].key == key && ds[0].allowed then [ops[0].ts] else [])
         + AllowedTimes(key, ops[1..], ds[1..])
  }

  /** How many of the times lie in the half-open interval from `a` to `b`. */
  function Count(times: seq<real>, a: real, b: real): nat {
    if times == [] then 0
    else Count(times[..|times| - 1], a, b) + if a <= times[|times| - 1] < b then 1 else 0
  }

  lemma {:induction false} CountSplits(times: seq<real>, a: real, m: real, b: real)
    requires a <= m <= b
    ensures Count(times, a, b) == Count(times, a, m) + Count(times, m, b)
  {
    if times != [] {
      CountSplits(times[..|times| - 1], a, m, b);
    }
  }

  lemma {:induction false} CountWidens(times: seq<real>, a: real, b: real, c: real, d: real)
    requires c <= a && b <= d
    ensures Count(times, a, b) <= Count(times, c, d)
  {
    if times != [] {
      CountWidens(times[..|times| - 1], a, b, c, d);
    }
  }

  lemma {:induction false} CountOutside(times: seq<real>, a: real, b: real)
    requires forall i :: 0 <= i < |times| ==> times[i] < a
    ensures Count(times, a, b) == 0
  {
    if times != [] {
      CountOutside(times[..|times| - 1], a, b);
    }
  }

  lemma CountSnoc(times: seq<real>, t: real, a: real, b: real)
    ensures Count(times + [t], a, b) == Count(times, a, b) + if a <= t < b then 1 else 0
  {
    assert (times + [t])[..|times|] == times;
  }

  /** The span from `a` on holds at most twice the limit. */
  predicate RateAt(times: seq<real>, policy: Policy, a: real) {
    Count(times, a, a + policy.span) <= 2 * policy.limit
  }

  ghost predicate RateOk(times: seq<real>, policy: Policy) {
    forall a: real {:trigger RateAt(times, policy, a)} :: RateAt(times, policy, a)
  }

  /** What the current window of a key says about the calls allowed so far: it
      counts those since its start, of which there are at most `limit`, and the
      span before it held at most `limit`. */
  ghost predicate Tracks(w: Window, times: seq<real>, policy: Policy) {
    && w.span == policy.span && 0 <= w.count <= policy.limit
    && (forall i :: 0 <= i < |times| ==> times[i] < w.start + policy.span)
    && w.count == Count(times, w.start, w.start + policy.span)
    && Count(times, w.start - policy.span, w.start) <= policy.limit
    && RateOk(times, policy)
  }

  ghost predicate KeyTracked(st: State, key: Key, times: seq<real>, policy: Policy, now: real) {
    && (if key in st.windows then Tracks(st.windows[key], times, policy) && st.windows[key].start <= now
        else times == [])
    && (forall i :: 0 <= i < |times| ==> times[i] <= now)
  }

  /** Around a call in the current window there is room: at most `limit` calls
      before the window, fewer than `limit` in it. */
  lemma RoomInWindow(w: Window, times: seq<real>, policy: Policy, ts: real, a: real)
    requires Tracks(w, times, policy) && policy.span > 0.0 && w.count < policy.limit
    requires w.start <= ts < w.start + policy.span && a <= ts < a + policy.span
    ensures Count(times, a, a + policy.span) < 2 * policy.limit
  {
    var end := w.start + policy.span;
    if a <= w.start {
      CountSplits(times, a, w.start, a + policy.span);
      CountWidens(times, a, w.start, w.start - policy.span, w.start);
      CountWidens(times, w.start, a + policy.span, w.start, end);
    } else {
      CountSplits(times, a, end, a + policy.span);
      CountOutside(times, end, a + policy.span);
      CountWidens(times, a, end, w.start, end);
    }
  }

  /** A call admitted into the current window. */
  lemma SameWindowTracks(w: Window, times: seq<real>, policy: Policy, ts: real)
    requires Tracks(w, times, policy) && policy.span > 0.0 && w.count < policy.limit
    requires w.start <= ts < w.start + policy.span
    ensures Tracks(w.(count := w.count + 1), times + [ts], policy)
  {
    CountSnoc(times, ts, w.start, w.start + policy.span);
    CountSnoc(times, ts, w.start - policy.span, w.start);
    forall a: real ensures RateAt(times + [ts], policy, a) {
      CountSnoc(times, ts, a, a + policy.span);
      assert RateAt(times, policy, a);
      if a <= ts < a + policy.span {
        RoomInWindow(w, times, policy, ts, a);
      }
    }
  }

  /** A call that opens a new window, at least one span after the last one opened. */
  lemma NewWindowTracks(w: Window, times: seq<real>, policy: Policy, ts: real)
    requires Tracks(w, times, policy) && policy.span > 0.0 && policy.limit >= 1
    requires ts >= w.start + policy.span
    ensures Tracks(Window(ts, 1, policy.span), times + [ts], policy)
  {
    CountSnoc(times, ts, ts, ts + policy.span);
    CountSnoc(times, ts, ts - policy.span, ts);
    CountOutside(times, ts, ts + policy.span);
    LateCount(w, times, policy, ts - policy.span, ts);
    forall a: real ensures RateAt(times + [ts], policy, a) {
      CountSnoc(times, ts, a, a + policy.span);
      assert RateAt(times, policy, a);
      if a <= ts < a + policy.span {
        LateCount(w, times, policy, a, a + policy.span);
      }
    }
  }

  /** From the window's start on, there are only the calls it counted. */
  lemma LateCount(w: Window, times: seq<real>, policy: Policy, a: real, b: real)
    requires Tracks(w, times, policy) && a >= w.start && b >= a
    ensures Count(times, a, b) <= policy.limit
  {
    var end := w.start + policy.span;
    if b <= end {
      CountWidens(times, a, b, w.start, end);
    } else if a <= end {
      CountSplits(times, a, end, b);
      CountOutside(times, end, b);
      CountWidens(times, a, end, w.start, end);
    } else {
      CountOutside(times, a, b);
    }
  }

  lemma FirstWindowTracks(policy: Policy, ts: real)
    requires policy.span > 0.0 && policy.limit >= 0
    ensures Tracks(Window(ts, 0, policy.span), [], policy)
    ensures policy.limit >= 1 ==> Tracks(Window(ts, 1, policy.span), [] + [ts], policy)
  {
    forall a: real ensures RateAt([], policy, a) {}
    if policy.limit >= 1 {
      SameWindowTracks(Window(ts, 0, policy.span), [], policy, ts);
    }
  }

  /** The window that counts a call at `ts`. */
  function CurrentWindow(w: Window, policy: Policy, ts: real): Window {
    if ts - w.start >= policy.span then Window(ts, 0, policy.span) else w.(span := policy.span)
  }

  function CountedWindow(w: Window, policy: Policy, ts: real): Window {
    var current := CurrentWindow(w, policy, ts);
    if current.count < policy.limit then current.(count := current.count + 1) else current
  }

  /** What an acquire past the cooldown does to its key's window. */
  lemma AdmittedWindow(st: State, key: Key, policy: Policy, ts: real)
    requires !(key in st.cooldowns && ts < st.cooldowns[key])
    ensures var (t, d) := Admit(st, key, policy, ts);
            var w := if key in st.windows then st.windows[key] else Window(ts, 0, policy.span);
            && key in t.windows && (d.allowed <==> CurrentWindow(w, policy, ts).count < policy.limit)
            && t.windows[key] == CountedWindow(w, policy, ts)
  {
  }

  /** A tracked window stays tracked through a call, admitted or not. */
  lemma CallTracks(w: Window, times: seq<real>, policy: Policy, ts: real, after: seq<real>)
    requires Tracks(w, times, policy) && policy.span > 0.0 && policy.limit >= 0 && ts >= w.start
    requires after == times + if CurrentWindow(w, policy, ts).count < policy.limit then [ts] else []
    ensures Tracks(CountedWindow(w, policy, ts), after, policy)
  {
    assert times + [] == times;
    if ts - w.start >= policy.span {
      if policy.limit >= 1 {
        NewWindowTracks(w, times, policy, ts);
      } else {
        EmptyWindowTracks(w, times, policy, ts);
      }
    } else if w.count < policy.limit {
      SameWindowTracks(w, times, policy, ts);
    }
  }

  lemma FirstCallTracks(policy: Policy, ts: real, after: seq<real>)
    requires policy.span > 0.0 && policy.limit >= 0
    requires after == if 0 < policy.limit then [ts] else []
    ensures Tracks(CountedWindow(Window(ts, 0, policy.span), policy, ts), after, policy)
  {
    FirstWindowTracks(policy, ts);
    assert [] + [ts] == [ts];
  }

  /** The unpruned store keeps the count of allowed calls on a key. */
  lemma AcquireTracks(st: State, key: Key, times: seq<real>, policy: Policy, now: real, ts: real)
    requires KeyTracked(st, key, times, policy, now) && policy.span > 0.0 && policy.limit >= 0 && ts >= now
    ensures var (t, d) := Admit(st, key, policy, ts);
            KeyTracked(t, key, times + (if d.allowed then [ts] else []), policy, ts)
  {
    assert times + [] == times;
    if !(key in st.cooldowns && ts < st.cooldowns[key]) {
      AdmittedWindow(st, key, policy, ts);
      var after := times + if Admit(st, key, policy, ts).1.allowed then [ts] else [];
      if key in st.windows {
        CallTracks(st.windows[key], times, policy, ts, after);
      } else {
        FirstCallTracks(policy, ts, after);
      }
    }
  }

  lemma StepTracks(st: State, key: Key, times: seq<real>, policy: Policy, now: real, op: Op)
    requires KeyTracked(st, key, times, policy, now) && policy.span > 0.0 && policy.limit >= 0
    requires op.ts >= now && (op.AcquireOp? && op.key == key ==> op.policy == policy)
    ensures var (t, d) := Step(false, st, op);
            var more := if op.AcquireOp? && op.key == key && d.allowed then [op.ts] else [];
            KeyTracked(t, key, times + more, policy, op.ts)
  {
    if op.AcquireOp? && op.key == key {
      AcquireTracks(st, key, times, policy, now, op.ts);
    } else {
      assert times + [] == times;
    }
  }

  /** With a zero limit a denied call may still move the window's start. */
  lemma EmptyWindowTracks(w: Window, times: seq<real>, policy: Policy, ts: real)
    requires Tracks(w, times, policy) && policy.span > 0.0 && policy.limit == 0
    requires ts >= w.start + policy.span
    ensures Tracks(Window(ts, 0, policy.span), times, policy)
  {
    CountOutside(times, ts, ts + policy.span);
    LateCount(w, times, policy, ts - policy.span, ts);
  }

  predicate OnePolicy(key: Key, policy: Policy, ops: seq<Op>) {
    forall i :: 0 <= i < |ops| && ops[i].AcquireOp? && ops[i].key == key ==> ops[i].policy == policy
  }

  lemma {:induction false} RunTracks(span: Key -> real, st: State, key: Key, times: seq<real>, policy: Policy,
                                     now: real, ops: seq<Op>)
    requires KeyTracked(st, key, times, policy, now) && policy.span > 0.0 && policy.limit >= 0
    requires Steady(span, now, ops) && OnePolicy(key, policy, ops)
    ensures KeyTracked(After(false, st, ops), key, times + AllowedTimes(key, ops, Decisions(false, st, ops)), policy,
                       EndTime(now, ops))
    decreases |ops|
  {
    if ops == [] {
      assert times + [] == times;
    } else {
      StepTracks(st, key, times, policy, now, ops[0]);
      var (t, d) := Step(false, st, ops[0]);
      var more := if ops[0].AcquireOp? && ops[0].key == key && d.allowed then [ops[0].ts] else [];
      assert forall i :: 0 <= i < |ops[1..]| ==> ops[1..][i] == ops[i + 1];
      RunTracks(span, t, key, times + more, policy, ops[0].ts, ops[1..]);
      var ds := Decisions(false, st, ops);
      assert ds[1..] == Decisions(false, t, ops[1..]);
      var rest := AllowedTimes(key, ops[1..], ds[1..]);
      assert (times + more) + rest == times + (more + rest);
    }
  }

  lemma UnprunedTracks(span: Key -> real, now: real, ops: seq<Op>, key: Key, policy: Policy)
    requires Steady(span, now, ops) && OnePolicy(key, policy, ops)
    requires policy.span > 0.0 && policy.limit >= 0
    ensures KeyTracked(After(false, Empty, ops), key, AllowedTimes(key, ops, Decisions(false, Empty, ops)), policy,
                       EndTime(now, ops))
  {
    RunTracks(span, Empty, key, [], policy, now, ops);
    var times := AllowedTimes(key, ops, Decisions(false, Empty, ops));
    assert [] + times == times;
  }

  lemma TrackedRate(st: State, key: Key, times: seq<real>, policy: Policy, now: real, a: real)
    requires KeyTracked(st, key, times, policy, now) && policy.limit >= 0
    ensures Count(times, a, a + policy.span) <= 2 * policy.limit
  {
    if key in st.windows {
      assert RateAt(times, policy, a);
    }
  }

  /** Over a whole run of the real, pruning store, no half-open interval of one
      window length holds more than twice the limit of allowed calls. */
  lemma RateBound(span: Key -> real, now: real, ops: seq<Op>, key: Key, policy: Policy, a: real)
    requires Steady(span, now, ops) && OnePolicy(key, policy, ops)
    requires policy.span > 0.0 && policy.limit >= 0
    ensures Count(AllowedTimes(key, ops, Decisions(true, Empty, ops)), a, a + policy.span) <= 2 * policy.limit
  {
    PruningIsUnobservable(span, now, ops);
    UnprunedTracks(span, now, ops, key, policy);
    var times := AllowedTimes(key, ops, Decisions(false, Empty, ops));
    TrackedRate(After(false, Empty, ops), key, times, policy, EndTime(now, ops), a);
  }

  lemma SameWindowUnpruned(span: Key -> real, now: real, ops: seq<Op>, key: Key)
    requires Steady(span, now, ops) && key in After(true, Empty, ops).windows
    ensures Decisions(true, Empty, ops) == Decisions(false, Empty, ops)
    ensures key in After(false, Empty, ops).windows
            && After(true, Empty, ops).windows[key] == After(false, Empty, ops).windows[key]
  {
    PruningIsUnobservable(span, now, ops);
  }

  lemma TrackedWindow(st: State, key: Key, times: seq<real>, policy: Policy, now: real)
    requires KeyTracked(st, key, times, policy, now) && key in st.windows
    ensures var w := st.windows[key];
            w.count == Count(times, w.start, w.start + policy.span) <= policy.limit
  {
  }

  /** The window a key is in has admitted exactly the calls allowed since it
      opened, at most `limit` of them. */
  lemma WindowBound(span: Key -> real, now: real, ops: seq<Op>, key: Key, policy: Policy)
    requires Steady(span, now, ops) && OnePolicy(key, policy, ops)
    requires policy.span > 0.0 && policy.limit >= 0
    requires key in After(true, Empty, ops).windows
    ensures var w := After(true, Empty, ops).windows[key];
            var times := AllowedTimes(key, ops, Decisions(true, Empty, ops));
            w.count == Count(times, w.start, w.start + policy.span) <= policy.limit
  {
    SameWindowUnpruned(span, now, ops, key);
    UnprunedTracks(span, now, ops, key, policy);
    var times := AllowedTimes(key, ops, Decisions(false, Empty, ops));
    TrackedWindow(After(false, Empty, ops), key, times, policy, EndTime(now, ops));
  }

  lemma {:induction false} AfterSnoc(prune: bool, st: State, ops: seq<Op>, op: Op)
    ensures After(prune, st, ops + [op]) == Step(prune, After(prune, st, ops), op).0
    ensures Decisions(prune, st, ops + [op]) == Decisions(prune, st, ops) + [Step(prune, After(prune, st, ops), op).1]
    decreases |ops|
  {
    if ops == [] {
      assert [op][1..] == [];
      assert ops + [op] == [op];
    } else {
      assert (ops + [op])[1..] == ops[1..] + [op];
      AfterSnoc(prune, Step(prune, st, ops[0]).0, ops[1..], op);
    }
  }

  lemma {:induction false} SteadySnoc(span: Key -> real, now: real, ops: seq<Op>, op: Op)
    requires Steady(span, now, ops) && EndTime(now, ops) <= op.ts
    requires op.AcquireOp? ==> op.policy.span == span(op.key) && span(op.key) > 0.0
    ensures Steady(span, now, ops + [op]) && EndTime(now, ops + [op]) == op.ts
    decreases |ops|
  {
    if ops == [] {
      assert [op][1..] == [] && ops + [op] == [op];
    } else {
      assert (ops + [op])[1..] == ops[1..] + [op];
      SteadySnoc(span, ops[0].ts, ops[1..], op);
    }
  }

  lemma {:induction false} AllowedTimesSnoc(key: Key, ops: seq<Op>, ds: seq<Decision>, op: Op, d: Decision)
    requires |ops| == |ds|
    ensures AllowedTimes(key, ops + [op], ds + [d])
            == AllowedTimes(key, ops, ds) + if op.AcquireOp? && op.key == key && d.allowed then [op.ts] else []
    decreases |ops|
  {
    if ops == [] {
      assert [op][1..] == [] && [d][1..] == [] && ops + [op] == [op] && ds + [d] == [d];
    } else {
      assert (ops + [op])[1..] == ops[1..] + [op] && (ds + [d])[1..] == ds[1..] + [d];
      AllowedTimesSnoc(key, ops[1..], ds[1..], op, d);
    }
  }

  /** An allowed acquire leaves its window in the table, and tells what is left of it. */
  lemma AllowedAcquire(st: State, key: Key, policy: Policy, ts: real)
    requires policy.span > 0.0 && Acquire(st, key, policy, ts).1.allowed
    ensures var (t, d) := Acquire(st, key, policy, ts);
            key in t.windows && d.cooldownUntil == None && d.tokensRemaining == policy.limit - t.windows[key].count
  {
    var (admitted, d) := Admit(st, key, policy, ts);
    AdmittedWindow(st, key, policy, ts);
    assert !IsStale(admitted.windows[key], ts);
  }

  lemma {:induction false} LastDecision(ops: seq<Op>, key: Key, policy: Policy, t: State, d: Decision)
    requires ops != [] && t == After(true, Empty, ops) && d == Decisions(true, Empty, ops)[|ops| - 1]
    requires var op := ops[|ops| - 1]; op.AcquireOp? && op.key == key && op.policy == policy
    requires policy.span > 0.0 && d.allowed
    ensures key in t.windows && d.tokensRemaining == policy.limit - t.windows[key].count
  {
    var init, op := ops[..|ops| - 1], ops[|ops| - 1];
    assert ops == init + [op];
    AfterSnoc(true, Empty, init, op);
    AllowedAcquire(After(true, Empty, init), key, policy, op.ts);
  }

  /** After an allowed acquire the tokens it reports and the calls allowed in the
      current window so far, itself included, add up to the limit. */
  lemma {:induction false} TokensAddUp(span: Key -> real, now: real, ops: seq<Op>, key: Key, policy: Policy, t: State,
                                       ds: seq<Decision>)
    requires Steady(span, now, ops) && OnePolicy(key, policy, ops) && policy.span > 0.0 && policy.limit >= 0
    requires t == After(true, Empty, ops) && ds == Decisions(true, Empty, ops)
    requires ops != [] && ops[|ops| - 1].AcquireOp? && ops[|ops| - 1].key == key && ds[|ops| - 1].allowed
    ensures key in t.windows
    ensures var start := t.windows[key].start;
            ds[|ops| - 1].tokensRemaining + Count(AllowedTimes(key, ops, ds), start, start + policy.span)
            == policy.limit
  {
    LastDecision(ops, key, policy, t, ds[|ops| - 1]);
    WindowBound(span, now, ops, key, policy);
  }
}
