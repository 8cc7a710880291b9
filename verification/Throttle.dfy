/** Provider-throttle classification: a bounded search over the graph that
    `__cause__` and `__context__` span, which may be cyclic. */
module Throttle {
  import opened Options

  const THROTTLED_CLASS_NAMES := {"RateLimitError", "ThrottlingException", "TooManyRequestsException"}
  const THROTTLED_CODES := {"ThrottlingException", "Throttling", "TooManyRequestsException"}
  const TRANSIENT_ONLY_CODES := {"ServiceQuotaExceededException"}
  const MAX_CAUSE_DEPTH := 8

  /** An exception object; other exceptions are named by their identity. */
  datatype ErrorNode = ErrorNode(
    className: string,
    errorCode: Option<string>,
    statusCode: Option<int>,
    message: string,
    cause: Option<nat>,
    context: Option<nat>)

  type Graph = map<nat, ErrorNode>

  datatype Classification = Classification(throttled: bool, transient: bool)

  /** The message regex, or nothing when matching messages is switched off. */
  type MessageRegex = Option<string -> bool>

  function ClassifySingle(e: ErrorNode, regex: MessageRegex): (c: Classification)
    ensures c.throttled ==> c.transient
    ensures c.throttled <==>
              || e.className in {"RateLimitError", "ThrottlingException", "TooManyRequestsException"}
              || (e.errorCode.Some?
                  && e.errorCode.value in {"ThrottlingException", "Throttling", "TooManyRequestsException"})
              || e.statusCode == Some(429)
              || (regex.Some? && regex.value(e.message))
    ensures c.transient <==>
              c.throttled || e.statusCode == Some(503) || e.errorCode == Some("ServiceQuotaExceededException")
  {
    var named := e.className in THROTTLED_CLASS_NAMES
                 || (e.errorCode.Some? && e.errorCode.value in THROTTLED_CODES)
                 || e.statusCode == Some(429);
    var transientOnly := (e.errorCode.Some? && e.errorCode.value in TRANSIENT_ONLY_CODES) || e.statusCode == Some(503);
    var throttled := named || (regex.Some? && regex.value(e.message));
    Classification(throttled, throttled || transientOnly)
  }

  // ---- Reachability ----

  function Next(e: ErrorNode): set<nat> {
    (if e.cause.Some? then {e.cause.value} else {}) + (if e.context.Some? then {e.context.value} else {})
  }

  predicate WellFormed(g: Graph) {
    forall x :: x in g ==> Next(g[x]) <= g.Keys
  }

  predicate EdgeAt(g: Graph, p: seq<nat>, i: nat)
    requires i + 1 < |p|
  {
    p[i] in g && p[i + 1] in Next(g[p[i]])
  }

  predicate IsPath(g: Graph, p: seq<nat>) {
    |p| > 0 && p[0] in g && forall i {:trigger EdgeAt(g, p, i)} :: 0 <= i < |p| - 1 ==> EdgeAt(g, p, i)
  }

  ghost predicate Reachable(g: Graph, from: nat, to: nat) {
    exists p :: IsPath(g, p) && p[0] == from && p[|p| - 1] == to
  }

  ghost function ReachableSet(g: Graph, from: nat): set<nat> {
    set x | x in g && Reachable(g, from, x)
  }

  lemma ReachableStep(g: Graph, from: nat, x: nat, y: nat)
    requires WellFormed(g) && x in g && Reachable(g, from, x) && y in Next(g[x])
    ensures y in g && Reachable(g, from, y)
  {
    var p :| IsPath(g, p) && p[0] == from && p[|p| - 1] == x;
    var q := p + [y];
    forall i | 0 <= i < |q| - 1 ensures EdgeAt(g, q, i) {
      assert i < |p| - 1 ==> EdgeAt(g, p, i);
    }
    assert IsPath(g, q) && q[|q| - 1] == y;
  }

  /** A closed set that contains a node contains everything reachable from it. */
  lemma {:induction false} PathStaysInClosed(g: Graph, s: set<nat>, p: seq<nat>)
    requires IsPath(g, p) && p[0] in s
    requires forall x :: x in s && x in g ==> Next(g[x]) <= s
    ensures p[|p| - 1] in s
  {
    if |p| > 1 {
      var q := p[..|p| - 1];
      forall i | 0 <= i < |q| - 1 ensures EdgeAt(g, q, i) {
        assert EdgeAt(g, p, i);
      }
      PathStaysInClosed(g, s, q);
      assert EdgeAt(g, p, |p| - 2);
    }
  }

  lemma ClosedContainsReachable(g: Graph, s: set<nat>, from: nat)
    requires from in s && forall x :: x in s && x in g ==> Next(g[x]) <= s
    ensures ReachableSet(g, from) <= s
  {
    forall x | x in ReachableSet(g, from) ensures x in s {
      var p :| IsPath(g, p) && p[0] == from && p[|p| - 1] == x;
      PathStaysInClosed(g, s, p);
    }
  }

  lemma SubsetOfSameSize(a: set<nat>, b: set<nat>)
    requires a <= b && |a| >= |b|
    ensures a == b
  {
    assert b == a + (b - a);
  }

  ghost predicate AnyThrottled(g: Graph, s: set<nat>, regex: MessageRegex) {
    exists x :: x in s && x in g && ClassifySingle(g[x], regex).throttled
  }

  ghost predicate AnyTransient(g: Graph, s: set<nat>, regex: MessageRegex) {
    exists x :: x in s && x in g && ClassifySingle(g[x], regex).transient
  }

  lemma AnyOneMore(g: Graph, s: set<nat>, x: nat, regex: MessageRegex)
    requires x in g
    ensures AnyThrottled(g, s + {x}, regex) <==> AnyThrottled(g, s, regex) || ClassifySingle(g[x], regex).throttled
    ensures AnyTransient(g, s + {x}, regex) <==> AnyTransient(g, s, regex) || ClassifySingle(g[x], regex).transient
  {
  }

  function Push(stack: seq<nat>, e: ErrorNode): (pushed: seq<nat>)
    ensures forall x :: x in pushed <==> x in stack || x in Next(e)
  {
    var withCause := if e.cause.Some? then stack + [e.cause.value] else stack;
    if e.context.Some? then withCause + [e.context.value] else withCause
  }

  // ---- The order of the search ----

  function Elements(s: seq<nat>): set<nat> {
    set i | 0 <= i < |s| :: s[i]
  }

  /** The errors met by walking from `x`, each once, after those already met:
      an error, then all behind its context, then all behind its cause. */
  function Walk(g: Graph, x: nat, met: seq<nat>): (all: seq<nat>)
    ensures met <= all
    decreases g.Keys - Elements(met)
  {
    if x in met || x !in g then met
    else
      var here := met + [x];
      WalkShrinks(g, x, met, here);
      var contexts := if g[x].context.Some? then Walk(g, g[x].context.value, here) else here;
      WalkShrinks(g, x, met, contexts);
      if g[x].cause.Some? then Walk(g, g[x].cause.value, contexts) else contexts
  }

  lemma WalkShrinks(g: Graph, x: nat, met: seq<nat>, more: seq<nat>)
    requires x in g && x !in met && met + [x] <= more
    ensures g.Keys - Elements(more) < g.Keys - Elements(met)
  {
    assert more[|met|] == x && x in Elements(more);
    forall y | y in Elements(met) ensures y in Elements(more) {
      var i :| 0 <= i < |met| && met[i] == y;
      assert more[i] == y;
    }
    assert x in g.Keys - Elements(met) && x !in g.Keys - Elements(more);
  }

  /** The walks that wait on a stack, the last one first. */
  function WalkAll(g: Graph, stack: seq<nat>, met: seq<nat>): (all: seq<nat>)
    ensures met <= all
  {
    if stack == [] then met else WalkAll(g, stack[..|stack| - 1], Walk(g, stack[|stack| - 1], met))
  }

  /** Taking an error off the stack and pushing its links is the first step of its walk. */
  lemma WalkStep(g: Graph, stack: seq<nat>, x: nat, met: seq<nat>)
    requires x in g
    ensures x in met ==> WalkAll(g, stack + [x], met) == WalkAll(g, stack, met)
    ensures x !in met ==> WalkAll(g, stack + [x], met) == WalkAll(g, Push(stack, g[x]), met + [x])
  {
    assert (stack + [x])[..|stack|] == stack;
    var here := met + [x];
    var withCause := if g[x].cause.Some? then stack + [g[x].cause.value] else stack;
    if g[x].context.Some? {
      assert (withCause + [g[x].context.value])[..|withCause|] == withCause;
    }
    if g[x].cause.Some? {
      assert withCause[..|stack|] == stack;
    }
  }

  /** Some error among the first eight of the walk is throttled. */
  predicate AnyThrottledIn(g: Graph, walk: seq<nat>, n: nat, regex: MessageRegex) {
    exists i :: 0 <= i < |walk| && i < n && walk[i] in g && ClassifySingle(g[walk[i]], regex).throttled
  }

  predicate AnyTransientIn(g: Graph, walk: seq<nat>, n: nat, regex: MessageRegex) {
    exists i :: 0 <= i < |walk| && i < n && walk[i] in g && ClassifySingle(g[walk[i]], regex).transient
  }

  lemma ElementIn(s: seq<nat>, x: nat)
    ensures x in Elements(s) <==> x in s
  {
  }

  lemma OneMoreElement(s: seq<nat>, x: nat)
    ensures Elements(s + [x]) == Elements(s) + {x}
  {
    forall y ensures y in Elements(s + [x]) <==> y in Elements(s) + {x} {
      ElementIn(s + [x], y);
      ElementIn(s, y);
    }
  }

  /** What was met, and the walks that wait on the stack, make up the whole walk. */
  predicate Walking(g: Graph, walk: seq<nat>, stack: seq<nat>, met: seq<nat>, seen: set<nat>) {
    seen == Elements(met) && |seen| == |met| && WalkAll(g, stack, met) == walk
  }

  lemma WalkStarts(g: Graph, x: nat)
    ensures Walking(g, Walk(g, x, []), [x], [], {})
  {
    assert [x][..0] == [];
  }

  lemma WalkingSkips(g: Graph, walk: seq<nat>, stack: seq<nat>, met: seq<nat>, seen: set<nat>)
    requires Walking(g, walk, stack, met, seen) && stack != []
    requires var x := stack[|stack| - 1]; x in g && x in seen
    ensures Walking(g, walk, stack[..|stack| - 1], met, seen)
  {
    var init, x := stack[..|stack| - 1], stack[|stack| - 1];
    assert stack == init + [x];
    ElementIn(met, x);
    WalkStep(g, init, x, met);
  }

  lemma WalkingVisits(g: Graph, walk: seq<nat>, stack: seq<nat>, met: seq<nat>, seen: set<nat>)
    requires Walking(g, walk, stack, met, seen) && stack != []
    requires var x := stack[|stack| - 1]; x in g && x !in seen
    ensures var x := stack[|stack| - 1];
            Walking(g, walk, Push(stack[..|stack| - 1], g[x]), met + [x], seen + {x})
  {
    var init, x := stack[..|stack| - 1], stack[|stack| - 1];
    assert stack == init + [x];
    ElementIn(met, x);
    OneMoreElement(met, x);
    WalkStep(g, init, x, met);
  }

  /** What was met is the first eight errors of the walk, or up to the first that is throttled. */
  lemma WalkConcludes(g: Graph, walk: seq<nat>, stack: seq<nat>, met: seq<nat>, seen: set<nat>, c: Classification,
                      regex: MessageRegex)
    requires Walking(g, walk, stack, met, seen) && |seen| <= 8 && (c.throttled || stack == [] || |seen| == 8)
    requires c.throttled <==> AnyThrottled(g, seen, regex)
    requires c.transient <==> AnyTransient(g, seen, regex)
    ensures c.throttled <==> AnyThrottledIn(g, walk, 8, regex)
    ensures c.transient <==> AnyTransientIn(g, walk, 8, regex)
  {
    assert met <= walk && (stack == [] ==> met == walk);
    if c.throttled {
      ThrottledIsTransient(g, Elements(met), regex);
      var x :| x in Elements(met) && x in g && ClassifySingle(g[x], regex).throttled;
      var i :| 0 <= i < |met| && met[i] == x;
      assert walk[i] == x && ClassifySingle(g[x], regex).transient;
    } else {
      assert forall i :: 0 <= i < |walk| && i < 8 ==> walk[i] in Elements(met) by {
        assert forall i :: 0 <= i < |walk| && i < 8 ==> met[i] == walk[i];
      }
      if c.transient {
        var x :| x in Elements(met) && x in g && ClassifySingle(g[x], regex).transient;
        var i :| 0 <= i < |met| && met[i] == x;
        assert walk[i] == x;
      }
    }
  }

  /** The search has seen reachable errors only, and what it has not yet seen of
      their links waits on the stack. */
  ghost predicate Searching(g: Graph, err: nat, seen: set<nat>, stack: seq<nat>) {
    && seen <= ReachableSet(g, err) && (forall x :: x in stack ==> x in ReachableSet(g, err))
    && (err in seen || err in stack)
    && LinksWait(g, seen, stack)
  }

  /** Every link of an error that was seen was followed or waits on the stack. */
  predicate LinksWait(g: Graph, seen: set<nat>, stack: seq<nat>) {
    forall x, y :: x in seen && x in g && y in Next(g[x]) ==> y in seen || y in stack
  }

  lemma SearchStarts(g: Graph, err: nat)
    requires err in g
    ensures Searching(g, err, {}, [err])
  {
    assert IsPath(g, [err]) && [err][0] == err;
  }

  lemma SearchSkips(g: Graph, err: nat, seen: set<nat>, stack: seq<nat>)
    requires Searching(g, err, seen, stack) && stack != [] && stack[|stack| - 1] in seen
    ensures Searching(g, err, seen, stack[..|stack| - 1])
  {
    assert forall x :: x in stack ==> x == stack[|stack| - 1] || x in stack[..|stack| - 1];
  }

  lemma PoppedFromStack(stack: seq<nat>)
    requires stack != []
    ensures forall y :: y in stack <==> y == stack[|stack| - 1] || y in stack[..|stack| - 1]
  {
    assert stack == stack[..|stack| - 1] + [stack[|stack| - 1]];
  }

  lemma PushedLinksWait(g: Graph, seen: set<nat>, stack: seq<nat>)
    requires LinksWait(g, seen, stack) && stack != [] && stack[|stack| - 1] in g
    ensures LinksWait(g, seen + {stack[|stack| - 1]}, Push(stack[..|stack| - 1], g[stack[|stack| - 1]]))
  {
    PoppedFromStack(stack);
  }

  lemma SearchVisits(g: Graph, err: nat, seen: set<nat>, stack: seq<nat>)
    requires WellFormed(g) && Searching(g, err, seen, stack) && stack != []
    ensures var x := stack[|stack| - 1];
            x in g && Searching(g, err, seen + {x}, Push(stack[..|stack| - 1], g[x]))
  {
    var x := stack[|stack| - 1];
    assert x in stack;
    PoppedFromStack(stack);
    PushedLinksWait(g, seen, stack);
    forall y | y in Next(g[x]) ensures y in ReachableSet(g, err) {
      ReachableStep(g, err, x, y);
    }
  }

  /** The search terminates on any graph.  It inspects reachable errors only,
      all of them unless a throttle stops it or there are more than eight; so a
      positive answer is always right, and a negative one is right whenever at
      most eight errors are reachable.  The errors inspected are the first eight
      of the walk that goes behind an error's context before its cause. */
  method ClassifyProviderError(g: Graph, err: nat, regex: MessageRegex)
    returns (combined: Classification, ghost inspected: set<nat>)
    requires WellFormed(g) && err in g
    ensures inspected <= ReachableSet(g, err) && |inspected| <= MAX_CAUSE_DEPTH
    ensures combined.throttled <==> AnyThrottled(g, inspected, regex)
    ensures combined.transient <==> AnyTransient(g, inspected, regex)
    ensures !combined.throttled ==> inspected == ReachableSet(g, err) || |inspected| == MAX_CAUSE_DEPTH
    ensures |ReachableSet(g, err)| <= MAX_CAUSE_DEPTH ==>
              (combined.throttled <==> AnyThrottled(g, ReachableSet(g, err), regex))
              && (combined.transient <==> AnyTransient(g, ReachableSet(g, err), regex))
    ensures combined.throttled <==> AnyThrottledIn(g, Walk(g, err, []), 8, regex)
    ensures combined.transient <==> AnyTransientIn(g, Walk(g, err, []), 8, regex)
  {
    ghost var walk, met := Walk(g, err, []), [];
    WalkStarts(g, err);
    var seen: set<nat> := {};
    var stack := [err];
    ghost var pending := stack;   // the stack, but for the links of an error that stops the search
    var visited := 0;
    combined := Classification(false, false);
    SearchStarts(g, err);
    while stack != [] && visited < MAX_CAUSE_DEPTH
      invariant 0 <= visited <= MAX_CAUSE_DEPTH && visited == |seen|
      invariant pending == stack && Searching(g, err, seen, pending)
      invariant combined.throttled <==> AnyThrottled(g, seen, regex)
      invariant combined.transient <==> AnyTransient(g, seen, regex)
      invariant !combined.throttled
      invariant Walking(g, walk, stack, met, seen)
      decreases MAX_CAUSE_DEPTH - visited, |stack|
    {
      var current := stack[|stack| - 1];
      SearchVisits(g, err, seen, stack);
      if current in seen {
        WalkingSkips(g, walk, stack, met, seen);
        SearchSkips(g, err, seen, stack);
        stack := stack[..|stack| - 1];
        pending := stack;
        continue;
      }
      AnyOneMore(g, seen, current, regex);
      WalkingVisits(g, walk, stack, met, seen);
      met := met + [current];
      stack := stack[..|stack| - 1];
      pending := Push(stack, g[current]);
      seen := seen + {current};
      visited := visited + 1;
      var single := ClassifySingle(g[current], regex);
      combined := Classification(combined.throttled || single.throttled, combined.transient || single.transient);
      if combined.throttled {
        break;
      }
      stack := Push(stack, g[current]);
    }
    inspected := seen;
    WalkConcludes(g, walk, pending, met, seen, combined, regex);
    Concludes(g, err, seen, pending, combined, regex);
  }

  lemma Concludes(g: Graph, err: nat, seen: set<nat>, stack: seq<nat>, c: Classification, regex: MessageRegex)
    requires Searching(g, err, seen, stack)
    requires c.throttled <==> AnyThrottled(g, seen, regex)
    requires c.transient <==> AnyTransient(g, seen, regex)
    requires c.throttled || stack == [] || |seen| == MAX_CAUSE_DEPTH
    ensures !c.throttled ==> seen == ReachableSet(g, err) || |seen| == MAX_CAUSE_DEPTH
    ensures |ReachableSet(g, err)| <= MAX_CAUSE_DEPTH ==>
              (c.throttled <==> AnyThrottled(g, ReachableSet(g, err), regex))
              && (c.transient <==> AnyTransient(g, ReachableSet(g, err), regex))
  {
    if c.throttled {
      ThrottledIsTransient(g, ReachableSet(g, err), regex);
    } else if stack == [] || |ReachableSet(g, err)| <= MAX_CAUSE_DEPTH {
      SeenIsReachable(g, err, seen, stack);
    }
  }

  lemma SeenIsReachable(g: Graph, err: nat, seen: set<nat>, stack: seq<nat>)
    requires Searching(g, err, seen, stack)
    requires stack == [] || |seen| >= |ReachableSet(g, err)|
    ensures seen == ReachableSet(g, err)
  {
    if stack == [] {
      ClosedContainsReachable(g, seen, err);
    } else {
      SubsetOfSameSize(seen, ReachableSet(g, err));
    }
  }

  lemma ThrottledIsTransient(g: Graph, s: set<nat>, regex: MessageRegex)
    requires AnyThrottled(g, s, regex)
    ensures AnyTransient(g, s, regex)
  {
    var x :| x in s && x in g && ClassifySingle(g[x], regex).throttled;
    assert ClassifySingle(g[x], regex).transient;
  }
}
