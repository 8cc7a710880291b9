/** The LRU cache with a time-to-live in front of a pure guardrail: what it
    returns, and exactly which keys it holds in which order. */
module Cache {
  import opened Options
  import opened Sequences

  datatype Effect = ALLOW | DENY

  /** The part of a request that the cache key covers; the request id is not. */
  datatype Query = Query(agent: string, action: string, resource: string, context: string)

  datatype EvalResult = EvalResult(
    effect: Effect,
    guardrailName: string,
    reason: Option<string>,
    policyId: Option<string>,
    lakefsSha: Option<string>,
    evalTimeMs: real,
    metadata: map<string, string>)

  /** A guardrail that answers a query the same way every time, except for the time it takes. */
  type Evaluator = Query -> EvalResult

  type KeyOf = Query -> string

  datatype Entry = Entry(result: EvalResult, insertedAt: real)

  /** The copy that a hit returns. */
  function Hit(r: EvalResult): EvalResult {
    r.(evalTimeMs := 0.0, metadata := r.metadata["cache_hit" := "True"])
  }

  // ---- The ordered dictionary ----

  datatype OrderedDict = OrderedDict(order: seq<string>, entries: map<string, Entry>)

  const Empty := OrderedDict([], map[])

  function Without(keys: seq<string>, k: string): (rest: seq<string>)
    ensures forall x :: x in rest <==> x in keys && x != k
  {
    if keys == [] then []
    else
      assert forall x :: x in keys <==> x in keys[..|keys| - 1] || x == keys[|keys| - 1];
      Without(keys[..|keys| - 1], k) + if keys[|keys| - 1] == k then [] else [keys[|keys| - 1]]
  }

  /** Keeps the last `n` keys: `popitem(last=False)` until the bound holds. */
  function LastN(keys: seq<string>, n: nat): seq<string> {
    if |keys| <= n then keys else keys[|keys| - n..]
  }

  ghost predicate Consistent(d: OrderedDict) {
    && (forall k :: k in d.order <==> k in d.entries)
    && NoRepeats(d.order)
  }

  // ---- Recency ----

  /** The distinct keys of a trace, least recently used first. */
  function Recency(trace: seq<string>): seq<string> {
    if trace == [] then []
    else Without(Recency(trace[..|trace| - 1]), trace[|trace| - 1]) + [trace[|trace| - 1]]
  }

  /** The position of a key's last use, or -1. */
  function LastUse(trace: seq<string>, k: string): (i: int)
    ensures -1 <= i < |trace|
    ensures i >= 0 ==> trace[i] == k
    ensures i < 0 <==> k !in trace
  {
    if trace == [] then -1
    else if trace[|trace| - 1] == k then |trace| - 1
    else
      assert forall x :: x in trace <==> x in trace[..|trace| - 1] || x == trace[|trace| - 1];
      LastUse(trace[..|trace| - 1], k)
  }

  /** The keys' last uses, in order. */
  predicate ByLastUse(trace: seq<string>, keys: seq<string>) {
    forall i, j :: 0 <= i < j < |keys| ==> LastUse(trace, keys[i]) < LastUse(trace, keys[j])
  }

  lemma ByLastUseSnoc(trace: seq<string>, keys: seq<string>, k: string)
    requires ByLastUse(trace, keys) && forall x :: x in keys ==> LastUse(trace, x) < LastUse(trace, k)
    ensures ByLastUse(trace, keys + [k])
  {
    var all := keys + [k];
    forall i, j | 0 <= i < j < |all| ensures LastUse(trace, all[i]) < LastUse(trace, all[j]) {
      assert keys[i] in keys;
    }
  }

  lemma {:induction false} WithoutKeepsOrder(trace: seq<string>, keys: seq<string>, k: string)
    requires ByLastUse(trace, keys)
    ensures ByLastUse(trace, Without(keys, k))
  {
    if keys != [] {
      var init, last := keys[..|keys| - 1], keys[|keys| - 1];
      assert forall i :: 0 <= i < |init| ==> init[i] == keys[i];
      WithoutKeepsOrder(trace, init, k);
      if last != k {
        forall x | x in Without(init, k) ensures LastUse(trace, x) < LastUse(trace, last) {
          var m :| 0 <= m < |init| && init[m] == x;
          assert keys[m] == x;
        }
        ByLastUseSnoc(trace, Without(init, k), last);
      }
    }
  }

  lemma LastUseSnoc(trace: seq<string>, last: string, k: string)
    ensures LastUse(trace + [last], k) == if k == last then |trace| else LastUse(trace, k)
  {
    assert (trace + [last])[..|trace|] == trace;
  }

  lemma {:induction false} RecencyMembers(trace: seq<string>)
    ensures forall k :: k in Recency(trace) <==> k in trace
  {
    if trace != [] {
      RecencyMembers(trace[..|trace| - 1]);
      assert forall x :: x in trace <==> x in trace[..|trace| - 1] || x == trace[|trace| - 1];
    }
  }

  /** One more use moves its key behind all others. */
  lemma UseMovesToEnd(trace: seq<string>, last: string, keys: seq<string>)
    requires ByLastUse(trace, keys) && last !in keys
    ensures ByLastUse(trace + [last], keys + [last])
  {
    var t := trace + [last];
    LastUseSnoc(trace, last, last);
    forall x | x in keys ensures LastUse(t, x) == LastUse(trace, x) < LastUse(t, last) {
      LastUseSnoc(trace, last, x);
    }
    forall i, j | 0 <= i < j < |keys| ensures LastUse(t, keys[i]) < LastUse(t, keys[j]) {
      assert keys[i] in keys && keys[j] in keys;
    }
    ByLastUseSnoc(t, keys, last);
  }

  lemma RecencyStep(trace: seq<string>, last: string, keys: seq<string>)
    requires ByLastUse(trace, keys)
    ensures ByLastUse(trace + [last], Without(keys, last) + [last])
  {
    WithoutKeepsOrder(trace, keys, last);
    UseMovesToEnd(trace, last, Without(keys, last));
  }

  /** Recency is what its name says: every key used, in the order of last use. */
  lemma {:induction false} RecencyIsByLastUse(trace: seq<string>)
    ensures ByLastUse(trace, Recency(trace))
    ensures forall k :: k in Recency(trace) <==> k in trace
  {
    RecencyMembers(trace);
    if trace != [] {
      var init, last := trace[..|trace| - 1], trace[|trace| - 1];
      RecencyIsByLastUse(init);
      RecencyStep(init, last, Recency(init));
      assert trace == init + [last];
    }
  }

  lemma RecencyHasNoRepeats(trace: seq<string>)
    ensures NoRepeats(Recency(trace))
  {
    RecencyIsByLastUse(trace);
    var r := Recency(trace);
    assert forall i, j :: 0 <= i < j < |r| ==> LastUse(trace, r[i]) < LastUse(trace, r[j]);
  }

  lemma {:induction false} WithoutAbsent(keys: seq<string>, k: string)
    requires k !in keys
    ensures Without(keys, k) == keys
  {
    if keys != [] {
      var init, last := keys[..|keys| - 1], keys[|keys| - 1];
      assert keys == init + [last];
      assert k !in init && k != last;
      WithoutAbsent(init, k);
    }
  }

  lemma {:induction false} WithoutConcat(a: seq<string>, b: seq<string>, k: string)
    ensures Without(a + b, k) == Without(a, k) + Without(b, k)
  {
    if b == [] {
      assert a + b == a;
    } else {
      var init, last := b[..|b| - 1], b[|b| - 1];
      WithoutConcat(a, init, k);
      assert (a + b)[..|a + b| - 1] == a + init;
    }
  }

  lemma {:induction false} WithoutLength(keys: seq<string>, k: string)
    requires NoRepeats(keys)
    ensures |Without(keys, k)| == if k in keys then |keys| - 1 else |keys|
  {
    if k !in keys {
      WithoutAbsent(keys, k);
    } else {
      var init, last := keys[..|keys| - 1], keys[|keys| - 1];
      assert forall x :: x in keys <==> x in init || x == last;
      if last == k {
        assert k !in init by {
          assert forall i :: 0 <= i < |init| ==> keys[i] != keys[|keys| - 1];
        }
        WithoutAbsent(init, k);
      } else {
        WithoutLength(init, k);
      }
    }
  }

  lemma LastNOfLonger(x: seq<string>, a: seq<string>, n: nat)
    requires |a| >= n
    ensures LastN(x + a, n) == LastN(a, n)
  {
  }

  /** Moving a key to the end commutes with keeping the last `n` keys, whether or
      not the key was among them. */
  lemma {:induction false} UseKeepsLastN(keys: seq<string>, n: nat, k: string)
    requires NoRepeats(keys)
    ensures LastN(Without(LastN(keys, n), k) + [k], n) == LastN(Without(keys, k) + [k], n)
  {
    if |keys| > n {
      var gone, kept := keys[..|keys| - n], LastN(keys, n);
      assert keys == gone + kept;
      WithoutConcat(gone, kept, k);
      assert NoRepeats(kept);
      WithoutLength(kept, k);
      assert Without(keys, k) + [k] == Without(gone, k) + (Without(kept, k) + [k]);
      LastNOfLonger(Without(gone, k), Without(kept, k) + [k], n);
    }
  }

  // ---- One evaluation ----

  datatype Evaluated = Evaluated(result: EvalResult, dict: OrderedDict)

  /** `evaluate`, with the clock as read for the check and for the insertion. */
  function Evaluate(eval: Evaluator, keyOf: KeyOf, ttl: real, maxEntries: nat, d: OrderedDict, q: Query,
                    checkedAt: real, insertedAt: real): Evaluated
  {
    var k := keyOf(q);
    if k in d.entries && checkedAt - d.entries[k].insertedAt <= ttl then
      Evaluated(Hit(d.entries[k].result), d.(order := Without(d.order, k) + [k]))
    else
      var order := Without(d.order, k) + [k];
      var entries := d.entries[k := Entry(eval(q), insertedAt)];
      var kept := LastN(order, maxEntries);
      Evaluated(eval(q), OrderedDict(kept, Restrict(entries, kept)))
  }

  class CacheWrapper {
    const eval: Evaluator
    const keyOf: KeyOf
    const ttl: real
    const maxEntries: nat
    var order: seq<string>
    var entries: map<string, Entry>

    function Abs(): OrderedDict
      reads this
    {
      OrderedDict(order, entries)
    }

    constructor (eval: Evaluator, keyOf: KeyOf, ttl: real, maxEntries: nat)
      ensures this.eval == eval && this.keyOf == keyOf && this.ttl == ttl && this.maxEntries == maxEntries
      ensures Abs() == Empty
    {
      this.eval, this.keyOf, this.ttl, this.maxEntries := eval, keyOf, ttl, maxEntries;
      order, entries := [], map[];
    }

    method Answer(q: Query, checkedAt: real, insertedAt: real) returns (result: EvalResult)
      requires Consistent(Abs())
      modifies this
      ensures Evaluated(result, Abs()) == Evaluate(eval, keyOf, ttl, maxEntries, old(Abs()), q, checkedAt, insertedAt)
      ensures Consistent(Abs())
    {
      EvaluateIsConsistent(eval, keyOf, ttl, maxEntries, Abs(), q, checkedAt, insertedAt);
      var key := keyOf(q);
      if key in entries {
        var entry := entries[key];
        if checkedAt - entry.insertedAt <= ttl {
          order := Without(order, key) + [key];
          return Hit(entry.result);
        }
        order, entries := Without(order, key), entries - {key};
      }
      DeletedIsConsistent(old(Abs()), key);
      assert Abs() == Deleted(old(Abs()), key);
      result := eval(q);
      Insert(key, Entry(result, insertedAt));
      PutAfterDelete(old(entries), key, Entry(result, insertedAt));
    }

    /** Adds an entry under a new key and evicts what no longer fits. */
    method Insert(key: string, entry: Entry)
      requires Consistent(Abs()) && key !in entries
      modifies this
      ensures order == LastN(old(order) + [key], maxEntries)
      ensures entries == Restrict(old(entries)[key := entry], order)
    {
      order, entries := order + [key], entries[key := entry];
      Evict();
    }

    /** Drops the oldest entries while there are too many. */
    method Evict()
      requires Consistent(Abs())
      modifies this
      ensures order == LastN(old(order), maxEntries)
      ensures entries == Restrict(old(entries), order)
    {
      ghost var all := entries;
      assert entries == Restrict(all, order);
      while |order| > maxEntries
        invariant NoRepeats(order)
        invariant LastN(order, maxEntries) == LastN(old(order), maxEntries)
        invariant entries == Restrict(all, order)
      {
        DropOldest(all, order, maxEntries);
        order, entries := order[1..], entries - {order[0]};
      }
    }
  }

  function Deleted(d: OrderedDict, k: string): OrderedDict {
    OrderedDict(Without(d.order, k), d.entries - {k})
  }

  lemma DeletedIsConsistent(d: OrderedDict, k: string)
    requires Consistent(d)
    ensures Consistent(Deleted(d, k)) && k !in Deleted(d, k).entries
    ensures k !in d.entries ==> Deleted(d, k) == d
  {
    WithoutHasNoRepeats(d.order, k);
    if k !in d.entries {
      WithoutAbsent(d.order, k);
      assert d.entries - {k} == d.entries;
    }
  }

  lemma PutAfterDelete(entries: map<string, Entry>, k: string, e: Entry)
    ensures (entries - {k})[k := e] == entries[k := e]
  {
  }

  function Restrict(all: map<string, Entry>, keys: seq<string>): map<string, Entry> {
    map x | x in all && x in keys :: all[x]
  }

  lemma DropOldest(all: map<string, Entry>, keys: seq<string>, n: nat)
    requires NoRepeats(keys) && |keys| > n
    ensures NoRepeats(keys[1..]) && LastN(keys[1..], n) == LastN(keys, n)
    ensures Restrict(all, keys) - {keys[0]} == Restrict(all, keys[1..])
  {
    forall x ensures x in keys[1..] <==> x in keys && x != keys[0] {
      if x in keys && x != keys[0] {
        var i :| 0 <= i < |keys| && keys[i] == x;
        assert keys[1..][i - 1] == x;
      }
    }
  }

  lemma {:induction false} WithoutHasNoRepeats(keys: seq<string>, k: string)
    requires NoRepeats(keys)
    ensures NoRepeats(Without(keys, k))
  {
    if keys != [] {
      var init, last := keys[..|keys| - 1], keys[|keys| - 1];
      assert NoRepeats(init);
      WithoutHasNoRepeats(init, k);
      var rest := Without(init, k);
      forall i | 0 <= i < |rest| ensures rest[i] != last {
        assert rest[i] in rest && rest[i] in init;
        var m :| 0 <= m < |init| && init[m] == rest[i];
        assert keys[m] != keys[|keys| - 1];
      }
    }
  }

  lemma InsertedOnce(keys: seq<string>, k: string)
    requires NoRepeats(keys)
    ensures NoRepeats(Without(keys, k) + [k])
  {
    WithoutHasNoRepeats(keys, k);
    var rest := Without(keys, k);
    forall i | 0 <= i < |rest| ensures rest[i] != k {
      assert rest[i] in rest;
    }
  }

  lemma EvaluateIsConsistent(eval: Evaluator, keyOf: KeyOf, ttl: real, maxEntries: nat, d: OrderedDict, q: Query,
                             checkedAt: real, insertedAt: real)
    requires Consistent(d)
    ensures Consistent(Evaluate(eval, keyOf, ttl, maxEntries, d, q, checkedAt, insertedAt).dict)
  {
    var k := keyOf(q);
    InsertedOnce(d.order, k);
    var order := Without(d.order, k) + [k];
    assert forall x :: x in order <==> x in d.order || x == k;
    assert forall x :: x in LastN(order, maxEntries) ==> x in order;
  }

  // ---- Traces ----

  /** A call, with the clock readings it makes. */
  datatype Call = Call(q: Query, checkedAt: real, insertedAt: real)

  function Run(eval: Evaluator, keyOf: KeyOf, ttl: real, maxEntries: nat, calls: seq<Call>): OrderedDict {
    if calls == [] then Empty
    else
      var c := calls[|calls| - 1];
      Evaluate(eval, keyOf, ttl, maxEntries, Run(eval, keyOf, ttl, maxEntries, calls[..|calls| - 1]),
               c.q, c.checkedAt, c.insertedAt).dict
  }

  function KeyTrace(keyOf: KeyOf, calls: seq<Call>): seq<string> {
    if calls == [] then [] else KeyTrace(keyOf, calls[..|calls| - 1]) + [keyOf(calls[|calls| - 1].q)]
  }

  /** Exact LRU: after any calls the keys held are the most recently used ones,
      as many as fit, in recency order.  Expiry plays no part in it. */
  lemma {:induction false} ExactLru(eval: Evaluator, keyOf: KeyOf, ttl: real, maxEntries: nat, calls: seq<Call>)
    ensures Run(eval, keyOf, ttl, maxEntries, calls).order == LastN(Recency(KeyTrace(keyOf, calls)), maxEntries)
    ensures Consistent(Run(eval, keyOf, ttl, maxEntries, calls))
  {
    if calls != [] {
      var before, c := calls[..|calls| - 1], calls[|calls| - 1];
      ExactLru(eval, keyOf, ttl, maxEntries, before);
      var d, trace, k := Run(eval, keyOf, ttl, maxEntries, before), KeyTrace(keyOf, before), keyOf(c.q);
      EvaluateIsConsistent(eval, keyOf, ttl, maxEntries, d, c.q, c.checkedAt, c.insertedAt);
      RecencyHasNoRepeats(trace);
      UseKeepsLastN(Recency(trace), maxEntries, k);
      assert KeyTrace(keyOf, calls)[..|trace|] == trace;
      HeldFits(d, maxEntries, Recency(trace), k);
    }
  }

  /** Moving a held key to the end never overflows the bound. */
  lemma {:induction false} HeldFits(d: OrderedDict, maxEntries: nat, keys: seq<string>, k: string)
    requires Consistent(d) && d.order == LastN(keys, maxEntries)
    ensures k in d.entries ==> LastN(Without(d.order, k) + [k], maxEntries) == Without(d.order, k) + [k]
  {
    if k in d.entries {
      assert k in d.order && NoRepeats(d.order);
      WithoutLength(d.order, k);
    }
  }

  /** The entry is what the guardrail answered one of the calls, at the time of that call. */
  ghost predicate FromCall(eval: Evaluator, keyOf: KeyOf, calls: seq<Call>, k: string, e: Entry) {
    exists i :: 0 <= i < |calls| && keyOf(calls[i].q) == k && e == Entry(eval(calls[i].q), calls[i].insertedAt)
  }

  /** Nothing is held that no call with that key was answered. */
  lemma {:induction false} EntriesComeFromCalls(eval: Evaluator, keyOf: KeyOf, ttl: real, maxEntries: nat,
                                                calls: seq<Call>, k: string)
    requires k in Run(eval, keyOf, ttl, maxEntries, calls).entries
    ensures FromCall(eval, keyOf, calls, k, Run(eval, keyOf, ttl, maxEntries, calls).entries[k])
  {
    var before, c := calls[..|calls| - 1], calls[|calls| - 1];
    var d, e := Run(eval, keyOf, ttl, maxEntries, before), Run(eval, keyOf, ttl, maxEntries, calls).entries[k];
    if k in d.entries && e == d.entries[k] {
      EntriesComeFromCalls(eval, keyOf, ttl, maxEntries, before, k);
      var i :| 0 <= i < |before| && keyOf(before[i].q) == k && e == Entry(eval(before[i].q), before[i].insertedAt);
      assert calls[i] == before[i];
    } else {
      assert keyOf(c.q) == k && e == Entry(eval(c.q), c.insertedAt);
    }
  }

  /** Told by the history alone: the call whose answer a key would be served now,
      unless it has expired or been evicted.  A call takes over when it could not
      be served itself: nothing before it, or no longer among the last used keys,
      or older than the time-to-live. */
  function SourceOf(keyOf: KeyOf, ttl: real, maxEntries: nat, calls: seq<Call>, k: string): (i: int)
    ensures -1 <= i < |calls| && (i >= 0 ==> keyOf(calls[i].q) == k)
    decreases |calls|, 0
  {
    if calls == [] then -1
    else
      var before, c := calls[..|calls| - 1], calls[|calls| - 1];
      if keyOf(c.q) != k || Served(keyOf, ttl, maxEntries, before, k, c.checkedAt) then
        SourceOf(keyOf, ttl, maxEntries, before, k)
      else |calls| - 1
  }

  predicate Served(keyOf: KeyOf, ttl: real, maxEntries: nat, calls: seq<Call>, k: string, now: real)
    decreases |calls|, 1
  {
    var i := SourceOf(keyOf, ttl, maxEntries, calls, k);
    i >= 0 && k in LastN(Recency(KeyTrace(keyOf, calls)), maxEntries) && now - calls[i].insertedAt <= ttl
  }

  /** The entry of a key, if it is held, is what call `i` was answered. */
  predicate HeldFrom(eval: Evaluator, calls: seq<Call>, i: int, d: OrderedDict, k: string) {
    k in d.entries ==>
      0 <= i < |calls| && d.entries[k] == Entry(eval(calls[i].q), calls[i].insertedAt)
  }

  /** What is held for a key is what its source was answered. */
  lemma {:induction false} EntryIsItsSource(eval: Evaluator, keyOf: KeyOf, ttl: real, maxEntries: nat, calls: seq<Call>,
                                            k: string)
    ensures HeldFrom(eval, calls, SourceOf(keyOf, ttl, maxEntries, calls, k),
                     Run(eval, keyOf, ttl, maxEntries, calls), k)
  {
    if calls != [] {
      var before, c := calls[..|calls| - 1], calls[|calls| - 1];
      EntryIsItsSource(eval, keyOf, ttl, maxEntries, before, k);
      ServedIff(eval, keyOf, ttl, maxEntries, before, c, k);
      SourceStep(keyOf, ttl, maxEntries, before, c, k);
      assert calls == before + [c];
      HeldAfter(eval, keyOf, ttl, maxEntries, Run(eval, keyOf, ttl, maxEntries, before), before, c, k,
                SourceOf(keyOf, ttl, maxEntries, before, k));
    }
  }

  lemma ServedIff(eval: Evaluator, keyOf: KeyOf, ttl: real, maxEntries: nat, calls: seq<Call>, c: Call, k: string)
    requires HeldFrom(eval, calls, SourceOf(keyOf, ttl, maxEntries, calls, k),
                      Run(eval, keyOf, ttl, maxEntries, calls), k)
    ensures var d := Run(eval, keyOf, ttl, maxEntries, calls);
            Served(keyOf, ttl, maxEntries, calls, k, c.checkedAt)
            <==> k in d.entries && c.checkedAt - d.entries[k].insertedAt <= ttl
  {
    HeldIff(eval, keyOf, ttl, maxEntries, calls, k);
  }

  lemma HeldAfter(eval: Evaluator, keyOf: KeyOf, ttl: real, maxEntries: nat, d: OrderedDict, before: seq<Call>, c: Call,
                  k: string, i: int)
    requires HeldFrom(eval, before, i, d, k)
    ensures var after := Evaluate(eval, keyOf, ttl, maxEntries, d, c.q, c.checkedAt, c.insertedAt).dict;
            var served := k in d.entries && c.checkedAt - d.entries[k].insertedAt <= ttl;
            HeldFrom(eval, before + [c], if keyOf(c.q) != k || served then i else |before|, after, k)
  {
    if k in Evaluate(eval, keyOf, ttl, maxEntries, d, c.q, c.checkedAt, c.insertedAt).dict.entries {
      EntryAfter(eval, keyOf, ttl, maxEntries, d, c, k);
    }
  }

  lemma SourceStep(keyOf: KeyOf, ttl: real, maxEntries: nat, before: seq<Call>, c: Call, k: string)
    ensures SourceOf(keyOf, ttl, maxEntries, before + [c], k)
            == if keyOf(c.q) != k || Served(keyOf, ttl, maxEntries, before, k, c.checkedAt)
               then SourceOf(keyOf, ttl, maxEntries, before, k) else |before|
  {
    assert (before + [c])[..|before|] == before;
  }

  lemma HeldIff(eval: Evaluator, keyOf: KeyOf, ttl: real, maxEntries: nat, calls: seq<Call>, k: string)
    ensures k in Run(eval, keyOf, ttl, maxEntries, calls).entries
            <==> k in LastN(Recency(KeyTrace(keyOf, calls)), maxEntries)
  {
    ExactLru(eval, keyOf, ttl, maxEntries, calls);
  }

  /** A call changes the entry of its own key only, and only by asking the guardrail. */
  lemma EntryAfter(eval: Evaluator, keyOf: KeyOf, ttl: real, maxEntries: nat, d: OrderedDict, c: Call, k: string)
    requires var after := Evaluate(eval, keyOf, ttl, maxEntries, d, c.q, c.checkedAt, c.insertedAt).dict;
             k in after.entries
    ensures var e := Evaluate(eval, keyOf, ttl, maxEntries, d, c.q, c.checkedAt, c.insertedAt).dict.entries[k];
            if keyOf(c.q) != k || (k in d.entries && c.checkedAt - d.entries[k].insertedAt <= ttl)
            then k in d.entries && e == d.entries[k]
            else e == Entry(eval(c.q), c.insertedAt)
  {
  }

  /** The cache answers as its history says: a copy of what the source of the key
      was answered, with no evaluation time and marked as a hit, exactly when it is
      served, and otherwise what the guardrail says. */
  lemma AnswersAsHistory(eval: Evaluator, keyOf: KeyOf, ttl: real, maxEntries: nat, calls: seq<Call>, c: Call)
    ensures var d, k := Run(eval, keyOf, ttl, maxEntries, calls), keyOf(c.q);
            var answer := Evaluate(eval, keyOf, ttl, maxEntries, d, c.q, c.checkedAt, c.insertedAt).result;
            if Served(keyOf, ttl, maxEntries, calls, k, c.checkedAt) then
              var r := eval(calls[SourceOf(keyOf, ttl, maxEntries, calls, k)].q);
              answer == EvalResult(r.effect, r.guardrailName, r.reason, r.policyId, r.lakefsSha, 0.0,
                                   r.metadata["cache_hit" := "True"])
            else answer == eval(c.q)
  {
    var d, k := Run(eval, keyOf, ttl, maxEntries, calls), keyOf(c.q);
    EntryIsItsSource(eval, keyOf, ttl, maxEntries, calls, k);
    ServedIff(eval, keyOf, ttl, maxEntries, calls, c, k);
  }

  /** Transparency: after any calls, at any time, the cache answers as the
      guardrail does, or hands out what it answered a query `p` of the same key,
      no longer ago than the time-to-live.  So the answer is the guardrail's, in
      every field but the timing and the hit marker, unless `p` and the query
      collide under the key. */
  lemma CacheIsTransparent(eval: Evaluator, keyOf: KeyOf, ttl: real, maxEntries: nat, calls: seq<Call>, c: Call)
    returns (p: Query)
    ensures keyOf(p) == keyOf(c.q)
    ensures var d := Run(eval, keyOf, ttl, maxEntries, calls);
            var answer := Evaluate(eval, keyOf, ttl, maxEntries, d, c.q, c.checkedAt, c.insertedAt).result;
            && (answer == eval(c.q)
                || (answer == Hit(eval(p))
                    && exists i :: 0 <= i < |calls| && calls[i].q == p && c.checkedAt - calls[i].insertedAt <= ttl))
            && (p == c.q ==> answer.effect == eval(c.q).effect)
  {
    var d, k := Run(eval, keyOf, ttl, maxEntries, calls), keyOf(c.q);
    p := c.q;
    if k in d.entries {
      EntriesComeFromCalls(eval, keyOf, ttl, maxEntries, calls, k);
      var i :| 0 <= i < |calls| && keyOf(calls[i].q) == k
               && d.entries[k] == Entry(eval(calls[i].q), calls[i].insertedAt);
      p := calls[i].q;
    }
  }

  ghost predicate CollisionFree(keyOf: KeyOf) {
    forall p: Query, q: Query {:trigger keyOf(p), keyOf(q)} :: keyOf(p) == keyOf(q) ==> p == q
  }

  /** With a collision-free key the effect is always the guardrail's. */
  lemma EffectIsTransparent(eval: Evaluator, keyOf: KeyOf, ttl: real, maxEntries: nat, calls: seq<Call>, c: Call)
    requires CollisionFree(keyOf)
    ensures var d := Run(eval, keyOf, ttl, maxEntries, calls);
            Evaluate(eval, keyOf, ttl, maxEntries, d, c.q, c.checkedAt, c.insertedAt).result.effect == eval(c.q).effect
  {
    var p := CacheIsTransparent(eval, keyOf, ttl, maxEntries, calls, c);
  }
}
