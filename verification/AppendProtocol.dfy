/** Any number of `append_row` calls racing on one store.  A step is one atomic
    store operation (a tail read or a compare-and-swap) of one call, so a
    behaviour is an arbitrary interleaving.

    `owners`, `begunAt`, `readAt` and `conflicts` are history: no step reads
    them, they only record which call wrote what and who beat whom. */
module AppendProtocol {
  import opened Options
  import opened HashChain
  import opened ChainLog

  /** A lost swap: read when the log had `readAt` entries, lost at `casAt` to entry `culprit`. */
  datatype Conflict = Conflict(readAt: nat, culprit: int, casAt: nat)

  datatype Phase =
    | Reading
    | Holding(prior: Hash, readAt: nat)
    | Stored(index: nat)   // the entry is durable, at this place in the log
    | Exhausted            // every attempt lost; the last conflict was raised
    | Aborted              // the store failed with something other than a conflict

  datatype Call = Call(row: Row, maxAttempts: nat, begunAt: nat, phase: Phase, conflicts: seq<Conflict>)

  datatype State = State(log: seq<HashChainEntry>, owners: seq<nat>, calls: map<nat, Call>)

  datatype Action =
    | Begin(id: nat, row: Row, maxAttempts: nat)
    | ReadTail(id: nat)
    | Swap(id: nat)
    | Abort(id: nat)

  const Init := State([], [], map[])

  predicate Enabled(s: State, a: Action) {
    match a
    case Begin(id, _, _) => id !in s.calls
    case ReadTail(id) => id in s.calls && s.calls[id].phase.Reading?
    case Swap(id) => id in s.calls && s.calls[id].phase.Holding?
    case Abort(id) => id in s.calls && (s.calls[id].phase.Reading? || s.calls[id].phase.Holding?)
  }

  function Proposal(h: Hasher, sign: Signer, call: Call): HashChainEntry
    requires call.phase.Holding?
  {
    MakeEntry(h, sign, call.row, call.phase.prior)
  }

  /** A call after losing a swap: it retries while attempts are left. */
  function Lose(call: Call, log: seq<HashChainEntry>): Call
    requires call.phase.Holding?
  {
    var lost := Conflict(call.phase.readAt, LastIndex(log, call.row.table, call.row.entityId), |log|);
    var conflicts := call.conflicts + [lost];
    call.(conflicts := conflicts, phase := if |conflicts| < call.maxAttempts then Reading else Exhausted)
  }

  function Next(h: Hasher, sign: Signer, s: State, a: Action): State
    requires Enabled(s, a)
  {
    match a
    case Begin(id, row, maxAttempts) =>
      var phase := if maxAttempts == 0 then Exhausted else Reading;
      s.(calls := s.calls[id := Call(row, maxAttempts, |s.log|, phase, [])])
    case ReadTail(id) =>
      var call := s.calls[id];
      var prior := Tail(s.log, call.row.table, call.row.entityId);
      s.(calls := s.calls[id := call.(phase := Holding(prior, |s.log|))])
    case Swap(id) =>
      var call := s.calls[id];
      if call.phase.prior == Tail(s.log, call.row.table, call.row.entityId) then
        State(s.log + [Proposal(h, sign, call)], s.owners + [id], s.calls[id := call.(phase := Stored(|s.log|))])
      else
        s.(calls := s.calls[id := Lose(call, s.log)])
    case Abort(id) =>
      s.(calls := s.calls[id := s.calls[id].(phase := Aborted)])
  }

  // ---- What every reachable state satisfies ----

  /** The culprit lies in the caller's segment, was written by another call, and
      landed after the caller's read and before its swap. */
  predicate ConflictOk(s: State, id: nat, call: Call, c: Conflict)
    requires |s.owners| == |s.log|
  {
    && call.begunAt <= c.readAt <= c.culprit < c.casAt <= |s.log|
    && InSegment(s.log[c.culprit], call.row.table, call.row.entityId)
    && s.owners[c.culprit] != id
  }

  predicate ConflictsInOrder(call: Call) {
    forall i, j :: 0 <= i < j < |call.conflicts| ==> call.conflicts[i].casAt <= call.conflicts[j].readAt
  }

  predicate PhaseOk(h: Hasher, sign: Signer, s: State, id: nat, call: Call)
    requires |s.owners| == |s.log|
  {
    match call.phase
    case Reading => |call.conflicts| < call.maxAttempts
    case Holding(prior, readAt) =>
      && |call.conflicts| < call.maxAttempts
      && call.begunAt <= readAt <= |s.log|
      && prior == Tail(s.log[..readAt], call.row.table, call.row.entityId)
      && (forall c :: c in call.conflicts ==> c.casAt <= readAt)
    case Stored(index) =>
      && index < |s.log| && s.owners[index] == id
      && s.log[index] == MakeEntry(h, sign, call.row, s.log[index].priorHash)
    case Exhausted => |call.conflicts| == call.maxAttempts
    case Aborted => true
  }

  predicate CallOk(h: Hasher, sign: Signer, s: State, id: nat, call: Call)
    requires |s.owners| == |s.log|
  {
    && call.begunAt <= |s.log|
    && (forall c :: c in call.conflicts ==> ConflictOk(s, id, call, c))
    && ConflictsInOrder(call)
    && PhaseOk(h, sign, s, id, call)
  }

  predicate OwnersOk(s: State) {
    forall i :: 0 <= i < |s.owners| ==> s.owners[i] in s.calls && s.calls[s.owners[i]].phase == Stored(i)
  }

  ghost predicate Inv(h: Hasher, sign: Signer, s: State) {
    && WellChained(h, s.log)
    && |s.owners| == |s.log|
    && OwnersOk(s)
    && (forall id :: id in s.calls ==> CallOk(h, sign, s, id, s.calls[id]))
  }

  /** A failed compare means the segment gained an entry since the read. */
  lemma LostSwapHasCulprit(h: Hasher, sign: Signer, s: State, id: nat)
    requires Inv(h, sign, s) && Enabled(s, Swap(id))
    requires s.calls[id].phase.prior != Tail(s.log, s.calls[id].row.table, s.calls[id].row.entityId)
    ensures s.calls[id].phase.readAt <= LastIndex(s.log, s.calls[id].row.table, s.calls[id].row.entityId)
  {
    var call := s.calls[id];
    assert CallOk(h, sign, s, id, call);
    MovedTailMeansGrowth(s.log[..call.phase.readAt], s.log, call.row.table, call.row.entityId);
  }

  /** Calls that do not move stay consistent while the log grows. */
  lemma OtherCallsKept(h: Hasher, sign: Signer, s: State, t: State, id: nat)
    requires |s.owners| == |s.log| && |t.owners| == |t.log|
    requires s.log <= t.log && s.owners <= t.owners
    requires id in s.calls && CallOk(h, sign, s, id, s.calls[id])
    ensures CallOk(h, sign, t, id, s.calls[id])
  {
    var call := s.calls[id];
    forall c | c in call.conflicts ensures ConflictOk(t, id, call, c) {
      assert ConflictOk(s, id, call, c);
    }
    if call.phase.Holding? {
      assert t.log[..call.phase.readAt] == s.log[..call.phase.readAt];
    }
  }

  lemma LoseKeepsCall(h: Hasher, sign: Signer, s: State, id: nat)
    requires Inv(h, sign, s) && Enabled(s, Swap(id))
    requires s.calls[id].phase.prior != Tail(s.log, s.calls[id].row.table, s.calls[id].row.entityId)
    ensures s.calls[id].phase.readAt <= LastIndex(s.log, s.calls[id].row.table, s.calls[id].row.entityId)
    ensures CallOk(h, sign, s, id, Lose(s.calls[id], s.log))
  {
    LostSwapHasCulprit(h, sign, s, id);
    var call := s.calls[id];
    assert CallOk(h, sign, s, id, call);
    var lost := Lose(call, s.log);
    var last := lost.conflicts[|call.conflicts|];
    assert ConflictOk(s, id, lost, last);
    forall c | c in lost.conflicts ensures ConflictOk(s, id, lost, c) {
      assert c == last || c in call.conflicts;
      if c in call.conflicts { assert ConflictOk(s, id, call, c); }
    }
    forall i, j | 0 <= i < j < |lost.conflicts| ensures lost.conflicts[i].casAt <= lost.conflicts[j].readAt {
      if j == |call.conflicts| {
        assert call.conflicts[i] in call.conflicts;
      }
    }
  }

  lemma MoverKept(h: Hasher, sign: Signer, s: State, a: Action)
    requires Inv(h, sign, s) && Enabled(s, a)
    ensures var t := Next(h, sign, s, a); |t.owners| == |t.log| && CallOk(h, sign, t, a.id, t.calls[a.id])
  {
    var t := Next(h, sign, s, a);
    if !a.Begin? {
      var call := s.calls[a.id];
      assert CallOk(h, sign, s, a.id, call);
      OtherCallsKept(h, sign, s, t, a.id);
      match a
      case ReadTail(_) =>
        assert s.log[..|s.log|] == s.log;
      case Swap(_) =>
        if t.log == s.log { LoseKeepsCall(h, sign, s, a.id); }
      case Abort(_) =>
    }
  }

  lemma LogKept(h: Hasher, sign: Signer, s: State, a: Action)
    requires Inv(h, sign, s) && Enabled(s, a)
    ensures var t := Next(h, sign, s, a);
            WellChained(h, t.log) && s.log <= t.log && s.owners <= t.owners && |t.owners| == |t.log|
  {
    if a.Swap? {
      WellChainedSnoc(h, s.log, Proposal(h, sign, s.calls[a.id]));
    }
  }

  lemma OwnersKept(h: Hasher, sign: Signer, s: State, a: Action)
    requires OwnersOk(s) && |s.owners| == |s.log| && Enabled(s, a)
    ensures OwnersOk(Next(h, sign, s, a))
  {
    var t := Next(h, sign, s, a);
    forall i | 0 <= i < |t.owners| ensures t.owners[i] in t.calls && t.calls[t.owners[i]].phase == Stored(i) {
      if i < |s.owners| {
        assert t.owners[i] == s.owners[i] && s.owners[i] in s.calls;
      }
    }
  }

  lemma InvKept(h: Hasher, sign: Signer, s: State, a: Action)
    requires Inv(h, sign, s) && Enabled(s, a)
    ensures Inv(h, sign, Next(h, sign, s, a))
  {
    var t := Next(h, sign, s, a);
    LogKept(h, sign, s, a);
    OwnersKept(h, sign, s, a);
    MoverKept(h, sign, s, a);
    forall id | id in t.calls && id != a.id ensures CallOk(h, sign, t, id, t.calls[id]) {
      OtherCallsKept(h, sign, s, t, id);
    }
  }

  // ---- Behaviours ----

  /** A sequence of states in which each follows from the one before by some enabled action. */
  ghost predicate Behaviour(h: Hasher, sign: Signer, b: seq<State>) {
    && |b| > 0 && b[0] == Init
    && forall i :: 0 <= i < |b| - 1 ==> StepAt(h, sign, b, i)
  }

  ghost predicate StepAt(h: Hasher, sign: Signer, b: seq<State>, i: nat)
    requires i + 1 < |b|
  {
    exists a :: Enabled(b[i], a) && b[i + 1] == Next(h, sign, b[i], a)
  }

  lemma {:induction false} Reachable(h: Hasher, sign: Signer, b: seq<State>, i: nat)
    requires Behaviour(h, sign, b) && i < |b|
    ensures Inv(h, sign, b[i])
  {
    if i > 0 {
      Reachable(h, sign, b, i - 1);
      assert StepAt(h, sign, b, i - 1);
      var a :| Enabled(b[i - 1], a) && b[i] == Next(h, sign, b[i - 1], a);
      InvKept(h, sign, b[i - 1], a);
    }
  }

  lemma {:induction false} InvSegmentsVerify(h: Hasher, sign: Signer, s: State, table: string, entityId: Option<string>)
    requires Inv(h, sign, s)
    requires entityId == None ==>
               forall id :: id in s.calls && s.calls[id].row.table == table ==> s.calls[id].row.entityId == None
    ensures Verifies(h, EntriesFor(s.log, table, entityId), GENESIS_PRIOR_HASH)
  {
    forall e | e in s.log && e.table == table && entityId == None ensures e.entityId == None {
      var k :| 0 <= k < |s.log| && s.log[k] == e;
      assert CallOk(h, sign, s, s.owners[k], s.calls[s.owners[k]]);
    }
    SegmentVerifies(h, s.log, table, entityId);
  }

  /** In every reachable state every partition verifies from genesis, and so
      does every table in which only null entities were chained. */
  lemma SegmentsAlwaysVerify(h: Hasher, sign: Signer, b: seq<State>, i: nat, table: string, entityId: Option<string>)
    requires Behaviour(h, sign, b) && i < |b|
    requires entityId == None ==>
               forall id :: id in b[i].calls && b[i].calls[id].row.table == table ==>
                   b[i].calls[id].row.entityId == None
    ensures Verifies(h, EntriesFor(b[i].log, table, entityId), GENESIS_PRIOR_HASH)
  {
    Reachable(h, sign, b, i);
    InvSegmentsVerify(h, sign, b[i], table, entityId);
  }

  /** The log is exactly the entries of the calls that succeeded, one each. */
  ghost predicate LogIsSuccesses(h: Hasher, sign: Signer, s: State) {
    && |s.owners| == |s.log|
    && (forall k :: 0 <= k < |s.log| ==>
          var id := s.owners[k];
          id in s.calls && s.calls[id].phase == Stored(k)
          && s.log[k] == MakeEntry(h, sign, s.calls[id].row, s.log[k].priorHash))
    && (forall id :: id in s.calls && s.calls[id].phase.Stored? ==>
          s.calls[id].phase.index < |s.log| && s.owners[s.calls[id].phase.index] == id)
  }

  lemma InvStoredIffSucceeded(h: Hasher, sign: Signer, s: State)
    requires Inv(h, sign, s)
    ensures LogIsSuccesses(h, sign, s)
  {
    forall k | 0 <= k < |s.log| ensures s.log[k] == MakeEntry(h, sign, s.calls[s.owners[k]].row, s.log[k].priorHash) {
      assert CallOk(h, sign, s, s.owners[k], s.calls[s.owners[k]]);
    }
    forall id | id in s.calls && s.calls[id].phase.Stored?
      ensures s.calls[id].phase.index < |s.log| && s.owners[s.calls[id].phase.index] == id
    {
      assert CallOk(h, sign, s, id, s.calls[id]);
    }
  }

  lemma StoredIffSucceeded(h: Hasher, sign: Signer, b: seq<State>, i: nat)
    requires Behaviour(h, sign, b) && i < |b|
    ensures LogIsSuccesses(h, sign, b[i])
  {
    Reachable(h, sign, b, i);
    InvStoredIffSucceeded(h, sign, b[i]);
  }

  /** Nothing stored is ever changed or removed. */
  lemma {:induction false} LogOnlyGrows(h: Hasher, sign: Signer, b: seq<State>, i: nat, j: nat)
    requires Behaviour(h, sign, b) && i <= j < |b|
    ensures b[i].log <= b[j].log
    decreases j
  {
    if i < j {
      LogOnlyGrows(h, sign, b, i, j - 1);
      Reachable(h, sign, b, j - 1);
      assert StepAt(h, sign, b, j - 1);
      var a :| Enabled(b[j - 1], a) && b[j] == Next(h, sign, b[j - 1], a);
      LogKept(h, sign, b[j - 1], a);
    }
  }

  // ---- Progress ----

  /** The places where other calls stored entries of this call's segment since it began. */
  function OtherAppends(s: State, id: nat): set<int>
    requires id in s.calls && |s.owners| == |s.log|
  {
    var call := s.calls[id];
    set k | call.begunAt <= k < |s.log| && InSegment(s.log[k], call.row.table, call.row.entityId) && s.owners[k] != id
  }

  function Culprits(cs: seq<Conflict>): set<int> {
    if cs == [] then {} else Culprits(cs[..|cs| - 1]) + {cs[|cs| - 1].culprit}
  }

  lemma {:induction false} CulpritsDiffer(s: State, id: nat, call: Call, n: nat)
    requires |s.owners| == |s.log| && n <= |call.conflicts|
    requires id in s.calls && s.calls[id] == call
    requires ConflictsInOrder(call) && forall c :: c in call.conflicts ==> ConflictOk(s, id, call, c)
    ensures |Culprits(call.conflicts[..n])| == n
    ensures Culprits(call.conflicts[..n]) <= OtherAppends(s, id)
    ensures forall k :: k in Culprits(call.conflicts[..n]) ==> n > 0 && k < call.conflicts[n - 1].casAt
  {
    if n > 0 {
      CulpritsDiffer(s, id, call, n - 1);
      var c := call.conflicts[n - 1];
      assert ConflictOk(s, id, call, c);
      assert call.conflicts[..n][..n - 1] == call.conflicts[..n - 1];
    }
  }

  /** Each conflict is charged to its own append of another call: a call that
      lost `n` times saw `n` appends of others succeed in its segment, and one
      that gave up saw `max_attempts` of them. */
  ghost predicate ConflictsCharged(s: State, id: nat)
    requires id in s.calls
  {
    && |s.owners| == |s.log|
    && |Culprits(s.calls[id].conflicts)| == |s.calls[id].conflicts|
    && Culprits(s.calls[id].conflicts) <= OtherAppends(s, id)
    && |s.calls[id].conflicts| <= |OtherAppends(s, id)|
    && (s.calls[id].phase.Exhausted? ==> s.calls[id].maxAttempts <= |OtherAppends(s, id)|)
  }

  lemma InvConflictsAreCharged(h: Hasher, sign: Signer, s: State, id: nat)
    requires Inv(h, sign, s) && id in s.calls
    ensures ConflictsCharged(s, id)
  {
    var call := s.calls[id];
    assert CallOk(h, sign, s, id, call);
    CulpritsDiffer(s, id, call, |call.conflicts|);
    assert call.conflicts[..|call.conflicts|] == call.conflicts;
    SubsetIsSmaller(Culprits(call.conflicts), OtherAppends(s, id));
  }

  lemma ConflictsAreCharged(h: Hasher, sign: Signer, b: seq<State>, i: nat, id: nat)
    requires Behaviour(h, sign, b) && i < |b| && id in b[i].calls
    ensures ConflictsCharged(b[i], id)
  {
    Reachable(h, sign, b, i);
    InvConflictsAreCharged(h, sign, b[i], id);
  }

  lemma SubsetIsSmaller(a: set<int>, b: set<int>)
    requires a <= b
    ensures |a| <= |b|
  {
    assert b == a + (b - a);
  }

  /** Absent a collision and an entry that hashes to genesis, a swap succeeds
      exactly when no entry of the segment landed since the read: there is no ABA. */
  lemma SwapSeesEveryChange(h: Hasher, sign: Signer, b: seq<State>, i: nat, id: nat)
    requires Behaviour(h, sign, b) && i < |b| && Enabled(b[i], Swap(id))
    requires Collisionless(h, b[i].log, GENESIS_PRIOR_HASH)
    ensures var s, call := b[i], b[i].calls[id];
            call.phase.prior == Tail(s.log, call.row.table, call.row.entityId)
            <==> forall k :: call.phase.readAt <= k < |s.log| ==>
                !InSegment(s.log[k], call.row.table, call.row.entityId)
  {
    Reachable(h, sign, b, i);
    var s, call := b[i], b[i].calls[id];
    assert CallOk(h, sign, s, id, call);
    CollisionlessHashesDiffer(h, s.log);
    TailMovesIff(s.log, call.phase.readAt, call.row.table, call.row.entityId);
  }

  /** While no hash repeats, a tail stays exactly as long as its segment does not grow. */
  lemma TailMovesIff(log: seq<HashChainEntry>, n: nat, table: string, entityId: Option<string>)
    requires n <= |log| && DistinctHashes(log)
    ensures Tail(log[..n], table, entityId) == Tail(log, table, entityId)
            <==> forall k :: n <= k < |log| ==> !InSegment(log[k], table, entityId)
  {
    var read := log[..n];
    MovedTailMeansGrowth(read, log, table, entityId);
    var x, y := LastIndex(read, table, entityId), LastIndex(log, table, entityId);
    assert x >= 0 ==> read[x] == log[x];
    assert y < n && y >= 0 ==> read[y] == log[y];
  }
}
