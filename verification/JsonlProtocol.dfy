/** Racing `append_row` calls over JSONL stores in any number of processes that
    share one file, with crashes in the middle of a write.  Every step is a step
    of the protocol over the in-memory log, so its safety carries over; after a
    torn write nothing succeeds any more. */
module JsonlProtocol {
  import opened Options
  import opened HashChain
  import opened ChainLog
  import opened JsonlFile
  import opened JsonlStore
  import P = AppendProtocol

  datatype System = System(
    file: seq<byte>,
    stores: map<nat, StoreState>,
    homes: map<nat, nat>,         // the store each call goes through
    owners: seq<nat>,             // history, as in the in-memory protocol
    calls: map<nat, P.Call>)

  datatype Action =
    | Open(store: nat)
    | Begin(id: nat, store: nat, row: Row, maxAttempts: nat)
    | ReadTail(id: nat)
    | Swap(id: nat)
    | Crash(id: nat, written: nat)   // the process dies, `written` bytes into the line

  const Init := System([], map[], map[], [], map[])

  // ---- The entries a file holds ----

  /** The length of the file up to and including its last newline. */
  function CompleteLength(file: seq<byte>): (n: nat)
    ensures n <= |file|
  {
    if file == [] then 0
    else if file[|file| - 1] == NEWLINE then |file|
    else CompleteLength(file[..|file| - 1])
  }

  function CompleteLog(c: Codec, file: seq<byte>): seq<HashChainEntry> {
    Parse(c, SplitLines(file[..CompleteLength(file)])).entries
  }

  function TornPart(file: seq<byte>): seq<byte> {
    file[CompleteLength(file)..]
  }

  predicate NoNewline(text: seq<byte>) {
    forall i :: 0 <= i < |text| ==> text[i] != NEWLINE
  }

  lemma {:induction false} CompleteLengthOf(whole: seq<byte>, torn: seq<byte>)
    requires whole == [] || whole[|whole| - 1] == NEWLINE
    requires NoNewline(torn)
    ensures CompleteLength(whole + torn) == |whole|
    decreases |torn|
  {
    if torn == [] {
      assert whole + torn == whole;
    } else {
      var init := torn[..|torn| - 1];
      assert (whole + torn)[..|whole + torn| - 1] == whole + init;
      CompleteLengthOf(whole, init);
    }
  }

  lemma FileHolds(c: Codec, log: seq<HashChainEntry>, torn: seq<byte>)
    requires ValidCodec(c) && NoNewline(torn)
    ensures CompleteLog(c, EncodeLog(c, log) + torn) == log
    ensures TornPart(EncodeLog(c, log) + torn) == torn
  {
    EncodeLogEnds(c, log);
    CompleteLengthOf(EncodeLog(c, log), torn);
    assert (EncodeLog(c, log) + torn)[..|EncodeLog(c, log)|] == EncodeLog(c, log);
    ParseEncodedLog(c, log);
  }

  // ---- Steps ----

  predicate Enabled(c: Codec, h: Hasher, sign: Signer, s: System, a: Action) {
    match a
    case Open(store) => store !in s.stores
    case Begin(id, store, _, _) => id !in s.calls && store in s.stores
    case ReadTail(id) => id in s.calls && s.calls[id].phase.Reading? && Homed(s, id)
    case Swap(id) => id in s.calls && s.calls[id].phase.Holding? && Homed(s, id)
    case Crash(id, written) =>
      && id in s.calls && s.calls[id].phase.Holding? && Homed(s, id)
      && AppendTo(c, s.file, s.stores[s.homes[id]], P.Proposal(h, sign, s.calls[id])).result == Appended
      && written <= |Line(c, P.Proposal(h, sign, s.calls[id]))|
  }

  predicate HomedIn(homes: map<nat, nat>, stores: map<nat, StoreState>, id: nat) {
    id in homes && homes[id] in stores
  }

  predicate Homed(s: System, id: nat) {
    HomedIn(s.homes, s.stores, id)
  }

  function Next(c: Codec, h: Hasher, sign: Signer, s: System, a: Action): System
    requires Enabled(c, h, sign, s, a)
  {
    match a
    case Open(store) =>
      var r := Refresh(c, s.file, Unread);
      if r.ok then s.(stores := s.stores[store := r.st]) else s
    case Begin(id, store, row, maxAttempts) =>
      var phase := if maxAttempts == 0 then P.Exhausted else P.Reading;
      var call := P.Call(row, maxAttempts, |CompleteLog(c, s.file)|, phase, []);
      s.(calls := s.calls[id := call], homes := s.homes[id := store])
    case ReadTail(id) =>
      var call := s.calls[id];
      var r := Refresh(c, s.file, s.stores[s.homes[id]]);
      var phase :=
        if r.ok then P.Holding(Lookup(r.st.index, call.row.table, call.row.entityId), |CompleteLog(c, s.file)|)
        else P.Aborted;
      s.(stores := s.stores[s.homes[id] := r.st], calls := s.calls[id := call.(phase := phase)])
    case Swap(id) =>
      var call := s.calls[id];
      var out := AppendTo(c, s.file, s.stores[s.homes[id]], P.Proposal(h, sign, call));
      var stores := s.stores[s.homes[id] := out.st];
      var n := |CompleteLog(c, s.file)|;
      (match out.result
       case Appended =>
         System(out.file, stores, s.homes, s.owners + [id], s.calls[id := call.(phase := P.Stored(n))])
       case ConflictRaised =>
         s.(stores := stores, calls := s.calls[id := P.Lose(call, CompleteLog(c, s.file))])
       case TruncatedRaised =>
         s.(stores := stores, calls := s.calls[id := call.(phase := P.Aborted)]))
    case Crash(id, written) =>
      var call := s.calls[id];
      var line := Line(c, P.Proposal(h, sign, call));
      var n := |CompleteLog(c, s.file)|;
      if written == |line| then
        s.(file := s.file + line, owners := s.owners + [id], calls := s.calls[id := call.(phase := P.Stored(n))])
      else
        s.(file := s.file + line[..written], calls := s.calls[id := call.(phase := P.Aborted)])
  }

  // ---- Invariant: every store sits at a line boundary with the fold of the lines before it ----

  ghost predicate AtBoundary(c: Codec, log: seq<HashChainEntry>, st: StoreState) {
    exists n: nat :: Consumed(c, log, st, n)
  }

  /** The file is the lines of its entries and what was torn off after them. */
  predicate FileOk(c: Codec, file: seq<byte>) {
    file == EncodeLog(c, CompleteLog(c, file)) + TornPart(file)
  }

  ghost predicate StoresOk(c: Codec, log: seq<HashChainEntry>, stores: map<nat, StoreState>) {
    forall k :: k in stores ==> AtBoundary(c, log, stores[k])
  }

  predicate HomesOk(calls: set<nat>, homes: map<nat, nat>, stores: map<nat, StoreState>) {
    forall id :: id in calls ==> HomedIn(homes, stores, id)
  }

  ghost predicate Inv(c: Codec, s: System) {
    && FileOk(c, s.file)
    && StoresOk(c, CompleteLog(c, s.file), s.stores)
    && HomesOk(s.calls.Keys, s.homes, s.stores)
  }

  lemma {:induction false} TornHasNoNewline(file: seq<byte>)
    ensures NoNewline(TornPart(file))
  {
    if file != [] && file[|file| - 1] != NEWLINE {
      var init, last := file[..|file| - 1], file[|file| - 1];
      TornHasNoNewline(init);
      assert TornPart(file) == TornPart(init) + [last];
    }
  }

  lemma GrownLogKeepsBoundary(c: Codec, log: seq<HashChainEntry>, e: HashChainEntry, st: StoreState)
    requires AtBoundary(c, log, st)
    ensures AtBoundary(c, log + [e], st)
  {
    var n: nat :| Consumed(c, log, st, n);
    assert (log + [e])[..n] == log[..n];
    assert Consumed(c, log + [e], st, n);
  }

  // ---- Each step refines a step over the in-memory log ----

  function Abs(c: Codec, s: System): P.State {
    P.State(CompleteLog(c, s.file), s.owners, s.calls)
  }

  /** The in-memory step an action amounts to; behind a torn line a call can only abort. */
  function AbsAction(c: Codec, h: Hasher, sign: Signer, s: System, a: Action): Option<P.Action>
    requires Enabled(c, h, sign, s, a)
  {
    match a
    case Open(_) => None
    case Begin(id, _, row, maxAttempts) => Some(P.Begin(id, row, maxAttempts))
    case ReadTail(id) => Some(if TornPart(s.file) == [] then P.ReadTail(id) else P.Abort(id))
    case Swap(id) => Some(if TornPart(s.file) == [] then P.Swap(id) else P.Abort(id))
    case Crash(id, written) =>
      Some(if written == |Line(c, P.Proposal(h, sign, s.calls[id]))| then P.Swap(id) else P.Abort(id))
  }

  lemma HealthyFile(c: Codec, file: seq<byte>)
    requires FileOk(c, file) && TornPart(file) == []
    ensures file == EncodeLog(c, CompleteLog(c, file))
  {
    var whole := EncodeLog(c, CompleteLog(c, file));
    assert whole + [] == whole;
  }

  lemma FileOfLog(c: Codec, log: seq<HashChainEntry>)
    requires ValidCodec(c)
    ensures CompleteLog(c, EncodeLog(c, log)) == log && TornPart(EncodeLog(c, log)) == []
  {
    assert EncodeLog(c, log) + [] == EncodeLog(c, log);
    FileHolds(c, log, []);
  }

  /** A store catches up completely on a healthy file and fails on a torn one. */
  lemma RefreshOutcome(c: Codec, s: System, store: nat)
    requires ValidCodec(c) && Inv(c, s) && store in s.stores
    ensures var r, log := Refresh(c, s.file, s.stores[store]), CompleteLog(c, s.file);
            if TornPart(s.file) == [] then r.ok && r.st.index == Fold(EmptyIndex, log) && Consumed(c, log, r.st, |log|)
            else !r.ok && r.st == s.stores[store]
  {
    var log, torn := CompleteLog(c, s.file), TornPart(s.file);
    assert AtBoundary(c, log, s.stores[store]);
    var n: nat :| Consumed(c, log, s.stores[store], n);
    assert log[..|log|] == log;
    if torn == [] {
      HealthyFile(c, s.file);
      RefreshCatchesUp(c, log, s.stores[store], n);
    } else {
      TornHasNoNewline(s.file);
      RefreshFailsOnTornLine(c, log, torn, s.stores[store], n);
    }
  }

  /** The incremental index refines the simple store: after a refresh a store's
      tail is the reverse scan over all entries that `load_entries` returns. */
  lemma RefreshedTailIsScan(c: Codec, s: System, store: nat, table: string, entityId: Option<string>)
    requires ValidCodec(c) && Inv(c, s) && store in s.stores && TornPart(s.file) == []
    ensures var r, loaded := Refresh(c, s.file, s.stores[store]), LoadEntries(c, s.file);
            r.ok && loaded.Some? && Lookup(r.st.index, table, entityId) == Tail(loaded.value, table, entityId)
  {
    RefreshOutcome(c, s, store);
    HealthyFile(c, s.file);
    ParseEncodedLog(c, CompleteLog(c, s.file));
    IndexIsReverseScan(CompleteLog(c, s.file), table, entityId);
  }

  /** Storing a refreshed state keeps every store at a boundary. */
  lemma StoresKept(c: Codec, s: System, t: System, store: nat)
    requires Inv(c, s) && t.file == s.file && t.homes == s.homes && t.calls.Keys == s.calls.Keys
    requires store in t.stores && t.stores == s.stores[store := t.stores[store]]
    requires AtBoundary(c, CompleteLog(c, s.file), t.stores[store])
    ensures Inv(c, t)
  {
    HomesKept(s.calls.Keys, s.homes, s.stores, t.stores);
  }

  lemma HomesKept(calls: set<nat>, homes: map<nat, nat>, stores: map<nat, StoreState>, after: map<nat, StoreState>)
    requires HomesOk(calls, homes, stores) && stores.Keys <= after.Keys
    ensures HomesOk(calls, homes, after)
  {
    forall id | id in calls ensures HomedIn(homes, after, id) {
      assert HomedIn(homes, stores, id);
    }
  }

  lemma OpenRefines(c: Codec, h: Hasher, sign: Signer, s: System, a: Action)
    requires ValidCodec(c) && Inv(c, s) && a.Open? && Enabled(c, h, sign, s, a)
    ensures Inv(c, Next(c, h, sign, s, a))
    ensures Abs(c, Next(c, h, sign, s, a)) == Abs(c, s)
  {
    var log, torn := CompleteLog(c, s.file), TornPart(s.file);
    assert Consumed(c, log, Unread, 0);
    assert log[..|log|] == log;
    if torn == [] {
      HealthyFile(c, s.file);
      RefreshCatchesUp(c, log, Unread, 0);
      var r := Refresh(c, s.file, Unread);
      assert Consumed(c, log, r.st, |log|);
      StoresKept(c, s, Next(c, h, sign, s, a), a.store);
    } else {
      TornHasNoNewline(s.file);
      RefreshFailsOnTornLine(c, log, torn, Unread, 0);
    }
  }

  lemma BeginRefines(c: Codec, h: Hasher, sign: Signer, s: System, a: Action)
    requires ValidCodec(c) && Inv(c, s) && a.Begin? && Enabled(c, h, sign, s, a)
    ensures Inv(c, Next(c, h, sign, s, a))
    ensures P.Enabled(Abs(c, s), P.Begin(a.id, a.row, a.maxAttempts))
    ensures Abs(c, Next(c, h, sign, s, a)) == P.Next(h, sign, Abs(c, s), P.Begin(a.id, a.row, a.maxAttempts))
  {
    var t := Next(c, h, sign, s, a);
    forall id | id in t.calls ensures Homed(t, id) {
      assert id != a.id ==> Homed(s, id);
    }
  }

  lemma ReadTailRefines(c: Codec, h: Hasher, sign: Signer, s: System, a: Action)
    requires ValidCodec(c) && Inv(c, s) && a.ReadTail? && Enabled(c, h, sign, s, a)
    ensures Inv(c, Next(c, h, sign, s, a))
    ensures var pa := AbsAction(c, h, sign, s, a).value;
            P.Enabled(Abs(c, s), pa) && Abs(c, Next(c, h, sign, s, a)) == P.Next(h, sign, Abs(c, s), pa)
  {
    var call, store, log := s.calls[a.id], s.homes[a.id], CompleteLog(c, s.file);
    RefreshOutcome(c, s, store);
    IndexIsReverseScan(log, call.row.table, call.row.entityId);
    StoresKept(c, s, Next(c, h, sign, s, a), store);
  }

  lemma EncodeOneMore(c: Codec, log: seq<HashChainEntry>, e: HashChainEntry)
    ensures EncodeLog(c, log + [e]) == EncodeLog(c, log) + Line(c, e)
  {
    assert (log + [e])[..|log|] == log;
  }

  /** A whole line at the end of a healthy file is one more entry. */
  lemma AppendedLine(c: Codec, file: seq<byte>, e: HashChainEntry, after: seq<byte>)
    requires ValidCodec(c) && FileOk(c, file) && TornPart(file) == [] && after == file + Line(c, e)
    ensures CompleteLog(c, after) == CompleteLog(c, file) + [e] && TornPart(after) == []
    ensures FileOk(c, after)
  {
    var log := CompleteLog(c, file);
    HealthyFile(c, file);
    EncodeOneMore(c, log, e);
    FileOfLog(c, log + [e]);
    assert after + [] == after;
  }

  lemma StoresOutliveAppend(c: Codec, log: seq<HashChainEntry>, e: HashChainEntry, stores: map<nat, StoreState>,
                            store: nat, st: StoreState)
    requires StoresOk(c, log, stores) && AtBoundary(c, log + [e], st)
    ensures StoresOk(c, log + [e], stores) && StoresOk(c, log + [e], stores[store := st])
  {
    forall k | k in stores ensures AtBoundary(c, log + [e], stores[k]) {
      GrownLogKeepsBoundary(c, log, e, stores[k]);
    }
  }

  lemma AppendedFile(c: Codec, s: System, t: System, e: HashChainEntry)
    requires ValidCodec(c) && Inv(c, s) && TornPart(s.file) == []
    requires t.file == s.file + Line(c, e) && t.homes == s.homes && t.calls.Keys == s.calls.Keys
    requires s.stores.Keys <= t.stores.Keys && StoresOk(c, CompleteLog(c, s.file) + [e], t.stores)
    ensures Inv(c, t) && CompleteLog(c, t.file) == CompleteLog(c, s.file) + [e]
  {
    AppendedLine(c, s.file, e, t.file);
    HomesKept(s.calls.Keys, s.homes, s.stores, t.stores);
  }

  /** What an append through a store at a boundary does to the file and to the store. */
  lemma AppendOutcomeHere(c: Codec, s: System, store: nat, e: HashChainEntry)
    requires ValidCodec(c) && Inv(c, s) && store in s.stores
    ensures var log, out := CompleteLog(c, s.file), AppendTo(c, s.file, s.stores[store], e);
            if TornPart(s.file) != [] then out == AppendOutcome(TruncatedRaised, s.file, s.stores[store])
            else if e.priorHash == Tail(log, e.table, e.entityId) then
              out.result == Appended && out.file == s.file + Line(c, e) && AtBoundary(c, log + [e], out.st)
            else out.result == ConflictRaised && out.file == s.file && AtBoundary(c, log, out.st)
  {
    RefreshOutcome(c, s, store);
    IndexIsReverseScan(CompleteLog(c, s.file), e.table, e.entityId);
    if TornPart(s.file) == [] {
      var log := CompleteLog(c, s.file);
      assert AtBoundary(c, log, s.stores[store]);
      var n: nat :| Consumed(c, log, s.stores[store], n);
      HealthyFile(c, s.file);
      AppendRefinesInMemory(c, log, s.stores[store], n, e);
    }
  }

  /** The parts of the system that a swap of call `id` changes. */
  predicate SwapsTo(s: System, id: nat, t: System, out: AppendOutcome)
    requires Homed(s, id)
  {
    && t.file == out.file && t.homes == s.homes && t.calls.Keys == s.calls.Keys
    && t.stores == s.stores[s.homes[id] := out.st]
  }

  lemma SwapStep(c: Codec, h: Hasher, sign: Signer, s: System, a: Action)
    requires a.Swap? && Enabled(c, h, sign, s, a)
    ensures SwapsTo(s, a.id, Next(c, h, sign, s, a),
                    AppendTo(c, s.file, s.stores[s.homes[a.id]], P.Proposal(h, sign, s.calls[a.id])))
  {
  }

  lemma SwapKeepsInv(c: Codec, s: System, id: nat, e: HashChainEntry, t: System, out: AppendOutcome)
    requires ValidCodec(c) && Inv(c, s) && Homed(s, id)
    requires out == AppendTo(c, s.file, s.stores[s.homes[id]], e) && SwapsTo(s, id, t, out)
    ensures Inv(c, t)
    ensures out.result == Appended ==> CompleteLog(c, t.file) == CompleteLog(c, s.file) + [e]
    ensures out.result != Appended ==> t.file == s.file
  {
    AppendOutcomeHere(c, s, s.homes[id], e);
    if out.result == Appended {
      StoresOutliveAppend(c, CompleteLog(c, s.file), e, s.stores, s.homes[id], out.st);
      AppendedFile(c, s, t, e);
    } else {
      StoresKept(c, s, t, s.homes[id]);
    }
  }

  lemma SwapRefines(c: Codec, h: Hasher, sign: Signer, s: System, a: Action)
    requires ValidCodec(c) && Inv(c, s) && a.Swap? && Enabled(c, h, sign, s, a)
    ensures Inv(c, Next(c, h, sign, s, a))
    ensures var pa := AbsAction(c, h, sign, s, a).value;
            P.Enabled(Abs(c, s), pa) && Abs(c, Next(c, h, sign, s, a)) == P.Next(h, sign, Abs(c, s), pa)
  {
    var store, e := s.homes[a.id], P.Proposal(h, sign, s.calls[a.id]);
    SwapStep(c, h, sign, s, a);
    SwapKeepsInv(c, s, a.id, e, Next(c, h, sign, s, a), AppendTo(c, s.file, s.stores[store], e));
    AppendOutcomeHere(c, s, store, e);
  }

  lemma CrashRefines(c: Codec, h: Hasher, sign: Signer, s: System, a: Action)
    requires ValidCodec(c) && Inv(c, s) && a.Crash? && Enabled(c, h, sign, s, a)
    ensures Inv(c, Next(c, h, sign, s, a))
    ensures var pa := AbsAction(c, h, sign, s, a).value;
            P.Enabled(Abs(c, s), pa) && Abs(c, Next(c, h, sign, s, a)) == P.Next(h, sign, Abs(c, s), pa)
  {
    var store, log, t := s.homes[a.id], CompleteLog(c, s.file), Next(c, h, sign, s, a);
    var e := P.Proposal(h, sign, s.calls[a.id]);
    RefreshOutcome(c, s, store);
    HealthyFile(c, s.file);
    IndexIsReverseScan(log, e.table, e.entityId);
    if a.written == |Line(c, e)| {
      assert AtBoundary(c, log, s.stores[store]);
      GrownLogKeepsBoundary(c, log, e, s.stores[store]);
      StoresOutliveAppend(c, log, e, s.stores, store, s.stores[store]);
      AppendedFile(c, s, t, e);
    } else {
      TornLine(c, s.file, e, a.written, t.file);
    }
  }

  /** Part of a line at the end of a healthy file is torn, and adds no entry. */
  lemma TornLine(c: Codec, file: seq<byte>, e: HashChainEntry, written: nat, after: seq<byte>)
    requires ValidCodec(c) && FileOk(c, file) && TornPart(file) == []
    requires written < |Line(c, e)| && after == file + Line(c, e)[..written]
    ensures CompleteLog(c, after) == CompleteLog(c, file) && FileOk(c, after)
  {
    HealthyFile(c, file);
    PartOfLine(c, e, written);
    FileHolds(c, CompleteLog(c, file), Line(c, e)[..written]);
  }

  lemma PartOfLine(c: Codec, e: HashChainEntry, written: nat)
    requires ValidCodec(c) && written < |Line(c, e)|
    ensures NoNewline(Line(c, e)[..written])
  {
    assert EncodesWell(c, e);
    assert forall i :: 0 <= i < written ==> Line(c, e)[..written][i] == c.encode(e)[i];
  }

  lemma LoadTornLine(c: Codec, file: seq<byte>, e: HashChainEntry, written: nat)
    requires ValidCodec(c) && FileOk(c, file) && TornPart(file) == []
    requires 0 < written < |Line(c, e)|
    ensures LoadEntries(c, file + Line(c, e)[..written])
            == if written == |c.encode(e)| then Some(CompleteLog(c, file) + [e]) else None
  {
    HealthyFile(c, file);
    LoadAfterCrash(c, CompleteLog(c, file), e, written);
  }

  /** Reading a file whose last line was torn by a crash: `load_entries` raises
      unless exactly the newline is missing, and then returns the dying entry too. */
  lemma LoadAfterCrashStep(c: Codec, h: Hasher, sign: Signer, s: System, a: Action)
    requires ValidCodec(c) && Inv(c, s) && a.Crash? && Enabled(c, h, sign, s, a)
    requires 0 < a.written < |Line(c, P.Proposal(h, sign, s.calls[a.id]))|
    ensures var e := P.Proposal(h, sign, s.calls[a.id]);
            LoadEntries(c, Next(c, h, sign, s, a).file)
            == if a.written == |c.encode(e)| then Some(CompleteLog(c, s.file) + [e]) else None
  {
    RefreshOutcome(c, s, s.homes[a.id]);
    LoadTornLine(c, s.file, P.Proposal(h, sign, s.calls[a.id]), a.written);
  }

  /** Every step keeps the invariant and is a step over the in-memory log, or invisible there. */
  lemma StepRefines(c: Codec, h: Hasher, sign: Signer, s: System, a: Action)
    requires ValidCodec(c) && Inv(c, s) && Enabled(c, h, sign, s, a)
    ensures Inv(c, Next(c, h, sign, s, a))
    ensures match AbsAction(c, h, sign, s, a)
            case None => Abs(c, Next(c, h, sign, s, a)) == Abs(c, s)
            case Some(pa) =>
              P.Enabled(Abs(c, s), pa) && Abs(c, Next(c, h, sign, s, a)) == P.Next(h, sign, Abs(c, s), pa)
  {
    match a
    case Open(_) => OpenRefines(c, h, sign, s, a);
    case Begin(_, _, _, _) => BeginRefines(c, h, sign, s, a);
    case ReadTail(_) => ReadTailRefines(c, h, sign, s, a);
    case Swap(_) => SwapRefines(c, h, sign, s, a);
    case Crash(_, _) => CrashRefines(c, h, sign, s, a);
  }

  // ---- Behaviours ----

  ghost predicate StepAt(c: Codec, h: Hasher, sign: Signer, b: seq<System>, i: nat)
    requires i + 1 < |b|
  {
    exists a :: Enabled(c, h, sign, b[i], a) && b[i + 1] == Next(c, h, sign, b[i], a)
  }

  ghost predicate Behaviour(c: Codec, h: Hasher, sign: Signer, b: seq<System>) {
    && ValidCodec(c)
    && |b| > 0 && b[0] == Init
    && forall i :: 0 <= i < |b| - 1 ==> StepAt(c, h, sign, b, i)
  }

  lemma ActionAt(c: Codec, h: Hasher, sign: Signer, b: seq<System>, i: nat) returns (a: Action)
    requires Behaviour(c, h, sign, b) && i + 1 < |b|
    ensures Enabled(c, h, sign, b[i], a) && b[i + 1] == Next(c, h, sign, b[i], a)
  {
    assert StepAt(c, h, sign, b, i);
    a :| Enabled(c, h, sign, b[i], a) && b[i + 1] == Next(c, h, sign, b[i], a);
  }

  ghost predicate Sound(c: Codec, h: Hasher, sign: Signer, s: System) {
    Inv(c, s) && P.Inv(h, sign, Abs(c, s))
  }

  lemma SoundKept(c: Codec, h: Hasher, sign: Signer, s: System, a: Action, t: System)
    requires ValidCodec(c) && Sound(c, h, sign, s) && Enabled(c, h, sign, s, a)
    requires t == Next(c, h, sign, s, a)
    ensures Sound(c, h, sign, t)
  {
    StepRefines(c, h, sign, s, a);
    var pa := AbsAction(c, h, sign, s, a);
    if pa.Some? {
      P.InvKept(h, sign, Abs(c, s), pa.value);
    }
  }

  lemma StepKeepsSound(c: Codec, h: Hasher, sign: Signer, b: seq<System>, i: nat, t: System)
    requires Behaviour(c, h, sign, b) && i + 1 < |b| && Sound(c, h, sign, b[i]) && t == b[i + 1]
    ensures Sound(c, h, sign, t)
  {
    var a := ActionAt(c, h, sign, b, i);
    SoundKept(c, h, sign, b[i], a, t);
  }

  lemma InitSound(c: Codec, h: Hasher, sign: Signer, s: System)
    requires s == Init
    ensures Sound(c, h, sign, s)
  {
    assert CompleteLog(c, []) == [];
  }

  lemma {:induction false} Reachable(c: Codec, h: Hasher, sign: Signer, b: seq<System>, i: nat)
    requires Behaviour(c, h, sign, b) && i < |b|
    ensures Sound(c, h, sign, b[i])
  {
    if i == 0 {
      InitSound(c, h, sign, b[i]);
    } else {
      Reachable(c, h, sign, b, i - 1);
      StepKeepsSound(c, h, sign, b, i - 1, b[i]);
    }
  }

  /** Whatever the interleaving and wherever processes died, the whole lines of
      the file verify from genesis, partition by partition. */
  lemma FileSegmentsVerify(c: Codec, h: Hasher, sign: Signer, b: seq<System>, i: nat, table: string,
                           entityId: Option<string>)
    requires Behaviour(c, h, sign, b) && i < |b|
    requires entityId == None ==>
               forall id :: id in b[i].calls && b[i].calls[id].row.table == table ==>
                   b[i].calls[id].row.entityId == None
    ensures Verifies(h, EntriesFor(CompleteLog(c, b[i].file), table, entityId), GENESIS_PRIOR_HASH)
  {
    Reachable(c, h, sign, b, i);
    P.InvSegmentsVerify(h, sign, Abs(c, b[i]), table, entityId);
  }

  /** The whole lines of the file are the entries of the calls that succeeded, one each. */
  lemma FileStoredIffSucceeded(c: Codec, h: Hasher, sign: Signer, b: seq<System>, i: nat)
    requires Behaviour(c, h, sign, b) && i < |b|
    ensures P.LogIsSuccesses(h, sign, Abs(c, b[i]))
  {
    Reachable(c, h, sign, b, i);
    P.InvStoredIffSucceeded(h, sign, Abs(c, b[i]));
  }

  /** Across processes too, each conflict is charged to an append of another call. */
  lemma FileConflictsAreCharged(c: Codec, h: Hasher, sign: Signer, b: seq<System>, i: nat, id: nat)
    requires Behaviour(c, h, sign, b) && i < |b| && id in b[i].calls
    ensures P.ConflictsCharged(Abs(c, b[i]), id)
  {
    Reachable(c, h, sign, b, i);
    P.InvConflictsAreCharged(h, sign, Abs(c, b[i]), id);
  }

  /** Every store, whatever it has seen, sits at a line boundary of the file
      with the fold of exactly the lines before it. */
  lemma StoresSitAtBoundaries(c: Codec, h: Hasher, sign: Signer, b: seq<System>, i: nat, store: nat)
    requires Behaviour(c, h, sign, b) && i < |b| && store in b[i].stores
    ensures exists n: nat :: n <= |CompleteLog(c, b[i].file)|
              && EncodeLog(c, CompleteLog(c, b[i].file)[..n]) <= b[i].file
              && b[i].stores[store].readOffset == |EncodeLog(c, CompleteLog(c, b[i].file)[..n])|
              && b[i].stores[store].index == Fold(EmptyIndex, CompleteLog(c, b[i].file)[..n])
  {
    Reachable(c, h, sign, b, i);
    assert AtBoundary(c, CompleteLog(c, b[i].file), b[i].stores[store]);
    var n: nat :| Consumed(c, CompleteLog(c, b[i].file), b[i].stores[store], n);
    BoundaryIsPrefix(c, b[i].file, n);
  }

  /** The lines of the first entries are the beginning of the file. */
  lemma BoundaryIsPrefix(c: Codec, file: seq<byte>, n: nat)
    requires FileOk(c, file) && n <= |CompleteLog(c, file)|
    ensures EncodeLog(c, CompleteLog(c, file)[..n]) <= file
  {
    var log := CompleteLog(c, file);
    assert log == log[..n] + log[n..];
    EncodeLogConcat(c, log[..n], log[n..]);
  }

  /** Behind a torn line the file is frozen, no store opens, and no call obtains
      a tail or stores an entry. */
  lemma TornStepFails(c: Codec, h: Hasher, sign: Signer, s: System, a: Action)
    requires ValidCodec(c) && Inv(c, s) && Enabled(c, h, sign, s, a)
    requires TornPart(s.file) != []
    ensures var t := Next(c, h, sign, s, a);
            && t.file == s.file && t.owners == s.owners && t.stores.Keys == s.stores.Keys
            && (a.ReadTail? || a.Swap? ==> t.calls[a.id].phase == P.Aborted)
            && !a.Crash?
  {
    match a
    case Open(_) =>
      var log, torn := CompleteLog(c, s.file), TornPart(s.file);
      TornHasNoNewline(s.file);
      assert Consumed(c, log, Unread, 0);
      RefreshFailsOnTornLine(c, log, torn, Unread, 0);
    case Begin(_, _, _, _) =>
    case ReadTail(id) => RefreshOutcome(c, s, s.homes[id]);
    case Swap(id) => RefreshOutcome(c, s, s.homes[id]);
    case Crash(id, _) => RefreshOutcome(c, s, s.homes[id]);
  }

  lemma TornStays(c: Codec, h: Hasher, sign: Signer, b: seq<System>, i: nat)
    requires Behaviour(c, h, sign, b) && i + 1 < |b| && TornPart(b[i].file) != []
    ensures b[i + 1].file == b[i].file && b[i + 1].owners == b[i].owners && b[i + 1].stores.Keys == b[i].stores.Keys
  {
    Reachable(c, h, sign, b, i);
    var a := ActionAt(c, h, sign, b, i);
    TornStepFails(c, h, sign, b[i], a);
  }

  /** Fail-stop: from the moment a line is torn the file never changes again. */
  lemma {:induction false} TornIsForever(c: Codec, h: Hasher, sign: Signer, b: seq<System>, i: nat, j: nat)
    requires Behaviour(c, h, sign, b) && i <= j < |b|
    requires TornPart(b[i].file) != []
    ensures b[j].file == b[i].file && b[j].owners == b[i].owners && b[j].stores.Keys == b[i].stores.Keys
    decreases j
  {
    if i < j {
      TornIsForever(c, h, sign, b, i, j - 1);
      TornStays(c, h, sign, b, j - 1);
    }
  }
}
