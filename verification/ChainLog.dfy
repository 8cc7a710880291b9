/** The shared log of hash-chain entries: segment tails, the in-memory store
    and the compare-and-swap retry loop of `append_row`. */
module ChainLog {
  import opened Options
  import opened HashChain

  /** Whether an entry lies in the (table, entity) segment; no entity means the whole table. */
  predicate InSegment(e: HashChainEntry, table: string, entityId: Option<string>) {
    e.table == table && (entityId == None || e.entityId == entityId)
  }

  /** The index of the most recent entry of a segment, or -1. */
  function LastIndex(log: seq<HashChainEntry>, table: string, entityId: Option<string>): (i: int)
    ensures -1 <= i < |log|
    ensures i >= 0 ==> InSegment(log[i], table, entityId)
    ensures forall j :: i < j < |log| ==> !InSegment(log[j], table, entityId)
  {
    if log == [] then -1
    else if InSegment(log[|log| - 1], table, entityId) then |log| - 1
    else LastIndex(log[..|log| - 1], table, entityId)
  }

  function Tail(log: seq<HashChainEntry>, table: string, entityId: Option<string>): Hash {
    var i := LastIndex(log, table, entityId);
    if i < 0 then GENESIS_PRIOR_HASH else log[i].hash
  }

  function EntriesFor(log: seq<HashChainEntry>, table: string, entityId: Option<string>): seq<HashChainEntry> {
    if log == [] then []
    else EntriesFor(log[..|log| - 1], table, entityId)
         + if InSegment(log[|log| - 1], table, entityId) then [log[|log| - 1]] else []
  }

  lemma {:induction false} LastIndexSnoc(log: seq<HashChainEntry>, e: HashChainEntry, table: string,
                                         entityId: Option<string>)
    ensures LastIndex(log + [e], table, entityId)
            == if InSegment(e, table, entityId) then |log| else LastIndex(log, table, entityId)
    ensures Tail(log + [e], table, entityId)
            == if InSegment(e, table, entityId) then e.hash else Tail(log, table, entityId)
  {
    assert (log + [e])[..|log|] == log;
  }

  lemma {:induction false} EntriesForSnoc(log: seq<HashChainEntry>, e: HashChainEntry, table: string,
                                          entityId: Option<string>)
    ensures EntriesFor(log + [e], table, entityId)
            == EntriesFor(log, table, entityId) + if InSegment(e, table, entityId) then [e] else []
  {
    assert (log + [e])[..|log|] == log;
  }

  /** The reverse scan finds the end hash of the segment's slice. */
  lemma {:induction false} TailEndsSegment(log: seq<HashChainEntry>, table: string, entityId: Option<string>)
    ensures Tail(log, table, entityId) == EndHash(EntriesFor(log, table, entityId), GENESIS_PRIOR_HASH)
  {
    if log != [] {
      var init, e := log[..|log| - 1], log[|log| - 1];
      assert log == init + [e];
      TailEndsSegment(init, table, entityId);
      LastIndexSnoc(init, e, table, entityId);
      EntriesForSnoc(init, e, table, entityId);
      if !InSegment(e, table, entityId) {
        assert EntriesFor(log, table, entityId) == EntriesFor(init, table, entityId);
      }
    }
  }

  // ---- Logs written only through the compare-and-swap ----

  /** Each entry was hashed over the tail its segment had when it landed. */
  predicate WellChained(h: Hasher, log: seq<HashChainEntry>) {
    log == [] ||
    (var init, e := log[..|log| - 1], log[|log| - 1];
     WellChained(h, init) && e.priorHash == Tail(init, e.table, e.entityId) && e.hash == ComputeEntryHash(h, e))
  }

  lemma {:induction false} WellChainedSnoc(h: Hasher, log: seq<HashChainEntry>, e: HashChainEntry)
    ensures WellChained(h, log + [e])
            <==> WellChained(h, log) && e.priorHash == Tail(log, e.table, e.entityId)
                 && e.hash == ComputeEntryHash(h, e)
  {
    assert (log + [e])[..|log|] == log;
  }

  /** Every partition of a table verifies from genesis, whatever else the table
      holds; so does a whole table, if nothing in it names a partition. */
  lemma {:induction false} SegmentVerifies(h: Hasher, log: seq<HashChainEntry>, table: string, entityId: Option<string>)
    requires WellChained(h, log)
    requires entityId == None ==> forall e :: e in log && e.table == table ==> e.entityId == None
    ensures Verifies(h, EntriesFor(log, table, entityId), GENESIS_PRIOR_HASH)
  {
    if log != [] {
      var init, e := log[..|log| - 1], log[|log| - 1];
      assert log == init + [e];
      SegmentVerifies(h, init, table, entityId);
      TailEndsSegment(init, table, entityId);
      EntriesForSnoc(init, e, table, entityId);
      if InSegment(e, table, entityId) {
        assert e in log;
        VerifiesSnoc(h, EntriesFor(init, table, entityId), e, GENESIS_PRIOR_HASH);
      } else {
        assert EntriesFor(log, table, entityId) == EntriesFor(init, table, entityId);
      }
    }
  }

  predicate DistinctHashes(log: seq<HashChainEntry>) {
    (forall i :: 0 <= i < |log| ==> log[i].hash != GENESIS_PRIOR_HASH)
    && forall i, j :: 0 <= i < j < |log| ==> log[i].hash != log[j].hash
  }

  lemma {:induction false} EntryOfWellChained(h: Hasher, log: seq<HashChainEntry>, i: nat)
    requires WellChained(h, log) && i < |log|
    ensures log[i].priorHash == Tail(log[..i], log[i].table, log[i].entityId)
    ensures log[i].hash == ComputeEntryHash(h, log[i])
  {
    if i < |log| - 1 {
      EntryOfWellChained(h, log[..|log| - 1], i);
      assert log[..|log| - 1][..i] == log[..i];
    }
  }

  /** The tail of a segment that has an entry is the hash of its last one. */
  lemma TailOfEntry(log: seq<HashChainEntry>, n: nat, i: nat, table: string, entityId: Option<string>) returns (k: nat)
    requires i < n <= |log| && InSegment(log[i], table, entityId)
    ensures i <= k < n && Tail(log[..n], table, entityId) == log[k].hash
  {
    var last := LastIndex(log[..n], table, entityId);
    assert log[..n][i] == log[i];
    return last;
  }

  /** Two entries with one hash were chained to one tail, and so on back to genesis. */
  lemma {:induction false} HashesNeverRepeat(h: Hasher, log: seq<HashChainEntry>, i: nat, j: nat)
    requires WellChained(h, log) && Collisionless(h, log, GENESIS_PRIOR_HASH)
    requires i < j < |log|
    ensures log[i].hash != log[j].hash
    decreases j
  {
    if log[i].hash == log[j].hash {
      var e := log[i];
      EntryOfWellChained(h, log, i);
      EntryOfWellChained(h, log, j);
      assert EntryInput(e) == EntryInput(log[j]);
      var k := TailOfEntry(log, j, i, e.table, e.entityId);
      var m := LastIndex(log[..i], e.table, e.entityId);
      if m >= 0 {
        HashesNeverRepeat(h, log, m, k);
      }
    }
  }

  /** Absent a collision and an entry that hashes to genesis, no hash repeats in
      a whole log, whatever tables and partitions it mixes. */
  lemma CollisionlessHashesDiffer(h: Hasher, log: seq<HashChainEntry>)
    requires WellChained(h, log) && Collisionless(h, log, GENESIS_PRIOR_HASH)
    ensures DistinctHashes(log)
  {
    forall i, j | 0 <= i < j < |log| ensures log[i].hash != log[j].hash {
      HashesNeverRepeat(h, log, i, j);
    }
  }

  /** In a table slice, a partition entry follows an entry of its own partition or comes first. */
  predicate PartitionsLead(slice: seq<HashChainEntry>) {
    forall i {:trigger slice[i].entityId} :: 0 < i < |slice| && slice[i].entityId != None ==>
        slice[i].entityId == slice[i - 1].entityId
  }

  /** A table that mixes partitions and null entities verifies as one chain
      exactly when one partition comes first and null entities follow it. */
  lemma MixedTableVerifiesIff(h: Hasher, log: seq<HashChainEntry>, table: string)
    requires WellChained(h, log) && Collisionless(h, log, GENESIS_PRIOR_HASH)
    ensures Verifies(h, EntriesFor(log, table, None), GENESIS_PRIOR_HASH)
            <==> PartitionsLead(EntriesFor(log, table, None))
  {
    CollisionlessHashesDiffer(h, log);
    DistinctMixedTableVerifiesIff(h, log, table, EntriesFor(log, table, None));
  }

  /** The slice is empty or ends in the partition, if one is given. */
  predicate EndsIn(slice: seq<HashChainEntry>, entityId: Option<string>) {
    slice != [] && entityId != None ==> entityId == slice[|slice| - 1].entityId
  }

  /** The tail of a partition ends the table's slice exactly when the slice ends in that partition. */
  lemma TailEndsTableIff(log: seq<HashChainEntry>, table: string, entityId: Option<string>, slice: seq<HashChainEntry>)
    requires DistinctHashes(log) && slice == EntriesFor(log, table, None)
    ensures Tail(log, table, entityId) == EndHash(slice, GENESIS_PRIOR_HASH) <==> EndsIn(slice, entityId)
  {
    TailEndsSegment(log, table, None);
    LastOfSlice(log, table);
    var i, j := LastIndex(log, table, entityId), LastIndex(log, table, None);
    assert i <= j;
    assert Tail(log, table, entityId) == Tail(log, table, None) <==> i == j;
  }

  lemma {:induction false} DistinctMixedTableVerifiesIff(h: Hasher, log: seq<HashChainEntry>, table: string,
                                                         slice: seq<HashChainEntry>)
    requires WellChained(h, log) && DistinctHashes(log) && slice == EntriesFor(log, table, None)
    ensures Verifies(h, slice, GENESIS_PRIOR_HASH) == PartitionsLead(slice)
  {
    if log != [] {
      var init, e := log[..|log| - 1], log[|log| - 1];
      var before := EntriesFor(init, table, None);
      DistinctPrefix(log);
      DistinctMixedTableVerifiesIff(h, init, table, before);
      SliceOfLast(log, table, slice, before);
      MixedStep(h, init, e, table, before, slice);
    }
  }

  lemma DistinctPrefix(log: seq<HashChainEntry>)
    requires log != [] && DistinctHashes(log)
    ensures DistinctHashes(log[..|log| - 1])
  {
  }

  lemma {:induction false} MixedStep(h: Hasher, init: seq<HashChainEntry>, e: HashChainEntry, table: string,
                                     before: seq<HashChainEntry>, slice: seq<HashChainEntry>)
    requires DistinctHashes(init) && before == EntriesFor(init, table, None)
    requires e.priorHash == Tail(init, e.table, e.entityId) && e.hash == ComputeEntryHash(h, e)
    requires e.table == table ==> slice == before + [e]
    requires e.table != table ==> slice == before
    requires Verifies(h, before, GENESIS_PRIOR_HASH) == PartitionsLead(before)
    ensures Verifies(h, slice, GENESIS_PRIOR_HASH) == PartitionsLead(slice)
  {
    if e.table == table {
      TailEndsTableIff(init, table, e.entityId, before);
      MixedSliceSnoc(h, before, e, slice);
    }
  }

  lemma {:induction false} SliceOfLast(log: seq<HashChainEntry>, table: string, slice: seq<HashChainEntry>,
                                       before: seq<HashChainEntry>)
    requires log != [] && slice == EntriesFor(log, table, None)
    requires before == EntriesFor(log[..|log| - 1], table, None)
    ensures log[|log| - 1].table == table ==> slice == before + [log[|log| - 1]]
    ensures log[|log| - 1].table != table ==> slice == before
  {
    assert before + [] == before;
  }

  lemma MixedSliceSnoc(h: Hasher, slice: seq<HashChainEntry>, e: HashChainEntry, after: seq<HashChainEntry>)
    requires after == slice + [e] && e.hash == ComputeEntryHash(h, e)
    requires e.priorHash == EndHash(slice, GENESIS_PRIOR_HASH) <==> EndsIn(slice, e.entityId)
    ensures Verifies(h, slice, GENESIS_PRIOR_HASH) == PartitionsLead(slice) ==>
              Verifies(h, after, GENESIS_PRIOR_HASH) == PartitionsLead(after)
  {
    VerifiesSnoc(h, slice, e, GENESIS_PRIOR_HASH);
    PartitionsLeadSnoc(slice, e);
  }

  lemma LastOfSlice(log: seq<HashChainEntry>, table: string)
    ensures var slice, j := EntriesFor(log, table, None), LastIndex(log, table, None);
            if j < 0 then slice == [] else slice != [] && slice[|slice| - 1] == log[j]
  {
  }

  lemma PartitionsLeadSnoc(slice: seq<HashChainEntry>, e: HashChainEntry)
    ensures PartitionsLead(slice + [e])
            <==> PartitionsLead(slice) && EndsIn(slice, e.entityId)
  {
    var s := slice + [e];
    assert forall i :: 0 <= i < |slice| ==> s[i] == slice[i];
    assert s[|slice|] == e;
    if PartitionsLead(s) {
      assert forall i :: 0 <= i < |slice| ==> s[i].entityId == slice[i].entityId;
    }
  }

  // ---- The in-memory store ----

  /** One step of the reverse scan either finds the tail or passes an entry of another segment. */
  lemma {:induction false} ScanStep(log: seq<HashChainEntry>, i: nat, table: string, entityId: Option<string>)
    requires i < |log| && LastIndex(log, table, entityId) <= i
    ensures InSegment(log[i], table, entityId) ==> Tail(log, table, entityId) == log[i].hash
    ensures !InSegment(log[i], table, entityId) ==> LastIndex(log, table, entityId) < i
  {
  }

  class InMemoryHashChainStore {
    var entries: seq<HashChainEntry>

    constructor ()
      ensures entries == []
    {
      entries := [];
    }

    /** The reverse scan. */
    method TailLocked(table: string, entityId: Option<string>) returns (hash: Hash)
      ensures hash == EndHash(EntriesFor(entries, table, entityId), GENESIS_PRIOR_HASH)
      ensures hash == Tail(entries, table, entityId)
    {
      TailEndsSegment(entries, table, entityId);
      ghost var last := LastIndex(entries, table, entityId);
      var i := |entries|;
      while i > 0
        invariant 0 <= i <= |entries| && last < i
      {
        i := i - 1;
        var entry := entries[i];
        ScanStep(entries, i, table, entityId);
        if InSegment(entry, table, entityId) {
          return entry.hash;
        }
      }
      return GENESIS_PRIOR_HASH;
    }

    /** Compare-and-swap: the entry lands exactly when it names the segment's tail. */
    method Append(entry: HashChainEntry) returns (ok: bool)
      modifies this
      ensures ok <==> entry.priorHash == Tail(old(entries), entry.table, entry.entityId)
      ensures entries == if ok then old(entries) + [entry] else old(entries)
    {
      var tail := TailLocked(entry.table, entry.entityId);
      if entry.priorHash != tail {
        return false;
      }
      entries := entries + [entry];
      return true;
    }

    method LastEntryHash(table: string, entityId: Option<string>) returns (hash: Hash)
      ensures hash == Tail(entries, table, entityId)
    {
      hash := TailLocked(table, entityId);
    }

    method EntriesOf(table: string, entityId: Option<string>) returns (slice: seq<HashChainEntry>)
      ensures slice == EntriesFor(entries, table, entityId)
    {
      slice := [];
      for i := 0 to |entries|
        invariant slice == EntriesFor(entries[..i], table, entityId)
      {
        assert entries[..i + 1] == entries[..i] + [entries[i]];
        EntriesForSnoc(entries[..i], entries[i], table, entityId);
        if InSegment(entries[i], table, entityId) {
          slice := slice + [entries[i]];
        }
      }
      assert entries[..|entries|] == entries;
    }
  }

  // ---- append_row ----

  /** What a caller asks to have chained; the payload is already hashed. */
  datatype Row = Row(
    table: string,
    rowId: string,
    entityId: Option<string>,
    observedAt: DateTime,
    recordedAt: DateTime,
    payloadHash: Hash,
    supersedes: Option<string>)

  type Signer = Hash -> Option<string>

  function MakeEntry(h: Hasher, sign: Signer, row: Row, prior: Hash): (e: HashChainEntry)
    ensures e.priorHash == prior && e.hash == ComputeEntryHash(h, e)
    ensures e.table == row.table && e.entityId == row.entityId && e.rowId == row.rowId
    ensures e.observedAt == row.observedAt && e.recordedAt == row.recordedAt
    ensures e.payloadHash == row.payloadHash && e.supersedes == row.supersedes && e.signature == sign(e.hash)
  {
    var unhashed := HashChainEntry(row.rowId, row.table, row.entityId, row.observedAt, row.recordedAt,
                                   row.payloadHash, row.supersedes, prior, "", None);
    var hash := ComputeEntryHash(h, unhashed);
    unhashed.(hash := hash, signature := sign(hash))
  }

  /** The retry loop against a store that others write to: before attempt `i`
      reads the tail they try to append `early[i]`, and between that read and the
      swap `late[i]`.  Whatever they try, an accepted row is chained to the tail
      at the moment it lands, and a call that gives up lost every attempt to a
      different entry of its own segment. */
  method AppendRow(store: InMemoryHashChainStore, h: Hasher, sign: Signer, row: Row, maxAttempts: nat,
                   early: seq<seq<HashChainEntry>>, late: seq<seq<HashChainEntry>>)
    returns (entry: Option<HashChainEntry>)
    requires |early| == |late| == maxAttempts
    modifies store
    ensures old(store.entries) <= store.entries
    ensures entry.Some? ==>
      exists before :: old(store.entries) <= before && store.entries == before + [entry.value]
                       && entry.value == MakeEntry(h, sign, row, Tail(before, row.table, row.entityId))
    ensures entry == None ==>
      |EntriesFor(store.entries, row.table, row.entityId)|
      >= |EntriesFor(old(store.entries), row.table, row.entityId)| + maxAttempts
    ensures maxAttempts > 0 && late[0] == [] ==>
      entry.Some? && (early[0] == [] ==> |store.entries| == |old(store.entries)| + 1)
  {
    for attempt := 0 to maxAttempts
      invariant old(store.entries) <= store.entries
      invariant |EntriesFor(store.entries, row.table, row.entityId)|
             >= |EntriesFor(old(store.entries), row.table, row.entityId)| + attempt
      invariant attempt > 0 ==> late[0] != []
      invariant attempt == 0 ==> store.entries == old(store.entries)
    {
      ghost var start := store.entries;
      Interfere(store, early[attempt]);
      ghost var read := store.entries;
      var prior := store.LastEntryHash(row.table, row.entityId);
      var e := MakeEntry(h, sign, row, prior);
      Interfere(store, late[attempt]);
      ghost var before := store.entries;
      var ok := store.Append(e);
      if ok {
        assert store.entries == before + [e];
        return Some(e);
      }
      MovedTailMeansGrowth(start, read, row.table, row.entityId);
      MovedTailMeansGrowth(read, before, row.table, row.entityId);
    }
    return None;
  }

  /** What other writers try to append, accepted or not. */
  method Interfere(store: InMemoryHashChainStore, others: seq<HashChainEntry>)
    modifies store
    ensures old(store.entries) <= store.entries
    ensures others == [] ==> store.entries == old(store.entries)
  {
    for k := 0 to |others|
      invariant old(store.entries) <= store.entries
      invariant k == 0 ==> store.entries == old(store.entries)
    {
      var landed := store.Append(others[k]);
    }
  }

  /** A tail changes only when its segment gains an entry. */
  lemma {:induction false} MovedTailMeansGrowth(before: seq<HashChainEntry>, after: seq<HashChainEntry>,
                                               table: string, entityId: Option<string>)
    requires before <= after
    ensures EntriesFor(before, table, entityId) <= EntriesFor(after, table, entityId)
    ensures Tail(before, table, entityId) != Tail(after, table, entityId)
            ==> |before| <= LastIndex(after, table, entityId)
                && |EntriesFor(before, table, entityId)| < |EntriesFor(after, table, entityId)|
  {
    if before == after {
    } else {
      var init, e := after[..|after| - 1], after[|after| - 1];
      assert after == init + [e] && before <= init;
      MovedTailMeansGrowth(before, init, table, entityId);
      LastIndexSnoc(init, e, table, entityId);
    }
  }

  /** The log after two appends to different partitions of one table. */
  function TwoPartitions(h: Hasher, sign: Signer, a: Row, b: Row): seq<HashChainEntry> {
    [MakeEntry(h, sign, a, GENESIS_PRIOR_HASH), MakeEntry(h, sign, b, GENESIS_PRIOR_HASH)]
  }

  /** Under any hasher, two partitions of one table never verify as one chain,
      although each append passed the compare-and-swap, unless the first entry
      hashes to genesis. */
  lemma TwoPartitionsNeverVerify(h: Hasher, sign: Signer, a: Row, b: Row)
    requires a.table == b.table && a.entityId.Some? && b.entityId.Some? && a.entityId != b.entityId
    requires TwoPartitions(h, sign, a, b)[0].hash != GENESIS_PRIOR_HASH
    ensures WellChained(h, TwoPartitions(h, sign, a, b))
    ensures !Verifies(h, EntriesFor(TwoPartitions(h, sign, a, b), a.table, None), GENESIS_PRIOR_HASH)
  {
    var e, f := MakeEntry(h, sign, a, GENESIS_PRIOR_HASH), MakeEntry(h, sign, b, GENESIS_PRIOR_HASH);
    var none: seq<HashChainEntry> := [];
    assert none + [e] == [e] && [e] + [f] == TwoPartitions(h, sign, a, b);
    WellChainedSnoc(h, none, e);
    LastIndexSnoc(none, e, b.table, b.entityId);
    WellChainedSnoc(h, [e], f);
    EntriesForSnoc(none, e, a.table, None);
    EntriesForSnoc([e], f, a.table, None);
    var slice := EntriesFor([e] + [f], a.table, None);
    assert slice == [e] + [f];
    assert !LinkAt(h, slice, GENESIS_PRIOR_HASH, 1);
  }
}
