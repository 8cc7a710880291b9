/** Examiner bundles over SQLite stores: a scan reads keys in another order, and
    each history in the order of its times, but builds the same bundle. */
module SqliteEvidence {
  import opened Options
  import opened Sequences
  import opened Texts
  import opened Instants
  import opened Bitemporal
  import opened Sqlite
  import opened SqliteHistory
  import opened Policy
  import opened Examiner
  import B = BitemporalStore
  import Ingest
  import Json

  // ---- The order of a scan does not matter ----

  predicate SameMembers(a: seq<Record>, b: seq<Record>) {
    (forall r :: r in a ==> r in b) && forall r :: r in b ==> r in a
  }

  lemma UniqueIdsHaveNoRepeats(rows: seq<Record>)
    requires UniqueIds(rows)
    ensures NoRepeats(rows)
  {
  }

  lemma {:induction false} GatherTakesRows(rows: seq<Record>, wanted: set<string>)
    ensures forall r :: r in Gather(rows, wanted).evidence ==> r in rows
  {
    if rows != [] {
      var init, last := rows[..|rows| - 1], rows[|rows| - 1];
      assert rows == init + [last];
      GatherTakesRows(init, wanted);
    }
  }

  /** From rows with different ids, gathering takes exactly the wanted ones. */
  lemma GatherOfUnique(rows: seq<Record>, wanted: set<string>)
    requires UniqueIds(rows)
    ensures UniqueIds(Gather(rows, wanted).evidence)
    ensures forall r :: r in Gather(rows, wanted).evidence <==> r in rows && r.recordId in wanted
    ensures forall id :: id in Gather(rows, wanted).wanted <==> id in wanted && !HasId(rows, id)
  {
    var g := Gather(rows, wanted);
    GatherFinds(rows, wanted);
    GatherTakesRows(rows, wanted);
    forall r | r in rows && r.recordId in wanted ensures r in g.evidence {
      var k :| 0 <= k < |rows| && rows[k] == r;
      assert r.recordId !in g.wanted;
      var i :| 0 <= i < |g.evidence| && g.evidence[i].recordId == r.recordId;
      assert g.evidence[i] in rows;
      var m :| 0 <= m < |rows| && rows[m] == g.evidence[i];
    }
    forall r | r in g.evidence ensures r.recordId in wanted {
      var i :| 0 <= i < |g.evidence| && g.evidence[i] == r;
    }
    forall id | id in wanted && id !in g.wanted ensures HasId(rows, id) {
      var i :| 0 <= i < |g.evidence| && g.evidence[i].recordId == id;
      assert g.evidence[i] in rows;
      var m :| 0 <= m < |rows| && rows[m] == g.evidence[i];
    }
  }

  predicate ById(r: Record, s: Record) {
    TextLess(r.recordId, s.recordId)
  }

  lemma AscendingIsOrdered(rs: seq<Record>)
    requires Ascending(rs)
    ensures Ordered(ById, rs) && NoTies(ById, rs)
  {
    forall i, j | 0 <= i < j < |rs| ensures !ById(rs[j], rs[i]) {
      TextLessAsymmetric(rs[i].recordId, rs[j].recordId);
    }
  }

  /** Sorting by id forgets the order in which rows came. */
  lemma SortForgetsOrder(a: seq<Record>, b: seq<Record>)
    requires UniqueIds(a) && UniqueIds(b) && SameMembers(a, b)
    ensures SortById(a) == SortById(b)
  {
    SameMembersPermute(a, b);
    SortKeepsMembers(a);
    SortKeepsMembers(b);
    SortAscends(a);
    SortAscends(b);
    AscendingIsOrdered(SortById(a));
    AscendingIsOrdered(SortById(b));
    OrderIsUnique(ById, SortById(a), SortById(b));
  }

  /** Two scans with different ids, of the same wanted records, build the same bundle. */
  lemma BuildForgetsOrder(hash: Hasher, d: Decision, a: seq<Record>, b: seq<Record>, found: Found, clamp: Moment,
                          metadata: map<string, Json.Value>)
    requires UniqueIds(a) && UniqueIds(b)
    requires forall r: Record :: r.recordId in d.evidenceRefs ==> (r in a <==> r in b)
    ensures BuildFrom(hash, d, a, found, clamp, metadata) == BuildFrom(hash, d, b, found, clamp, metadata)
  {
    var refs := RefSet(d.evidenceRefs);
    GatherOfUnique(a, refs);
    GatherOfUnique(b, refs);
    var x, y := Gather(a, refs), Gather(b, refs);
    forall r: Record ensures r in x.evidence <==> r in y.evidence {
      assert r.recordId in refs <==> r.recordId in d.evidenceRefs;
    }
    forall id ensures id in x.wanted <==> id in y.wanted {
      if id in refs {
        assert id in d.evidenceRefs;
        HasIdAlike(a, b, id);
      }
    }
    SortForgetsOrder(x.evidence, y.evidence);
  }

  lemma HasIdAlike(a: seq<Record>, b: seq<Record>, id: string)
    requires forall r: Record :: r.recordId == id ==> (r in a <==> r in b)
    ensures HasId(a, id) <==> HasId(b, id)
  {
    if HasId(a, id) {
      var i :| 0 <= i < |a| && a[i].recordId == id;
      assert a[i] in b;
    }
    if HasId(b, id) {
      var i :| 0 <= i < |b| && b[i].recordId == id;
      assert b[i] in a;
    }
  }

  // ---- Scanning a table ----

  function RecordsOf(rows: seq<Row>): (rs: seq<Record>)
    ensures |rs| == |rows| && forall i :: 0 <= i < |rows| ==> rs[i] == rows[i].record
  {
    seq(|rows|, i requires 0 <= i < |rows| => rows[i].record)
  }

  function Flat(parts: seq<seq<Record>>): seq<Record> {
    if parts == [] then [] else Flat(parts[..|parts| - 1]) + parts[|parts| - 1]
  }

  function Parts(keys: seq<string>, history: string -> seq<Row>): (parts: seq<seq<Record>>)
    ensures |parts| == |keys| && forall i :: 0 <= i < |keys| ==> parts[i] == RecordsOf(history(keys[i]))
  {
    seq(|keys|, i requires 0 <= i < |keys| => RecordsOf(history(keys[i])))
  }

  /** `history` of every key that `keys` returned, in turn. */
  function ScanRows(keys: seq<string>, history: string -> seq<Row>): seq<Record> {
    Flat(Parts(keys, history))
  }

  predicate KeyStored(rs: seq<Record>, key: string) {
    exists i :: 0 <= i < |rs| && rs[i].key == key
  }

  /** `SELECT DISTINCT key`, and for each key an answer of the history query. */
  ghost predicate IsScan(rs: seq<Record>, keys: seq<string>, history: string -> seq<Row>)
    requires AllStorable(rs)
  {
    && NoRepeats(keys) && (forall k: string :: k in keys <==> KeyStored(rs, k))
    && forall k: string {:trigger history(k)} :: k in keys ==> IsHistory(Rows(rs), k, history(k))
  }

  lemma {:induction false} RecordsOfKeyAre(rs: seq<Record>, key: string)
    ensures forall r :: r in RecordsOfKey(rs, key) <==> r in rs && r.key == key
    ensures NoRepeats(rs) ==> NoRepeats(RecordsOfKey(rs, key))
  {
    if rs != [] {
      var init, last := rs[..|rs| - 1], rs[|rs| - 1];
      assert rs == init + [last];
      RecordsOfKeyAre(init, key);
      if NoRepeats(rs) {
        assert last !in init;
      }
    }
  }

  /** A history holds each record of its key once. */
  lemma HistoryMembers(rs: seq<Record>, key: string, h: seq<Row>)
    requires AllStorable(rs) && NoRepeats(rs) && IsHistory(Rows(rs), key, h)
    ensures forall r :: r in RecordsOf(h) <==> r in rs && r.key == key
    ensures NoRepeats(RecordsOf(h))
  {
    var found := RecordsOfKey(rs, key);
    RecordsOfKeyAre(rs, key);
    RowsOfKeyAreRecords(rs, key);
    assert RecordsOf(Rows(found)) == found;
    RecordsPermute(Rows(found), h);
  }

  /** A permutation of rows with different records. */
  lemma RecordsPermute(rows: seq<Row>, h: seq<Row>)
    requires NoRepeats(RecordsOf(rows)) && multiset(h) == multiset(rows)
    ensures forall r :: r in RecordsOf(h) <==> r in RecordsOf(rows)
    ensures NoRepeats(RecordsOf(h))
  {
    RowsDiffer(rows);
    PermutationHasNoRepeats(h, rows);
    forall row ensures row in h <==> row in rows {
      assert row in h <==> row in multiset(h);
      assert row in rows <==> row in multiset(rows);
    }
    forall i, j | 0 <= i < j < |h| ensures h[i].record != h[j].record {
      assert h[i] in rows && h[j] in rows;
      var x :| 0 <= x < |rows| && rows[x] == h[i];
      var y :| 0 <= y < |rows| && rows[y] == h[j];
      assert RecordsOf(rows)[x] == h[i].record && RecordsOf(rows)[y] == h[j].record;
    }
    RecordsOfMembers(rows, h);
    RecordsOfMembers(h, rows);
  }

  lemma RowsDiffer(rows: seq<Row>)
    requires NoRepeats(RecordsOf(rows))
    ensures NoRepeats(rows)
  {
    forall i, j | 0 <= i < j < |rows| ensures rows[i] != rows[j] {
      assert RecordsOf(rows)[i] != RecordsOf(rows)[j];
    }
  }

  lemma RecordsOfMembers(a: seq<Row>, b: seq<Row>)
    requires forall row :: row in a ==> row in b
    ensures forall r :: r in RecordsOf(a) ==> r in RecordsOf(b)
  {
    forall r | r in RecordsOf(a) ensures r in RecordsOf(b) {
      var i :| 0 <= i < |a| && RecordsOf(a)[i] == r;
      assert a[i] in b;
      var k :| 0 <= k < |b| && b[k] == a[i];
      assert RecordsOf(b)[k] == r;
    }
  }

  /** What a key's history must be for a scan to read each record of these keys once. */
  ghost predicate PartOk(rs: seq<Record>, key: string, part: seq<Record>) {
    NoRepeats(part) && forall r :: r in part <==> r in rs && r.key == key
  }

  lemma {:induction false} ScanReads(rs: seq<Record>, keys: seq<string>, parts: seq<seq<Record>>)
    requires NoRepeats(keys) && |keys| == |parts| && forall i :: 0 <= i < |keys| ==> PartOk(rs, keys[i], parts[i])
    ensures forall r :: r in Flat(parts) <==> r in rs && r.key in keys
    ensures NoRepeats(Flat(parts))
  {
    if keys != [] {
      var n := |keys| - 1;
      assert keys == keys[..n] + [keys[n]] && keys[n] !in keys[..n];
      ScanReads(rs, keys[..n], parts[..n]);
      assert PartOk(rs, keys[n], parts[n]);
      ConcatHasNoRepeats(Flat(parts[..n]), parts[n]);
    }
  }

  lemma ConcatHasNoRepeats(a: seq<Record>, b: seq<Record>)
    requires NoRepeats(a) && NoRepeats(b) && forall r :: r in a ==> r !in b
    ensures NoRepeats(a + b)
  {
    var c := a + b;
    forall i, j | 0 <= i < j < |c| ensures c[i] != c[j] {
      if i < |a| <= j {
        assert c[i] in a && c[j] in b;
      }
    }
  }

  /** A scan of a table reads every committed record, once. */
  lemma ScanReadsTable(rs: seq<Record>, keys: seq<string>, history: string -> seq<Row>)
    requires AllStorable(rs) && UniqueIds(rs) && IsScan(rs, keys, history)
    ensures SameMembers(ScanRows(keys, history), rs) && UniqueIds(ScanRows(keys, history))
  {
    UniqueIdsHaveNoRepeats(rs);
    forall i | 0 <= i < |keys| ensures PartOk(rs, keys[i], Parts(keys, history)[i]) {
      assert keys[i] in keys;
      HistoryMembers(rs, keys[i], history(keys[i]));
    }
    ScanReads(rs, keys, Parts(keys, history));
    forall r | r in rs ensures r.key in keys {
      var i :| 0 <= i < |rs| && rs[i] == r;
      assert KeyStored(rs, r.key);
    }
    SubsetKeepsIds(rs, ScanRows(keys, history));
  }

  lemma SubsetKeepsIds(rs: seq<Record>, part: seq<Record>)
    requires UniqueIds(rs) && NoRepeats(part) && forall r :: r in part ==> r in rs
    ensures UniqueIds(part)
  {
    forall i, j | 0 <= i < j < |part| ensures part[i].recordId != part[j].recordId {
      assert part[i] in rs && part[j] in rs;
      var x :| 0 <= x < |rs| && rs[x] == part[i];
      var y :| 0 <= y < |rs| && rs[y] == part[j];
    }
  }

  /** The primary key makes ids unique in the whole table. */
  lemma {:induction false} AdmissibleIdsAreUnique(table: seq<Row>, rs: seq<Record>)
    requires AllStorable(rs) && AllAdmissible(table, rs)
    ensures UniqueIds(rs) && forall i :: 0 <= i < |rs| ==> !HasRowId(table, rs[i].recordId)
    decreases |rs|
  {
    if rs != [] {
      var rest := rs[1..];
      AdmissibleIdsAreUnique(table + [ToRow(rs[0])], rest);
      forall i | 0 <= i < |rest| ensures rest[i].recordId != rs[0].recordId && !HasRowId(table, rest[i].recordId) {
        NotStoredBefore(table, ToRow(rs[0]), rest[i].recordId);
      }
      UniqueCons(rs);
    }
  }

  lemma UniqueCons(rs: seq<Record>)
    requires rs != [] && UniqueIds(rs[1..])
    requires forall i :: 0 <= i < |rs[1..]| ==> rs[1..][i].recordId != rs[0].recordId
    ensures UniqueIds(rs) && forall i :: 0 < i < |rs| ==> rs[i] == rs[1..][i - 1]
  {
  }

  lemma NotStoredBefore(table: seq<Row>, row: Row, id: string)
    requires !HasRowId(table + [row], id)
    ensures !HasRowId(table, id) && row.record.recordId != id
  {
    assert (table + [row])[|table|] == row;
    assert forall i :: 0 <= i < |table| ==> (table + [row])[i] == table[i];
  }

  // ---- Scanning the in-memory store ----

  function MemoryParts(t: B.Table, keys: seq<string>): (parts: seq<seq<Record>>)
    ensures |parts| == |keys| && forall i :: 0 <= i < |keys| ==> parts[i] == B.History(t, keys[i])
  {
    seq(|keys|, i requires 0 <= i < |keys| => B.History(t, keys[i]))
  }

  lemma {:induction false} ScanIsFlat(t: B.Table, keys: seq<string>)
    ensures Scan(t, keys) == Flat(MemoryParts(t, keys))
  {
    if keys != [] {
      var n := |keys| - 1;
      ScanIsFlat(t, keys[..n]);
      assert MemoryParts(t, keys)[..n] == MemoryParts(t, keys[..n]);
    }
  }

  lemma {:induction false} KeysStayDistinct(t: B.Table, rs: seq<Record>)
    requires B.WellFormed(t) && NoRepeats(t.order)
    ensures B.WellFormed(B.AppendMany(t, rs).0) && NoRepeats(B.AppendMany(t, rs).0.order)
    decreases |rs|
  {
    if rs != [] && B.Append(t, rs[0]).Some? {
      B.AppendKeepsForm(t, rs[0]);
      KeysStayDistinct(B.Append(t, rs[0]).value, rs[1..]);
    }
  }

  /** The scan of an in-memory store reads every accepted record, once. */
  lemma ScanReadsMemory(a: seq<Record>, t: B.Table)
    requires UniqueIds(a) && B.AppendMany(B.EmptyTable, a).1 && t == B.AppendMany(B.EmptyTable, a).0
    ensures SameMembers(AllRows(t), a) && UniqueIds(AllRows(t))
  {
    KeysStayDistinct(B.EmptyTable, a);
    forall i | 0 <= i < |t.order| ensures PartOk(a, t.order[i], MemoryParts(t, t.order)[i]) {
      Ingest.AcceptedAreStored(B.EmptyTable, a, t.order[i]);
      IdsStayUnique(B.EmptyTable, a, t.order[i]);
    }
    ScanReads(a, t.order, MemoryParts(t, t.order));
    ScanIsFlat(t, t.order);
    forall r | r in a ensures r.key in t.order {
      Ingest.AcceptedAreStored(B.EmptyTable, a, r.key);
    }
    SubsetKeepsIds(a, AllRows(t));
  }

  // ---- Bundles ----

  /** Evidence read from a SQLite table makes the bundle that the in-memory store
      makes from the same records, accepted in any order. */
  lemma SqliteBundleAgrees(hash: Hasher, d: Decision, batches: seq<seq<Record>>, keys: seq<string>,
                           history: string -> seq<Row>, a: seq<Record>, found: Found, clamp: Moment,
                           metadata: map<string, Json.Value>)
    requires AllBatchesStorable(batches) && IsScan(Committed(batches), keys, history)
    requires UniqueIds(a) && B.AppendMany(B.EmptyTable, a).1 && SameMembers(a, Committed(batches))
    ensures BuildFrom(hash, d, ScanRows(keys, history), found, clamp, metadata)
            == BuildFrom(hash, d, AllRows(B.AppendMany(B.EmptyTable, a).0), found, clamp, metadata)
  {
    var t := B.AppendMany(B.EmptyTable, a).0;
    BatchesAreOneTransaction(batches);
    AdmissibleIdsAreUnique([], Committed(batches));
    ScanReadsTable(Committed(batches), keys, history);
    ScanReadsMemory(a, t);
    BuildForgetsOrder(hash, d, ScanRows(keys, history), AllRows(t), found, clamp, metadata);
  }

  predicate NoneNamed(batch: seq<Record>, ids: seq<string>) {
    forall i :: 0 <= i < |batch| ==> batch[i].recordId !in ids
  }

  /** Transactions of records with other ids, committed or not, change nothing among these ids. */
  lemma {:induction false} OtherBatchesCommit(batches: seq<seq<Record>>, more: seq<seq<Record>>, all: seq<seq<Record>>,
                                              ids: seq<string>)
    requires AllBatchesStorable(batches) && AllBatchesStorable(all) && all == batches + more
    requires forall i :: 0 <= i < |more| ==> NoneNamed(more[i], ids)
    ensures forall r: Record :: r.recordId in ids ==> (r in Committed(all) <==> r in Committed(batches))
  {
    if more == [] {
      assert all == batches;
    } else {
      var init, last := all[..|all| - 1], all[|all| - 1];
      assert init == batches + more[..|more| - 1] && last == more[|more| - 1];
      OtherBatchesCommit(batches, more[..|more| - 1], init, ids);
      LastBatch(all, init, last);
      forall r: Record | r.recordId in ids ensures r in Committed(all) <==> r in Committed(init) {
        assert r !in last;
      }
    }
  }

  lemma {:induction false} LastBatch(all: seq<seq<Record>>, init: seq<seq<Record>>, last: seq<Record>)
    requires all != [] && AllBatchesStorable(all) && init == all[..|all| - 1] && last == all[|all| - 1]
    ensures AllBatchesStorable(init)
    ensures Committed(all) == Committed(init) || Committed(all) == Committed(init) + last
  {
  }

  /** Replay over SQLite: after any further transactions of records that the
      decision does not name, evidence read again makes the same bundle. */
  lemma SqliteReplay(hash: Hasher, d: Decision, batches: seq<seq<Record>>, more: seq<seq<Record>>, keys: seq<string>,
                     history: string -> seq<Row>, keys': seq<string>, history': string -> seq<Row>, found: Found,
                     clamp: Moment, metadata: map<string, Json.Value>)
    requires AllBatchesStorable(batches) && AllBatchesStorable(batches + more)
    requires forall i :: 0 <= i < |more| ==> NoneNamed(more[i], d.evidenceRefs)
    requires IsScan(Committed(batches), keys, history) && IsScan(Committed(batches + more), keys', history')
    ensures BuildFrom(hash, d, ScanRows(keys', history'), found, clamp, metadata)
            == BuildFrom(hash, d, ScanRows(keys, history), found, clamp, metadata)
  {
    BatchesAreOneTransaction(batches);
    BatchesAreOneTransaction(batches + more);
    AdmissibleIdsAreUnique([], Committed(batches));
    AdmissibleIdsAreUnique([], Committed(batches + more));
    ScanReadsTable(Committed(batches), keys, history);
    ScanReadsTable(Committed(batches + more), keys', history');
    OtherBatchesCommit(batches, more, batches + more, d.evidenceRefs);
    BuildForgetsOrder(hash, d, ScanRows(keys', history'), ScanRows(keys, history), found, clamp, metadata);
  }

  /** A registry over SQLite finds what one over the in-memory store finds, when
      no two rows of the policy share a sort key. */
  lemma SqlitePolicyAgrees(a: seq<Record>, batches: seq<seq<Record>>, policyId: string, tx: Moment, found: Option<Row>)
    requires AllBatchesStorable(batches) && IsMoment(tx)
    requires B.AppendMany(B.EmptyTable, a).1 && forall r :: r in a <==> r in Committed(batches)
    requires IsSelected(AfterBatches(batches), KEY_PREFIX + policyId, Some(tx), None, found)
    requires var bucket := B.History(B.AppendMany(B.EmptyTable, a).0, KEY_PREFIX + policyId);
             Ingest.DistinctKeys(bucket) && AllProper(bucket)
    ensures ReadPolicy(if found == None then None else Some(found.value.record))
            == Get(B.AppendMany(B.EmptyTable, a).0, policyId, Some(tx), None)
  {
    var key := KEY_PREFIX + policyId;
    var bucket := B.History(B.AppendMany(B.EmptyTable, a).0, key);
    SqliteAgrees(a, batches, key, bucket, Some(tx), None, found);
    if found.Some? {
      ProperNeverTies(bucket, AsOfRows(bucket, Some(tx), None).value);
    }
  }
}
