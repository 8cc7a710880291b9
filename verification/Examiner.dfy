/** The examiner bundle: evidence gathered by id across keys, a content hash
    over everything that explains a decision, and the proof that a bundle built
    later reproduces the one built at the time. */
module Examiner {
  import opened Options
  import opened Texts
  import opened Bitemporal
  import opened BitemporalStore
  import opened Policy
  import Json

  /** The fields that `content_hash` covers. */
  datatype Payload = Payload(
    schemaVersion: string,
    decision: Decision,
    policy: Option<Json.Value>,
    evidence: seq<Record>,
    asOf: Moment)

  datatype Bundle = Bundle(payload: Payload, contentHash: string, metadata: map<string, Json.Value>)

  type Hasher = Payload -> string

  const SCHEMA_VERSION := "1"

  // ---- Evidence ----

  /** All rows in the order of a scan: key by key, each in insertion order. */
  function Scan(t: Table, keys: seq<string>): seq<Record> {
    if keys == [] then [] else Scan(t, keys[..|keys| - 1]) + History(t, keys[|keys| - 1])
  }

  function AllRows(t: Table): seq<Record> {
    Scan(t, t.order)
  }

  datatype Gathered = Gathered(evidence: seq<Record>, wanted: set<string>)

  /** One row of the scan: taken if its id is still wanted. */
  function Take(g: Gathered, r: Record): Gathered {
    if r.recordId in g.wanted then Gathered(g.evidence + [r], g.wanted - {r.recordId}) else g
  }

  function Gather(rows: seq<Record>, wanted: set<string>): Gathered {
    if rows == [] then Gathered([], wanted) else Take(Gather(rows[..|rows| - 1], wanted), rows[|rows| - 1])
  }

  /** Rows whose ids are wanted, in scan order. */
  function Relevant(rows: seq<Record>, ids: set<string>): seq<Record> {
    if rows == [] then []
    else Relevant(rows[..|rows| - 1], ids) + if rows[|rows| - 1].recordId in ids then [rows[|rows| - 1]] else []
  }

  lemma GatherSnoc(rows: seq<Record>, r: Record, wanted: set<string>)
    ensures Gather(rows + [r], wanted) == Take(Gather(rows, wanted), r)
  {
    assert (rows + [r])[..|rows|] == rows;
  }

  lemma {:induction false} GatherConcat(a: seq<Record>, b: seq<Record>, wanted: set<string>)
    ensures Gather(a + b, wanted).wanted == Gather(b, Gather(a, wanted).wanted).wanted
    ensures Gather(a + b, wanted).evidence == Gather(a, wanted).evidence + Gather(b, Gather(a, wanted).wanted).evidence
  {
    if b == [] {
      assert a + b == a;
      assert Gather(a, wanted).evidence + [] == Gather(a, wanted).evidence;
    } else {
      var init, last := b[..|b| - 1], b[|b| - 1];
      GatherConcat(a, init, wanted);
      assert a + b == (a + init) + [last];
      GatherSnoc(a + init, last, wanted);
    }
  }

  /** What is gathered: the first row of each id that occurs, once; what stays
      wanted occurs nowhere. */
  lemma {:induction false} GatherFinds(rows: seq<Record>, wanted: set<string>)
    ensures var g := Gather(rows, wanted);
            && (forall i :: 0 <= i < |g.evidence| ==>
                g.evidence[i].recordId in wanted && g.evidence[i].recordId !in g.wanted)
            && UniqueIds(g.evidence)
            && g.wanted <= wanted && |g.evidence| + |g.wanted| == |wanted|
            && (forall id :: id in wanted && id !in g.wanted ==>
                exists i :: 0 <= i < |g.evidence| && g.evidence[i].recordId == id)
            && (forall i :: 0 <= i < |rows| ==> rows[i].recordId !in g.wanted)
  {
    if rows != [] {
      var init, last := rows[..|rows| - 1], rows[|rows| - 1];
      GatherFinds(init, wanted);
      var g, h := Gather(init, wanted), Gather(rows, wanted);
      if last.recordId in g.wanted {
        forall id | id in wanted && id !in h.wanted
          ensures exists i :: 0 <= i < |h.evidence| && h.evidence[i].recordId == id
        {
          if id == last.recordId {
            assert h.evidence[|g.evidence|].recordId == id;
          } else {
            var i :| 0 <= i < |g.evidence| && g.evidence[i].recordId == id;
            assert h.evidence[i].recordId == id;
          }
        }
      }
      forall i | 0 <= i < |rows| ensures rows[i].recordId !in h.wanted {
        if i < |init| { assert init[i].recordId !in g.wanted; }
      }
    }
  }

  /** `r` is the first of the rows with its id. */
  predicate IsFirst(rows: seq<Record>, r: Record) {
    exists k :: 0 <= k < |rows| && rows[k] == r && forall j :: 0 <= j < k ==> rows[j].recordId != r.recordId
  }

  lemma {:induction false} GatherTakesFirst(rows: seq<Record>, wanted: set<string>)
    ensures forall r :: r in Gather(rows, wanted).evidence ==> IsFirst(rows, r)
  {
    if rows != [] {
      var init, last := rows[..|rows| - 1], rows[|rows| - 1];
      GatherTakesFirst(init, wanted);
      GatherFinds(init, wanted);
      forall r | r in Gather(rows, wanted).evidence ensures IsFirst(rows, r) {
        if r in Gather(init, wanted).evidence {
          var k :| 0 <= k < |init| && init[k] == r && forall j :: 0 <= j < k ==> init[j].recordId != r.recordId;
          assert rows[k] == r && forall j :: 0 <= j < k ==> rows[j] == init[j];
        } else {
          assert rows[|init|] == r && forall j :: 0 <= j < |init| ==> rows[j] == init[j];
        }
      }
    }
  }

  /** Rows with other ids do not matter to the gathering. */
  lemma {:induction false} GatherIgnoresOthers(rows: seq<Record>, wanted: set<string>)
    ensures Gather(Relevant(rows, wanted), wanted) == Gather(rows, wanted)
  {
    if rows != [] {
      var init, last := rows[..|rows| - 1], rows[|rows| - 1];
      GatherIgnoresOthers(init, wanted);
      GatherFinds(init, wanted);
      if last.recordId in wanted {
        GatherSnoc(Relevant(init, wanted), last, wanted);
      } else {
        assert Relevant(rows, wanted) == Relevant(init, wanted);
      }
    }
  }

  lemma {:induction false} RelevantConcat(a: seq<Record>, b: seq<Record>, ids: set<string>)
    ensures Relevant(a + b, ids) == Relevant(a, ids) + Relevant(b, ids)
  {
    if b == [] {
      assert a + b == a;
    } else {
      var init, last := b[..|b| - 1], b[|b| - 1];
      RelevantConcat(a, init, ids);
      assert (a + b)[..|a + b| - 1] == a + init;
    }
  }

  lemma {:induction false} ScanIgnoresAppend(t: Table, r: Record, keys: seq<string>, ids: set<string>)
    requires Append(t, r).Some? && r.recordId !in ids
    ensures Relevant(Scan(Append(t, r).value, keys), ids) == Relevant(Scan(t, keys), ids)
  {
    if keys != [] {
      var u := Append(t, r).value;
      var init, last := keys[..|keys| - 1], keys[|keys| - 1];
      ScanIgnoresAppend(t, r, init, ids);
      RelevantConcat(Scan(u, init), History(u, last), ids);
      RelevantConcat(Scan(t, init), History(t, last), ids);
      if last == r.key {
        RelevantConcat(History(t, last), [r], ids);
        assert [r][..0] == [];
        var s := Relevant(History(t, last), ids);
        assert s + [] == s;
      }
    }
  }

  lemma {:induction false} UnrelatedAppendGathersAlike(t: Table, r: Record, ids: set<string>)
    requires WellFormed(t) && Append(t, r).Some? && r.recordId !in ids
    ensures Relevant(AllRows(Append(t, r).value), ids) == Relevant(AllRows(t), ids)
  {
    var u := Append(t, r).value;
    ScanIgnoresAppend(t, r, t.order, ids);
    if r.key !in t.rows {
      assert u.order[..|t.order|] == t.order;
      RelevantConcat(Scan(u, t.order), History(u, r.key), ids);
      OneIsIrrelevant(History(u, r.key), r, ids);
      assert Relevant(Scan(t, t.order), ids) + [] == Relevant(Scan(t, t.order), ids);
    }
  }

  lemma {:induction false} OneIsIrrelevant(rows: seq<Record>, r: Record, ids: set<string>)
    requires rows == [r] && r.recordId !in ids
    ensures Relevant(rows, ids) == []
  {
    assert rows[..0] == [];
  }

  /** Appending records with ids that nobody asked for changes no gathering. */
  lemma {:induction false} UnrelatedAppendsGatherAlike(t: Table, rs: seq<Record>, ids: set<string>)
    requires WellFormed(t) && forall i :: 0 <= i < |rs| ==> rs[i].recordId !in ids
    ensures Relevant(AllRows(AppendMany(t, rs).0), ids) == Relevant(AllRows(t), ids)
    decreases |rs|
  {
    if rs != [] && Append(t, rs[0]).Some? {
      AppendKeepsForm(t, rs[0]);
      UnrelatedAppendGathersAlike(t, rs[0], ids);
      UnrelatedAppendsGatherAlike(Append(t, rs[0]).value, rs[1..], ids);
    }
  }

  // ---- Sorting by record id ----

  /** Stable insertion, after equal ids. */
  function Insert(sorted: seq<Record>, r: Record): seq<Record> {
    if sorted == [] || !TextLess(r.recordId, sorted[|sorted| - 1].recordId) then sorted + [r]
    else Insert(sorted[..|sorted| - 1], r) + [sorted[|sorted| - 1]]
  }

  function SortById(rs: seq<Record>): seq<Record> {
    if rs == [] then [] else Insert(SortById(rs[..|rs| - 1]), rs[|rs| - 1])
  }

  /** Ids in strictly ascending order. */
  predicate Ascending(rs: seq<Record>) {
    forall i, j :: 0 <= i < j < |rs| ==> TextLess(rs[i].recordId, rs[j].recordId)
  }

  lemma {:induction false} InsertKeepsMembers(sorted: seq<Record>, r: Record)
    ensures multiset(Insert(sorted, r)) == multiset(sorted) + multiset{r}
  {
    if sorted != [] && TextLess(r.recordId, sorted[|sorted| - 1].recordId) {
      var init, last := sorted[..|sorted| - 1], sorted[|sorted| - 1];
      InsertKeepsMembers(init, r);
      assert sorted == init + [last];
    }
  }

  lemma {:induction false} InsertAscends(sorted: seq<Record>, r: Record)
    requires Ascending(sorted) && forall i :: 0 <= i < |sorted| ==> sorted[i].recordId != r.recordId
    ensures Ascending(Insert(sorted, r))
  {
    if sorted != [] {
      var init, last := sorted[..|sorted| - 1], sorted[|sorted| - 1];
      TextLessTotal(r.recordId, last.recordId);
      if TextLess(r.recordId, last.recordId) {
        InsertAscends(init, r);
        InsertKeepsMembers(init, r);
        var ins := Insert(init, r);
        forall i | 0 <= i < |ins| ensures TextLess(ins[i].recordId, last.recordId) {
          assert ins[i] in multiset(ins);
          assert ins[i] == r || ins[i] in init;
        }
      } else {
        forall i | 0 <= i < |sorted| ensures TextLess(sorted[i].recordId, r.recordId) {
          if i < |init| { TextLessTransitive(sorted[i].recordId, last.recordId, r.recordId); }
        }
      }
    }
  }

  lemma {:induction false} SortKeepsMembers(rs: seq<Record>)
    ensures multiset(SortById(rs)) == multiset(rs)
  {
    if rs != [] {
      SortKeepsMembers(rs[..|rs| - 1]);
      InsertKeepsMembers(SortById(rs[..|rs| - 1]), rs[|rs| - 1]);
      assert rs == rs[..|rs| - 1] + [rs[|rs| - 1]];
    }
  }

  lemma MemberOfSorted(rs: seq<Record>, r: Record)
    ensures r in SortById(rs) <==> r in rs
  {
    SortKeepsMembers(rs);
    assert r in SortById(rs) <==> r in multiset(SortById(rs));
    assert r in rs <==> r in multiset(rs);
  }

  /** Records with different ids come out in ascending order. */
  lemma {:induction false} SortAscends(rs: seq<Record>)
    requires UniqueIds(rs)
    ensures Ascending(SortById(rs))
  {
    if rs != [] {
      var init, last := rs[..|rs| - 1], rs[|rs| - 1];
      SortAscends(init);
      var sorted := SortById(init);
      forall i | 0 <= i < |sorted| ensures sorted[i].recordId != last.recordId {
        MemberOfSorted(init, sorted[i]);
        var k :| 0 <= k < |init| && init[k] == sorted[i];
        assert rs[k].recordId != rs[|rs| - 1].recordId;
      }
      InsertAscends(sorted, last);
    }
  }

  // ---- Building a bundle ----

  /** Built, or the ids that were not found. */
  datatype BuildResult = Built(bundle: Bundle) | MissingEvidence(ids: set<string>) | BadPolicyRow

  function RefSet(refs: seq<string>): set<string> {
    set i | 0 <= i < |refs| :: refs[i]
  }

  /** A bundle from the rows that a scan of any store yields and what any registry found. */
  function BuildFrom(hash: Hasher, d: Decision, rows: seq<Record>, found: Found, clamp: Moment,
                     metadata: map<string, Json.Value>): BuildResult {
    if found.Malformed? then BadPolicyRow
    else
      var policy := if found.Found? then Some(ToDict(found.policy)) else None;
      var g := Gather(rows, RefSet(d.evidenceRefs));
      if g.wanted != {} then MissingEvidence(g.wanted)
      else
        var payload := Payload(SCHEMA_VERSION, d, policy, SortById(g.evidence), clamp);
        Built(Bundle(payload, hash(payload), metadata))
  }

  function Build(hash: Hasher, d: Decision, evidence: Table, registry: Table, asOf: Option<Moment>,
                 metadata: map<string, Json.Value>): BuildResult {
    var clamp := asOf.GetOr(d.decidedAt);
    BuildFrom(hash, d, AllRows(evidence), Get(registry, d.policyId, Some(clamp), None), clamp, metadata)
  }

  lemma ScanOneMore(t: Table, keys: seq<string>, i: nat)
    requires i < |keys|
    ensures Scan(t, keys[..i + 1]) == Scan(t, keys[..i]) + History(t, keys[i])
  {
    assert keys[..i + 1][..i] == keys[..i] && keys[..i + 1][i] == keys[i];
  }

  /** The inner loop: one key's history after the rows scanned so far. */
  method GatherFrom(rows: seq<Record>, before: Gathered, ghost scanned: seq<Record>, ghost refs: set<string>)
    returns (after: Gathered)
    requires before == Gather(scanned, refs)
    ensures after == Gather(scanned + rows, refs)
  {
    var evidence, wanted := before.evidence, before.wanted;
    assert scanned + rows[..0] == scanned;
    for j := 0 to |rows|
      invariant Gathered(evidence, wanted) == Gather(scanned + rows[..j], refs)
    {
      GatherSnoc(scanned + rows[..j], rows[j], refs);
      assert scanned + rows[..j + 1] == (scanned + rows[..j]) + [rows[j]];
      if rows[j].recordId in wanted {
        evidence := evidence + [rows[j]];
        wanted := wanted - {rows[j].recordId};
      }
    }
    assert rows[..|rows|] == rows;
    return Gathered(evidence, wanted);
  }

  /** The nested loops over keys and histories. */
  method GatherEvidence(store: InMemoryBitemporalStore, refs: set<string>) returns (g: Gathered)
    ensures g == Gather(AllRows(store.Abs()), refs)
  {
    g := Gathered([], refs);
    var keys := store.order;
    ghost var t := store.Abs();
    for i := 0 to |keys|
      invariant g == Gather(Scan(t, keys[..i]), refs)
    {
      var rows := if keys[i] in store.rows then store.rows[keys[i]] else [];
      ScanOneMore(t, keys, i);
      g := GatherFrom(rows, g, Scan(t, keys[..i]), refs);
    }
    assert keys[..|keys|] == keys;
  }

  /** A scan reads the rows of its keys and no others. */
  lemma {:induction false} ScanReads(t: Table, keys: seq<string>, r: Record)
    ensures r in Scan(t, keys) <==> exists i :: 0 <= i < |keys| && r in History(t, keys[i])
  {
    if keys != [] {
      var init := keys[..|keys| - 1];
      ScanReads(t, init, r);
      assert forall i :: 0 <= i < |init| ==> keys[i] == init[i];
    }
  }

  /** Some row of the store has this id. */
  ghost predicate IdStored(t: Table, id: string) {
    exists key: string :: HasId(History(t, key), id)
  }

  lemma ScannedIdIsStored(t: Table, i: nat)
    requires i < |AllRows(t)|
    ensures IdStored(t, AllRows(t)[i].recordId)
  {
    var r := AllRows(t)[i];
    ScanReads(t, t.order, r);
    var k :| 0 <= k < |t.order| && r in History(t, t.order[k]);
    var j :| 0 <= j < |History(t, t.order[k])| && History(t, t.order[k])[j] == r;
    assert HasId(History(t, t.order[k]), r.recordId);
  }

  lemma StoredIdIsScanned(t: Table, key: string, j: nat)
    requires WellFormed(t) && j < |History(t, key)|
    ensures HasId(AllRows(t), History(t, key)[j].recordId)
  {
    var r := History(t, key)[j];
    var k :| 0 <= k < |t.order| && t.order[k] == key;
    ScanReads(t, t.order, r);
    var m :| 0 <= m < |AllRows(t)| && AllRows(t)[m] == r;
  }

  lemma AllRowsHaveId(t: Table, id: string)
    requires WellFormed(t)
    ensures HasId(AllRows(t), id) <==> IdStored(t, id)
  {
    if HasId(AllRows(t), id) {
      var i :| 0 <= i < |AllRows(t)| && AllRows(t)[i].recordId == id;
      ScannedIdIsStored(t, i);
    }
    if IdStored(t, id) {
      var key: string :| HasId(History(t, key), id);
      var j :| 0 <= j < |History(t, key)| && History(t, key)[j].recordId == id;
      StoredIdIsScanned(t, key, j);
    }
  }

  /** One record per reference, the first stored with its id, ascending by id. */
  ghost predicate AreTheRefs(rows: seq<Record>, evidence: seq<Record>, refs: seq<string>) {
    && Ascending(evidence)
    && (forall i :: 0 <= i < |evidence| ==> evidence[i].recordId in refs && IsFirst(rows, evidence[i]))
    && (forall id :: id in refs ==> exists i :: 0 <= i < |evidence| && evidence[i].recordId == id)
  }

  /** A bundle's evidence is exactly one record per reference, ascending by id. */
  lemma EvidenceIsTheRefs(hash: Hasher, d: Decision, evidence: Table, registry: Table, asOf: Option<Moment>,
                          metadata: map<string, Json.Value>)
    requires Build(hash, d, evidence, registry, asOf, metadata).Built?
    ensures AreTheRefs(AllRows(evidence), Build(hash, d, evidence, registry, asOf, metadata).bundle.payload.evidence,
                       d.evidenceRefs)
  {
    var ids := RefSet(d.evidenceRefs);
    var g := Gather(AllRows(evidence), ids);
    GatherFinds(AllRows(evidence), ids);
    SortAscends(g.evidence);
    var rs := SortById(g.evidence);
    GatherTakesFirst(AllRows(evidence), ids);
    forall i | 0 <= i < |rs| ensures rs[i].recordId in d.evidenceRefs && IsFirst(AllRows(evidence), rs[i]) {
      MemberOfSorted(g.evidence, rs[i]);
      var k :| 0 <= k < |g.evidence| && g.evidence[k] == rs[i];
    }
    forall id | id in d.evidenceRefs ensures exists i :: 0 <= i < |rs| && rs[i].recordId == id {
      assert id in ids;
      var k :| 0 <= k < |g.evidence| && g.evidence[k].recordId == id;
      MemberOfSorted(g.evidence, g.evidence[k]);
      var i :| 0 <= i < |rs| && rs[i] == g.evidence[k];
    }
  }

  /** A build fails exactly on the references that no stored row has. */
  lemma MissingAreAbsent(hash: Hasher, d: Decision, evidence: Table, registry: Table, asOf: Option<Moment>,
                         metadata: map<string, Json.Value>)
    requires WellFormed(evidence) && Build(hash, d, evidence, registry, asOf, metadata).MissingEvidence?
    ensures var ids := Build(hash, d, evidence, registry, asOf, metadata).ids;
            ids != {} && forall id :: id in ids <==> id in d.evidenceRefs && !IdStored(evidence, id)
  {
    var ids := Build(hash, d, evidence, registry, asOf, metadata).ids;
    var rows, g := AllRows(evidence), Gather(AllRows(evidence), RefSet(d.evidenceRefs));
    GatherFinds(rows, RefSet(d.evidenceRefs));
    GatherTakesFirst(rows, RefSet(d.evidenceRefs));
    forall id ensures id in ids <==> id in d.evidenceRefs && !IdStored(evidence, id) {
      AllRowsHaveId(evidence, id);
      assert id in RefSet(d.evidenceRefs) <==> id in d.evidenceRefs;
      if id in d.evidenceRefs && id !in ids {
        var k :| 0 <= k < |g.evidence| && g.evidence[k].recordId == id;
        assert g.evidence[k] in g.evidence;
        assert HasId(rows, id);
      }
    }
  }

  /** What a build answers: the decision as given, the clamp, the policy of the
      newest row that the clamp shows, one stored record per reference, and the hash
      of all that; or the references that no stored row has; or that the policy's
      row is no policy. */
  ghost predicate BuildAnswers(hash: Hasher, d: Decision, evidence: Table, registry: Table, asOf: Option<Moment>,
                               metadata: map<string, Json.Value>, i: nat, result: BuildResult) {
    var clamp := if asOf.Some? then asOf.value else d.decidedAt;
    var rows := History(registry, "policy:" + d.policyId);
    match result
    case Built(Bundle(payload, contentHash, meta)) =>
      && payload.schemaVersion == "1" && payload.decision == d && payload.asOf == clamp && meta == metadata
      && contentHash == hash(payload)
      && (payload.policy == None <==> forall j :: 0 <= j < |rows| ==> !Shown(rows[j], Some(clamp), None))
      && (payload.policy.Some? ==> IsNewest(rows, i, Some(clamp), None) && FromDict(rows[i].value).Some?
                                   && payload.policy == Some(ToDict(FromDict(rows[i].value).value)))
      && AreTheRefs(AllRows(evidence), payload.evidence, d.evidenceRefs)
    case MissingEvidence(ids) =>
      ids != {} && forall id :: id in ids <==> id in d.evidenceRefs && !IdStored(evidence, id)
    case BadPolicyRow => IsNewest(rows, i, Some(clamp), None) && FromDict(rows[i].value) == None
  }

  lemma BuildMeans(hash: Hasher, d: Decision, evidence: Table, registry: Table, asOf: Option<Moment>,
                   metadata: map<string, Json.Value>)
    returns (i: nat)
    requires WellFormed(evidence)
    ensures BuildAnswers(hash, d, evidence, registry, asOf, metadata, i,
                         Build(hash, d, evidence, registry, asOf, metadata))
  {
    var clamp := if asOf.Some? then asOf.value else d.decidedAt;
    var result := Build(hash, d, evidence, registry, asOf, metadata);
    i := GetMeans(registry, d.policyId, Some(clamp), None);
    if result.Built? {
      EvidenceIsTheRefs(hash, d, evidence, registry, asOf, metadata);
    } else if result.MissingEvidence? {
      MissingAreAbsent(hash, d, evidence, registry, asOf, metadata);
    }
  }

  method BuildBundle(hash: Hasher, d: Decision, evidenceStore: InMemoryBitemporalStore,
                     registry: InMemoryBitemporalStore,
                     asOf: Option<Moment>, metadata: map<string, Json.Value>)
    returns (result: BuildResult)
    ensures result == Build(hash, d, evidenceStore.Abs(), registry.Abs(), asOf, metadata)
    ensures WellFormed(evidenceStore.Abs()) ==>
      exists i :: BuildAnswers(hash, d, evidenceStore.Abs(), registry.Abs(), asOf, metadata, i, result)
  {
    if WellFormed(evidenceStore.Abs()) {
      ghost var i := BuildMeans(hash, d, evidenceStore.Abs(), registry.Abs(), asOf, metadata);
    }
    var clamp := asOf.GetOr(d.decidedAt);
    var row := registry.AsOf(KEY_PREFIX + d.policyId, Some(clamp), None);
    var policy := None;
    if row.Some? {
      var p := FromDict(row.value.value);
      if p == None {
        return BadPolicyRow;
      }
      policy := Some(ToDict(p.value));
    }
    var g := GatherEvidence(evidenceStore, RefSet(d.evidenceRefs));
    if g.wanted != {} {
      return MissingEvidence(g.wanted);
    }
    var payload := Payload(SCHEMA_VERSION, d, policy, SortById(g.evidence), clamp);
    return Built(Bundle(payload, hash(payload), metadata));
  }

  // ---- Replay ----

  /** Examiner replay: a decision routed and stamped as of T gets the same bundle
      later, whatever the registry learned about the policy after T and whatever
      records with other ids the evidence store received; and the bundled policy,
      read back, selects what was selected. */
  lemma {:induction false} ExaminerReplay(hash: Hasher, router: Router, context: Context, refs: seq<string>,
                       tx: Moment, id: string,
                       registry: Table, evidence: Table, published: seq<Record>, learned: seq<Record>,
                       metadata: map<string, Json.Value>)
    requires Published(registry) && WellFormed(evidence)
    requires Route(registry, router, context, refs, Some(tx), tx, id).Routed?
    requires forall i :: 0 <= i < |published| && published[i].key == KEY_PREFIX + router.policyId
                         ==> published[i].transactionTime > tx
    requires forall i :: 0 <= i < |learned| ==> learned[i].recordId !in refs
    requires var d := Route(registry, router, context, refs, Some(tx), tx, id).decision;
             Build(hash, d, evidence, registry, None, metadata).Built?
    ensures var d := Route(registry, router, context, refs, Some(tx), tx, id).decision;
            var evidence', registry' := AppendMany(evidence, learned).0, AppendMany(registry, published).0;
            var bundled := Build(hash, d, evidence, registry, None, metadata);
            var later := Build(hash, d, evidence', registry', None, metadata);
            && later == bundled
            && bundled.bundle.payload.policy.Some? && FromDict(bundled.bundle.payload.policy.value).Some?
            && Select(FromDict(bundled.bundle.payload.policy.value).value, d.context)
               == Some(Evaluation(d.selected, d.matchedRuleId, d.policyId, d.policyVersion, d.rationale))
  {
    var d := Route(registry, router, context, refs, Some(tx), tx, id).decision;
    FoundHasItsId(registry, router.policyId, Some(tx), None);
    var p := Get(registry, router.policyId, Some(tx), None).policy;
    SelectNamesPolicy(p, context, 0);
    LaterAppendsKeepPolicy(registry, published, router.policyId, tx, None);
    PolicyRoundTrip(p);
    var ids := RefSet(refs);
    UnrelatedAppendsGatherAlike(evidence, learned, ids);
    GatherIgnoresOthers(AllRows(evidence), ids);
    GatherIgnoresOthers(AllRows(AppendMany(evidence, learned).0), ids);
  }

  /** A decision routed without the clamp and stamped T is bundled with the policy
      that decided it if and only if the policy's newest row was learned by T, or
      the row as of T carries an equal policy; and then it is a decision routed as
      of T, to which the replay theorem applies. */
  lemma UnclampedReplayIff(hash: Hasher, router: Router, context: Context, refs: seq<string>, tx: Moment, id: string,
                           registry: Table, evidence: Table, metadata: map<string, Json.Value>, built: BuildResult)
    requires Published(registry) && Route(registry, router, context, refs, None, tx, id).Routed?
    requires var d := Route(registry, router, context, refs, None, tx, id).decision;
             built == Build(hash, d, evidence, registry, None, metadata)
    requires built.Built?
    ensures PolicyRow(registry, router.policyId, None).Some?
    ensures Get(registry, router.policyId, None, None).Found?
    ensures built.bundle.payload.policy == Some(ToDict(Get(registry, router.policyId, None, None).policy))
            <==> SamePolicyAsOf(registry, router.policyId, tx)
    ensures SamePolicyAsOf(registry, router.policyId, tx) ==>
              Route(registry, router, context, refs, None, tx, id)
              == Route(registry, router, context, refs, Some(tx), tx, id)
  {
    var policy := Get(registry, router.policyId, None, None).policy;
    FoundHasItsId(registry, router.policyId, None, None);
    SelectNamesPolicy(policy, context, 0);
    UnclampedLookupIff(registry, router.policyId, tx);
    PolicyRoundTrip(policy);
    var clamped := Get(registry, router.policyId, Some(tx), None);
    if clamped.Found? {
      PolicyRoundTrip(clamped.policy);
    }
    if SamePolicyAsOf(registry, router.policyId, tx) {
      UnclampedRouteIsClamped(registry, router, context, refs, tx, id);
    }
  }

  /** The registry after publishing `p`, learned at `tp`, and then `q`, learned at `tq`. */
  function TwoPublications(p: PolicyVersion, q: PolicyVersion, tp: Moment, tq: Moment): Table {
    AppendMany(EmptyTable, [Publication(p, tp, tp, "registry", "1"), Publication(q, tp, tq, "registry", "2")]).0
  }

  lemma TwoPublicationsAnswers(p: PolicyVersion, q: PolicyVersion, tp: Moment, tq: Moment, tx: Moment)
    requires p.policyId == q.policyId && tp <= tx < tq
    ensures Get(TwoPublications(p, q, tp, tq), p.policyId, Some(tx), None) == Found(p)
    ensures Get(TwoPublications(p, q, tp, tq), p.policyId, None, None) == Found(q)
  {
    var r, s := Publication(p, tp, tp, "registry", "1"), Publication(q, tp, tq, "registry", "2");
    var one := Append(EmptyTable, r).value;
    assert [r, s][1..] == [s] && [s][1..] == [];
    assert AppendMany(one, [s]) == (Append(one, s).value, true);
    assert History(TwoPublications(p, q, tp, tq), r.key) == [r] + [s];
    OnlyRow([r], r, Some(tx));
    OnlyRow([r], r, None);
    NewerRow([r], r, s, tx);
    PolicyRoundTrip(p);
    PolicyRoundTrip(q);
  }

  /** A newer row answers, unless the clamp hides it. */
  lemma {:induction false} NewerRow(rows: seq<Record>, r: Record, s: Record, tx: Moment)
    requires r.transactionTime <= tx < s.transactionTime
    requires AsOfRows(rows, Some(tx), None) == AsOfRows(rows, None, None) == Some(r)
    ensures AsOfRows(rows + [s], Some(tx), None) == Some(r) && AsOfRows(rows + [s], None, None) == Some(s)
  {
    FilterSnoc(rows, s, Some(tx), None);
    FilterSnoc(rows, s, None, None);
  }

  lemma {:induction false} OnlyRow(rows: seq<Record>, r: Record, tx: Clamp)
    requires rows == [r] && Within(r.transactionTime, tx)
    ensures AsOfRows(rows, tx, None) == Some(r)
  {
    var none := rows[..0];
    assert none + [r] == rows;
    FilterSnoc(none, r, tx, None);
  }

  /** Replay needs the as-of clamp at routing: a router that is not clamped uses a
      policy dated into the future, and the bundle shows another one. */
  lemma FutureDatedPolicyBreaksReplay(hash: Hasher, router: Router, context: Context, tx: Moment, id: string,
                                      evidence: Table,
                                      p: PolicyVersion, q: PolicyVersion, tp: Moment, tq: Moment)
    requires p.policyId == q.policyId == router.policyId && p.version != q.version && tp <= tx < tq
    requires Route(TwoPublications(p, q, tp, tq), router, context, [], None, tx, id).Routed?
    ensures var d := Route(TwoPublications(p, q, tp, tq), router, context, [], None, tx, id).decision;
            var built := Build(hash, d, evidence, TwoPublications(p, q, tp, tq), None, map[]);
            d.policyVersion == q.version && built.Built? && built.bundle.payload.policy == Some(ToDict(p))
  {
    var d := Route(TwoPublications(p, q, tp, tq), router, context, [], None, tx, id).decision;
    TwoPublicationsAnswers(p, q, tp, tq, tx);
    SelectNamesPolicy(q, context, 0);
    GatherFinds(AllRows(evidence), RefSet(d.evidenceRefs));
    assert RefSet([]) == {};
  }

  lemma {:induction false} SelectNamesPolicy(p: PolicyVersion, context: Context, i: nat)
    requires i <= |p.rules|
    ensures SelectFrom(p, context, i).Some? ==>
              SelectFrom(p, context, i).value.policyId == p.policyId
              && SelectFrom(p, context, i).value.policyVersion == p.version
    decreases |p.rules| - i
  {
    if i < |p.rules| {
      SelectNamesPolicy(p, context, i + 1);
    }
  }

  // ---- Verifying ----

  predicate Verify(hash: Hasher, b: Bundle) {
    hash(b.payload) == b.contentHash
  }

  /** Two bundles with one content hash tell of the same decision, clamp, policy
      and evidence, or their payloads collide. */
  lemma ContentHashPinsBundle(hash: Hasher, a: Bundle, b: Bundle)
    requires Verify(hash, a) && Verify(hash, b) && a.contentHash == b.contentHash
    ensures || (a.payload.decision == b.payload.decision && a.payload.asOf == b.payload.asOf
                && a.payload.policy == b.payload.policy && a.payload.evidence == b.payload.evidence)
            || (a.payload != b.payload && hash(a.payload) == hash(b.payload))
  {
  }

  /** A bundle that an examiner received verifies and carries the content hash of
      a bundle rebuilt later.  Then it is the bundle of the time, payload for
      payload, or the two payloads are a collision of the hash. */
  lemma {:induction false} ReceivedBundleIsOriginal(hash: Hasher, router: Router, context: Context, refs: seq<string>,
                                 tx: Moment, id: string,
                                 registry: Table, evidence: Table, published: seq<Record>, learned: seq<Record>,
                                 metadata: map<string, Json.Value>, received: Bundle)
    requires Published(registry) && WellFormed(evidence)
    requires Route(registry, router, context, refs, Some(tx), tx, id).Routed?
    requires forall i :: 0 <= i < |published| && published[i].key == KEY_PREFIX + router.policyId
                         ==> published[i].transactionTime > tx
    requires forall i :: 0 <= i < |learned| ==> learned[i].recordId !in refs
    requires var d := Route(registry, router, context, refs, Some(tx), tx, id).decision;
             Build(hash, d, evidence, registry, None, metadata).Built?
    ensures var d := Route(registry, router, context, refs, Some(tx), tx, id).decision;
            var original := Build(hash, d, evidence, registry, None, metadata).bundle;
            var evidence', registry' := AppendMany(evidence, learned).0, AppendMany(registry, published).0;
            var later := Build(hash, d, evidence', registry', None, metadata);
            && later.Built? && Verify(hash, later.bundle)
            && (Verify(hash, received) && received.contentHash == later.bundle.contentHash
                && received.payload != original.payload
                ==> hash(received.payload) == hash(original.payload))
  {
    ExaminerReplay(hash, router, context, refs, tx, id, registry, evidence, published, learned, metadata);
  }
}
