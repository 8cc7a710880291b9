/** Append-only corrections: what they record, how they supersede, and the
    lineage that runs of corrections build. */
module Corrections {
  import opened Options
  import opened Bitemporal
  import opened BitemporalStore
  import Json

  datatype Failure = NotNewer | DuplicateId

  datatype Corrected = Corrected(record: Record) | Failed(why: Failure)

  /** What the caller gives; `id` is the fresh uuid and `now` the wall clock. */
  datatype Request = Request(
    value: Json.Value,
    source: Option<string>,
    transactionTime: Option<Moment>,
    metadata: map<string, Json.Value>,
    decision: Option<string>,
    id: string,
    now: Moment)

  /** The record that corrects `original`. */
  function Correction(original: Record, q: Request): Record {
    var metadata := original.metadata + q.metadata;
    Record(
      q.id,
      original.key,
      original.validTime,
      q.transactionTime.GetOr(q.now),
      q.value,
      if q.source.Some? && q.source.value != "" then q.source else original.source,
      q.decision,
      original.sourceTrustLevel,
      Some(original.recordId),
      if "correction_of" in metadata then metadata else metadata["correction_of" := Json.Text(original.recordId)])
  }

  /** What a correction says: the value and decision asked for, about the key and
      valid time of the original, which it names as its parent. */
  predicate Corrects(c: Record, original: Record, q: Request) {
    && c.recordId == q.id && c.value == q.value && c.decision == q.decision
    && c.key == original.key && c.validTime == original.validTime && c.parentRecordId == Some(original.recordId)
    && c.transactionTime == (if q.transactionTime.Some? then q.transactionTime.value else q.now)
    && c.source == (if q.source.GetOr("") == "" then original.source else q.source)
    && c.sourceTrustLevel == original.sourceTrustLevel
    && c.metadata.Keys == original.metadata.Keys + q.metadata.Keys + {"correction_of"}
    && (forall k :: k in q.metadata ==> c.metadata[k] == q.metadata[k])
    && (forall k :: k in original.metadata && k !in q.metadata ==> c.metadata[k] == original.metadata[k])
    && ("correction_of" !in original.metadata.Keys + q.metadata.Keys ==>
          c.metadata["correction_of"] == Json.Text(original.recordId))
  }

  /** Appends a correction strictly newer than what it corrects, or changes nothing. */
  method AppendCorrection(store: InMemoryBitemporalStore, original: Record, q: Request) returns (result: Corrected)
    modifies store
    ensures match result
            case Corrected(c) =>
              c == Correction(original, q) && Corrects(c, original, q) && c.transactionTime > original.transactionTime
              && Append(old(store.Abs()), c) == Some(store.Abs())
            case Failed(NotNewer) =>
              Correction(original, q).transactionTime <= original.transactionTime && store.Abs() == old(store.Abs())
            case Failed(DuplicateId) =>
              HasId(History(old(store.Abs()), original.key), q.id) && store.Abs() == old(store.Abs())
  {
    var metadata := original.metadata;
    metadata := metadata + q.metadata;
    if "correction_of" !in metadata {
      metadata := metadata["correction_of" := Json.Text(original.recordId)];
    }
    var correction := Record(
      q.id, original.key, original.validTime, q.transactionTime.GetOr(q.now), q.value,
      if q.source.Some? && q.source.value != "" then q.source else original.source,
      q.decision, original.sourceTrustLevel, Some(original.recordId), metadata);
    assert correction == Correction(original, q);
    if correction.transactionTime <= original.transactionTime {
      return Failed(NotNewer);
    }
    var ok := store.Add(correction);
    if !ok {
      return Failed(DuplicateId);
    }
    return Corrected(correction);
  }

  // ---- Lineage ----

  /** Row `p` is the one that row `i` names as its parent, whichever was stored first. */
  predicate IsParent(rows: seq<Record>, i: nat, p: nat)
    requires i < |rows| && p < |rows|
  {
    rows[i].parentRecordId == Some(rows[p].recordId)
  }

  /** `r` supersedes `o`: the same key and valid time, and learned strictly later. */
  predicate Supersedes(r: Record, o: Record) {
    r.key == o.key && r.validTime == o.validTime && o.transactionTime < r.transactionTime
  }

  predicate LinkOk(rows: seq<Record>, i: nat, p: nat)
    requires i < |rows| && p < |rows|
  {
    IsParent(rows, i, p) ==> Supersedes(rows[i], rows[p])
  }

  /** Every row supersedes the stored row that it names as its parent. */
  predicate Lineage(rows: seq<Record>) {
    && UniqueIds(rows)
    && forall i, p {:trigger LinkOk(rows, i, p)} :: 0 <= i < |rows| && 0 <= p < |rows| ==> LinkOk(rows, i, p)
  }

  predicate HasStoredParent(rows: seq<Record>, i: nat)
    requires i < |rows|
  {
    exists p :: 0 <= p < |rows| && IsParent(rows, i, p)
  }

  /** Row `i` has no parent, or a stored one. */
  predicate AnchoredAt(rows: seq<Record>, i: nat)
    requires i < |rows|
  {
    rows[i].parentRecordId == None || HasStoredParent(rows, i)
  }

  predicate Anchored(rows: seq<Record>) {
    forall i {:trigger AnchoredAt(rows, i)} :: 0 <= i < |rows| ==> AnchoredAt(rows, i)
  }

  /** A new row does not name itself, is newer than what it corrects, and older
      than what already corrects it. */
  predicate Fits(rows: seq<Record>, r: Record) {
    && r.parentRecordId != Some(r.recordId)
    && (forall p :: 0 <= p < |rows| && r.parentRecordId == Some(rows[p].recordId) ==> Supersedes(r, rows[p]))
    && (forall i :: 0 <= i < |rows| && rows[i].parentRecordId == Some(r.recordId) ==> Supersedes(rows[i], r))
  }

  lemma PrefixLineage(rows: seq<Record>, r: Record)
    requires Lineage(rows + [r])
    ensures Lineage(rows)
  {
    var after := rows + [r];
    assert forall i :: 0 <= i < |rows| ==> after[i] == rows[i];
    forall i, p | 0 <= i < |rows| && 0 <= p < |rows| ensures LinkOk(rows, i, p) {
      assert LinkOk(after, i, p);
    }
  }

  lemma LineageFits(rows: seq<Record>, r: Record)
    requires Lineage(rows + [r])
    ensures Fits(rows, r)
  {
    var after, n := rows + [r], |rows|;
    assert LinkOk(after, n, n);
    forall p | 0 <= p < n && r.parentRecordId == Some(rows[p].recordId) ensures Supersedes(r, rows[p]) {
      assert LinkOk(after, n, p) && after[p] == rows[p];
    }
    forall i | 0 <= i < n && rows[i].parentRecordId == Some(r.recordId) ensures Supersedes(rows[i], r) {
      assert LinkOk(after, i, n) && after[i] == rows[i];
    }
  }

  /** A write of any record keeps the lineage if and only if the record fits. */
  lemma WriteKeepsLineageIff(rows: seq<Record>, r: Record)
    requires Lineage(rows) && !HasId(rows, r.recordId)
    ensures Lineage(rows + [r]) <==> Fits(rows, r)
  {
    if Fits(rows, r) {
      var after := rows + [r];
      forall i, p | 0 <= i < |after| && 0 <= p < |after| ensures LinkOk(after, i, p) {
        if i < |rows| && p < |rows| {
          assert LinkOk(rows, i, p);
        }
      }
    } else if Lineage(rows + [r]) {
      LineageFits(rows, r);
    }
  }

  /** For a correction: it has an id of its own, is newer than what the store
      holds under its original's id and older than what names its own id, and
      shares key and valid time with both. */
  lemma CorrectionKeepsLineageIff(rows: seq<Record>, original: Record, q: Request)
    requires Lineage(rows) && !HasId(rows, q.id)
    ensures var c := Correction(original, q);
            Lineage(rows + [c]) <==>
              && q.id != original.recordId
              && (forall p :: 0 <= p < |rows| && rows[p].recordId == original.recordId ==> Supersedes(c, rows[p]))
              && (forall i :: 0 <= i < |rows| && rows[i].parentRecordId == Some(q.id) ==> Supersedes(rows[i], c))
  {
    WriteKeepsLineageIff(rows, Correction(original, q));
  }

  // ---- Runs ----

  /** A write to the rows of one key: a record without a parent, or a correction of any record. */
  datatype Write = Plain(r: Record) | Correct(original: Record, q: Request)

  /** The record that a write appends, or None for one that is rejected. */
  function Written(rows: seq<Record>, w: Write): Option<Record> {
    match w
    case Plain(r) => if r.parentRecordId == None && !HasId(rows, r.recordId) then Some(r) else None
    case Correct(original, q) =>
      var c := Correction(original, q);
      if c.transactionTime <= original.transactionTime || HasId(rows, c.recordId) then None else Some(c)
  }

  function Apply(rows: seq<Record>, w: Write): seq<Record> {
    match Written(rows, w)
    case None => rows
    case Some(r) => rows + [r]
  }

  function Run(rows: seq<Record>, ws: seq<Write>): seq<Record> {
    if ws == [] then rows else Apply(Run(rows, ws[..|ws| - 1]), ws[|ws| - 1])
  }

  /** Every record fitted when it was appended. */
  predicate FittingRun(ws: seq<Write>) {
    ws == [] || (FittingRun(ws[..|ws| - 1])
                 && var rows := Run([], ws[..|ws| - 1]);
                    Written(rows, ws[|ws| - 1]).Some? ==> Fits(rows, Written(rows, ws[|ws| - 1]).value))
  }

  /** A run builds a lineage if and only if every record fitted when it was appended. */
  lemma {:induction false} RunsBuildLineageIff(ws: seq<Write>)
    ensures Lineage(Run([], ws)) <==> FittingRun(ws)
  {
    if ws != [] {
      var rows, w := Run([], ws[..|ws| - 1]), ws[|ws| - 1];
      RunsBuildLineageIff(ws[..|ws| - 1]);
      if Written(rows, w).Some? {
        var r := Written(rows, w).value;
        if Lineage(rows) {
          WriteKeepsLineageIff(rows, r);
        } else if Lineage(rows + [r]) {
          PrefixLineage(rows, r);
        }
      }
    }
  }

  /** Each original was in the store when it was corrected. */
  predicate StoredRun(ws: seq<Write>) {
    ws == [] || (StoredRun(ws[..|ws| - 1])
                 && (ws[|ws| - 1].Correct? ==> ws[|ws| - 1].original in Run([], ws[..|ws| - 1])))
  }

  /** A record without a parent, or a correction of a stored row, fits among anchored rows. */
  lemma StoredWriteFits(rows: seq<Record>, w: Write)
    requires Lineage(rows) && Anchored(rows) && Written(rows, w).Some?
    requires w.Correct? ==> w.original in rows
    ensures Fits(rows, Written(rows, w).value)
    ensures Anchored(rows + [Written(rows, w).value])
  {
    var r := Written(rows, w).value;
    var after := rows + [r];
    forall i | 0 <= i < |rows| ensures rows[i].parentRecordId != Some(r.recordId) && AnchoredAt(after, i) {
      assert AnchoredAt(rows, i) && after[i] == rows[i];
      if rows[i].parentRecordId.Some? {
        var p :| 0 <= p < |rows| && IsParent(rows, i, p);
        assert IsParent(after, i, p);
      }
    }
    if w.Correct? {
      var k :| 0 <= k < |rows| && rows[k] == w.original;
      assert IsParent(after, |rows|, k);
    }
    assert AnchoredAt(after, |rows|);
  }

  /** When corrections are of stored rows, every run builds a lineage in which every parent is stored. */
  lemma {:induction false} StoredRunsBuildLineage(ws: seq<Write>)
    requires StoredRun(ws)
    ensures FittingRun(ws) && Lineage(Run([], ws)) && Anchored(Run([], ws))
  {
    RunsBuildLineageIff(ws);
    if ws != [] {
      var rows, w := Run([], ws[..|ws| - 1]), ws[|ws| - 1];
      StoredRunsBuildLineage(ws[..|ws| - 1]);
      if Written(rows, w).Some? {
        StoredWriteFits(rows, w);
      }
    }
  }

  /** A record that is corrected first and stored afterwards, as newer than its
      correction, breaks the lineage: it is returned although its correction is visible. */
  lemma StoredAfterItsCorrection(o: Record, q: Request, tx: Moment)
    requires o.parentRecordId == None && q.id != o.recordId
    requires o.transactionTime < Correction(o, q).transactionTime < tx
    ensures var late := o.(transactionTime := tx);
            var rows := Run([], [Correct(o, q), Plain(late)]);
            && rows == [Correction(o, q), late] && IsParent(rows, 0, 1)
            && !Lineage(rows) && AsOfRows(rows, None, None) == Some(late)
  {
    var c, late := Correction(o, q), o.(transactionTime := tx);
    var ws := [Correct(o, q), Plain(late)];
    assert ws[..1] == [Correct(o, q)] && [Correct(o, q)][..0] == [];
    assert Run([], [Correct(o, q)]) == [c];
    assert !HasId([c], late.recordId);
    assert Run([], ws) == [c] + [late];
    var rows := [c, late];
    assert rows == [c] + [late];
    assert IsParent(rows, 0, 1) && !LinkOk(rows, 0, 1);
    LateRowAnswers([c], late);
  }

  lemma {:induction false} LateRowAnswers(rows: seq<Record>, r: Record)
    requires forall i :: 0 <= i < |rows| ==> rows[i].transactionTime < r.transactionTime
    ensures AsOfRows(rows + [r], None, None) == Some(r)
  {
    FilterSnoc(rows, r, None, None);
    if AsOfRows(rows, None, None).Some? {
      var i := AsOfIsBest(rows, None, None);
    }
  }

  // ---- What a lineage says ----

  predicate StepsUp(rows: seq<Record>, path: seq<nat>, k: nat)
    requires k + 1 < |path|
  {
    path[k] < |rows| && path[k + 1] < |rows| && IsParent(rows, path[k], path[k + 1])
  }

  /** A path along parent links. */
  predicate ParentPath(rows: seq<Record>, path: seq<nat>) {
    |path| >= 2 && forall k {:trigger StepsUp(rows, path, k)} :: 0 <= k < |path| - 1 ==> StepsUp(rows, path, k)
  }

  /** Row `i` corrects row `j`, directly or through other corrections. */
  ghost predicate CorrectsEventually(rows: seq<Record>, i: nat, j: nat) {
    exists path :: ParentPath(rows, path) && path[0] == i && path[|path| - 1] == j
  }

  lemma {:induction false} PathDescends(rows: seq<Record>, path: seq<nat>)
    requires Lineage(rows) && ParentPath(rows, path)
    ensures path[0] < |rows| && path[|path| - 1] < |rows|
    ensures Supersedes(rows[path[0]], rows[path[|path| - 1]])
  {
    var n := |path| - 2;
    assert StepsUp(rows, path, n) && LinkOk(rows, path[n], path[n + 1]);
    if |path| > 2 {
      var init := path[..n + 1];
      forall k | 0 <= k < |init| - 1 ensures StepsUp(rows, init, k) {
        assert StepsUp(rows, path, k);
      }
      PathDescends(rows, init);
    }
  }

  /** Following parents goes strictly back in transaction time, along one key and
      valid time, so it never comes back to the same row. */
  lemma LineageDescends(rows: seq<Record>, i: nat, j: nat)
    requires Lineage(rows) && CorrectsEventually(rows, i, j)
    ensures i < |rows| && j < |rows| && i != j
    ensures rows[j].transactionTime < rows[i].transactionTime
    ensures rows[j].key == rows[i].key && rows[j].validTime == rows[i].validTime
    ensures rows[j].recordId != rows[i].recordId
  {
    var path :| ParentPath(rows, path) && path[0] == i && path[|path| - 1] == j;
    PathDescends(rows, path);
  }

  lemma OneStepUp(rows: seq<Record>, i: nat, p: nat)
    requires i < |rows| && p < |rows| && IsParent(rows, i, p)
    ensures CorrectsEventually(rows, i, p)
  {
    assert StepsUp(rows, [i, p], 0) && ParentPath(rows, [i, p]);
  }

  lemma FurtherUp(rows: seq<Record>, i: nat, p: nat, j: nat)
    requires i < |rows| && p < |rows| && IsParent(rows, i, p) && CorrectsEventually(rows, p, j)
    ensures CorrectsEventually(rows, i, j)
  {
    var path :| ParentPath(rows, path) && path[0] == p && path[|path| - 1] == j;
    var longer := [i] + path;
    forall k | 0 <= k < |longer| - 1 ensures StepsUp(rows, longer, k) {
      if k > 0 { assert StepsUp(rows, path, k - 1); }
    }
    assert ParentPath(rows, longer) && longer[0] == i && longer[|longer| - 1] == j;
  }

  /** The rows learned before row `i`. */
  function Earlier(rows: seq<Record>, i: nat): set<nat>
    requires i < |rows|
  {
    set k | 0 <= k < |rows| && rows[k].transactionTime < rows[i].transactionTime
  }

  /** The chain of parents ends, at a row whose parent, if it names one, is not
      stored; when every parent is stored, at a row without one. */
  lemma {:induction false} LineageReachesRoot(rows: seq<Record>, i: nat) returns (root: nat)
    requires Lineage(rows) && i < |rows|
    ensures root < |rows| && !HasStoredParent(rows, root)
    ensures Anchored(rows) ==> rows[root].parentRecordId == None
    ensures root == i || CorrectsEventually(rows, i, root)
    decreases Earlier(rows, i)
  {
    if !HasStoredParent(rows, i) {
      assert Anchored(rows) ==> AnchoredAt(rows, i);
      return i;
    }
    var p :| 0 <= p < |rows| && IsParent(rows, i, p);
    assert LinkOk(rows, i, p);
    assert p in Earlier(rows, i) && p !in Earlier(rows, p);
    OneStepUp(rows, i, p);
    root := LineageReachesRoot(rows, p);
    if root != p {
      FurtherUp(rows, i, p, root);
    }
  }

  /** Where a correction is visible, nothing that it transitively corrects is ever returned. */
  lemma CorrectedIsNeverReturned(rows: seq<Record>, tx: Clamp, vt: Clamp, i: nat, j: nat)
    requires Lineage(rows) && CorrectsEventually(rows, i, j)
    requires i < |rows| && j < |rows| && Visible(rows[i], tx, vt)
    ensures AsOfRows(rows, tx, vt).Some?
    ensures AsOfRows(rows, tx, vt).value.recordId != rows[j].recordId
  {
    LineageDescends(rows, i, j);
    VisibleIsAnswered(rows, tx, vt, i);
    var k := AsOfIsBest(rows, tx, vt);
    assert KeyBelow(rows[j], rows[i]);
    assert k != j;
  }

  /** A correction of what the clamps answer is the answer from then on, wherever they show it. */
  lemma CorrectionTakesOver(rows: seq<Record>, original: Record, q: Request, tx: Clamp, vt: Clamp)
    requires Correction(original, q).transactionTime > original.transactionTime
    requires AsOfRows(rows, tx, vt) == Some(original) && Shown(Correction(original, q), tx, vt)
    ensures AsOfRows(rows + [Correction(original, q)], tx, vt) == Some(Correction(original, q))
    ensures Corrects(Correction(original, q), original, q)
  {
    var i := AnswerIsNewest(rows, tx, vt);
    OutrankingAnswers(rows, Correction(original, q), tx, vt);
  }

  /** At a clamp before its transaction time a correction is as if it had not been
      written, whatever was written before and after it. */
  lemma {:induction false} BeforeCorrection(a: seq<Record>, c: Record, b: seq<Record>, tx: Moment, vt: Clamp)
    requires tx < c.transactionTime
    ensures AsOfRows(a + [c] + b, Some(tx), vt) == AsOfRows(a + b, Some(tx), vt)
  {
    FilterConcat(a + [c], b, Some(tx), vt);
    FilterConcat(a, b, Some(tx), vt);
    FilterSkips(a, c, Some(tx), vt);
  }
}
