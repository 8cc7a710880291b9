/** The SQLite backend: a table of rows whose times are text, appended in
    transactions and queried by text order. */
module Sqlite {
  import opened Options
  import opened Texts
  import opened Instants
  import opened Bitemporal
  import B = BitemporalStore
  import Ingest

  /** A stored row; the columns that play no part in a query stay with the record. */
  datatype Row = Row(validText: string, txText: string, record: Record)

  /** A record whose times are datetimes. */
  predicate Storable(r: Record) {
    IsMoment(r.validTime) && IsMoment(r.transactionTime)
  }

  predicate AllStorable(rs: seq<Record>) {
    forall i :: 0 <= i < |rs| ==> Storable(rs[i])
  }

  /** Python's truth test and SQL's IS NOT NULL agree on whether there is a parent. */
  predicate ProperParent(r: Record) {
    r.parentRecordId != Some("")
  }

  predicate AllProper(rs: seq<Record>) {
    forall i :: 0 <= i < |rs| ==> ProperParent(rs[i])
  }

  function IsoOf(t: Moment): string
    requires IsMoment(t)
  {
    Iso(FieldsOf(t))
  }

  function ToRow(r: Record): Row
    requires Storable(r)
  {
    Row(IsoOf(r.validTime), IsoOf(r.transactionTime), r)
  }

  lemma TextOrderOfMoments(a: Moment, b: Moment)
    requires IsMoment(a) && IsMoment(b)
    ensures TextLess(IsoOf(a), IsoOf(b)) <==> a < b
    ensures IsoOf(a) == IsoOf(b) <==> a == b
  {
    TextOrderIsTimeOrder(FieldsOf(a), FieldsOf(b));
    BeforeIsRankOrder(FieldsOf(a), FieldsOf(b));
    if IsoOf(a) == IsoOf(b) {
      IsoIsInjective(FieldsOf(a), FieldsOf(b));
    }
  }

  // ---- append_many ----

  predicate HasRowId(table: seq<Row>, id: string) {
    exists i :: 0 <= i < |table| && table[i].record.recordId == id
  }

  /** PRIMARY KEY and the foreign key on the parent; a row may name itself. */
  predicate Admissible(table: seq<Row>, r: Record) {
    && !HasRowId(table, r.recordId)
    && (r.parentRecordId.Some? ==>
          r.parentRecordId.value == r.recordId || HasRowId(table, r.parentRecordId.value))
  }

  predicate AllAdmissible(table: seq<Row>, rs: seq<Record>)
    requires AllStorable(rs)
    decreases |rs|
  {
    rs == [] || (Admissible(table, rs[0]) && AllAdmissible(table + [ToRow(rs[0])], rs[1..]))
  }

  function Rows(rs: seq<Record>): (rows: seq<Row>)
    requires AllStorable(rs)
    ensures |rows| == |rs| && forall i :: 0 <= i < |rs| ==> rows[i] == ToRow(rs[i])
  {
    seq(|rs|, i requires 0 <= i < |rs| => ToRow(rs[i]))
  }

  lemma RowsStep(table: seq<Row>, rs: seq<Record>, i: nat)
    requires AllStorable(rs) && i < |rs|
    ensures rs[i..][0] == rs[i] && rs[i..][1..] == rs[i + 1..]
    ensures (table + [ToRow(rs[i])]) + Rows(rs[i + 1..]) == table + Rows(rs[i..])
  {
  }

  lemma RowsConcat(a: seq<Record>, b: seq<Record>)
    requires AllStorable(a) && AllStorable(b)
    ensures AllStorable(a + b) && Rows(a + b) == Rows(a) + Rows(b)
  {
  }

  lemma {:induction false} AdmissibleConcat(table: seq<Row>, a: seq<Record>, b: seq<Record>, ab: seq<Record>)
    requires AllStorable(a) && AllStorable(b) && AllStorable(ab) && ab == a + b
    ensures AllAdmissible(table, ab) <==> AllAdmissible(table, a) && AllAdmissible(table + Rows(a), b)
    decreases |a|
  {
    if a == [] {
      assert ab == b && table + Rows(a) == table;
    } else {
      var next := table + [ToRow(a[0])];
      assert ab[0] == a[0] && ab[1..] == a[1..] + b;
      AdmissibleConcat(next, a[1..], b, ab[1..]);
      RowsStep(table, a, 0);
      assert a[0..] == a && next + Rows(a[1..]) == table + Rows(a);
    }
  }

  /** One of the records before `i` has this id. */
  predicate IdBefore(rs: seq<Record>, i: nat, id: string)
    requires i <= |rs|
  {
    exists j :: 0 <= j < i && rs[j].recordId == id
  }

  /** The id of record `i` is new, and its parent, if it names one, is itself or was stored before it. */
  predicate FitsAt(table: seq<Row>, rs: seq<Record>, i: nat)
    requires i < |rs|
  {
    var id, parent := rs[i].recordId, rs[i].parentRecordId;
    && (forall k :: 0 <= k < |table| ==> table[k].record.recordId != id) && !IdBefore(rs, i, id)
    && (parent == None || parent == Some(id) || IdBefore(rs, i, parent.value)
        || exists k :: 0 <= k < |table| && table[k].record.recordId == parent.value)
  }

  lemma HasIdConcat(a: seq<Row>, b: seq<Row>, id: string)
    ensures HasRowId(a + b, id) <==> HasRowId(a, id) || HasRowId(b, id)
  {
    if HasRowId(a, id) {
      var k :| 0 <= k < |a| && a[k].record.recordId == id;
      assert (a + b)[k] == a[k];
    }
    if HasRowId(b, id) {
      var k :| 0 <= k < |b| && b[k].record.recordId == id;
      assert (a + b)[|a| + k] == b[k];
    }
  }

  lemma IdInTable(table: seq<Row>, rs: seq<Record>, id: string)
    requires AllStorable(rs)
    ensures HasRowId(table + Rows(rs), id) <==> HasRowId(table, id) || IdBefore(rs, |rs|, id)
  {
    HasIdConcat(table, Rows(rs), id);
    if IdBefore(rs, |rs|, id) {
      var j :| 0 <= j < |rs| && rs[j].recordId == id;
      assert Rows(rs)[j] == ToRow(rs[j]);
    }
  }

  predicate AllFit(table: seq<Row>, rs: seq<Record>) {
    forall i {:trigger FitsAt(table, rs, i)} :: 0 <= i < |rs| ==> FitsAt(table, rs, i)
  }

  lemma AllFitSnoc(table: seq<Row>, init: seq<Record>, last: Record, rs: seq<Record>)
    requires rs == init + [last]
    ensures AllFit(table, rs) <==> AllFit(table, init) && FitsAt(table, rs, |init|)
  {
    forall i | 0 <= i < |init| ensures FitsAt(table, rs, i) <==> FitsAt(table, init, i) {
      EarlierFits(table, init, last, rs, i);
    }
  }

  lemma AdmissibleSnoc(table: seq<Row>, init: seq<Record>, last: Record, rs: seq<Record>)
    requires AllStorable(rs) && AllStorable(init) && Storable(last) && rs == init + [last]
    ensures AllAdmissible(table, rs) <==> AllAdmissible(table, init) && Admissible(table + Rows(init), last)
  {
    assert [last][1..] == [];
    AdmissibleConcat(table, init, [last], rs);
  }

  /** A transaction is accepted if and only if each of its records fits where it stands. */
  lemma {:induction false} BatchAcceptedIff(table: seq<Row>, rs: seq<Record>)
    requires AllStorable(rs)
    ensures AllAdmissible(table, rs) <==> AllFit(table, rs)
  {
    if rs != [] {
      var init, last := rs[..|rs| - 1], rs[|rs| - 1];
      assert rs == init + [last];
      BatchAcceptedIff(table, init);
      AdmissibleSnoc(table, init, last, rs);
      LastFits(table, init, last, rs);
      AllFitSnoc(table, init, last, rs);
    }
  }

  lemma LastFits(table: seq<Row>, init: seq<Record>, last: Record, rs: seq<Record>)
    requires AllStorable(init) && rs == init + [last]
    ensures Admissible(table + Rows(init), last) <==> FitsAt(table, rs, |init|)
  {
    IdInTable(table, init, last.recordId);
    IdInTable(table, init, last.parentRecordId.GetOr(""));
    forall id ensures IdBefore(rs, |init|, id) <==> IdBefore(init, |init|, id) {
      SameIdsBefore(init, last, |init|, id);
    }
  }

  lemma SameIdsBefore(init: seq<Record>, last: Record, i: nat, id: string)
    requires i <= |init|
    ensures IdBefore(init + [last], i, id) <==> IdBefore(init, i, id)
  {
    assert forall j :: 0 <= j < i ==> (init + [last])[j] == init[j];
  }

  lemma EarlierFits(table: seq<Row>, init: seq<Record>, last: Record, rs: seq<Record>, i: nat)
    requires i < |init| && rs == init + [last]
    ensures FitsAt(table, rs, i) <==> FitsAt(table, init, i)
  {
    SameIdsBefore(init, last, i, init[i].recordId);
    SameIdsBefore(init, last, i, init[i].parentRecordId.GetOr(""));
  }

  predicate AllBatchesStorable(batches: seq<seq<Record>>) {
    forall i :: 0 <= i < |batches| ==> AllStorable(batches[i])
  }

  /** The table after a sequence of transactions; a rejected one leaves no trace. */
  function AfterBatches(batches: seq<seq<Record>>): seq<Row>
    requires AllBatchesStorable(batches)
  {
    if batches == [] then []
    else
      var before, last := AfterBatches(batches[..|batches| - 1]), batches[|batches| - 1];
      if AllAdmissible(before, last) then before + Rows(last) else before
  }

  /** The records of the transactions that were committed, in order. */
  function Committed(batches: seq<seq<Record>>): (rs: seq<Record>)
    requires AllBatchesStorable(batches)
    ensures AllStorable(rs)
  {
    if batches == [] then []
    else
      var before, last := Committed(batches[..|batches| - 1]), batches[|batches| - 1];
      if AllAdmissible(AfterBatches(batches[..|batches| - 1]), last) then before + last else before
  }

  /** However the records were batched, the table is that of one transaction with all the committed ones. */
  lemma {:induction false} BatchesAreOneTransaction(batches: seq<seq<Record>>)
    requires AllBatchesStorable(batches)
    ensures AfterBatches(batches) == Rows(Committed(batches))
    ensures AllAdmissible([], Committed(batches))
  {
    if batches != [] {
      var init, last := batches[..|batches| - 1], batches[|batches| - 1];
      BatchesAreOneTransaction(init);
      RowsConcat(Committed(init), last);
      AdmissibleConcat([], Committed(init), last, Committed(init) + last);
      assert [] + Rows(Committed(init)) == Rows(Committed(init));
    }
  }

  /** Only a record whose id is empty lets an empty parent id into a table. */
  lemma {:induction false} EmptyParentNeedsEmptyId(table: seq<Row>, rs: seq<Record>)
    requires AllStorable(rs) && AllAdmissible(table, rs) && !HasRowId(table, "")
    requires forall i :: 0 <= i < |rs| ==> rs[i].recordId != ""
    ensures AllProper(rs)
    decreases |rs|
  {
    if rs != [] {
      EmptyParentNeedsEmptyId(table + [ToRow(rs[0])], rs[1..]);
      assert forall i :: 0 < i < |rs| ==> rs[i] == rs[1..][i - 1];
    }
  }

  class SqliteBackend {
    var table: seq<Row>

    constructor ()
      ensures table == []
    {
      table := [];
    }

    /** One transaction: every row goes in, or none does. */
    method AppendMany(rs: seq<Record>) returns (ok: bool)
      requires AllStorable(rs)
      modifies this
      ensures ok <==> AllAdmissible(old(table), rs)
      ensures table == if ok then old(table) + Rows(rs) else old(table)
    {
      var saved := table;   // BEGIN
      var i := 0;
      while i < |rs|
        invariant 0 <= i <= |rs|
        invariant table + Rows(rs[i..]) == saved + Rows(rs)
        invariant AllAdmissible(saved, rs) <==> AllAdmissible(table, rs[i..])
      {
        var fits := Fits(rs[i]);
        if !fits {
          table := saved;   // ROLLBACK
          return false;
        }
        RowsStep(table, rs, i);
        table := table + [ToRow(rs[i])];
        i := i + 1;
      }
      return true;
    }

    method Fits(r: Record) returns (fits: bool)
      ensures fits <==> Admissible(table, r)
    {
      var duplicate := Holds(r.recordId);
      if duplicate {
        return false;
      }
      if r.parentRecordId.Some? && r.parentRecordId.value != r.recordId {
        fits := Holds(r.parentRecordId.value);
      } else {
        fits := true;
      }
    }

    method Holds(id: string) returns (found: bool)
      ensures found <==> HasRowId(table, id)
    {
      for i := 0 to |table|
        invariant forall j :: 0 <= j < i ==> table[j].record.recordId != id
      {
        if table[i].record.recordId == id {
          return true;
        }
      }
      return false;
    }

    /** SELECT with the clamps, ORDER BY ... DESC LIMIT 1: some row that no
        other matching row precedes.  SQLite does not say which among ties. */
    method AsOf(key: string, tx: Clamp, vt: Clamp) returns (found: Option<Row>)
      requires ClampOk(tx) && ClampOk(vt)
      ensures IsSelected(table, key, tx, vt, found)
    {
      found := None;
      for i := 0 to |table|
        invariant IsSelected(table[..i], key, tx, vt, found)
      {
        assert table[..i + 1] == table[..i] + [table[i]];
        SelectOneMore(table[..i], table[i], key, tx, vt, found);
        if Matches(table[i], key, tx, vt) && (found == None || Precedes(table[i], found.value)) {
          found := Some(table[i]);
        }
      }
      assert table[..|table|] == table;
    }
  }

  // ---- as_of ----

  predicate ClampOk(c: Clamp) {
    c.Some? ==> IsMoment(c.value)
  }

  /** The comparison `column <= ?` on text. */
  predicate TextWithin(text: string, c: Clamp)
    requires ClampOk(c)
  {
    c.Some? ==> !TextLess(IsoOf(c.value), text)
  }

  predicate Matches(row: Row, key: string, tx: Clamp, vt: Clamp)
    requires ClampOk(tx) && ClampOk(vt)
  {
    row.record.key == key && TextWithin(row.txText, tx) && TextWithin(row.validText, vt)
  }

  /** The ORDER BY: transaction text, then valid text, then whether there is a parent, all descending. */
  predicate Precedes(a: Row, b: Row) {
    if a.txText != b.txText then TextLess(b.txText, a.txText)
    else if a.validText != b.validText then TextLess(b.validText, a.validText)
    else a.record.parentRecordId.Some? && b.record.parentRecordId.None?
  }

  predicate IsSelected(table: seq<Row>, key: string, tx: Clamp, vt: Clamp, found: Option<Row>)
    requires ClampOk(tx) && ClampOk(vt)
  {
    match found
    case None => forall row :: row in table ==> !Matches(row, key, tx, vt)
    case Some(best) =>
      && best in table && Matches(best, key, tx, vt)
      && forall row :: row in table && Matches(row, key, tx, vt) ==> !Precedes(row, best)
  }

  lemma PrecedesIsTransitive(a: Row, b: Row, c: Row)
    requires !Precedes(a, b) && !Precedes(b, c)
    ensures !Precedes(a, c)
  {
    TextLessTotal(a.txText, b.txText);
    TextLessTotal(b.txText, c.txText);
    TextLessTotal(a.validText, b.validText);
    TextLessTotal(b.validText, c.validText);
    if Precedes(a, c) {
      if TextLess(a.txText, b.txText) && TextLess(b.txText, c.txText) {
        TextLessTransitive(a.txText, b.txText, c.txText);
      }
      if TextLess(a.validText, b.validText) && TextLess(b.validText, c.validText) {
        TextLessTransitive(a.validText, b.validText, c.validText);
      }
      if TextLess(c.txText, a.txText) { TextLessAsymmetric(c.txText, a.txText); }
      if TextLess(c.validText, a.validText) { TextLessAsymmetric(c.validText, a.validText); }
    }
  }

  lemma PrecedesIsAsymmetric(a: Row, b: Row)
    requires Precedes(a, b)
    ensures !Precedes(b, a)
  {
    if a.txText != b.txText { TextLessAsymmetric(b.txText, a.txText); }
    else if a.validText != b.validText { TextLessAsymmetric(b.validText, a.validText); }
  }

  lemma PrecedesIsIrreflexive(a: Row)
    ensures !Precedes(a, a)
  {
  }

  lemma SelectOneMore(table: seq<Row>, row: Row, key: string, tx: Clamp, vt: Clamp, found: Option<Row>)
    requires ClampOk(tx) && ClampOk(vt) && IsSelected(table, key, tx, vt, found)
    ensures var better := Matches(row, key, tx, vt) && (found == None || Precedes(row, found.value));
            IsSelected(table + [row], key, tx, vt, if better then Some(row) else found)
  {
    PrecedesIsIrreflexive(row);
    if Matches(row, key, tx, vt) && found.Some? && Precedes(row, found.value) {
      PrecedesIsAsymmetric(row, found.value);
      forall other | other in table && Matches(other, key, tx, vt) ensures !Precedes(other, row) {
        PrecedesIsTransitive(other, found.value, row);
      }
    }
  }

  // ---- Agreement with the in-memory reference ----

  predicate SameTimes(r: Record, s: Record) {
    r.transactionTime == s.transactionTime && r.validTime == s.validTime
  }

  predicate TimesBelow(r: Record, s: Record) {
    r.transactionTime < s.transactionTime || (r.transactionTime == s.transactionTime && r.validTime < s.validTime)
  }

  /** The ORDER BY on text is the order of times, and of equal times a row with a
      parent comes first; that is the order of sort keys unless a parent id is empty. */
  lemma PrecedesIsKeyOrder(r: Record, s: Record)
    requires Storable(r) && Storable(s)
    ensures Precedes(ToRow(r), ToRow(s))
            <==> TimesBelow(s, r) || (SameTimes(s, r) && r.parentRecordId.Some? && s.parentRecordId.None?)
    ensures ProperParent(r) && ProperParent(s) ==> (Precedes(ToRow(r), ToRow(s)) <==> KeyBelow(s, r))
  {
    TextOrderOfMoments(s.transactionTime, r.transactionTime);
    TextOrderOfMoments(s.validTime, r.validTime);
  }

  /** The WHERE clause on text is visibility at the clamps. */
  lemma MatchesIsVisible(r: Record, tx: Clamp, vt: Clamp)
    requires Storable(r) && ClampOk(tx) && ClampOk(vt)
    ensures Matches(ToRow(r), r.key, tx, vt) <==> Visible(r, tx, vt)
  {
    if tx.Some? { TextOrderOfMoments(tx.value, r.transactionTime); }
    if vt.Some? { TextOrderOfMoments(vt.value, r.validTime); }
  }

  /** The table holds exactly the rows of these records. */
  ghost predicate Stores(table: seq<Row>, rs: seq<Record>)
    requires AllStorable(rs)
  {
    forall row :: row in table <==> exists i :: 0 <= i < |rs| && row == ToRow(rs[i])
  }

  lemma VisibleIsSelected(table: seq<Row>, rs: seq<Record>, key: string, tx: Clamp, vt: Clamp, found: Option<Row>,
                          j: nat)
    requires AllStorable(rs)
    requires Stores(table, rs) && j < |rs| && rs[j].key == key && Visible(rs[j], tx, vt)
    requires ClampOk(tx) && ClampOk(vt) && IsSelected(table, key, tx, vt, found)
    ensures found.Some? && !TimesBelow(found.value.record, rs[j])
    ensures SameTimes(found.value.record, rs[j]) && rs[j].parentRecordId.Some? ==>
              found.value.record.parentRecordId.Some?
  {
    assert ToRow(rs[j]) in table;
    MatchesIsVisible(rs[j], tx, vt);
    if found.Some? {
      var i :| 0 <= i < |rs| && found.value == ToRow(rs[i]);
      PrecedesIsKeyOrder(rs[j], rs[i]);
    }
  }

  lemma SelectedIsVisible(table: seq<Row>, rs: seq<Record>, key: string, tx: Clamp, vt: Clamp, best: Row)
    requires AllStorable(rs)
    requires Stores(table, rs) && ClampOk(tx) && ClampOk(vt) && IsSelected(table, key, tx, vt, Some(best))
    ensures best.record in rs && best.record.key == key && Visible(best.record, tx, vt)
  {
    var i :| 0 <= i < |rs| && best == ToRow(rs[i]);
    MatchesIsVisible(rs[i], tx, vt);
  }

  /** The reference answers with a correction where a row of the same times names an empty parent id. */
  predicate EmptyParentTies(bucket: seq<Record>, reference: Record) {
    IsCorrection(reference)
    && exists i :: 0 <= i < |bucket| && bucket[i].parentRecordId == Some("") && SameTimes(bucket[i], reference)
  }

  lemma ProperNeverTies(bucket: seq<Record>, reference: Record)
    requires AllProper(bucket)
    ensures !EmptyParentTies(bucket, reference)
  {
  }

  /** Whatever row SQLite selects among ties, at any clamps, it has the times of
      the in-memory answer over the same records, and its whole sort key unless a
      row with an empty parent id ties with a correction; then, with distinct sort
      keys, it is the same record. */
  lemma SqlAgreesWithReference(table: seq<Row>, rs: seq<Record>, bucket: seq<Record>, key: string, tx: Clamp, vt: Clamp,
                               found: Option<Row>)
    requires AllStorable(rs)
    requires Stores(table, rs) && forall r :: r in bucket <==> r in rs && r.key == key
    requires ClampOk(tx) && ClampOk(vt) && IsSelected(table, key, tx, vt, found)
    ensures var reference := AsOfRows(bucket, tx, vt);
            && (found == None <==> reference == None)
            && (found.Some? ==> found.value.record in bucket && SameTimes(found.value.record, reference.value))
            && (found.Some? && !EmptyParentTies(bucket, reference.value) ==>
                  SameKey(found.value.record, reference.value)
                  && (Ingest.DistinctKeys(bucket) ==> found.value.record == reference.value))
  {
    if found.Some? {
      SelectedIsVisible(table, rs, key, tx, vt, found.value);
      SelectedRow(bucket, found.value.record, tx, vt);
    }
    if AsOfRows(bucket, tx, vt).Some? {
      var j := ReferenceIsStored(rs, bucket, key, tx, vt);
      VisibleIsSelected(table, rs, key, tx, vt, found, j);
      SelectedKey(bucket, found.value.record, rs[j]);
    }
  }

  /** Two best rows, one in each order, have the same times, and the same sort key unless there is such a tie. */
  lemma SelectedKey(bucket: seq<Record>, r: Record, reference: Record)
    requires r in bucket && !KeyBelow(reference, r) && !TimesBelow(r, reference)
    requires SameTimes(r, reference) && reference.parentRecordId.Some? ==> r.parentRecordId.Some?
    ensures SameTimes(r, reference)
    ensures !EmptyParentTies(bucket, reference) ==> SameKey(r, reference)
  {
    var k :| 0 <= k < |bucket| && bucket[k] == r;
  }

  /** Every row that SQLite may select has the sort key of the in-memory answer if
      and only if there is no such tie. */
  lemma SqlAgreesIff(table: seq<Row>, rs: seq<Record>, bucket: seq<Record>, key: string, tx: Clamp, vt: Clamp)
    requires AllStorable(rs)
    requires Stores(table, rs) && forall r :: r in bucket <==> r in rs && r.key == key
    requires ClampOk(tx) && ClampOk(vt) && AsOfRows(bucket, tx, vt).Some?
    ensures var reference := AsOfRows(bucket, tx, vt).value;
            (forall found {:trigger IsSelected(table, key, tx, vt, found)} ::
               IsSelected(table, key, tx, vt, found) ==> found.Some? && SameKey(found.value.record, reference))
            <==> !EmptyParentTies(bucket, reference)
  {
    var reference := AsOfRows(bucket, tx, vt).value;
    if EmptyParentTies(bucket, reference) {
      var w := TiedRowIsSelected(table, rs, bucket, key, tx, vt);
      assert IsSelected(table, key, tx, vt, Some(w));
    } else {
      forall found | IsSelected(table, key, tx, vt, found)
        ensures found.Some? && SameKey(found.value.record, reference)
      {
        SqlAgreesWithReference(table, rs, bucket, key, tx, vt, found);
      }
    }
  }

  /** A row with an empty parent id that ties with the answer may be selected. */
  lemma TiedRowIsSelected(table: seq<Row>, rs: seq<Record>, bucket: seq<Record>, key: string, tx: Clamp, vt: Clamp)
    returns (w: Row)
    requires AllStorable(rs)
    requires Stores(table, rs) && forall r :: r in bucket <==> r in rs && r.key == key
    requires ClampOk(tx) && ClampOk(vt) && AsOfRows(bucket, tx, vt).Some?
    requires EmptyParentTies(bucket, AsOfRows(bucket, tx, vt).value)
    ensures IsSelected(table, key, tx, vt, Some(w)) && !SameKey(w.record, AsOfRows(bucket, tx, vt).value)
  {
    var reference := AsOfRows(bucket, tx, vt).value;
    var j := ReferenceIsStored(rs, bucket, key, tx, vt);
    var i :| 0 <= i < |bucket| && bucket[i].parentRecordId == Some("") && SameTimes(bucket[i], reference);
    var k := IndexOf(rs, bucket[i], bucket);
    w := ToRow(rs[k]);
    MatchesIsVisible(rs[k], tx, vt);
    forall row | row in table && Matches(row, key, tx, vt) ensures !Precedes(row, w) {
      TiedRowIsFirst(table, rs, bucket, key, tx, vt, row, rs[k]);
    }
  }

  lemma TiedRowIsFirst(table: seq<Row>, rs: seq<Record>, bucket: seq<Record>, key: string, tx: Clamp, vt: Clamp,
                       row: Row, r: Record)
    requires AllStorable(rs)
    requires Stores(table, rs) && forall x :: x in bucket <==> x in rs && x.key == key
    requires ClampOk(tx) && ClampOk(vt) && row in table && Matches(row, key, tx, vt)
    requires Storable(r) && r.parentRecordId.Some? && AsOfRows(bucket, tx, vt).Some?
    requires SameTimes(r, AsOfRows(bucket, tx, vt).value)
    ensures !Precedes(row, ToRow(r))
  {
    var m :| 0 <= m < |rs| && row == ToRow(rs[m]);
    MatchesIsVisible(rs[m], tx, vt);
    SelectedRow(bucket, rs[m], tx, vt);
    PrecedesIsKeyOrder(rs[m], r);
  }

  lemma IndexOf(rs: seq<Record>, r: Record, bucket: seq<Record>) returns (k: nat)
    requires r in bucket && forall x :: x in bucket ==> x in rs
    ensures k < |rs| && rs[k] == r
  {
    k :| 0 <= k < |rs| && rs[k] == r;
  }

  /** A visible record of the bucket is at most as great as the reference answer. */
  lemma SelectedRow(bucket: seq<Record>, r: Record, tx: Clamp, vt: Clamp)
    requires r in bucket && Visible(r, tx, vt)
    ensures AsOfRows(bucket, tx, vt).Some? && AsOfRows(bucket, tx, vt).value in bucket
    ensures !KeyBelow(AsOfRows(bucket, tx, vt).value, r)
  {
    var k :| 0 <= k < |bucket| && bucket[k] == r;
    VisibleIsAnswered(bucket, tx, vt, k);
    var i := AsOfIsBest(bucket, tx, vt);
    assert bucket[i] in bucket;
  }

  lemma ReferenceIsStored(rs: seq<Record>, bucket: seq<Record>, key: string, tx: Clamp, vt: Clamp) returns (j: nat)
    requires AsOfRows(bucket, tx, vt).Some? && forall r :: r in bucket <==> r in rs && r.key == key
    ensures j < |rs| && rs[j] == AsOfRows(bucket, tx, vt).value && rs[j].key == key && Visible(rs[j], tx, vt)
  {
    var i := AsOfIsBest(bucket, tx, vt);
    assert bucket[i] in bucket;
    j :| 0 <= j < |rs| && rs[j] == bucket[i];
  }

  lemma RowsAreStored(rs: seq<Record>)
    requires AllStorable(rs)
    ensures Stores(Rows(rs), rs)
  {
    forall i | 0 <= i < |rs| ensures ToRow(rs[i]) in Rows(rs) {
      assert Rows(rs)[i] == ToRow(rs[i]);
    }
  }

  /** A SQLite table left by any transactions, rejected ones included, and an
      in-memory store that accepted the committed records in any order, agree on
      every as-of query. */
  lemma SqliteAgrees(a: seq<Record>, batches: seq<seq<Record>>, key: string, bucket: seq<Record>, tx: Clamp, vt: Clamp,
                     found: Option<Row>)
    requires AllBatchesStorable(batches)
    requires B.AppendMany(B.EmptyTable, a).1 && forall r :: r in a <==> r in Committed(batches)
    requires bucket == B.History(B.AppendMany(B.EmptyTable, a).0, key)
    requires ClampOk(tx) && ClampOk(vt) && IsSelected(AfterBatches(batches), key, tx, vt, found)
    ensures var reference := AsOfRows(bucket, tx, vt);
            && (found == None <==> reference == None)
            && (found.Some? ==> found.value.record in bucket && SameTimes(found.value.record, reference.value))
            && (found.Some? && !EmptyParentTies(bucket, reference.value) ==>
                  SameKey(found.value.record, reference.value)
                  && (Ingest.DistinctKeys(bucket) ==> found.value.record == reference.value))
  {
    Ingest.AcceptedAreStored(B.EmptyTable, a, key);
    BatchesAreOneTransaction(batches);
    RowsAreStored(Committed(batches));
    SqlAgreesWithReference(AfterBatches(batches), Committed(batches), bucket, key, tx, vt, found);
  }

  /** No look-ahead: rows of later transaction time, or of other keys, change
      nothing that a clamped query may answer. */
  lemma LaterRowsAreInvisible(table: seq<Row>, rs: seq<Record>, key: string, tx: Moment, vt: Clamp, found: Option<Row>)
    requires AllStorable(rs) && IsMoment(tx) && ClampOk(vt)
    requires forall i :: 0 <= i < |rs| ==> rs[i].key != key || rs[i].transactionTime > tx
    ensures IsSelected(table + Rows(rs), key, Some(tx), vt, found) <==> IsSelected(table, key, Some(tx), vt, found)
  {
    forall row | row in Rows(rs) ensures !Matches(row, key, Some(tx), vt) {
      var i :| 0 <= i < |rs| && Rows(rs)[i] == row;
      LaterRowIsHidden(rs[i], key, tx, vt);
    }
    SelectsAlike(table, Rows(rs), key, Some(tx), vt, found);
  }

  lemma LaterRowIsHidden(r: Record, key: string, tx: Moment, vt: Clamp)
    requires Storable(r) && IsMoment(tx) && ClampOk(vt) && (r.key != key || r.transactionTime > tx)
    ensures !Matches(ToRow(r), key, Some(tx), vt)
  {
    if r.key == key { MatchesIsVisible(r, Some(tx), vt); }
  }

  lemma SelectsAlike(table: seq<Row>, more: seq<Row>, key: string, tx: Clamp, vt: Clamp, found: Option<Row>)
    requires ClampOk(tx) && ClampOk(vt) && forall row :: row in more ==> !Matches(row, key, tx, vt)
    ensures IsSelected(table + more, key, tx, vt, found) <==> IsSelected(table, key, tx, vt, found)
  {
    assert forall row :: row in table + more <==> row in table || row in more;
  }
}
