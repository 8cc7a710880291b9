/** Bitemporal records and the as-of query over the rows of one key.

    A moment is the number that `Instants` gives a UTC datetime; the numbers are
    in chronological order, so comparing datetimes is comparing numbers. */
module Bitemporal {
  import opened Options
  import opened Sequences
  import Json

  type Moment = int

  datatype Record = Record(
    recordId: string,
    key: string,
    validTime: Moment,
    transactionTime: Moment,
    value: Json.Value,
    source: Option<string>,
    decision: Option<string>,
    sourceTrustLevel: Option<string>,
    parentRecordId: Option<string>,
    metadata: map<string, Json.Value>)

  type Clamp = Option<Moment>   // None is no clamp

  predicate UniqueIds(rows: seq<Record>) {
    forall i, j :: 0 <= i < j < |rows| ==> rows[i].recordId != rows[j].recordId
  }

  predicate HasId(rows: seq<Record>, id: string) {
    exists i :: 0 <= i < |rows| && rows[i].recordId == id
  }

  // ---- The as-of query ----

  predicate Within(t: Moment, clamp: Clamp) {
    clamp == None || t <= clamp.value
  }

  predicate Visible(r: Record, tx: Clamp, vt: Clamp) {
    Within(r.transactionTime, tx) && Within(r.validTime, vt)
  }

  function Filter(rows: seq<Record>, tx: Clamp, vt: Clamp): seq<Record> {
    if rows == [] then []
    else Filter(rows[..|rows| - 1], tx, vt) + if Visible(rows[|rows| - 1], tx, vt) then [rows[|rows| - 1]] else []
  }

  /** Python truthiness: an empty parent id does not make a correction. */
  predicate IsCorrection(r: Record) {
    r.parentRecordId.Some? && r.parentRecordId.value != ""
  }

  /** Whether a record's sort key is strictly below another's. */
  predicate KeyBelow(a: Record, b: Record) {
    if a.transactionTime != b.transactionTime then a.transactionTime < b.transactionTime
    else if a.validTime != b.validTime then a.validTime < b.validTime
    else !IsCorrection(a) && IsCorrection(b)
  }

  predicate SameKey(a: Record, b: Record) {
    && a.transactionTime == b.transactionTime && a.validTime == b.validTime
    && (IsCorrection(a) <==> IsCorrection(b))
  }

  lemma KeyOrderIsTotal(a: Record, b: Record)
    ensures SameKey(a, b) || KeyBelow(a, b) || KeyBelow(b, a)
    ensures KeyBelow(a, b) ==> !SameKey(a, b) && !KeyBelow(b, a)
  {
  }

  lemma KeyOrderIsTransitive(a: Record, b: Record, c: Record)
    requires !KeyBelow(b, a) && !KeyBelow(c, b)
    ensures !KeyBelow(c, a)
    ensures KeyBelow(a, b) || KeyBelow(b, c) ==> KeyBelow(a, c)
  {
  }

  /** `max` with a key: the first of the greatest elements. */
  function FirstMax(rows: seq<Record>): Option<Record> {
    if rows == [] then None
    else
      var best := FirstMax(rows[..|rows| - 1]);
      var last := rows[|rows| - 1];
      if best == None || KeyBelow(best.value, last) then Some(last) else best
  }

  function AsOfRows(rows: seq<Record>, tx: Clamp, vt: Clamp): Option<Record> {
    FirstMax(Filter(rows, tx, vt))
  }

  /** No visible row has a greater key, and none of the same key was inserted earlier. */
  ghost predicate IsBest(rows: seq<Record>, r: Record, tx: Clamp, vt: Clamp, i: nat) {
    && i < |rows| && rows[i] == r && Visible(r, tx, vt)
    && (forall j :: 0 <= j < |rows| && Visible(rows[j], tx, vt) ==> !KeyBelow(r, rows[j]))
    && (forall j :: 0 <= j < i && Visible(rows[j], tx, vt) ==> KeyBelow(rows[j], r))
  }

  lemma SnocParts(rows: seq<Record>)
    requires rows != []
    ensures rows == rows[..|rows| - 1] + [rows[|rows| - 1]]
  {
  }

  lemma {:induction false} FilterSnoc(rows: seq<Record>, r: Record, tx: Clamp, vt: Clamp)
    ensures Filter(rows + [r], tx, vt) == Filter(rows, tx, vt) + if Visible(r, tx, vt) then [r] else []
    ensures AsOfRows(rows + [r], tx, vt)
            == if !Visible(r, tx, vt) then AsOfRows(rows, tx, vt)
               else
                 var best := AsOfRows(rows, tx, vt);
                 if best == None || KeyBelow(best.value, r) then Some(r) else best
  {
    assert (rows + [r])[..|rows|] == rows;
    var f := Filter(rows, tx, vt);
    assert (f + [r])[..|f|] == f;
    assert f + [] == f;
  }

  lemma {:induction false} FilterSkips(rows: seq<Record>, r: Record, tx: Clamp, vt: Clamp)
    requires !Visible(r, tx, vt)
    ensures Filter(rows + [r], tx, vt) == Filter(rows, tx, vt)
  {
    assert (rows + [r])[..|rows|] == rows;
    assert Filter(rows, tx, vt) + [] == Filter(rows, tx, vt);
  }

  lemma {:induction false} FilterConcat(a: seq<Record>, b: seq<Record>, tx: Clamp, vt: Clamp)
    ensures Filter(a + b, tx, vt) == Filter(a, tx, vt) + Filter(b, tx, vt)
  {
    if b == [] {
      assert a + b == a;
    } else {
      var init, last := b[..|b| - 1], b[|b| - 1];
      var end := if Visible(last, tx, vt) then [last] else [];
      assert b == init + [last];
      FilterConcat(a, init, tx, vt);
      ConcatIsAssociative(a, init, [last]);
      FilterLast(a + init, last, tx, vt);
      FilterLast(init, last, tx, vt);
      ConcatIsAssociative(Filter(a, tx, vt), Filter(init, tx, vt), end);
    }
  }

  lemma {:induction false} FilterLast(rows: seq<Record>, r: Record, tx: Clamp, vt: Clamp)
    ensures Filter(rows + [r], tx, vt) == Filter(rows, tx, vt) + if Visible(r, tx, vt) then [r] else []
  {
    assert (rows + [r])[..|rows|] == rows;
  }

  lemma AsOfStep(rows: seq<Record>, tx: Clamp, vt: Clamp)
    requires rows != []
    ensures var best, last := AsOfRows(rows[..|rows| - 1], tx, vt), rows[|rows| - 1];
            AsOfRows(rows, tx, vt)
            == if Visible(last, tx, vt) && (best == None || KeyBelow(best.value, last)) then Some(last) else best
  {
    SnocParts(rows);
    FilterSnoc(rows[..|rows| - 1], rows[|rows| - 1], tx, vt);
  }

  lemma BestKept(rows: seq<Record>, best: Record, tx: Clamp, vt: Clamp, i: nat)
    requires rows != [] && IsBest(rows[..|rows| - 1], best, tx, vt, i)
    requires !Visible(rows[|rows| - 1], tx, vt) || !KeyBelow(best, rows[|rows| - 1])
    ensures IsBest(rows, best, tx, vt, i)
  {
    var init := rows[..|rows| - 1];
    assert forall j :: 0 <= j < |init| ==> rows[j] == init[j];
  }

  lemma BestReplaced(rows: seq<Record>, best: Record, tx: Clamp, vt: Clamp, i: nat)
    requires rows != [] && IsBest(rows[..|rows| - 1], best, tx, vt, i)
    requires Visible(rows[|rows| - 1], tx, vt) && KeyBelow(best, rows[|rows| - 1])
    ensures IsBest(rows, rows[|rows| - 1], tx, vt, |rows| - 1)
  {
    var init, last := rows[..|rows| - 1], rows[|rows| - 1];
    KeyOrderIsTotal(last, last);
    KeyOrderIsTotal(best, last);
    forall j | 0 <= j < |init| && Visible(rows[j], tx, vt) ensures KeyBelow(rows[j], last) && !KeyBelow(last, rows[j]) {
      assert rows[j] == init[j];
      KeyOrderIsTotal(init[j], best);
      KeyOrderIsTransitive(init[j], best, last);
      KeyOrderIsTotal(init[j], last);
    }
  }

  /** Whenever something is visible, something is returned. */
  lemma {:induction false} VisibleIsAnswered(rows: seq<Record>, tx: Clamp, vt: Clamp, j: nat)
    requires j < |rows| && Visible(rows[j], tx, vt)
    ensures AsOfRows(rows, tx, vt).Some?
  {
    AsOfStep(rows, tx, vt);
    if j < |rows| - 1 {
      VisibleIsAnswered(rows[..|rows| - 1], tx, vt, j);
    }
  }

  /** The as-of query answers "what did we believe": the visible record with the
      latest transaction time, then valid time, then corrections first, the
      earliest inserted among equals. */
  lemma {:induction false} AsOfIsBest(rows: seq<Record>, tx: Clamp, vt: Clamp) returns (i: nat)
    requires AsOfRows(rows, tx, vt).Some?
    ensures IsBest(rows, AsOfRows(rows, tx, vt).value, tx, vt, i)
  {
    var init, last := rows[..|rows| - 1], rows[|rows| - 1];
    AsOfStep(rows, tx, vt);
    var best := AsOfRows(init, tx, vt);
    if best == None {
      KeyOrderIsTotal(last, last);
      forall j | 0 <= j < |init| ensures !Visible(rows[j], tx, vt) {
        if Visible(init[j], tx, vt) { VisibleIsAnswered(init, tx, vt, j); }
      }
      return |init|;
    }
    i := AsOfIsBest(init, tx, vt);
    if Visible(last, tx, vt) && KeyBelow(best.value, last) {
      BestReplaced(rows, best.value, tx, vt, i);
      return |init|;
    }
    BestKept(rows, best.value, tx, vt, i);
  }

  /** There is only one best row. */
  lemma BestIsUnique(rows: seq<Record>, tx: Clamp, vt: Clamp, i: nat, k: nat)
    requires i < |rows| && IsBest(rows, rows[i], tx, vt, i)
    requires k < |rows| && IsBest(rows, rows[k], tx, vt, k)
    ensures i == k
  {
  }

  // ---- The query in terms of the fields ----

  /** Learned and valid by the clamps, both of them inclusive. */
  predicate Shown(r: Record, tx: Clamp, vt: Clamp) {
    && (tx.Some? ==> r.transactionTime <= tx.value)
    && (vt.Some? ==> r.validTime <= vt.value)
  }

  /** Learned later; or at the same time and valid later; or at the same times, and only `a` names a parent. */
  predicate Outranks(a: Record, b: Record) {
    var parent, other := a.parentRecordId.GetOr(""), b.parentRecordId.GetOr("");
    || a.transactionTime > b.transactionTime
    || (a.transactionTime == b.transactionTime && a.validTime > b.validTime)
    || (a.transactionTime == b.transactionTime && a.validTime == b.validTime && parent != "" && other == "")
  }

  /** Row `i` is shown, no other shown row outranks it, and it outranks those before it. */
  predicate IsNewest(rows: seq<Record>, i: nat, tx: Clamp, vt: Clamp) {
    && i < |rows| && Shown(rows[i], tx, vt)
    && (forall j :: 0 <= j < |rows| && Shown(rows[j], tx, vt) ==> !Outranks(rows[j], rows[i]))
    && (forall j :: 0 <= j < i && Shown(rows[j], tx, vt) ==> Outranks(rows[i], rows[j]))
  }

  lemma NewestIsBest(rows: seq<Record>, i: nat, tx: Clamp, vt: Clamp)
    ensures IsNewest(rows, i, tx, vt) <==> i < |rows| && IsBest(rows, rows[i], tx, vt, i)
  {
    assert forall r :: Shown(r, tx, vt) <==> Visible(r, tx, vt);
    assert forall a, b {:trigger Outranks(a, b)} {:trigger KeyBelow(b, a)} :: Outranks(a, b) <==> KeyBelow(b, a);
  }

  /** The query answers the newest shown row, and nothing if and only if no row is shown. */
  lemma AnswerIsNewest(rows: seq<Record>, tx: Clamp, vt: Clamp) returns (i: nat)
    ensures AsOfRows(rows, tx, vt) == None <==> forall j :: 0 <= j < |rows| ==> !Shown(rows[j], tx, vt)
    ensures AsOfRows(rows, tx, vt).Some? ==>
              IsNewest(rows, i, tx, vt) && AsOfRows(rows, tx, vt) == Some(rows[i])
              && forall k :: IsNewest(rows, k, tx, vt) ==> k == i
  {
    i := 0;
    forall j | 0 <= j < |rows| && Shown(rows[j], tx, vt) ensures AsOfRows(rows, tx, vt).Some? {
      VisibleIsAnswered(rows, tx, vt, j);
    }
    if AsOfRows(rows, tx, vt).Some? {
      i := AsOfIsBest(rows, tx, vt);
      NewestIsBest(rows, i, tx, vt);
    }
  }

  /** A new row that the clamps show, and that outranks what else they show, is the answer. */
  lemma OutrankingAnswers(rows: seq<Record>, r: Record, tx: Clamp, vt: Clamp)
    requires Shown(r, tx, vt) && forall j :: 0 <= j < |rows| && Shown(rows[j], tx, vt) ==> Outranks(r, rows[j])
    ensures AsOfRows(rows + [r], tx, vt) == Some(r)
  {
    var after := rows + [r];
    forall j | 0 <= j < |rows| ensures after[j] == rows[j] {}
    assert after[|rows|] == r;
    assert IsNewest(after, |rows|, tx, vt);
    var i := AnswerIsNewest(after, tx, vt);
  }

  /** Clamping changes the answer if and only if the unclamped answer lies beyond a clamp. */
  lemma ClampKeepsAnswerIff(rows: seq<Record>, tx: Clamp, vt: Clamp)
    requires AsOfRows(rows, None, None).Some?
    ensures AsOfRows(rows, tx, vt) == AsOfRows(rows, None, None)
            <==> Visible(AsOfRows(rows, None, None).value, tx, vt)
  {
    var i := AsOfIsBest(rows, None, None);
    if Visible(rows[i], tx, vt) {
      VisibleIsAnswered(rows, tx, vt, i);
      var k := AsOfIsBest(rows, tx, vt);
      BestIsUnique(rows, tx, vt, i, k);
    } else if AsOfRows(rows, tx, vt).Some? {
      var k := AsOfIsBest(rows, tx, vt);
    }
  }
}
