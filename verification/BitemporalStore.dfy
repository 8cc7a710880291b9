/** The append-only in-memory store, read-only as-of views over it, and the
    proof that a view of the past cannot see what was learned later. */
module BitemporalStore {
  import opened Options
  import opened Bitemporal

  /** The store's dictionary: the rows of each key, and the keys in insertion order. */
  datatype Table = Table(rows: map<string, seq<Record>>, order: seq<string>)

  const EmptyTable := Table(map[], [])

  function History(t: Table, key: string): seq<Record> {
    if key in t.rows then t.rows[key] else []
  }

  /** None is the ValueError for a repeated record id. */
  function Append(t: Table, r: Record): Option<Table> {
    if HasId(History(t, r.key), r.recordId) then None
    else Some(Table(t.rows[r.key := History(t, r.key) + [r]], if r.key in t.rows then t.order else t.order + [r.key]))
  }

  /** Appends in order; a failure stops, and what came before it stays. */
  function AppendMany(t: Table, rs: seq<Record>): (Table, bool)
    decreases |rs|
  {
    if rs == [] then (t, true)
    else match Append(t, rs[0])
         case None => (t, false)
         case Some(u) => AppendMany(u, rs[1..])
  }

  ghost predicate WellFormed(t: Table) {
    && (forall k :: k in t.order <==> k in t.rows)
    && (forall k :: k in t.rows ==> t.rows[k] != [])
    && (forall k, r :: k in t.rows && r in t.rows[k] ==> r.key == k)
  }

  lemma AppendKeepsForm(t: Table, r: Record)
    requires WellFormed(t) && Append(t, r).Some?
    ensures WellFormed(Append(t, r).value)
  {
  }

  // ---- Which appends are accepted, and what a rejected batch leaves ----

  /** Record `i` repeats no id that its key already has, in the table or earlier in the batch. */
  predicate FreshAt(t: Table, rs: seq<Record>, i: nat)
    requires i < |rs|
  {
    && !HasId(History(t, rs[i].key), rs[i].recordId)
    && forall j :: 0 <= j < i && rs[j].key == rs[i].key ==> rs[j].recordId != rs[i].recordId
  }

  predicate AllFresh(t: Table, rs: seq<Record>) {
    forall i {:trigger FreshAt(t, rs, i)} :: 0 <= i < |rs| ==> FreshAt(t, rs, i)
  }

  lemma FreshAfter(t: Table, rs: seq<Record>, i: nat)
    requires 0 < i < |rs| && Append(t, rs[0]).Some?
    ensures FreshAt(t, rs, i) <==> FreshAt(Append(t, rs[0]).value, rs[1..], i - 1)
  {
    var u, r, rest := Append(t, rs[0]).value, rs[i], rs[1..];
    var before, after := History(t, r.key), History(u, r.key);
    assert after == if r.key == rs[0].key then before + [rs[0]] else before;
    assert HasId(after, r.recordId) <==>
      HasId(before, r.recordId) || (r.key == rs[0].key && rs[0].recordId == r.recordId) by
    {
      if r.key == rs[0].key { assert after[|before|] == rs[0]; }
      if HasId(before, r.recordId) {
        var k :| 0 <= k < |before| && before[k].recordId == r.recordId;
        assert after[k] == before[k];
      }
    }
    assert forall j :: 0 <= j < i - 1 ==> rest[j] == rs[j + 1];
    assert forall j :: 0 < j < i ==> rs[j] == rest[j - 1];
  }

  /** A batch is accepted if and only if its ids are fresh key by key. */
  lemma {:induction false} AcceptedIffFresh(t: Table, rs: seq<Record>)
    ensures AppendMany(t, rs).1 <==> AllFresh(t, rs)
    decreases |rs|
  {
    if rs != [] {
      assert Append(t, rs[0]).Some? <==> FreshAt(t, rs, 0);
      if Append(t, rs[0]).Some? {
        AcceptedIffFresh(Append(t, rs[0]).value, rs[1..]);
        FreshRestIff(t, rs);
      }
    }
  }

  lemma FreshRestIff(t: Table, rs: seq<Record>)
    requires rs != [] && Append(t, rs[0]).Some?
    ensures AllFresh(t, rs) <==> AllFresh(Append(t, rs[0]).value, rs[1..])
  {
    var u, rest := Append(t, rs[0]).value, rs[1..];
    assert FreshAt(t, rs, 0);
    forall i | 0 < i < |rs| ensures FreshAt(t, rs, i) <==> FreshAt(u, rest, i - 1) {
      FreshAfter(t, rs, i);
    }
    forall i | 0 <= i < |rest| && AllFresh(t, rs) ensures FreshAt(u, rest, i) {
      assert FreshAt(t, rs, i + 1);
    }
    forall i | 0 <= i < |rs| && AllFresh(u, rest) ensures FreshAt(t, rs, i) {
      if i > 0 { assert FreshAt(u, rest, i - 1); }
    }
  }

  /** One id is accepted under two keys. */
  lemma OneIdUnderTwoKeys(r: Record, key: string)
    requires key != r.key
    ensures AppendMany(EmptyTable, [r, r.(key := key)]).1
  {
    var rs := [r, r.(key := key)];
    forall i | 0 <= i < |rs| ensures FreshAt(EmptyTable, rs, i) {}
    AcceptedIffFresh(EmptyTable, rs);
  }

  lemma {:induction false} HistoriesGrow(t: Table, rs: seq<Record>, key: string)
    ensures History(t, key) <= History(AppendMany(t, rs).0, key)
    decreases |rs|
  {
    if rs != [] && Append(t, rs[0]).Some? {
      HistoriesGrow(Append(t, rs[0]).value, rs[1..], key);
    }
  }

  /** A rejected batch leaves the table unchanged if and only if its first record is the one rejected. */
  lemma RejectedBatchIsAtomicIff(t: Table, rs: seq<Record>)
    requires !AppendMany(t, rs).1
    ensures AppendMany(t, rs).0 == t <==> Append(t, rs[0]) == None
  {
    if Append(t, rs[0]).Some? {
      var u := Append(t, rs[0]).value;
      HistoriesGrow(u, rs[1..], rs[0].key);
      assert |History(u, rs[0].key)| == |History(t, rs[0].key)| + 1;
    }
  }

  /** A batch that repeats its own record is rejected, and leaves the first copy behind. */
  lemma RejectedBatchStays(r: Record)
    ensures !AppendMany(EmptyTable, [r, r]).1
    ensures History(AppendMany(EmptyTable, [r, r]).0, r.key) == [r]
  {
    var u := Append(EmptyTable, r).value;
    assert [r, r][1..] == [r];
    assert History(u, r.key) == [r] && History(u, r.key)[0].recordId == r.recordId;
    assert AppendMany(u, [r]) == (u, false);
  }

  class InMemoryBitemporalStore {
    var rows: map<string, seq<Record>>
    var order: seq<string>

    function Abs(): Table
      reads this
    {
      Table(rows, order)
    }

    constructor ()
      ensures Abs() == EmptyTable
    {
      rows, order := map[], [];
    }

    method Add(r: Record) returns (ok: bool)
      modifies this
      ensures ok <==> Append(old(Abs()), r).Some?
      ensures Abs() == if ok then Append(old(Abs()), r).value else old(Abs())
    {
      var bucket := if r.key in rows then rows[r.key] else [];
      for i := 0 to |bucket|
        invariant forall j :: 0 <= j < i ==> bucket[j].recordId != r.recordId
      {
        if bucket[i].recordId == r.recordId {
          return false;
        }
      }
      if r.key !in rows {
        order := order + [r.key];
      }
      rows := rows[r.key := bucket + [r]];
      return true;
    }

    method AddMany(rs: seq<Record>) returns (ok: bool)
      modifies this
      ensures (Abs(), ok) == AppendMany(old(Abs()), rs)
    {
      var i := 0;
      while i < |rs|
        invariant 0 <= i <= |rs|
        invariant AppendMany(old(Abs()), rs) == AppendMany(Abs(), rs[i..])
      {
        var added := Add(rs[i]);
        if !added {
          return false;
        }
        assert rs[i..][1..] == rs[i + 1..];
        i := i + 1;
      }
      return true;
    }

    /** Filters the bucket into candidates, then takes the greatest. */
    method AsOf(key: string, tx: Clamp, vt: Clamp) returns (found: Option<Record>)
      ensures found == AsOfRows(History(Abs(), key), tx, vt)
    {
      var bucket := if key in rows then rows[key] else [];
      var candidates := Candidates(bucket, tx, vt);
      found := Greatest(candidates);
    }
  }

  lemma FilterNext(rows: seq<Record>, i: nat, tx: Clamp, vt: Clamp)
    requires i < |rows|
    ensures Visible(rows[i], tx, vt) ==> Filter(rows[..i + 1], tx, vt) == Filter(rows[..i], tx, vt) + [rows[i]]
    ensures !Visible(rows[i], tx, vt) ==> Filter(rows[..i + 1], tx, vt) == Filter(rows[..i], tx, vt)
  {
    assert rows[..i + 1] == rows[..i] + [rows[i]];
    if Visible(rows[i], tx, vt) {
      FilterLast(rows[..i], rows[i], tx, vt);
    } else {
      FilterSkips(rows[..i], rows[i], tx, vt);
    }
  }

  method Candidates(bucket: seq<Record>, tx: Clamp, vt: Clamp) returns (candidates: seq<Record>)
    ensures candidates == Filter(bucket, tx, vt)
  {
    candidates := [];
    for i := 0 to |bucket|
      invariant candidates == Filter(bucket[..i], tx, vt)
    {
      FilterNext(bucket, i, tx, vt);
      if tx.Some? && bucket[i].transactionTime > tx.value {
        continue;
      }
      if vt.Some? && bucket[i].validTime > vt.value {
        continue;
      }
      candidates := candidates + [bucket[i]];
    }
    assert bucket[..|bucket|] == bucket;
  }

  /** `max(candidates, key=sort_key)`. */
  method Greatest(candidates: seq<Record>) returns (found: Option<Record>)
    ensures found == FirstMax(candidates)
  {
    found := None;
    for i := 0 to |candidates|
      invariant found == FirstMax(candidates[..i])
    {
      assert candidates[..i + 1][..i] == candidates[..i];
      if found == None || KeyBelow(found.value, candidates[i]) {
        found := Some(candidates[i]);
      }
    }
    assert candidates[..|candidates|] == candidates;
  }

  // ---- Filtering twice ----

  /** The tighter of two clamps. */
  function Min(a: Clamp, b: Clamp): Clamp {
    if a == None then b else if b == None then a else if a.value <= b.value then a else b
  }

  lemma MinClamps(t: Moment, a: Clamp, b: Clamp)
    ensures Within(t, Min(a, b)) <==> Within(t, a) && Within(t, b)
  {
  }

  lemma {:induction false} FilterTwice(rows: seq<Record>, tx: Clamp, vt: Clamp, tx': Clamp, vt': Clamp)
    ensures Filter(Filter(rows, tx, vt), tx', vt') == Filter(rows, Min(tx, tx'), Min(vt, vt'))
  {
    if rows != [] {
      var init, last := rows[..|rows| - 1], rows[|rows| - 1];
      FilterTwice(init, tx, vt, tx', vt');
      MinClamps(last.transactionTime, tx, tx');
      MinClamps(last.validTime, vt, vt');
      assert rows == init + [last];
      if Visible(last, tx, vt) {
        FilterLast(init, last, tx, vt);
        FilterLast(Filter(init, tx, vt), last, tx', vt');
        FilterLast(init, last, Min(tx, tx'), Min(vt, vt'));
      } else {
        FilterSkips(init, last, tx, vt);
        FilterSkips(init, last, Min(tx, tx'), Min(vt, vt'));
      }
    }
  }

  lemma {:induction false} FilterUnclamped(rows: seq<Record>)
    ensures Filter(rows, None, None) == rows
  {
    if rows != [] {
      FilterUnclamped(rows[..|rows| - 1]);
    }
  }

  // ---- Views ----

  /** A store, or an `AsOfView` over any store-like thing, a view included. */
  datatype View =
    | Base(table: Table)
    | AsOfView(inner: View, tx: Clamp, vt: Clamp)

  /** The view's constructor; None is the ValueError for a view without clamps. */
  function MakeView(inner: View, tx: Clamp, vt: Clamp): Option<View> {
    if tx == None && vt == None then None else Some(AsOfView(inner, tx, vt))
  }

  /** `as_of`: the caller's clamps narrow the view's own, they never widen it. */
  function AsOf(v: View, key: string, tx: Clamp, vt: Clamp): Option<Record> {
    match v
    case Base(t) => AsOfRows(History(t, key), tx, vt)
    case AsOfView(inner, ownTx, ownVt) =>
      var tx1 := if tx.Some? then tx else ownTx;
      var vt1 := if vt.Some? then vt else ownVt;
      var tx2 := if ownTx.Some? && tx1.Some? && tx1.value > ownTx.value then ownTx else tx1;
      var vt2 := if ownVt.Some? && vt1.Some? && vt1.value > ownVt.value then ownVt else vt1;
      AsOf(inner, key, tx2, vt2)
  }

  function Latest(v: View, key: string): Option<Record> {
    match v
    case Base(_) => AsOf(v, key, None, None)
    case AsOfView(inner, tx, vt) => AsOf(inner, key, tx, vt)
  }

  function ViewHistory(v: View, key: string): seq<Record> {
    match v
    case Base(t) => History(t, key)
    case AsOfView(inner, tx, vt) => Filter(ViewHistory(inner, key), tx, vt)
  }

  function SelectKeys(keys: seq<string>, v: View): seq<string> {
    if keys == [] then []
    else SelectKeys(keys[..|keys| - 1], v) + if ViewHistory(v, keys[|keys| - 1]) != [] then [keys[|keys| - 1]] else []
  }

  function Keys(v: View): seq<string> {
    match v
    case Base(t) => t.order
    case AsOfView(inner, _, _) => SelectKeys(Keys(inner), v)
  }

  // ---- A view is the store cut down to what is visible ----

  function BaseOf(v: View): Table {
    match v
    case Base(t) => t
    case AsOfView(inner, _, _) => BaseOf(inner)
  }

  function TxOf(v: View): Clamp {
    match v
    case Base(_) => None
    case AsOfView(inner, tx, _) => Min(TxOf(inner), tx)
  }

  function VtOf(v: View): Clamp {
    match v
    case Base(_) => None
    case AsOfView(inner, _, vt) => Min(VtOf(inner), vt)
  }

  lemma {:induction false} ViewHistoryIsClamped(v: View, key: string)
    ensures ViewHistory(v, key) == Filter(History(BaseOf(v), key), TxOf(v), VtOf(v))
  {
    match v
    case Base(t) => FilterUnclamped(History(t, key));
    case AsOfView(inner, tx, vt) =>
      ViewHistoryIsClamped(inner, key);
      FilterTwice(History(BaseOf(v), key), TxOf(inner), VtOf(inner), tx, vt);
  }

  /** However deeply views are nested, a query sees the base store at the
      tightest of all the clamps: the caller's and those of every view. */
  lemma {:induction false} ViewAsOfIsClamped(v: View, key: string, tx: Clamp, vt: Clamp)
    ensures AsOf(v, key, tx, vt) == AsOfRows(History(BaseOf(v), key), Min(TxOf(v), tx), Min(VtOf(v), vt))
  {
    match v
    case Base(_) =>
    case AsOfView(inner, ownTx, ownVt) => ViewAsOfIsClamped(inner, key, Min(ownTx, tx), Min(ownVt, vt));
  }

  /** A view answers as a store that holds the view's history and nothing else,
      so caller clamps never widen it and `latest` is the maximum of `history`. */
  lemma ViewAnswersFromItsHistory(v: View, key: string, tx: Clamp, vt: Clamp)
    ensures AsOf(v, key, tx, vt) == AsOfRows(ViewHistory(v, key), tx, vt)
    ensures Latest(v, key) == FirstMax(ViewHistory(v, key))
    ensures AsOf(v, key, tx, vt).Some? ==>
              Visible(AsOf(v, key, tx, vt).value, TxOf(v), VtOf(v)) && Visible(AsOf(v, key, tx, vt).value, tx, vt)
  {
    var rows := History(BaseOf(v), key);
    ViewHistoryIsClamped(v, key);
    ViewAsOfIsClamped(v, key, tx, vt);
    FilterTwice(rows, TxOf(v), VtOf(v), tx, vt);
    if v.AsOfView? {
      ViewAsOfIsClamped(v.inner, key, v.tx, v.vt);
    } else {
      FilterUnclamped(rows);
    }
    if AsOf(v, key, tx, vt).Some? {
      var i := AsOfIsBest(rows, Min(TxOf(v), tx), Min(VtOf(v), vt));
      var r := AsOf(v, key, tx, vt).value;
      MinClamps(r.transactionTime, TxOf(v), tx);
      MinClamps(r.validTime, VtOf(v), vt);
    }
  }

  /** A view of a view is one view at the pointwise minimum of the clamps. */
  lemma ViewsCompose(v: View, tx: Clamp, vt: Clamp, tx': Clamp, vt': Clamp, key: string, qtx: Clamp, qvt: Clamp)
    ensures var nested, flat := AsOfView(AsOfView(v, tx, vt), tx', vt'), AsOfView(v, Min(tx, tx'), Min(vt, vt'));
            && AsOf(nested, key, qtx, qvt) == AsOf(flat, key, qtx, qvt)
            && Latest(nested, key) == Latest(flat, key)
            && ViewHistory(nested, key) == ViewHistory(flat, key)
            && Keys(nested) == Keys(flat)
  {
    var nested, flat := AsOfView(AsOfView(v, tx, vt), tx', vt'), AsOfView(v, Min(tx, tx'), Min(vt, vt'));
    forall k ensures ViewHistory(nested, k) == ViewHistory(flat, k) {
      FilterTwice(ViewHistory(v, k), tx, vt, tx', vt');
    }
    ViewAnswersFromItsHistory(nested, key, qtx, qvt);
    ViewAnswersFromItsHistory(flat, key, qtx, qvt);
    SelectAlike(Keys(v), nested, flat);
    SelectTwice(Keys(v), nested.inner, nested);
  }

  /** The order of `few` is that of `keys`. */
  predicate InOrderOf(few: seq<string>, keys: seq<string>) {
    forall i, j :: 0 <= i < j < |few| ==> exists a, b :: 0 <= a < b < |keys| && keys[a] == few[i] && keys[b] == few[j]
  }

  lemma {:induction false} SelectedKeys(keys: seq<string>, v: View)
    ensures forall k :: k in SelectKeys(keys, v) <==> k in keys && ViewHistory(v, k) != []
    ensures InOrderOf(SelectKeys(keys, v), keys)
  {
    if keys != [] {
      var init, last := keys[..|keys| - 1], keys[|keys| - 1];
      SelectedKeys(init, v);
      var few, all := SelectKeys(init, v), SelectKeys(keys, v);
      assert forall k :: k in keys <==> k in init || k == last;
      forall i, j | 0 <= i < j < |all|
        ensures exists a, b :: 0 <= a < b < |keys| && keys[a] == all[i] && keys[b] == all[j]
      {
        assert all[i] == few[i] && few[i] in few;
        if j < |few| {
          var a, b :| 0 <= a < b < |init| && init[a] == few[i] && init[b] == few[j];
          assert keys[a] == all[i] && keys[b] == all[j];
        } else {
          var a :| 0 <= a < |init| && init[a] == few[i];
          assert keys[a] == all[i] && keys[|keys| - 1] == all[j];
        }
      }
    }
  }

  /** A view lists exactly the keys that have a visible row. */
  lemma {:induction false} ViewKeysAreVisible(v: View, key: string)
    requires WellFormed(BaseOf(v))
    ensures key in Keys(v) <==> exists i :: 0 <= i < |History(BaseOf(v), key)|
                                            && Shown(History(BaseOf(v), key)[i], TxOf(v), VtOf(v))
    ensures v.AsOfView? ==> InOrderOf(Keys(v), Keys(v.inner))
  {
    var rows := History(BaseOf(v), key);
    ViewHistoryIsClamped(v, key);
    FilterEmptyIff(rows, TxOf(v), VtOf(v));
    match v
    case Base(t) => FilterUnclamped(rows);
    case AsOfView(inner, tx, vt) =>
      ViewKeysAreVisible(inner, key);
      ViewHistoryIsClamped(inner, key);
      FilterEmptyIff(rows, TxOf(inner), VtOf(inner));
      SelectedKeys(Keys(inner), v);
  }

  lemma {:induction false} FilterEmptyIff(rows: seq<Record>, tx: Clamp, vt: Clamp)
    ensures Filter(rows, tx, vt) != [] <==> exists i :: 0 <= i < |rows| && Shown(rows[i], tx, vt)
  {
    if rows != [] {
      var init := rows[..|rows| - 1];
      FilterEmptyIff(init, tx, vt);
      assert forall i :: 0 <= i < |init| ==> init[i] == rows[i];
    }
  }

  lemma {:induction false} SelectAlike(keys: seq<string>, v: View, w: View)
    requires forall k :: k in keys ==> (ViewHistory(v, k) == [] <==> ViewHistory(w, k) == [])
    ensures SelectKeys(keys, v) == SelectKeys(keys, w)
  {
    if keys != [] {
      assert keys[|keys| - 1] in keys;
      forall k | k in keys[..|keys| - 1] ensures k in keys {}
      SelectAlike(keys[..|keys| - 1], v, w);
    }
  }

  lemma {:induction false} SelectTwice(keys: seq<string>, v: View, w: View)
    requires w.AsOfView? && w.inner == v
    ensures SelectKeys(SelectKeys(keys, v), w) == SelectKeys(keys, w)
  {
    if keys != [] {
      var init, last := keys[..|keys| - 1], keys[|keys| - 1];
      SelectTwice(init, v, w);
      var s := SelectKeys(init, v);
      assert (s + [last])[..|s|] == s;
      assert s + [] == s;
      var u := SelectKeys(init, w);
      assert u + [] == u;
    }
  }

  // ---- No look-ahead ----

  /** The same views over a different base. */
  function Rebase(v: View, t: Table): View {
    match v
    case Base(_) => Base(t)
    case AsOfView(inner, tx, vt) => AsOfView(Rebase(inner, t), tx, vt)
  }

  lemma {:induction false} RebaseKeepsClamps(v: View, t: Table)
    ensures BaseOf(Rebase(v, t)) == t && TxOf(Rebase(v, t)) == TxOf(v) && VtOf(Rebase(v, t)) == VtOf(v)
  {
    if v.AsOfView? {
      RebaseKeepsClamps(v.inner, t);
    }
  }

  lemma {:induction false} KeysAreSelected(v: View)
    requires v.AsOfView?
    ensures Keys(v) == SelectKeys(BaseOf(v).order, v)
  {
    if v.inner.AsOfView? {
      KeysAreSelected(v.inner);
      SelectTwice(BaseOf(v).order, v.inner, v);
    }
  }

  predicate AnswersAlike(v: View, w: View, key: string, tx: Clamp, vt: Clamp) {
    && ViewHistory(v, key) == ViewHistory(w, key)
    && Latest(v, key) == Latest(w, key)
    && AsOf(v, key, tx, vt) == AsOf(w, key, tx, vt)
  }

  /** Two views that answer every query alike. */
  ghost predicate SameAnswers(v: View, w: View) {
    && Keys(v) == Keys(w)
    && forall key, tx, vt {:trigger AnswersAlike(v, w, key, tx, vt)} :: AnswersAlike(v, w, key, tx, vt)
  }

  lemma SameHistorySameAnswer(v: View, w: View, key: string, tx: Clamp, vt: Clamp)
    requires ViewHistory(v, key) == ViewHistory(w, key)
    ensures AnswersAlike(v, w, key, tx, vt)
  {
    ViewAnswersFromItsHistory(v, key, tx, vt);
    ViewAnswersFromItsHistory(w, key, tx, vt);
  }

  lemma AnswersAlikeChain(u: View, v: View, w: View)
    requires SameAnswers(u, v) && SameAnswers(v, w)
    ensures SameAnswers(u, w)
  {
    forall key, tx, vt ensures AnswersAlike(u, w, key, tx, vt) {
      assert AnswersAlike(u, v, key, tx, vt) && AnswersAlike(v, w, key, tx, vt);
    }
  }

  lemma LateAppendHistory(v: View, r: Record, key: string)
    requires Append(BaseOf(v), r).Some?
    requires TxOf(v).Some? && r.transactionTime > TxOf(v).value
    ensures ViewHistory(Rebase(v, Append(BaseOf(v), r).value), key) == ViewHistory(v, key)
  {
    var t, u := BaseOf(v), Append(BaseOf(v), r).value;
    RebaseKeepsClamps(v, u);
    ViewHistoryIsClamped(v, key);
    ViewHistoryIsClamped(Rebase(v, u), key);
    if key == r.key {
      FilterSnoc(History(t, key), r, TxOf(v), VtOf(v));
      var f := Filter(History(t, key), TxOf(v), VtOf(v));
      assert f + [] == f;
    }
  }

  lemma LateAppendIsInvisible(v: View, r: Record)
    requires WellFormed(BaseOf(v)) && Append(BaseOf(v), r).Some? && v.AsOfView?
    requires TxOf(v).Some? && r.transactionTime > TxOf(v).value
    ensures SameAnswers(v, Rebase(v, Append(BaseOf(v), r).value))
  {
    var t, u := BaseOf(v), Append(BaseOf(v), r).value;
    var w := Rebase(v, u);
    forall key, tx, vt ensures AnswersAlike(v, w, key, tx, vt) {
      LateAppendHistory(v, r, key);
      SameHistorySameAnswer(v, w, key, tx, vt);
    }
    RebaseKeepsClamps(v, u);
    KeysAreSelected(v);
    KeysAreSelected(w);
    forall k | k in t.order ensures ViewHistory(v, k) == ViewHistory(w, k) {
      LateAppendHistory(v, r, k);
    }
    SelectAlike(t.order, v, w);
    if r.key !in t.rows {
      ViewHistoryIsClamped(v, r.key);
      LateAppendHistory(v, r, r.key);
      assert u.order[..|t.order|] == t.order;
      var s := SelectKeys(t.order, w);
      assert s + [] == s;
    }
  }

  /** No look-ahead: whatever is appended later than the view's transaction
      time, the view gives the same answers and shows the same keys. */
  lemma {:induction false} NoLookAhead(v: View, rs: seq<Record>)
    requires WellFormed(BaseOf(v)) && v.AsOfView? && TxOf(v).Some?
    requires forall i :: 0 <= i < |rs| ==> rs[i].transactionTime > TxOf(v).value
    ensures SameAnswers(v, Rebase(v, AppendMany(BaseOf(v), rs).0))
    decreases |rs|
  {
    var t := BaseOf(v);
    RebaseSelf(v);
    if rs != [] && Append(t, rs[0]).Some? {
      var u := Append(t, rs[0]).value;
      AppendKeepsForm(t, rs[0]);
      LateAppendIsInvisible(v, rs[0]);
      RebaseKeepsClamps(v, u);
      NoLookAhead(Rebase(v, u), rs[1..]);
      RebaseTwice(v, u, AppendMany(u, rs[1..]).0);
      AnswersAlikeChain(v, Rebase(v, u), Rebase(v, AppendMany(u, rs[1..]).0));
    } else {
      forall key, tx, vt ensures AnswersAlike(v, v, key, tx, vt) {}
    }
  }

  lemma {:induction false} RebaseSelf(v: View)
    ensures Rebase(v, BaseOf(v)) == v
  {
    if v.AsOfView? { RebaseSelf(v.inner); }
  }

  lemma {:induction false} RebaseTwice(v: View, t: Table, u: Table)
    ensures Rebase(Rebase(v, t), u) == Rebase(v, u)
  {
    if v.AsOfView? { RebaseTwice(v.inner, t, u); }
  }

  lemma {:induction false} SelectNext(keys: seq<string>, i: nat, v: View)
    requires i < |keys|
    ensures ViewHistory(v, keys[i]) != [] ==> SelectKeys(keys[..i + 1], v) == SelectKeys(keys[..i], v) + [keys[i]]
    ensures ViewHistory(v, keys[i]) == [] ==> SelectKeys(keys[..i + 1], v) == SelectKeys(keys[..i], v)
  {
    assert keys[..i + 1][..i] == keys[..i] && keys[..i + 1][i] == keys[i];
    assert SelectKeys(keys[..i], v) + [] == SelectKeys(keys[..i], v);
  }

  /** The object that wraps the in-memory store; it never changes it. */
  class AsOfViewObject {
    const store: InMemoryBitemporalStore
    const tx: Clamp
    const vt: Clamp

    function Abs(): View
      reads store
    {
      AsOfView(Base(store.Abs()), tx, vt)
    }

    /** What `MakeView` accepts. */
    constructor (store: InMemoryBitemporalStore, tx: Clamp, vt: Clamp)
      requires MakeView(Base(store.Abs()), tx, vt).Some?
      ensures this.store == store && this.tx == tx && this.vt == vt
    {
      this.store, this.tx, this.vt := store, tx, vt;
    }

    /** The view over a store, or None for the ValueError. */
    static method Open(store: InMemoryBitemporalStore, tx: Clamp, vt: Clamp) returns (view: Option<AsOfViewObject>)
      ensures view == None <==> tx == None && vt == None
      ensures view.Some? ==> view.value.store == store && view.value.tx == tx && view.value.vt == vt
      ensures match MakeView(Base(store.Abs()), tx, vt)
              case None => view == None
              case Some(v) => view.Some? && fresh(view.value) && view.value.Abs() == v
    {
      if tx == None && vt == None {
        return None;
      }
      var v := new AsOfViewObject(store, tx, vt);
      return Some(v);
    }

    method LatestOf(key: string) returns (r: Option<Record>)
      ensures r == Latest(Abs(), key)
    {
      r := store.AsOf(key, tx, vt);
    }

    method AsOfClamped(key: string, transactionTime: Clamp, validTime: Clamp) returns (r: Option<Record>)
      ensures r == AsOf(Abs(), key, transactionTime, validTime)
    {
      var t := if transactionTime.Some? then transactionTime else tx;
      var v := if validTime.Some? then validTime else vt;
      if tx.Some? && t.Some? && t.value > tx.value {
        t := tx;
      }
      if vt.Some? && v.Some? && v.value > vt.value {
        v := vt;
      }
      r := store.AsOf(key, t, v);
    }

    method VisibleKeys() returns (visible: seq<string>)
      ensures visible == Keys(Abs())
    {
      visible := [];
      var keys := store.order;
      for i := 0 to |keys|
        invariant visible == SelectKeys(keys[..i], Abs())
      {
        SelectNext(keys, i, Abs());
        assert ViewHistory(Abs(), keys[i]) == Filter(History(store.Abs(), keys[i]), tx, vt);
        if Filter(History(store.Abs(), keys[i]), tx, vt) != [] {
          visible := visible + [keys[i]];
        }
      }
      assert keys[..|keys|] == keys;
    }
  }
}
