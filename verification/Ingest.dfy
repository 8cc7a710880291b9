/** Batch and stream ingestion, and the proof that readers cannot tell the
    order in which records came or how they were batched. */
module Ingest {
  import opened Options
  import opened Bitemporal
  import opened BitemporalStore

  function Settled(rs: seq<Record>, tx: Moment): (settled: seq<Record>)
    ensures |settled| == |rs|
    ensures forall i :: 0 <= i < |rs| ==> settled[i] == rs[i].(transactionTime := tx)
  {
    seq(|rs|, i requires 0 <= i < |rs| => rs[i].(transactionTime := tx))
  }

  /** Rewrites every record to one transaction time and appends the batch. */
  method BatchAppend(store: InMemoryBitemporalStore, rs: seq<Record>, transactionTime: Option<Moment>, now: Moment)
    returns (normalized: seq<Record>, ok: bool)
    modifies store
    ensures normalized == Settled(rs, transactionTime.GetOr(now))
    ensures (store.Abs(), ok) == AppendMany(old(store.Abs()), normalized)
  {
    var tx := transactionTime.GetOr(now);
    normalized := [];
    for i := 0 to |rs|
      invariant |normalized| == i && forall j :: 0 <= j < i ==> normalized[j] == rs[j].(transactionTime := tx)
    {
      normalized := normalized + [rs[i].(transactionTime := tx)];
    }
    assert normalized == Settled(rs, tx);
    ok := store.AddMany(normalized);
  }

  /** Appends one record, at its own transaction time or, if it has none, now. */
  method StreamAppend(store: InMemoryBitemporalStore, r: Record, transactionTime: Option<Moment>, now: Moment)
    returns (stamped: Record, ok: bool)
    modifies store
    ensures stamped == r.(transactionTime := transactionTime.GetOr(now))
    ensures (store.Abs(), ok) == AppendMany(old(store.Abs()), [stamped])
  {
    stamped := r.(transactionTime := match transactionTime case None => now case Some(t) => t);
    assert [stamped][1..] == [];
    ok := store.Add(stamped);
  }

  /** Accepted appends store exactly the given records, under their keys. */
  lemma {:induction false} AcceptedAreStored(t: Table, rs: seq<Record>, key: string)
    requires AppendMany(t, rs).1
    ensures forall r :: r in History(AppendMany(t, rs).0, key) <==> r in History(t, key) || (r in rs && r.key == key)
    decreases |rs|
  {
    if rs != [] {
      var u := Append(t, rs[0]).value;
      AcceptedAreStored(u, rs[1..], key);
      assert forall r :: r in rs <==> r == rs[0] || r in rs[1..];
    }
  }

  /** Splitting a sequence of appends anywhere does not matter. */
  lemma {:induction false} BatchesConcat(t: Table, a: seq<Record>, b: seq<Record>)
    requires AppendMany(t, a).1
    ensures AppendMany(t, a + b) == AppendMany(AppendMany(t, a).0, b)
    decreases |a|
  {
    if a == [] {
      assert a + b == b;
    } else {
      assert (a + b)[0] == a[0] && (a + b)[1..] == a[1..] + b;
      BatchesConcat(Append(t, a[0]).value, a[1..], b);
    }
  }

  /** Some record of key `k` comes before every record of key `l`. */
  predicate UsedBefore(rs: seq<Record>, k: string, l: string) {
    exists m :: 0 <= m < |rs| && rs[m].key == k && forall n :: 0 <= n <= m ==> rs[n].key != l
  }

  predicate IsKey(rs: seq<Record>, k: string) {
    exists m :: 0 <= m < |rs| && rs[m].key == k
  }

  lemma UsedBeforeSnoc(rs: seq<Record>, r: Record, k: string, l: string)
    ensures IsKey(rs + [r], k) <==> IsKey(rs, k) || r.key == k
    ensures UsedBefore(rs, k, l) ==> UsedBefore(rs + [r], k, l)
    ensures IsKey(rs, k) && !IsKey(rs, l) ==> UsedBefore(rs, k, l)
  {
    assert (rs + [r])[|rs|] == r;
    if IsKey(rs, k) {
      var m :| 0 <= m < |rs| && rs[m].key == k;
      assert (rs + [r])[m].key == k;
    }
    if UsedBefore(rs, k, l) {
      var m :| 0 <= m < |rs| && rs[m].key == k && forall n :: 0 <= n <= m ==> rs[n].key != l;
      assert (rs + [r])[m].key == k && forall n :: 0 <= n <= m ==> (rs + [r])[n] == rs[n];
    }
  }

  /** The keys are those of the records, listed once each, in the order of their first records. */
  ghost predicate KeysListed(keys: seq<string>, rs: seq<Record>) {
    && (forall k :: k in keys <==> IsKey(rs, k))
    && forall i, j :: 0 <= i < j < |keys| ==> keys[i] != keys[j] && UsedBefore(rs, keys[i], keys[j])
  }

  lemma ListOneMore(keys: seq<string>, rs: seq<Record>, r: Record)
    requires KeysListed(keys, rs)
    ensures KeysListed(if r.key in keys then keys else keys + [r.key], rs + [r])
  {
    var more := if r.key in keys then keys else keys + [r.key];
    forall k ensures k in more <==> IsKey(rs + [r], k) { UsedBeforeSnoc(rs, r, k, k); }
    forall i, j | 0 <= i < j < |more| ensures more[i] != more[j] && UsedBefore(rs + [r], more[i], more[j]) {
      assert more[i] == keys[i] && keys[i] in keys;
      UsedBeforeSnoc(rs, r, more[i], more[j]);
    }
  }

  lemma {:induction false} LastAppend(init: seq<Record>, last: Record, rs: seq<Record>)
    requires rs == init + [last] && AppendMany(EmptyTable, rs).1
    ensures AppendMany(EmptyTable, init).1
    ensures Append(AppendMany(EmptyTable, init).0, last) == Some(AppendMany(EmptyTable, rs).0)
  {
    PrefixAccepted(EmptyTable, init, [last]);
    BatchesConcat(EmptyTable, init, [last]);
    assert [last][1..] == [];
  }

  lemma {:induction false} KeysComeInOrderOfUse(rs: seq<Record>)
    requires AppendMany(EmptyTable, rs).1
    ensures var t := AppendMany(EmptyTable, rs).0;
            KeysListed(t.order, rs) && WellFormed(t)
  {
    if rs != [] {
      var init, last := rs[..|rs| - 1], rs[|rs| - 1];
      LastAppend(init, last, rs);
      KeysComeInOrderOfUse(init);
      var t := AppendMany(EmptyTable, init).0;
      AppendKeepsForm(t, last);
      ListOneMore(t.order, init, last);
    }
  }

  lemma {:induction false} PrefixAccepted(t: Table, a: seq<Record>, b: seq<Record>)
    requires AppendMany(t, a + b).1
    ensures AppendMany(t, a).1
    decreases |a|
  {
    if a != [] {
      assert (a + b)[0] == a[0] && (a + b)[1..] == a[1..] + b;
      PrefixAccepted(Append(t, a[0]).value, a[1..], b);
    }
  }

  predicate SameAnswer(a: Option<Record>, b: Option<Record>) {
    (a == None <==> b == None) && (a.Some? && b.Some? ==> SameKey(a.value, b.value))
  }

  /** No two different rows share a sort key. */
  predicate DistinctKeys(rows: seq<Record>) {
    forall r, s :: r in rows && s in rows && SameKey(r, s) ==> r == s
  }

  /** The as-of answer depends on the set of rows alone, up to ties in the sort key. */
  lemma AsOfIgnoresOrder(a: seq<Record>, b: seq<Record>, tx: Clamp, vt: Clamp)
    requires forall r :: r in a <==> r in b
    ensures SameAnswer(AsOfRows(a, tx, vt), AsOfRows(b, tx, vt))
    ensures DistinctKeys(a) ==> AsOfRows(a, tx, vt) == AsOfRows(b, tx, vt)
  {
    BestAmong(a, b, tx, vt);
    BestAmong(b, a, tx, vt);
    if AsOfRows(a, tx, vt).Some? {
      KeyOrderIsTotal(AsOfRows(a, tx, vt).value, AsOfRows(b, tx, vt).value);
    }
  }

  lemma BestAmong(a: seq<Record>, b: seq<Record>, tx: Clamp, vt: Clamp)
    requires forall r :: r in a ==> r in b
    ensures AsOfRows(a, tx, vt).Some? ==>
              && AsOfRows(a, tx, vt).value in a && AsOfRows(b, tx, vt).Some?
              && !KeyBelow(AsOfRows(b, tx, vt).value, AsOfRows(a, tx, vt).value)
  {
    if AsOfRows(a, tx, vt).Some? {
      var i := AsOfIsBest(a, tx, vt);
      assert a[i] in b;
      var j :| 0 <= j < |b| && b[j] == a[i];
      VisibleIsAnswered(b, tx, vt, j);
      var k := AsOfIsBest(b, tx, vt);
    }
  }

  /** Batches and streams are indistinguishable to readers: whatever order and
      grouping two stores received the same records in, every as-of query gets
      rows with the same sort key, and the same row if sort keys are distinct. */
  lemma IngestionOrderIsInvisible(a: seq<Record>, b: seq<Record>, key: string, tx: Clamp, vt: Clamp)
    requires AppendMany(EmptyTable, a).1 && AppendMany(EmptyTable, b).1
    requires forall r :: r in a <==> r in b
    ensures var x, y := History(AppendMany(EmptyTable, a).0, key), History(AppendMany(EmptyTable, b).0, key);
            SameAnswer(AsOfRows(x, tx, vt), AsOfRows(y, tx, vt))
            && (DistinctKeys(x) ==> AsOfRows(x, tx, vt) == AsOfRows(y, tx, vt))
  {
    AcceptedAreStored(EmptyTable, a, key);
    AcceptedAreStored(EmptyTable, b, key);
    AsOfIgnoresOrder(History(AppendMany(EmptyTable, a).0, key), History(AppendMany(EmptyTable, b).0, key), tx, vt);
  }
}
