/** The history query of the SQLite backend, which orders rows by the text of
    their times, against the in-memory history, which is in insertion order. */
module SqliteHistory {
  import opened Texts
  import opened Bitemporal
  import opened Sqlite
  import B = BitemporalStore

  // ---- The query ----

  function RowsOfKey(table: seq<Row>, key: string): seq<Row> {
    if table == [] then []
    else RowsOfKey(table[..|table| - 1], key)
         + if table[|table| - 1].record.key == key then [table[|table| - 1]] else []
  }

  predicate RowBefore(a: Row, b: Row) {
    if a.txText != b.txText then TextLess(a.txText, b.txText) else TextLess(a.validText, b.validText)
  }

  /** No element comes after one that it ought to precede. */
  predicate Ordered<T(!new)>(before: (T, T) -> bool, s: seq<T>) {
    forall i, j :: 0 <= i < j < |s| ==> !before(s[j], s[i])
  }

  /** Elements that the order cannot tell apart are the same. */
  ghost predicate NoTies<T(!new)>(before: (T, T) -> bool, s: seq<T>) {
    forall i, j :: 0 <= i < |s| && 0 <= j < |s| && !before(s[i], s[j]) && !before(s[j], s[i]) ==> s[i] == s[j]
  }

  /** WHERE key, ORDER BY transaction text, then valid text.  SQLite does not say
      in which order ties come. */
  predicate IsHistory(table: seq<Row>, key: string, h: seq<Row>) {
    multiset(h) == multiset(RowsOfKey(table, key)) && Ordered(RowBefore, h)
  }

  lemma PrefixMultiset<T>(a: seq<T>, b: seq<T>)
    requires a != [] && b != [] && multiset(a) == multiset(b) && a[|a| - 1] == b[|b| - 1]
    ensures multiset(a[..|a| - 1]) == multiset(b[..|b| - 1])
  {
    assert a == a[..|a| - 1] + [a[|a| - 1]] && b == b[..|b| - 1] + [b[|b| - 1]];
    assert multiset(a[..|a| - 1]) == multiset(a) - multiset{a[|a| - 1]};
    assert multiset(b[..|b| - 1]) == multiset(b) - multiset{b[|b| - 1]};
  }

  lemma OrderedLast<T(!new)>(before: (T, T) -> bool, s: seq<T>, x: T)
    requires Ordered(before, s) && x in multiset(s)
    ensures s != [] && (s[|s| - 1] == x || !before(s[|s| - 1], x))
  {
    assert x in s;
    var i :| 0 <= i < |s| && s[i] == x;
  }

  lemma SameLast<T(!new)>(before: (T, T) -> bool, a: seq<T>, b: seq<T>)
    requires multiset(a) == multiset(b) && Ordered(before, a) && Ordered(before, b) && NoTies(before, a) && a != []
    ensures b != [] && a[|a| - 1] == b[|b| - 1]
  {
    var la := a[|a| - 1];
    assert la in a && la in multiset(b);
    OrderedLast(before, b, la);
    var lb := b[|b| - 1];
    assert lb in b && lb in multiset(a);
    OrderedLast(before, a, lb);
    assert lb in a;
    var i :| 0 <= i < |a| && a[i] == lb;
  }

  /** Without ties there is one way to order the elements. */
  lemma {:induction false} OrderIsUnique<T(!new)>(before: (T, T) -> bool, a: seq<T>, b: seq<T>)
    requires multiset(a) == multiset(b) && Ordered(before, a) && Ordered(before, b) && NoTies(before, a)
    ensures a == b
  {
    if a == [] {
      assert |multiset(b)| == 0;
    } else {
      SameLast(before, a, b);
      PrefixMultiset(a, b);
      OrderIsUnique(before, a[..|a| - 1], b[..|b| - 1]);
      assert a == a[..|a| - 1] + [a[|a| - 1]] && b == b[..|b| - 1] + [b[|b| - 1]];
    }
  }

  // ---- Against insertion order ----

  function RecordsOfKey(rs: seq<Record>, key: string): (found: seq<Record>)
    ensures forall i :: 0 <= i < |found| ==> found[i] in rs
  {
    if rs == [] then []
    else RecordsOfKey(rs[..|rs| - 1], key) + if rs[|rs| - 1].key == key then [rs[|rs| - 1]] else []
  }

  lemma {:induction false} RecordsOfKeyConcat(a: seq<Record>, b: seq<Record>, key: string)
    ensures RecordsOfKey(a + b, key) == RecordsOfKey(a, key) + RecordsOfKey(b, key)
  {
    if b == [] {
      assert a + b == a;
    } else {
      RecordsOfKeyConcat(a, b[..|b| - 1], key);
      assert (a + b)[..|a + b| - 1] == a + b[..|b| - 1];
    }
  }

  lemma {:induction false} RecordsOfKeyCons(rs: seq<Record>, key: string)
    requires rs != []
    ensures RecordsOfKey(rs, key) == (if rs[0].key == key then [rs[0]] else []) + RecordsOfKey(rs[1..], key)
  {
    RecordsOfKeyConcat([rs[0]], rs[1..], key);
    assert [rs[0]] + rs[1..] == rs;
    assert [rs[0]][..0] == [];
  }

  /** The reference keeps a key's records in insertion order. */
  lemma {:induction false} HistoryIsInsertionOrder(t: B.Table, rs: seq<Record>, key: string)
    requires B.AppendMany(t, rs).1
    ensures B.History(B.AppendMany(t, rs).0, key) == B.History(t, key) + RecordsOfKey(rs, key)
    decreases |rs|
  {
    if rs != [] {
      var u := B.Append(t, rs[0]).value;
      HistoryIsInsertionOrder(u, rs[1..], key);
      RecordsOfKeyCons(rs, key);
      assert B.History(u, key) == B.History(t, key) + if rs[0].key == key then [rs[0]] else [];
    }
  }

  lemma RowsSnoc(rs: seq<Record>, r: Record)
    requires Storable(r) && AllStorable(rs)
    ensures Rows(rs + [r]) == Rows(rs) + [ToRow(r)]
  {
  }

  lemma {:induction false} RowsOfKeyAreRecords(rs: seq<Record>, key: string)
    requires AllStorable(rs)
    ensures RowsOfKey(Rows(rs), key) == Rows(RecordsOfKey(rs, key))
  {
    if rs != [] {
      var init, last := rs[..|rs| - 1], rs[|rs| - 1];
      assert rs == init + [last];
      RowsOfKeyAreRecords(init, key);
      RowsSnoc(init, last);
      assert Rows(rs)[..|rs| - 1] == Rows(init);
      if last.key == key {
        RowsSnoc(RecordsOfKey(init, key), last);
      }
    }
  }

  predicate TimeBefore(a: Record, b: Record) {
    a.transactionTime < b.transactionTime || (a.transactionTime == b.transactionTime && a.validTime < b.validTime)
  }

  /** Each record was inserted after those with earlier times. */
  predicate InTimeOrder(rs: seq<Record>) {
    forall i, j :: 0 <= i < j < |rs| ==> !TimeBefore(rs[j], rs[i])
  }

  /** No two records have the same transaction and valid time. */
  predicate TimesDiffer(rs: seq<Record>) {
    forall i, j :: 0 <= i < j < |rs| ==> TimeBefore(rs[i], rs[j]) || TimeBefore(rs[j], rs[i])
  }

  lemma RowOrderIsTimeOrder(r: Record, s: Record)
    requires Storable(r) && Storable(s)
    ensures RowBefore(ToRow(r), ToRow(s)) <==> TimeBefore(r, s)
  {
    TextOrderOfMoments(r.transactionTime, s.transactionTime);
    TextOrderOfMoments(r.validTime, s.validTime);
  }

  lemma RowOrderAt(rs: seq<Record>)
    requires AllStorable(rs)
    ensures forall i, j :: 0 <= i < |rs| && 0 <= j < |rs| ==>
              (RowBefore(Rows(rs)[i], Rows(rs)[j]) <==> TimeBefore(rs[i], rs[j]))
  {
    forall i, j | 0 <= i < |rs| && 0 <= j < |rs|
      ensures RowBefore(Rows(rs)[i], Rows(rs)[j]) <==> TimeBefore(rs[i], rs[j])
    {
      RowOrderIsTimeOrder(rs[i], rs[j]);
    }
  }

  lemma RowsOrderedIff(rs: seq<Record>)
    requires AllStorable(rs)
    ensures Ordered(RowBefore, Rows(rs)) <==> InTimeOrder(rs)
  {
    RowOrderAt(rs);
  }

  lemma RowsHaveNoTies(rs: seq<Record>)
    requires AllStorable(rs) && TimesDiffer(rs)
    ensures NoTies(RowBefore, Rows(rs))
  {
    RowOrderAt(rs);
    TimesApart(rs);
  }

  lemma TimesApart(rs: seq<Record>)
    requires TimesDiffer(rs)
    ensures forall i, j ::
              0 <= i < |rs| && 0 <= j < |rs| && !TimeBefore(rs[i], rs[j]) && !TimeBefore(rs[j], rs[i]) ==> i == j
  {
    forall i, j | 0 <= i < |rs| && 0 <= j < |rs| && !TimeBefore(rs[i], rs[j]) && !TimeBefore(rs[j], rs[i])
      ensures i == j
    {
    }
  }

  /** Rows of one key in the order of an ORDER BY, against the records they came from. */
  lemma OrderedAgreesIff(reference: seq<Record>, h: seq<Row>)
    requires AllStorable(reference)
    requires multiset(h) == multiset(Rows(reference)) && Ordered(RowBefore, h)
    requires TimesDiffer(reference)
    ensures h == Rows(reference) <==> InTimeOrder(reference)
  {
    RowsOrderedIff(reference);
    if InTimeOrder(reference) {
      RowsHaveNoTies(reference);
      OrderIsUnique(RowBefore, Rows(reference), h);
    }
  }

  lemma HistoryOfKey(rs: seq<Record>, key: string)
    requires AllStorable(rs) && B.AppendMany(B.EmptyTable, rs).1
    ensures B.History(B.AppendMany(B.EmptyTable, rs).0, key) == RecordsOfKey(rs, key)
    ensures RowsOfKey(Rows(rs), key) == Rows(RecordsOfKey(rs, key))
  {
    FilledHistory(rs, key);
    RowsOfKeyAreRecords(rs, key);
  }

  lemma FilledHistory(rs: seq<Record>, key: string)
    requires B.AppendMany(B.EmptyTable, rs).1
    ensures B.History(B.AppendMany(B.EmptyTable, rs).0, key) == RecordsOfKey(rs, key)
  {
    HistoryIsInsertionOrder(B.EmptyTable, rs, key);
    assert [] + RecordsOfKey(rs, key) == RecordsOfKey(rs, key);
  }

  /** Records in time order, two of which are tied, have tied neighbours. */
  lemma TiedNeighbours(rs: seq<Record>) returns (i: nat)
    requires InTimeOrder(rs) && !TimesDiffer(rs)
    ensures i + 1 < |rs| && !TimeBefore(rs[i], rs[i + 1]) && !TimeBefore(rs[i + 1], rs[i])
  {
    var a, b :| 0 <= a < b < |rs| && !TimeBefore(rs[a], rs[b]) && !TimeBefore(rs[b], rs[a]);
    assert a + 1 < b ==> !TimeBefore(rs[b], rs[a + 1]);
    return a;
  }

  function Swapped<T>(s: seq<T>, i: nat): seq<T>
    requires i + 1 < |s|
  {
    s[i := s[i + 1]][i + 1 := s[i]]
  }

  lemma SwappedMembers<T>(s: seq<T>, i: nat)
    requires i + 1 < |s|
    ensures multiset(Swapped(s, i)) == multiset(s)
  {
    assert multiset(s[i := s[i + 1]]) == multiset(s) - multiset{s[i]} + multiset{s[i + 1]};
  }

  lemma SwappedStaysInOrder(rs: seq<Record>, i: nat)
    requires InTimeOrder(rs) && i + 1 < |rs| && !TimeBefore(rs[i], rs[i + 1])
    ensures InTimeOrder(Swapped(rs, i))
  {
    var s := Swapped(rs, i);
    forall a, b | 0 <= a < b < |s| ensures !TimeBefore(s[b], s[a]) {
      var a', b' := Source(i, a), Source(i, b);
      assert s[a] == rs[a'] && s[b] == rs[b'];
      assert a' < b' || (a' == i + 1 && b' == i);
    }
  }

  /** Where the element at a position was before a swap. */
  function Source(i: nat, k: nat): nat {
    if k == i then i + 1 else if k == i + 1 then i else k
  }

  lemma SwappedRows(rs: seq<Record>, i: nat)
    requires AllStorable(rs) && i + 1 < |rs|
    ensures forall k :: 0 <= k < |rs| ==> Storable(Swapped(rs, i)[k])
    ensures Rows(Swapped(rs, i)) == Swapped(Rows(rs), i)
  {
  }

  /** Tied neighbours can as well come in the other order. */
  lemma TiesHaveTwoOrders(rs: seq<Record>) returns (g: seq<Row>)
    requires AllStorable(rs) && UniqueIds(rs)
    requires InTimeOrder(rs) && !TimesDiffer(rs)
    ensures multiset(g) == multiset(Rows(rs)) && Ordered(RowBefore, g) && g != Rows(rs)
  {
    var i := TiedNeighbours(rs);
    SwappedStaysInOrder(rs, i);
    SwappedRows(rs, i);
    SwappedMembers(Rows(rs), i);
    RowsOrderedIff(Swapped(rs, i));
    g := Swapped(Rows(rs), i);
    assert g[i].record.recordId != Rows(rs)[i].record.recordId;
  }

  /** Every ordering of the rows is the given one if and only if that is in time order, without ties. */
  lemma EveryOrderAgreesIff(rs: seq<Record>, h: seq<Row>, rows: seq<Row>)
    requires AllStorable(rs) && UniqueIds(rs) && rows == Rows(rs)
    requires multiset(h) == multiset(rows) && Ordered(RowBefore, h)
    ensures (forall g {:trigger Ordered(RowBefore, g)} ::
               multiset(g) == multiset(rows) && Ordered(RowBefore, g) ==> g == rows)
            <==> InTimeOrder(rs) && TimesDiffer(rs)
  {
    if InTimeOrder(rs) && TimesDiffer(rs) {
      forall g | multiset(g) == multiset(rows) && Ordered(RowBefore, g) ensures g == rows {
        OrderedAgreesIff(rs, g);
      }
    } else if InTimeOrder(rs) {
      var g := TiesHaveTwoOrders(rs);
    } else {
      RowsOrderedIff(rs);
    }
  }

  lemma OnlyHistoryIff(table: seq<Row>, key: string, rows: seq<Row>)
    requires rows == RowsOfKey(table, key)
    ensures (forall g {:trigger IsHistory(table, key, g)} :: IsHistory(table, key, g) ==> g == rows)
            <==> (forall g {:trigger Ordered(RowBefore, g)} ::
                    multiset(g) == multiset(rows) && Ordered(RowBefore, g) ==> g == rows)
  {
    forall g: seq<Row>
      ensures IsHistory(table, key, g) <==> multiset(g) == multiset(rows) && Ordered(RowBefore, g)
    {
    }
  }

  /** After the same appends the two backends return the same records as history.
      Every history that SQLite may return is the in-memory one if and only if the
      records of the key were appended in the order of their times, all different. */
  lemma HistoryAgreesIff(rs: seq<Record>, key: string, reference: seq<Record>, h: seq<Row>)
    requires AllStorable(rs) && B.AppendMany(B.EmptyTable, rs).1
    requires reference == B.History(B.AppendMany(B.EmptyTable, rs).0, key) && IsHistory(Rows(rs), key, h)
    ensures AllStorable(reference)
    ensures multiset(h) == multiset(Rows(reference))
    ensures (forall g {:trigger IsHistory(Rows(rs), key, g)} :: IsHistory(Rows(rs), key, g) ==> g == Rows(reference))
            <==> InTimeOrder(reference) && TimesDiffer(reference)
  {
    HistoryOfKey(rs, key);
    IdsStayUnique(B.EmptyTable, rs, key);
    var rows := Rows(reference);
    EveryOrderAgreesIff(reference, h, rows);
    OnlyHistoryIff(Rows(rs), key, rows);
  }

  /** Accepted appends keep the ids of a key unique. */
  lemma {:induction false} IdsStayUnique(t: B.Table, rs: seq<Record>, key: string)
    requires B.AppendMany(t, rs).1 && UniqueIds(B.History(t, key))
    ensures UniqueIds(B.History(B.AppendMany(t, rs).0, key))
    decreases |rs|
  {
    if rs != [] {
      IdsStayUnique(B.Append(t, rs[0]).value, rs[1..], key);
    }
  }

  /** A backdated record is where they differ: appended last, it does not come last in SQLite's history. */
  lemma BackdatedHistoryDiffers(early: Record, late: Record, h: seq<Row>)
    requires Storable(early) && Storable(late) && early.key == late.key && early.recordId != late.recordId
    requires TimeBefore(early, late) && IsHistory(Rows([late, early]), early.key, h)
    ensures B.History(B.AppendMany(B.EmptyTable, [late, early]).0, early.key) == [late, early]
    ensures h != Rows([late, early])
  {
    assert TimeBefore([late, early][0 + 1], [late, early][0]);
    BothAccepted(late, early);
    BackdatedLastDiffers([late, early], early.key, h);
  }

  lemma BackdatedLastDiffers(rs: seq<Record>, key: string, h: seq<Row>)
    requires AllStorable(rs) && B.AppendMany(B.EmptyTable, rs).1 && IsHistory(Rows(rs), key, h)
    requires B.History(B.AppendMany(B.EmptyTable, rs).0, key) == rs
    requires exists i :: 0 <= i < |rs| - 1 && TimeBefore(rs[i + 1], rs[i])
    ensures h != Rows(rs)
  {
    HistoryOfKey(rs, key);
    RowsOrderedIff(rs);
  }

  lemma BothAccepted(a: Record, b: Record)
    requires a.key == b.key && a.recordId != b.recordId
    ensures B.AppendMany(B.EmptyTable, [a, b]).1
    ensures B.History(B.AppendMany(B.EmptyTable, [a, b]).0, a.key) == [a, b]
  {
    var t := B.Append(B.EmptyTable, a).value;
    assert [a, b][1..] == [b] && [b][1..] == [];
    assert B.AppendMany(t, [b]) == (B.Append(t, b).value, true);
    assert [a] + [b] == [a, b];
  }
}
