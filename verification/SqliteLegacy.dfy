/** The rewrite of timestamps that earlier versions stored naive or with an
    offset: which rows it selects, what it writes, and when it cannot. */
module SqliteLegacy {
  import opened Options
  import opened Texts
  import opened Instants
  import opened Calendar

  /** A timestamp as an earlier version wrote it: local fields, with or without an offset. */
  datatype Legacy = Legacy(local: Time, offset: Option<Offset>)

  /** `datetime.fromisoformat`, and conversion to UTC, which fails beyond the calendar's end. */
  datatype Clock = Clock(parse: string -> Legacy, toUtc: (Time, Offset) -> Option<Time>)

  function LegacyText(l: Legacy): string {
    IsoText(l.local, OffsetText(l.offset))
  }

  predicate Written(l: Legacy) {
    l.offset.Some? ==> l.offset.value.Valid()
  }

  /** The time whose count is that of the local time, less what the offset is ahead of UTC. */
  predicate IsUtcOf(u: Time, local: Time, o: Offset) {
    Micros(u) == Micros(local) - Ahead(o)
  }

  ghost predicate ValidClock(c: Clock) {
    && (forall l: Legacy {:trigger LegacyText(l)} :: Written(l) ==> c.parse(LegacyText(l)) == l)
    && (forall t: Time, o: Offset, u: Time {:trigger IsUtcOf(u, t, o)} ::
          o.Valid() ==> (c.toUtc(t, o) == Some(u) <==> IsUtcOf(u, t, o)))
  }

  /** The instant a stored text means, if the calendar has it; naive means UTC. */
  function InstantOf(c: Clock, text: string): Option<Time> {
    var l := c.parse(text);
    if l.offset == None then Some(l.local) else c.toUtc(l.local, l.offset.value)
  }

  datatype Stamps = Stamps(valid: string, tx: string)

  /** Both columns are recognisably UTC. */
  predicate IsNormal(row: Stamps) {
    EndsWith(row.valid, UTC_SUFFIX) && EndsWith(row.tx, UTC_SUFFIX)
  }

  function Rewritten(c: Clock, row: Stamps): Option<Stamps> {
    var valid, tx := InstantOf(c, row.valid), InstantOf(c, row.tx);
    if valid.Some? && tx.Some? then Some(Stamps(Iso(valid.value), Iso(tx.value))) else None
  }

  /** The rewrite of one row: both columns, if either is not recognisably UTC. */
  function NormalizeRow(c: Clock, row: Stamps): Option<Stamps> {
    if IsNormal(row) then Some(row) else Rewritten(c, row)
  }

  /** The updates of the rows that a condition selects, or None if one of them cannot be rewritten. */
  method Updates<T>(rows: array<T>, selects: T -> bool, rewrite: T -> Option<T>)
    returns (updates: Option<map<nat, T>>)
    ensures updates == None <==> exists i :: 0 <= i < rows.Length && selects(rows[i]) && rewrite(rows[i]) == None
    ensures updates.Some? ==> forall i: nat :: i in updates.value <==> i < rows.Length && selects(rows[i])
    ensures updates.Some? ==> forall i: nat :: i in updates.value ==> rewrite(rows[i]) == Some(updates.value[i])
  {
    var found: map<nat, T> := map[];
    for i := 0 to rows.Length
      invariant forall j: nat :: j in found <==> j < i && selects(rows[j])
      invariant forall j: nat :: j in found ==> rewrite(rows[j]) == Some(found[j])
    {
      if selects(rows[i]) {
        var rewritten := rewrite(rows[i]);
        if rewritten == None {
          return None;
        }
        found := found[i := rewritten.value];
      }
    }
    return Some(found);
  }

  method Write<T>(rows: array<T>, updates: map<nat, T>)
    modifies rows
    ensures forall i :: 0 <= i < rows.Length ==> rows[i] == if i in updates then updates[i] else old(rows[i])
  {
    for i := 0 to rows.Length
      invariant forall j :: 0 <= j < i ==> rows[j] == if j in updates then updates[j] else old(rows[j])
      invariant forall j :: i <= j < rows.Length ==> rows[j] == old(rows[j])
    {
      if i in updates {
        rows[i] := updates[i];
      }
    }
  }

  /** `_normalize_legacy_timestamps`: converts the rows that are not recognisably
      UTC, and then writes them in one transaction; a conversion that fails leaves
      the table as it was. */
  method NormalizeLegacyTimestamps(c: Clock, rows: array<Stamps>) returns (ok: bool)
    modifies rows
    ensures ok <==> forall i :: 0 <= i < rows.Length ==> NormalizeRow(c, old(rows[i])).Some?
    ensures forall i :: 0 <= i < rows.Length ==>
              rows[i] == if ok then NormalizeRow(c, old(rows[i])).value else old(rows[i])
  {
    var updates := Updates(rows, row => !IsNormal(row), row => Rewritten(c, row));
    if updates == None {
      return false;
    }
    Write(rows, updates.value);
    ok := true;
  }

  /** The UTC time of a legacy timestamp. */
  predicate Means(l: Legacy, u: Time) {
    match l.offset
    case None => u == l.local
    case Some(o) =>
      var seconds := (o.hours * 60 + o.minutes) * 60 + o.seconds;
      if o.negative then Micros(u) == Micros(l.local) + seconds * 1_000_000 + o.micros
      else Micros(u) == Micros(l.local) - seconds * 1_000_000 - o.micros
  }

  lemma InstantIsMeant(c: Clock, l: Legacy, u: Time)
    requires ValidClock(c) && Written(l)
    ensures InstantOf(c, LegacyText(l)) == Some(u) <==> Means(l, u)
  {
    assert c.parse(LegacyText(l)) == l;
    match l.offset
    case None =>
    case Some(o) => assert c.toUtc(l.local, o) == Some(u) <==> IsUtcOf(u, l.local, o);
  }

  lemma InstantIsMeantIff(c: Clock, l: Legacy)
    requires ValidClock(c) && Written(l)
    ensures match InstantOf(c, LegacyText(l))
            case None => forall u :: !Means(l, u)
            case Some(u) => Means(l, u)
  {
    forall u ensures InstantOf(c, LegacyText(l)) == Some(u) <==> Means(l, u) { InstantIsMeant(c, l, u); }
  }

  /** A text that the LIKE pattern passes over is already that of its UTC time. */
  lemma UtcSuffixIsNormal(l: Legacy)
    requires Written(l) && EndsWith(LegacyText(l), UTC_SUFFIX)
    ensures LegacyText(l) == Iso(l.local) && Means(l, l.local)
  {
    SuffixMeansUtc(l.local, l.offset);
    OffsetEnds(UTC);
  }

  /** The rewrite alters only how times are written: a row ends up with the texts
      of the UTC times that its timestamps meant, and cannot be rewritten if and
      only if the calendar lacks one of them. */
  lemma NormalizingKeepsInstants(c: Clock, valid: Legacy, tx: Legacy)
    requires ValidClock(c) && Written(valid) && Written(tx)
    ensures match NormalizeRow(c, Stamps(LegacyText(valid), LegacyText(tx)))
            case Some(row) =>
              exists u: Time, v: Time :: Means(valid, u) && Means(tx, v) && row == Stamps(Iso(u), Iso(v))
            case None => (forall u :: !Means(valid, u)) || forall v :: !Means(tx, v)
  {
    var before := Stamps(LegacyText(valid), LegacyText(tx));
    if IsNormal(before) {
      UtcSuffixIsNormal(valid);
      UtcSuffixIsNormal(tx);
      assert before == Stamps(Iso(valid.local), Iso(tx.local));
    } else {
      InstantIsMeantIff(c, valid);
      InstantIsMeantIff(c, tx);
    }
  }

  /** After the rewrite the order of the texts is the order of what the timestamps meant. */
  lemma NormalizedOrder(a: Legacy, b: Legacy, u: Time, v: Time)
    requires Means(a, u) && Means(b, v)
    ensures TextLess(Iso(u), Iso(v)) <==>
              Micros(a.local) - (if a.offset.Some? then Ahead(a.offset.value) else 0)
              < Micros(b.local) - (if b.offset.Some? then Ahead(b.offset.value) else 0)
  {
    TextOrderIsMicrosOrder(u, v);
  }
}
