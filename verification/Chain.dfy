/** Hash-chain entries, the verifier of a chain segment, and what a verified
    segment proves about tampering.

    SHA-256 over canonical JSON is a parameter, any function from the hashed
    fields to a hash.  Nothing assumes that it is injective: tamper evidence
    says "the segments agree, or here are two inputs with one hash". */
module HashChain {
  import opened Options

  type Hash = string

  function Repeat(c: char, n: nat): string {
    if n == 0 then "" else [c] + Repeat(c, n - 1)
  }

  const GENESIS_PRIOR_HASH: Hash := Repeat('0', 64)
  const HASH_SPEC_VERSION := 1

  lemma {:induction false} RepeatsOne(c: char, n: nat)
    ensures |Repeat(c, n)| == n && forall i :: 0 <= i < n ==> Repeat(c, n)[i] == c
  {
    if n > 0 {
      RepeatsOne(c, n - 1);
    }
  }

  /** The chain starts from 64 zeros. */
  lemma GenesisIsZeros()
    ensures |GENESIS_PRIOR_HASH| == 64 && forall i :: 0 <= i < 64 ==> GENESIS_PRIOR_HASH[i] == '0'
  {
    RepeatsOne('0', 64);
  }

  /** A Python `datetime`, in microseconds of local wall time. */
  datatype DateTime = Naive(local: int) | Aware(local: int, offset: int)

  datatype HashChainEntry = HashChainEntry(
    rowId: string,
    table: string,
    entityId: Option<string>,
    observedAt: DateTime,
    recordedAt: DateTime,
    payloadHash: Hash,
    supersedes: Option<string>,
    priorHash: Hash,
    hash: Hash,
    signature: Option<string>)

  /** The dictionary that is encoded and hashed. */
  datatype HashInput = HashInput(
    v: int,
    id: string,
    table: string,
    entity: Option<string>,
    observedAt: int,
    recordedAt: int,
    payloadHash: Hash,
    supersedes: Option<string>,
    priorHash: Hash)

  type Hasher = HashInput -> Hash

  /** The canonical time: nanoseconds of the UTC instant; naive means UTC. */
  function Rfc3339Nanos(dt: DateTime): int {
    match dt
    case Naive(local) => local * 1000
    case Aware(local, offset) => (local - offset) * 1000
  }

  /** The time `dt` is the UTC instant `utc`, in microseconds: local time is UTC
      plus the offset, and a naive time is UTC. */
  predicate Shows(dt: DateTime, utc: int) {
    match dt
    case Naive(local) => local == utc
    case Aware(local, offset) => local == utc + offset
  }

  ghost predicate SameInstant(a: DateTime, b: DateTime) {
    exists utc :: Shows(a, utc) && Shows(b, utc)
  }

  /** What is hashed of a time is its UTC instant, and nothing else. */
  lemma InstantIsHashed(a: DateTime, b: DateTime, utc: int)
    ensures Shows(a, utc) <==> Rfc3339Nanos(a) == 1000 * utc
    ensures SameInstant(a, b) <==> Rfc3339Nanos(a) == Rfc3339Nanos(b)
  {
    var u := match a case Naive(local) => local case Aware(local, offset) => local - offset;
    assert Shows(a, u);
  }

  function EntryInput(e: HashChainEntry): HashInput {
    HashInput(HASH_SPEC_VERSION, e.rowId, e.table, e.entityId, Rfc3339Nanos(e.observedAt),
              Rfc3339Nanos(e.recordedAt), e.payloadHash, e.supersedes, e.priorHash)
  }

  function ComputeEntryHash(h: Hasher, e: HashChainEntry): Hash {
    h(EntryInput(e))
  }

  /** An entry's hash is that of its fields and of the UTC instants of its times,
      with whatever offsets they are written. */
  lemma HashedFields(h: Hasher, e: HashChainEntry, observed: int, recorded: int, o: int, p: int)
    requires Shows(e.observedAt, observed) && Shows(e.recordedAt, recorded)
    ensures ComputeEntryHash(h, e)
            == h(HashInput(1, e.rowId, e.table, e.entityId, 1000 * observed, 1000 * recorded, e.payloadHash,
                           e.supersedes, e.priorHash))
    ensures ComputeEntryHash(h, e)
            == ComputeEntryHash(h, e.(observedAt := Naive(observed), recordedAt := Naive(recorded)))
            == ComputeEntryHash(h, e.(observedAt := Aware(observed + o, o), recordedAt := Aware(recorded + p, p)))
  {
    InstantIsHashed(e.observedAt, e.observedAt, observed);
    InstantIsHashed(e.recordedAt, e.recordedAt, recorded);
  }

  /** The hash that entry `i` of a segment must name as its predecessor. */
  function PriorAt(es: seq<HashChainEntry>, prior: Hash, i: nat): Hash
    requires i <= |es|
  {
    if i == 0 then prior else es[i - 1].hash
  }

  /** Entry `i` names its predecessor's hash and hashes to what it claims. */
  predicate LinkAt(h: Hasher, es: seq<HashChainEntry>, prior: Hash, i: nat)
    requires i < |es|
  {
    es[i].priorHash == PriorAt(es, prior, i) && es[i].hash == ComputeEntryHash(h, es[i])
  }

  predicate Verifies(h: Hasher, es: seq<HashChainEntry>, prior: Hash) {
    forall i {:trigger LinkAt(h, es, prior, i)} :: 0 <= i < |es| ==> LinkAt(h, es, prior, i)
  }

  /** The hash a segment ends in: the next entry's `prior_hash`. */
  function EndHash(es: seq<HashChainEntry>, prior: Hash): Hash {
    PriorAt(es, prior, |es|)
  }

  /** Accepts exactly the segments in which every link holds, and otherwise
      names the row of the first broken link. */
  method VerifyChainSegment(h: Hasher, entries: seq<HashChainEntry>, expectedPrior: Hash)
    returns (ok: bool, rowId: Option<string>)
    ensures ok <==> Verifies(h, entries, expectedPrior)
    ensures ok ==> rowId == None
    ensures !ok ==> exists k :: 0 <= k < |entries| && rowId == Some(entries[k].rowId)
                                && !LinkAt(h, entries, expectedPrior, k)
                                && forall j {:trigger LinkAt(h, entries, expectedPrior, j)} ::
                                     0 <= j < k ==> LinkAt(h, entries, expectedPrior, j)
  {
    var expected := expectedPrior;
    for i := 0 to |entries|
      invariant expected == PriorAt(entries, expectedPrior, i)
      invariant forall j {:trigger LinkAt(h, entries, expectedPrior, j)} ::
          0 <= j < i ==> LinkAt(h, entries, expectedPrior, j)
    {
      var entry := entries[i];
      if entry.priorHash != expected {
        assert !LinkAt(h, entries, expectedPrior, i);
        return false, Some(entry.rowId);
      }
      var recomputed := ComputeEntryHash(h, entry);
      if recomputed != entry.hash {
        assert !LinkAt(h, entries, expectedPrior, i);
        return false, Some(entry.rowId);
      }
      expected := entry.hash;
    }
    return true, None;
  }

  /** Growing a segment by one entry adds one link. */
  lemma VerifiesSnoc(h: Hasher, es: seq<HashChainEntry>, e: HashChainEntry, prior: Hash)
    ensures Verifies(h, es + [e], prior)
            <==> Verifies(h, es, prior) && e.priorHash == EndHash(es, prior) && e.hash == ComputeEntryHash(h, e)
    ensures EndHash(es + [e], prior) == e.hash
  {
    var s := es + [e];
    forall i | 0 <= i < |es| ensures LinkAt(h, s, prior, i) <==> LinkAt(h, es, prior, i) {}
    assert LinkAt(h, s, prior, |es|) <==> e.priorHash == EndHash(es, prior) && e.hash == ComputeEntryHash(h, e);
  }

  /** A window checked from the hash before it says as much as the whole. */
  lemma {:induction false} VerifiesInWindows(h: Hasher, a: seq<HashChainEntry>, b: seq<HashChainEntry>, prior: Hash)
    ensures Verifies(h, a + b, prior) <==> Verifies(h, a, prior) && Verifies(h, b, EndHash(a, prior))
    ensures EndHash(a + b, prior) == EndHash(b, EndHash(a, prior))
  {
    if b == [] {
      assert a + b == a;
    } else {
      var init, last := b[..|b| - 1], b[|b| - 1];
      VerifiesInWindows(h, a, init, prior);
      assert b == init + [last] && a + b == (a + init) + [last];
      VerifiesSnoc(h, a + init, last, prior);
      VerifiesSnoc(h, init, last, EndHash(a, prior));
    }
  }

  // ---- Tamper evidence ----

  /** What comparing two verified segments that end in one hash can yield. */
  datatype Evidence =
    | SameHistory
    | Collision(x: HashInput, y: HashInput)
    | HashesToStart(e: HashChainEntry)

  /** The entries agree in everything but how their instants are written and their signatures. */
  ghost predicate SameEntry(a: HashChainEntry, b: HashChainEntry) {
    && a.rowId == b.rowId && a.table == b.table && a.entityId == b.entityId
    && SameInstant(a.observedAt, b.observedAt) && SameInstant(a.recordedAt, b.recordedAt)
    && a.payloadHash == b.payloadHash && a.supersedes == b.supersedes
    && a.priorHash == b.priorHash && a.hash == b.hash
  }

  lemma SameInputSameEntry(a: HashChainEntry, b: HashChainEntry)
    ensures EntryInput(a) == EntryInput(b) && a.hash == b.hash <==> SameEntry(a, b)
  {
    InstantIsHashed(a.observedAt, b.observedAt, 0);
    InstantIsHashed(a.recordedAt, b.recordedAt, 0);
  }

  ghost predicate SameHashedFields(a: seq<HashChainEntry>, b: seq<HashChainEntry>) {
    |a| == |b| && forall i :: 0 <= i < |a| ==> SameEntry(a[i], b[i])
  }

  ghost predicate Convincing(h: Hasher, a: seq<HashChainEntry>, b: seq<HashChainEntry>, prior: Hash, ev: Evidence) {
    match ev
    case SameHistory => SameHashedFields(a, b)
    case Collision(x, y) =>
      x != y && h(x) == h(y)
      && (exists e :: e in a && EntryInput(e) == x) && (exists e :: e in b && EntryInput(e) == y)
    case HashesToStart(e) => e.hash == prior && (e in a || e in b)
  }

  /** Two segments that verify from one hash and end in one hash agree in every
      hashed field, or they exhibit a collision, or an entry hashing to the
      start of the chain. */
  lemma {:induction false} TamperEvidence(h: Hasher, a: seq<HashChainEntry>, b: seq<HashChainEntry>, prior: Hash)
    returns (ev: Evidence)
    requires Verifies(h, a, prior) && Verifies(h, b, prior)
    requires EndHash(a, prior) == EndHash(b, prior)
    ensures Convincing(h, a, b, prior, ev)
  {
    if a == [] && b == [] {
      return SameHistory;
    } else if a == [] {
      return HashesToStart(b[|b| - 1]);
    } else if b == [] {
      return HashesToStart(a[|a| - 1]);
    }
    var m, n := |a| - 1, |b| - 1;
    assert a == a[..m] + [a[m]] && b == b[..n] + [b[n]];
    VerifiesSnoc(h, a[..m], a[m], prior);
    VerifiesSnoc(h, b[..n], b[n], prior);
    SameInputSameEntry(a[m], b[n]);
    if EntryInput(a[m]) != EntryInput(b[n]) {
      assert a[m] in a && b[n] in b;
      return Collision(EntryInput(a[m]), EntryInput(b[n]));
    }
    ev := TamperEvidence(h, a[..m], b[..n], prior);
  }

  /** An entry rewritten in place, its hash kept, passes verification only if it
      differs in no hashed field, its instants included, or else exhibits a
      collision; when it fails, its row is the one that is named. */
  lemma RewrittenEntryIsExposed(h: Hasher, es: seq<HashChainEntry>, prior: Hash, k: nat, e: HashChainEntry)
    requires k < |es| && Verifies(h, es, prior) && e.hash == es[k].hash
    ensures var after := es[k := e];
            if Verifies(h, after, prior)
            then SameEntry(es[k], e) || (EntryInput(es[k]) != EntryInput(e) && h(EntryInput(es[k])) == h(EntryInput(e)))
            else forall j {:trigger LinkAt(h, after, prior, j)} ::
                   0 <= j < |after| ==> (LinkAt(h, after, prior, j) <==> j != k)
  {
    var after := es[k := e];
    assert LinkAt(h, es, prior, k);
    forall j | 0 <= j < |after| && j != k ensures LinkAt(h, after, prior, j) {
      assert LinkAt(h, es, prior, j);
    }
    SameInputSameEntry(es[k], e);
    if LinkAt(h, after, prior, k) {
      assert EntryInput(es[k]) != EntryInput(e) ==> h(EntryInput(es[k])) == h(EntryInput(e));
    }
  }

  /** No collision among the inputs of the listed entries, none of which hashes to `prior`. */
  predicate Collisionless(h: Hasher, es: seq<HashChainEntry>, prior: Hash) {
    (forall i :: 0 <= i < |es| ==> es[i].hash != prior)
    && forall i, j :: 0 <= i < |es| && 0 <= j < |es| && h(EntryInput(es[i])) == h(EntryInput(es[j]))
                      ==> EntryInput(es[i]) == EntryInput(es[j])
  }

  /** Without collisions, a recorded end hash pins down the whole segment. */
  lemma EndHashPinsSegment(h: Hasher, a: seq<HashChainEntry>, b: seq<HashChainEntry>, prior: Hash)
    requires Verifies(h, a, prior) && Verifies(h, b, prior)
    requires EndHash(a, prior) == EndHash(b, prior)
    requires Collisionless(h, a + b, prior)
    ensures SameHashedFields(a, b)
  {
    var ev := TamperEvidence(h, a, b, prior);
    assert forall e :: e in a || e in b ==> e in a + b;
  }

  /** Without collisions a segment never repeats a hash and never forks. */
  lemma NoForkNoRepeat(h: Hasher, es: seq<HashChainEntry>, prior: Hash, i: nat, j: nat)
    requires Verifies(h, es, prior) && Collisionless(h, es, prior)
    requires i < j < |es|
    ensures es[i].hash != es[j].hash
    ensures es[i].priorHash != es[j].priorHash
  {
    HashesDiffer(h, es, prior, i, j);
    assert LinkAt(h, es, prior, i) && LinkAt(h, es, prior, j);
    if i > 0 {
      HashesDiffer(h, es, prior, i - 1, j - 1);
    }
  }

  lemma VerifiesPrefix(h: Hasher, es: seq<HashChainEntry>, prior: Hash, k: nat)
    requires Verifies(h, es, prior) && k <= |es|
    ensures Verifies(h, es[..k], prior)
  {
    forall i | 0 <= i < k ensures LinkAt(h, es[..k], prior, i) {
      assert LinkAt(h, es, prior, i);
    }
  }

  lemma HashesDiffer(h: Hasher, es: seq<HashChainEntry>, prior: Hash, i: nat, j: nat)
    requires Verifies(h, es, prior) && Collisionless(h, es, prior)
    requires i < j < |es|
    ensures es[i].hash != es[j].hash
  {
    if es[i].hash == es[j].hash {
      VerifiesPrefix(h, es, prior, i + 1);
      VerifiesPrefix(h, es, prior, j + 1);
      var ev := TamperEvidence(h, es[..i + 1], es[..j + 1], prior);
    }
  }
}
