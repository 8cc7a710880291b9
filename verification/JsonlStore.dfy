/** The JSONL store: an object per process over one shared file. */
module JsonlStore {
  import opened Options
  import opened HashChain
  import opened ChainLog
  import opened JsonlFile

  datatype AppendResult = Appended | ConflictRaised | TruncatedRaised

  datatype AppendOutcome = AppendOutcome(result: AppendResult, file: seq<byte>, st: StoreState)

  /** `append` under the lock: refresh, compare, write one line. */
  function AppendTo(c: Codec, file: seq<byte>, st: StoreState, e: HashChainEntry): AppendOutcome {
    var r := Refresh(c, file, st);
    if !r.ok then AppendOutcome(TruncatedRaised, file, r.st)
    else if e.priorHash != Lookup(r.st.index, e.table, e.entityId) then AppendOutcome(ConflictRaised, file, r.st)
    else AppendOutcome(Appended, file + Line(c, e), StoreState(Put(r.st.index, e), r.st.readOffset + |Line(c, e)|))
  }

  /** On a file of whole lines a store answers and appends as the in-memory
      store over the same entries does, and stays at a line boundary. */
  lemma {:induction false} AppendRefinesInMemory(c: Codec, log: seq<HashChainEntry>, st: StoreState, n: nat,
                                                 e: HashChainEntry)
    requires ValidCodec(c) && Consumed(c, log, st, n)
    ensures var out := AppendTo(c, EncodeLog(c, log), st, e);
            if e.priorHash == Tail(log, e.table, e.entityId) then
              out.result == Appended && out.file == EncodeLog(c, log + [e]) && Consumed(c, log + [e], out.st, |log| + 1)
            else
              out.result == ConflictRaised && out.file == EncodeLog(c, log) && Consumed(c, log, out.st, |log|)
  {
    RefreshCatchesUp(c, log, st, n);
    IndexIsReverseScan(log, e.table, e.entityId);
    assert (log + [e])[..|log| + 1] == log + [e] && (log + [e])[..|log|] == log && log[..|log|] == log;
  }

  class ChainFile {
    var bytes: seq<byte>

    constructor ()
      ensures bytes == []
    {
      bytes := [];
    }
  }

  class JsonlHashChainStore {
    const file: ChainFile
    const codec: Codec
    var tails: map<(string, Option<string>), Hash>
    var tableTails: map<string, Hash>
    var readOffset: nat

    function State(): StoreState
      reads this
    {
      StoreState(Index(tails, tableTails), readOffset)
    }

    constructor (file: ChainFile, codec: Codec)
      ensures this.file == file && this.codec == codec && State() == Unread
    {
      this.file, this.codec := file, codec;
      tails, tableTails, readOffset := map[], map[], 0;
    }

    /** Brings the tail maps up to date with the bytes after the offset. */
    method RefreshTailsLocked() returns (ok: bool)
      modifies this
      ensures Refreshed(ok, State()) == Refresh(codec, file.bytes, old(State()))
    {
      if readOffset >= |file.bytes| {
        return true;
      }
      var chunk := file.bytes[readOffset..];
      if chunk[|chunk| - 1] != NEWLINE {
        return false;
      }
      var lines := SplitLines(chunk);
      ghost var index := Index(tails, tableTails);
      for i := 0 to |lines|
        invariant readOffset == old(readOffset)
        invariant Parse(codec, lines[..i]).ok
        invariant Index(tails, tableTails) == Fold(index, Parse(codec, lines[..i]).entries)
      {
        var raw := lines[i];
        assert lines[..i + 1] == lines[..i] + [raw];
        ParseOneMore(codec, lines[..i], raw);
        if !IsBlank(raw) {
          var entry := codec.decode(raw);
          if entry == None {
            ParseStops(codec, lines, i + 1);
            return false;
          }
          FoldConcat(index, Parse(codec, lines[..i]).entries, [entry.value]);
          tails := tails[(entry.value.table, entry.value.entityId) := entry.value.hash];
          tableTails := tableTails[entry.value.table := entry.value.hash];
        }
      }
      assert lines[..|lines|] == lines;
      readOffset := readOffset + |chunk|;
      return true;
    }

    method TailLocked(table: string, entityId: Option<string>) returns (hash: Hash)
      ensures hash == Lookup(State().index, table, entityId)
    {
      if entityId != None {
        hash := if (table, entityId) in tails then tails[(table, entityId)] else GENESIS_PRIOR_HASH;
      } else {
        hash := if table in tableTails then tableTails[table] else GENESIS_PRIOR_HASH;
      }
    }

    method Append(entry: HashChainEntry) returns (result: AppendResult)
      modifies this, file
      ensures AppendOutcome(result, file.bytes, State())
              == AppendTo(codec, old(file.bytes), old(State()), entry)
    {
      var line := Line(codec, entry);
      var ok := RefreshTailsLocked();
      if !ok {
        return TruncatedRaised;
      }
      var tail := TailLocked(entry.table, entry.entityId);
      if entry.priorHash != tail {
        return ConflictRaised;
      }
      file.bytes := file.bytes + line;
      readOffset := readOffset + |line|;
      tails := tails[(entry.table, entry.entityId) := entry.hash];
      tableTails := tableTails[entry.table := entry.hash];
      return Appended;
    }

    /** None is `TruncatedChainFileError`. */
    method LastEntryHash(table: string, entityId: Option<string>) returns (hash: Option<Hash>)
      modifies this
      ensures var r := Refresh(codec, file.bytes, old(State()));
              State() == r.st && hash == if r.ok then Some(Lookup(r.st.index, table, entityId)) else None
    {
      var ok := RefreshTailsLocked();
      if !ok {
        return None;
      }
      var tail := TailLocked(table, entityId);
      return Some(tail);
    }

    method ReadEntries() returns (entries: Option<seq<HashChainEntry>>)
      ensures entries == LoadEntries(codec, file.bytes)
    {
      var lines := SplitLines(file.bytes);
      var found: seq<HashChainEntry> := [];
      for i := 0 to |lines|
        invariant Parse(codec, lines[..i]) == Parsed(found, true)
      {
        var raw := lines[i];
        assert lines[..i + 1] == lines[..i] + [raw];
        ParseOneMore(codec, lines[..i], raw);
        if !IsBlank(raw) {
          var entry := codec.decode(raw);
          if entry == None {
            ParseStops(codec, lines, i + 1);
            return None;
          }
          found := found + [entry.value];
        }
      }
      assert lines[..|lines|] == lines;
      return Some(found);
    }
  }
}
