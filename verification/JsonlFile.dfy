/** A JSONL chain file as bytes: lines, entries, and the incremental tail index
    that each `JsonlHashChainStore` keeps over it. */
module JsonlFile {
  import opened Options
  import opened HashChain
  import opened ChainLog

  type byte = b: int | 0 <= b < 256

  const NEWLINE: byte := 10
  const RETURN: byte := 13

  /** JSON encoding of one entry, and parsing of one line. */
  datatype Codec = Codec(encode: HashChainEntry -> seq<byte>, decode: seq<byte> -> Option<HashChainEntry>)

  /** What the `json` library gives an encoded entry: it is an object on one
      line of printable ASCII that parses back, and no shorter part of it parses. */
  ghost predicate EncodesWell(c: Codec, e: HashChainEntry) {
    && OneLine(c.encode(e)) && c.decode(c.encode(e)) == Some(e)
    && forall k :: 0 < k < |c.encode(e)| ==> c.decode(c.encode(e)[..k]) == None
  }

  ghost predicate ValidCodec(c: Codec) {
    forall e {:trigger EncodesWell(c, e)} :: EncodesWell(c, e)
  }

  predicate OneLine(text: seq<byte>) {
    text != [] && text[0] == 123 && forall i :: 0 <= i < |text| ==> 32 <= text[i] <= 126
  }

  function Line(c: Codec, e: HashChainEntry): seq<byte> {
    c.encode(e) + [NEWLINE]
  }

  function EncodeLog(c: Codec, log: seq<HashChainEntry>): seq<byte> {
    if log == [] then [] else EncodeLog(c, log[..|log| - 1]) + Line(c, log[|log| - 1])
  }

  // ---- bytes.splitlines ----

  /** The first line break at or after `i`, or the end of the text. */
  function LineEndFrom(text: seq<byte>, i: nat): (k: nat)
    requires i <= |text|
    ensures i <= k <= |text|
    decreases |text| - i
  {
    if i == |text| || text[i] == NEWLINE || text[i] == RETURN then i else LineEndFrom(text, i + 1)
  }

  function LineEnd(text: seq<byte>): (k: nat)
    ensures k <= |text|
  {
    LineEndFrom(text, 0)
  }

  lemma {:induction false} LineEndIsFirstBreak(text: seq<byte>, i: nat)
    requires i <= |text|
    ensures var k := LineEndFrom(text, i);
            (k < |text| ==> text[k] == NEWLINE || text[k] == RETURN)
            && forall j :: i <= j < k ==> text[j] != NEWLINE && text[j] != RETURN
    decreases |text| - i
  {
    if i < |text| && text[i] != NEWLINE && text[i] != RETURN {
      LineEndIsFirstBreak(text, i + 1);
    }
  }

  /** Where the next line starts; "\r\n" is one break. */
  function NextLine(text: seq<byte>): (k: nat)
    requires text != []
    ensures 0 < k <= |text|
  {
    var e := LineEnd(text);
    if e == |text| then e
    else if text[e] == RETURN && e + 1 < |text| && text[e + 1] == NEWLINE then e + 2
    else e + 1
  }

  function SplitLines(text: seq<byte>): seq<seq<byte>>
    decreases |text|
  {
    if text == [] then [] else [text[..LineEnd(text)]] + SplitLines(text[NextLine(text)..])
  }

  /** A line break: "\n", "\r\n", or a "\r" that no "\n" follows. */
  predicate IsBreak(end: seq<byte>, rest: seq<byte>) {
    end == [10] || end == [13, 10] || (end == [13] && (rest == [] || rest[0] != 10))
  }

  /** The first line holds no break, and ends at one or at the end of the text. */
  lemma FirstLine(text: seq<byte>) returns (line: seq<byte>, end: seq<byte>, rest: seq<byte>)
    requires text != []
    ensures text == line + end + rest && SplitLines(text) == [line] + SplitLines(rest)
    ensures forall i :: 0 <= i < |line| ==> line[i] != 10 && line[i] != 13
    ensures if end == [] then rest == [] else IsBreak(end, rest)
  {
    var e, n := LineEnd(text), NextLine(text);
    LineEndIsFirstBreak(text, 0);
    line, end, rest := text[..e], text[e..n], text[n..];
    assert text == line + end + rest;
  }

  lemma FirstLineOfConcat(a: seq<byte>, b: seq<byte>) returns (line: seq<byte>, rest: seq<byte>)
    requires a != [] && a[|a| - 1] == NEWLINE
    ensures |rest| < |a| && (rest == [] || rest[|rest| - 1] == NEWLINE)
    ensures SplitLines(a) == [line] + SplitLines(rest)
    ensures SplitLines(a + b) == [line] + SplitLines(rest + b)
  {
    LineEndConcat(a, b);
    line, rest := a[..LineEnd(a)], a[NextLine(a)..];
    SliceConcat(a, b, LineEnd(a));
    SliceConcat(a, b, NextLine(a));
  }

  lemma {:induction false} SplitLinesConcat(a: seq<byte>, b: seq<byte>)
    requires a == [] || a[|a| - 1] == NEWLINE
    ensures SplitLines(a + b) == SplitLines(a) + SplitLines(b)
    decreases |a|
  {
    if a == [] {
      assert a + b == b;
    } else {
      var line, rest := FirstLineOfConcat(a, b);
      SplitLinesConcat(rest, b);
      assert [line] + (SplitLines(rest) + SplitLines(b)) == ([line] + SplitLines(rest)) + SplitLines(b);
    }
  }

  lemma SliceConcat<T>(a: seq<T>, b: seq<T>, n: nat)
    requires n <= |a|
    ensures (a + b)[..n] == a[..n] && (a + b)[n..] == a[n..] + b
  {
  }

  lemma LineEndConcat(a: seq<byte>, b: seq<byte>)
    requires a != [] && a[|a| - 1] == NEWLINE
    ensures LineEnd(a + b) == LineEnd(a) < |a|
    ensures NextLine(a + b) == NextLine(a)
  {
    LineEndIsFirstBreak(a, 0);
    LineEndIsFirstBreak(a + b, 0);
    var i, j := LineEnd(a), LineEnd(a + b);
    assert forall k :: 0 <= k < |a| ==> (a + b)[k] == a[k];
    assert i < |a| by { assert a[|a| - 1] == NEWLINE; }
    assert (a + b)[i] == a[i];
  }

  lemma SplitOneLine(text: seq<byte>)
    requires OneLine(text)
    ensures SplitLines(text + [NEWLINE]) == [text] && SplitLines(text) == [text]
  {
    var t := text + [NEWLINE];
    LineEndIsFirstBreak(t, 0);
    LineEndIsFirstBreak(text, 0);
    assert LineEnd(t) == |text| by {
      assert t[|text|] == NEWLINE;
      assert forall j :: 0 <= j < |text| ==> t[j] == text[j];
    }
    assert t[..|text|] == text && t[NextLine(t)..] == [];
    assert LineEnd(text) == |text|;
    assert text[..|text|] == text && text[NextLine(text)..] == [];
  }

  // ---- Entries of a list of lines ----

  datatype Parsed = Parsed(entries: seq<HashChainEntry>, ok: bool)

  /** `raw.strip()` is empty. */
  predicate IsBlank(line: seq<byte>) {
    forall i :: 0 <= i < |line| ==> line[i] == 32 || 9 <= line[i] <= 13
  }

  /** The entries before the first line that does not parse; blank lines are skipped. */
  function Parse(c: Codec, lines: seq<seq<byte>>): Parsed {
    if lines == [] then Parsed([], true)
    else if IsBlank(lines[0]) then Parse(c, lines[1..])
    else match c.decode(lines[0])
         case None => Parsed([], false)
         case Some(e) =>
           var rest := Parse(c, lines[1..]);
           Parsed([e] + rest.entries, rest.ok)
  }

  lemma {:induction false} ParseConcat(c: Codec, a: seq<seq<byte>>, b: seq<seq<byte>>)
    ensures Parse(c, a + b)
            == if Parse(c, a).ok then Parsed(Parse(c, a).entries + Parse(c, b).entries, Parse(c, b).ok) else Parse(c, a)
  {
    if a == [] {
      assert a + b == b;
    } else {
      assert (a + b)[0] == a[0] && (a + b)[1..] == a[1..] + b;
      ParseConcat(c, a[1..], b);
    }
  }

  predicate IsSpace(b: byte) {
    b == 9 || b == 10 || b == 11 || b == 12 || b == 13 || b == 32
  }

  /** A line of white space does not count; any other line is an entry or ends the parse. */
  lemma LineCounts(c: Codec, before: seq<seq<byte>>, line: seq<byte>, after: seq<seq<byte>>)
    requires Parse(c, before).ok
    ensures var p := Parse(c, before + [line] + after);
            var es := Parse(c, before).entries;
            if forall i :: 0 <= i < |line| ==> IsSpace(line[i]) then p == Parse(c, before + after)
            else if c.decode(line) == None then p == Parsed(es, false)
            else p == Parsed(es + [c.decode(line).value] + Parse(c, after).entries, Parse(c, after).ok)
  {
    ParseConcat(c, before + [line], after);
    ParseConcat(c, before, after);
    ParseOneMore(c, before, line);
    assert IsBlank(line) <==> forall i :: 0 <= i < |line| ==> IsSpace(line[i]);
  }

  lemma {:induction false} EncodeLogConcat(c: Codec, a: seq<HashChainEntry>, b: seq<HashChainEntry>)
    ensures EncodeLog(c, a + b) == EncodeLog(c, a) + EncodeLog(c, b)
  {
    if b == [] {
      assert a + b == a;
    } else {
      var init, last := b[..|b| - 1], b[|b| - 1];
      assert (a + b)[..|a + b| - 1] == a + init;
      EncodeLogConcat(c, a, init);
    }
  }

  lemma EncodeLogEnds(c: Codec, log: seq<HashChainEntry>)
    ensures log == [] <==> EncodeLog(c, log) == []
    ensures log != [] ==> EncodeLog(c, log)[|EncodeLog(c, log)| - 1] == NEWLINE
  {
  }

  lemma ParseSnoc(c: Codec, text: seq<byte>, e: HashChainEntry)
    requires ValidCodec(c)
    requires text == [] || text[|text| - 1] == NEWLINE
    requires Parse(c, SplitLines(text)).ok
    ensures Parse(c, SplitLines(text + Line(c, e))) == Parsed(Parse(c, SplitLines(text)).entries + [e], true)
  {
    var enc := c.encode(e);
    assert EncodesWell(c, e);
    SplitLinesConcat(text, enc + [NEWLINE]);
    SplitOneLine(enc);
    ParseOneMore(c, SplitLines(text), enc);
    assert enc[0] == 123;
  }

  /** Reading back a written file: every line, in order, and nothing else. */
  lemma {:induction false} ParseEncodedLog(c: Codec, log: seq<HashChainEntry>)
    requires ValidCodec(c)
    ensures Parse(c, SplitLines(EncodeLog(c, log))) == Parsed(log, true)
  {
    if log != [] {
      var init, e := log[..|log| - 1], log[|log| - 1];
      ParseEncodedLog(c, init);
      EncodeLogEnds(c, init);
      ParseSnoc(c, EncodeLog(c, init), e);
      assert log == init + [e];
    }
  }

  /** One more line after lines that all parsed. */
  lemma ParseOneMore(c: Codec, lines: seq<seq<byte>>, raw: seq<byte>)
    requires Parse(c, lines).ok
    ensures var entries := Parse(c, lines).entries;
            Parse(c, lines + [raw]) == if IsBlank(raw) then Parsed(entries, true)
                                       else if c.decode(raw) == None then Parsed(entries, false)
                                       else Parsed(entries + [c.decode(raw).value], true)
  {
    ParseConcat(c, lines, [raw]);
    assert [raw][1..] == [];
    var entries := Parse(c, lines).entries;
    assert entries + [] == entries;
  }

  /** Lines after one that does not parse are not reached. */
  lemma ParseStops(c: Codec, lines: seq<seq<byte>>, n: nat)
    requires n <= |lines| && !Parse(c, lines[..n]).ok
    ensures Parse(c, lines) == Parse(c, lines[..n])
  {
    assert lines == lines[..n] + lines[n..];
    ParseConcat(c, lines[..n], lines[n..]);
  }

  // ---- The tail index ----

  datatype Index = Index(tails: map<(string, Option<string>), Hash>, tableTails: map<string, Hash>)

  const EmptyIndex := Index(map[], map[])

  function Put(ix: Index, e: HashChainEntry): Index {
    Index(ix.tails[(e.table, e.entityId) := e.hash], ix.tableTails[e.table := e.hash])
  }

  function Fold(ix: Index, es: seq<HashChainEntry>): Index {
    if es == [] then ix else Put(Fold(ix, es[..|es| - 1]), es[|es| - 1])
  }

  function Lookup(ix: Index, table: string, entityId: Option<string>): Hash {
    if entityId != None then
      if (table, entityId) in ix.tails then ix.tails[(table, entityId)] else GENESIS_PRIOR_HASH
    else
      if table in ix.tableTails then ix.tableTails[table] else GENESIS_PRIOR_HASH
  }

  /** The index answers every tail query as the reverse scan of the log does. */
  lemma {:induction false} IndexIsReverseScan(log: seq<HashChainEntry>, table: string, entityId: Option<string>)
    ensures Lookup(Fold(EmptyIndex, log), table, entityId) == Tail(log, table, entityId)
  {
    if log != [] {
      var init, e := log[..|log| - 1], log[|log| - 1];
      assert log == init + [e];
      IndexIsReverseScan(init, table, entityId);
      LastIndexSnoc(init, e, table, entityId);
    }
  }

  lemma OverlayPut<K, V>(x: map<K, V>, a: map<K, V>, k: K, v: V)
    ensures (x + a)[k := v] == x + a[k := v]
  {
  }

  lemma OverlayTwice<K, V>(x: map<K, V>, a: map<K, V>, b: map<K, V>, d: map<K, V>)
    requires d == a + b
    ensures (x + a) + d == x + d
  {
  }

  /** Folding overlays the entries' own index on what was known before. */
  lemma {:induction false} FoldOverlays(ix: Index, es: seq<HashChainEntry>)
    ensures Fold(ix, es).tails == ix.tails + Fold(EmptyIndex, es).tails
    ensures Fold(ix, es).tableTails == ix.tableTails + Fold(EmptyIndex, es).tableTails
  {
    if es == [] {
      assert ix.tails + map[] == ix.tails && ix.tableTails + map[] == ix.tableTails;
    } else {
      var init, e := es[..|es| - 1], es[|es| - 1];
      FoldOverlays(ix, init);
      OverlayPut(ix.tails, Fold(EmptyIndex, init).tails, (e.table, e.entityId), e.hash);
      OverlayPut(ix.tableTails, Fold(EmptyIndex, init).tableTails, e.table, e.hash);
    }
  }

  lemma {:induction false} FoldConcat(ix: Index, a: seq<HashChainEntry>, b: seq<HashChainEntry>)
    ensures Fold(ix, a + b) == Fold(Fold(ix, a), b)
  {
    if b == [] {
      assert a + b == a;
    } else {
      assert (a + b)[..|a + b| - 1] == a + b[..|b| - 1];
      FoldConcat(ix, a, b[..|b| - 1]);
    }
  }

  /** Folding part of the entries and then all of them is folding them once. */
  lemma RefoldIsIdempotent(ix: Index, part: seq<HashChainEntry>, es: seq<HashChainEntry>)
    requires part <= es
    ensures Fold(Fold(ix, part), es) == Fold(ix, es)
  {
    var rest := es[|part|..];
    var a, b, d := Fold(EmptyIndex, part), Fold(EmptyIndex, rest), Fold(EmptyIndex, es);
    assert es == part + rest;
    FoldConcat(EmptyIndex, part, rest);
    FoldOverlays(a, rest);
    FoldOverlays(ix, part);
    FoldOverlays(ix, es);
    FoldOverlays(Fold(ix, part), es);
    OverlayTwice(ix.tails, a.tails, b.tails, d.tails);
    OverlayTwice(ix.tableTails, a.tableTails, b.tableTails, d.tableTails);
  }

  // ---- Refresh ----

  datatype StoreState = StoreState(index: Index, readOffset: nat)

  datatype Refreshed = Refreshed(ok: bool, st: StoreState)

  const Unread := StoreState(EmptyIndex, 0)

  /** `_refresh_tails_locked`; not ok is `TruncatedChainFileError`, which may
      leave the index partly folded. */
  function Refresh(c: Codec, file: seq<byte>, st: StoreState): Refreshed {
    if st.readOffset >= |file| then Refreshed(true, st)
    else if file[|file| - 1] != NEWLINE then Refreshed(false, st)
    else
      var parsed := Parse(c, SplitLines(file[st.readOffset..]));
      var index := Fold(st.index, parsed.entries);
      if parsed.ok then Refreshed(true, StoreState(index, |file|))
      else Refreshed(false, st.(index := index))
  }

  /** Looking at any file and later at any extension of it, however the first
      look ended, is as good as looking only the second time. */
  lemma LookingEarlyIsInvisible(c: Codec, file: seq<byte>, more: seq<byte>, st: StoreState)
    ensures var early := Refresh(c, file, st).st;
            var again, direct := Refresh(c, file + more, early), Refresh(c, file + more, st);
            again.ok == direct.ok && (direct.ok ==> again.st == direct.st)
  {
    if st.readOffset < |file| && file[|file| - 1] == NEWLINE {
      var chunk, whole := file[st.readOffset..], file + more;
      assert chunk[|chunk| - 1] == NEWLINE;
      var first := Parse(c, SplitLines(chunk));
      assert whole[st.readOffset..] == chunk + more;
      SplitLinesConcat(chunk, more);
      ParseConcat(c, SplitLines(chunk), SplitLines(more));
      if more == [] {
        assert whole == file;
        RefoldIsIdempotent(st.index, first.entries, first.entries);
      } else if first.ok {
        assert whole[|file|..] == more;
        FoldConcat(st.index, first.entries, Parse(c, SplitLines(more)).entries);
      }
    }
  }

  /** A store that has consumed the first `n` entries of the log: its offset is
      the boundary after their lines and its index is their fold. */
  predicate Consumed(c: Codec, log: seq<HashChainEntry>, st: StoreState, n: nat) {
    n <= |log| && st.readOffset == |EncodeLog(c, log[..n])| && st.index == Fold(EmptyIndex, log[..n])
  }

  /** On a file of whole lines a refresh catches up completely, from any boundary. */
  lemma {:induction false} RefreshCatchesUp(c: Codec, log: seq<HashChainEntry>, st: StoreState, n: nat)
    requires ValidCodec(c) && Consumed(c, log, st, n)
    ensures Refresh(c, EncodeLog(c, log), st) == Refreshed(true, StoreState(Fold(EmptyIndex, log), |EncodeLog(c, log)|))
  {
    var file := EncodeLog(c, log);
    assert log == log[..n] + log[n..];
    EncodeLogConcat(c, log[..n], log[n..]);
    assert file[st.readOffset..] == EncodeLog(c, log[n..]);
    EncodeLogEnds(c, log[n..]);
    EncodeLogEnds(c, log);
    ParseEncodedLog(c, log[n..]);
    FoldConcat(EmptyIndex, log[..n], log[n..]);
    if log[n..] == [] {
      assert log[..n] == log;
    }
  }

  /** Behind a torn final line a refresh fails, from any boundary, and learns nothing. */
  lemma RefreshFailsOnTornLine(c: Codec, log: seq<HashChainEntry>, torn: seq<byte>, st: StoreState, n: nat)
    requires Consumed(c, log, st, n)
    requires torn != [] && torn[|torn| - 1] != NEWLINE
    ensures Refresh(c, EncodeLog(c, log) + torn, st) == Refreshed(false, st)
  {
    assert log == log[..n] + log[n..];
    EncodeLogConcat(c, log[..n], log[n..]);
  }

  // ---- load_entries ----

  /** `load_entries`: every entry of the file, or None for `TruncatedChainFileError`. */
  function LoadEntries(c: Codec, file: seq<byte>): Option<seq<HashChainEntry>> {
    var parsed := Parse(c, SplitLines(file));
    if parsed.ok then Some(parsed.entries) else None
  }

  /** After a crash `k` bytes into a line, `load_entries` raises, unless only the
      newline is missing: then it also returns the last entry, although every
      refresh rejects the same file. */
  lemma LoadAfterCrash(c: Codec, log: seq<HashChainEntry>, e: HashChainEntry, k: nat)
    requires ValidCodec(c) && 0 < k <= |c.encode(e)|
    ensures LoadEntries(c, EncodeLog(c, log) + Line(c, e)[..k])
            == if k == |c.encode(e)| then Some(log + [e]) else None
  {
    var torn := Line(c, e)[..k];
    assert torn == c.encode(e)[..k];
    assert EncodesWell(c, e);
    assert OneLine(torn);
    EncodeLogEnds(c, log);
    SplitLinesConcat(EncodeLog(c, log), torn);
    SplitOneLine(torn);
    ParseEncodedLog(c, log);
    ParseOneMore(c, SplitLines(EncodeLog(c, log)), torn);
    assert torn[0] == 123;
    if k == |c.encode(e)| {
      assert torn == c.encode(e);
    } else {
      assert c.decode(c.encode(e)[..k]) == None;
    }
  }
}
