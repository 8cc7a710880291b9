/** File descriptors from server reflection: the closure of collected files
    under their imports, and the depth-first order in which they are added. */
module Descriptors {
  import opened Sequences

  datatype FileProto = FileProto(name: string, dependency: seq<string>)

  type Files = map<string, FileProto>

  // ---- Import paths ----

  predicate EdgeAt(files: Files, p: seq<string>, i: nat)
    requires i + 1 < |p|
  {
    p[i] in files && p[i + 1] in files && p[i + 1] in files[p[i]].dependency
  }

  predicate IsPath(files: Files, p: seq<string>) {
    |p| > 0 && forall i {:trigger EdgeAt(files, p, i)} :: 0 <= i < |p| - 1 ==> EdgeAt(files, p, i)
  }

  /** Following imports inside the set leads from one file to another (or stays). */
  ghost predicate Reaches(files: Files, a: string, b: string) {
    exists p :: IsPath(files, p) && p[0] == a && p[|p| - 1] == b
  }

  lemma ReachesSelf(files: Files, a: string)
    ensures Reaches(files, a, a)
  {
    assert IsPath(files, [a]) && [a][0] == a;
  }

  lemma ReachesImport(files: Files, a: string, b: string, c: string)
    requires Reaches(files, a, b) && b in files && c in files && c in files[b].dependency
    ensures Reaches(files, a, c)
  {
    var p :| IsPath(files, p) && p[0] == a && p[|p| - 1] == b;
    var q := p + [c];
    forall i | 0 <= i < |q| - 1 ensures EdgeAt(files, q, i) {
      assert i < |p| - 1 ==> EdgeAt(files, p, i);
    }
    assert IsPath(files, q) && q[0] == a && q[|q| - 1] == c;
  }

  /** No file of the set imports, directly or not, itself. */
  ghost predicate Acyclic(files: Files) {
    forall a, d :: a in files && d in files[a].dependency && d in files ==> !Reaches(files, d, a)
  }

  // ---- Orders ----

  predicate DependencyAt(files: Files, names: seq<string>, k: nat, d: string)
    requires k < |names|
  {
    names[k] in files && d in files[names[k]].dependency && d in files
  }

  /** Each import of a listed file inside the set is listed before it, or lies on a cycle with it. */
  ghost predicate Respects(files: Files, names: seq<string>) {
    forall k, d {:trigger DependencyAt(files, names, k, d)} ::
      0 <= k < |names| && DependencyAt(files, names, k, d) ==> d in names[..k] || Reaches(files, d, names[k])
  }

  /** Every import of a listed file inside the set is listed before it. */
  ghost predicate IsTopological(files: Files, names: seq<string>) {
    forall k, d {:trigger DependencyAt(files, names, k, d)} ::
      0 <= k < |names| && DependencyAt(files, names, k, d) ==> d in names[..k]
  }

  /** An order with all imports first makes positions fall along every import path. */
  lemma {:induction false} PositionsFall(files: Files, names: seq<string>, p: seq<string>, i: nat) returns (j: nat)
    requires IsTopological(files, names) && IsPath(files, p)
    requires i < |names| && names[i] == p[0]
    ensures j <= i && names[j] == p[|p| - 1]
    ensures |p| > 1 ==> j < i
    decreases |p|
  {
    if |p| == 1 {
      return i;
    }
    assert EdgeAt(files, p, 0);
    assert DependencyAt(files, names, i, p[1]);
    var k :| 0 <= k < i && names[..i][k] == p[1];
    var q := p[1..];
    forall m | 0 <= m < |q| - 1 ensures EdgeAt(files, q, m) {
      assert EdgeAt(files, p, m + 1);
    }
    j := PositionsFall(files, names, q, k);
  }

  /** The order the sort produces is topological if and only if the imports have no cycle. */
  lemma TopologicalIffAcyclic(files: Files, names: seq<string>)
    requires NoRepeats(names) && (forall n :: n in names <==> n in files) && Respects(files, names)
    ensures IsTopological(files, names) <==> Acyclic(files)
  {
    if Acyclic(files) {
      forall k, d | 0 <= k < |names| && DependencyAt(files, names, k, d) ensures d in names[..k] {
        assert !Reaches(files, d, names[k]);
      }
    }
    if IsTopological(files, names) {
      forall a, d | a in files && d in files[a].dependency && d in files ensures !Reaches(files, d, a) {
        if Reaches(files, d, a) {
          var p :| IsPath(files, p) && p[0] == d && p[|p| - 1] == a;
          var i :| 0 <= i < |names| && names[i] == a;
          assert DependencyAt(files, names, i, d);
          var k :| 0 <= k < i && names[..i][k] == d;
          var j := PositionsFall(files, names, p, k);
        }
      }
    }
  }

  // ---- The sort ----

  class TopoSorter {
    const files: Files
    var ordered: seq<string>
    var seen: set<string>

    ghost predicate Valid()
      reads this
    {
      && NoRepeats(ordered) && (forall n :: n in ordered <==> n in seen) && seen <= files.Keys
      && Respects(files, ordered)
    }

    constructor (files: Files)
      ensures this.files == files && ordered == [] && Valid()
    {
      this.files, ordered, seen := files, [], {};
    }

    /** Visits a file below the files on the recursion stack.  It terminates on
        any graph, because the stack grows inside the set of files. */
    method Visit(name: string, stack: set<string>)
      requires Valid() && stack <= files.Keys
      requires name in files ==> forall s :: s in stack ==> Reaches(files, s, name)
      modifies this
      ensures Valid() && old(ordered) <= ordered
      ensures name in files ==> name in seen || name in stack
      ensures forall n :: n in seen && n !in old(seen) ==> n !in stack
      decreases files.Keys - stack
    {
      if name in seen || name in stack || name !in files {
        return;
      }
      var deps := files[name].dependency;
      for i := 0 to |deps|
        invariant Valid() && old(ordered) <= ordered
        invariant forall n :: n in seen && n !in old(seen) ==> n !in stack + {name}
        invariant forall j :: 0 <= j < i && deps[j] in files ==> deps[j] in seen || deps[j] in stack + {name}
      {
        ReachesSelf(files, name);
        if deps[i] in files {
          forall s | s in stack + {name} ensures Reaches(files, s, deps[i]) {
            ReachesImport(files, s, name, deps[i]);
          }
        }
        Visit(deps[i], stack + {name});
      }
      Emit(name, stack);
    }

    method Emit(name: string, stack: set<string>)
      requires Valid() && name in files && name !in seen
      requires forall s :: s in stack ==> Reaches(files, s, name)
      requires forall d :: d in files[name].dependency && d in files ==> d in seen || d in stack + {name}
      modifies this
      ensures Valid() && ordered == old(ordered) + [name] && seen == old(seen) + {name}
    {
      EmitKeepsOrder(files, ordered, seen, name, stack);
      seen := seen + {name};
      ordered := ordered + [name];
    }

    /** Emits every file of the set exactly once. */
    method SortAll(names: seq<string>)
      requires Valid() && ordered == [] && forall n :: n in names <==> n in files
      modifies this
      ensures NoRepeats(ordered) && (forall n :: n in ordered <==> n in files)
      ensures Respects(files, ordered)
      ensures IsTopological(files, ordered) <==> Acyclic(files)
    {
      for i := 0 to |names|
        invariant Valid()
        invariant forall j :: 0 <= j < i ==> names[j] in seen
      {
        assert names[i] in names;
        Visit(names[i], {});
      }
      assert forall n :: n in names ==> n in seen;
      TopologicalIffAcyclic(files, ordered);
    }
  }

  lemma EmitKeepsOrder(files: Files, ordered: seq<string>, seen: set<string>, name: string, stack: set<string>)
    requires NoRepeats(ordered) && (forall n :: n in ordered <==> n in seen) && Respects(files, ordered)
    requires name in files && name !in seen
    requires forall s :: s in stack ==> Reaches(files, s, name)
    requires forall d :: d in files[name].dependency && d in files ==> d in seen || d in stack + {name}
    ensures NoRepeats(ordered + [name]) && Respects(files, ordered + [name])
  {
    var after := ordered + [name];
    assert after[..|ordered|] == ordered;
    forall i | 0 <= i < |ordered| ensures after[i] != name {
      assert ordered[i] in ordered;
    }
    forall k, d | 0 <= k < |after| && DependencyAt(files, after, k, d)
      ensures d in after[..k] || Reaches(files, d, after[k])
    {
      if k < |ordered| {
        assert DependencyAt(files, ordered, k, d);
        assert after[..k] == ordered[..k];
      } else {
        ReachesSelf(files, name);
      }
    }
  }

  // ---- Collecting ----

  /** The reflection service: the files that define a symbol, and those a filename names. */
  datatype Server = Server(bySymbol: string -> seq<FileProto>, byFilename: string -> seq<FileProto>)

  const REFLECTION_PREFIX := "grpc.reflection."

  predicate IsReflection(service: string) {
    REFLECTION_PREFIX <= service
  }

  /** The reflection services are those whose names start so. */
  lemma ReflectionIsAPrefix(service: string)
    ensures IsReflection(service) <==> exists rest: string :: service == "grpc.reflection." + rest
  {
    if IsReflection(service) {
      assert service == REFLECTION_PREFIX + service[|REFLECTION_PREFIX|..];
    }
  }

  /** Imports that are not yet collected. */
  function Missing(out: Files, deps: seq<string>): (names: seq<string>)
    ensures forall d :: d in names <==> d in deps && d !in out
  {
    if deps == [] then []
    else
      assert forall d :: d in deps <==> d == deps[0] || d in deps[1..];
      (if deps[0] in out then [] else [deps[0]]) + Missing(out, deps[1..])
  }

  /** Every file is under its own name, and each import of a collected file is
      collected, still pending, or was asked for. */
  predicate Closing(out: Files, pending: seq<string>, asked: set<string>) {
    && (forall n :: n in out ==> out[n].name == n)
    && forall n, d :: n in out && d in out[n].dependency ==> d in out || d in pending || d in asked
  }

  /** Some collected file imports `d`. */
  ghost predicate IsImport(out: Files, d: string) {
    exists n :: n in out && d in out[n].dependency
  }

  ghost predicate AllImports(out: Files, pending: seq<string>) {
    forall d :: d in pending ==> IsImport(out, d)
  }

  lemma ImportsStay(out: Files, more: Files, pending: seq<string>)
    requires AllImports(out, pending) && forall n :: n in out ==> n in more && more[n] == out[n]
    ensures AllImports(more, pending)
  {
    forall d | d in pending ensures IsImport(more, d) {
      assert IsImport(out, d);
      var n :| n in out && d in out[n].dependency;
      assert n in more && d in more[n].dependency;
    }
  }

  /** The first file of its name in a response. */
  predicate IsFirst(raws: seq<FileProto>, f: FileProto) {
    exists k :: 0 <= k < |raws| && raws[k] == f && forall j :: 0 <= j < k ==> raws[j].name != f.name
  }

  /** Takes in the files of one response. */
  method IngestAll(out: Files, pending: seq<string>, raws: seq<FileProto>, ghost asked: set<string>)
    returns (out': Files, pending': seq<string>)
    requires Closing(out, pending, asked) && AllImports(out, pending)
    ensures Closing(out', pending', asked) && AllImports(out', pending')
    ensures forall n :: n in out ==> n in out' && out'[n] == out[n]
    ensures forall f :: f in raws ==> f.name in out'
    ensures forall n :: n in out' && n !in out ==> out'[n] in raws && IsFirst(raws, out'[n])
    ensures out'.Keys == out.Keys ==> pending' == pending
  {
    out', pending' := out, pending;
    for i := 0 to |raws|
      invariant Closing(out', pending', asked) && AllImports(out', pending')
      invariant forall n :: n in out ==> n in out' && out'[n] == out[n]
      invariant forall j :: 0 <= j < i ==> raws[j].name in out'
      invariant forall n :: n in out' && n !in out ==> out'[n] in raws && IsFirst(raws, out'[n])
      invariant out'.Keys == out.Keys ==> pending' == pending && out' == out
    {
      if raws[i].name !in out' {
        ghost var known := out';
        out' := out'[raws[i].name := raws[i]];
        ImportsStay(known, out', pending');
        var missing := Missing(out', raws[i].dependency);
        forall d | d in missing ensures IsImport(out', d) {
          assert d in out'[raws[i].name].dependency;
        }
        pending' := pending' + missing;
      }
    }
  }

  /** The server only ever returns files with names from a finite set. */
  ghost predicate Finite(server: Server, universe: set<string>) {
    && (forall s, f {:trigger f in server.bySymbol(s)} :: f in server.bySymbol(s) ==> f.name in universe)
    && (forall n, f {:trigger f in server.byFilename(n)} :: f in server.byFilename(n) ==> f.name in universe)
  }

  /** A file that was returned for a service, other than the reflection service,
      or for the name of an import of a collected file. */
  ghost predicate WasAskedFor(server: Server, services: seq<string>, out: Files, f: FileProto) {
    || (exists s :: s in services && !IsReflection(s) && IsFirst(server.bySymbol(s), f))
    || (exists d :: IsImport(out, d) && IsFirst(server.byFilename(d), f))
  }

  ghost predicate AllAskedFor(server: Server, services: seq<string>, out: Files) {
    forall n :: n in out ==> WasAskedFor(server, services, out, out[n])
  }

  lemma AskedForStay(server: Server, services: seq<string>, out: Files, more: Files)
    requires AllAskedFor(server, services, out) && forall n :: n in out ==> n in more && more[n] == out[n]
    requires forall n :: n in more && n !in out ==> WasAskedFor(server, services, more, more[n])
    ensures AllAskedFor(server, services, more)
  {
    forall n | n in out ensures WasAskedFor(server, services, more, out[n]) {
      assert WasAskedFor(server, services, out, out[n]);
      if d :| IsImport(out, d) && IsFirst(server.byFilename(d), out[n]) {
        ImportsStay(out, more, [d]);
        assert d in [d];
      }
    }
  }

  /** Every file is under its own name and was asked for, and every import of it is
      there too, unless the server, asked by name, returned no such file. */
  ghost predicate Closed(server: Server, services: seq<string>, out: Files) {
    && (forall n :: n in out ==> out[n].name == n)
    && AllAskedFor(server, services, out)
    && forall n, d :: n in out && d in out[n].dependency ==>
         d in out || forall f :: f in server.byFilename(d) ==> f.name != d
  }

  /** What collection keeps: `asked` are the names that the server was asked for. */
  ghost predicate Collecting(server: Server, services: seq<string>, universe: set<string>, out: Files,
                             pending: seq<string>, asked: set<string>) {
    && Closing(out, pending, asked) && AllImports(out, pending) && out.Keys <= universe
    && AllAskedFor(server, services, out)
    && forall d, f :: d in asked && f in server.byFilename(d) ==> f.name in out
  }

  /** The files of one service. */
  method AskForService(server: Server, services: seq<string>, service: string, out: Files, pending: seq<string>,
                       ghost universe: set<string>)
    returns (out': Files, pending': seq<string>)
    requires Finite(server, universe) && service in services && !IsReflection(service)
    requires Collecting(server, services, universe, out, pending, {})
    ensures Collecting(server, services, universe, out', pending', {})
    ensures out.Keys <= out'.Keys && forall f :: f in server.bySymbol(service) ==> f.name in out'
  {
    out', pending' := IngestAll(out, pending, server.bySymbol(service), {});
    forall n | n in out' && n !in out ensures n in universe {
      assert out'[n] in server.bySymbol(service);
    }
    AskedForStay(server, services, out, out');
  }

  /** The files of every service but the reflection services. */
  method AskForServices(server: Server, services: seq<string>, ghost universe: set<string>)
    returns (out: Files, pending: seq<string>)
    requires Finite(server, universe)
    ensures Collecting(server, services, universe, out, pending, {})
    ensures forall s, f :: s in services && !IsReflection(s) && f in server.bySymbol(s) ==> f.name in out
  {
    out, pending := map[], [];
    for i := 0 to |services|
      invariant Collecting(server, services, universe, out, pending, {})
      invariant forall s, f :: s in services[..i] && !IsReflection(s) && f in server.bySymbol(s) ==> f.name in out
    {
      ghost var known := out;
      if !IsReflection(services[i]) {
        out, pending := AskForService(server, services, services[i], out, pending, universe);
      }
      assert forall s :: s in services[..i + 1] ==> s in services[..i] || s == services[i];
    }
  }

  /** The files of one name that is wanted and not yet collected. */
  method AskForName(server: Server, services: seq<string>, name: string, out: Files, pending: seq<string>,
                    ghost universe: set<string>, ghost asked: set<string>)
    returns (out': Files, pending': seq<string>)
    requires Finite(server, universe) && name !in out
    requires Collecting(server, services, universe, out, pending + [name], asked)
    ensures Collecting(server, services, universe, out', pending', asked + {name})
    ensures out.Keys <= out'.Keys && (out'.Keys == out.Keys ==> pending' == pending)
  {
    assert forall d :: d in pending + [name] <==> d in pending || d == name;
    assert IsImport(out, name);
    out', pending' := IngestAll(out, pending, server.byFilename(name), asked + {name});
    ImportsStay(out, out', [name]);
    assert name in [name] && IsImport(out', name);
    AskedForStay(server, services, out, out');
  }

  /** Collection ends with every file that the services' responses contained, and
      with every import of every collected file, except those for which the
      server, asked by name, returned no such file; and with nothing else. */
  method CollectFiles(server: Server, services: seq<string>, ghost universe: set<string>) returns (out: Files)
    requires Finite(server, universe)
    ensures Closed(server, services, out)
    ensures forall s, f :: s in services && !IsReflection(s) && f in server.bySymbol(s) ==> f.name in out
  {
    var pending;
    out, pending := AskForServices(server, services, universe);
    ghost var first := out;
    ghost var asked: set<string> := {};
    while pending != []
      invariant Collecting(server, services, universe, out, pending, asked)
      invariant first.Keys <= out.Keys
      decreases universe - out.Keys, |pending|
    {
      var name := pending[|pending| - 1];
      SplitLast(pending);
      pending := pending[..|pending| - 1];
      if name !in out {
        ghost var known := out;
        KnownNames(server, services, universe, out, pending + [name], asked);
        out, pending := AskForName(server, services, name, out, pending, universe, asked);
        asked := asked + {name};
        KnownNames(server, services, universe, out, pending, asked);
      } else {
        StillCollecting(server, services, universe, out, pending, name, asked);
      }
    }
    NothingPending(server, services, universe, out, asked);
  }

  lemma SplitLast(pending: seq<string>)
    requires pending != []
    ensures pending == pending[..|pending| - 1] + [pending[|pending| - 1]]
  {
  }

  lemma KnownNames(server: Server, services: seq<string>, universe: set<string>, out: Files, pending: seq<string>,
                   asked: set<string>)
    requires Collecting(server, services, universe, out, pending, asked)
    ensures out.Keys <= universe
  {
  }

  lemma NothingPending(server: Server, services: seq<string>, universe: set<string>, out: Files, asked: set<string>)
    requires Collecting(server, services, universe, out, [], asked)
    ensures Closed(server, services, out)
  {
  }

  lemma StillCollecting(server: Server, services: seq<string>, universe: set<string>, out: Files,
                        pending: seq<string>, name: string, asked: set<string>)
    requires Collecting(server, services, universe, out, pending + [name], asked) && name in out
    ensures Collecting(server, services, universe, out, pending, asked)
  {
    assert forall d :: d in pending + [name] <==> d in pending || d == name;
  }

  /** With a server that returns what it is asked for, the collected set is closed
      under imports, and without cycles every file comes after all of its imports. */
  lemma CollectedFilesBuildAPool(server: Server, out: Files, names: seq<string>)
    requires forall n, d :: n in out && d in out[n].dependency ==>
               d in out || forall f :: f in server.byFilename(d) ==> f.name != d
    requires forall n, d :: n in out && d in out[n].dependency ==> exists f :: f in server.byFilename(d) && f.name == d
    requires Acyclic(out) && NoRepeats(names) && (forall n :: n in names <==> n in out) && Respects(out, names)
    ensures forall k, d :: 0 <= k < |names| && d in out[names[k]].dependency ==> d in names[..k]
  {
    TopologicalIffAcyclic(out, names);
    forall k, d | 0 <= k < |names| && d in out[names[k]].dependency ensures d in names[..k] {
      assert names[k] in names;
      assert d in out by {
        var f :| f in server.byFilename(d) && f.name == d;
      }
      assert DependencyAt(out, names, k, d);
    }
  }
}
