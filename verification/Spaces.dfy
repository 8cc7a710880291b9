/** Request spaces and their algebra.  An empty list of agents or actions means
    "anything", which is why union and intersection are exact only under
    conditions; the theorems say which. */
module Spaces {
  import opened Options
  import opened Texts

  /** A float bound, infinities included. */
  datatype Limit = NegInf | Fin(x: real) | PosInf

  predicate Less(a: Limit, b: Limit) {
    match (a, b)
    case (Fin(x), Fin(y)) => x < y
    case (NegInf, _) => b != NegInf
    case (_, PosInf) => a != PosInf
    case _ => false
  }

  function MinLimit(a: Limit, b: Limit): Limit {
    if Less(b, a) then b else a
  }

  function MaxLimit(a: Limit, b: Limit): Limit {
    if Less(a, b) then b else a
  }

  datatype SpaceBound = SpaceBound(low: Limit, high: Limit, dtype: string)

  const Unbounded := SpaceBound(NegInf, PosInf, "float")

  datatype PolicySpace = PolicySpace(
    agents: seq<string>,
    actions: seq<string>,
    resources: seq<string>,
    schema: map<string, SpaceBound>)

  /** A context value: a number, or anything that no bound applies to. */
  datatype Attribute = Num(x: real) | Other

  datatype Request = Request(agent: string, action: string, resource: string, context: map<string, Attribute>)

  // ---- contains ----

  predicate Permits(names: seq<string>, name: string) {
    names != [] ==> name in names
  }

  predicate InBound(v: Attribute, b: SpaceBound) {
    v.Num? ==> !Less(Fin(v.x), b.low) && !Less(b.high, Fin(v.x))
  }

  predicate InSchema(schema: map<string, SpaceBound>, context: map<string, Attribute>) {
    forall attr :: attr in schema && attr in context ==> InBound(context[attr], schema[attr])
  }

  predicate Contains(s: PolicySpace, r: Request) {
    Permits(s.agents, r.agent) && Permits(s.actions, r.action) && InSchema(s.schema, r.context)
  }

  /** A number between two limits, both of them included. */
  predicate Between(x: real, low: Limit, high: Limit) {
    && low != PosInf && (low.Fin? ==> low.x <= x)
    && high != NegInf && (high.Fin? ==> x <= high.x)
  }

  /** What a space asks of a request: its lists bind unless they are empty, and
      its bounds bind the numbers that the context gives. */
  predicate Admits(s: PolicySpace, r: Request) {
    && (s.agents == [] || r.agent in s.agents) && (s.actions == [] || r.action in s.actions)
    && forall attr :: attr in s.schema && attr in r.context && r.context[attr].Num? ==>
         Between(r.context[attr].x, s.schema[attr].low, s.schema[attr].high)
  }

  lemma ContainsMeans(s: PolicySpace, r: Request)
    ensures Contains(s, r) <==> Admits(s, r)
  {
  }

  /** `contains`: the two lists, and then each bound in turn. */
  method ContainsRequest(s: PolicySpace, r: Request) returns (ok: bool)
    ensures ok <==> Admits(s, r)
    ensures ok <==> Contains(s, r)
  {
    ContainsMeans(s, r);
    if s.agents != [] && r.agent !in s.agents {
      return false;
    }
    if s.actions != [] && r.action !in s.actions {
      return false;
    }
    var attrs := s.schema.Keys;
    while attrs != {}
      invariant attrs <= s.schema.Keys
      invariant forall attr :: attr in s.schema && attr !in attrs && attr in r.context ==>
          InBound(r.context[attr], s.schema[attr])
      decreases attrs
    {
      var attr :| attr in attrs;
      if attr in r.context && !InBound(r.context[attr], s.schema[attr]) {
        return false;
      }
      attrs := attrs - {attr};
    }
    return true;
  }

  // ---- sorted(set(...)) ----

  function InsertText(sorted: seq<string>, x: string): seq<string> {
    if sorted == [] || TextLess(sorted[|sorted| - 1], x) then sorted + [x]
    else if sorted[|sorted| - 1] == x then sorted
    else InsertText(sorted[..|sorted| - 1], x) + [sorted[|sorted| - 1]]
  }

  function SortedSet(xs: seq<string>): seq<string> {
    if xs == [] then [] else InsertText(SortedSet(xs[..|xs| - 1]), xs[|xs| - 1])
  }

  predicate AscendingTexts(xs: seq<string>) {
    forall i, j :: 0 <= i < j < |xs| ==> TextLess(xs[i], xs[j])
  }

  lemma {:induction false} InsertTextMembers(sorted: seq<string>, x: string)
    ensures forall y :: y in InsertText(sorted, x) <==> y in sorted || y == x
  {
    if sorted != [] {
      var init, last := sorted[..|sorted| - 1], sorted[|sorted| - 1];
      assert forall y :: y in sorted <==> y in init || y == last;
      InsertTextMembers(init, x);
    }
  }

  lemma {:induction false} InsertTextAscends(sorted: seq<string>, x: string)
    requires AscendingTexts(sorted)
    ensures AscendingTexts(InsertText(sorted, x))
  {
    if sorted != [] {
      var init, last := sorted[..|sorted| - 1], sorted[|sorted| - 1];
      if TextLess(last, x) {
        forall i | 0 <= i < |init| ensures TextLess(sorted[i], x) {
          TextLessTransitive(sorted[i], last, x);
        }
      } else if last != x {
        TextLessTotal(last, x);
        InsertTextAscends(init, x);
        InsertTextMembers(init, x);
        var ins := InsertText(init, x);
        forall i | 0 <= i < |ins| ensures TextLess(ins[i], last) {
          assert ins[i] in ins;
          assert ins[i] == x || ins[i] in init;
        }
      }
    }
  }

  /** `sorted(set(xs))`: the same names, once each, in order. */
  lemma {:induction false} SortedSetIsSortedSet(xs: seq<string>)
    ensures forall y :: y in SortedSet(xs) <==> y in xs
    ensures AscendingTexts(SortedSet(xs))
  {
    if xs != [] {
      var init, last := xs[..|xs| - 1], xs[|xs| - 1];
      assert forall y :: y in xs <==> y in init || y == last;
      SortedSetIsSortedSet(init);
      InsertTextMembers(SortedSet(init), last);
      InsertTextAscends(SortedSet(init), last);
    }
  }

  function Common(a: seq<string>, b: seq<string>): (c: seq<string>)
    ensures forall y :: y in c <==> y in a && y in b
  {
    if a == [] then []
    else
      assert forall y :: y in a <==> y in a[..|a| - 1] || y == a[|a| - 1];
      Common(a[..|a| - 1], b) + if a[|a| - 1] in b then [a[|a| - 1]] else []
  }

  // ---- intersection, union, is_compatible ----

  function BoundOf(s: map<string, SpaceBound>, attr: string): SpaceBound {
    if attr in s then s[attr] else Unbounded
  }

  function Tighter(a: SpaceBound, b: SpaceBound): SpaceBound {
    SpaceBound(MaxLimit(a.low, b.low), MinLimit(a.high, b.high), a.dtype)
  }

  function Wider(a: SpaceBound, b: SpaceBound): SpaceBound {
    SpaceBound(MinLimit(a.low, b.low), MaxLimit(a.high, b.high), a.dtype)
  }

  function MeetNames(a: seq<string>, b: seq<string>): seq<string> {
    if a != [] && b != [] then SortedSet(Common(a, b)) else if a != [] then a else b
  }

  /** The shell-pattern match is a parameter: `glob(name, pattern)`. */
  type Glob = (string, string) -> bool

  /** What an overlapping pair keeps: the more specific of the two. */
  function Kept(glob: Glob, a: string, b: string): Option<string> {
    if a == b then Some(a) else if glob(b, a) then Some(b) else if glob(a, b) then Some(a) else None
  }

  /** `_glob_intersect_resources`. */
  method GlobIntersect(glob: Glob, a: seq<string>, b: seq<string>) returns (result: seq<string>)
    ensures AscendingTexts(result)
    ensures forall x :: x in result <==>
              exists i, j :: 0 <= i < |a| && 0 <= j < |b|
                             && if a[i] == b[j] || glob(b[j], a[i]) then x == b[j] else glob(a[i], b[j]) && x == a[i]
    ensures forall x :: x in result <==>
              exists i, j :: 0 <= i < |a| && 0 <= j < |b| && Kept(glob, a[i], b[j]) == Some(x)
  {
    var found: seq<string> := [];
    for i := 0 to |a|
      invariant forall x :: x in found <==>
                  exists k, l :: 0 <= k < i && 0 <= l < |b| && Kept(glob, a[k], b[l]) == Some(x)
    {
      ghost var before := found;
      for j := 0 to |b|
        invariant forall x :: x in found <==> x in before || exists l :: 0 <= l < j && Kept(glob, a[i], b[l]) == Some(x)
      {
        var kept := Kept(glob, a[i], b[j]);
        if kept.Some? && kept.value !in found {
          found := found + [kept.value];
        }
      }
    }
    SortedSetIsSortedSet(found);
    return SortedSet(found);
  }

  /** The intersection, given the glob-aware intersection of the resources. */
  function Intersection(a: PolicySpace, b: PolicySpace, globbed: seq<string>): PolicySpace {
    PolicySpace(
      MeetNames(a.agents, b.agents),
      MeetNames(a.actions, b.actions),
      if a.resources != [] && b.resources != [] then globbed
      else if a.resources != [] then a.resources else b.resources,
      map attr | attr in a.schema.Keys + b.schema.Keys :: Tighter(BoundOf(a.schema, attr), BoundOf(b.schema, attr)))
  }

  function Union(a: PolicySpace, b: PolicySpace): PolicySpace {
    PolicySpace(
      SortedSet(a.agents + b.agents),
      SortedSet(a.actions + b.actions),
      SortedSet(a.resources + b.resources),
      map attr | attr in a.schema.Keys + b.schema.Keys :: Wider(BoundOf(a.schema, attr), BoundOf(b.schema, attr)))
  }

  predicate IsCompatible(a: PolicySpace, b: PolicySpace, globbed: seq<string>) {
    var inter := Intersection(a, b, globbed);
    && !(a.agents != [] && b.agents != [] && inter.agents == [])
    && !(a.actions != [] && b.actions != [] && inter.actions == [])
    && !(a.resources != [] && b.resources != [] && inter.resources == [])
    && forall attr :: attr in inter.schema ==> !Less(inter.schema[attr].high, inter.schema[attr].low)
  }

  // ---- Intersection ----

  /** The lists meet, or one of them means "anything". */
  predicate Overlap(a: seq<string>, b: seq<string>) {
    a == [] || b == [] || exists i :: 0 <= i < |a| && a[i] in b
  }

  lemma MeetPermits(a: seq<string>, b: seq<string>, name: string)
    ensures Overlap(a, b) ==> (Permits(MeetNames(a, b), name) <==> Permits(a, name) && Permits(b, name))
    ensures a != [] && b != [] ==> (MeetNames(a, b) == [] <==> !Overlap(a, b))
  {
    if a != [] && b != [] {
      var c := Common(a, b);
      SortedSetIsSortedSet(c);
      if Overlap(a, b) {
        var i :| 0 <= i < |a| && a[i] in b;
        assert a[i] in SortedSet(c);
      } else if SortedSet(c) != [] {
        assert SortedSet(c)[0] in SortedSet(c);
      }
    }
  }

  lemma TighterIsBoth(v: Attribute, a: SpaceBound, b: SpaceBound)
    ensures InBound(v, Tighter(a, b)) <==> InBound(v, a) && InBound(v, b)
    ensures InBound(v, Unbounded)
  {
  }

  lemma SchemaMeets(a: PolicySpace, b: PolicySpace, globbed: seq<string>, context: map<string, Attribute>)
    ensures InSchema(Intersection(a, b, globbed).schema, context)
            <==> InSchema(a.schema, context) && InSchema(b.schema, context)
  {
    var s := Intersection(a, b, globbed).schema;
    forall attr | attr in s && attr in context
      ensures InBound(context[attr], s[attr])
              <==> InBound(context[attr], BoundOf(a.schema, attr)) && InBound(context[attr], BoundOf(b.schema, attr))
    {
      TighterIsBoth(context[attr], BoundOf(a.schema, attr), BoundOf(b.schema, attr));
    }
    forall attr | attr in context ensures InBound(context[attr], Unbounded) {}
    assert forall attr :: attr in a.schema || attr in b.schema ==> attr in s;
  }

  /** The intersection contains what both spaces contain, for every request. */
  ghost predicate IntersectionIsExact(a: PolicySpace, b: PolicySpace, globbed: seq<string>) {
    forall r {:trigger Contains(Intersection(a, b, globbed), r)} ::
      Contains(Intersection(a, b, globbed), r) <==> Contains(a, r) && Contains(b, r)
  }

  /** A name that a list permits. */
  function Sample(names: seq<string>): (name: string)
    ensures Permits(names, name)
  {
    if names == [] then "" else names[0]
  }

  /** Intersection is exact if and only if the agents meet and the actions meet:
      two disjoint lists intersect to the empty list, which means "anything". */
  lemma IntersectionExactIff(a: PolicySpace, b: PolicySpace, globbed: seq<string>)
    ensures IntersectionIsExact(a, b, globbed) <==> Overlap(a.agents, b.agents) && Overlap(a.actions, b.actions)
  {
    var inter := Intersection(a, b, globbed);
    if Overlap(a.agents, b.agents) && Overlap(a.actions, b.actions) {
      forall r ensures Contains(inter, r) <==> Contains(a, r) && Contains(b, r) {
        MeetPermits(a.agents, b.agents, r.agent);
        MeetPermits(a.actions, b.actions, r.action);
        SchemaMeets(a, b, globbed, r.context);
      }
    } else {
      MeetPermits(a.agents, b.agents, "");
      MeetPermits(a.actions, b.actions, "");
      var agent := if Overlap(a.agents, b.agents) then Sample(inter.agents) else a.agents[0];
      var action := if Overlap(a.actions, b.actions) then Sample(inter.actions) else a.actions[0];
      var r := Request(agent, action, "", map[]);
      assert Contains(inter, r);
      assert a.agents != [] && !Overlap(a.agents, b.agents) ==> a.agents[0] !in b.agents;
      assert a.actions != [] && !Overlap(a.actions, b.actions) ==> a.actions[0] !in b.actions;
      assert !Contains(b, r);
    }
  }

  /** Some limit lies within both bounds. */
  ghost predicate BoundsMeet(a: SpaceBound, b: SpaceBound) {
    exists l: Limit :: !Less(l, a.low) && !Less(a.high, l) && !Less(l, b.low) && !Less(b.high, l)
  }

  lemma TighterIsProperIff(a: SpaceBound, b: SpaceBound)
    ensures !Less(Tighter(a, b).high, Tighter(a, b).low) <==> BoundsMeet(a, b)
  {
    var l := Tighter(a, b).low;
    if !Less(Tighter(a, b).high, l) {
      assert !Less(l, a.low) && !Less(a.high, l) && !Less(l, b.low) && !Less(b.high, l);
    }
  }

  /** A resource pattern of one list matches one of the other, or either list means "anything". */
  ghost predicate ResourcesMeet(glob: Glob, a: seq<string>, b: seq<string>) {
    || a == [] || b == []
    || exists i, j :: 0 <= i < |a| && 0 <= j < |b| && (a[i] == b[j] || glob(a[i], b[j]) || glob(b[j], a[i]))
  }

  /** `is_compatible`: the lists meet, and so do the bounds of every attribute. */
  method Compatible(glob: Glob, a: PolicySpace, b: PolicySpace) returns (ok: bool)
    ensures ok <==>
      && Overlap(a.agents, b.agents) && Overlap(a.actions, b.actions) && ResourcesMeet(glob, a.resources, b.resources)
      && forall attr {:trigger BoundOf(a.schema, attr)} :: attr in a.schema.Keys + b.schema.Keys ==>
           BoundsMeet(BoundOf(a.schema, attr), BoundOf(b.schema, attr))
  {
    var globbed := GlobIntersect(glob, a.resources, b.resources);
    GlobbedIff(glob, a.resources, b.resources, globbed);
    MeetPermits(a.agents, b.agents, "");
    MeetPermits(a.actions, b.actions, "");
    forall attr | attr in a.schema.Keys + b.schema.Keys
      ensures !Less(Intersection(a, b, globbed).schema[attr].high, Intersection(a, b, globbed).schema[attr].low)
              <==> BoundsMeet(BoundOf(a.schema, attr), BoundOf(b.schema, attr))
    {
      TighterIsProperIff(BoundOf(a.schema, attr), BoundOf(b.schema, attr));
    }
    ok := IsCompatible(a, b, globbed);
  }

  lemma GlobbedIff(glob: Glob, a: seq<string>, b: seq<string>, globbed: seq<string>)
    requires forall x :: x in globbed <==>
               exists i, j :: 0 <= i < |a| && 0 <= j < |b| && Kept(glob, a[i], b[j]) == Some(x)
    ensures a != [] && b != [] ==> (globbed != [] <==> ResourcesMeet(glob, a, b))
  {
    if globbed != [] {
      assert globbed[0] in globbed;
      var i, j :| 0 <= i < |a| && 0 <= j < |b| && Kept(glob, a[i], b[j]) == Some(globbed[0]);
    }
    if a != [] && b != [] && ResourcesMeet(glob, a, b) {
      var i, j :| 0 <= i < |a| && 0 <= j < |b| && (a[i] == b[j] || glob(a[i], b[j]) || glob(b[j], a[i]));
      assert Kept(glob, a[i], b[j]).value in globbed;
    }
  }

  /** What an intersection holds: of two lists that bind the common names in
      order, of one the list itself, and of each attribute the tighter limits. */
  lemma IntersectionHolds(a: PolicySpace, b: PolicySpace, globbed: seq<string>, x: string, attr: string)
    ensures var s := Intersection(a, b, globbed);
            && (if a.agents != [] && b.agents != [] then
                  AscendingTexts(s.agents) && (x in s.agents <==> x in a.agents && x in b.agents)
                else s.agents == a.agents + b.agents)
            && (if a.actions != [] && b.actions != [] then
                  AscendingTexts(s.actions) && (x in s.actions <==> x in a.actions && x in b.actions)
                else s.actions == a.actions + b.actions)
            && (if a.resources != [] && b.resources != [] then s.resources == globbed
                else s.resources == a.resources + b.resources)
            && (attr in s.schema <==> attr in a.schema || attr in b.schema)
            && (attr in s.schema ==>
                  s.schema[attr].dtype == (if attr in a.schema then a.schema[attr].dtype else "float"))
  {
    SortedSetIsSortedSet(Common(a.agents, b.agents));
    SortedSetIsSortedSet(Common(a.actions, b.actions));
  }

  /** Compatible spaces intersect exactly. */
  lemma CompatibleIntersectsExactly(a: PolicySpace, b: PolicySpace, globbed: seq<string>, r: Request)
    requires IsCompatible(a, b, globbed)
    ensures Contains(Intersection(a, b, globbed), r) <==> Contains(a, r) && Contains(b, r)
  {
    MeetPermits(a.agents, b.agents, r.agent);
    MeetPermits(a.actions, b.actions, r.action);
    IntersectionExactIff(a, b, globbed);
  }

  // ---- Union ----

  ghost predicate UnionCovers(a: PolicySpace, b: PolicySpace) {
    forall r {:trigger Contains(Union(a, b), r)} :: Contains(a, r) || Contains(b, r) ==> Contains(Union(a, b), r)
  }

  lemma WiderIsEither(v: Attribute, a: SpaceBound, b: SpaceBound)
    ensures InBound(v, a) || InBound(v, b) ==> InBound(v, Wider(a, b))
    ensures InBound(v, Wider(a, Unbounded)) && InBound(v, Wider(Unbounded, b))
  {
  }

  lemma SchemaJoins(a: PolicySpace, b: PolicySpace, context: map<string, Attribute>)
    ensures InSchema(a.schema, context) || InSchema(b.schema, context) ==> InSchema(Union(a, b).schema, context)
  {
    var s := Union(a, b).schema;
    forall attr | attr in s && attr in context && (InSchema(a.schema, context) || InSchema(b.schema, context))
      ensures InBound(context[attr], s[attr])
    {
      WiderIsEither(context[attr], BoundOf(a.schema, attr), BoundOf(b.schema, attr));
    }
  }

  lemma JoinPermits(a: seq<string>, b: seq<string>, name: string)
    requires a == [] <==> b == []
    ensures Permits(a, name) || Permits(b, name) ==> Permits(SortedSet(a + b), name)
  {
    SortedSetIsSortedSet(a + b);
  }

  /** A name longer than every name in a list. */
  lemma {:induction false} FreshName(names: seq<string>) returns (name: string)
    ensures name !in names && forall n :: n in names ==> |n| < |name|
  {
    if names == [] {
      name := "x";
    } else {
      var shorter := FreshName(names[..|names| - 1]);
      var last := names[|names| - 1];
      assert forall n :: n in names <==> n in names[..|names| - 1] || n == last;
      name := shorter + last + "x";
    }
  }

  /** One side means "anything" and the other does not: some name falls outside the union. */
  lemma LopsidedNames(a: seq<string>, b: seq<string>) returns (name: string)
    requires a == [] && b != []
    ensures Permits(a, name) && !Permits(SortedSet(a + b), name) && !Permits(SortedSet(b + a), name)
  {
    name := FreshName(b);
    SortedSetIsSortedSet(a + b);
    SortedSetIsSortedSet(b + a);
    assert b[0] in a + b && b[0] in b + a;
  }

  /** Union contains everything either side contains if and only if, for agents
      and for actions, both lists are empty or neither is. */
  lemma UnionCoversIff(a: PolicySpace, b: PolicySpace)
    ensures UnionCovers(a, b) <==> (a.agents == [] <==> b.agents == []) && (a.actions == [] <==> b.actions == [])
  {
    if (a.agents == [] <==> b.agents == []) && (a.actions == [] <==> b.actions == []) {
      forall r | Contains(a, r) || Contains(b, r) ensures Contains(Union(a, b), r) {
        JoinPermits(a.agents, b.agents, r.agent);
        JoinPermits(a.actions, b.actions, r.action);
        SchemaJoins(a, b, r.context);
      }
    } else {
      var r;
      if a.agents == [] && b.agents != [] {
        var name := LopsidedNames(a.agents, b.agents);
        r := Request(name, Sample(a.actions), "", map[]);
      } else if a.agents != [] && b.agents == [] {
        var name := LopsidedNames(b.agents, a.agents);
        r := Request(name, Sample(b.actions), "", map[]);
      } else if a.actions == [] && b.actions != [] {
        var name := LopsidedNames(a.actions, b.actions);
        r := Request(Sample(a.agents), name, "", map[]);
      } else {
        var name := LopsidedNames(b.actions, a.actions);
        r := Request(Sample(b.agents), name, "", map[]);
      }
      assert !Contains(Union(a, b), r);
      assert Contains(a, r) || Contains(b, r);
    }
  }

  /** What a union holds: the names of both sides in order, and of each attribute
      that both bound the wider limits; an attribute that only one side bounds is free. */
  lemma UnionHolds(a: PolicySpace, b: PolicySpace, x: string, attr: string)
    ensures var s := Union(a, b);
            && AscendingTexts(s.agents) && (x in s.agents <==> x in a.agents || x in b.agents)
            && AscendingTexts(s.actions) && (x in s.actions <==> x in a.actions || x in b.actions)
            && AscendingTexts(s.resources) && (x in s.resources <==> x in a.resources || x in b.resources)
            && (attr in s.schema <==> attr in a.schema || attr in b.schema)
            && (attr in s.schema ==>
                  s.schema[attr].dtype == if attr in a.schema then a.schema[attr].dtype else "float")
            && (attr in a.schema && attr in b.schema ==> IsHull(s.schema[attr], a.schema[attr], b.schema[attr]))
            && (attr in s.schema && !(attr in a.schema && attr in b.schema) ==>
                  s.schema[attr].low == NegInf && s.schema[attr].high == PosInf)
  {
    SortedSetIsSortedSet(a.agents + b.agents);
    SortedSetIsSortedSet(a.actions + b.actions);
    SortedSetIsSortedSet(a.resources + b.resources);
  }

  /** The lower of the lower limits and the higher of the upper ones. */
  predicate IsHull(u: SpaceBound, a: SpaceBound, b: SpaceBound) {
    && (u.low == a.low || u.low == b.low) && !Less(a.low, u.low) && !Less(b.low, u.low)
    && (u.high == a.high || u.high == b.high) && !Less(u.high, a.high) && !Less(u.high, b.high)
  }
}
