/** Versioned routing policies: rule matching, first-match selection, the
    dictionary form, the bitemporal registry and the router. */
module Policy {
  import opened Options
  import opened Bitemporal
  import opened BitemporalStore
  import Json

  type Context = map<string, Json.Value>

  datatype PolicyRule = PolicyRule(
    ruleId: string,
    condition: seq<(string, Json.Value)>,
    choice: string,
    rationale: Option<string>)

  datatype PolicyVersion = PolicyVersion(
    policyId: string,
    version: string,
    rules: seq<PolicyRule>,
    defaultChoice: Option<string>,
    description: Option<string>)

  datatype Evaluation = Evaluation(
    choice: Option<string>,
    matchedRuleId: Option<string>,
    policyId: string,
    policyVersion: string,
    rationale: Option<string>)

  // ---- Rules ----

  /** KeyError is raised for an operator that is not supported. */
  datatype Match = Holds | Differs | KeyError

  /** One field of a condition against the actual value: equality, membership or inequality. */
  function TestField(actual: Json.Value, expected: Json.Value): Match {
    if expected.Object? then
      var among, unlike := Json.Field(expected.fields, "in"), Json.Field(expected.fields, "ne");
      if among.Some? then
        (if among.value.List? then (if actual in among.value.items then Holds else Differs) else KeyError)
      else if unlike.Some? then (if actual == unlike.value then Differs else Holds)
      else KeyError
    else if actual == expected then Holds else Differs
  }

  function Actual(context: Context, field: string): Json.Value {
    if field in context then context[field] else Json.Null
  }

  function MatchRule(condition: seq<(string, Json.Value)>, context: Context): Match {
    if condition == [] then Holds
    else match TestField(Actual(context, condition[0].0), condition[0].1)
         case Holds => MatchRule(condition[1..], context)
         case Differs => Differs
         case KeyError => KeyError
  }

  // ---- What conditions mean ----

  /** The entry of this name is `v`. */
  predicate Gives(fields: seq<(string, Json.Value)>, name: string, v: Json.Value) {
    exists k :: 0 <= k < |fields| && fields[k] == (name, v) && forall j :: 0 <= j < k ==> fields[j].0 != name
  }

  predicate Lacks(fields: seq<(string, Json.Value)>, name: string) {
    forall k :: 0 <= k < |fields| ==> fields[k].0 != name
  }

  /** The value is listed under "in"; or, without an "in", is other than the one
      under "ne"; or, for anything but an object, equals what is expected. */
  ghost predicate FieldFits(actual: Json.Value, expected: Json.Value) {
    if !expected.Object? then actual == expected
    else if Lacks(expected.fields, "in") then exists v :: Gives(expected.fields, "ne", v) && v != actual
    else exists items :: Gives(expected.fields, "in", Json.List(items)) && actual in items
  }

  /** An object with neither operator, or with an "in" that is no list. */
  ghost predicate Unsupported(expected: Json.Value) {
    && expected.Object?
    && if Lacks(expected.fields, "in") then Lacks(expected.fields, "ne")
       else forall items :: !Gives(expected.fields, "in", Json.List(items))
  }

  lemma {:induction false} FieldIsGiven(fields: seq<(string, Json.Value)>, name: string, v: Json.Value)
    ensures Json.Field(fields, name) == Some(v) <==> Gives(fields, name, v)
    ensures Json.Field(fields, name) == None <==> Lacks(fields, name)
  {
    if fields != [] {
      var rest := fields[1..];
      FieldIsGiven(rest, name, v);
      assert forall k :: 0 <= k < |rest| ==> rest[k] == fields[k + 1];
      if Gives(rest, name, v) && fields[0].0 != name {
        var k :| 0 <= k < |rest| && rest[k] == (name, v) && forall j :: 0 <= j < k ==> rest[j].0 != name;
        assert fields[k + 1] == (name, v);
        assert forall j :: 0 <= j < k + 1 && j > 0 ==> fields[j] == rest[j - 1];
      }
      if Gives(fields, name, v) && fields[0].0 != name {
        var k :| 0 <= k < |fields| && fields[k] == (name, v) && forall j :: 0 <= j < k ==> fields[j].0 != name;
        assert rest[k - 1] == (name, v);
      }
    }
  }

  /** A field holds exactly when it fits, and raises exactly when it is unsupported. */
  lemma FieldMeans(actual: Json.Value, expected: Json.Value)
    ensures TestField(actual, expected) == Holds <==> FieldFits(actual, expected)
    ensures TestField(actual, expected) == KeyError <==> Unsupported(expected)
  {
    if expected.Object? {
      var fields := expected.fields;
      var among, unlike := Json.Field(fields, "in"), Json.Field(fields, "ne");
      FieldIsGiven(fields, "in", among.GetOr(Json.Null));
      FieldIsGiven(fields, "ne", unlike.GetOr(Json.Null));
      forall v ensures Gives(fields, "in", v) <==> among == Some(v) { FieldIsGiven(fields, "in", v); }
      forall v ensures Gives(fields, "ne", v) <==> unlike == Some(v) { FieldIsGiven(fields, "ne", v); }
      if among.Some? && among.value.List? {
        assert Gives(fields, "in", Json.List(among.value.items));
      }
    }
  }

  /** The context's value, or null where it has none, fits. */
  ghost predicate FitsAt(condition: seq<(string, Json.Value)>, context: Context, i: nat)
    requires i < |condition|
  {
    var (name, expected) := condition[i];
    FieldFits(if name in context then context[name] else Json.Null, expected)
  }

  ghost predicate RuleFits(condition: seq<(string, Json.Value)>, context: Context) {
    forall i {:trigger FitsAt(condition, context, i)} :: 0 <= i < |condition| ==> FitsAt(condition, context, i)
  }

  /** Every field before `k` fits, and `k` is unsupported. */
  ghost predicate RaisesAt(condition: seq<(string, Json.Value)>, context: Context, k: nat)
    requires k < |condition|
  {
    Unsupported(condition[k].1)
    && forall i {:trigger FitsAt(condition, context, i)} :: 0 <= i < k ==> FitsAt(condition, context, i)
  }

  ghost predicate RuleRaises(condition: seq<(string, Json.Value)>, context: Context) {
    exists k :: 0 <= k < |condition| && RaisesAt(condition, context, k)
  }

  /** A rule matches exactly when all of its fields fit, and raises exactly when
      the first field that does not fit is unsupported. */
  lemma {:induction false} MatchMeans(condition: seq<(string, Json.Value)>, context: Context)
    ensures MatchRule(condition, context) == Holds <==> RuleFits(condition, context)
    ensures MatchRule(condition, context) == KeyError <==> RuleRaises(condition, context)
  {
    if condition != [] {
      var rest := condition[1..];
      MatchMeans(rest, context);
      FieldMeans(Actual(context, condition[0].0), condition[0].1);
      assert FitsAt(condition, context, 0) <==> TestField(Actual(context, condition[0].0), condition[0].1) == Holds;
      assert Unsupported(condition[0].1) ==> !FitsAt(condition, context, 0);
      RestFits(condition, context);
      RestRaises(condition, context);
      assert Unsupported(condition[0].1) ==> RaisesAt(condition, context, 0);
    }
  }

  lemma RestFits(condition: seq<(string, Json.Value)>, context: Context)
    requires condition != []
    ensures RuleFits(condition, context) <==> FitsAt(condition, context, 0) && RuleFits(condition[1..], context)
  {
    var rest := condition[1..];
    forall i | 0 <= i < |rest| ensures FitsAt(rest, context, i) <==> FitsAt(condition, context, i + 1) {}
    if FitsAt(condition, context, 0) && RuleFits(rest, context) {
      forall i | 0 <= i < |condition| ensures FitsAt(condition, context, i) {
        if i > 0 { assert FitsAt(rest, context, i - 1); }
      }
    }
  }

  lemma RestRaises(condition: seq<(string, Json.Value)>, context: Context)
    requires condition != []
    ensures RuleRaises(condition, context)
            <==> Unsupported(condition[0].1) || (FitsAt(condition, context, 0) && RuleRaises(condition[1..], context))
  {
    var rest := condition[1..];
    forall i | 0 <= i < |rest| ensures FitsAt(rest, context, i) <==> FitsAt(condition, context, i + 1) {}
    if Unsupported(condition[0].1) {
      assert RaisesAt(condition, context, 0);
    }
    if FitsAt(condition, context, 0) && RuleRaises(rest, context) {
      var k :| 0 <= k < |rest| && RaisesAt(rest, context, k);
      forall i | 0 <= i < k + 1 ensures FitsAt(condition, context, i) {
        if i > 0 { assert FitsAt(rest, context, i - 1); }
      }
      assert RaisesAt(condition, context, k + 1);
    }
    if RuleRaises(condition, context) && !Unsupported(condition[0].1) {
      var k :| 0 <= k < |condition| && RaisesAt(condition, context, k);
      forall i | 0 <= i < k - 1 ensures FitsAt(rest, context, i) {
        assert FitsAt(condition, context, i + 1);
      }
      assert RaisesAt(rest, context, k - 1);
    }
  }

  function Matched(p: PolicyVersion, rule: PolicyRule): Evaluation {
    Evaluation(Some(rule.choice), Some(rule.ruleId), p.policyId, p.version, rule.rationale)
  }

  function Unmatched(p: PolicyVersion): Evaluation {
    var rationale := if p.defaultChoice.Some? && p.defaultChoice.value != "" then "default_choice" else "no_match";
    Evaluation(p.defaultChoice, None, p.policyId, p.version, Some(rationale))
  }

  function SelectFrom(p: PolicyVersion, context: Context, i: nat): Option<Evaluation>
    requires i <= |p.rules|
    decreases |p.rules| - i
  {
    if i == |p.rules| then Some(Unmatched(p))
    else match MatchRule(p.rules[i].condition, context)
         case Holds => Some(Matched(p, p.rules[i]))
         case Differs => SelectFrom(p, context, i + 1)
         case KeyError => None
  }

  /** `select`; None is the KeyError. */
  function Select(p: PolicyVersion, context: Context): Option<Evaluation> {
    SelectFrom(p, context, 0)
  }

  /** No rule before `k` matches or raises. */
  ghost predicate PassedOver(p: PolicyVersion, context: Context, k: nat)
    requires k <= |p.rules|
  {
    forall j {:trigger p.rules[j]} :: 0 <= j < k ==>
      !RuleFits(p.rules[j].condition, context) && !RuleRaises(p.rules[j].condition, context)
  }

  /** Rule `k` is the first that matches. */
  ghost predicate MatchesFirst(p: PolicyVersion, context: Context, k: nat)
    requires k < |p.rules|
  {
    PassedOver(p, context, k) && RuleFits(p.rules[k].condition, context)
  }

  /** Rule `k` raises before any matches. */
  ghost predicate RaisesFirst(p: PolicyVersion, context: Context, k: nat)
    requires k < |p.rules|
  {
    PassedOver(p, context, k) && RuleRaises(p.rules[k].condition, context)
  }

  /** The first match decides, and no match means the default; None is the
      KeyError of a rule that raises before any matches. */
  ghost predicate Selects(p: PolicyVersion, context: Context, e: Option<Evaluation>) {
    && (forall k :: 0 <= k < |p.rules| && MatchesFirst(p, context, k) ==>
          var r := p.rules[k];
          e == Some(Evaluation(Some(r.choice), Some(r.ruleId), p.policyId, p.version, r.rationale)))
    && (PassedOver(p, context, |p.rules|) ==>
          var rationale := if p.defaultChoice.GetOr("") == "" then "no_match" else "default_choice";
          e == Some(Evaluation(p.defaultChoice, None, p.policyId, p.version, Some(rationale))))
    && (e == None <==> exists k :: 0 <= k < |p.rules| && RaisesFirst(p, context, k))
  }

  lemma {:induction false} SelectFromMeans(p: PolicyVersion, context: Context, i: nat)
    requires i <= |p.rules| && PassedOver(p, context, i)
    ensures Selects(p, context, SelectFrom(p, context, i))
    decreases |p.rules| - i
  {
    if i < |p.rules| {
      MatchMeans(p.rules[i].condition, context);
      if MatchRule(p.rules[i].condition, context) == Differs {
        SelectFromMeans(p, context, i + 1);
      } else {
        DecidesAt(p, context, i);
        FitsOrRaises(p.rules[i].condition, context);
        assert MatchesFirst(p, context, i) || RaisesFirst(p, context, i);
      }
    }
  }

  lemma FitsOrRaises(condition: seq<(string, Json.Value)>, context: Context)
    ensures !(RuleFits(condition, context) && RuleRaises(condition, context))
  {
    MatchMeans(condition, context);
  }

  /** Nothing after a rule that matches or raises plays a part. */
  lemma DecidesAt(p: PolicyVersion, context: Context, i: nat)
    requires i < |p.rules| && PassedOver(p, context, i)
    requires RuleFits(p.rules[i].condition, context) || RuleRaises(p.rules[i].condition, context)
    ensures !PassedOver(p, context, |p.rules|)
    ensures forall k :: 0 <= k < |p.rules| && MatchesFirst(p, context, k) ==> k == i
    ensures forall k :: 0 <= k < |p.rules| && RaisesFirst(p, context, k) ==> k == i
  {
    var rule := p.rules[i];
  }

  /** Selection is first match, in terms of what the conditions say. */
  lemma SelectMeans(p: PolicyVersion, context: Context)
    ensures Selects(p, context, Select(p, context))
  {
    SelectFromMeans(p, context, 0);
  }

  method SelectRule(p: PolicyVersion, context: Context) returns (e: Option<Evaluation>)
    ensures e == Select(p, context) && Selects(p, context, e)
  {
    SelectMeans(p, context);
    for i := 0 to |p.rules|
      invariant Select(p, context) == SelectFrom(p, context, i)
    {
      var m := MatchRule(p.rules[i].condition, context);
      match m
      case Holds => return Some(Matched(p, p.rules[i]));
      case Differs =>
      case KeyError => return None;
    }
    return Some(Unmatched(p));
  }

  // ---- The dictionary form ----

  function FromOption(o: Option<string>): Json.Value {
    match o
    case None => Json.Null
    case Some(s) => Json.Text(s)
  }

  /** None means that the value is neither null nor text. */
  function ToOption(v: Json.Value): Option<Option<string>> {
    match v
    case Null => Some(None)
    case Text(s) => Some(Some(s))
    case _ => None
  }

  function RuleToDict(r: PolicyRule): Json.Value {
    Json.Object([("rule_id", Json.Text(r.ruleId)), ("condition", Json.Object(r.condition)),
                 ("choice", Json.Text(r.choice)), ("rationale", FromOption(r.rationale))])
  }

  function RuleFromDict(d: Json.Value): Option<PolicyRule> {
    if !d.Object? then None
    else
      var id, condition := Json.Field(d.fields, "rule_id"), Json.Field(d.fields, "condition");
      var choice, rationale := Json.Field(d.fields, "choice"), Json.Field(d.fields, "rationale");
      if id.Some? && id.value.Text? && condition.Some? && condition.value.Object?
         && choice.Some? && choice.value.Text?
      then
        var why := if rationale == None then Some(None) else ToOption(rationale.value);
        if why == None then None
        else Some(PolicyRule(id.value.text, condition.value.fields, choice.value.text, why.value))
      else None
  }

  function RulesToDict(rs: seq<PolicyRule>): seq<Json.Value> {
    if rs == [] then [] else [RuleToDict(rs[0])] + RulesToDict(rs[1..])
  }

  function RulesFromDict(ds: seq<Json.Value>): Option<seq<PolicyRule>> {
    if ds == [] then Some([])
    else
      var r, rest := RuleFromDict(ds[0]), RulesFromDict(ds[1..]);
      if r.Some? && rest.Some? then Some([r.value] + rest.value) else None
  }

  function ToDict(p: PolicyVersion): Json.Value {
    Json.Object([("policy_id", Json.Text(p.policyId)), ("version", Json.Text(p.version)),
                 ("rules", Json.List(RulesToDict(p.rules))),
                 ("default_choice", FromOption(p.defaultChoice)), ("description", FromOption(p.description))])
  }

  /** None is a dictionary that lacks a field or has one of the wrong kind. */
  function FromDict(d: Json.Value): Option<PolicyVersion> {
    if !d.Object? then None
    else
      var id, version := Json.Field(d.fields, "policy_id"), Json.Field(d.fields, "version");
      var rules := Json.Field(d.fields, "rules");
      if id.Some? && id.value.Text? && version.Some? && version.value.Text? && rules.Some? && rules.value.List? then
        var rs := RulesFromDict(rules.value.items);
        var choice := ToOption(Json.Field(d.fields, "default_choice").GetOr(Json.Null));
        var description := ToOption(Json.Field(d.fields, "description").GetOr(Json.Null));
        if rs.Some? && choice.Some? && description.Some? then
          Some(PolicyVersion(id.value.text, version.value.text, rs.value, choice.value, description.value))
        else None
      else None
  }

  /** The fields of a dictionary written as a list, looked up by position. */
  lemma FieldOfCons(name: string, v: Json.Value, rest: seq<(string, Json.Value)>, wanted: string)
    ensures Json.Field([(name, v)] + rest, wanted) == if name == wanted then Some(v) else Json.Field(rest, wanted)
  {
    assert ([(name, v)] + rest)[1..] == rest;
  }

  lemma RuleRoundTrip(r: PolicyRule)
    ensures RuleFromDict(RuleToDict(r)) == Some(r)
  {
    var a, b, c, d := Json.Text(r.ruleId), Json.Object(r.condition), Json.Text(r.choice), FromOption(r.rationale);
    var f3 := [("rationale", d)];
    var f2 := [("choice", c)] + f3;
    var f1 := [("condition", b)] + f2;
    var f0 := [("rule_id", a)] + f1;
    assert RuleToDict(r) == Json.Object(f0);
    assert [("rationale", d)] + [] == f3;
    FieldOfCons("rule_id", a, f1, "rule_id");
    FieldOfCons("rule_id", a, f1, "condition");
    FieldOfCons("condition", b, f2, "condition");
    FieldOfCons("rule_id", a, f1, "choice");
    FieldOfCons("condition", b, f2, "choice");
    FieldOfCons("choice", c, f3, "choice");
    FieldOfCons("rule_id", a, f1, "rationale");
    FieldOfCons("condition", b, f2, "rationale");
    FieldOfCons("choice", c, f3, "rationale");
    FieldOfCons("rationale", d, [], "rationale");
  }

  lemma {:induction false} RulesRoundTrip(rs: seq<PolicyRule>)
    ensures RulesFromDict(RulesToDict(rs)) == Some(rs)
  {
    if rs != [] {
      RuleRoundTrip(rs[0]);
      RulesRoundTrip(rs[1..]);
      assert RulesToDict(rs)[1..] == RulesToDict(rs[1..]);
      assert rs == [rs[0]] + rs[1..];
    }
  }

  /** A policy survives its dictionary form. */
  lemma PolicyRoundTrip(p: PolicyVersion)
    ensures FromDict(ToDict(p)) == Some(p)
  {
    RulesRoundTrip(p.rules);
    var a, b, c := Json.Text(p.policyId), Json.Text(p.version), Json.List(RulesToDict(p.rules));
    var d, e := FromOption(p.defaultChoice), FromOption(p.description);
    var f4 := [("description", e)];
    var f3 := [("default_choice", d)] + f4;
    var f2 := [("rules", c)] + f3;
    var f1 := [("version", b)] + f2;
    var f0 := [("policy_id", a)] + f1;
    assert ToDict(p) == Json.Object(f0);
    assert [("description", e)] + [] == f4;
    FieldOfCons("policy_id", a, f1, "policy_id");
    FieldOfCons("policy_id", a, f1, "version");
    FieldOfCons("version", b, f2, "version");
    FieldOfCons("policy_id", a, f1, "rules");
    FieldOfCons("version", b, f2, "rules");
    FieldOfCons("rules", c, f3, "rules");
    FieldOfCons("policy_id", a, f1, "default_choice");
    FieldOfCons("version", b, f2, "default_choice");
    FieldOfCons("rules", c, f3, "default_choice");
    FieldOfCons("default_choice", d, f4, "default_choice");
    FieldOfCons("policy_id", a, f1, "description");
    FieldOfCons("version", b, f2, "description");
    FieldOfCons("rules", c, f3, "description");
    FieldOfCons("default_choice", d, f4, "description");
    FieldOfCons("description", e, [], "description");
  }

  // ---- Registry ----

  const KEY_PREFIX := "policy:"

  /** The record that publishing appends. */
  function Publication(p: PolicyVersion, validFrom: Moment, transactionTime: Moment, source: string,
                       id: string): Record
  {
    Record(id, KEY_PREFIX + p.policyId, validFrom, transactionTime, ToDict(p), Some(source), None, None, None,
           map["policy_version" := Json.Text(p.version)])
  }

  method Publish(store: InMemoryBitemporalStore, p: PolicyVersion, validFrom: Moment, transactionTime: Option<Moment>,
                 source: string, id: string, now: Moment)
    returns (record: Record, ok: bool)
    modifies store
    ensures record == Publication(p, validFrom, transactionTime.GetOr(now), source, id)
    ensures && record.key == "policy:" + p.policyId && record.recordId == id && record.value == ToDict(p)
            && record.validTime == validFrom
            && record.transactionTime == (if transactionTime.Some? then transactionTime.value else now)
            && record.source == Some(source) && record.metadata == map["policy_version" := Json.Text(p.version)]
            && record.decision == record.sourceTrustLevel == record.parentRecordId == None
    ensures ok <==> Append(old(store.Abs()), record).Some?
    ensures store.Abs() == if ok then Append(old(store.Abs()), record).value else old(store.Abs())
  {
    record := Publication(p, validFrom, transactionTime.GetOr(now), source, id);
    ok := store.Add(record);
  }

  datatype Found = NoPolicy | Malformed | Found(policy: PolicyVersion)

  /** What a registry reads from the row that its store answers. */
  function ReadPolicy(row: Option<Record>): Found {
    match row
    case None => NoPolicy
    case Some(r) =>
      match FromDict(r.value)
      case None => Malformed
      case Some(p) => Found(p)
  }

  function Get(t: Table, policyId: string, tx: Clamp, vt: Clamp): Found {
    ReadPolicy(AsOfRows(History(t, KEY_PREFIX + policyId), tx, vt))
  }

  /** A row that was published under a policy's id. */
  ghost predicate IsPublication(r: Record, id: string) {
    exists p: PolicyVersion :: p.policyId == id && r.value == ToDict(p)
  }

  /** Everything under a policy key was published under that policy's id. */
  ghost predicate Published(t: Table) {
    forall id: string, r: Record {:trigger IsPublication(r, id)} ::
      r in History(t, KEY_PREFIX + id) ==> IsPublication(r, id)
  }

  lemma SameKeySameId(a: string, b: string)
    requires KEY_PREFIX + a == KEY_PREFIX + b
    ensures a == b
  {
    assert a == (KEY_PREFIX + a)[|KEY_PREFIX|..] && b == (KEY_PREFIX + b)[|KEY_PREFIX|..];
  }

  /** Publishing keeps the registry in that form, and what is found was once published. */
  lemma PublishKeepsPublished(t: Table, p: PolicyVersion, validFrom: Moment, tx: Moment, source: string,
                              recordId: string)
    requires Published(t) && Append(t, Publication(p, validFrom, tx, source, recordId)).Some?
    ensures Published(Append(t, Publication(p, validFrom, tx, source, recordId)).value)
  {
    var record := Publication(p, validFrom, tx, source, recordId);
    var u := Append(t, record).value;
    forall id: string, r: Record | r in History(u, KEY_PREFIX + id) ensures IsPublication(r, id) {
      if r in History(t, KEY_PREFIX + id) {
        assert IsPublication(r, id);
      } else {
        assert KEY_PREFIX + id == record.key && r == record;
        SameKeySameId(id, p.policyId);
        assert p.policyId == id && r.value == ToDict(p);
      }
    }
  }

  lemma FoundHasItsId(t: Table, policyId: string, tx: Clamp, vt: Clamp)
    requires Published(t)
    ensures Get(t, policyId, tx, vt) != Malformed
    ensures Get(t, policyId, tx, vt).Found? ==> Get(t, policyId, tx, vt).policy.policyId == policyId
  {
    var rows := History(t, KEY_PREFIX + policyId);
    if AsOfRows(rows, tx, vt).Some? {
      var i := AsOfIsBest(rows, tx, vt);
      assert rows[i] in History(t, KEY_PREFIX + policyId) && IsPublication(rows[i], policyId);
      var p: PolicyVersion :| p.policyId == policyId && rows[i].value == ToDict(p);
      PolicyRoundTrip(p);
      assert AsOfRows(rows, tx, vt).value == rows[i];
      assert FromDict(rows[i].value) == Some(p);
    }
  }

  /** A lookup reads the newest row of the policy's key that the clamps show. */
  lemma GetMeans(t: Table, policyId: string, tx: Clamp, vt: Clamp) returns (i: nat)
    ensures var rows, found := History(t, "policy:" + policyId), Get(t, policyId, tx, vt);
            && (found == NoPolicy <==> forall j :: 0 <= j < |rows| ==> !Shown(rows[j], tx, vt))
            && (found != NoPolicy ==> IsNewest(rows, i, tx, vt))
            && (found == Malformed ==> FromDict(rows[i].value) == None)
            && (found.Found? ==> FromDict(rows[i].value) == Some(found.policy))
  {
    i := AnswerIsNewest(History(t, KEY_PREFIX + policyId), tx, vt);
  }

  /** A published policy is found at clamps that show it, if it outranks what else
      they show; at all other clamps it changes nothing. */
  lemma PublishedIsFound(t: Table, p: PolicyVersion, r: Record, tx: Clamp, vt: Clamp)
    requires r.key == KEY_PREFIX + p.policyId && r.value == ToDict(p) && Append(t, r).Some?
    ensures var rows, u := History(t, r.key), Append(t, r).value;
            && (!Shown(r, tx, vt) ==> Get(u, p.policyId, tx, vt) == Get(t, p.policyId, tx, vt))
            && (Shown(r, tx, vt) && (forall j :: 0 <= j < |rows| && Shown(rows[j], tx, vt) ==> Outranks(r, rows[j]))
                ==> Get(u, p.policyId, tx, vt) == Found(p))
  {
    var rows := History(t, r.key);
    PolicyRoundTrip(p);
    if Shown(r, tx, vt) {
      if forall j :: 0 <= j < |rows| && Shown(rows[j], tx, vt) ==> Outranks(r, rows[j]) {
        OutrankingAnswers(rows, r, tx, vt);
      }
    } else {
      FilterSkips(rows, r, tx, vt);
    }
  }

  // ---- Routing ----

  datatype Decision = Decision(
    decisionId: string,
    useCase: string,
    context: Context,
    candidates: seq<string>,
    selected: Option<string>,
    policyId: string,
    policyVersion: string,
    matchedRuleId: Option<string>,
    evidenceRefs: seq<string>,
    rationale: Option<string>,
    decidedAt: Moment)

  datatype Router = Router(useCase: string, policyId: string, candidates: Option<Context -> seq<string>>)

  function Choices(rules: seq<PolicyRule>): seq<string> {
    if rules == [] then [] else [rules[0].choice] + Choices(rules[1..])
  }

  datatype Routed = Routed(decision: Decision) | LookupError | BadPolicy

  /** `route`: the policy as of a transaction time, its first match, and the record of both. */
  function Route(t: Table, router: Router, context: Context, refs: seq<string>, asOf: Clamp, decidedAt: Moment,
                 id: string): Routed
  {
    match Get(t, router.policyId, asOf, None)
    case NoPolicy => LookupError
    case Malformed => BadPolicy
    case Found(p) =>
      match Select(p, context)
      case None => BadPolicy
      case Some(e) =>
        var candidates := if router.candidates.Some? then router.candidates.value(context) else Choices(p.rules);
        Routed(Decision(id, router.useCase, context, candidates, e.choice, e.policyId, e.policyVersion, e.matchedRuleId,
                        refs, e.rationale, decidedAt))
  }

  lemma {:induction false} ChoicesInOrder(rules: seq<PolicyRule>)
    ensures |Choices(rules)| == |rules| && forall i :: 0 <= i < |rules| ==> Choices(rules)[i] == rules[i].choice
  {
    if rules != [] {
      ChoicesInOrder(rules[1..]);
    }
  }

  /** The decision records the question as it was put, and the answer of the policy. */
  ghost predicate Records(d: Decision, router: Router, context: Context, refs: seq<string>, decidedAt: Moment,
                          id: string, p: PolicyVersion) {
    && d.decisionId == id && d.useCase == router.useCase && d.context == context
    && d.evidenceRefs == refs && d.decidedAt == decidedAt
    && Selects(p, context, Some(Evaluation(d.selected, d.matchedRuleId, d.policyId, d.policyVersion, d.rationale)))
    && (router.candidates.Some? ==> d.candidates == router.candidates.value(context))
    && (router.candidates.None? ==>
          |d.candidates| == |p.rules| && forall i :: 0 <= i < |p.rules| ==> d.candidates[i] == p.rules[i].choice)
  }

  /** Routing fails exactly when the clamp shows no row of the policy or its newest
      row is no policy, or its policy raises; and otherwise records what that
      policy, as of the clamp, selects. */
  lemma RouteRecords(t: Table, router: Router, context: Context, refs: seq<string>, asOf: Clamp, decidedAt: Moment,
                     id: string)
    returns (i: nat)
    ensures var rows := History(t, "policy:" + router.policyId);
            match Route(t, router, context, refs, asOf, decidedAt, id)
            case LookupError => forall j :: 0 <= j < |rows| ==> !Shown(rows[j], asOf, None)
            case BadPolicy =>
              IsNewest(rows, i, asOf, None)
              && (FromDict(rows[i].value) == None || Selects(FromDict(rows[i].value).value, context, None))
            case Routed(d) =>
              IsNewest(rows, i, asOf, None) && FromDict(rows[i].value).Some?
              && Records(d, router, context, refs, decidedAt, id, FromDict(rows[i].value).value)
  {
    i := GetMeans(t, router.policyId, asOf, None);
    var found := Get(t, router.policyId, asOf, None);
    if found.Found? {
      SelectMeans(found.policy, context);
      ChoicesInOrder(found.policy.rules);
    }
  }

  lemma {:induction false} LaterAppendKeepsRow(t: Table, r: Record, policyId: string, tx: Moment, vt: Clamp)
    requires Append(t, r).Some? && (r.key == KEY_PREFIX + policyId ==> r.transactionTime > tx)
    ensures AsOfRows(History(Append(t, r).value, KEY_PREFIX + policyId), Some(tx), vt)
            == AsOfRows(History(t, KEY_PREFIX + policyId), Some(tx), vt)
  {
    if r.key == KEY_PREFIX + policyId {
      FilterSkips(History(t, r.key), r, Some(tx), vt);
    }
  }

  /** Appends that add nothing to a policy's rows up to `tx` leave the lookup at `tx` alone. */
  lemma {:induction false} LaterAppendsKeepPolicy(t: Table, rs: seq<Record>, policyId: string, tx: Moment, vt: Clamp)
    requires forall i :: 0 <= i < |rs| && rs[i].key == KEY_PREFIX + policyId ==> rs[i].transactionTime > tx
    ensures Get(AppendMany(t, rs).0, policyId, Some(tx), vt) == Get(t, policyId, Some(tx), vt)
    decreases |rs|
  {
    if rs != [] && Append(t, rs[0]).Some? {
      LaterAppendKeepsRow(t, rs[0], policyId, tx, vt);
      LaterAppendsKeepPolicy(Append(t, rs[0]).value, rs[1..], policyId, tx, vt);
    }
  }

  /** The row that a policy lookup reads. */
  function PolicyRow(t: Table, policyId: string, tx: Clamp): Option<Record> {
    AsOfRows(History(t, KEY_PREFIX + policyId), tx, None)
  }

  /** The policy's newest row was learned by `tx`, or carries the policy of the row as of `tx`. */
  predicate SamePolicyAsOf(t: Table, policyId: string, tx: Moment)
    requires PolicyRow(t, policyId, None).Some?
  {
    var newest, asOf := PolicyRow(t, policyId, None).value, PolicyRow(t, policyId, Some(tx));
    newest.transactionTime <= tx || (asOf.Some? && asOf.value.value == newest.value)
  }

  lemma RowCarriesPolicy(t: Table, policyId: string, tx: Clamp)
    requires Published(t) && PolicyRow(t, policyId, tx).Some?
    ensures Get(t, policyId, tx, None).Found?
    ensures ToDict(Get(t, policyId, tx, None).policy) == PolicyRow(t, policyId, tx).value.value
  {
    var rows := History(t, KEY_PREFIX + policyId);
    var i := AsOfIsBest(rows, tx, None);
    assert rows[i] in rows && IsPublication(rows[i], policyId);
    var p: PolicyVersion :| p.policyId == policyId && rows[i].value == ToDict(p);
    PolicyRoundTrip(p);
  }

  lemma ClampedRowIsVisible(t: Table, policyId: string, tx: Clamp)
    requires PolicyRow(t, policyId, tx).Some?
    ensures PolicyRow(t, policyId, None).Some?
  {
    var rows := History(t, KEY_PREFIX + policyId);
    var i := AsOfIsBest(rows, tx, None);
    VisibleIsAnswered(rows, None, None, i);
  }

  /** The lookup with and without the clamp read the same row if and only if the
      newest was learned by `tx`, and find the same policy if and only if that
      holds or the two rows carry one policy. */
  lemma UnclampedLookupIff(t: Table, policyId: string, tx: Moment)
    requires Published(t) && PolicyRow(t, policyId, None).Some?
    ensures PolicyRow(t, policyId, Some(tx)) == PolicyRow(t, policyId, None)
            <==> PolicyRow(t, policyId, None).value.transactionTime <= tx
    ensures Get(t, policyId, Some(tx), None) == Get(t, policyId, None, None) <==> SamePolicyAsOf(t, policyId, tx)
  {
    ClampKeepsAnswerIff(History(t, KEY_PREFIX + policyId), Some(tx), None);
    RowCarriesPolicy(t, policyId, None);
    if PolicyRow(t, policyId, Some(tx)).Some? {
      RowCarriesPolicy(t, policyId, Some(tx));
      PolicyRoundTrip(Get(t, policyId, Some(tx), None).policy);
      PolicyRoundTrip(Get(t, policyId, None, None).policy);
    }
  }

  /** Then routing without an as-of clamp, stamped `tx`, is routing as of `tx`. */
  lemma UnclampedRouteIsClamped(t: Table, router: Router, context: Context, refs: seq<string>, tx: Moment, id: string)
    requires Published(t)
    requires PolicyRow(t, router.policyId, None).Some? ==> SamePolicyAsOf(t, router.policyId, tx)
    ensures Route(t, router, context, refs, None, tx, id) == Route(t, router, context, refs, Some(tx), tx, id)
  {
    if PolicyRow(t, router.policyId, None).Some? {
      UnclampedLookupIff(t, router.policyId, tx);
    } else if PolicyRow(t, router.policyId, Some(tx)).Some? {
      ClampedRowIsVisible(t, router.policyId, Some(tx));
    }
  }
}
