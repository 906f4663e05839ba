/**
 * replace_data from examples/p4src/pre_processing_json.py: a rewrite over a
 * bmv2 JSON document turning every mark_to_drop primitive whose parameters
 * name the standard_metadata header into drop with no parameters.
 *
 * The script rewrites the parsed document in place and returns it; here the
 * document is a value and the result is a new one. A parameter that is not a
 * dict, inspected before a match is found, makes the script raise
 * (param.get does not exist): that outcome is None.
 */
module JsonRewrite {
  import opened Wrappers

  datatype Json =
    | JNull
    | JBool(b: bool)
    | JNumber(n: int)
    | JString(s: string)
    | JArray(items: seq<Json>)
    | JObject(fields: map<string, Json>)

  predicate IsScalar(j: Json) {
    !j.JArray? && !j.JObject?
  }

  /** dict.get(key) == value, where a missing key reads as None and compares unequal. */
  predicate FieldIs(fields: map<string, Json>, key: string, value: Json) {
    key in fields && fields[key] == value
  }

  /** One test of the found loop; param.get only exists on a dict. */
  function ParamMatches(param: Json): Option<bool> {
    if param.JObject? then
      Some(FieldIs(param.fields, "type", JString("header")) && FieldIs(param.fields, "value", JString("standard_metadata")))
    else None
  }

  /** The found loop: stops at the first match; a non-dict parameter before it raises. */
  function FindStandardMetadata(params: seq<Json>): (r: Option<bool>)
    ensures r == Some(true) ==> exists i | 0 <= i < |params| :: ParamMatches(params[i]) == Some(true)
    ensures r == None ==> exists i | 0 <= i < |params| :: !params[i].JObject?
  {
    if params == [] then Some(false)
    else match ParamMatches(params[0])
      case None => None
      case Some(true) => Some(true)
      case Some(false) => FindStandardMetadata(params[1..])
  }

  method FindStandardMetadataLoop(params: seq<Json>) returns (found: Option<bool>)
    ensures found == FindStandardMetadata(params)
  {
    var i := 0;
    while i < |params|
      invariant 0 <= i <= |params|
      invariant FindStandardMetadata(params[i..]) == FindStandardMetadata(params)
    {
      var m := ParamMatches(params[i]);
      if m.None? {
        return None;
      }
      if m.value {
        return Some(true);
      }
      assert params[i..][1..] == params[i + 1..];
      i := i + 1;
    }
    assert params[i..] == [];
    found := Some(false);
  }

  /** The test on a dict: op is mark_to_drop, parameters is a list, and the found loop finds a match. */
  function RewriteCondition(fields: map<string, Json>): (r: Option<bool>)
    ensures r != Some(false) ==> FieldIs(fields, "op", JString("mark_to_drop")) && "parameters" in fields && fields["parameters"].JArray?
    ensures r == None ==> exists i | 0 <= i < |fields["parameters"].items| :: !fields["parameters"].items[i].JObject?
  {
    if FieldIs(fields, "op", JString("mark_to_drop")) && "parameters" in fields && fields["parameters"].JArray? then
      FindStandardMetadata(fields["parameters"].items)
    else Some(false)
  }

  /** replace_data: lists element by element, dicts the rewrite test and then every value. */
  function ReplaceData(j: Json): (r: Option<Json>)
    ensures r.None? ==> j.JArray? || j.JObject?
    ensures r.Some? ==> (r.value.JArray? <==> j.JArray?) && (r.value.JObject? <==> j.JObject?)
    decreases j, 0
  {
    match j
    case JArray(items) =>
      if forall i | 0 <= i < |items| :: ReplaceData(items[i]).Some? then
        Some(JArray(seq(|items|, i requires 0 <= i < |items| => ReplaceData(items[i]).value)))
      else None
    case JObject(fields) =>
      (match RewriteCondition(fields)
       case None => None
       case Some(rewrite) =>
         if forall k | k in fields :: ReplaceMember(fields, rewrite, k).Some? then
           Some(JObject(map k | k in fields :: ReplaceMember(fields, rewrite, k).value))
         else None)
    case _ => Some(j)
  }

  /**
   * data[key] = replace_data(data[key]) once op and parameters have been
   * overwritten (when rewrite holds); "drop" and [] are their own rewrite,
   * see DropAndEmptyAreFixed.
   */
  function ReplaceMember(fields: map<string, Json>, rewrite: bool, k: string): Option<Json>
    requires k in fields
    decreases fields[k], 1
  {
    if rewrite && k == "op" then Some(JString("drop"))
    else if rewrite && k == "parameters" then Some(JArray([]))
    else ReplaceData(fields[k])
  }

  /** A document in which no dict is to be rewritten and no lookup raises. */
  predicate Clean(j: Json)
  {
    match j
    case JArray(items) => forall i | 0 <= i < |items| :: Clean(items[i])
    case JObject(fields) => RewriteCondition(fields) == Some(false) && forall k | k in fields :: Clean(fields[k])
    case _ => true
  }

  // ---------------------------------------------------------------------------
  // Properties
  // ---------------------------------------------------------------------------

  lemma DropAndEmptyAreFixed()
    ensures ReplaceData(JString("drop")) == Some(JString("drop"))
    ensures ReplaceData(JArray([])) == Some(JArray([]))
  {
    CleanUnchanged(JArray([]));
  }

  /** The found loop finds a match exactly when some parameter matches and every one before it is a non-matching dict. */
  lemma {:induction false} FindStandardMetadataMeaning(params: seq<Json>)
    ensures FindStandardMetadata(params) == Some(true) <==>
      exists i :: 0 <= i < |params| && ParamMatches(params[i]) == Some(true)
        && forall j :: 0 <= j < i ==> ParamMatches(params[j]) == Some(false)
    ensures FindStandardMetadata(params) == Some(false) <==>
      forall i :: 0 <= i < |params| ==> ParamMatches(params[i]) == Some(false)
  {
    if FindStandardMetadata(params) == Some(true) {
      var i := FoundHasFirstMatch(params);
    }
    if exists i :: 0 <= i < |params| && ParamMatches(params[i]) == Some(true)
         && forall j :: 0 <= j < i ==> ParamMatches(params[j]) == Some(false) {
      var i :| 0 <= i < |params| && ParamMatches(params[i]) == Some(true)
        && forall j :: 0 <= j < i ==> ParamMatches(params[j]) == Some(false);
      FirstMatchIsFound(params, i);
    }
    NotFoundMeansNoMatch(params);
  }

  /** A found match has an index: the first parameter that matches, all before it being non-matching dicts. */
  lemma {:induction false} FoundHasFirstMatch(params: seq<Json>) returns (i: nat)
    requires FindStandardMetadata(params) == Some(true)
    ensures i < |params| && ParamMatches(params[i]) == Some(true)
    ensures forall j :: 0 <= j < i ==> ParamMatches(params[j]) == Some(false)
  {
    if ParamMatches(params[0]) == Some(true) {
      i := 0;
    } else {
      var k := FoundHasFirstMatch(params[1..]);
      i := k + 1;
      forall j | 0 <= j < i
        ensures ParamMatches(params[j]) == Some(false)
      {
        if j > 0 {
          assert params[j] == params[1..][j - 1];
        }
      }
    }
  }

  /** A matching parameter preceded only by non-matching dicts is found. */
  lemma {:induction false} FirstMatchIsFound(params: seq<Json>, i: nat)
    requires i < |params| && ParamMatches(params[i]) == Some(true)
    requires forall j :: 0 <= j < i ==> ParamMatches(params[j]) == Some(false)
    ensures FindStandardMetadata(params) == Some(true)
  {
    if i > 0 {
      assert ParamMatches(params[0]) == Some(false);
      forall j | 0 <= j < i - 1
        ensures ParamMatches(params[1..][j]) == Some(false)
      {
        assert params[1..][j] == params[j + 1];
      }
      FirstMatchIsFound(params[1..], i - 1);
    }
  }

  lemma {:induction false} NotFoundMeansNoMatch(params: seq<Json>)
    ensures FindStandardMetadata(params) == Some(false) <==>
      forall i :: 0 <= i < |params| ==> ParamMatches(params[i]) == Some(false)
  {
    if params != [] {
      NotFoundMeansNoMatch(params[1..]);
      if forall i :: 0 <= i < |params| ==> ParamMatches(params[i]) == Some(false) {
        assert forall i :: 0 <= i < |params[1..]| ==> ParamMatches(params[1..][i]) == Some(false) by {
          forall i | 0 <= i < |params[1..]|
            ensures ParamMatches(params[1..][i]) == Some(false)
          {
            assert params[1..][i] == params[i + 1];
          }
        }
      }
      if FindStandardMetadata(params) == Some(false) {
        forall i | 0 <= i < |params|
          ensures ParamMatches(params[i]) == Some(false)
        {
          if i > 0 {
            assert params[i] == params[1..][i - 1];
          }
        }
      }
    }
  }

  /** Scalars come back unchanged; lists keep their length and dicts their keys, with every element and value rewritten. */
  lemma ShapePreserved(j: Json, r: Json)
    requires ReplaceData(j) == Some(r)
    ensures IsScalar(j) ==> r == j
    ensures j.JArray? <==> r.JArray?
    ensures j.JObject? <==> r.JObject?
    ensures IsScalar(r) ==> r == j
    ensures j.JArray? ==> |r.items| == |j.items| && forall i :: 0 <= i < |j.items| ==> ReplaceData(j.items[i]) == Some(r.items[i])
    ensures j.JObject? ==> r.fields.Keys == j.fields.Keys
    ensures j.JObject? && RewriteCondition(j.fields) == Some(false) ==>
      forall k :: k in j.fields ==> ReplaceData(j.fields[k]) == Some(r.fields[k])
  {
  }

  /** A matching mark_to_drop becomes drop with an empty parameter list; its other values are rewritten. */
  lemma MarkToDropRewritten(fields: map<string, Json>, r: Json)
    requires RewriteCondition(fields) == Some(true)
    requires ReplaceData(JObject(fields)) == Some(r)
    ensures r.JObject? && r.fields.Keys == fields.Keys
    ensures r.fields["op"] == JString("drop") && r.fields["parameters"] == JArray([])
    ensures forall k :: k in fields && k != "op" && k != "parameters" ==> ReplaceData(fields[k]) == Some(r.fields[k])
  {
  }

  /** A mark_to_drop without a matching parameter keeps its op, and its parameters are only rewritten within. */
  lemma MarkToDropKept(fields: map<string, Json>, r: Json)
    requires FieldIs(fields, "op", JString("mark_to_drop")) && "parameters" in fields
    requires RewriteCondition(fields) == Some(false)
    requires ReplaceData(JObject(fields)) == Some(r)
    ensures r.JObject? && FieldIs(r.fields, "op", JString("mark_to_drop"))
    ensures ReplaceData(fields["parameters"]) == Some(r.fields["parameters"])
    ensures IsScalar(fields["parameters"]) ==> r.fields["parameters"] == fields["parameters"]
  {
    ShapePreserved(JObject(fields), r);
    ShapePreserved(fields["parameters"], r.fields["parameters"]);
  }

  /** The rewrite changes no dict's test outcome for its parameters: strings stay strings, dicts stay dicts. */
  lemma ParamMatchesPreserved(p: Json, q: Json)
    requires ReplaceData(p) == Some(q)
    ensures ParamMatches(q) == ParamMatches(p)
  {
    ShapePreserved(p, q);
    if p.JObject? {
      TestedFieldPreserved(p.fields, q.fields, "type");
      TestedFieldPreserved(p.fields, q.fields, "value");
    }
  }

  /** A key other than op and parameters keeps its presence, and a string value under it stays the same string. */
  lemma TestedFieldPreserved(pf: map<string, Json>, qf: map<string, Json>, key: string)
    requires ReplaceData(JObject(pf)) == Some(JObject(qf))
    requires key != "op" && key != "parameters"
    ensures key in qf <==> key in pf
    ensures key in pf ==> (IsScalar(pf[key]) || IsScalar(qf[key]) ==> qf[key] == pf[key])
  {
    ShapePreserved(JObject(pf), JObject(qf));
    if key in pf {
      assert ReplaceMember(pf, RewriteCondition(pf).value, key) == Some(qf[key]);
      ShapePreserved(pf[key], qf[key]);
    }
  }

  lemma {:induction false} FindPreserved(ps: seq<Json>, qs: seq<Json>)
    requires |ps| == |qs|
    requires forall i :: 0 <= i < |ps| ==> ReplaceData(ps[i]) == Some(qs[i])
    ensures FindStandardMetadata(qs) == FindStandardMetadata(ps)
  {
    if ps != [] {
      ParamMatchesPreserved(ps[0], qs[0]);
      FindPreserved(ps[1..], qs[1..]);
    }
  }

  /** The result leaves nothing to rewrite: no dict in it satisfies the rewrite test. */
  lemma {:induction false} ResultIsClean(j: Json, r: Json)
    requires ReplaceData(j) == Some(r)
    ensures Clean(r)
    decreases j
  {
    ShapePreserved(j, r);
    match j
    case JArray(items) =>
      forall i | 0 <= i < |items|
        ensures Clean(r.items[i])
      {
        ResultIsClean(items[i], r.items[i]);
      }
    case JObject(fields) =>
      var rewrite := RewriteCondition(fields).value;
      forall k | k in fields
        ensures Clean(r.fields[k])
      {
        if rewrite && (k == "op" || k == "parameters") {
        } else {
          ResultIsClean(fields[k], r.fields[k]);
        }
      }
      if !rewrite && FieldIs(fields, "op", JString("mark_to_drop")) && "parameters" in fields && fields["parameters"].JArray? {
        var ps := fields["parameters"];
        ShapePreserved(ps, r.fields["parameters"]);
        FindPreserved(ps.items, r.fields["parameters"].items);
      }
      if !rewrite && "op" in fields {
        ShapePreserved(fields["op"], r.fields["op"]);
      }
      if !rewrite && "parameters" in fields {
        ShapePreserved(fields["parameters"], r.fields["parameters"]);
      }
    case _ =>
  }

  /** A clean document is returned as it is. */
  lemma {:induction false} CleanUnchanged(j: Json)
    requires Clean(j)
    ensures ReplaceData(j) == Some(j)
    decreases j
  {
    match j
    case JArray(items) =>
      forall i | 0 <= i < |items|
        ensures ReplaceData(items[i]) == Some(items[i])
      {
        CleanUnchanged(items[i]);
      }
      assert seq(|items|, i requires 0 <= i < |items| => ReplaceData(items[i]).value) == items;
    case JObject(fields) =>
      forall k | k in fields
        ensures ReplaceMember(fields, false, k) == Some(fields[k])
      {
        CleanUnchanged(fields[k]);
      }
      assert (map k | k in fields :: ReplaceMember(fields, false, k).value) == fields;
    case _ =>
  }

  /** Running the rewrite a second time changes nothing. */
  lemma Idempotent(j: Json, r: Json)
    requires ReplaceData(j) == Some(r)
    ensures ReplaceData(r) == Some(r)
  {
    ResultIsClean(j, r);
    CleanUnchanged(r);
  }

  /** A list of one element is rewritten as that element is. */
  lemma SingletonList(x: Json, y: Json)
    requires ReplaceData(x) == Some(y)
    ensures ReplaceData(JArray([x])) == Some(JArray([y]))
  {
    var xs := [x];
    assert seq(|xs|, i requires 0 <= i < |xs| => ReplaceData(xs[i]).value) == [y];
  }

  /** A dict with one key other than op is never itself rewritten; its value is. */
  lemma SingleKeyDict(k: string, x: Json, y: Json)
    requires k != "op"
    requires ReplaceData(x) == Some(y)
    ensures ReplaceData(JObject(map[k := x])) == Some(JObject(map[k := y]))
  {
    var fields := map[k := x];
    assert RewriteCondition(fields) == Some(false);
    assert ReplaceMember(fields, false, k) == Some(y);
    assert (map k' | k' in fields :: ReplaceMember(fields, false, k').value) == map[k := y];
  }

  /** The mark_to_drop primitive with a standard_metadata parameter becomes drop with no parameters. */
  lemma MarkToDropPrimitive()
    ensures var stdMeta := JObject(map["type" := JString("header"), "value" := JString("standard_metadata")]);
      ReplaceData(JObject(map["op" := JString("mark_to_drop"), "parameters" := JArray([stdMeta])]))
        == Some(JObject(map["op" := JString("drop"), "parameters" := JArray([])]))
  {
    var stdMeta := JObject(map["type" := JString("header"), "value" := JString("standard_metadata")]);
    var prim := JObject(map["op" := JString("mark_to_drop"), "parameters" := JArray([stdMeta])]);
    assert ParamMatches(stdMeta) == Some(true);
    assert RewriteCondition(prim.fields) == Some(true);
    var dropped := JObject(map["op" := JString("drop"), "parameters" := JArray([])]);
    assert prim.fields.Keys == {"op", "parameters"} == dropped.fields.Keys;
    assert forall k | k in prim.fields :: ReplaceMember(prim.fields, true, k).Some?;
    var r := ReplaceData(prim).value;
    MarkToDropRewritten(prim.fields, r);
    TwoKeyMap(r.fields, "op", "parameters", JString("drop"), JArray([]));
  }

  /** A map over exactly two keys is the display of its two entries. */
  lemma TwoKeyMap(m: map<string, Json>, a: string, b: string, va: Json, vb: Json)
    requires m.Keys == {a, b} && m[a] == va && m[b] == vb
    ensures m == map[a := va, b := vb]
  {
  }

  /** A matching mark_to_drop nested inside a list inside a dict is rewritten too. */
  lemma NestedMatchRewritten()
    ensures var stdMeta := JObject(map["type" := JString("header"), "value" := JString("standard_metadata")]);
      var prim := JObject(map["op" := JString("mark_to_drop"), "parameters" := JArray([stdMeta])]);
      var doc := JObject(map["primitives" := JArray([prim])]);
      ReplaceData(doc) == Some(JObject(map["primitives" := JArray([JObject(map["op" := JString("drop"), "parameters" := JArray([])])])]))
  {
    var stdMeta := JObject(map["type" := JString("header"), "value" := JString("standard_metadata")]);
    var prim := JObject(map["op" := JString("mark_to_drop"), "parameters" := JArray([stdMeta])]);
    var dropped := JObject(map["op" := JString("drop"), "parameters" := JArray([])]);
    MarkToDropPrimitive();
    SingletonList(prim, dropped);
    SingleKeyDict("primitives", JArray([prim]), JArray([dropped]));
  }

  /** A non-dict parameter ahead of any match makes the script raise. */
  lemma NonDictParameterRaises()
    ensures ReplaceData(JObject(map["op" := JString("mark_to_drop"), "parameters" := JArray([JString("x")])])) == None
  {
    var fields := map["op" := JString("mark_to_drop"), "parameters" := JArray([JString("x")])];
    assert FindStandardMetadata([JString("x")]) == None;
    assert RewriteCondition(fields) == None;
  }
}
