/**
 The NMOS JSON form of capabilities: `convert_caps_json_to_caps` and `convert_caps_caps_to_json`
 in caps/MatroxCCF.py.  The table of parameter types is the argument `schema`, which maps a name
 outside the table to UNTYPED.
 */
module CapsJson {
  import opened Outcome
  import opened Ranges
  import opened CapSets

  datatype Json =
    | JNull
    | JBool(b: bool)
    | JInt(i: int)
    | JFloat(x: real)
    | JStr(s: string)
    | JArr(items: seq<Json>)
    | JObj(fields: map<string, Json>)

  const NMOS_META := "urn:x-nmos:cap:meta:"
  const MATROX_META := "urn:x-matrox:cap:meta:"
  const LABEL := NMOS_META + "label"
  const PREFERENCE := NMOS_META + "preference"
  const FORMAT := MATROX_META + "format"
  const LAYER := MATROX_META + "layer"
  const GROUPS := MATROX_META + "layer_compatibility_groups"

  predicate IsMeta(name: string) {
    NMOS_META <= name || MATROX_META <= name
  }

  /**
   What Python decides and the conversion only uses: the order in which a set is listed, a
   sorted listing, and the numerator and denominator of a fraction.
   */
  datatype Python = Python(list: set<Value> -> seq<Value>, sorted: set<int> -> seq<int>, parts: real -> (int, int))

  ghost predicate Rational(q: real) {
    exists n: int, d: int {:trigger Ratio(n, d)} :: d > 0 && q == Ratio(n, d)
  }

  function Ratio(n: int, d: int): real
    requires d != 0
  {
    n as real / d as real
  }

  ghost predicate Faithful(py: Python) {
    && (forall s: set<Value>, v: Value :: v in py.list(s) <==> v in s)
    && (forall s: set<int>, i: int :: i in py.sorted(s) <==> i in s)
    && (forall q: real | Rational(q) :: py.parts(q).1 > 0 && Ratio(py.parts(q).0, py.parts(q).1) == q)
  }

  // ---------------------------------------------------------------------------
  // JSON to capabilities
  // ---------------------------------------------------------------------------

  /** `isinstance(j, int)`, which also holds of a boolean. */
  function AsInt(j: Json): Option<int> {
    match j
    case JInt(i) => Some(i)
    case JBool(b) => Some(if b then 1 else 0)
    case _ => None
  }

  function ParseRational(fields: map<string, Json>): Result<Value> {
    var n := if "numerator" in fields then AsInt(fields["numerator"]) else None;
    var d := if "denominator" !in fields || fields["denominator"].JNull? then Some(1) else AsInt(fields["denominator"]);
    if n.None? || d.None? || d.value == 0 then Raised
    else Ok(Fraction(Ratio(n.value, d.value)))
  }

  /** `parse_item`, for an item that is a scalar or a rational. */
  function ParseItem(j: Json): Result<Value> {
    match j
    case JObj(fields) => ParseRational(fields)
    case JBool(b) => Ok(Flag(b))
    case JInt(i) => Ok(Whole(i))
    case JFloat(x) => Ok(Float(x))
    case JStr(s) => Ok(Text(s))
    case _ => Raised
  }

  function ParseItems(items: seq<Json>): Result<set<Value>> {
    if items == [] then Ok({})
    else
      var first :- ParseItem(items[0]);
      var rest :- ParseItems(items[1..]);
      Ok({first} + rest)
  }

  function ParseBound(fields: map<string, Json>, key: string): Result<Option<Value>> {
    if key !in fields || fields[key].JNull? then Ok(None)
    else
      var v :- ParseItem(fields[key]);
      Ok(Some(v))
  }

  function ParseEnum(fields: map<string, Json>): Result<Option<set<Value>>> {
    if "enum" !in fields then Ok(None)
    else if !fields["enum"].JArr? then Raised
    else
      var s :- ParseItems(fields["enum"].items);
      Ok(if s == {} then None else Some(s))
  }

  /** `parse_range_value`. */
  function ParseRange(fields: map<string, Json>, t: RangeType): Result<Range> {
    var low :- ParseBound(fields, "minimum");
    var high :- ParseBound(fields, "maximum");
    var values :- ParseEnum(fields);
    New(values, low.None? && high.None? && "enum" !in fields, false, t, low, high)
  }

  function ParseSingle(j: Json, t: RangeType): Result<Range> {
    var v :- ParseItem(j);
    New(Some({v}), false, false, t, None, None)
  }

  /** One capability entry: a constraint object, a bare rational, a list or a scalar. */
  function ParseCap(j: Json, t: RangeType): Result<Range> {
    match j
    case JObj(fields) => if "numerator" in fields then ParseSingle(j, t) else ParseRange(fields, t)
    case JArr(items) =>
      var s :- ParseItems(items);
      New(Some(s), false, false, t, None, None)
    case _ => ParseSingle(j, t)
  }

  function ParseString(j: Json): Result<string> {
    if j.JStr? then Ok(j.s) else Raised
  }

  function ParseInts(items: seq<Json>): Result<set<int>> {
    if items == [] then Ok({})
    else if !items[0].JInt? then Raised
    else
      var rest :- ParseInts(items[1..]);
      Ok({items[0].i} + rest)
  }

  function ParseTitle(fields: map<string, Json>, index: nat): Result<string> {
    if LABEL in fields then ParseString(fields[LABEL]) else Ok("Unnamed CapSet " + Decimal(index))
  }

  function ParsePreference(fields: map<string, Json>): Result<int> {
    if PREFERENCE !in fields then Ok(0)
    else if fields[PREFERENCE].JInt? then Ok(fields[PREFERENCE].i) else Raised
  }

  function ParseFormat(fields: map<string, Json>): Result<Option<string>> {
    if FORMAT !in fields || fields[FORMAT].JNull? then Ok(None)
    else if fields[FORMAT].JStr? then Ok(Some(fields[FORMAT].s)) else Raised
  }

  function ParseLayer(fields: map<string, Json>): Result<Option<int>> {
    if LAYER !in fields || fields[LAYER].JNull? then Ok(None)
    else if fields[LAYER].JInt? then Ok(Some(fields[LAYER].i)) else Raised
  }

  function ParseGroups(fields: map<string, Json>): Result<Option<set<int>>> {
    if GROUPS !in fields || fields[GROUPS].JNull? then Ok(None)
    else if !fields[GROUPS].JArr? then Raised
    else
      var s :- ParseInts(fields[GROUPS].items);
      Ok(Some(s))
  }

  type Types = string -> RangeType

  function ParseParams(fields: map<string, Json>, schema: Types): Result<map<string, Param>> {
    if exists n <- fields.Keys :: !IsMeta(n) && ParseCap(fields[n], schema(n)).Raised? then Raised
    else Ok(map n | n in fields && !IsMeta(n) :: Param(ParseCap(fields[n], schema(n)).value, false))
  }

  function ParseSet(j: Json, index: nat, schema: Types): Result<ParamSet> {
    if !j.JObj? then Raised
    else
      var title :- ParseTitle(j.fields, index);
      var preference :- ParsePreference(j.fields);
      var format :- ParseFormat(j.fields);
      var layer :- ParseLayer(j.fields);
      var groups :- ParseGroups(j.fields);
      var params :- ParseParams(j.fields, schema);
      Ok(ParamSet(params, preference, title, format, layer, groups))
  }

  type SetReader = (Json, nat) -> Result<ParamSet>

  function Reader(schema: Types): SetReader {
    (j: Json, index: nat) => ParseSet(j, index, schema)
  }

  /** The sets in order, the first of which is number `index`. */
  function ParseSets(items: seq<Json>, index: nat, read: SetReader): Result<seq<ParamSet>> {
    if items == [] then Ok([])
    else
      var first :- read(items[0], index);
      var rest :- ParseSets(items[1..], index + 1, read);
      Ok([first] + rest)
  }

  /** The list of constraint sets, under "caps" when that key is present. */
  function ConstraintSets(j: Json): Result<seq<Json>> {
    if !j.JObj? then Raised
    else
      var at := if "caps" in j.fields then j.fields["caps"] else j;
      if !at.JObj? then Raised
      else if "constraint_sets" !in at.fields then Ok([])
      else if at.fields["constraint_sets"].JArr? then Ok(at.fields["constraint_sets"].items)
      else Raised
  }

  function JsonToCaps(j: Json, schema: Types): Result<seq<ParamSet>> {
    var items :- ConstraintSets(j);
    ParseSets(items, 1, Reader(schema))
  }

  // ---------------------------------------------------------------------------
  // Capabilities to JSON
  // ---------------------------------------------------------------------------

  function ValueToJson(v: Value, py: Python): Json {
    match v
    case Flag(b) => JBool(b)
    case Text(s) => JStr(s)
    case Whole(i) => JInt(i)
    case Float(x) => JFloat(x)
    case Fraction(q) => JObj(map["numerator" := JInt(py.parts(q).0), "denominator" := JInt(py.parts(q).1)])
  }

  function ValuesToJson(vs: seq<Value>, py: Python): seq<Json> {
    seq(|vs|, i requires 0 <= i < |vs| => ValueToJson(vs[i], py))
  }

  function BoundToJson(kind: RangeType, b: Option<real>, key: string, py: Python): map<string, Json> {
    if b.None? || !Numeric(kind) then map[] else map[key := ValueToJson(MakeNumber(kind, b.value), py)]
  }

  function EnumToJson(values: Option<set<Value>>, py: Python): map<string, Json> {
    if values.None? || values.value == {} then map[]
    else map["enum" := JArr(ValuesToJson(py.list(values.value), py))]
  }

  /** `_range_to_json`: INF and NUL both become the empty object. */
  function RangeToJson(r: Range, py: Python): Json {
    match r
    case Finite(kind, low, high, values) =>
      JObj(EnumToJson(values, py) + BoundToJson(kind, low, "minimum", py) + BoundToJson(kind, high, "maximum", py))
    case _ => JObj(map[])
  }

  function IntsToJson(s: seq<int>): seq<Json> {
    seq(|s|, i requires 0 <= i < |s| => JInt(s[i]))
  }

  function MetaToJson(title: string, preference: int, format: Option<string>, layer: Option<int>,
                      groups: Option<set<int>>, py: Python): map<string, Json>
  {
    map[LABEL := JStr(title), PREFERENCE := JInt(preference)]
    + (if format.Some? then map[FORMAT := JStr(format.value)] else map[])
    + (if layer.Some? then map[LAYER := JInt(layer.value)] else map[])
    + (if groups.Some? then map[GROUPS := JArr(IntsToJson(py.sorted(groups.value)))] else map[])
  }

  function RangesToJson(params: map<string, Param>, py: Python): map<string, Json> {
    map n | n in params :: RangeToJson(params[n].value, py)
  }

  function SetToJson(x: ParamSet, py: Python): Json {
    JObj(MetaToJson(x.title, x.preference, x.format, x.layer, x.groups, py) + RangesToJson(x.params, py))
  }

  function SetsToJson(xs: seq<ParamSet>, py: Python): seq<Json> {
    seq(|xs|, i requires 0 <= i < |xs| => SetToJson(xs[i], py))
  }

  function CapsToJson(xs: seq<ParamSet>, py: Python): Json {
    JObj(map["constraint_sets" := JArr(SetsToJson(xs, py))])
  }
}
