/** The two JSON conversions undo each other, up to what JSON cannot say. */
module CapsJsonLaws {
  import opened Outcome
  import opened Ranges
  import opened RangeLaws
  import opened CapSets
  import opened CapsJson

  // ---------------------------------------------------------------------------
  // One range
  // ---------------------------------------------------------------------------

  /** Every fraction of the range is a ratio of integers, as Python's are. */
  ghost predicate RationalRange(r: Range) {
    r.Finite? && r.kind == RATIONAL ==>
      && (r.min.Some? ==> Rational(r.min.value))
      && (r.max.Some? ==> Rational(r.max.value))
      && (r.values.Some? ==> forall v <- r.values.value :: v.Fraction? ==> Rational(v.q))
  }

  /** `r` as JSON gives it back: NUL, INF and an empty enumeration cannot be told apart. */
  function Back(r: Range, t: RangeType): Range {
    if !r.Finite? || (r.min.None? && r.max.None? && r.values == Some({})) then Inf(t)
    else if r.values == Some({}) then r.(values := None)
    else r
  }

  lemma ItemRoundTrip(v: Value, py: Python)
    requires Faithful(py) && (v.Fraction? ==> Rational(v.q))
    ensures ParseItem(ValueToJson(v, py)) == Ok(v) && !ValueToJson(v, py).JNull?
  {
  }

  lemma {:induction false} ItemsRoundTrip(vs: seq<Value>, py: Python)
    requires Faithful(py) && forall v <- vs :: v.Fraction? ==> Rational(v.q)
    ensures ParseItems(ValuesToJson(vs, py)) == Ok(set v <- vs)
  {
    if vs == [] {
      assert ValuesToJson(vs, py) == [] && (set v <- vs) == {};
    } else {
      ItemRoundTrip(vs[0], py);
      assert ValuesToJson(vs, py)[1..] == ValuesToJson(vs[1..], py);
      ItemsRoundTrip(vs[1..], py);
      assert (set v <- vs) == {vs[0]} + set v <- vs[1..];
    }
  }

  predicate SameAt(whole: map<string, Json>, part: map<string, Json>, key: string) {
    if key in part then key in whole && whole[key] == part[key] else key !in whole
  }

  lemma EnumRoundTrip(values: Option<set<Value>>, fields: map<string, Json>, py: Python)
    requires Faithful(py) && (values.Some? ==> forall v <- values.value :: v.Fraction? ==> Rational(v.q))
    requires SameAt(fields, EnumToJson(values, py), "enum")
    ensures ParseEnum(fields) == Ok(if values == Some({}) then None else values)
    ensures "enum" in fields <==> values.Some? && values.value != {}
  {
    if values.Some? && values.value != {} {
      var vs := py.list(values.value);
      ItemsRoundTrip(vs, py);
      assert (set v <- vs) == values.value;
    }
  }

  lemma BoundRoundTrip(kind: RangeType, b: Option<real>, key: string, fields: map<string, Json>, py: Python)
    requires Faithful(py) && (b.Some? ==> Numeric(kind) && (kind == RATIONAL ==> Rational(b.value)))
    requires SameAt(fields, BoundToJson(kind, b, key, py), key)
    ensures ParseBound(fields, key) == Ok(Bound(kind, b))
  {
    if b.Some? {
      ItemRoundTrip(MakeNumber(kind, b.value), py);
    }
  }

  /** A range of known type is rebuilt from its own data, under that type or under none. */
  lemma NewFromData(r: Range, t: RangeType)
    requires Valid(r) && r.Finite? && r.values != Some({}) && (t == r.kind || t == UNTYPED)
    ensures New(r.values, false, false, t, Bound(r.kind, r.min), Bound(r.kind, r.max)) == Ok(r)
  {
    InferFromData(r, t);
    if r.values.Some? {
      CoerceAllTyped(r.values.value, r.kind);
    }
  }

  lemma InferFromData(r: Range, t: RangeType)
    requires Valid(r) && r.Finite? && r.values != Some({}) && (t == r.kind || t == UNTYPED)
    ensures InferType(r.values, t, Bound(r.kind, r.min), Bound(r.kind, r.max)) == Ok(r.kind)
  {
    if t == UNTYPED && r.min.None? && r.max.None? {
      assert r.values.value != {};
      var v :| v in r.values.value;
      assert v.Type() == r.kind;
    }
  }

  lemma KeysDiffer()
    ensures "enum" != "minimum" && "enum" != "maximum" && "minimum" != "maximum"
    ensures "numerator" != "enum" && "numerator" != "minimum" && "numerator" != "maximum"
  {
    assert |"enum"| == 4 && |"minimum"| == 7 && |"maximum"| == 7 && |"numerator"| == 9;
    assert "minimum"[1] == 'i' && "maximum"[1] == 'a';
  }

  /** Each part of the constraint object can be read back from the whole. */
  lemma RangeFields(r: Range, py: Python)
    requires r.Finite?
    ensures var fields := RangeToJson(r, py).fields;
            && SameAt(fields, EnumToJson(r.values, py), "enum")
            && SameAt(fields, BoundToJson(r.kind, r.min, "minimum", py), "minimum")
            && SameAt(fields, BoundToJson(r.kind, r.max, "maximum", py), "maximum")
            && "numerator" !in fields
  {
    KeysDiffer();
  }

  /** A finite range goes to JSON and back to itself, apart from an empty enumeration. */
  lemma FiniteRoundTrip(r: Range, t: RangeType, py: Python)
    requires Faithful(py) && Valid(r) && RationalRange(r) && r.Finite? && (t == r.kind || t == UNTYPED)
    ensures ParseCap(RangeToJson(r, py), t) == Ok(Back(r, t))
  {
    hide ParseBound, ParseEnum, EnumToJson, BoundToJson, SameAt;
    var fields := RangeToJson(r, py).fields;
    RangeFields(r, py);
    EnumRoundTrip(r.values, fields, py);
    BoundRoundTrip(r.kind, r.min, "minimum", fields, py);
    BoundRoundTrip(r.kind, r.max, "maximum", fields, py);
    if Back(r, t).Finite? {
      NewFromData(Back(r, t), t);
    }
  }

  /** A range goes to JSON and back to itself, apart from NUL and the empty enumeration. */
  lemma RangeRoundTrip(r: Range, t: RangeType, py: Python)
    requires Faithful(py) && Valid(r) && RationalRange(r)
    requires r.Finite? ==> t == r.kind || t == UNTYPED
    ensures ParseCap(RangeToJson(r, py), t) == Ok(Back(r, t))
    ensures RangeToJson(Back(r, t), py) == RangeToJson(r, py)
  {
    if r.Finite? {
      FiniteRoundTrip(r, t, py);
    }
  }

  // ---------------------------------------------------------------------------
  // Sets and lists of sets
  // ---------------------------------------------------------------------------

  /** What JSON can carry: plain names, ranges of the schema's type, and integer fractions. */
  ghost predicate Expressible(x: ParamSet, schema: Types) {
    forall n <- x.params.Keys ::
      && !IsMeta(n)
      && Valid(x.params[n].value) && RationalRange(x.params[n].value)
      && (x.params[n].value.Finite? ==> schema(n) == x.params[n].value.kind || schema(n) == UNTYPED)
  }

  /** `x` as JSON gives it back; the `original` marks are not carried. */
  function BackSet(x: ParamSet, schema: Types): ParamSet {
    x.(params := map n | n in x.params :: Param(Back(x.params[n].value, schema(n)), false))
  }

  function BackSets(xs: seq<ParamSet>, schema: Types): seq<ParamSet> {
    seq(|xs|, i requires 0 <= i < |xs| => BackSet(xs[i], schema))
  }

  lemma MetaKeysDiffer()
    ensures LABEL != PREFERENCE && LABEL != FORMAT && LABEL != LAYER && LABEL != GROUPS
    ensures PREFERENCE != FORMAT && PREFERENCE != LAYER && PREFERENCE != GROUPS
    ensures FORMAT != LAYER && FORMAT != GROUPS && LAYER != GROUPS
    ensures IsMeta(LABEL) && IsMeta(PREFERENCE) && IsMeta(FORMAT) && IsMeta(LAYER) && IsMeta(GROUPS)
  {
    assert |LABEL| == 25 && |PREFERENCE| == 30 && |FORMAT| == 28 && |LAYER| == 27 && |GROUPS| == 48;
  }

  lemma {:induction false} IntsRoundTrip(s: seq<int>)
    ensures ParseInts(IntsToJson(s)) == Ok(set i <- s)
  {
    if s == [] {
      assert IntsToJson(s) == [] && (set i <- s) == {};
    } else {
      assert IntsToJson(s)[1..] == IntsToJson(s[1..]);
      IntsRoundTrip(s[1..]);
      assert (set i <- s) == {s[0]} + set i <- s[1..];
    }
  }

  lemma GroupsRoundTrip(groups: set<int>, py: Python)
    requires Faithful(py)
    ensures ParseInts(IntsToJson(py.sorted(groups))) == Ok(groups)
  {
    var s := py.sorted(groups);
    IntsRoundTrip(s);
    assert forall i: int :: i in s <==> i in groups;
    assert (set i <- s) == groups;
  }

  /** The meta attributes survive. */
  lemma MetaRoundTrip(x: ParamSet, fields: map<string, Json>, index: nat, py: Python)
    requires Faithful(py)
    requires forall key | IsMeta(key) :: SameAt(fields, MetaToJson(x.title, x.preference, x.format, x.layer, x.groups, py), key)
    ensures ParseTitle(fields, index) == Ok(x.title) && ParsePreference(fields) == Ok(x.preference)
    ensures ParseFormat(fields) == Ok(x.format) && ParseLayer(fields) == Ok(x.layer)
    ensures ParseGroups(fields) == Ok(x.groups)
  {
    hide IsMeta, Faithful, ParseInts, IntsToJson, Decimal;
    MetaKeysDiffer();
    if x.groups.Some? {
      GroupsRoundTrip(x.groups.value, py);
    }
  }

  lemma SetFields(x: ParamSet, py: Python, schema: Types)
    requires Expressible(x, schema)
    ensures var fields := SetToJson(x, py).fields;
            && (forall key | IsMeta(key) :: SameAt(fields, MetaToJson(x.title, x.preference, x.format, x.layer, x.groups, py), key))
            && (forall n :: n in fields && !IsMeta(n) <==> n in x.params)
            && forall n | n in x.params :: fields[n] == RangeToJson(x.params[n].value, py)
  {
    MetaKeysDiffer();
    assert forall key <- MetaToJson(x.title, x.preference, x.format, x.layer, x.groups, py).Keys :: IsMeta(key);
  }

  /** Reading fields that each give back one parameter. */
  lemma ParamsByField(fields: map<string, Json>, params: map<string, Param>, schema: Types)
    requires forall n :: n in fields && !IsMeta(n) <==> n in params
    requires forall n <- params.Keys :: ParseCap(fields[n], schema(n)).Ok? && params[n] == Param(ParseCap(fields[n], schema(n)).value, false)
    ensures ParseParams(fields, schema) == Ok(params)
  {
    assert ParseParams(fields, schema).Ok?;
    assert ParseParams(fields, schema).value == params;
  }

  lemma ParamsRoundTrip(x: ParamSet, py: Python, schema: Types)
    requires Faithful(py) && Expressible(x, schema)
    ensures ParseParams(SetToJson(x, py).fields, schema) == Ok(BackSet(x, schema).params)
  {
    var fields := SetToJson(x, py).fields;
    SetFields(x, py, schema);
    forall n | n in x.params
      ensures ParseCap(fields[n], schema(n)) == Ok(Back(x.params[n].value, schema(n)))
    {
      RangeRoundTrip(x.params[n].value, schema(n), py);
    }
    ParamsByField(fields, BackSet(x, schema).params, schema);
  }

  lemma SetRoundTrip(x: ParamSet, index: nat, py: Python, schema: Types)
    requires Faithful(py) && Expressible(x, schema)
    ensures ParseSet(SetToJson(x, py), index, schema) == Ok(BackSet(x, schema))
  {
    SetFields(x, py, schema);
    MetaRoundTrip(x, SetToJson(x, py).fields, index, py);
    ParamsRoundTrip(x, py, schema);
  }

  lemma {:induction false} ReadEach(items: seq<Json>, xs: seq<ParamSet>, index: nat, read: SetReader)
    requires |items| == |xs| && forall i | 0 <= i < |xs| :: read(items[i], index + i) == Ok(xs[i])
    ensures ParseSets(items, index, read) == Ok(xs)
  {
    if items == [] {
    } else {
      assert read(items[0], index + 0) == Ok(xs[0]);
      forall i | 0 <= i < |xs| - 1
        ensures read(items[1..][i], index + 1 + i) == Ok(xs[1..][i])
      {
        assert read(items[i + 1], index + (i + 1)) == Ok(xs[i + 1]);
      }
      ReadEach(items[1..], xs[1..], index + 1, read);
      assert [xs[0]] + xs[1..] == xs;
    }
  }

  lemma SetsRoundTrip(xs: seq<ParamSet>, index: nat, py: Python, schema: Types)
    requires Faithful(py) && forall x <- xs :: Expressible(x, schema)
    ensures ParseSets(SetsToJson(xs, py), index, Reader(schema)) == Ok(BackSets(xs, schema))
  {
    hide ParseSet, SetToJson, BackSet, Expressible, Faithful;
    forall i | 0 <= i < |xs|
      ensures Reader(schema)(SetsToJson(xs, py)[i], index + i) == Ok(BackSets(xs, schema)[i])
    {
      assert xs[i] in xs;
      SetRoundTrip(xs[i], index + i, py, schema);
    }
    ReadEach(SetsToJson(xs, py), BackSets(xs, schema), index, Reader(schema));
  }

  /** Capabilities to JSON and back: every attribute and every range, NUL coming back as INF. */
  lemma CapsRoundTrip(xs: seq<ParamSet>, py: Python, schema: Types)
    requires Faithful(py) && forall x <- xs :: Expressible(x, schema)
    ensures JsonToCaps(CapsToJson(xs, py), schema) == Ok(BackSets(xs, schema))
  {
    var j := CapsToJson(xs, py);
    assert |"caps"| == 4 && |"constraint_sets"| == 15;
    assert "caps" !in j.fields;
    SetsRoundTrip(xs, 1, py, schema);
  }

  /** Without NUL or an empty enumeration, what comes back accepts the same configurations. */
  lemma CapsRoundTripConfigs(x: ParamSet, c: Config, schema: Types)
    requires NulFree(x) && forall n <- x.params.Keys :: !x.params[n].value.HasEnumException()
    ensures Accepts(BackSet(x, schema), c) <==> Accepts(x, c)
  {
    assert BackSet(x, schema).params.Keys == x.params.Keys;
    assert forall n <- x.params.Keys :: Denotes(BackSet(x, schema).params[n].value, c(n)) <==> Denotes(x.params[n].value, c(n));
  }

  // ---------------------------------------------------------------------------
  // From JSON
  // ---------------------------------------------------------------------------

  /** Whatever the constructor builds for a schema type is valid and of that type. */
  lemma NewOfType(values: Option<set<Value>>, infinite: bool, t: RangeType, low: Option<Value>, high: Option<Value>)
    requires New(values, infinite, false, t, low, high).Ok?
    ensures var r := New(values, infinite, false, t, low, high).value;
            Valid(r) && (r.Finite? ==> t == r.kind || t == UNTYPED)
  {
    NewIsValid(values, infinite, false, t, low, high);
  }

  lemma ParseCapOfType(j: Json, t: RangeType)
    requires ParseCap(j, t).Ok?
    ensures Valid(ParseCap(j, t).value)
    ensures ParseCap(j, t).value.Finite? ==> t == ParseCap(j, t).value.kind || t == UNTYPED
  {
    if j.JObj? && "numerator" !in j.fields {
      var low, high, values := ParseBound(j.fields, "minimum"), ParseBound(j.fields, "maximum"), ParseEnum(j.fields);
      NewOfType(values.value, low.value.None? && high.value.None? && "enum" !in j.fields, t, low.value, high.value);
    } else if j.JArr? {
      NewOfType(Some(ParseItems(j.items).value), false, t, None, None);
    } else {
      NewOfType(Some({ParseItem(j).value}), false, t, None, None);
    }
  }

  /** Every number of `j` is a ratio of integers, as every float is. */
  ghost predicate RationalJson(j: Json) {
    match j
    case JFloat(x) => Rational(x)
    case JArr(items) => forall i | 0 <= i < |items| :: RationalJson(items[i])
    case JObj(fields) => forall key <- fields.Keys :: RationalJson(fields[key])
    case _ => true
  }

  ghost predicate RationalValue(v: Value) {
    v.Numeric() ==> Rational(v.Num())
  }

  lemma RatioIsRational(n: int, d: int)
    requires d != 0
    ensures Rational(Ratio(n, d))
  {
    if d < 0 {
      assert Ratio(n, d) == Ratio(-n, -d);
    }
  }

  lemma WholeIsRational(i: int)
    ensures Rational(i as real)
  {
    assert i as real == Ratio(i, 1);
  }

  lemma ParsedItemRational(j: Json)
    requires RationalJson(j) && ParseItem(j).Ok?
    ensures RationalValue(ParseItem(j).value)
  {
    match j
    case JInt(i) => WholeIsRational(i);
    case JObj(fields) =>
      var d := if "denominator" !in fields || fields["denominator"].JNull? then 1 else AsInt(fields["denominator"]).value;
      RatioIsRational(AsInt(fields["numerator"]).value, d);
    case _ =>
  }

  lemma {:induction false} ParsedItemsRational(items: seq<Json>)
    requires (forall i | 0 <= i < |items| :: RationalJson(items[i])) && ParseItems(items).Ok?
    ensures forall v <- ParseItems(items).value :: RationalValue(v)
  {
    if items != [] {
      ParsedItemRational(items[0]);
      assert forall i | 0 <= i < |items[1..]| :: items[1..][i] == items[i + 1];
      ParsedItemsRational(items[1..]);
    }
  }

  lemma CoercedRational(v: Value, t: RangeType)
    requires RationalValue(v) && Coerce(v, t).Ok?
    ensures Coerce(v, t).value.Fraction? ==> Rational(Coerce(v, t).value.q)
    ensures AsNumber(v).Ok? ==> Rational(AsNumber(v).value)
  {
    WholeIsRational(0);
    WholeIsRational(1);
  }

  /** Rational data make a rational range. */
  lemma NewRational(values: Option<set<Value>>, infinite: bool, t: RangeType, low: Option<Value>, high: Option<Value>)
    requires New(values, infinite, false, t, low, high).Ok?
    requires (low.Some? ==> RationalValue(low.value)) && (high.Some? ==> RationalValue(high.value))
    requires values.Some? ==> forall v <- values.value :: RationalValue(v)
    ensures RationalRange(New(values, infinite, false, t, low, high).value)
  {
    var kind := InferType(values, t, low, high).value;
    if low.Some? {
      CoercedRational(low.value, UNTYPED);
    }
    if high.Some? {
      CoercedRational(high.value, UNTYPED);
    }
    if values.Some? {
      forall v | v in values.value
        ensures Coerce(v, kind).Ok? && (Coerce(v, kind).value.Fraction? ==> Rational(Coerce(v, kind).value.q))
      {
        CoercedRational(v, kind);
      }
    }
  }

  lemma ParsedBoundRational(fields: map<string, Json>, key: string)
    requires RationalJson(JObj(fields)) && ParseBound(fields, key).Ok?
    ensures ParseBound(fields, key).value.Some? ==> RationalValue(ParseBound(fields, key).value.value)
  {
    if key in fields && !fields[key].JNull? {
      ParsedItemRational(fields[key]);
    }
  }

  lemma ParseCapRational(j: Json, t: RangeType)
    requires RationalJson(j) && ParseCap(j, t).Ok?
    ensures RationalRange(ParseCap(j, t).value)
  {
    if j.JObj? && "numerator" !in j.fields {
      var low, high, values := ParseBound(j.fields, "minimum"), ParseBound(j.fields, "maximum"), ParseEnum(j.fields);
      ParsedBoundRational(j.fields, "minimum");
      ParsedBoundRational(j.fields, "maximum");
      if "enum" in j.fields {
        assert RationalJson(j.fields["enum"]);
        ParsedItemsRational(j.fields["enum"].items);
      }
      NewRational(values.value, low.value.None? && high.value.None? && "enum" !in j.fields, t, low.value, high.value);
    } else if j.JArr? {
      ParsedItemsRational(j.items);
      NewRational(Some(ParseItems(j.items).value), false, t, None, None);
    } else {
      ParsedItemRational(j);
      NewRational(Some({ParseItem(j).value}), false, t, None, None);
    }
  }

  lemma ParsedCapExpressible(j: Json, t: RangeType)
    requires RationalJson(j) && ParseCap(j, t).Ok?
    ensures var r := ParseCap(j, t).value;
            Valid(r) && RationalRange(r) && (r.Finite? ==> t == r.kind || t == UNTYPED)
  {
    ParseCapOfType(j, t);
    ParseCapRational(j, t);
  }

  lemma ParsedSetExpressible(j: Json, index: nat, schema: Types)
    requires RationalJson(j) && ParseSet(j, index, schema).Ok?
    ensures Expressible(ParseSet(j, index, schema).value, schema)
  {
    var x := ParseSet(j, index, schema).value;
    assert ParseParams(j.fields, schema) == Ok(x.params);
    forall n | n in x.params.Keys
      ensures !IsMeta(n) && Valid(x.params[n].value) && RationalRange(x.params[n].value)
      ensures x.params[n].value.Finite? ==> schema(n) == x.params[n].value.kind || schema(n) == UNTYPED
    {
      ParsedCapExpressible(j.fields[n], schema(n));
    }
  }

  lemma {:induction false} ParsedIsExpressible(items: seq<Json>, index: nat, schema: Types)
    requires (forall i | 0 <= i < |items| :: RationalJson(items[i])) && ParseSets(items, index, Reader(schema)).Ok?
    ensures forall x <- ParseSets(items, index, Reader(schema)).value :: Expressible(x, schema)
  {
    if items != [] {
      assert forall i | 0 <= i < |items[1..]| :: items[1..][i] == items[i + 1];
      ParsedIsExpressible(items[1..], index + 1, schema);
      ParsedSetExpressible(items[0], index, schema);
    }
  }

  lemma BackSetToJson(x: ParamSet, py: Python, schema: Types)
    requires Faithful(py) && Expressible(x, schema)
    ensures SetToJson(BackSet(x, schema), py) == SetToJson(x, py)
  {
    forall n | n in x.params
      ensures RangeToJson(Back(x.params[n].value, schema(n)), py) == RangeToJson(x.params[n].value, py)
    {
      RangeRoundTrip(x.params[n].value, schema(n), py);
    }
    assert RangesToJson(BackSet(x, schema).params, py) == RangesToJson(x.params, py);
  }

  lemma ConstraintSetsRational(j: Json)
    requires RationalJson(j) && ConstraintSets(j).Ok?
    ensures forall i | 0 <= i < |ConstraintSets(j).value| :: RationalJson(ConstraintSets(j).value[i])
  {
    var at := if "caps" in j.fields then j.fields["caps"] else j;
    assert RationalJson(at);
    if "constraint_sets" in at.fields {
      assert RationalJson(at.fields["constraint_sets"]);
    }
  }

  /** JSON to capabilities to JSON is idempotent on every accepted input. */
  lemma JsonIdempotent(j: Json, py: Python, schema: Types)
    requires Faithful(py) && JsonToCaps(j, schema).Ok? && RationalJson(j)
    ensures var once := CapsToJson(JsonToCaps(j, schema).value, py);
            JsonToCaps(once, schema).Ok? && CapsToJson(JsonToCaps(once, schema).value, py) == once
  {
    var xs := JsonToCaps(j, schema).value;
    ConstraintSetsRational(j);
    ParsedIsExpressible(ConstraintSets(j).value, 1, schema);
    CapsRoundTrip(xs, py, schema);
    forall i | 0 <= i < |xs|
      ensures SetToJson(BackSet(xs[i], schema), py) == SetToJson(xs[i], py)
    {
      assert xs[i] in xs;
      BackSetToJson(xs[i], py, schema);
    }
    assert SetsToJson(BackSets(xs, schema), py) == SetsToJson(xs, py);
  }

  // ---------------------------------------------------------------------------
  // The conversions as the source runs them
  // ---------------------------------------------------------------------------

  lemma {:induction false} ParseSetsAppend(items: seq<Json>, j: Json, index: nat, read: SetReader)
    ensures ParseSets(items + [j], index, read) ==
              var init, last := ParseSets(items, index, read), read(j, index + |items|);
              if init.Raised? || last.Raised? then Raised else Ok(init.value + [last.value])
  {
    if items == [] {
      assert items + [j] == [j] && [j][1..] == [];
      assert ParseSets([j][1..], index + 1, read) == Ok([]);
      assert read(j, index).Ok? ==> [read(j, index).value] + [] == [] + [read(j, index).value];
    } else {
      assert (items + [j])[1..] == items[1..] + [j];
      ParseSetsAppend(items[1..], j, index + 1, read);
      assert index + 1 + |items[1..]| == index + |items|;
      var first, rest, last := read(items[0], index), ParseSets(items[1..], index + 1, read), read(j, index + |items|);
      if first.Ok? && rest.Ok? && last.Ok? {
        assert [first.value] + (rest.value + [last.value]) == [first.value] + rest.value + [last.value];
      }
    }
  }

  lemma {:induction false} ParseSetsPrefix(items: seq<Json>, k: nat, index: nat, read: SetReader)
    requires k <= |items| && ParseSets(items[..k], index, read).Raised?
    ensures ParseSets(items, index, read).Raised?
  {
    if items != [] && k > 0 {
      assert items[..k][1..] == items[1..][..k - 1];
      if read(items[0], index).Ok? {
        ParseSetsPrefix(items[1..], k - 1, index + 1, read);
      }
    }
  }

  /** `convert_caps_json_to_caps`: the capability entries are read in any order of the object. */
  method ReadCaps(j: Json, schema: Types) returns (r: Result<seq<ParamSet>>)
    ensures r == JsonToCaps(j, schema)
  {
    var items :- ConstraintSets(j);
    var capsets: seq<ParamSet> := [];
    for k := 0 to |items|
      invariant ParseSets(items[..k], 1, Reader(schema)) == Ok(capsets)
    {
      ParseSetsAppend(items[..k], items[k], 1, Reader(schema));
      assert items[..k + 1] == items[..k] + [items[k]];
      var one := ReadSet(items[k], k + 1, schema);
      if one.Raised? {
        ParseSetsPrefix(items, k + 1, 1, Reader(schema));
        return Raised;
      }
      capsets := capsets + [one.value];
    }
    assert items[..|items|] == items;
    return Ok(capsets);
  }

  method ReadSet(j: Json, index: nat, schema: Types) returns (r: Result<ParamSet>)
    ensures r == ParseSet(j, index, schema)
  {
    if !j.JObj? {
      return Raised;
    }
    var title :- ParseTitle(j.fields, index);
    var preference :- ParsePreference(j.fields);
    var format :- ParseFormat(j.fields);
    var layer :- ParseLayer(j.fields);
    var groups :- ParseGroups(j.fields);
    var params: map<string, Param> := map[];
    var entries := set n <- j.fields.Keys | !IsMeta(n);
    var todo := entries;
    while todo != {}
      invariant todo <= entries
      invariant params.Keys == entries - todo
      invariant forall n <- params.Keys :: ParseCap(j.fields[n], schema(n)) == Ok(params[n].value) && !params[n].original
    {
      var n :| n in todo;
      var value := ParseCap(j.fields[n], schema(n));
      if value.Raised? {
        return Raised;
      }
      params := params[n := Param(value.value, false)];
      todo := todo - {n};
    }
    assert ParseParams(j.fields, schema).Ok? && params == ParseParams(j.fields, schema).value;
    return Ok(ParamSet(params, preference, title, format, layer, groups));
  }

  /** The loop that adds the capabilities to the meta attributes, in any order. */
  method AddRanges(meta: map<string, Json>, params: map<string, Param>, py: Python) returns (fields: map<string, Json>)
    ensures fields == meta + RangesToJson(params, py)
  {
    hide RangeToJson;
    fields := meta;
    var todo := params.Keys;
    while todo != {}
      invariant todo <= params.Keys
      invariant fields == meta + map n | n in params && n !in todo :: RangeToJson(params[n].value, py)
    {
      var n :| n in todo;
      fields := fields[n := RangeToJson(params[n].value, py)];
      todo := todo - {n};
    }
  }

  /** `convert_caps_caps_to_json`. */
  method WriteCaps(xs: seq<ParamSet>, py: Python) returns (j: Json)
    ensures j == CapsToJson(xs, py)
  {
    var sets: seq<Json> := [];
    for k := 0 to |xs|
      invariant sets == SetsToJson(xs[..k], py)
    {
      var x := xs[k];
      var fields := AddRanges(MetaToJson(x.title, x.preference, x.format, x.layer, x.groups, py), x.params, py);
      assert SetsToJson(xs[..k + 1], py) == SetsToJson(xs[..k], py) + [SetToJson(x, py)];
      sets := sets + [JObj(fields)];
    }
    assert xs[..|xs|] == xs;
    return JObj(map["constraint_sets" := JArr(sets)]);
  }
}
