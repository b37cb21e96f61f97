/** The two JSON conversions, key by key and form by form. */
module CapsJsonForms {
  import opened Outcome
  import opened Ranges
  import opened RangeLaws
  import opened CapSets
  import opened CapsJson

  // ---------------------------------------------------------------------------
  // One parameter
  // ---------------------------------------------------------------------------

  /** An integer, or a boolean that stands for 1 or 0. */
  predicate IsInt(j: Json, i: int) {
    j == JInt(i) || (j == JBool(true) && i == 1) || (j == JBool(false) && i == 0)
  }

  /** The denominator of a rational, 1 when it is absent or null. */
  predicate IsDenominator(fields: map<string, Json>, d: int) {
    if "denominator" !in fields || fields["denominator"] == JNull then d == 1 else IsInt(fields["denominator"], d)
  }

  /** An item is a scalar that stands for itself, or a rational with integers and no zero below. */
  lemma ItemExactly(j: Json, v: Value)
    ensures ParseItem(j) == Ok(v) <==>
              match v
              case Flag(b) => j == JBool(b)
              case Text(s) => j == JStr(s)
              case Whole(i) => j == JInt(i)
              case Float(x) => j == JFloat(x)
              case Fraction(q) =>
                && j.JObj? && "numerator" in j.fields
                && exists n: int, d: int {:trigger Ratio(n, d)} | IsInt(j.fields["numerator"], n) && IsDenominator(j.fields, d) ::
                     d != 0 && q == Ratio(n, d)
  {
    if j.JObj? && "numerator" in j.fields {
      var n := AsInt(j.fields["numerator"]);
      var d := if "denominator" !in j.fields || j.fields["denominator"].JNull? then Some(1) else AsInt(j.fields["denominator"]);
      if n.Some? && d.Some? {
        assert IsInt(j.fields["numerator"], n.value) && IsDenominator(j.fields, d.value);
        assert forall m: int | IsInt(j.fields["numerator"], m) :: m == n.value;
        assert forall e: int | IsDenominator(j.fields, e) :: e == d.value;
        if d.value != 0 {
          var q := Ratio(n.value, d.value);
        }
      }
    }
  }

  /** The item stands for the value `v` of type `t`, once coerced. */
  predicate StandsFor(j: Json, t: RangeType, v: Value) {
    ParseItem(j).Ok? && Coerce(ParseItem(j).value, t) == Ok(v)
  }

  lemma {:induction false} ItemsExactly(items: seq<Json>)
    requires ParseItems(items).Ok?
    ensures forall i | 0 <= i < |items| :: ParseItem(items[i]).Ok? && ParseItem(items[i]).value in ParseItems(items).value
    ensures forall w <- ParseItems(items).value :: exists i | 0 <= i < |items| :: ParseItem(items[i]) == Ok(w)
  {
    if items != [] {
      ItemsExactly(items[1..]);
      forall i | 0 <= i < |items|
        ensures ParseItem(items[i]).Ok? && ParseItem(items[i]).value in ParseItems(items).value
      {
        assert i > 0 ==> items[i] == items[1..][i - 1];
      }
      forall w | w in ParseItems(items).value
        ensures exists i | 0 <= i < |items| :: ParseItem(items[i]) == Ok(w)
      {
        if w != ParseItem(items[0]).value {
          var i :| 0 <= i < |items[1..]| && ParseItem(items[1..][i]) == Ok(w);
          assert items[i + 1] == items[1..][i];
        }
      }
    }
  }

  lemma ListStandsFor(items: seq<Json>, t: RangeType, v: Value)
    requires ParseItems(items).Ok?
    ensures (exists w <- ParseItems(items).value :: Coerce(w, t) == Ok(v)) <==> exists i | 0 <= i < |items| :: StandsFor(items[i], t, v)
  {
    hide Coerce, ParseItem;
    ItemsExactly(items);
    if w :| w in ParseItems(items).value && Coerce(w, t) == Ok(v) {
      var i :| 0 <= i < |items| && ParseItem(items[i]) == Ok(w);
      assert StandsFor(items[i], t, v);
    }
  }

  /** `v` keeps the bound under `key`, if there is one that is not null. */
  predicate KeepsBound(fields: map<string, Json>, key: string, v: Value, above: bool) {
    key in fields && fields[key] != JNull && v.Numeric() ==>
      var b := ParseItem(fields[key]);
      b.Ok? && AsNumber(b.value).Ok? && if above then AsNumber(b.value).value <= v.Num() else v.Num() <= AsNumber(b.value).value
  }

  lemma ConstraintDenotes(fields: map<string, Json>, t: RangeType, v: Value)
    requires ParseRange(fields, t).Ok? && t == v.Type()
    ensures Denotes(ParseRange(fields, t).value, v) <==>
              && KeepsBound(fields, "minimum", v, true) && KeepsBound(fields, "maximum", v, false)
              && ("enum" in fields && fields["enum"].JArr? && fields["enum"].items != [] ==>
                    exists i | 0 <= i < |fields["enum"].items| :: StandsFor(fields["enum"].items[i], t, v))
  {
    hide Denotes, StandsFor, ParseItem, Coerce, AsNumber;
    var low, high, values := ParseBound(fields, "minimum").value, ParseBound(fields, "maximum").value, ParseEnum(fields).value;
    NewDenotes(values, low.None? && high.None? && "enum" !in fields, false, t, low, high, v);
    BoundsAreNumbers(values, low.None? && high.None? && "enum" !in fields, t, low, high);
    if "enum" in fields {
      EnumRead(fields["enum"].items);
      ListStandsFor(fields["enum"].items, t, v);
    }
  }

  lemma EnumRead(items: seq<Json>)
    requires ParseItems(items).Ok?
    ensures ParseItems(items).value == {} <==> items == []
  {
    hide ParseItem;
  }

  lemma BoundsAreNumbers(values: Option<set<Value>>, infinite: bool, t: RangeType, low: Option<Value>, high: Option<Value>)
    requires New(values, infinite, false, t, low, high).Ok?
    ensures (low.Some? ==> AsNumber(low.value).Ok?) && (high.Some? ==> AsNumber(high.value).Ok?)
  {
  }

  /**
   What a capability entry admits: an object without a numerator the values within its minimum and
   maximum and in its non-empty enum, a list the values that its items stand for, and anything else,
   a rational or a scalar, the one value it stands for.
   */
  lemma EntryDenotes(j: Json, t: RangeType, v: Value)
    requires ParseCap(j, t).Ok? && t == v.Type()
    ensures Denotes(ParseCap(j, t).value, v) <==>
              if j.JObj? && "numerator" !in j.fields then
                && KeepsBound(j.fields, "minimum", v, true) && KeepsBound(j.fields, "maximum", v, false)
                && ("enum" in j.fields && j.fields["enum"].JArr? && j.fields["enum"].items != [] ==>
                      exists i | 0 <= i < |j.fields["enum"].items| :: StandsFor(j.fields["enum"].items[i], t, v))
              else if j.JArr? then exists i | 0 <= i < |j.items| :: StandsFor(j.items[i], t, v)
              else StandsFor(j, t, v)
  {
    hide Denotes, ParseRange, KeepsBound, ParseItem, Coerce, New;
    if j.JObj? && "numerator" !in j.fields {
      ConstraintDenotes(j.fields, t, v);
    } else if j.JArr? {
      ListStandsFor(j.items, t, v);
      NewDenotes(Some(ParseItems(j.items).value), false, false, t, None, None, v);
    } else {
      NewDenotes(Some({ParseItem(j).value}), false, false, t, None, None, v);
    }
  }

  // ---------------------------------------------------------------------------
  // One set
  // ---------------------------------------------------------------------------

  lemma LiteralLabel()
    ensures LABEL == "urn:x-nmos:cap:meta:label"
  {
  }

  lemma LiteralPreference()
    ensures PREFERENCE == "urn:x-nmos:cap:meta:preference"
  {
  }

  lemma LiteralFormat()
    ensures FORMAT == "urn:x-matrox:cap:meta:format"
  {
  }

  lemma LiteralLayer()
    ensures LAYER == "urn:x-matrox:cap:meta:layer"
  {
  }

  lemma LiteralGroups()
    ensures GROUPS == "urn:x-matrox:cap:meta:layer_compatibility_groups"
  {
  }

  lemma LiteralKeys()
    ensures LABEL == "urn:x-nmos:cap:meta:label" && PREFERENCE == "urn:x-nmos:cap:meta:preference"
    ensures FORMAT == "urn:x-matrox:cap:meta:format" && LAYER == "urn:x-matrox:cap:meta:layer"
    ensures GROUPS == "urn:x-matrox:cap:meta:layer_compatibility_groups"
  {
    LiteralLabel();
    LiteralPreference();
    LiteralFormat();
    LiteralLayer();
    LiteralGroups();
  }

  predicate Present(fields: map<string, Json>, key: string) {
    key in fields && fields[key] != JNull
  }

  lemma {:induction false} IntsExactly(items: seq<Json>)
    requires ParseInts(items).Ok?
    ensures forall i: int :: i in ParseInts(items).value <==> JInt(i) in items
  {
    if items != [] {
      IntsExactly(items[1..]);
      assert forall j: Json :: j in items <==> j == items[0] || j in items[1..];
    }
  }

  lemma {:induction false} ItemsRefused(items: seq<Json>)
    ensures ParseItems(items).Raised? <==> exists i | 0 <= i < |items| :: ParseItem(items[i]).Raised?
  {
    hide ParseItem;
    if items != [] {
      ItemsRefused(items[1..]);
      if i :| 0 <= i < |items| && ParseItem(items[i]).Raised? && i > 0 {
        assert items[1..][i - 1] == items[i];
      }
      if i :| 0 <= i < |items[1..]| && ParseItem(items[1..][i]).Raised? {
        assert items[i + 1] == items[1..][i];
      }
    }
  }

  lemma {:induction false} IntsRefused(items: seq<Json>)
    ensures ParseInts(items).Raised? <==> exists j <- items :: !j.JInt?
  {
    if items != [] {
      IntsRefused(items[1..]);
      assert forall j: Json :: j in items <==> j == items[0] || j in items[1..];
    }
  }

  /** A set is refused when an attribute is of another type than its own, or a parameter cannot be read. */
  lemma SetRefusedExactly(j: Json, index: nat, schema: Types)
    ensures ParseSet(j, index, schema).Ok? <==>
              && j.JObj?
              && ("urn:x-nmos:cap:meta:label" in j.fields ==> j.fields["urn:x-nmos:cap:meta:label"].JStr?)
              && ("urn:x-nmos:cap:meta:preference" in j.fields ==> j.fields["urn:x-nmos:cap:meta:preference"].JInt?)
              && (Present(j.fields, "urn:x-matrox:cap:meta:format") ==> j.fields["urn:x-matrox:cap:meta:format"].JStr?)
              && (Present(j.fields, "urn:x-matrox:cap:meta:layer") ==> j.fields["urn:x-matrox:cap:meta:layer"].JInt?)
              && (Present(j.fields, "urn:x-matrox:cap:meta:layer_compatibility_groups") ==>
                    && j.fields["urn:x-matrox:cap:meta:layer_compatibility_groups"].JArr?
                    && forall i <- j.fields["urn:x-matrox:cap:meta:layer_compatibility_groups"].items :: i.JInt?)
              && forall n <- j.fields.Keys ::
                   !("urn:x-nmos:cap:meta:" <= n) && !("urn:x-matrox:cap:meta:" <= n) ==> ParseCap(j.fields[n], schema(n)).Ok?
  {
    hide Decimal, ParseCap, ParseInts;
    LiteralKeys();
    if j.JObj? && Present(j.fields, GROUPS) && j.fields[GROUPS].JArr? {
      IntsRefused(j.fields[GROUPS].items);
    }
  }

  /** Each attribute of a set comes from its own key, or from its default. */
  lemma SetReadExactly(j: Json, index: nat, schema: Types)
    requires ParseSet(j, index, schema).Ok?
    ensures j.JObj?
    ensures var (x, f) := (ParseSet(j, index, schema).value, j.fields);
            && (if "urn:x-nmos:cap:meta:label" in f then f["urn:x-nmos:cap:meta:label"] == JStr(x.title)
                else x.title == "Unnamed CapSet " + Decimal(index))
            && (if "urn:x-nmos:cap:meta:preference" in f then f["urn:x-nmos:cap:meta:preference"] == JInt(x.preference)
                else x.preference == 0)
            && (if Present(f, "urn:x-matrox:cap:meta:format")
                then x.format.Some? && f["urn:x-matrox:cap:meta:format"] == JStr(x.format.value) else x.format.None?)
            && (if Present(f, "urn:x-matrox:cap:meta:layer")
                then x.layer.Some? && f["urn:x-matrox:cap:meta:layer"] == JInt(x.layer.value) else x.layer.None?)
            && (if Present(f, "urn:x-matrox:cap:meta:layer_compatibility_groups")
                then x.groups.Some? && f["urn:x-matrox:cap:meta:layer_compatibility_groups"].JArr?
                     && forall i: int :: i in x.groups.value <==> JInt(i) in f["urn:x-matrox:cap:meta:layer_compatibility_groups"].items
                else x.groups.None?)
  {
    hide Decimal, ParseParams, ParseInts;
    LiteralKeys();
    if Present(j.fields, GROUPS) {
      IntsExactly(j.fields[GROUPS].items);
    }
  }

  /** The parameters are the entries whose name is not a meta attribute, each with its own type. */
  lemma ParamsReadExactly(j: Json, index: nat, schema: Types)
    requires ParseSet(j, index, schema).Ok?
    ensures j.JObj?
    ensures var (x, f) := (ParseSet(j, index, schema).value, j.fields);
            && (forall n: string :: n in x.params <==> n in f && !("urn:x-nmos:cap:meta:" <= n) && !("urn:x-matrox:cap:meta:" <= n))
            && forall n <- x.params.Keys :: ParseCap(f[n], schema(n)) == Ok(x.params[n].value) && !x.params[n].original
  {
    hide Decimal, ParseCap, ParseInts;
    assert ParseParams(j.fields, schema) == Ok(ParseSet(j, index, schema).value.params);
  }

  /** The sets are read in order and numbered from 1, from under "caps" if that key is present. */
  lemma CapsReadExactly(j: Json, schema: Types)
    requires JsonToCaps(j, schema).Ok?
    ensures j.JObj? && ("caps" in j.fields ==> j.fields["caps"].JObj?)
    ensures var at := if "caps" in j.fields then j.fields["caps"].fields else j.fields;
            var xs := JsonToCaps(j, schema).value;
            if "constraint_sets" in at then
              && at["constraint_sets"].JArr? && |xs| == |at["constraint_sets"].items|
              && forall i | 0 <= i < |xs| :: ParseSet(at["constraint_sets"].items[i], i + 1, schema) == Ok(xs[i])
            else xs == []
  {
    hide ParseSet;
    SetsReadInOrder(ConstraintSets(j).value, 1, schema);
  }

  lemma {:induction false} SetsReadInOrder(items: seq<Json>, index: nat, schema: Types)
    requires ParseSets(items, index, Reader(schema)).Ok?
    ensures var xs := ParseSets(items, index, Reader(schema)).value;
            |xs| == |items| && forall i | 0 <= i < |xs| :: ParseSet(items[i], i + index, schema) == Ok(xs[i])
  {
    hide ParseSet;
    if items != [] {
      SetsReadInOrder(items[1..], index + 1, schema);
      var xs, rest := ParseSets(items, index, Reader(schema)).value, ParseSets(items[1..], index + 1, Reader(schema)).value;
      forall i | 0 <= i < |xs|
        ensures ParseSet(items[i], i + index, schema) == Ok(xs[i])
      {
        if i > 0 {
          assert xs[i] == rest[i - 1] && items[i] == items[1..][i - 1];
          assert ParseSet(items[1..][i - 1], i - 1 + (index + 1), schema) == Ok(rest[i - 1]);
        }
      }
    }
  }

  // ---------------------------------------------------------------------------
  // What is written
  // ---------------------------------------------------------------------------

  /** A range that is INF or NUL becomes an empty object; another, its enumeration and bounds under their keys. */
  lemma RangeWrittenExactly(r: Range, py: Python)
    requires Valid(r)
    ensures RangeToJson(r, py).JObj?
    ensures var f := RangeToJson(r, py).fields;
            if !r.Finite? then f == map[]
            else
              && f.Keys <= {"enum", "minimum", "maximum"}
              && ("enum" in f <==> r.values.Some? && r.values.value != {})
              && ("enum" in f ==> f["enum"] == JArr(ValuesToJson(py.list(r.values.value), py)))
              && ("minimum" in f <==> r.min.Some?) && ("maximum" in f <==> r.max.Some?)
              && (r.min.Some? ==> f["minimum"] == ValueToJson(MakeNumber(r.kind, r.min.value), py))
              && (r.max.Some? ==> f["maximum"] == ValueToJson(MakeNumber(r.kind, r.max.value), py))
  {
    hide ValueToJson, ValuesToJson;
    assert "enum" != "minimum" && "enum" != "maximum" by { assert |"enum"| == 4 && |"minimum"| == 7 && |"maximum"| == 7; }
    assert "minimum" != "maximum" by { assert "minimum"[1] == 'i' && "maximum"[1] == 'a'; }
  }

  /** A set is written under the same keys as it is read from: the label and preference always, the rest when given. */
  lemma SetWrittenExactly(x: ParamSet, py: Python)
    requires forall n <- x.params.Keys :: !IsMeta(n)
    ensures SetToJson(x, py).JObj?
    ensures var f := SetToJson(x, py).fields;
            && "urn:x-nmos:cap:meta:label" in f && f["urn:x-nmos:cap:meta:label"] == JStr(x.title)
            && "urn:x-nmos:cap:meta:preference" in f && f["urn:x-nmos:cap:meta:preference"] == JInt(x.preference)
            && ("urn:x-matrox:cap:meta:format" in f <==> x.format.Some?)
            && (x.format.Some? ==> f["urn:x-matrox:cap:meta:format"] == JStr(x.format.value))
            && ("urn:x-matrox:cap:meta:layer" in f <==> x.layer.Some?)
            && (x.layer.Some? ==> f["urn:x-matrox:cap:meta:layer"] == JInt(x.layer.value))
            && ("urn:x-matrox:cap:meta:layer_compatibility_groups" in f <==> x.groups.Some?)
            && (x.groups.Some? ==> f["urn:x-matrox:cap:meta:layer_compatibility_groups"] == JArr(IntsToJson(py.sorted(x.groups.value))))
            && forall n <- x.params.Keys :: n in f && f[n] == RangeToJson(x.params[n].value, py)
  {
    hide MetaToJson, RangeToJson, IntsToJson, IsMeta;
    LiteralKeys();
    MetaKeys();
    MetaWritten(x, py);
    assert forall n <- x.params.Keys :: n != LABEL && n != PREFERENCE && n != FORMAT && n != LAYER && n != GROUPS;
  }

  lemma MetaWritten(x: ParamSet, py: Python)
    ensures var f := MetaToJson(x.title, x.preference, x.format, x.layer, x.groups, py);
            && LABEL in f && f[LABEL] == JStr(x.title) && PREFERENCE in f && f[PREFERENCE] == JInt(x.preference)
            && (FORMAT in f <==> x.format.Some?) && (x.format.Some? ==> f[FORMAT] == JStr(x.format.value))
            && (LAYER in f <==> x.layer.Some?) && (x.layer.Some? ==> f[LAYER] == JInt(x.layer.value))
            && (GROUPS in f <==> x.groups.Some?) && (x.groups.Some? ==> f[GROUPS] == JArr(IntsToJson(py.sorted(x.groups.value))))
            && f.Keys <= {LABEL, PREFERENCE, FORMAT, LAYER, GROUPS}
  {
    hide IntsToJson;
    MetaKeys();
    assert LABEL != PREFERENCE && LABEL != FORMAT && LABEL != LAYER && LABEL != GROUPS && PREFERENCE != FORMAT
        && PREFERENCE != LAYER && PREFERENCE != GROUPS && FORMAT != LAYER && FORMAT != GROUPS && LAYER != GROUPS;
  }

  lemma MetaKeys()
    ensures IsMeta(LABEL) && IsMeta(PREFERENCE) && IsMeta(FORMAT) && IsMeta(LAYER) && IsMeta(GROUPS)
    ensures |LABEL| == 25 && |PREFERENCE| == 30 && |FORMAT| == 28 && |LAYER| == 27 && |GROUPS| == 48
  {
  }
}
