/** Laws of `<<` and `<=` between two sets, and the configurations that witness them. */
module CapSetLaws {
  import opened Outcome
  import opened Ranges
  import opened RangeLaws
  import opened CapSets

  // ---------------------------------------------------------------------------
  // Configurations built from ranges
  // ---------------------------------------------------------------------------

  /** A value of type `t` in `r`, if there is one. */
  ghost function Sample(r: Range, t: RangeType): (v: Value)
    requires t != UNTYPED
    ensures v.Type() == t
    ensures Fits(r, t) && !r.Nul? && !r.HasEnumException() ==> Denotes(r, v)
  {
    if w: Value :| w.Type() == t && Denotes(r, w) then w
    else
      assert !Fits(r, t) || r.Nul? || r.HasEnumException() by {
        if Fits(r, t) && !r.Nul? && !r.HasEnumException() {
          var w := Inhabited(r, t);
        }
      }
      if t == BOOL then Flag(true) else if t == STRING then Text("") else MakeNumber(t, 0.0)
  }

  /** A configuration that takes `v` at `n` and, elsewhere, a value of `s`. */
  ghost function ConfigThrough(s: ParamSet, n: string, v: Value, schema: Schema): Config {
    (m: string) => if m == n then v else Sample(Get(s, m).value, schema(m))
  }

  lemma ConfigThroughAccepted(s: ParamSet, n: string, v: Value, schema: Schema)
    requires Typed(s, schema) && NulFree(s) && v.Type() == schema(n)
    ensures TypedConfig(ConfigThrough(s, n, v, schema), schema)
    ensures Accepts(s, ConfigThrough(s, n, v, schema)) <==> Denotes(Get(s, n).value, v)
  {
    var c := ConfigThrough(s, n, v, schema);
    forall m | m in s.params && m != n
      ensures Denotes(s.params[m].value, c(m))
    {
      GetFits(s, m, schema);
    }
    if n in s.params {
      assert c(n) == v;
    }
  }

  /** On NUL-free sets `<&` succeeds exactly when some configuration satisfies both sides. */
  lemma AdjustIffCommonConfig(x: CapSet, y: ConSet, schema: Schema)
    requires Typed(x, schema) && Typed(y, schema) && SamePart(x, y) && NulFree(x)
    ensures NulFree(y) ==>
              (Adjust(x, y).Ok? <==> exists c: Config :: TypedConfig(c, schema) && Accepts(x, c) && Accepts(y, c))
    ensures !NulFree(y) ==> Adjust(x, y).Raised?
  {
    AdjustMeaning(x, y, schema);
    if !NulFree(y) {
      var n :| n in y.params.Keys && y.params[n].value.Nul?;
      assert !Overlap(Get(x, n).value, y.params[n].value, schema(n));
    } else if Adjust(x, y).Ok? {
      AdjustIsNulFree(x, y, schema);
      var r := Adjust(x, y).value;
      var v := Sample(Get(r, "").value, schema(""));
      GetFits(r, "", schema);
      ConfigThroughAccepted(r, "", v, schema);
      var c := ConfigThrough(r, "", v, schema);
      assert TypedConfig(c, schema) && Accepts(x, c) && Accepts(y, c);
    }
    forall c: Config | TypedConfig(c, schema) && Accepts(x, c) && Accepts(y, c)
      ensures Adjust(x, y).Ok?
    {
      CommonConfigMeets(x, y, c, schema);
    }
  }

  lemma CommonConfigMeets(x: CapSet, y: ConSet, c: Config, schema: Schema)
    requires TypedConfig(c, schema) && Accepts(x, c) && Accepts(y, c)
    ensures Meets(x, y, schema)
  {
    forall n | n in y.params.Keys
      ensures Overlap(Get(x, n).value, y.params[n].value, schema(n))
    {
      assert c(n).Type() == schema(n) && Denotes(y.params[n].value, c(n)) && Denotes(Get(x, n).value, c(n));
    }
  }

  lemma AdjustIsNulFree(x: CapSet, y: ConSet, schema: Schema)
    requires Typed(x, schema) && Typed(y, schema) && SamePart(x, y) && NulFree(x) && Adjust(x, y).Ok?
    ensures NulFree(Adjust(x, y).value)
  {
    var r := Adjust(x, y).value;
    forall n | n in r.params.Keys
      ensures !r.params[n].value.Nul?
    {
      if n in y.params {
        CapAdjustMeaning(Get(x, n), y.params[n], schema(n));
      }
    }
  }

  // ---------------------------------------------------------------------------
  // `<<`
  // ---------------------------------------------------------------------------

  lemma CapConstrictMeaning(x: Param, y: Param, t: RangeType)
    requires Fits(x.value, t) && Fits(y.value, t) && !x.value.HasEnumException() && !y.value.HasEnumException()
    ensures ConIncluded(y, x) == Ok(y.value.Inf? || Contains(x.value, y.value))
    ensures CapConstrict(x, y) == if y.value.Inf? then Ok(x)
                                  else if Contains(x.value, y.value) then Ok(Param(y.value, x.original)) else Raised
  {
    RebuildIsIdentity(x.value);
  }

  /** `x << y` succeeds exactly when `y <= x`. */
  lemma ConstrictIffIncluded(x: CapSet, y: ConSet, schema: Schema)
    requires Typed(x, schema) && Typed(y, schema) && SamePart(x, y)
    ensures Constrict(x, y).Ok? <==> AllConstraintsIncluded(y, x)
  {
    forall n | n in y.params.Keys
      ensures CapConstrict(Get(x, n), y.params[n]).Ok? <==>
                y.params[n].value.Inf? || ConIncluded(y.params[n], Get(x, n)) == Ok(true)
    {
      CapConstrictMeaning(Get(x, n), y.params[n], schema(n));
    }
  }

  /** No constraint of `y` is affirmed in the half-open corner of `x`. */
  predicate NoneMisjudged(x: CapSet, y: ConSet) {
    forall n <- y.params.Keys :: !Misjudged(Get(x, n).value, y.params[n].value)
  }

  lemma ConstrictEntry(x: CapSet, y: ConSet, n: string, schema: Schema)
    requires Typed(x, schema) && Typed(y, schema) && SamePart(x, y) && Constrict(x, y).Ok?
    ensures Get(Constrict(x, y).value, n).value == if n in y.params && !y.params[n].value.Inf? then y.params[n].value else Get(x, n).value
    ensures n in y.params && !y.params[n].value.Inf? ==> Contains(Get(x, n).value, y.params[n].value)
  {
    GetFits(x, n, schema);
    if n in y.params {
      CapConstrictMeaning(Get(x, n), y.params[n], schema(n));
      assert CapConstrict(Get(x, n), y.params[n]).Ok?;
    }
  }

  /** An inclusion that is affirmed, rightly or not, leaves the two ranges something in common. */
  lemma ContainsOverlaps(self: Range, other: Range, t: RangeType)
    requires Fits(self, t) && Fits(other, t) && !other.Nul? && !other.HasEnumException() && Contains(self, other)
    ensures Overlap(self, other, t)
  {
    ContainsExactly(self, other, t);
    if Misjudged(self, other) {
      var v := MakeNumber(t, if other.min.Some? then other.min.value else other.max.value);
      assert Denotes(self, v) && Denotes(other, v);
    } else {
      var v := Inhabited(other, t);
    }
  }

  /** Where `<<` succeeds, `<&` succeeds too, unless a constraint is NUL. */
  lemma ConstrictThenAdjust(x: CapSet, y: ConSet, schema: Schema)
    requires Typed(x, schema) && Typed(y, schema) && SamePart(x, y) && Constrict(x, y).Ok?
    ensures Adjust(x, y).Ok? <==> NulFree(y)
  {
    AdjustMeaning(x, y, schema);
    forall n | n in y.params.Keys && !y.params[n].value.Inf?
      ensures Overlap(Get(x, n).value, y.params[n].value, schema(n)) <==> !y.params[n].value.Nul?
    {
      ConstrictEntry(x, y, n, schema);
      GetFits(x, n, schema);
      if !y.params[n].value.Nul? {
        ContainsOverlaps(Get(x, n).value, y.params[n].value, schema(n));
      }
    }
  }

  /**
   `<<` refines `<&`: when it succeeds, so does `<&`, unless a constraint is NUL; and it accepts
   exactly the common configurations if and only if no constraint was misjudged, or a NUL range
   leaves nothing to accept on either side.
   */
  lemma ConstrictRefinesAdjust(x: CapSet, y: ConSet, schema: Schema)
    requires Typed(x, schema) && Typed(y, schema) && SamePart(x, y) && Constrict(x, y).Ok?
    ensures Adjust(x, y).Ok? <==> NulFree(y)
    ensures NoneMisjudged(x, y) || !NulFree(x) || !NulFree(y) <==>
              forall c: Config | TypedConfig(c, schema) ::
                Accepts(Constrict(x, y).value, c) <==> Accepts(x, c) && Accepts(y, c)
  {
    ConstrictThenAdjust(x, y, schema);
    if !NulFree(x) || !NulFree(y) {
      ConstrictKeepsNul(x, y, schema);
    } else if NoneMisjudged(x, y) {
      ConstrictWithinBoth(x, y, schema);
    } else {
      ConstrictEscapes(x, y, schema);
    }
  }

  lemma ConstrictKeepsNul(x: CapSet, y: ConSet, schema: Schema)
    requires Typed(x, schema) && Typed(y, schema) && SamePart(x, y) && Constrict(x, y).Ok?
    requires !NulFree(x) || !NulFree(y)
    ensures forall c: Config :: !Accepts(Constrict(x, y).value, c) && !(Accepts(x, c) && Accepts(y, c))
  {
    var r := Constrict(x, y).value;
    var n :| (n in x.params.Keys && x.params[n].value.Nul?) || (n in y.params.Keys && y.params[n].value.Nul?);
    ConstrictEntry(x, y, n, schema);
    assert n in r.params && r.params[n].value.Nul?;
    forall c: Config
      ensures !Accepts(r, c) && !(Accepts(x, c) && Accepts(y, c))
    {
      assert !Denotes(r.params[n].value, c(n));
    }
  }

  /** A constraint that was let through and not misjudged lies within the capability. */
  lemma ConstraintWithin(x: CapSet, y: ConSet, n: string, schema: Schema)
    requires Typed(x, schema) && Typed(y, schema) && SamePart(x, y) && Constrict(x, y).Ok? && NoneMisjudged(x, y)
    requires n in y.params && !y.params[n].value.Inf?
    ensures Subset(y.params[n].value, Get(x, n).value, schema(n))
  {
    hide Constrict, Subset;
    ConstrictEntry(x, y, n, schema);
    GetFits(x, n, schema);
    ContainsExactly(Get(x, n).value, y.params[n].value, schema(n));
  }

  lemma ConstrictKeys(x: CapSet, y: ConSet)
    requires SamePart(x, y) && Constrict(x, y).Ok?
    ensures Constrict(x, y).value.params.Keys == x.params.Keys + y.params.Keys
  {
  }

  /** A result that takes the constraints that lie within `x`, and `x` elsewhere, accepts both sides' configurations. */
  lemma WithinAccepts(x: CapSet, y: ConSet, r: CapSet, c: Config, schema: Schema)
    requires TypedConfig(c, schema) && r.params.Keys == x.params.Keys + y.params.Keys
    requires forall n <- r.params.Keys ::
               if n in y.params && !y.params[n].value.Inf?
               then r.params[n].value == y.params[n].value && Subset(y.params[n].value, Get(x, n).value, schema(n))
               else r.params[n].value == Get(x, n).value
    ensures Accepts(r, c) <==> Accepts(x, c) && Accepts(y, c)
  {
    if Accepts(r, c) {
      forall n | n in r.params.Keys
        ensures Denotes(Get(x, n).value, c(n)) && Denotes(Get(y, n).value, c(n))
      {
        assert Denotes(r.params[n].value, c(n)) && c(n).Type() == schema(n);
      }
      assert forall n <- x.params.Keys :: n in r.params && Denotes(Get(x, n).value, c(n));
      assert forall n <- y.params.Keys :: n in r.params && Denotes(Get(y, n).value, c(n));
    }
  }

  lemma ConstrictWithinBoth(x: CapSet, y: ConSet, schema: Schema)
    requires Typed(x, schema) && Typed(y, schema) && SamePart(x, y) && NulFree(y)
    requires Constrict(x, y).Ok? && NoneMisjudged(x, y)
    ensures Adjust(x, y).Ok?
    ensures forall c: Config | TypedConfig(c, schema) ::
              Accepts(Constrict(x, y).value, c) <==> Accepts(x, c) && Accepts(y, c)
  {
    hide Constrict, Adjust, Typed, NoneMisjudged, NulFree, Subset, Accepts;
    ConstrictThenAdjust(x, y, schema);
    var r := Constrict(x, y).value;
    ConstrictKeys(x, y);
    forall n | n in r.params.Keys
      ensures if n in y.params && !y.params[n].value.Inf?
              then r.params[n].value == y.params[n].value && Subset(y.params[n].value, Get(x, n).value, schema(n))
              else r.params[n].value == Get(x, n).value
    {
      ConstrictEntry(x, y, n, schema);
      if n in y.params && !y.params[n].value.Inf? {
        ConstraintWithin(x, y, n, schema);
      }
    }
    forall c: Config | TypedConfig(c, schema)
      ensures Accepts(r, c) <==> Accepts(x, c) && Accepts(y, c)
    {
      WithinAccepts(x, y, r, c, schema);
    }
  }

  lemma ConstrictTyped(x: CapSet, y: ConSet, schema: Schema)
    requires Typed(x, schema) && Typed(y, schema) && SamePart(x, y) && Constrict(x, y).Ok?
    ensures Typed(Constrict(x, y).value, schema)
    ensures NulFree(x) && NulFree(y) ==> NulFree(Constrict(x, y).value)
  {
    var r := Constrict(x, y).value;
    forall m | m in r.params.Keys
      ensures Fits(r.params[m].value, schema(m)) && !r.params[m].value.HasEnumException()
      ensures NulFree(x) && NulFree(y) ==> !r.params[m].value.Nul?
    {
      ConstrictEntry(x, y, m, schema);
      assert r.params[m].value == Get(r, m).value;
    }
  }

  lemma ConstrictEscapes(x: CapSet, y: ConSet, schema: Schema)
    requires Typed(x, schema) && Typed(y, schema) && SamePart(x, y) && NulFree(x) && NulFree(y)
    requires Constrict(x, y).Ok? && !NoneMisjudged(x, y)
    ensures exists c: Config :: TypedConfig(c, schema) && Accepts(Constrict(x, y).value, c) && !Accepts(x, c)
  {
    var r := Constrict(x, y).value;
    var n :| n in y.params.Keys && Misjudged(Get(x, n).value, y.params[n].value);
    GetFits(x, n, schema);
    ContainsExactly(Get(x, n).value, y.params[n].value, schema(n));
    var v: Value :| v.Type() == schema(n) && Denotes(y.params[n].value, v) && !Denotes(Get(x, n).value, v);
    ConstrictTyped(x, y, schema);
    ConstrictEntry(x, y, n, schema);
    ConfigThroughAccepted(r, n, v, schema);
    var c := ConfigThrough(r, n, v, schema);
    assert c(n) == v && n in x.params;
    assert TypedConfig(c, schema) && Accepts(r, c) && !Accepts(x, c);
  }

  // ---------------------------------------------------------------------------
  // `<=`
  // ---------------------------------------------------------------------------

  /** The verdict of `x <= y` on well-typed sets. */
  predicate Included(x: CapSet, y: CapSet) {
    SamePart(x, y) && forall n <- x.params.Keys + y.params.Keys :: Contains(Get(y, n).value, Get(x, n).value)
  }

  predicate CornerFree(x: CapSet, y: CapSet) {
    forall n <- x.params.Keys + y.params.Keys :: !HalfOpenCorner(Get(y, n).value, Get(x, n).value)
  }

  lemma IncludedIsVerdict(x: CapSet, y: CapSet, schema: Schema)
    requires Typed(x, schema) && Typed(y, schema)
    ensures Included(x, y) <==> SamePart(x, y) && AllIncluded(x, y)
    ensures forall n <- x.params.Keys + y.params.Keys :: CapIncluded(Get(x, n), Get(y, n)).Ok?
  {
    forall n | n in x.params.Keys + y.params.Keys
      ensures CapIncluded(Get(x, n), Get(y, n)) == Ok(Contains(Get(y, n).value, Get(x, n).value))
    {
      GetFits(x, n, schema);
      GetFits(y, n, schema);
    }
  }

  /** Away from the corner, inclusion gives inclusion of the values of every parameter ... */
  lemma IncludedPointwise(x: CapSet, y: CapSet, schema: Schema, n: string)
    requires Typed(x, schema) && Typed(y, schema) && Included(x, y) && CornerFree(x, y)
    ensures Subset(Get(x, n).value, Get(y, n).value, schema(n))
  {
    GetFits(x, n, schema);
    GetFits(y, n, schema);
    if n in x.params.Keys + y.params.Keys {
      ContainsExactly(Get(y, n).value, Get(x, n).value, schema(n));
    }
  }

  /** ... and so of the configurations. */
  lemma IncludedConfigs(x: CapSet, y: CapSet, schema: Schema, c: Config)
    requires Typed(x, schema) && Typed(y, schema) && Included(x, y) && CornerFree(x, y)
    requires TypedConfig(c, schema) && Accepts(x, c)
    ensures Accepts(y, c)
  {
    forall n | n in y.params.Keys
      ensures Denotes(y.params[n].value, c(n))
    {
      IncludedPointwise(x, y, schema, n);
      assert Denotes(Get(x, n).value, c(n)) && c(n).Type() == schema(n);
    }
  }

  /** A configuration accepted by `x` shows through any one of its values. */
  lemma ContainmentPointwise(x: CapSet, y: CapSet, schema: Schema, n: string, v: Value)
    requires Typed(x, schema) && NulFree(x)
    requires forall c: Config | TypedConfig(c, schema) && Accepts(x, c) :: Accepts(y, c)
    requires v.Type() == schema(n) && Denotes(Get(x, n).value, v)
    ensures Denotes(Get(y, n).value, v)
  {
    ConfigThroughAccepted(x, n, v, schema);
    var c := ConfigThrough(x, n, v, schema);
    assert Accepts(y, c) && c(n) == v;
  }

  /** Configurations are contained exactly when the values of every parameter are, or `x` has none at all. */
  lemma ContainmentExactly(x: CapSet, y: CapSet, schema: Schema)
    requires Typed(x, schema) && Typed(y, schema)
    ensures (forall c: Config | TypedConfig(c, schema) && Accepts(x, c) :: Accepts(y, c)) <==>
              !NulFree(x) || forall n: string :: Subset(Get(x, n).value, Get(y, n).value, schema(n))
  {
    if NulFree(x) && forall c: Config | TypedConfig(c, schema) && Accepts(x, c) :: Accepts(y, c) {
      forall n: string
        ensures Subset(Get(x, n).value, Get(y, n).value, schema(n))
      {
        forall v: Value | v.Type() == schema(n) && Denotes(Get(x, n).value, v)
          ensures Denotes(Get(y, n).value, v)
        {
          ContainmentPointwise(x, y, schema, n, v);
        }
      }
    }
    if forall n: string :: Subset(Get(x, n).value, Get(y, n).value, schema(n)) {
      forall c: Config | TypedConfig(c, schema) && Accepts(x, c)
        ensures Accepts(y, c)
      {
        assert forall n <- y.params.Keys :: Subset(Get(x, n).value, Get(y, n).value, schema(n)) && c(n).Type() == schema(n);
      }
    }
  }

  /** The verdict of inclusion is borne out by the configurations exactly away from the corner. */
  lemma IncludedExactly(x: CapSet, y: CapSet, schema: Schema)
    requires Typed(x, schema) && Typed(y, schema) && Included(x, y)
    ensures (forall c: Config | TypedConfig(c, schema) && Accepts(x, c) :: Accepts(y, c)) <==> !NulFree(x) || CornerFree(x, y)
  {
    ContainmentExactly(x, y, schema);
    if CornerFree(x, y) {
      forall n: string
        ensures Subset(Get(x, n).value, Get(y, n).value, schema(n))
      {
        IncludedPointwise(x, y, schema, n);
      }
    } else {
      var n :| n in x.params.Keys + y.params.Keys && HalfOpenCorner(Get(y, n).value, Get(x, n).value);
      GetFits(x, n, schema);
      GetFits(y, n, schema);
      IntervalAgainstInterval(Get(y, n).value, Get(x, n).value, schema(n));
    }
  }

  lemma IncludedReflexive(x: CapSet, schema: Schema)
    requires Typed(x, schema) && MixedFree(x)
    ensures Included(x, x) && CornerFree(x, x)
  {
    forall n | n in x.params.Keys
      ensures Contains(x.params[n].value, x.params[n].value)
    {
      ReflexiveExactly(x.params[n].value);
    }
  }

  lemma IncludedTransitive(x: CapSet, y: CapSet, z: CapSet, schema: Schema)
    requires Typed(x, schema) && Typed(y, schema) && Typed(z, schema)
    requires MixedFree(x) && MixedFree(y) && MixedFree(z)
    requires Included(x, y) && CornerFree(x, y) && Included(y, z) && CornerFree(y, z)
    ensures Included(x, z) && CornerFree(x, z)
  {
    forall n | n in x.params.Keys + z.params.Keys
      ensures Contains(Get(z, n).value, Get(x, n).value) && !HalfOpenCorner(Get(z, n).value, Get(x, n).value)
    {
      GetFits(x, n, schema);
      GetFits(y, n, schema);
      GetFits(z, n, schema);
      var a, b, c := Get(x, n).value, Get(y, n).value, Get(z, n).value;
      assert Contains(b, a) && !HalfOpenCorner(b, a) && Contains(c, b) && !HalfOpenCorner(c, b);
      ContainsTransitive(a, b, c);
    }
  }

  /** A wider capability set meets every constraint set that the narrower one meets. */
  lemma IncludedMeets(x: CapSet, w: CapSet, y: ConSet, schema: Schema)
    requires Typed(x, schema) && Typed(w, schema) && Typed(y, schema)
    requires Included(x, w) && CornerFree(x, w) && Meets(x, y, schema)
    ensures Meets(w, y, schema)
  {
    forall n | n in y.params.Keys && !y.params[n].value.Inf?
      ensures Overlap(Get(w, n).value, y.params[n].value, schema(n))
    {
      IncludedPointwise(x, w, schema, n);
      var v: Value :| v.Type() == schema(n) && Denotes(Get(x, n).value, v) && Denotes(y.params[n].value, v);
      assert Denotes(Get(w, n).value, v);
    }
  }

  /** Sets of different parts have nothing to say to each other: both operators hand back the capability. */
  lemma OtherPartUnchanged(x: CapSet, y: ConSet)
    requires x.format != y.format || x.layer != y.layer
    ensures Adjust(x, y) == Ok(x) && Constrict(x, y) == Ok(x)
  {
  }

  /** An empty enumeration on either side is refused by every operator on one parameter. */
  lemma EmptyEnumerationRefused(x: Param, y: Param)
    requires (x.value.Finite? && x.value.values == Some({})) || (y.value.Finite? && y.value.values == Some({}))
    ensures CapAdjust(x, y).Raised? && CapConstrict(x, y).Raised? && CapIncluded(x, y).Raised? && ConIncluded(x, y).Raised?
  {
  }
}
