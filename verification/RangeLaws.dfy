/**
 What the range operations mean.  Every law is about the values of one parameter, whose
 schema type is `t`: a range denotes a subset of those values.
 */
module RangeLaws {
  import opened Outcome
  import opened Ranges

  /** Every value of type `t` in `a` is in `b`. */
  ghost predicate Subset(a: Range, b: Range, t: RangeType) {
    forall v: Value :: v.Type() == t && Denotes(a, v) ==> Denotes(b, v)
  }

  ghost predicate Overlap(a: Range, b: Range, t: RangeType) {
    exists v: Value :: v.Type() == t && Denotes(a, v) && Denotes(b, v)
  }

  // ---------------------------------------------------------------------------
  // Finite enumerations never cover an infinite set
  // ---------------------------------------------------------------------------

  lemma {:induction false} NumbersAreBounded(s: set<Value>) returns (m: nat)
    ensures forall v <- s :: v.Numeric() ==> -(m as real) < v.Num() < m as real
  {
    if s == {} {
      m := 0;
    } else {
      var v :| v in s;
      m := NumbersAreBounded(s - {v});
      if v.Numeric() {
        var k: int := if v.Num() >= 0.0 then v.Num().Floor + 1 else (-v.Num()).Floor + 1;
        m := if k > m then k else m;
      }
    }
  }

  lemma {:induction false} TextsAreBounded(s: set<Value>) returns (m: nat)
    ensures forall v <- s :: v.Text? ==> |v.s| < m
  {
    if s == {} {
      m := 0;
    } else {
      var v :| v in s;
      m := TextsAreBounded(s - {v});
      if v.Text? && |v.s| >= m {
        m := |v.s| + 1;
      }
    }
  }

  /** A number of type `t` above (or below) `a` that `s` does not list. */
  lemma UnlistedBeyond(s: set<Value>, t: RangeType, a: real, above: bool) returns (v: Value)
    requires Numeric(t)
    ensures v.Type() == t && v !in s && (if above then a < v.Num() else v.Num() < a)
  {
    var m := NumbersAreBounded(s + {Float(a)});
    v := MakeNumber(t, if above then m as real else -(m as real));
    assert Float(a) in s + {Float(a)};
  }

  /** A number of type `t` strictly between `a` and `b` that `s` does not list. */
  lemma {:induction false} UnlistedBetween(s: set<Value>, t: RangeType, a: real, b: real) returns (v: Value)
    requires t == FLOAT || t == RATIONAL
    requires a < b
    ensures v.Type() == t && v !in s && a < v.Num() < b
    decreases |s|
  {
    var mid := (a + b) / 2.0;
    if s == {} {
      v := MakeNumber(t, mid);
    } else {
      var w :| w in s;
      if w.Numeric() && w.Num() <= mid {
        v := UnlistedBetween(s - {w}, t, mid, b);
      } else {
        v := UnlistedBetween(s - {w}, t, a, mid);
      }
    }
  }

  /** Some value of type `t` is missing from a finite range, unless it lists both booleans. */
  lemma FiniteIsNotEverything(r: Range, t: RangeType) returns (v: Value)
    requires r.Finite? && Fits(r, t)
    requires !(t == BOOL && r.values.Some? && Flag(true) in r.values.value && Flag(false) in r.values.value)
    ensures v.Type() == t && !Denotes(r, v)
  {
    var s := if r.values.Some? then r.values.value else {};
    if t == BOOL {
      v := if Flag(true) in s then Flag(false) else Flag(true);
    } else if t == STRING {
      var m := TextsAreBounded(s);
      v := Text(seq(m, _ => 'x'));
    } else if r.max.Some? {
      v := UnlistedBeyond(s, t, r.max.value, true);
    } else if r.min.Some? {
      v := UnlistedBeyond(s, t, r.min.value, false);
    } else {
      v := UnlistedBeyond(s, t, 0.0, true);
    }
  }

  /** A range that is neither NUL nor an empty enumeration admits some value of its type. */
  lemma Inhabited(r: Range, t: RangeType) returns (v: Value)
    requires Fits(r, t) && !r.Nul? && !r.HasEnumException()
    ensures v.Type() == t && Denotes(r, v)
  {
    match r
    case Inf(_) =>
      v := if t == BOOL then Flag(true) else if t == STRING then Text("") else MakeNumber(t, 0.0);
    case Finite(_, low, high, values) =>
      if values.Some? {
        assert values.value != {};
        v :| v in values.value;
      } else {
        v := MakeNumber(t, if low.Some? then low.value else high.value);
      }
  }

  /** `includes_value` is membership for every value of the parameter's type. */
  lemma IncludesValueIsMembership(r: Range, v: Value)
    requires Fits(r, v.Type())
    ensures IncludesValue(r, v) == Ok(Denotes(r, v))
  {
    if r.Finite? && r.values.Some? && v.Flag? {
      assert Whole(if v.b then 1 else 0) !in r.values.value;
    }
  }

  /** What membership should answer: an exception on a value of another type. */
  function Membership(r: Range, v: Value): Result<bool> {
    if r.kind != UNTYPED && v.Type() != r.kind then Raised else Ok(Denotes(r, v))
  }

  /**
   `includes_value` is membership exactly when no boolean meets an INT range.  There it answers
   where it should raise: an enumeration takes True for 1 and False for 0, and an interval
   admits both whatever its bounds.
   */
  lemma IncludesValueExactly(r: Range, v: Value)
    requires Valid(r)
    ensures IncludesValue(r, v) == Membership(r, v) <==> !(r.kind == INT && v.Flag?)
    ensures r.kind == INT && v.Flag? ==>
              IncludesValue(r, v) ==
                if r.Finite? && r.values.Some? then Ok(exists w <- r.values.value :: w.Num() == if v.b then 1.0 else 0.0)
                else Ok(!r.Nul?)
  {
    if r.Finite? && r.values.Some? {
      var s := r.values.value;
      assert forall w <- s :: w.Type() == r.kind;
      if v.Flag? && r.kind == INT {
        var i := if v.b then 1 else 0;
        assert Whole(i).Num() == if v.b then 1.0 else 0.0;
        forall w | w in s && w.Num() == if v.b then 1.0 else 0.0
          ensures w == Whole(i)
        {
          assert w.Whole?;
        }
      } else if v.Flag? {
        assert Whole(if v.b then 1 else 0) !in s;
      }
    }
  }

  // ---------------------------------------------------------------------------
  // Inclusion: exactly when `includes_range` is set inclusion
  // ---------------------------------------------------------------------------

  /** Two intervals, where `self` is bounded on a side on which `other` is not. */
  predicate HalfOpenCorner(self: Range, other: Range) {
    && self.Interval() && other.Interval()
    && ((self.min.Some? && other.min.None?) || (self.max.Some? && other.max.None?))
  }

  /** The corner in which the answer is wrong: the one bound that `other` has lies inside `self`. */
  predicate Misjudged(self: Range, other: Range) {
    && HalfOpenCorner(self, other)
    && (other.min.Some? ==> BoundWithin(self, other.min.value))
    && (other.max.Some? ==> BoundWithin(self, other.max.value))
  }

  /** An interval of one non-integer number, tested against an enumeration that lists it. */
  predicate PointAgainstEnumeration(self: Range, other: Range) {
    && self.Finite? && self.values.Some?
    && other.Interval() && (other.kind == FLOAT || other.kind == RATIONAL)
    && other.min.Some? && other.min == other.max
    && MakeNumber(other.kind, other.min.value) in self.values.value
  }

  /** Every boolean listed, tested against INF. */
  predicate AllBooleansAgainstInf(self: Range, other: Range, t: RangeType) {
    t == BOOL && other.Inf? && self.Finite? && self.values == Some({Flag(true), Flag(false)})
  }

  /** Two bounds and every integer between them listed in `self`. */
  ghost predicate SpanListed(self: Range, other: Range) {
    && other.kind == INT && other.Finite? && other.min.Some? && other.max.Some?
    && self.Finite? && self.values.Some?
    && forall i: int | other.min.value <= i as real <= other.max.value :: Whole(i) in self.values.value
  }

  /**
   `other` mixes bounds and an enumeration whose values fit, but a bound lies outside `self`, or
   `self` enumerates and the bounds do not span listed integers only.
   */
  ghost predicate MixedBoundsRefused(self: Range, other: Range) {
    && other.Mixed() && self.Finite?
    && EnumerationAccepted(self, other)
    && (|| (other.min.Some? && !BoundWithin(self, other.min.value))
        || (other.max.Some? && !BoundWithin(self, other.max.value))
        || (self.values.Some? && !SpanListed(self, other)))
  }

  /** The cases in which inclusion holds and is denied. */
  ghost predicate Missed(self: Range, other: Range, t: RangeType) {
    || (self.Nul? && other.HasEnumException())
    || PointAgainstEnumeration(self, other)
    || AllBooleansAgainstInf(self, other, t)
    || MixedBoundsRefused(self, other)
  }

  lemma InfAgainstFinite(self: Range, other: Range, t: RangeType)
    requires Fits(self, t) && Fits(other, t) && self.Finite? && other.Inf?
    ensures Subset(other, self, t) <==> AllBooleansAgainstInf(self, other, t)
  {
    if !(t == BOOL && self.values.Some? && Flag(true) in self.values.value && Flag(false) in self.values.value) {
      var v := FiniteIsNotEverything(self, t);
    } else {
      assert forall v <- self.values.value :: v in {Flag(true), Flag(false)};
      assert self.values.value == {Flag(true), Flag(false)};
    }
  }

  lemma EnumerationExactly(self: Range, other: Range, t: RangeType)
    requires Fits(self, t) && Fits(other, t) && self.Finite? && other.Finite? && other.values.Some?
    ensures Subset(other, self, t) <==> EnumerationAccepted(self, other)
    ensures Contains(self, other) <==> EnumerationAccepted(self, other) && !MixedBoundsRefused(self, other)
  {
    if Subset(other, self, t) {
      forall v | v in other.values.value
        ensures InBounds(v, self.min, self.max) && (self.values.Some? ==> v in self.values.value)
      {
        assert Denotes(other, v);
      }
    }
  }

  lemma IntervalAgainstEnumeration(self: Range, other: Range, t: RangeType)
    requires Fits(self, t) && Fits(other, t) && self.Finite? && self.values.Some? && other.Interval()
    ensures Subset(other, self, t) <==> Contains(self, other) || PointAgainstEnumeration(self, other)
    ensures !(Contains(self, other) && PointAgainstEnumeration(self, other))
  {
    var s := self.values.value;
    if other.max.None? {
      var v := UnlistedBeyond(s, t, other.min.value, true);
      assert Denotes(other, v);
    } else if other.min.None? {
      var v := UnlistedBeyond(s, t, other.max.value, false);
      assert Denotes(other, v);
    } else if t == INT {
      IntegersAgainstEnumeration(self, other);
    } else if other.min.value < other.max.value {
      var v := UnlistedBetween(s, t, other.min.value, other.max.value);
      assert Denotes(other, v);
    } else {
      var v := MakeNumber(t, other.min.value);
      assert forall w: Value :: w.Type() == t && Denotes(other, w) ==> w == v;
      assert Denotes(other, v);
    }
  }

  lemma IntegersAgainstEnumeration(self: Range, other: Range)
    requires Fits(self, INT) && Fits(other, INT) && self.Finite? && self.values.Some?
    requires other.Interval() && other.min.Some? && other.max.Some?
    ensures Subset(other, self, INT) <==> Contains(self, other)
  {
    var s := self.values.value;
    var low, high := other.min.value.Floor, other.max.value.Floor;
    assert (other.max.value + 1.0).Floor == high + 1;
    assert forall i: int :: low <= i <= high <==> Denotes(other, Whole(i));
    if Subset(other, self, INT) {
      assert Denotes(self, Whole(low)) && Denotes(self, Whole(high));
      assert forall i: int | low <= i <= high :: Denotes(self, Whole(i));
    } else if Contains(self, other) {
      forall v: Value | v.Type() == INT && Denotes(other, v)
        ensures Denotes(self, v)
      {
        assert low <= v.i < high + 1;
      }
    }
  }

  lemma IntervalAgainstInterval(self: Range, other: Range, t: RangeType)
    requires Fits(self, t) && Fits(other, t) && self.Interval() && other.Interval()
    ensures Subset(other, self, t) <==> Contains(self, other) && !HalfOpenCorner(self, other)
    ensures Misjudged(self, other) <==> Contains(self, other) && HalfOpenCorner(self, other)
  {
    if self.min.Some? && other.min.None? {
      var a := if other.max.value < self.min.value then other.max.value else self.min.value;
      var v := UnlistedBeyond({}, t, a, false);
      assert Denotes(other, v);
    } else if self.max.Some? && other.max.None? {
      var a := if other.min.value > self.max.value then other.min.value else self.max.value;
      var v := UnlistedBeyond({}, t, a, true);
      assert Denotes(other, v);
    } else if Subset(other, self, t) {
      if other.min.Some? {
        assert Denotes(other, MakeNumber(t, other.min.value));
      }
      if other.max.Some? {
        assert Denotes(other, MakeNumber(t, other.max.value));
      }
    }
  }

  /**
   `includes_range` against set inclusion, for every pair of ranges of one parameter: wrong in
   one direction exactly on `Misjudged`, in the other exactly on `Missed`, and right elsewhere.
   */
  lemma ContainsExactly(self: Range, other: Range, t: RangeType)
    requires Fits(self, t) && Fits(other, t)
    ensures IncludesRange(self, other) == Ok(Contains(self, other))
    ensures Misjudged(self, other) ==> Contains(self, other) && !Subset(other, self, t)
    ensures Missed(self, other, t) ==> !Contains(self, other) && Subset(other, self, t)
    ensures !Misjudged(self, other) && !Missed(self, other, t) ==>
              (Contains(self, other) <==> Subset(other, self, t))
  {
    if other.Nul? || self.Inf? {
    } else if self.Nul? {
      if !other.HasEnumException() {
        var v := Inhabited(other, t);
      }
    } else if other.Inf? {
      InfAgainstFinite(self, other, t);
    } else if other.values.Some? {
      EnumerationExactly(self, other, t);
    } else if self.values.Some? {
      IntervalAgainstEnumeration(self, other, t);
    } else {
      IntervalAgainstInterval(self, other, t);
    }
  }

  /** The documented misjudgement: [..10] is not inside [5..] or [5..20], yet both are affirmed. */
  lemma HalfOpenWitness()
    ensures var below10 := Finite(INT, None, Some(10.0), None);
            && IncludesRange(Finite(INT, Some(5.0), None, None), below10) == Ok(true)
            && IncludesRange(Finite(INT, Some(5.0), Some(20.0), None), below10) == Ok(true)
            && Denotes(below10, Whole(0))
            && !Denotes(Finite(INT, Some(5.0), None, None), Whole(0))
            && !Denotes(Finite(INT, Some(5.0), Some(20.0), None), Whole(0))
  {
  }

  /** Every range includes itself, except one that mixes bounds with a partial enumeration. */
  lemma ReflexiveExactly(r: Range)
    requires Valid(r)
    ensures Contains(r, r) <==>
              !r.Mixed() || (r.kind == INT && r.min.Some? && r.max.Some? &&
                             forall i: int | r.min.value <= i as real <= r.max.value :: Whole(i) in r.values.value)
  {
    if r.Mixed() && r.kind == INT && r.min.Some? && r.max.Some? {
      var low, high := r.min.value.Floor, r.max.value.Floor;
      assert (r.max.value + 1.0).Floor == high + 1;
      if Contains(r, r) {
        forall i: int | r.min.value <= i as real <= r.max.value
          ensures Whole(i) in r.values.value
        {
          assert low <= i < high + 1;
        }
      }
    }
  }

  /** The integers of an interval that `self` accepts are values of `self`. */
  lemma IntegerInside(self: Range, other: Range, i: int)
    requires Fits(self, INT) && Fits(other, INT) && self.Finite? && other.Interval()
    requires Contains(self, other) && !HalfOpenCorner(self, other)
    requires Denotes(other, Whole(i))
    ensures Denotes(self, Whole(i))
  {
    ContainsExactly(self, other, INT);
  }

  lemma NumberInside(self: Range, other: Range, v: Value)
    requires Valid(self) && Valid(other) && self.Finite? && other.Interval() && !TypeClash(self, other)
    requires Contains(self, other) && !HalfOpenCorner(self, other)
    requires v.Type() == other.kind && Denotes(other, v)
    ensures InBounds(v, self.min, self.max) && (self.values.Some? ==> v in self.values.value)
  {
    if other.kind == INT && self.kind == INT {
      IntegerInside(self, other, v.i);
    }
  }

  /** Inclusion as decided is transitive on ranges that do not mix, away from the corner. */
  lemma ContainsTransitive(a: Range, b: Range, c: Range)
    requires Valid(a) && Valid(b) && Valid(c) && !a.Mixed() && !b.Mixed() && !c.Mixed()
    requires !TypeClash(a, b) && !TypeClash(b, c) && !TypeClash(a, c)
    requires Contains(b, a) && Contains(c, b)
    requires !HalfOpenCorner(b, a) && !HalfOpenCorner(c, b)
    ensures Contains(c, a) && !HalfOpenCorner(c, a)
  {
    if !a.Finite? || !b.Finite? || !c.Finite? {
    } else if a.values.Some? {
      EnumerationTransitive(a, b, c);
    } else if b.values.Some? {
      IntegersTransitive(a, b, c);
    } else {
      IntervalTransitive(a, b, c);
    }
  }

  lemma EnumerationTransitive(a: Range, b: Range, c: Range)
    requires Valid(a) && Valid(b) && Valid(c) && !TypeClash(a, b) && !TypeClash(b, c)
    requires a.Finite? && b.Finite? && c.Finite? && a.values.Some? && !a.Mixed() && !b.Mixed() && !c.Mixed()
    requires Contains(b, a) && Contains(c, b) && !HalfOpenCorner(c, b)
    ensures Contains(c, a)
  {
    forall v | v in a.values.value
      ensures InBounds(v, c.min, c.max) && (c.values.Some? ==> v in c.values.value)
    {
      if b.values.None? {
        NumberInside(c, b, v);
      }
    }
  }

  /** An interval accepted by an enumeration is a bounded interval of integers. */
  lemma IntegersTransitive(a: Range, b: Range, c: Range)
    requires Valid(a) && Valid(b) && Valid(c) && !TypeClash(a, b) && !TypeClash(b, c) && !TypeClash(a, c)
    requires a.Interval() && b.Finite? && c.Finite? && b.values.Some? && !b.Mixed() && !c.Mixed()
    requires Contains(b, a) && Contains(c, b)
    ensures Contains(c, a) && !HalfOpenCorner(c, a)
  {
    assert a.kind == INT && a.min.Some? && a.max.Some?;
    assert (a.max.value + 1.0).Floor == a.max.value.Floor + 1;
    assert forall i: int | a.min.value.Floor <= i < (a.max.value + 1.0).Floor :: Whole(i) in b.values.value;
    assert Whole(a.min.value.Floor) in b.values.value && Whole(a.max.value.Floor) in b.values.value;
  }

  lemma IntervalTransitive(a: Range, b: Range, c: Range)
    requires Valid(a) && Valid(b) && Valid(c) && !TypeClash(a, b) && !TypeClash(b, c) && !TypeClash(a, c)
    requires a.Interval() && b.Interval() && c.Finite? && !c.Mixed()
    requires Contains(b, a) && Contains(c, b) && !HalfOpenCorner(b, a) && !HalfOpenCorner(c, b)
    ensures Contains(c, a) && !HalfOpenCorner(c, a)
  {
    if c.values.Some? {
      assert b.kind == INT && b.min.Some? && b.max.Some? && a.min.Some? && a.max.Some?;
      assert (a.max.value + 1.0).Floor <= (b.max.value + 1.0).Floor && b.min.value.Floor <= a.min.value.Floor;
    }
  }

  // ---------------------------------------------------------------------------
  // Construction and intersection
  // ---------------------------------------------------------------------------

  /** A number of another type becomes an integer by dropping its fraction, a boolean by what it holds. */
  lemma CoercionExactly(v: Value, w: Value, t: RangeType)
    requires Coerce(v, t) == Ok(w) && t != UNTYPED
    ensures w.Type() == t
    ensures t == INT && v.Numeric() && v.Num() >= 0.0 ==> w.Num() <= v.Num() < w.Num() + 1.0
    ensures t == INT && v.Numeric() && v.Num() < 0.0 ==> w.Num() - 1.0 < v.Num() <= w.Num()
    ensures (t == FLOAT || t == RATIONAL) && v.Numeric() ==> w.Num() == v.Num()
    ensures Numeric(t) && v.Flag? ==> w.Num() == if v.b then 1.0 else 0.0
    ensures t == BOOL ==> (w.b <==> !(v == Flag(false) || v == Text("") || (v.Numeric() && v.Num() == 0.0)))
    ensures t == STRING ==> v == w
  {
  }

  /** The type is the declared one, or that of the lower bound, of the upper one, or of every listed value. */
  lemma TypeExactly(values: Option<set<Value>>, infinite: bool, empty: bool, kind: RangeType,
                    min: Option<Value>, max: Option<Value>)
    requires New(values, infinite, empty, kind, min, max).Ok?
    ensures var r := New(values, infinite, empty, kind, min, max).value;
            if kind != UNTYPED then r.kind == kind
            else if min.Some? then r.kind == min.value.Type()
            else if max.Some? then r.kind == max.value.Type()
            else if values.Some? && values.value != {} then forall v <- values.value :: v.Type() == r.kind
            else r.kind == UNTYPED
  {
  }

  /** A bound is refused when it is no number, when the type takes none, or when an INT would lose a fraction. */
  lemma BoundRefused(v: Value, t: RangeType)
    ensures CoerceBound(Some(v), t).Raised? <==>
              || v.Text? || t == BOOL || t == STRING
              || (t == INT && v.Numeric() && v.Num() != v.Num().Floor as real)
  {
  }

  /** When the constructor raises on arguments of a known type. */
  lemma RefusedExactly(values: Option<set<Value>>, infinite: bool, empty: bool, kind: RangeType,
                       min: Option<Value>, max: Option<Value>)
    requires kind != UNTYPED
    ensures New(values, infinite, empty, kind, min, max).Raised? <==>
              || (infinite && empty)
              || (min.Some? && CoerceBound(min, kind).Raised?) || (max.Some? && CoerceBound(max, kind).Raised?)
              || (values.Some? && exists v <- values.value :: Coerce(v, kind).Raised?)
              || (&& !infinite && !empty && values.Some?
                  && (min.Some? && max.Some? ==> AsNumber(min.value).value <= AsNumber(max.value).value)
                  && exists v <- values.value :: Numeric(kind) && !(
                       && (min.Some? ==> AsNumber(min.value).value <= Coerce(v, kind).value.Num())
                       && (max.Some? ==> Coerce(v, kind).value.Num() <= AsNumber(max.value).value)))
  {
    hide Coerce, AsNumber, Integral, CoerceAll, CoerceBound, InBounds;
    CoerceAllExactly(values, kind);
    BoundNumber(min, kind);
    BoundNumber(max, kind);
    var low, high := CoerceBound(min, kind), CoerceBound(max, kind);
    if CoerceAll(values, kind).Ok? && values.Some? && low.Ok? && high.Ok? {
      OutsideExactly(values.value, kind, low.value, high.value);
    }
  }

  lemma CoerceAllExactly(values: Option<set<Value>>, t: RangeType)
    ensures CoerceAll(values, t).Raised? <==> values.Some? && exists v <- values.value :: Coerce(v, t).Raised?
    ensures CoerceAll(values, t).Ok? && values.Some? ==>
              CoerceAll(values, t).value == Some(set v <- values.value :: Coerce(v, t).value)
  {
    hide Coerce;
  }

  lemma BoundNumber(bound: Option<Value>, t: RangeType)
    ensures CoerceBound(bound, t).Ok? ==> CoerceBound(bound, t).value == if bound.Some? then Some(AsNumber(bound.value).value) else None
    ensures bound.None? ==> CoerceBound(bound, t).Ok?
    ensures CoerceBound(bound, t).Ok? && bound.Some? ==> AsNumber(bound.value).Ok? && (Numeric(t) || t == UNTYPED)
  {
    hide AsNumber, Integral;
  }

  lemma OutsideExactly(s: set<Value>, t: RangeType, low: Option<real>, high: Option<real>)
    requires t != UNTYPED && forall v <- s :: Coerce(v, t).Ok?
    ensures (exists w <- (set v <- s :: Coerce(v, t).value) :: !InBounds(w, low, high)) <==>
              exists v <- s :: Numeric(t) && !(
                && (low.Some? ==> low.value <= Coerce(v, t).value.Num())
                && (high.Some? ==> Coerce(v, t).value.Num() <= high.value))
  {
    hide Coerce;
    var ws := set v <- s :: Coerce(v, t).value;
    assert forall v <- s :: Coerce(v, t).value in ws && Coerce(v, t).value.Type() == t;
    assert forall w: Value | w.Type() == t :: w.Numeric() <==> Numeric(t);
    forall v | v in s && Numeric(t) && !InBounds(Coerce(v, t).value, low, high)
      ensures Coerce(v, t).value in ws && !InBounds(Coerce(v, t).value, low, high)
    {
    }
  }

  /** Two ranges of different types are never compared or met; an untyped one goes with any. */
  lemma ClashExactly(a: Range, b: Range)
    ensures IncludesRange(a, b).Raised? <==> a.kind != b.kind && a.kind != UNTYPED && b.kind != UNTYPED
    ensures a.kind != b.kind && a.kind != UNTYPED && b.kind != UNTYPED ==> Intersection(a, b).Raised?
  {
  }

  /** A constructed range denotes what its arguments say: NUL, INF, or bounds and enumeration together. */
  lemma NewDenotes(values: Option<set<Value>>, infinite: bool, empty: bool, kind: RangeType,
                   min: Option<Value>, max: Option<Value>, v: Value)
    requires New(values, infinite, empty, kind, min, max).Ok?
    requires kind == v.Type()
    ensures var r := New(values, infinite, empty, kind, min, max).value;
            Denotes(r, v) <==>
              || infinite
              || (&& !empty
                  && (min.Some? && v.Numeric() ==> AsNumber(min.value).value <= v.Num())
                  && (max.Some? && v.Numeric() ==> v.Num() <= AsNumber(max.value).value)
                  && (values.Some? ==> exists w <- values.value :: Coerce(w, kind) == Ok(v)))
  {
  }

  /** Copying a valid range through the constructor changes nothing. */
  lemma RebuildIsIdentity(r: Range)
    requires Valid(r)
    ensures Rebuild(r, r.kind) == Ok(r)
  {
    if r.Finite? && r.values.Some? {
      assert (set v <- r.values.value :: Coerce(v, r.kind).value) == r.values.value;
    }
  }

  /** A well-typed enumeration passes through coercion unchanged. */
  lemma CoerceAllTyped(s: set<Value>, t: RangeType)
    requires forall v <- s :: v.Type() == t
    ensures CoerceAll(Some(s), t) == Ok(Some(s))
  {
    assert (set v <- s :: Coerce(v, t).value) == s;
  }

  /** Rebuilding an operand of INF under the common type gives that operand, typed. */
  lemma RebuildTyped(r: Range, t: RangeType)
    requires Fits(r, t)
    ensures r.kind == t ==> Rebuild(r, t) == Ok(r)
    ensures r.kind == UNTYPED ==> Rebuild(r, UNTYPED) == Ok(r)
    ensures r.kind == UNTYPED && r.Finite? ==> Rebuild(r, t) == Ok(r.(kind := t))
  {
    if r.Finite? && r.values.Some? {
      CoerceAllTyped(r.values.value, r.kind);
      if r.kind == UNTYPED {
        assert r.values.value == {};
        CoerceAllTyped({}, t);
      }
    }
  }

  lemma TightBounds(v: Value, low1: Option<real>, high1: Option<real>, low2: Option<real>, high2: Option<real>)
    ensures InBounds(v, HigherLow(low1, low2), LowerHigh(high1, high2)) <==>
              InBounds(v, low1, high1) && InBounds(v, low2, high2)
  {
  }

  lemma IntervalMeet(a: Range, b: Range, t: RangeType)
    requires Fits(a, t) && Fits(b, t) && a.Interval() && b.Interval()
    ensures var low, high := HigherLow(a.min, b.min), LowerHigh(a.max, b.max);
            Intersection(a, b) == Ok(if Crossed(low, high) then Nul(t) else Finite(t, low, high, None))
  {
  }

  lemma EnumerationMeet(a: Range, b: Range, t: RangeType)
    requires Fits(a, t) && Fits(b, t) && a.Finite? && b.Finite? && (a.values.Some? || b.values.Some?)
    ensures var low, high := HigherLow(a.min, b.min), LowerHigh(a.max, b.max);
            var common := set v <- Candidates(a.values, b.values) | InBounds(v, low, high);
            var kind := if a.kind != UNTYPED then a.kind else b.kind;
            && (forall v <- common :: v.Type() == kind)
            && Intersection(a, b) == Ok(if Crossed(low, high) || common == {} then Nul(kind)
                                        else Finite(kind, None, None, Some(common)))
  {
    hide Coerce;
    var kind := if a.kind != UNTYPED then a.kind else b.kind;
    var common := set v <- Candidates(a.values, b.values) | InBounds(v, HigherLow(a.min, b.min), LowerHigh(a.max, b.max));
    assert forall v <- common :: v.Type() == kind;
    CoerceAllTyped(common, kind);
  }

  /** The meet of two finite ranges. */
  lemma FiniteMeet(a: Range, b: Range, t: RangeType)
    requires Fits(a, t) && Fits(b, t) && a.Finite? && b.Finite?
    ensures Intersection(a, b).Ok? && Fits(Intersection(a, b).value, t)
    ensures forall v: Value | v.Type() == t ::
              Denotes(Intersection(a, b).value, v) <==> Denotes(a, v) && Denotes(b, v)
    ensures !Intersection(a, b).value.HasEnumException()
  {
    if a.Interval() && b.Interval() {
      IntervalMeet(a, b, t);
    } else {
      EnumerationMeet(a, b, t);
    }
    forall v: Value | v.Type() == t
      ensures Denotes(Intersection(a, b).value, v) <==> Denotes(a, v) && Denotes(b, v)
    {
      TightBounds(v, a.min, a.max, b.min, b.max);
      var low, high := HigherLow(a.min, b.min), LowerHigh(a.max, b.max);
      assert Crossed(low, high) ==> v.Numeric() && !InBounds(v, low, high);
      if a.values.Some? || b.values.Some? {
        var common := set w <- Candidates(a.values, b.values) | InBounds(w, low, high);
        assert v in common <==> Denotes(a, v) && Denotes(b, v);
      }
    }
  }

  lemma NewUnbounded(t: RangeType)
    ensures New(None, true, false, t, None, None) == Ok(Inf(t))
    ensures New(None, false, true, t, None, None) == Ok(Nul(t))
  {
  }

  /** Against INF or NUL, the meet is the other range or NUL. */
  lemma UnboundedMeet(a: Range, b: Range, t: RangeType)
    requires Fits(a, t) && Fits(b, t) && !(a.Finite? && b.Finite?)
    ensures Intersection(a, b).Ok? && Fits(Intersection(a, b).value, t)
    ensures forall v: Value | v.Type() == t ::
              Denotes(Intersection(a, b).value, v) <==> Denotes(a, v) && Denotes(b, v)
    ensures !a.HasEnumException() && !b.HasEnumException() ==> !Intersection(a, b).value.HasEnumException()
  {
    hide Rebuild, New;
    NewUnbounded(if a.kind != UNTYPED then a.kind else b.kind);
    if a.Finite? {
      RebuildTyped(a, t);
    } else if b.Finite? {
      RebuildTyped(b, t);
    }
  }

  /** `intersection` never raises on ranges of one parameter and is the exact meet of their values. */
  lemma IntersectionIsMeet(a: Range, b: Range, t: RangeType)
    requires Fits(a, t) && Fits(b, t)
    ensures Intersection(a, b).Ok? && Fits(Intersection(a, b).value, t)
    ensures forall v: Value | v.Type() == t ::
              Denotes(Intersection(a, b).value, v) <==> Denotes(a, v) && Denotes(b, v)
    ensures !a.HasEnumException() && !b.HasEnumException() ==> !Intersection(a, b).value.HasEnumException()
  {
    hide Intersection, Fits, Denotes;
    if a.Finite? && b.Finite? {
      FiniteMeet(a, b, t);
    } else {
      UnboundedMeet(a, b, t);
    }
  }

  /**
   The result is NUL exactly when the two ranges share no value, except that an empty
   enumeration met with INF is copied and not recognised as empty.
   */
  lemma EmptyMeetExactly(a: Range, b: Range, t: RangeType)
    requires Fits(a, t) && Fits(b, t)
    ensures Intersection(a, b).Ok?
    ensures Intersection(a, b).value.Nul? <==>
              && !Overlap(a, b, t)
              && !(a.HasEnumException() && b.Inf?) && !(b.HasEnumException() && a.Inf?)
  {
    IntersectionIsMeet(a, b, t);
    var m := Intersection(a, b).value;
    if a.Finite? && b.Finite? {
      FiniteMeet(a, b, t);
    } else if a.Finite? {
      RebuildTyped(a, t);
    } else if b.Finite? {
      RebuildTyped(b, t);
    }
    if !m.Nul? && !m.HasEnumException() {
      var v := Inhabited(m, t);
      assert Denotes(a, v) && Denotes(b, v);
    }
  }

  /** Commutative as a range; associative and idempotent as a set of values. */
  lemma IntersectionAlgebra(a: Range, b: Range, c: Range, t: RangeType)
    requires Fits(a, t) && Fits(b, t) && Fits(c, t)
    ensures Intersection(a, b) == Intersection(b, a)
    ensures Intersection(a, b).Ok? && Intersection(b, c).Ok? && Intersection(a, a).Ok?
    ensures Intersection(Intersection(a, b).value, c).Ok? && Intersection(a, Intersection(b, c).value).Ok?
    ensures forall v: Value | v.Type() == t ::
              && (Denotes(Intersection(a, a).value, v) <==> Denotes(a, v))
              && (Denotes(Intersection(Intersection(a, b).value, c).value, v) <==>
                  Denotes(Intersection(a, Intersection(b, c).value).value, v))
  {
    Commutes(a, b);
    IntersectionIsMeet(a, b, t);
    IntersectionIsMeet(b, c, t);
    IntersectionIsMeet(a, a, t);
    IntersectionIsMeet(Intersection(a, b).value, c, t);
    IntersectionIsMeet(a, Intersection(b, c).value, t);
  }

  lemma Commutes(a: Range, b: Range)
    ensures Intersection(a, b) == Intersection(b, a)
  {
    if a.Finite? && b.Finite? {
      assert HigherLow(a.min, b.min) == HigherLow(b.min, a.min);
      assert LowerHigh(a.max, b.max) == LowerHigh(b.max, a.max);
      assert Candidates(a.values, b.values) == Candidates(b.values, a.values);
    }
  }

  /** Set inclusion is absorption by the meet. */
  lemma SubsetIsAbsorption(a: Range, b: Range, t: RangeType)
    requires Fits(a, t) && Fits(b, t)
    ensures Intersection(a, b).Ok?
    ensures Subset(a, b, t) <==>
              forall v: Value | v.Type() == t :: Denotes(Intersection(a, b).value, v) <==> Denotes(a, v)
  {
    IntersectionIsMeet(a, b, t);
  }
}
