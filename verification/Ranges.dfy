/**
 Ranges of parameter values (`RangeValue` in caps/MatroxCCF.py): construction, membership,
 inclusion and intersection, written as the source decides them.

 FLOAT and RATIONAL numbers are reals.  A range is kept in its constructed form, where the
 source's `infinite` and `empty` flags exclude each other and clear every other field; an
 enumeration is the coerced set the source calls `enumerated`, present when `values` is not None.
 */
module Ranges {
  import opened Outcome

  datatype RangeType = UNTYPED | BOOL | STRING | INT | FLOAT | RATIONAL

  datatype Value = Flag(b: bool) | Text(s: string) | Whole(i: int) | Float(x: real) | Fraction(q: real)
  {
    predicate Numeric() {
      Whole? || Float? || Fraction?
    }

    function Num(): real
      requires Numeric()
    {
      match this
      case Whole(i) => i as real
      case Float(x) => x
      case Fraction(q) => q
    }

    function Type(): RangeType {
      match this
      case Flag(_) => BOOL
      case Text(_) => STRING
      case Whole(_) => INT
      case Float(_) => FLOAT
      case Fraction(_) => RATIONAL
    }
  }

  datatype Range =
    | Nul(kind: RangeType)
    | Inf(kind: RangeType)
    | Finite(kind: RangeType, min: Option<real>, max: Option<real>, values: Option<set<Value>>)
  {
    /** A non-None empty enumeration, which every capability operator refuses. */
    predicate HasEnumException() {
      Finite? && values == Some({})
    }

    predicate Interval() {
      Finite? && values.None?
    }

    /** Bounds and an enumeration together. */
    predicate Mixed() {
      Finite? && values.Some? && (min.Some? || max.Some?)
    }
  }

  predicate Numeric(t: RangeType) {
    t == INT || t == FLOAT || t == RATIONAL
  }

  predicate Integral(x: real) {
    x == x.Floor as real
  }

  /** The number `x` as a value of numeric type `t`. */
  function MakeNumber(t: RangeType, x: real): (v: Value)
    requires Numeric(t)
    ensures v.Type() == t
    ensures t != INT || Integral(x) ==> v.Num() == x
  {
    match t
    case INT => Whole(x.Floor)
    case FLOAT => Float(x)
    case _ => Fraction(x)
  }

  predicate AtLeast(x: real, low: Option<real>) {
    low.Some? ==> low.value <= x
  }

  predicate AtMost(x: real, high: Option<real>) {
    high.Some? ==> x <= high.value
  }

  predicate InBounds(v: Value, low: Option<real>, high: Option<real>) {
    v.Numeric() ==> AtLeast(v.Num(), low) && AtMost(v.Num(), high)
  }

  /** What a range means: the values of the parameter that it admits. */
  predicate Denotes(r: Range, v: Value) {
    match r
    case Nul(_) => false
    case Inf(_) => true
    case Finite(_, low, high, values) => InBounds(v, low, high) && (values.Some? ==> v in values.value)
  }

  /** What the constructor guarantees of every range it returns. */
  predicate Valid(r: Range) {
    r.Finite? ==>
      && (r.min.Some? || r.max.Some? || r.values.Some?)
      && (r.min.Some? || r.max.Some? ==> Numeric(r.kind))
      && (r.min.Some? && r.max.Some? ==> r.min.value <= r.max.value)
      && (r.kind == INT && r.min.Some? ==> Integral(r.min.value))
      && (r.kind == INT && r.max.Some? ==> Integral(r.max.value))
      && (r.values.Some? ==> forall v <- r.values.value :: v.Type() == r.kind && InBounds(v, r.min, r.max))
  }

  /** `r` may describe a parameter whose schema type is `t`; INF and NUL may be untyped. */
  predicate Fits(r: Range, t: RangeType) {
    Valid(r) && t != UNTYPED && (r.kind == t || (r.kind == UNTYPED && (r.Finite? ==> r.values.Some?)))
  }

  // ---------------------------------------------------------------------------
  // Construction
  // ---------------------------------------------------------------------------

  function Truncate(x: real): int {
    if x >= 0.0 then x.Floor else -(-x).Floor
  }

  function AsNumber(v: Value): Result<real> {
    match v
    case Flag(b) => Ok(if b then 1.0 else 0.0)
    case Text(_) => Raised
    case _ => Ok(v.Num())
  }

  /** `int(v)`, `float(v)`, `Fraction(v)`, `bool(v)`, `str(v)`, for the conversions modelled. */
  function Coerce(v: Value, t: RangeType): (r: Result<Value>)
    ensures r.Ok? && t != UNTYPED ==> r.value.Type() == t
    ensures v.Type() == t ==> r == Ok(v)
  {
    match t
    case UNTYPED => Ok(v)
    case BOOL => Ok(Flag(match v case Flag(b) => b case Text(s) => s != "" case _ => v.Num() != 0.0))
    case STRING => if v.Text? then Ok(v) else Raised
    case INT => var x :- AsNumber(v); Ok(Whole(if v.Whole? then v.i else Truncate(x)))
    case FLOAT => var x :- AsNumber(v); Ok(Float(x))
    case RATIONAL => var x :- AsNumber(v); Ok(Fraction(x))
  }

  /** A bound coerced to `t`: an INT bound must be integral, and BOOL and STRING take none. */
  function CoerceBound(bound: Option<Value>, t: RangeType): (r: Result<Option<real>>)
    ensures bound.None? ==> r == Ok(None)
    ensures r.Ok? && bound.Some? ==> r.value.Some?
    ensures r.Ok? && bound.Some? && t == INT ==> Integral(r.value.value)
  {
    match bound
    case None => Ok(None)
    case Some(v) =>
      var x :- AsNumber(v);
      if t == BOOL || t == STRING || (t == INT && !Integral(x)) then Raised else Ok(Some(x))
  }

  function CoerceAll(values: Option<set<Value>>, t: RangeType): (r: Result<Option<set<Value>>>)
    ensures r.Ok? ==> r.value.Some? == values.Some?
    ensures r.Ok? && values.Some? && t != UNTYPED ==> forall v <- r.value.value :: v.Type() == t
    ensures values.None? ==> r == Ok(None)
  {
    match values
    case None => Ok(None)
    case Some(s) =>
      if exists v <- s :: Coerce(v, t).Raised? then Raised
      else Ok(Some(set v <- s :: Coerce(v, t).value))
  }

  /** The declared type, or the one inferred from a bound, else from the enumeration. */
  function InferType(values: Option<set<Value>>, t: RangeType, low: Option<Value>, high: Option<Value>): Result<RangeType> {
    if t != UNTYPED then Ok(t)
    else if low.Some? then Ok(low.value.Type())
    else if high.Some? then Ok(high.value.Type())
    else if values.None? || values.value == {} then Ok(UNTYPED)
    else if forall v <- values.value :: v.Flag? then Ok(BOOL)
    else if forall v <- values.value :: v.Text? then Ok(STRING)
    else if forall v <- values.value :: v.Whole? then Ok(INT)
    else if forall v <- values.value :: v.Float? then Ok(FLOAT)
    else if forall v <- values.value :: v.Fraction? then Ok(RATIONAL)
    else Raised
  }

  predicate Crossed(low: Option<real>, high: Option<real>) {
    low.Some? && high.Some? && low.value > high.value
  }

  /** The constructor, `RangeValue(values, infinite, empty, kind, min, max)`. */
  function New(values: Option<set<Value>>, infinite: bool, empty: bool, kind: RangeType,
               min: Option<Value>, max: Option<Value>): (r: Result<Range>)
  {
    if infinite && empty then Raised
    else
      var unbounded := infinite || (!empty && values.None? && min.None? && max.None?);
      var t :- InferType(values, kind, min, max);
      var low :- CoerceBound(min, t);
      var high :- CoerceBound(max, t);
      var enumerated :- CoerceAll(values, t);
      if unbounded then Ok(Inf(t))
      else if empty || Crossed(low, high) then Ok(Nul(t))
      else if enumerated.Some? && exists v <- enumerated.value :: !InBounds(v, low, high) then Raised
      else Ok(Finite(t, low, high, enumerated))
  }

  /** A stored bound handed back to the constructor. */
  function Bound(t: RangeType, b: Option<real>): Option<Value> {
    if b.None? then None
    else if Numeric(t) then Some(MakeNumber(t, b.value))
    else Some(Float(b.value))
  }

  /** The field-by-field copy that every operator makes before it changes a capability. */
  function Rebuild(r: Range, t: RangeType): Result<Range> {
    match r
    case Nul(_) => New(None, false, true, t, None, None)
    case Inf(_) => New(None, true, false, t, None, None)
    case Finite(_, low, high, values) => New(values, false, false, t, Bound(t, low), Bound(t, high))
  }

  // ---------------------------------------------------------------------------
  // Membership, inclusion, intersection
  // ---------------------------------------------------------------------------

  /** `isinstance` for a typed range; in Python a bool is also an int. */
  predicate IsInstance(v: Value, t: RangeType) {
    v.Type() == t || (t == INT && v.Flag?)
  }

  /** `v in s` under Python equality, where True == 1 and False == 0. */
  predicate InEnumeration(v: Value, s: set<Value>) {
    v in s || (v.Flag? && Whole(if v.b then 1 else 0) in s)
  }

  function IncludesValue(r: Range, v: Value): Result<bool> {
    if r.kind != UNTYPED && !IsInstance(v, r.kind) then Raised
    else
      match r
      case Nul(_) => Ok(false)
      case Inf(_) => Ok(true)
      case Finite(_, low, high, values) =>
        if !InBounds(v, low, high) then Ok(false)
        else Ok(values.Some? ==> InEnumeration(v, values.value))
  }

  predicate TypeClash(a: Range, b: Range) {
    a.kind != UNTYPED && b.kind != UNTYPED && a.kind != b.kind
  }

  /** One bound of `other` compared with both bounds of `self`. */
  predicate BoundWithin(self: Range, x: real)
    requires self.Finite?
  {
    AtLeast(x, self.min) && AtMost(x, self.max)
  }

  /** The tests made of the bound `b` of `other`, whose opposite bound is `opposite`. */
  predicate BoundAccepted(self: Range, other: Range, b: Option<real>, opposite: Option<real>)
    requires self.Finite? && other.Finite?
  {
    b.Some? ==>
      && BoundWithin(self, b.value)
      && (if other.kind == INT then !(self.values.Some? && opposite.None?) else self.values.None?)
  }

  predicate EnumerationAccepted(self: Range, other: Range)
    requires self.Finite? && other.Finite?
  {
    other.values.Some? ==> forall v <- other.values.value ::
      && InBounds(v, self.min, self.max)
      && (self.values.Some? ==> v in self.values.value)
  }

  /** `self.includes_range(other)` once the types have been found compatible. */
  predicate Contains(self: Range, other: Range) {
    if other.Nul? then true
    else if self.Nul? then false
    else if self.Inf? then true
    else if other.Inf? then false
    else
      && BoundAccepted(self, other, other.min, other.max)
      && BoundAccepted(self, other, other.max, other.min)
      && (other.kind == INT && other.min.Some? && other.max.Some? && self.values.Some? ==>
            forall i | other.min.value.Floor <= i < (other.max.value + 1.0).Floor :: Whole(i) in self.values.value)
      && EnumerationAccepted(self, other)
  }

  function IncludesRange(self: Range, other: Range): Result<bool> {
    if TypeClash(self, other) then Raised else Ok(Contains(self, other))
  }

  function HigherLow(a: Option<real>, b: Option<real>): Option<real> {
    if a.None? then b else if b.None? then a else if a.value < b.value then b else a
  }

  function LowerHigh(a: Option<real>, b: Option<real>): Option<real> {
    if a.None? then b else if b.None? then a else if a.value > b.value then b else a
  }

  /** The enumerated values that survive, when at least one side enumerates. */
  function Candidates(a: Option<set<Value>>, b: Option<set<Value>>): set<Value> {
    match (a, b)
    case (None, None) => {}
    case (None, Some(t)) => t
    case (Some(s), None) => s
    case (Some(s), Some(t)) => s * t
  }

  function Intersection(self: Range, other: Range): Result<Range> {
    if TypeClash(self, other) then Raised
    else
      var t := if self.kind != UNTYPED then self.kind else other.kind;
      if self.Nul? || other.Nul? then New(None, false, true, t, None, None)
      else if self.Inf? && other.Inf? then New(None, true, false, t, None, None)
      else if self.Inf? then Rebuild(other, t)
      else if other.Inf? then Rebuild(self, t)
      else
        var low, high := HigherLow(self.min, other.min), LowerHigh(self.max, other.max);
        if Crossed(low, high) then New(None, false, true, t, None, None)
        else if self.values.None? && other.values.None? then
          New(None, false, false, t, Bound(t, low), Bound(t, high))
        else
          var common := set v <- Candidates(self.values, other.values) | InBounds(v, low, high);
          if common == {} then New(None, false, true, t, None, None)
          else New(Some(common), false, false, t, None, None)
  }

  /** The loop of `intersection` that collects the common values, in any order of the set. */
  method CollectCommon(candidates: set<Value>, low: Option<real>, high: Option<real>) returns (common: set<Value>)
    ensures common == set v <- candidates | InBounds(v, low, high)
  {
    common := {};
    var todo := candidates;
    while todo != {}
      invariant todo <= candidates
      invariant common == set v <- candidates - todo | InBounds(v, low, high)
    {
      var v :| v in todo;
      if v.Flag? || v.Text? {
        common := common + {v};
      } else if (low.None? || v.Num() >= low.value) && (high.None? || v.Num() <= high.value) {
        common := common + {v};
      }
      todo := todo - {v};
    }
  }

  /** The constructor as the source runs it: set the fields, coerce them, then clear what is ignored. */
  method Construct(values: Option<set<Value>>, infinite: bool, empty: bool, kind: RangeType,
                   min: Option<Value>, max: Option<Value>) returns (r: Result<Range>)
    ensures r == New(values, infinite, empty, kind, min, max)
    ensures r.Ok? ==> Valid(r.value)
  {
    hide InferType, CoerceBound, CoerceAll;
    if infinite && empty {
      return Raised;
    }
    var isInfinite, isEmpty := infinite, empty;
    if !empty && values.None? && min.None? && max.None? {
      isInfinite := true;
    }
    var t :- InferType(values, kind, min, max);
    var low :- CoerceBound(min, t);
    var high :- CoerceBound(max, t);
    var enumerated :- CoerceAll(values, t);
    if isInfinite {
      isEmpty, low, high, enumerated := false, None, None, None;
    } else if isEmpty {
      low, high, enumerated := None, None, None;
    } else if low.Some? && high.Some? && low.value > high.value {
      isEmpty, low, high, enumerated := true, None, None, None;
    }
    if !isInfinite && !isEmpty && enumerated.Some? && exists v <- enumerated.value :: !InBounds(v, low, high) {
      return Raised;
    }
    NewIsValid(values, infinite, empty, kind, min, max);
    return Ok(if isInfinite then Inf(t) else if isEmpty then Nul(t) else Finite(t, low, high, enumerated));
  }

  lemma NewIsValid(values: Option<set<Value>>, infinite: bool, empty: bool, kind: RangeType,
                   min: Option<Value>, max: Option<Value>)
    requires New(values, infinite, empty, kind, min, max).Ok?
    ensures Valid(New(values, infinite, empty, kind, min, max).value)
  {
  }
}
