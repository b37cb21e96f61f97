/**
 Capability sets and constraint sets (`CapSet` and `ConSet` in caps/MatroxCCF.py), which have
 the same fields, and the operators `<<`, `<&` and `<=` between two of them.

 A dictionary is a map, keyed by the parameter name its entries carry.  A loop over a
 dictionary takes its entries in an arbitrary order.
 */
module CapSets {
  import opened Outcome
  import opened Ranges
  import opened RangeLaws

  /** A `Capability` or `Constraint`, without the name that is its key. */
  datatype Param = Param(value: Range, original: bool)

  datatype ParamSet = ParamSet(params: map<string, Param>, preference: int, title: string,
                               format: Option<string>, layer: Option<int>, groups: Option<set<int>>)

  type CapSet = ParamSet
  type ConSet = ParamSet

  /** `s[name]`: a missing name is unconstrained. */
  function Get(s: ParamSet, name: string): Param {
    if name in s.params then s.params[name] else Param(Inf(UNTYPED), false)
  }

  predicate SamePart(x: ParamSet, y: ParamSet) {
    x.format == y.format && x.layer == y.layer
  }

  /** `str(n)`, used in the default titles of sets. */
  function Decimal(n: nat): string {
    var digit := ["0", "1", "2", "3", "4", "5", "6", "7", "8", "9"][n % 10];
    if n < 10 then digit else Decimal(n / 10) + digit
  }

  // ---------------------------------------------------------------------------
  // What a set of parameters means
  // ---------------------------------------------------------------------------

  /** The one type of each parameter name. */
  type Schema = f: string -> RangeType | forall n: string :: f(n) != UNTYPED witness (n: string) => INT

  /** A choice of a value for every parameter. */
  type Config = string -> Value

  ghost predicate TypedConfig(c: Config, schema: Schema) {
    forall n: string :: c(n).Type() == schema(n)
  }

  ghost predicate Typed(s: ParamSet, schema: Schema) {
    forall n <- s.params.Keys :: Fits(s.params[n].value, schema(n)) && !s.params[n].value.HasEnumException()
  }

  predicate NulFree(s: ParamSet) {
    forall n <- s.params.Keys :: !s.params[n].value.Nul?
  }

  predicate MixedFree(s: ParamSet) {
    forall n <- s.params.Keys :: !s.params[n].value.Mixed()
  }

  /** Every named parameter of `c` lies in its range. */
  ghost predicate Accepts(s: ParamSet, c: Config) {
    forall n <- s.params.Keys :: Denotes(s.params[n].value, c(n))
  }

  /** Every constrained parameter has a value that both sides admit. */
  ghost predicate Meets(x: ParamSet, y: ParamSet, schema: Schema) {
    forall n <- y.params.Keys ::
      y.params[n].value.Inf? || Overlap(Get(x, n).value, y.params[n].value, schema(n))
  }

  // ---------------------------------------------------------------------------
  // The operators on one parameter
  // ---------------------------------------------------------------------------

  /** `x_cap <& y_con`. */
  function CapAdjust(x: Param, y: Param): Result<Param> {
    if x.value.HasEnumException() || y.value.HasEnumException() then Raised
    else
      var copy :- Rebuild(x.value, x.value.kind);
      if y.value.Inf? then Ok(Param(copy, x.original))
      else
        var meet :- Intersection(copy, y.value);
        if meet.Nul? then Raised else Ok(Param(meet, x.original))
  }

  /** `x_cap << y_con`. */
  function CapConstrict(x: Param, y: Param): Result<Param> {
    if x.value.HasEnumException() || y.value.HasEnumException() then Raised
    else
      var copy :- Rebuild(x.value, x.value.kind);
      if y.value.Inf? then Ok(Param(copy, x.original))
      else
        var included :- IncludesRange(copy, y.value);
        if included then Ok(Param(y.value, x.original)) else Raised
  }

  /** `x_cap <= y_cap`; also `x_con <= y_con`. */
  function CapIncluded(x: Param, y: Param): Result<bool> {
    if x.value.HasEnumException() || y.value.HasEnumException() then Raised
    else IncludesRange(y.value, x.value)
  }

  /** `x_con <= y_cap`: an unconstrained parameter is always included. */
  function ConIncluded(x: Param, y: Param): Result<bool> {
    if x.value.HasEnumException() || y.value.HasEnumException() then Raised
    else if x.value.Inf? then Ok(true)
    else IncludesRange(y.value, x.value)
  }

  // ---------------------------------------------------------------------------
  // The operators on whole sets: pointwise specification and dictionary loops
  // ---------------------------------------------------------------------------

  type Operator = (Param, Param) -> Result<Param>

  predicate Refused(op: Operator, x: CapSet, y: ConSet) {
    exists n <- y.params.Keys :: op(Get(x, n), y.params[n]).Raised?
  }

  /** Each constrained name is combined, every other name is kept, and `y` sets the preference. */
  function Pointwise(op: Operator, x: CapSet, y: ConSet): Result<CapSet> {
    if !SamePart(x, y) then Ok(x)
    else if Refused(op, x, y) then Raised
    else
      Ok(x.(params := map n | n in x.params.Keys + y.params.Keys ::
                        if n in y.params then op(Get(x, n), y.params[n]).value else x.params[n],
            preference := y.preference))
  }

  function Adjust(x: CapSet, y: ConSet): Result<CapSet> {
    Pointwise(CapAdjust, x, y)
  }

  function Constrict(x: CapSet, y: ConSet): Result<CapSet> {
    Pointwise(CapConstrict, x, y)
  }

  /**
   The fold of `capset_constrict_by_conset` and `capset_constrict_adjust_by_conset`: whatever
   the order in which the dictionary is walked, the outcome is the pointwise one.
   */
  method ConstrictWith(op: Operator, x: CapSet, y: ConSet) returns (r: Result<CapSet>)
    ensures r == Pointwise(op, x, y)
  {
    var acc := x;
    if !SamePart(x, y) {
      return Ok(acc);
    }
    var todo := y.params.Keys;
    while todo != {}
      invariant todo <= y.params.Keys
      invariant acc == x.(params := acc.params)
      invariant acc.params.Keys == x.params.Keys + (y.params.Keys - todo)
      invariant forall n <- y.params.Keys - todo :: op(Get(x, n), y.params[n]) == Ok(acc.params[n])
      invariant forall n <- acc.params.Keys :: n !in y.params || n in todo ==> acc.params[n] == x.params[n]
    {
      var n :| n in todo;
      assert Get(acc, n) == Get(x, n);
      var cap := op(Get(acc, n), y.params[n]);
      if cap.Raised? {
        return Raised;
      }
      acc := acc.(params := acc.params[n := cap.value]);
      todo := todo - {n};
    }
    assert !Refused(op, x, y) && acc.params == Pointwise(op, x, y).value.params;
    return Ok(acc.(preference := y.preference));
  }

  predicate AllIncluded(x: CapSet, y: CapSet) {
    forall n <- x.params.Keys + y.params.Keys :: CapIncluded(Get(x, n), Get(y, n)) == Ok(true)
  }

  /** `x_capset <= y_capset`, walking the union of the two namespaces in any order. */
  method CapSetIncluded(x: CapSet, y: CapSet) returns (r: Result<bool>)
    ensures r == Ok(true) <==> SamePart(x, y) && AllIncluded(x, y)
    ensures r == Ok(false) && SamePart(x, y) ==>
              exists n <- x.params.Keys + y.params.Keys :: CapIncluded(Get(x, n), Get(y, n)) == Ok(false)
    ensures r.Raised? ==> exists n <- x.params.Keys + y.params.Keys :: CapIncluded(Get(x, n), Get(y, n)).Raised?
  {
    if !SamePart(x, y) {
      return Ok(false);
    }
    if n: string :| n in y.params && y.params[n].value.HasEnumException() {
      assert n in x.params.Keys + y.params.Keys && CapIncluded(Get(x, n), Get(y, n)).Raised?;
      return Raised;
    }
    var todo := x.params.Keys + y.params.Keys;
    while todo != {}
      invariant todo <= x.params.Keys + y.params.Keys
      invariant forall n <- x.params.Keys + y.params.Keys - todo :: CapIncluded(Get(x, n), Get(y, n)) == Ok(true)
    {
      var n :| n in todo;
      var included := CapIncluded(Get(x, n), Get(y, n));
      if included != Ok(true) {
        return included;
      }
      todo := todo - {n};
    }
    return Ok(true);
  }

  predicate AllConstraintsIncluded(x: ConSet, y: CapSet) {
    forall n <- x.params.Keys :: x.params[n].value.Inf? || ConIncluded(x.params[n], Get(y, n)) == Ok(true)
  }

  /** `x_conset <= y_capset`. */
  method ConSetIncluded(x: ConSet, y: CapSet) returns (r: Result<bool>)
    ensures r == Ok(true) <==> SamePart(x, y) && AllConstraintsIncluded(x, y)
    ensures r == Ok(false) && SamePart(x, y) ==>
              exists n <- x.params.Keys :: ConIncluded(x.params[n], Get(y, n)) == Ok(false)
    ensures r.Raised? ==> exists n <- x.params.Keys :: ConIncluded(x.params[n], Get(y, n)).Raised?
  {
    if !SamePart(x, y) {
      return Ok(false);
    }
    var todo := x.params.Keys;
    while todo != {}
      invariant todo <= x.params.Keys
      invariant forall n <- x.params.Keys - todo ::
                  x.params[n].value.Inf? || ConIncluded(x.params[n], Get(y, n)) == Ok(true)
    {
      var n :| n in todo;
      if !x.params[n].value.Inf? {
        var included := ConIncluded(x.params[n], Get(y, n));
        if included != Ok(true) {
          return included;
        }
      }
      todo := todo - {n};
    }
    return Ok(true);
  }

  // ---------------------------------------------------------------------------
  // Laws of `<&`
  // ---------------------------------------------------------------------------

  lemma GetFits(s: ParamSet, n: string, schema: Schema)
    requires Typed(s, schema)
    ensures Fits(Get(s, n).value, schema(n)) && !Get(s, n).value.HasEnumException()
  {
  }

  lemma CapAdjustMeaning(x: Param, y: Param, t: RangeType)
    requires Fits(x.value, t) && Fits(y.value, t) && !x.value.HasEnumException() && !y.value.HasEnumException()
    ensures CapAdjust(x, y).Ok? <==> y.value.Inf? || Overlap(x.value, y.value, t)
    ensures CapAdjust(x, y).Ok? ==>
              var m := CapAdjust(x, y).value;
              && Fits(m.value, t) && !m.value.HasEnumException() && m.original == x.original
              && (y.value.Inf? ==> m == x)
              && forall v: Value | v.Type() == t :: Denotes(m.value, v) <==> Denotes(x.value, v) && Denotes(y.value, v)
  {
    RebuildIsIdentity(x.value);
    IntersectionIsMeet(x.value, y.value, t);
    EmptyMeetExactly(x.value, y.value, t);
  }

  /** The other attributes of `x`, and its parameters that are unconstrained or met with INF, stay. */
  lemma AdjustFrame(x: CapSet, y: ConSet, schema: Schema)
    requires Typed(x, schema) && Typed(y, schema) && SamePart(x, y) && Adjust(x, y).Ok?
    ensures var r := Adjust(x, y).value;
            && r.(params := x.params, preference := x.preference) == x
            && r.params.Keys == x.params.Keys + y.params.Keys
            && forall n: string :: Get(y, n).value.Inf? ==> Get(r, n) == Get(x, n)
  {
    var r := Adjust(x, y).value;
    forall n: string | Get(y, n).value.Inf?
      ensures Get(r, n) == Get(x, n)
    {
      if n in y.params {
        GetFits(x, n, schema);
        CapAdjustMeaning(Get(x, n), y.params[n], schema(n));
      }
    }
  }

  /** `<&` succeeds exactly when every constraint can be met, and then accepts the intersection. */
  lemma AdjustMeaning(x: CapSet, y: ConSet, schema: Schema)
    requires Typed(x, schema) && Typed(y, schema) && SamePart(x, y)
    ensures Adjust(x, y).Ok? <==> Meets(x, y, schema)
    ensures Adjust(x, y).Ok? ==>
              var r := Adjust(x, y).value;
              && Typed(r, schema) && r.preference == y.preference
              && forall c: Config | TypedConfig(c, schema) :: Accepts(r, c) <==> Accepts(x, c) && Accepts(y, c)
  {
    forall n | n in y.params.Keys
      ensures CapAdjust(Get(x, n), y.params[n]).Ok? <==>
                y.params[n].value.Inf? || Overlap(Get(x, n).value, y.params[n].value, schema(n))
    {
      CapAdjustMeaning(Get(x, n), y.params[n], schema(n));
    }
    if Adjust(x, y).Ok? {
      AdjustAccepts(x, y, schema);
    }
  }

  lemma AdjustAccepts(x: CapSet, y: ConSet, schema: Schema)
    requires Typed(x, schema) && Typed(y, schema) && SamePart(x, y) && Adjust(x, y).Ok?
    ensures var r := Adjust(x, y).value;
            && Typed(r, schema)
            && forall c: Config | TypedConfig(c, schema) :: Accepts(r, c) <==> Accepts(x, c) && Accepts(y, c)
  {
    hide CapAdjust, Fits;
    var r := Adjust(x, y).value;
    forall n | n in y.params.Keys
      ensures Fits(r.params[n].value, schema(n)) && !r.params[n].value.HasEnumException()
      ensures forall v: Value | v.Type() == schema(n) ::
                Denotes(r.params[n].value, v) <==> Denotes(Get(x, n).value, v) && Denotes(y.params[n].value, v)
    {
      CapAdjustMeaning(Get(x, n), y.params[n], schema(n));
    }
    forall c: Config | TypedConfig(c, schema)
      ensures Accepts(r, c) <==> Accepts(x, c) && Accepts(y, c)
    {
      assert forall n <- r.params.Keys :: c(n).Type() == schema(n);
    }
  }

  // ---------------------------------------------------------------------------
  // Decimal numerals
  // ---------------------------------------------------------------------------

  predicate IsDigit(c: char) {
    '0' <= c <= '9'
  }

  /** The number that a numeral stands for. */
  function NumeralValue(s: string): int {
    if s == "" then 0 else 10 * NumeralValue(s[..|s| - 1]) + (s[|s| - 1] as int - '0' as int)
  }

  lemma {:induction false} DecimalExactly(n: nat)
    ensures Decimal(n) != "" && (forall c <- Decimal(n) :: IsDigit(c)) && NumeralValue(Decimal(n)) == n
    ensures n > 0 ==> Decimal(n)[0] != '0'
  {
    DigitExactly(n % 10);
    if n >= 10 {
      DecimalExactly(n / 10);
      var digit := ["0", "1", "2", "3", "4", "5", "6", "7", "8", "9"][n % 10];
      assert Decimal(n) == Decimal(n / 10) + digit && |digit| == 1;
      assert Decimal(n)[..|Decimal(n)| - 1] == Decimal(n / 10);
    } else {
      assert Decimal(n)[..0] == "";
    }
  }

  lemma DigitExactly(d: nat)
    requires d < 10
    ensures var digit := ["0", "1", "2", "3", "4", "5", "6", "7", "8", "9"][d];
            |digit| == 1 && IsDigit(digit[0]) && digit[0] as int - '0' as int == d
  {
  }
}
