/**
 Negotiation between a list of capability sets and a list of constraint sets: `x_caps <& y_cons`
 and `x_caps << y_cons` in caps/MatroxCCF.py, with the native ("pyramid") shortcut of `<&`.
 */
module Negotiation {
  import opened Outcome
  import opened Ranges
  import opened RangeLaws
  import opened CapSets
  import opened CapSetLaws

  /** The preference that marks a native capability set. */
  const NATIVE := 100

  ghost predicate AllTyped(xs: seq<ParamSet>, schema: Schema) {
    forall x <- xs :: Typed(x, schema)
  }

  /** `x` lies inside `w`, and no parameter is affirmed in the half-open corner. */
  predicate CleanlyIn(x: CapSet, w: CapSet) {
    Included(x, w) && CornerFree(x, w)
  }

  // ---------------------------------------------------------------------------
  // The operations
  // ---------------------------------------------------------------------------

  /** Native set `x` lies inside a non-native set of `ws`. */
  predicate Covered(x: CapSet, ws: seq<CapSet>) {
    exists w <- ws :: w.preference != NATIVE && Included(x, w)
  }

  predicate Pyramid(xs: seq<CapSet>) {
    forall x <- xs :: x.preference == NATIVE ==> Covered(x, xs)
  }

  method AreNativeInPyramid(xs: seq<CapSet>, ghost schema: Schema) returns (r: Result<bool>)
    ensures AllTyped(xs, schema) ==> r == Ok(Pyramid(xs))
    ensures AllTyped(xs, schema) ==>
              (r.value <==> forall x <- xs | x.preference == 100 :: exists w <- xs :: w.preference != 100 && Included(x, w))
  {
    for i := 0 to |xs|
      invariant AllTyped(xs, schema) ==> forall x <- xs[..i] :: x.preference == NATIVE ==> Covered(x, xs)
    {
      var native := xs[i];
      if native.preference == NATIVE {
        var covered := false;
        var j := 0;
        while j < |xs| && !covered
          invariant 0 <= j <= |xs|
          invariant AllTyped(xs, schema) ==>
                      (covered <==> exists w <- xs[..j] :: w.preference != NATIVE && Included(native, w))
        {
          var alt := xs[j];
          if alt.preference != NATIVE && SamePart(alt, native) {
            var included := CapSetIncluded(native, alt);
            if Typed(native, schema) && Typed(alt, schema) {
              IncludedIsVerdict(native, alt, schema);
            }
            if included.Raised? {
              return Raised;
            }
            covered := included.value;
          }
          assert xs[..j + 1] == xs[..j] + [alt];
          j := j + 1;
        }
        if !covered {
          assert xs[..j] == xs;
          assert native in xs;
          return Ok(false);
        }
        assert forall w <- xs[..j] :: w in xs;
      }
      assert xs[..i + 1] == xs[..i] + [native];
    }
    assert xs[..|xs|] == xs;
    return Ok(true);
  }

  /** `capset` takes part in matching `y`; with `skip`, natives only match natives. */
  predicate Eligible(capset: CapSet, y: ConSet, skip: bool) {
    SamePart(capset, y) && Takes(capset, y.preference, skip)
  }

  predicate Takes(capset: CapSet, preference: int, skip: bool) {
    !(skip && preference != NATIVE && capset.preference == NATIVE)
  }

  /** The result for the first eligible capability set that `y` can adjust. */
  function Search(xs: seq<CapSet>, y: ConSet, skip: bool): Result<CapSet> {
    if xs == [] then Raised
    else if Eligible(xs[0], y, skip) && Adjust(xs[0], y).Ok? then Adjust(xs[0], y)
    else Search(xs[1..], y, skip)
  }

  method CapsAdjustByConSet(xs: seq<CapSet>, y: ConSet, ghost schema: Schema) returns (r: Result<CapSet>)
    ensures AllTyped(xs, schema) ==> r == Search(xs, y, Pyramid(xs))
  {
    hide Pointwise, Pyramid, AllTyped;
    var pyramid :- AreNativeInPyramid(xs, schema);
    for i := 0 to |xs|
      invariant Search(xs, y, pyramid) == Search(xs[i..], y, pyramid)
    {
      var capset := xs[i];
      assert xs[i..][0] == capset && xs[i..][1..] == xs[i + 1..];
      if SamePart(capset, y) && !(pyramid && y.preference != NATIVE && capset.preference == NATIVE) {
        var adjusted := ConstrictWith(CapAdjust, capset, y);
        if adjusted.Ok? {
          return adjusted;
        }
      }
    }
    return Raised;
  }

  /** The results for `ys` in order, without those that fail. */
  function Matches(xs: seq<CapSet>, ys: seq<ConSet>, skip: bool): seq<CapSet> {
    if ys == [] then [] else Listed(Search(xs, ys[0], skip)) + Matches(xs, ys[1..], skip)
  }

  function Listed(r: Result<CapSet>): seq<CapSet> {
    if r.Ok? then [r.value] else []
  }

  lemma {:induction false} MatchesAppend(xs: seq<CapSet>, ys: seq<ConSet>, y: ConSet, skip: bool)
    ensures Matches(xs, ys + [y], skip) == Matches(xs, ys, skip) + Listed(Search(xs, y, skip))
  {
    if ys == [] {
      assert ys + [y] == [y] && [y][1..] == [];
    } else {
      assert (ys + [y])[1..] == ys[1..] + [y];
      MatchesAppend(xs, ys[1..], y, skip);
      var first, rest, last := Listed(Search(xs, ys[0], skip)), Matches(xs, ys[1..], skip), Listed(Search(xs, y, skip));
      assert first + (rest + last) == first + rest + last;
    }
  }

  /** `x_caps <& y_cons`. */
  method CapsAdjustByCons(xs: seq<CapSet>, ys: seq<ConSet>, ghost schema: Schema) returns (r: Result<seq<CapSet>>)
    ensures AllTyped(xs, schema) ==>
              var rs := Matches(xs, ys, Pyramid(xs));
              r == if rs == [] then Raised else Ok(rs)
  {
    var rs: seq<CapSet> := [];
    for j := 0 to |ys|
      invariant AllTyped(xs, schema) ==> rs == Matches(xs, ys[..j], Pyramid(xs))
    {
      var one := CapsAdjustByConSet(xs, ys[j], schema);
      assert ys[..j + 1] == ys[..j] + [ys[j]];
      MatchesAppend(xs, ys[..j], ys[j], Pyramid(xs));
      if one.Ok? {
        rs := rs + [one.value];
      }
    }
    assert ys[..|ys|] == ys;
    return if rs == [] then Raised else Ok(rs);
  }

  /** `x << y` for the first capability set of the part that includes `y`. */
  function Enclose(xs: seq<CapSet>, y: ConSet): Result<CapSet> {
    if xs == [] then Raised
    else if SamePart(y, xs[0]) && AllConstraintsIncluded(y, xs[0]) then Constrict(xs[0], y)
    else Enclose(xs[1..], y)
  }

  lemma ConstraintsDecided(y: ConSet, x: CapSet, schema: Schema)
    requires Typed(x, schema) && Typed(y, schema)
    ensures forall n <- y.params.Keys :: ConIncluded(y.params[n], Get(x, n)).Ok?
  {
  }

  /** `x_caps << y_conset`. */
  method CapsConstrictByConSet(xs: seq<CapSet>, y: ConSet, ghost schema: Schema) returns (r: Result<CapSet>)
    ensures AllTyped(xs, schema) && Typed(y, schema) ==> r == Enclose(xs, y)
  {
    hide ConIncluded, Typed, AllConstraintsIncluded;
    for i := 0 to |xs|
      invariant Enclose(xs, y) == Enclose(xs[i..], y)
    {
      assert xs[i..][0] == xs[i] && xs[i..][1..] == xs[i + 1..];
      if SamePart(y, xs[i]) {
        var included := ConSetIncluded(y, xs[i]);
        if Typed(xs[i], schema) && Typed(y, schema) {
          ConstraintsDecided(y, xs[i], schema);
        }
        if included.Raised? {
          return Raised;
        }
        if included.value {
          var constricted := ConstrictWith(CapConstrict, xs[i], y);
          return constricted;
        }
      }
    }
    return Raised;
  }

  // ---------------------------------------------------------------------------
  // The pyramid shortcut
  // ---------------------------------------------------------------------------

  /** Some capability set of the same part as `y` can meet it. */
  ghost predicate Matchable(xs: seq<CapSet>, y: ConSet, schema: Schema) {
    exists x <- xs :: SamePart(x, y) && Meets(x, y, schema)
  }

  /** A search succeeds exactly when an eligible set meets `y`, and returns the meet with one. */
  lemma {:induction false} SearchFinds(xs: seq<CapSet>, y: ConSet, skip: bool, schema: Schema)
    requires AllTyped(xs, schema) && Typed(y, schema)
    ensures Search(xs, y, skip).Ok? <==> exists x <- xs :: Eligible(x, y, skip) && Meets(x, y, schema)
    ensures Search(xs, y, skip).Ok? ==>
              exists x <- xs :: Eligible(x, y, skip) && Adjust(x, y) == Search(xs, y, skip)
  {
    if xs == [] {
    } else {
      if SamePart(xs[0], y) {
        AdjustMeaning(xs[0], y, schema);
      }
      SearchFinds(xs[1..], y, skip, schema);
      assert forall x :: x in xs <==> x == xs[0] || x in xs[1..];
    }
  }

  /**
   `x` can answer `y`: it is of the same part, is not a native skipped for a non-native, and admits
   a value for every constraint.
   */
  ghost predicate Answers(x: CapSet, y: ConSet, skip: bool, schema: Schema) {
    && x.format == y.format && x.layer == y.layer
    && !(skip && x.preference == 100 && y.preference != 100)
    && Meets(x, y, schema)
  }

  /** Set `i` is the first that can answer `y`. */
  ghost predicate FirstAnswer(xs: seq<CapSet>, y: ConSet, skip: bool, i: nat, schema: Schema) {
    i < |xs| && Answers(xs[i], y, skip, schema) && forall j | 0 <= j < i :: !Answers(xs[j], y, skip, schema)
  }

  lemma HeadAnswers(x: CapSet, y: ConSet, skip: bool, schema: Schema)
    requires Typed(x, schema) && Typed(y, schema)
    ensures Answers(x, y, skip, schema) <==> Eligible(x, y, skip) && Adjust(x, y).Ok?
  {
    hide Adjust, Meets;
    if SamePart(x, y) {
      AdjustMeaning(x, y, schema);
    }
  }

  /** A search succeeds exactly when some set can answer `y`, and takes the first that can. */
  lemma {:induction false} SearchFirst(xs: seq<CapSet>, y: ConSet, skip: bool, schema: Schema)
    requires AllTyped(xs, schema) && Typed(y, schema)
    ensures Search(xs, y, skip).Ok? <==> exists i: nat :: FirstAnswer(xs, y, skip, i, schema)
    ensures forall i: nat | FirstAnswer(xs, y, skip, i, schema) :: Search(xs, y, skip) == Adjust(xs[i], y)
  {
    hide Adjust, Answers, Eligible, Typed;
    if xs != [] {
      HeadAnswers(xs[0], y, skip, schema);
      SearchFirst(xs[1..], y, skip, schema);
      if Answers(xs[0], y, skip, schema) {
        assert FirstAnswer(xs, y, skip, 0, schema);
      } else {
        forall i: nat
          ensures FirstAnswer(xs[1..], y, skip, i, schema) <==> FirstAnswer(xs, y, skip, i + 1, schema)
        {
          TailAnswers(xs, y, skip, i, schema);
        }
        forall i: nat | FirstAnswer(xs, y, skip, i, schema)
          ensures i > 0 && FirstAnswer(xs[1..], y, skip, i - 1, schema)
        {
          TailAnswers(xs, y, skip, if i > 0 then i - 1 else 0, schema);
        }
      }
    }
  }

  lemma TailAnswers(xs: seq<CapSet>, y: ConSet, skip: bool, i: nat, schema: Schema)
    requires xs != [] && !Answers(xs[0], y, skip, schema)
    ensures FirstAnswer(xs[1..], y, skip, i, schema) <==> FirstAnswer(xs, y, skip, i + 1, schema)
  {
    hide Answers;
    if FirstAnswer(xs[1..], y, skip, i, schema) {
      forall j | 0 <= j < i + 1
        ensures !Answers(xs[j], y, skip, schema)
      {
        assert j > 0 ==> xs[j] == xs[1..][j - 1];
      }
    }
    if FirstAnswer(xs, y, skip, i + 1, schema) {
      assert forall j | 0 <= j < i :: xs[1..][j] == xs[j + 1];
    }
  }

  /** What a search finds is always an agreement, whether natives are skipped or not. */
  lemma SearchSound(xs: seq<CapSet>, y: ConSet, skip: bool, schema: Schema)
    requires AllTyped(xs, schema) && Typed(y, schema) && Search(xs, y, skip).Ok?
    ensures Matchable(xs, y, schema) && Agreement(xs, y, skip, Search(xs, y, skip).value, schema)
  {
    hide Search, Adjust, Meets;
    SearchFirst(xs, y, skip, schema);
    var i: nat :| FirstAnswer(xs, y, skip, i, schema);
    assert xs[i] in xs;
    AdjustMeaning(xs[i], y, schema);
    AdjustFrame(xs[i], y, schema);
  }

  /** No pair that the pyramid compares is answered wrongly, one way or the other. */
  ghost predicate Decisive(xs: seq<CapSet>, schema: Schema) {
    forall x <- xs, w <- xs, n: string | x.preference == 100 && w.preference != 100 ::
      !Misjudged(Get(w, n).value, Get(x, n).value) && !Missed(Get(w, n).value, Get(x, n).value, schema(n))
  }

  lemma IncludedIsContainment(x: CapSet, w: CapSet, schema: Schema)
    requires Typed(x, schema) && Typed(w, schema) && NulFree(x)
    requires forall n: string :: !Misjudged(Get(w, n).value, Get(x, n).value) && !Missed(Get(w, n).value, Get(x, n).value, schema(n))
    ensures Included(x, w) <==>
              && x.format == w.format && x.layer == w.layer
              && forall c: Config | TypedConfig(c, schema) && Accepts(x, c) :: Accepts(w, c)
  {
    hide Contains, Misjudged, Missed, Accepts, Typed;
    ContainmentExactly(x, w, schema);
    forall n: string
      ensures Contains(Get(w, n).value, Get(x, n).value) <==> Subset(Get(x, n).value, Get(w, n).value, schema(n))
    {
      GetFits(x, n, schema);
      GetFits(w, n, schema);
      ContainsExactly(Get(w, n).value, Get(x, n).value, schema(n));
    }
    forall n: string | n !in x.params.Keys + w.params.Keys
      ensures Subset(Get(x, n).value, Get(w, n).value, schema(n))
    {
    }
  }

  /**
   The pyramid says that every native set's configurations all belong to one non-native set of its
   part, wherever no inclusion is misjudged or missed and the natives have no NUL range.
   */
  lemma PyramidMeansContainment(xs: seq<CapSet>, schema: Schema)
    requires AllTyped(xs, schema) && Decisive(xs, schema) && forall x <- xs :: x.preference == 100 ==> NulFree(x)
    ensures Pyramid(xs) <==>
              forall x <- xs | x.preference == 100 ::
                exists w <- xs :: w.preference != 100 && w.format == x.format && w.layer == x.layer
                  && forall c: Config | TypedConfig(c, schema) && Accepts(x, c) :: Accepts(w, c)
  {
    hide Included, Accepts, NulFree, Typed, Misjudged, Missed;
    forall x, w | x in xs && w in xs && x.preference == 100 && w.preference != 100
      ensures Included(x, w) <==>
                && x.format == w.format && x.layer == w.layer
                && forall c: Config | TypedConfig(c, schema) && Accepts(x, c) :: Accepts(w, c)
    {
      IncludedIsContainment(x, w, schema);
    }
  }

  /** Every native set lies inside a non-native one, away from the half-open corner. */
  predicate SoundPyramid(xs: seq<CapSet>) {
    forall x <- xs :: x.preference == NATIVE ==> exists w <- xs :: w.preference != NATIVE && CleanlyIn(x, w)
  }

  /** The alternative that covers a native set also meets `y`, and its result is at least as wide. */
  lemma CoveringAlternative(xs: seq<CapSet>, x: CapSet, y: ConSet, schema: Schema) returns (w: CapSet)
    requires AllTyped(xs, schema) && Typed(y, schema) && SoundPyramid(xs)
    requires x in xs && x.preference == NATIVE && SamePart(x, y) && Meets(x, y, schema)
    ensures w in xs && w.preference != NATIVE && SamePart(w, y) && Meets(w, y, schema)
    ensures Adjust(w, y).Ok? && Adjust(x, y).Ok?
    ensures forall c: Config | TypedConfig(c, schema) && Accepts(Adjust(x, y).value, c) :: Accepts(Adjust(w, y).value, c)
  {
    w :| w in xs && w.preference != NATIVE && CleanlyIn(x, w);
    IncludedMeets(x, w, y, schema);
    AdjustMeaning(x, y, schema);
    AdjustMeaning(w, y, schema);
    forall c: Config | TypedConfig(c, schema) && Accepts(Adjust(x, y).value, c)
      ensures Accepts(Adjust(w, y).value, c)
    {
      IncludedConfigs(x, w, schema, c);
    }
  }

  /** Skipping the natives under a sound pyramid never loses a match. */
  lemma SkipLosesNothing(xs: seq<CapSet>, y: ConSet, schema: Schema)
    requires AllTyped(xs, schema) && Typed(y, schema) && SoundPyramid(xs)
    ensures Search(xs, y, true).Ok? <==> Search(xs, y, false).Ok?
    ensures Search(xs, y, true).Ok? <==> Matchable(xs, y, schema)
  {
    SearchFinds(xs, y, true, schema);
    SearchFinds(xs, y, false, schema);
    if Search(xs, y, false).Ok? {
      var x :| x in xs && Eligible(x, y, false) && Meets(x, y, schema);
      if !Eligible(x, y, true) {
        var w := CoveringAlternative(xs, x, y, schema);
        assert Eligible(w, y, true);
      }
    }
  }

  // ---------------------------------------------------------------------------
  // Two searches compared
  // ---------------------------------------------------------------------------

  /** The values that `c` gives to `names` lie in their ranges. */
  ghost predicate AcceptsOn(s: ParamSet, c: Config, names: set<string>) {
    forall n <- names :: Denotes(Get(s, n).value, c(n))
  }

  /**
   Whatever values a set of `xs` admits for some of the parameters, a set of `ws` of the same
   part admits too, among the sets that take part for a constraint set of the same preference.
   */
  ghost predicate Covers(ws: seq<CapSet>, skip': bool, xs: seq<CapSet>, skip: bool, schema: Schema) {
    forall x <- xs, c: Config, names: set<string>, preference: int
      | TypedConfig(c, schema) && AcceptsOn(x, c, names) && Takes(x, preference, skip) ::
      exists w <- ws :: Takes(w, preference, skip') && SamePart(w, x) && AcceptsOn(w, c, names)
  }

  /** The range of one value. */
  function Point(v: Value): Range {
    Finite(v.Type(), None, None, Some({v}))
  }

  lemma PointOverlaps(r: Range, v: Value)
    ensures Fits(Point(v), v.Type()) && !Point(v).HasEnumException() && !Point(v).Inf?
    ensures Overlap(r, Point(v), v.Type()) <==> Denotes(r, v)
  {
    assert v in {v};
    assert Denotes(Point(v), v);
  }

  /** A constraint set for the part of `x` that asks for exactly the values of `c` at `names`. */
  ghost function PointConSet(names: set<string>, x: CapSet, c: Config, preference: int): ConSet {
    ParamSet(map n | n in names :: Param(Point(c(n)), false), preference, "", x.format, x.layer, None)
  }

  lemma PointTyped(names: set<string>, x: CapSet, c: Config, preference: int, schema: Schema)
    requires TypedConfig(c, schema)
    ensures Typed(PointConSet(names, x, c, preference), schema)
  {
    var y := PointConSet(names, x, c, preference);
    forall n | n in y.params.Keys
      ensures Fits(y.params[n].value, schema(n)) && !y.params[n].value.HasEnumException()
    {
      assert c(n).Type() == schema(n);
      PointOverlaps(y.params[n].value, c(n));
    }
  }

  lemma PointMeets(w: CapSet, names: set<string>, x: CapSet, c: Config, preference: int, schema: Schema)
    requires TypedConfig(c, schema)
    ensures Meets(w, PointConSet(names, x, c, preference), schema) <==> AcceptsOn(w, c, names)
  {
    var y := PointConSet(names, x, c, preference);
    assert y.params.Keys == names;
    forall n | n in names
      ensures !y.params[n].value.Inf?
      ensures Overlap(Get(w, n).value, y.params[n].value, schema(n)) <==> Denotes(Get(w, n).value, c(n))
    {
      assert c(n).Type() == schema(n);
      PointOverlaps(Get(w, n).value, c(n));
    }
  }

  /** A value that both sides admit, where there is one. */
  ghost function Common(x: CapSet, y: ConSet, schema: Schema): (c: Config)
    ensures TypedConfig(c, schema)
  {
    (n: string) =>
      if v: Value :| v.Type() == schema(n) && Denotes(Get(x, n).value, v) && Denotes(Get(y, n).value, v) then v
      else Sample(Inf(UNTYPED), schema(n))
  }

  function Constrained(y: ConSet): set<string> {
    set n <- y.params.Keys | !y.params[n].value.Inf?
  }

  /** To meet `y` is to admit values that `y` admits, wherever it constrains. */
  lemma MeetsByValues(x: CapSet, y: ConSet, schema: Schema)
    requires Meets(x, y, schema)
    ensures AcceptsOn(x, Common(x, y, schema), Constrained(y))
    ensures forall w: CapSet | AcceptsOn(w, Common(x, y, schema), Constrained(y)) :: Meets(w, y, schema)
  {
    var c := Common(x, y, schema);
    forall n | n in Constrained(y)
      ensures c(n).Type() == schema(n) && Denotes(Get(x, n).value, c(n)) && Denotes(y.params[n].value, c(n))
    {
      assert Overlap(Get(x, n).value, y.params[n].value, schema(n));
    }
  }

  /**
   One search matches whatever another matches exactly when it covers it: neither the order of
   the lists nor any particular constraint set enters into it.
   */
  lemma CoversExactly(ws: seq<CapSet>, skip': bool, xs: seq<CapSet>, skip: bool, schema: Schema)
    requires AllTyped(ws, schema) && AllTyped(xs, schema)
    ensures Covers(ws, skip', xs, skip, schema) <==>
              forall y: ConSet | Typed(y, schema) && Search(xs, y, skip).Ok? :: Search(ws, y, skip').Ok?
  {
    if Covers(ws, skip', xs, skip, schema) {
      forall y: ConSet | Typed(y, schema) && Search(xs, y, skip).Ok?
        ensures Search(ws, y, skip').Ok?
      {
        SearchFinds(xs, y, skip, schema);
        SearchFinds(ws, y, skip', schema);
        var x :| x in xs && Eligible(x, y, skip) && Meets(x, y, schema);
        MeetsByValues(x, y, schema);
        assert Takes(x, y.preference, skip);
      }
    }
    if forall y: ConSet | Typed(y, schema) && Search(xs, y, skip).Ok? :: Search(ws, y, skip').Ok? {
      forall x, c: Config, names: set<string>, preference: int
        | x in xs && TypedConfig(c, schema) && AcceptsOn(x, c, names) && Takes(x, preference, skip)
        ensures exists w <- ws :: Takes(w, preference, skip') && SamePart(w, x) && AcceptsOn(w, c, names)
      {
        var y := PointConSet(names, x, c, preference);
        PointTyped(names, x, c, preference, schema);
        PointMeets(x, names, x, c, preference, schema);
        SearchFinds(xs, y, skip, schema);
        SearchFinds(ws, y, skip', schema);
        assert Eligible(x, y, skip);
        var w :| w in ws && Eligible(w, y, skip') && Meets(w, y, schema);
        PointMeets(w, names, x, c, preference, schema);
      }
    }
  }

  /** Whatever values a native set admits for some parameters, a non-native set of its part admits. */
  ghost predicate NativesCovered(xs: seq<CapSet>, schema: Schema) {
    forall x <- xs, c: Config, names: set<string>
      | x.preference == NATIVE && TypedConfig(c, schema) && AcceptsOn(x, c, names) ::
      exists w <- xs :: w.preference != NATIVE && SamePart(w, x) && AcceptsOn(w, c, names)
  }

  lemma NativesCoveredIsCovers(xs: seq<CapSet>, schema: Schema)
    ensures NativesCovered(xs, schema) <==> Covers(xs, true, xs, false, schema)
  {
    if Covers(xs, true, xs, false, schema) {
      forall x, c: Config, names: set<string>
        | x in xs && x.preference == NATIVE && TypedConfig(c, schema) && AcceptsOn(x, c, names)
        ensures exists w <- xs :: w.preference != NATIVE && SamePart(w, x) && AcceptsOn(w, c, names)
      {
        assert Takes(x, 0, false);
        var w :| w in xs && Takes(w, 0, true) && SamePart(w, x) && AcceptsOn(w, c, names);
      }
    }
  }

  /**
   The skip is harmless, over all constraint sets, exactly when the natives are covered by the
   other sets, jointly and not only one by one.
   */
  lemma SkipHarmlessExactly(xs: seq<CapSet>, schema: Schema)
    requires AllTyped(xs, schema)
    ensures NativesCovered(xs, schema) <==>
              forall y: ConSet | Typed(y, schema) :: Search(xs, y, true).Ok? <==> Search(xs, y, false).Ok?
  {
    NativesCoveredIsCovers(xs, schema);
    CoversExactly(xs, true, xs, false, schema);
    forall y: ConSet | Typed(y, schema) && Search(xs, y, true).Ok?
      ensures Search(xs, y, false).Ok?
    {
      SearchFinds(xs, y, true, schema);
      SearchFinds(xs, y, false, schema);
      var x :| x in xs && Eligible(x, y, true) && Meets(x, y, schema);
      assert Eligible(x, y, false);
    }
  }

  /** Every configuration of a native set is one of a non-native set of the same part. */
  ghost predicate ConfigsCovered(xs: seq<CapSet>, schema: Schema) {
    forall x <- xs, c: Config | x.preference == NATIVE && TypedConfig(c, schema) && Accepts(x, c) ::
      exists w <- xs :: w.preference != NATIVE && SamePart(w, x) && Accepts(w, c)
  }

  function Names(xs: seq<ParamSet>): set<string> {
    set x <- xs, n <- x.params.Keys :: n
  }

  /** `c` at `names`, and values of `x` elsewhere. */
  ghost function Completed(x: CapSet, c: Config, names: set<string>, schema: Schema): Config {
    (n: string) => if n in names then c(n) else Sample(Get(x, n).value, schema(n))
  }

  /** Without NUL, whole configurations tell as much as parts of them. */
  lemma ConfigsCoveredSuffices(xs: seq<CapSet>, schema: Schema)
    requires AllTyped(xs, schema) && forall x <- xs :: x.preference == NATIVE ==> NulFree(x)
    ensures ConfigsCovered(xs, schema) <==> NativesCovered(xs, schema)
  {
    if ConfigsCovered(xs, schema) {
      forall x, c: Config, names: set<string>
        | x in xs && x.preference == NATIVE && TypedConfig(c, schema) && AcceptsOn(x, c, names)
        ensures exists w <- xs :: w.preference != NATIVE && SamePart(w, x) && AcceptsOn(w, c, names)
      {
        var c' := Completed(x, c, names, schema);
        CompletedAccepted(x, c, names, schema);
        var w :| w in xs && w.preference != NATIVE && SamePart(w, x) && Accepts(w, c');
        assert forall n <- names :: c'(n) == c(n) && Denotes(Get(w, n).value, c'(n));
      }
    }
    if NativesCovered(xs, schema) {
      forall x, c: Config | x in xs && x.preference == NATIVE && TypedConfig(c, schema) && Accepts(x, c)
        ensures exists w <- xs :: w.preference != NATIVE && SamePart(w, x) && Accepts(w, c)
      {
        assert AcceptsOn(x, c, Names(xs));
        var w :| w in xs && w.preference != NATIVE && SamePart(w, x) && AcceptsOn(w, c, Names(xs));
        assert forall n <- w.params.Keys :: n in Names(xs) && Denotes(Get(w, n).value, c(n));
      }
    }
  }

  lemma CompletedAccepted(x: CapSet, c: Config, names: set<string>, schema: Schema)
    requires Typed(x, schema) && NulFree(x) && TypedConfig(c, schema) && AcceptsOn(x, c, names)
    ensures TypedConfig(Completed(x, c, names, schema), schema) && Accepts(x, Completed(x, c, names, schema))
  {
    var c' := Completed(x, c, names, schema);
    forall n | n in x.params.Keys
      ensures Denotes(x.params[n].value, c'(n))
    {
      GetFits(x, n, schema);
      assert n in names ==> Denotes(Get(x, n).value, c(n));
    }
  }

  lemma CleanlyAcceptsOn(x: CapSet, w: CapSet, c: Config, names: set<string>, schema: Schema)
    requires Typed(x, schema) && Typed(w, schema) && CleanlyIn(x, w) && TypedConfig(c, schema) && AcceptsOn(x, c, names)
    ensures AcceptsOn(w, c, names)
  {
    forall n | n in names
      ensures Denotes(Get(w, n).value, c(n))
    {
      IncludedPointwise(x, w, schema, n);
      assert c(n).Type() == schema(n);
    }
  }

  /** A sound pyramid guarantees the cover. */
  lemma SoundPyramidCovers(xs: seq<CapSet>, schema: Schema)
    requires AllTyped(xs, schema) && SoundPyramid(xs)
    ensures NativesCovered(xs, schema)
  {
    forall x, c: Config, names: set<string>
      | x in xs && x.preference == NATIVE && TypedConfig(c, schema) && AcceptsOn(x, c, names)
      ensures exists w <- xs :: w.preference != NATIVE && SamePart(w, x) && AcceptsOn(w, c, names)
    {
      var w :| w in xs && w.preference != NATIVE && CleanlyIn(x, w);
      CleanlyAcceptsOn(x, w, c, names, schema);
    }
  }

  function Single(name: string, r: Range, preference: int): ParamSet {
    ParamSet(map[name := Param(r, false)], preference, "", None, None, None)
  }

  lemma SingleAdjusts(name: string, r: Range, v: Value, p: int, q: int)
    requires Fits(r, v.Type()) && !r.HasEnumException()
    ensures Adjust(Single(name, r, p), Single(name, Point(v), q)).Ok? <==> Denotes(r, v)
  {
    var x, y := Single(name, r, p), Single(name, Point(v), q);
    PointOverlaps(r, v);
    CapAdjustMeaning(x.params[name], y.params[name], v.Type());
    assert y.params.Keys == {name};
  }

  /** With one native set and one alternative, the skip leaves the alternative alone. */
  lemma SearchPair(x: CapSet, w: CapSet, y: ConSet)
    requires x.preference == NATIVE && w.preference != NATIVE && y.preference != NATIVE
    requires SamePart(x, y) && SamePart(w, y)
    ensures Search([x, w], y, true) == Adjust(w, y)
    ensures Adjust(x, y).Ok? ==> Search([x, w], y, false).Ok?
  {
    assert [x, w][1..] == [w] && [w][1..] == [];
    assert Search([w], y, true) == Adjust(w, y);
  }

  /** A native [..10], the alternative [5..], and a constraint to 0. */
  const BELOW10 := Single("w", Finite(INT, None, Some(10.0), None), NATIVE)
  const FROM5 := Single("w", Finite(INT, Some(5.0), None, None), 50)
  const ZERO := Single("w", Point(Whole(0)), 50)

  lemma HalfOpenInclusion()
    ensures Included(BELOW10, FROM5) && !CleanlyIn(BELOW10, FROM5) && CleanlyIn(BELOW10, BELOW10)
  {
    assert "w" in BELOW10.params.Keys + FROM5.params.Keys;
  }

  lemma HalfOpenAdjusts()
    ensures Adjust(BELOW10, ZERO).Ok? && Adjust(FROM5, ZERO).Raised?
  {
    SingleAdjusts("w", Finite(INT, None, Some(10.0), None), Whole(0), NATIVE, 50);
    SingleAdjusts("w", Finite(INT, Some(5.0), None, None), Whole(0), 50, 50);
  }

  /** A native set and one alternative that is wrongly said to include it. */
  lemma PyramidOfTwo(x: CapSet, w: CapSet)
    requires x.preference == NATIVE && w.preference != NATIVE && Included(x, w)
    ensures Pyramid([x, w]) && (SoundPyramid([x, w]) <==> CleanlyIn(x, w))
  {
    assert x in [x, w] && w in [x, w];
  }

  /** In the half-open corner the pyramid is affirmed and the skip drops a match. */
  lemma HalfOpenSkipWitness()
    ensures Pyramid([BELOW10, FROM5]) && !SoundPyramid([BELOW10, FROM5])
    ensures Search([BELOW10, FROM5], ZERO, true).Raised? && Search([BELOW10, FROM5], ZERO, false).Ok?
  {
    HalfOpenInclusion();
    HalfOpenAdjusts();
    PyramidOfTwo(BELOW10, FROM5);
    SearchPair(BELOW10, FROM5, ZERO);
  }

  // ---------------------------------------------------------------------------
  // Negotiation
  // ---------------------------------------------------------------------------

  /** The constraint sets of `ys` that some capability set of their part can meet, in order. */
  ghost function Matchables(xs: seq<CapSet>, ys: seq<ConSet>, schema: Schema): seq<ConSet> {
    if ys == [] then []
    else (if Matchable(xs, ys[0], schema) then [ys[0]] else []) + Matchables(xs, ys[1..], schema)
  }

  /**
   `r` is what `y` and the first capability set that can answer it agree on: with the preference of
   `y`, the other attributes of the set, and exactly the configurations of both.
   */
  ghost predicate Agreement(xs: seq<CapSet>, y: ConSet, skip: bool, r: CapSet, schema: Schema) {
    && r.preference == y.preference
    && exists i: nat :: FirstAnswer(xs, y, skip, i, schema)
         && r.title == xs[i].title && r.format == xs[i].format && r.layer == xs[i].layer && r.groups == xs[i].groups
         && forall c: Config | TypedConfig(c, schema) :: Accepts(r, c) <==> Accepts(xs[i], c) && Accepts(y, c)
  }

  ghost predicate Agreements(xs: seq<CapSet>, skip: bool, kept: seq<ConSet>, rs: seq<CapSet>, schema: Schema) {
    |rs| == |kept| && forall k | 0 <= k < |kept| :: Agreement(xs, kept[k], skip, rs[k], schema)
  }

  lemma AgreementsCons(xs: seq<CapSet>, skip: bool, y: ConSet, r: CapSet, kept: seq<ConSet>, rs: seq<CapSet>, schema: Schema)
    requires Agreement(xs, y, skip, r, schema) && Agreements(xs, skip, kept, rs, schema)
    ensures Agreements(xs, skip, [y] + kept, [r] + rs, schema)
  {
  }

  /** One constraint set is treated right: matched exactly when it can be, with an agreement. */
  ghost predicate SearchRight(xs: seq<CapSet>, y: ConSet, skip: bool, schema: Schema) {
    var r := Search(xs, y, skip);
    (r.Ok? <==> Matchable(xs, y, schema)) && (r.Ok? ==> Agreement(xs, y, skip, r.value, schema))
  }

  /** The constraint sets of `ys` for which the search succeeds, in order. */
  function Answered(xs: seq<CapSet>, ys: seq<ConSet>, skip: bool): seq<ConSet> {
    if ys == [] then [] else (if Search(xs, ys[0], skip).Ok? then [ys[0]] else []) + Answered(xs, ys[1..], skip)
  }

  /** Negotiation is sound on every list: each result is what its constraint set agreed on. */
  lemma {:induction false} NegotiationSound(xs: seq<CapSet>, ys: seq<ConSet>, skip: bool, schema: Schema)
    requires AllTyped(xs, schema) && AllTyped(ys, schema)
    ensures Agreements(xs, skip, Answered(xs, ys, skip), Matches(xs, ys, skip), schema)
  {
    if ys == [] {
    } else {
      assert ys[0] in ys && forall y <- ys[1..] :: y in ys;
      NegotiationSound(xs, ys[1..], skip, schema);
      var rs, kept := Matches(xs, ys[1..], skip), Answered(xs, ys[1..], skip);
      var first := Search(xs, ys[0], skip);
      if first.Ok? {
        SearchSound(xs, ys[0], skip, schema);
        AgreementsCons(xs, skip, ys[0], first.value, kept, rs, schema);
      } else {
        assert [] + rs == rs && [] + kept == kept;
      }
    }
  }

  lemma {:induction false} AnsweredAreMatchable(xs: seq<CapSet>, ys: seq<ConSet>, skip: bool, schema: Schema)
    requires forall y <- ys :: SearchRight(xs, y, skip, schema)
    ensures Answered(xs, ys, skip) == Matchables(xs, ys, schema)
  {
    if ys != [] {
      assert ys[0] in ys && forall y <- ys[1..] :: y in ys;
      AnsweredAreMatchable(xs, ys[1..], skip, schema);
    }
  }

  /** The guarded skip leaves out no native that the other sets do not cover. */
  ghost predicate GuardSound(xs: seq<CapSet>, schema: Schema) {
    Pyramid(xs) ==> NativesCovered(xs, schema)
  }

  /** One constraint set: the code matches it exactly when it can be met, if the guard is sound. */
  lemma SearchRightIfSound(xs: seq<CapSet>, y: ConSet, schema: Schema)
    requires AllTyped(xs, schema) && Typed(y, schema) && GuardSound(xs, schema)
    ensures SearchRight(xs, y, Pyramid(xs), schema)
  {
    SearchFinds(xs, y, false, schema);
    if Pyramid(xs) {
      SkipHarmlessExactly(xs, schema);
    }
    if Search(xs, y, Pyramid(xs)).Ok? {
      SearchSound(xs, y, Pyramid(xs), schema);
    }
  }

  /**
   Negotiation is sound and complete: one result for each constraint set that can be met, in
   the order and with the preference of `ys`, accepting exactly the configurations agreed on.
   */
  lemma NegotiationExact(xs: seq<CapSet>, ys: seq<ConSet>, schema: Schema)
    requires AllTyped(xs, schema) && AllTyped(ys, schema) && GuardSound(xs, schema)
    ensures Agreements(xs, Pyramid(xs), Matchables(xs, ys, schema), Matches(xs, ys, Pyramid(xs)), schema)
  {
    forall y | y in ys
      ensures SearchRight(xs, y, Pyramid(xs), schema)
    {
      SearchRightIfSound(xs, y, schema);
    }
    AnsweredAreMatchable(xs, ys, Pyramid(xs), schema);
    NegotiationSound(xs, ys, Pyramid(xs), schema);
  }

  /** A pyramid away from the half-open corner makes the guard sound; a caller can test for it. */
  lemma SoundPyramidSuffices(xs: seq<CapSet>, schema: Schema)
    requires AllTyped(xs, schema) && (Pyramid(xs) ==> SoundPyramid(xs))
    ensures GuardSound(xs, schema)
  {
    if Pyramid(xs) {
      SoundPyramidCovers(xs, schema);
    }
  }

  /** The result for a list of one constraint set shows whether it was treated right. */
  lemma OneAgreement(xs: seq<CapSet>, y: ConSet, skip: bool, schema: Schema)
    requires Agreements(xs, skip, Matchables(xs, [y], schema), Matches(xs, [y], skip), schema)
    ensures Search(xs, y, skip).Ok? <==> Matchable(xs, y, schema)
  {
    assert [y][1..] == [];
    assert Matches(xs, [y], skip) == Listed(Search(xs, y, skip)) + [];
    assert Matchables(xs, [y], schema) == (if Matchable(xs, y, schema) then [y] else []) + [];
  }

  ghost predicate NegotiatesRight(xs: seq<CapSet>, schema: Schema) {
    forall ys: seq<ConSet> | AllTyped(ys, schema) ::
      Agreements(xs, Pyramid(xs), Matchables(xs, ys, schema), Matches(xs, ys, Pyramid(xs)), schema)
  }

  /**
   For which capabilities negotiation is right, whatever is asked of them: exactly those on
   which the pyramid is denied, or affirmed and the natives are indeed covered.
   */
  lemma NegotiationRightExactly(xs: seq<CapSet>, schema: Schema)
    requires AllTyped(xs, schema)
    ensures GuardSound(xs, schema) <==> NegotiatesRight(xs, schema)
    ensures GuardSound(xs, schema) <==> forall y: ConSet | Typed(y, schema) :: SearchRight(xs, y, Pyramid(xs), schema)
  {
    if GuardSound(xs, schema) {
      forall ys: seq<ConSet> | AllTyped(ys, schema)
        ensures Agreements(xs, Pyramid(xs), Matchables(xs, ys, schema), Matches(xs, ys, Pyramid(xs)), schema)
      {
        NegotiationExact(xs, ys, schema);
      }
      forall y: ConSet | Typed(y, schema)
        ensures SearchRight(xs, y, Pyramid(xs), schema)
      {
        SearchRightIfSound(xs, y, schema);
      }
    }
    if NegotiatesRight(xs, schema) {
      forall y: ConSet | Typed(y, schema)
        ensures Search(xs, y, Pyramid(xs)).Ok? <==> Matchable(xs, y, schema)
      {
        assert AllTyped([y], schema);
        OneAgreement(xs, y, Pyramid(xs), schema);
      }
      GuardSoundIfRight(xs, schema);
    }
    if forall y: ConSet | Typed(y, schema) :: SearchRight(xs, y, Pyramid(xs), schema) {
      assert forall y: ConSet | Typed(y, schema) ::
          SearchRight(xs, y, Pyramid(xs), schema) && (Search(xs, y, Pyramid(xs)).Ok? <==> Matchable(xs, y, schema));
      GuardSoundIfRight(xs, schema);
    }
  }

  lemma GuardSoundIfRight(xs: seq<CapSet>, schema: Schema)
    requires AllTyped(xs, schema)
    requires forall y: ConSet | Typed(y, schema) :: Search(xs, y, Pyramid(xs)).Ok? <==> Matchable(xs, y, schema)
    ensures GuardSound(xs, schema)
  {
    if Pyramid(xs) {
      forall y: ConSet | Typed(y, schema)
        ensures Search(xs, y, true).Ok? <==> Search(xs, y, false).Ok?
      {
        assert Search(xs, y, Pyramid(xs)).Ok? <==> Matchable(xs, y, schema);
        SearchFinds(xs, y, false, schema);
        assert forall x <- xs :: Eligible(x, y, false) <==> SamePart(x, y);
      }
      SkipHarmlessExactly(xs, schema);
    }
  }

  // ---------------------------------------------------------------------------
  // Inclusion of lists
  // ---------------------------------------------------------------------------

  /** `x_caps <= y_caps` on well-typed lists. */
  predicate AllIncludedIn(xs: seq<CapSet>, ws: seq<CapSet>) {
    forall x <- xs :: exists w <- ws :: Included(x, w)
  }

  /** `x_capset <= y_caps`. */
  method CapSetIncludedInCaps(x: CapSet, ws: seq<CapSet>, ghost schema: Schema) returns (r: Result<bool>)
    ensures Typed(x, schema) && AllTyped(ws, schema) ==> r == Ok(exists w <- ws :: Included(x, w))
  {
    for j := 0 to |ws|
      invariant Typed(x, schema) && AllTyped(ws, schema) ==> forall w <- ws[..j] :: !Included(x, w)
    {
      var w := ws[j];
      assert ws[..j + 1] == ws[..j] + [w];
      if SamePart(w, x) {
        var included := CapSetIncluded(x, w);
        if Typed(x, schema) && Typed(w, schema) {
          IncludedIsVerdict(x, w, schema);
        }
        if included.Raised? {
          return Raised;
        }
        if included.value {
          return Ok(true);
        }
      }
    }
    assert ws[..|ws|] == ws;
    return Ok(false);
  }

  /** `x_caps <= y_caps`. */
  method CapsIncluded(xs: seq<CapSet>, ws: seq<CapSet>, ghost schema: Schema) returns (r: Result<bool>)
    ensures AllTyped(xs, schema) && AllTyped(ws, schema) ==> r == Ok(AllIncludedIn(xs, ws))
  {
    for i := 0 to |xs|
      invariant AllTyped(xs, schema) && AllTyped(ws, schema) ==> AllIncludedIn(xs[..i], ws)
    {
      assert xs[..i + 1] == xs[..i] + [xs[i]];
      var included := CapSetIncludedInCaps(xs[i], ws, schema);
      if included.Raised? {
        return Raised;
      }
      if !included.value {
        assert xs[i] in xs;
        return Ok(false);
      }
    }
    assert xs[..|xs|] == xs;
    return Ok(true);
  }

  /** Inclusion of lists in which no covering pair is affirmed in the half-open corner. */
  predicate CleanlyIncluded(xs: seq<CapSet>, ws: seq<CapSet>) {
    forall x <- xs :: exists w <- ws :: CleanlyIn(x, w)
  }

  lemma CleanlyInTransitive(x: CapSet, y: CapSet, z: CapSet, schema: Schema)
    requires Typed(x, schema) && Typed(y, schema) && Typed(z, schema)
    requires MixedFree(x) && MixedFree(y) && MixedFree(z)
    requires CleanlyIn(x, y) && CleanlyIn(y, z)
    ensures CleanlyIn(x, z)
  {
    IncludedTransitive(x, y, z, schema);
  }

  lemma CleanlyInReflexive(x: CapSet, schema: Schema)
    requires Typed(x, schema) && MixedFree(x)
    ensures CleanlyIn(x, x)
  {
    IncludedReflexive(x, schema);
  }

  /** Clean inclusion is inclusion, and reflexive ... */
  lemma CapsIncludedReflexive(xs: seq<CapSet>, schema: Schema)
    requires AllTyped(xs, schema) && forall x <- xs :: MixedFree(x)
    ensures AllIncludedIn(xs, xs) && CleanlyIncluded(xs, xs)
  {
    forall x | x in xs
      ensures exists w <- xs :: CleanlyIn(x, w)
    {
      CleanlyInReflexive(x, schema);
    }
    CleanlyIsIncluded(xs, xs);
  }

  lemma CleanlyIsIncluded(xs: seq<CapSet>, ws: seq<CapSet>)
    requires CleanlyIncluded(xs, ws)
    ensures AllIncludedIn(xs, ws)
  {
    forall x | x in xs
      ensures exists w <- ws :: Included(x, w)
    {
      var w :| w in ws && CleanlyIn(x, w);
    }
  }

  /** ... and transitive. */
  lemma CapsIncludedTransitive(xs: seq<CapSet>, ys: seq<CapSet>, zs: seq<CapSet>, schema: Schema)
    requires AllTyped(xs, schema) && AllTyped(ys, schema) && AllTyped(zs, schema)
    requires (forall x <- xs :: MixedFree(x)) && (forall y <- ys :: MixedFree(y)) && forall z <- zs :: MixedFree(z)
    requires CleanlyIncluded(xs, ys) && CleanlyIncluded(ys, zs)
    ensures CleanlyIncluded(xs, zs) && AllIncludedIn(xs, zs)
  {
    forall x | x in xs
      ensures exists z <- zs :: CleanlyIn(x, z)
    {
      var y :| y in ys && CleanlyIn(x, y);
      var z :| z in zs && CleanlyIn(y, z);
      CleanlyInTransitive(x, y, z, schema);
    }
    CleanlyIsIncluded(xs, zs);
  }

  /** Inclusion of lists: every configuration of one alternative is one of an alternative of the part. */
  lemma CapsIncludedConfigs(xs: seq<CapSet>, ws: seq<CapSet>, schema: Schema, x: CapSet, c: Config)
    requires AllTyped(xs, schema) && AllTyped(ws, schema) && CleanlyIncluded(xs, ws)
    requires x in xs && TypedConfig(c, schema) && Accepts(x, c)
    ensures exists w <- ws :: SamePart(w, x) && Accepts(w, c)
  {
    var w :| w in ws && CleanlyIn(x, w);
    IncludedConfigs(x, w, schema, c);
  }

  /** Widening keeps every match exactly when the wider search covers the narrower one. */
  lemma WideningExactly(xs: seq<CapSet>, ws: seq<CapSet>, schema: Schema)
    requires AllTyped(xs, schema) && AllTyped(ws, schema)
    ensures Covers(ws, Pyramid(ws), xs, Pyramid(xs), schema) <==>
              forall y: ConSet | Typed(y, schema) && Search(xs, y, Pyramid(xs)).Ok? :: Search(ws, y, Pyramid(ws)).Ok?
    ensures CleanlyIncluded(xs, ws) && GuardSound(ws, schema) ==> Covers(ws, Pyramid(ws), xs, Pyramid(xs), schema)
  {
    CoversExactly(ws, Pyramid(ws), xs, Pyramid(xs), schema);
    if CleanlyIncluded(xs, ws) && GuardSound(ws, schema) {
      forall y: ConSet | Typed(y, schema) && Search(xs, y, Pyramid(xs)).Ok?
        ensures Search(ws, y, Pyramid(ws)).Ok?
      {
        WideningKeepsMatches(xs, ws, y, schema);
      }
    }
  }

  /** A native set that matched loses its match to an alternative that turns the pyramid on. */
  lemma LostByWidening(x: CapSet, w: CapSet, y: ConSet)
    requires x.preference == NATIVE && SamePart(x, y) && CleanlyIn(x, x) && Adjust(x, y).Ok?
    requires Pyramid([x, w]) && Search([x, w], y, true).Raised?
    ensures CleanlyIncluded([x], [x, w])
    ensures Search([x], y, Pyramid([x])).Ok? && Search([x, w], y, Pyramid([x, w])).Raised?
  {
    assert x in [x] && !Covered(x, [x]) && !Pyramid([x]);
    assert x in [x, w];
  }

  /** In the half-open corner, adding an alternative to a native set loses its match. */
  lemma WideningWitness()
    ensures CleanlyIncluded([BELOW10], [BELOW10, FROM5])
    ensures Search([BELOW10], ZERO, Pyramid([BELOW10])).Ok?
    ensures Search([BELOW10, FROM5], ZERO, Pyramid([BELOW10, FROM5])).Raised?
  {
    HalfOpenInclusion();
    HalfOpenAdjusts();
    PyramidOfTwo(BELOW10, FROM5);
    SearchPair(BELOW10, FROM5, ZERO);
    LostByWidening(BELOW10, FROM5, ZERO);
  }

  /** Widening the capabilities never loses a match, whatever becomes of the pyramid flag. */
  lemma WideningKeepsMatches(xs: seq<CapSet>, ws: seq<CapSet>, y: ConSet, schema: Schema)
    requires AllTyped(xs, schema) && AllTyped(ws, schema) && Typed(y, schema)
    requires CleanlyIncluded(xs, ws) && GuardSound(ws, schema)
    requires Search(xs, y, Pyramid(xs)).Ok?
    ensures Search(ws, y, Pyramid(ws)).Ok?
  {
    SearchFinds(xs, y, Pyramid(xs), schema);
    var x :| x in xs && Eligible(x, y, Pyramid(xs)) && Meets(x, y, schema);
    var w :| w in ws && CleanlyIn(x, w);
    IncludedMeets(x, w, y, schema);
    SearchRightIfSound(ws, y, schema);
  }

  // ---------------------------------------------------------------------------
  // `<<` on lists
  // ---------------------------------------------------------------------------

  /** Set `i` is the first of the part of `y` that includes it. */
  predicate FirstEnclosing(xs: seq<CapSet>, y: ConSet, i: nat) {
    && i < |xs| && SamePart(y, xs[i]) && AllConstraintsIncluded(y, xs[i])
    && forall j | 0 <= j < i :: !(SamePart(y, xs[j]) && AllConstraintsIncluded(y, xs[j]))
  }

  lemma {:induction false} EncloseFinds(xs: seq<CapSet>, y: ConSet, schema: Schema)
    requires AllTyped(xs, schema) && Typed(y, schema)
    ensures if Enclose(xs, y).Ok? then exists i: nat :: FirstEnclosing(xs, y, i) && Enclose(xs, y) == Constrict(xs[i], y)
            else forall x <- xs :: !(SamePart(y, x) && AllConstraintsIncluded(y, x))
  {
    hide AllConstraintsIncluded, Constrict;
    if xs != [] {
      var x := xs[0];
      if SamePart(y, x) && AllConstraintsIncluded(y, x) {
        ConstrictIffIncluded(x, y, schema);
        assert FirstEnclosing(xs, y, 0);
      } else {
        assert forall w <- xs[1..] :: w in xs;
        EncloseFinds(xs[1..], y, schema);
        if Enclose(xs[1..], y).Ok? {
          var i: nat :| FirstEnclosing(xs[1..], y, i) && Enclose(xs[1..], y) == Constrict(xs[1..][i], y);
          assert forall j | 1 <= j < i + 1 :: xs[j] == xs[1..][j - 1];
          assert FirstEnclosing(xs, y, i + 1);
        }
      }
    }
  }

  /**
   What `<<` settles on: `<&` matches too unless `y` has a NUL constraint, and the result is an
   agreement with the chosen set exactly when nothing of that set was misjudged or NUL decides.
   */
  lemma EncloseExactly(xs: seq<CapSet>, y: ConSet, schema: Schema, i: nat)
    requires AllTyped(xs, schema) && Typed(y, schema) && FirstEnclosing(xs, y, i)
    ensures Enclose(xs, y) == Constrict(xs[i], y) && Enclose(xs, y).Ok?
    ensures NulFree(y) ==> Matchable(xs, y, schema)
    ensures NoneMisjudged(xs[i], y) || !NulFree(xs[i]) || !NulFree(y) <==>
              forall c: Config | TypedConfig(c, schema) :: Accepts(Enclose(xs, y).value, c) <==> Accepts(xs[i], c) && Accepts(y, c)
  {
    EncloseFinds(xs, y, schema);
    assert xs[i] in xs;
    var k: nat :| FirstEnclosing(xs, y, k) && Enclose(xs, y) == Constrict(xs[k], y);
    assert k == i;
    ConstrictIffIncluded(xs[i], y, schema);
    ConstrictRefinesAdjust(xs[i], y, schema);
    AdjustMeaning(xs[i], y, schema);
  }
}
