/**
 Whether the natives of a list are covered, decided on finitely many values: those at which some
 range of the list begins, ends or changes, and one between any two of them.
 */
module Covering {
  import opened Outcome
  import opened Ranges
  import opened CapSets
  import opened Negotiation

  // ---------------------------------------------------------------------------
  // Representative values
  // ---------------------------------------------------------------------------

  /** The bounds and listed numbers of a range. */
  function Marks(r: Range): set<real> {
    if !r.Finite? then {}
    else
      (if r.min.Some? then {r.min.value} else {})
      + (if r.max.Some? then {r.max.value} else {})
      + (if r.values.Some? then set v <- r.values.value | v.Numeric() :: v.Num() else {})
  }

  function Words(r: Range): set<string> {
    if !r.Finite? || r.values.None? then {} else set v <- r.values.value | v.Text? :: v.s
  }

  function AllMarks(rs: seq<Range>): set<real> {
    set r <- rs, p <- Marks(r) :: p
  }

  function AllWords(rs: seq<Range>): set<string> {
    set r <- rs, w <- Words(r) :: w
  }

  /** The marks, a number between any two, and numbers beyond them. */
  function Spread(marks: set<real>): set<real> {
    {0.0}
    + (set a <- marks, b <- marks :: (a + b) / 2.0)
    + (set a <- marks :: a - 1.0)
    + (set a <- marks :: a + 1.0)
  }

  function Run(k: nat): string {
    seq(k, _ => 'x')
  }

  /** The words, and more others than there are words. */
  function Spelled(words: set<string>): set<string> {
    words + set k | 0 <= k <= |words| :: Run(k)
  }

  /** Values of type `t` that stand for all others, as far as the ranges `rs` can tell. */
  function Representatives(rs: seq<Range>, t: RangeType): set<Value> {
    match t
    case UNTYPED => {}
    case BOOL => {Flag(true), Flag(false)}
    case STRING => set w <- Spelled(AllWords(rs)) :: Text(w)
    case _ => set x <- Spread(AllMarks(rs)) :: MakeNumber(t, x)
  }

  /** No mark tells `x` from `y`. */
  ghost predicate SameSide(marks: set<real>, x: real, y: real) {
    forall p <- marks :: (x < p <==> y < p) && (p < x <==> p < y)
  }

  /** The marks just below and just above `x`. */
  lemma {:induction false} Neighbours(marks: set<real>, x: real) returns (low: Option<real>, high: Option<real>)
    requires x !in marks
    ensures low.Some? ==> low.value in marks && low.value < x
    ensures high.Some? ==> high.value in marks && x < high.value
    ensures forall p <- marks :: if p < x then low.Some? && p <= low.value else high.Some? && high.value <= p
  {
    if p: real :| p in marks {
      low, high := Neighbours(marks - {p}, x);
      assert forall q <- marks :: q == p || q in marks - {p};
      if p < x {
        low := if low.Some? && p <= low.value then low else Some(p);
      } else {
        high := if high.Some? && high.value <= p then high else Some(p);
      }
    } else {
      low, high := None, None;
    }
  }

  lemma SpreadHas(marks: set<real>, a: real, b: real)
    requires a in marks && b in marks
    ensures (a + b) / 2.0 in Spread(marks) && a - 1.0 in Spread(marks) && a + 1.0 in Spread(marks)
  {
  }

  lemma NextIntegral(x: real)
    requires Integral(x)
    ensures Integral(x - 1.0) && Integral(x + 1.0)
  {
    var i := x.Floor;
    assert x - 1.0 == (i - 1) as real && x + 1.0 == (i + 1) as real;
  }

  lemma IntegralsApart(x: real, y: real)
    requires Integral(x) && Integral(y) && x < y
    ensures x + 1.0 <= y
  {
    assert x.Floor < y.Floor;
  }

  lemma NumberBetween(marks: set<real>, x: real, low: real, high: real, t: RangeType) returns (y: real)
    requires Numeric(t) && (t == INT ==> Integral(x) && forall p <- marks :: Integral(p))
    requires low in marks && high in marks && low < x < high && forall p <- marks :: p <= low || high <= p
    ensures y in Spread(marks) && low < y < high && (t == INT ==> Integral(y))
  {
    SpreadHas(marks, low, high);
    if t == INT {
      NextIntegral(low);
      IntegralsApart(low, x);
      y := low + 1.0;
    } else {
      y := (low + high) / 2.0;
    }
  }

  /** A number of the spread that no mark tells from `x`; an integer when the marks and `x` are. */
  lemma NumberFor(marks: set<real>, x: real, t: RangeType) returns (y: real)
    requires Numeric(t) && (t == INT ==> Integral(x) && forall p <- marks :: Integral(p))
    ensures y in Spread(marks) && SameSide(marks, x, y) && (t == INT ==> Integral(y))
  {
    if x in marks {
      SpreadHas(marks, x, x);
      y := x;
    } else {
      var low, high := Neighbours(marks, x);
      if low.Some? && high.Some? {
        y := NumberBetween(marks, x, low.value, high.value, t);
      } else if low.Some? {
        SpreadHas(marks, low.value, low.value);
        y := low.value + 1.0;
        if t == INT {
          NextIntegral(low.value);
        }
      } else if high.Some? {
        SpreadHas(marks, high.value, high.value);
        y := high.value - 1.0;
        if t == INT {
          NextIntegral(high.value);
        }
      } else {
        y := 0.0;
      }
    }
  }

  lemma {:induction false} RunsCounted(m: nat)
    ensures |set k | 0 <= k < m :: Run(k)| == m
  {
    if m > 0 {
      RunsCounted(m - 1);
      var before := set k | 0 <= k < m - 1 :: Run(k);
      assert (set k | 0 <= k < m :: Run(k)) == before + {Run(m - 1)};
      assert Run(m - 1) !in before by {
        assert forall k | 0 <= k < m - 1 :: |Run(k)| == k;
        assert |Run(m - 1)| == m - 1;
      }
    }
  }

  lemma {:induction false} SubsetCounted<T>(a: set<T>, b: set<T>)
    requires a <= b
    ensures |a| <= |b|
  {
    if a != {} {
      var x :| x in a;
      SubsetCounted(a - {x}, b - {x});
    }
  }

  lemma UnusedWord(words: set<string>) returns (w: string)
    ensures w in Spelled(words) && w !in words
  {
    var runs := set k | 0 <= k < |words| + 1 :: Run(k);
    RunsCounted(|words| + 1);
    if runs <= words {
      SubsetCounted(runs, words);
    }
    w :| w in runs && w !in words;
  }

  /** The ranges cannot tell `v` from `u`. */
  ghost predicate Alike(rs: seq<Range>, v: Value, u: Value) {
    forall r <- rs :: Denotes(r, v) <==> Denotes(r, u)
  }

  lemma NumbersAlike(r: Range, t: RangeType, marks: set<real>, v: Value, u: Value)
    requires Fits(r, t) && Numeric(t) && v.Type() == t && u.Type() == t
    requires Marks(r) <= marks && SameSide(marks, v.Num(), u.Num())
    ensures Denotes(r, v) <==> Denotes(r, u)
  {
    if r.Finite? && r.values.Some? {
      assert forall w <- r.values.value :: w.Type() == t && w.Num() in marks;
      assert v in r.values.value ==> v.Num() == u.Num() && v == u;
      assert u in r.values.value ==> v.Num() == u.Num() && v == u;
    }
  }

  lemma MarksOfOne(rs: seq<Range>, r: Range)
    requires r in rs
    ensures Marks(r) <= AllMarks(rs) && Words(r) <= AllWords(rs)
  {
    hide Marks, Words;
    forall p | p in Marks(r)
      ensures p in AllMarks(rs)
    {
    }
    forall w | w in Words(r)
      ensures w in AllWords(rs)
    {
    }
  }

  lemma MarksIntegral(r: Range)
    requires Fits(r, INT)
    ensures forall p <- Marks(r) :: Integral(p)
  {
    if r.Finite? && r.values.Some? {
      assert forall w <- r.values.value :: w.Type() == r.kind;
    }
  }

  lemma AllMarksIntegral(rs: seq<Range>)
    requires forall r <- rs :: Fits(r, INT)
    ensures forall p <- AllMarks(rs) :: Integral(p)
  {
    hide Marks, Fits, Integral;
    forall p | p in AllMarks(rs)
      ensures Integral(p)
    {
      var r :| r in rs && p in Marks(r);
      MarksIntegral(r);
    }
  }

  lemma NumberAlike(rs: seq<Range>, t: RangeType, v: Value) returns (u: Value)
    requires (forall r <- rs :: Fits(r, t)) && Numeric(t) && v.Type() == t
    ensures u in Representatives(rs, t) && u.Type() == t && Alike(rs, v, u)
  {
    hide Marks, AllMarks, Words, AllWords, Spread, Fits, Denotes, SameSide;
    if t == INT {
      AllMarksIntegral(rs);
    }
    var y := NumberFor(AllMarks(rs), v.Num(), t);
    u := MakeNumber(t, y);
    forall r | r in rs
      ensures Denotes(r, v) <==> Denotes(r, u)
    {
      MarksOfOne(rs, r);
      NumbersAlike(r, t, AllMarks(rs), v, u);
    }
  }

  lemma WordAlike(rs: seq<Range>, v: Value) returns (u: Value)
    requires (forall r <- rs :: Fits(r, STRING)) && v.Text?
    ensures u in Representatives(rs, STRING) && u.Type() == STRING && Alike(rs, v, u)
  {
    hide Marks, AllMarks, AllWords;
    if v.s in AllWords(rs) {
      u := v;
    } else {
      var w := UnusedWord(AllWords(rs));
      u := Text(w);
      forall r | r in rs
        ensures Denotes(r, v) <==> Denotes(r, u)
      {
        MarksOfOne(rs, r);
      }
    }
  }

  /** Every value has a representative that the ranges cannot tell from it. */
  lemma Represented(rs: seq<Range>, t: RangeType, v: Value) returns (u: Value)
    requires (forall r <- rs :: Fits(r, t)) && v.Type() == t
    ensures u in Representatives(rs, t) && u.Type() == t && Alike(rs, v, u)
  {
    hide Fits, Denotes;
    if v.Flag? {
      u := v;
    } else if v.Text? {
      u := WordAlike(rs, v);
    } else {
      u := NumberAlike(rs, t, v);
    }
  }

  lemma RepresentativesTyped(rs: seq<Range>, t: RangeType)
    ensures forall u <- Representatives(rs, t) :: u.Type() == t
  {
  }

  // ---------------------------------------------------------------------------
  // The test
  // ---------------------------------------------------------------------------

  function RangesAt(xs: seq<CapSet>, n: string): seq<Range> {
    seq(|xs|, i requires 0 <= i < |xs| => Get(xs[i], n).value)
  }

  function Admitting(ws: seq<CapSet>, n: string, v: Value): seq<CapSet> {
    if ws == [] then []
    else (if Denotes(Get(ws[0], n).value, v) then [ws[0]] else []) + Admitting(ws[1..], n, v)
  }

  /**
   Whatever representative values `x` admits for some of `names`, a set of `ws` admits: each
   name is left open, or given a value that thins out `ws`.
   */
  predicate CoveredBy(xs: seq<CapSet>, x: CapSet, ws: seq<CapSet>, names: seq<string>, schema: Schema)
    decreases names
  {
    if names == [] then ws != []
    else
      && CoveredBy(xs, x, ws, names[1..], schema)
      && forall u <- Representatives(RangesAt(xs, names[0]), schema(names[0])) ::
           Denotes(Get(x, names[0]).value, u) ==>
             CoveredBy(xs, x, Admitting(ws, names[0], u), names[1..], schema)
  }

  /** The non-native sets of the part of `x`. */
  function Alternatives(xs: seq<CapSet>, x: CapSet): seq<CapSet> {
    if xs == [] then []
    else (if xs[0].preference != NATIVE && SamePart(xs[0], x) then [xs[0]] else []) + Alternatives(xs[1..], x)
  }

  predicate CoverHolds(xs: seq<CapSet>, names: seq<string>, schema: Schema) {
    forall x <- xs :: x.preference == NATIVE ==> CoveredBy(xs, x, Alternatives(xs, x), names, schema)
  }

  // ---------------------------------------------------------------------------
  // The test decides the cover
  // ---------------------------------------------------------------------------

  ghost predicate Distinct(names: seq<string>) {
    forall i, j | 0 <= i < j < |names| :: names[i] != names[j]
  }

  function Members(names: seq<string>): set<string> {
    set n <- names
  }

  /** Whatever values `x` admits for some of `names`, a set of `ws` admits. */
  ghost predicate CoveredOn(x: CapSet, ws: seq<CapSet>, names: seq<string>, schema: Schema) {
    forall c: Config, chosen: set<string> | TypedConfig(c, schema) && chosen <= Members(names) && AcceptsOn(x, c, chosen) ::
      exists w <- ws :: AcceptsOn(w, c, chosen)
  }

  lemma {:induction false} AdmittingMembers(ws: seq<CapSet>, n: string, v: Value)
    ensures forall w: CapSet :: w in Admitting(ws, n, v) <==> w in ws && Denotes(Get(w, n).value, v)
  {
    if ws != [] {
      AdmittingMembers(ws[1..], n, v);
      assert forall w :: w in ws <==> w == ws[0] || w in ws[1..];
    }
  }

  lemma {:induction false} AlternativesMembers(xs: seq<CapSet>, x: CapSet)
    ensures forall w: CapSet :: w in Alternatives(xs, x) <==> w in xs && w.preference != NATIVE && SamePart(w, x)
  {
    if xs != [] {
      AlternativesMembers(xs[1..], x);
      assert forall w :: w in xs <==> w == xs[0] || w in xs[1..];
    }
  }

  /** A value at `n` has a representative for all sets of the list. */
  lemma RepresentedAt(xs: seq<CapSet>, n: string, v: Value, schema: Schema) returns (u: Value)
    requires AllTyped(xs, schema) && v.Type() == schema(n)
    ensures u in Representatives(RangesAt(xs, n), schema(n)) && u.Type() == schema(n)
    ensures forall x <- xs :: Denotes(Get(x, n).value, v) <==> Denotes(Get(x, n).value, u)
  {
    var rs := RangesAt(xs, n);
    forall r | r in rs
      ensures Fits(r, schema(n))
    {
      var i :| 0 <= i < |rs| && rs[i] == r;
      GetFits(xs[i], n, schema);
    }
    u := Represented(rs, schema(n), v);
    forall x | x in xs
      ensures Denotes(Get(x, n).value, v) <==> Denotes(Get(x, n).value, u)
    {
      var i :| 0 <= i < |xs| && xs[i] == x;
      assert rs[i] in rs;
    }
  }

  lemma MembersSplit(names: seq<string>)
    requires names != [] && Distinct(names)
    ensures Members(names) == {names[0]} + Members(names[1..]) && names[0] !in Members(names[1..]) && Distinct(names[1..])
  {
  }

  /** `c` with `v` at `n`. */
  ghost function With(c: Config, n: string, v: Value): Config {
    (m: string) => if m == n then v else c(m)
  }

  lemma WithAccepts(s: CapSet, c: Config, n: string, v: Value, chosen: set<string>)
    requires n !in chosen
    ensures AcceptsOn(s, With(c, n, v), chosen + {n}) <==> AcceptsOn(s, c, chosen) && Denotes(Get(s, n).value, v)
  {
    if AcceptsOn(s, With(c, n, v), chosen + {n}) {
      assert forall m <- chosen :: m in chosen + {n} && Denotes(Get(s, m).value, With(c, n, v)(m));
      assert n in chosen + {n};
    }
  }

  /** Giving the first name the value `u` thins out the sets that remain. */
  lemma CoveredOnWith(x: CapSet, ws: seq<CapSet>, names: seq<string>, u: Value, schema: Schema)
    requires names != [] && Distinct(names) && CoveredOn(x, ws, names, schema)
    requires u.Type() == schema(names[0]) && Denotes(Get(x, names[0]).value, u)
    ensures CoveredOn(x, Admitting(ws, names[0], u), names[1..], schema)
  {
    var n, rest := names[0], names[1..];
    MembersSplit(names);
    AdmittingMembers(ws, n, u);
    forall c: Config, chosen: set<string> | TypedConfig(c, schema) && chosen <= Members(rest) && AcceptsOn(x, c, chosen)
      ensures exists w <- Admitting(ws, n, u) :: AcceptsOn(w, c, chosen)
    {
      WithAccepts(x, c, n, u, chosen);
      assert TypedConfig(With(c, n, u), schema) && chosen + {n} <= Members(names);
      var w :| w in ws && AcceptsOn(w, With(c, n, u), chosen + {n});
      WithAccepts(w, c, n, u, chosen);
    }
  }

  /** One choice of values, once the rest of the names is decided. */
  lemma CoveredOnStep(xs: seq<CapSet>, x: CapSet, ws: seq<CapSet>, names: seq<string>, schema: Schema, c: Config, chosen: set<string>)
    requires AllTyped(xs, schema) && x in xs && (forall w <- ws :: w in xs) && names != [] && Distinct(names)
    requires CoveredOn(x, ws, names[1..], schema)
    requires forall u <- Representatives(RangesAt(xs, names[0]), schema(names[0])) ::
               Denotes(Get(x, names[0]).value, u) ==> CoveredOn(x, Admitting(ws, names[0], u), names[1..], schema)
    requires TypedConfig(c, schema) && chosen <= Members(names) && AcceptsOn(x, c, chosen)
    ensures exists w <- ws :: AcceptsOn(w, c, chosen)
  {
    var n := names[0];
    MembersSplit(names);
    if n in chosen {
      var u := RepresentedAt(xs, n, c(n), schema);
      AdmittingMembers(ws, n, u);
      var others := chosen - {n};
      assert AcceptsOn(x, c, others);
      var w :| w in Admitting(ws, n, u) && AcceptsOn(w, c, others);
      assert AcceptsOn(w, c, chosen);
    }
  }

  lemma {:induction false} CoveredByDecides(xs: seq<CapSet>, x: CapSet, ws: seq<CapSet>, names: seq<string>, schema: Schema)
    requires AllTyped(xs, schema) && x in xs && (forall w <- ws :: w in xs) && Distinct(names)
    ensures CoveredBy(xs, x, ws, names, schema) <==> CoveredOn(x, ws, names, schema)
    decreases names
  {
    if names == [] {
      CoveredOnNothing(x, ws, schema);
    } else {
      var n, rest := names[0], names[1..];
      MembersSplit(names);
      CoveredByDecides(xs, x, ws, rest, schema);
      RepresentativesTyped(RangesAt(xs, n), schema(n));
      forall u | u in Representatives(RangesAt(xs, n), schema(n))
        ensures CoveredBy(xs, x, Admitting(ws, n, u), rest, schema) <==> CoveredOn(x, Admitting(ws, n, u), rest, schema)
      {
        AdmittingMembers(ws, n, u);
        CoveredByDecides(xs, x, Admitting(ws, n, u), rest, schema);
      }
      if CoveredBy(xs, x, ws, names, schema) {
        forall c: Config, chosen: set<string> | TypedConfig(c, schema) && chosen <= Members(names) && AcceptsOn(x, c, chosen)
          ensures exists w <- ws :: AcceptsOn(w, c, chosen)
        {
          CoveredOnStep(xs, x, ws, names, schema, c, chosen);
        }
      }
      if CoveredOn(x, ws, names, schema) {
        forall u | u in Representatives(RangesAt(xs, n), schema(n)) && Denotes(Get(x, n).value, u)
          ensures CoveredOn(x, Admitting(ws, n, u), rest, schema)
        {
          CoveredOnWith(x, ws, names, u, schema);
        }
        assert CoveredOn(x, ws, rest, schema);
      }
    }
  }

  lemma CoveredOnNothing(x: CapSet, ws: seq<CapSet>, schema: Schema)
    ensures CoveredOn(x, ws, [], schema) <==> ws != []
  {
    var c: Config := Common(x, x, schema);
    assert AcceptsOn(x, c, {});
    if CoveredOn(x, ws, [], schema) {
      var w :| w in ws && AcceptsOn(w, c, {});
    }
    if ws != [] {
      forall c: Config, chosen: set<string> | TypedConfig(c, schema) && chosen <= Members([]) && AcceptsOn(x, c, chosen)
        ensures exists w <- ws :: AcceptsOn(w, c, chosen)
      {
        assert ws[0] in ws && AcceptsOn(ws[0], c, chosen);
      }
    }
  }

  /** Names that the list does not know decide nothing. */
  lemma NamedPart(s: CapSet, c: Config, chosen: set<string>, names: seq<string>)
    requires s.params.Keys <= Members(names)
    ensures AcceptsOn(s, c, chosen) <==> AcceptsOn(s, c, chosen * Members(names))
  {
    if AcceptsOn(s, c, chosen * Members(names)) {
      forall n | n in chosen
        ensures Denotes(Get(s, n).value, c(n))
      {
        assert n in s.params ==> n in chosen * Members(names);
      }
    }
  }

  lemma CoveredOnAll(xs: seq<CapSet>, x: CapSet, names: seq<string>, schema: Schema)
    requires x in xs && x.preference == NATIVE && Names(xs) <= Members(names)
    ensures CoveredOn(x, Alternatives(xs, x), names, schema) <==>
              forall c: Config, chosen: set<string> | TypedConfig(c, schema) && AcceptsOn(x, c, chosen) ::
                exists w <- xs :: w.preference != NATIVE && SamePart(w, x) && AcceptsOn(w, c, chosen)
  {
    AlternativesMembers(xs, x);
    assert forall w <- xs :: w.params.Keys <= Members(names);
    if CoveredOn(x, Alternatives(xs, x), names, schema) {
      forall c: Config, chosen: set<string> | TypedConfig(c, schema) && AcceptsOn(x, c, chosen)
        ensures exists w <- xs :: w.preference != NATIVE && SamePart(w, x) && AcceptsOn(w, c, chosen)
      {
        NamedPart(x, c, chosen, names);
        var w :| w in Alternatives(xs, x) && AcceptsOn(w, c, chosen * Members(names));
        NamedPart(w, c, chosen, names);
      }
    }
  }

  /** The test on representative values decides whether the natives are covered. */
  lemma CoverDecided(xs: seq<CapSet>, names: seq<string>, schema: Schema)
    requires AllTyped(xs, schema) && Distinct(names) && Names(xs) <= Members(names)
    ensures CoverHolds(xs, names, schema) <==> NativesCovered(xs, schema)
  {
    forall x | x in xs && x.preference == NATIVE
      ensures CoveredBy(xs, x, Alternatives(xs, x), names, schema) <==>
                forall c: Config, chosen: set<string> | TypedConfig(c, schema) && AcceptsOn(x, c, chosen) ::
                  exists w <- xs :: w.preference != NATIVE && SamePart(w, x) && AcceptsOn(w, c, chosen)
    {
      AlternativesMembers(xs, x);
      CoveredByDecides(xs, x, Alternatives(xs, x), names, schema);
      CoveredOnAll(xs, x, names, schema);
    }
  }

  /** For which capabilities negotiation is right, as a test that a caller can make before it. */
  lemma NegotiationRightDecided(xs: seq<CapSet>, names: seq<string>, schema: Schema)
    requires AllTyped(xs, schema) && Distinct(names) && Names(xs) <= Members(names)
    ensures NegotiatesRight(xs, schema) <==> (Pyramid(xs) ==> CoverHolds(xs, names, schema))
  {
    CoverDecided(xs, names, schema);
    NegotiationRightExactly(xs, schema);
  }
}
