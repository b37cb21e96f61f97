/**
 `Caps.normalize` and `Cons.normalize` (caps/MatroxCCF.py): complete or restrict the layers of
 each format, and drop the parameters outside a format's namespace.
 */
module Normalization {
  import opened Outcome
  import opened CapSets

  const AUDIO := "urn:x-nmos:format:audio"
  const VIDEO := "urn:x-nmos:format:video"
  const DATA := "urn:x-nmos:format:data"

  /** The layer count of each format; None when not given. */
  datatype Layers = Layers(audio: Option<int>, video: Option<int>, data: Option<int>)
  {
    predicate Hierarchical() {
      audio.Some? || video.Some? || data.Some?
    }
  }

  datatype Namespaces = Namespaces(trunk: Option<set<string>>, audio: Option<set<string>>,
                                   video: Option<set<string>>, data: Option<set<string>>)

  function Count(n: Option<int>): int {
    if n.Some? then n.value else 0
  }

  // ---------------------------------------------------------------------------
  // Specification
  // ---------------------------------------------------------------------------

  predicate Allowed(n: string, names: Option<set<string>>) {
    names.Some? ==> n in names.value
  }

  function Prune(s: ParamSet, names: Option<set<string>>): ParamSet {
    s.(params := map n | n in s.params && Allowed(n, names) :: s.params[n])
  }

  /** The namespace of a format; sets of any other format keep every parameter. */
  function NamesOf(format: Option<string>, ns: Namespaces): Option<set<string>> {
    if format == Some(AUDIO) then ns.audio
    else if format == Some(VIDEO) then ns.video
    else if format == Some(DATA) then ns.data
    else None
  }

  function PruneParts(xs: seq<ParamSet>, ns: Namespaces): seq<ParamSet> {
    seq(|xs|, i requires 0 <= i < |xs| => Prune(xs[i], NamesOf(xs[i].format, ns)))
  }

  function PruneTrunks(xs: seq<ParamSet>, ns: Namespaces): seq<ParamSet> {
    seq(|xs|, i requires 0 <= i < |xs| => Prune(xs[i], ns.trunk))
  }

  predicate IsTrunk(s: ParamSet) {
    s.format.None? && s.layer.None?
  }

  predicate IsLayer(s: ParamSet, fmt: string, k: int) {
    s.format == Some(fmt) && s.layer == Some(k)
  }

  predicate TooHigh(s: ParamSet, fmt: string, count: int) {
    s.format == Some(fmt) && s.layer.Some? && s.layer.value >= count
  }

  predicate HasTrunk(xs: seq<ParamSet>) {
    exists x <- xs :: IsTrunk(x)
  }

  predicate HasLayer(xs: seq<ParamSet>, fmt: string, k: int) {
    exists x <- xs :: IsLayer(x, fmt, k)
  }

  const TRUNK := ParamSet(map[], 100, "Trunk", None, None, None)

  function NewLayer(fmt: string, k: nat): ParamSet {
    ParamSet(map[], 100, fmt + Decimal(k), Some(fmt), Some(k), None)
  }

  function Without(xs: seq<ParamSet>, fmt: string): seq<ParamSet> {
    if xs == [] then []
    else (if xs[0].format == Some(fmt) then [] else [xs[0]]) + Without(xs[1..], fmt)
  }

  /** `xs` with the missing layers of 0..count-1 appended, after those below `k` are present. */
  function AddLayers(xs: seq<ParamSet>, fmt: string, k: nat, count: int): seq<ParamSet>
    decreases count - k
  {
    if k >= count then xs
    else AddLayers(if HasLayer(xs, fmt, k) then xs else xs + [NewLayer(fmt, k)], fmt, k + 1, count)
  }

  function EnsureLayers(xs: seq<ParamSet>, fmt: string, count: int): Result<seq<ParamSet>> {
    if count <= 0 then Ok(Without(xs, fmt))
    else
      var ys := AddLayers(xs, fmt, 0, count);
      if exists y <- ys :: TooHigh(y, fmt, count) then Raised else Ok(ys)
  }

  function WithTrunk(xs: seq<ParamSet>): seq<ParamSet> {
    if HasTrunk(xs) then xs else xs + [TRUNK]
  }

  function AllFormats(xs: seq<ParamSet>, layers: Layers): Result<seq<ParamSet>> {
    var a :- EnsureLayers(xs, AUDIO, Count(layers.audio));
    var v :- EnsureLayers(a, VIDEO, Count(layers.video));
    EnsureLayers(v, DATA, Count(layers.data))
  }

  function Normalize(xs: seq<ParamSet>, filtered: bool, layers: Layers, ns: Namespaces): Result<seq<ParamSet>> {
    if filtered then Raised
    else if !layers.Hierarchical() then
      if exists x <- xs :: x.format.Some? || x.layer.Some? then Raised else Ok(PruneTrunks(xs, ns))
    else
      var ys :- AllFormats(WithTrunk(xs), layers);
      Ok(PruneParts(ys, ns))
  }

  // ---------------------------------------------------------------------------
  // What normalization promises
  // ---------------------------------------------------------------------------

  /** A disabled format has no set; an enabled one has every layer and none beyond. */
  predicate FormatNormal(xs: seq<ParamSet>, fmt: string, count: int) {
    if count <= 0 then forall x <- xs :: x.format != Some(fmt)
    else (forall k | 0 <= k < count :: HasLayer(xs, fmt, k)) && forall x <- xs :: !TooHigh(x, fmt, count)
  }

  predicate Normal(xs: seq<ParamSet>, layers: Layers, ns: Namespaces) {
    && HasTrunk(xs)
    && FormatNormal(xs, AUDIO, Count(layers.audio))
    && FormatNormal(xs, VIDEO, Count(layers.video))
    && FormatNormal(xs, DATA, Count(layers.data))
    && forall x <- xs, n <- x.params.Keys :: Allowed(n, NamesOf(x.format, ns))
  }

  /** A set as normalization adds it: of preference 100, constraining nothing. */
  predicate Added(s: ParamSet) {
    s.params == map[] && s.preference == 100 && s.groups.None?
  }

  /** `ys` is `kept` followed by added sets. */
  predicate Grows(kept: seq<ParamSet>, ys: seq<ParamSet>) {
    kept <= ys && forall y <- ys[|kept|..] :: Added(y)
  }

  /** The members of `xs` and `ys` outside format `fmt` are the same. */
  ghost predicate SameElsewhere(xs: seq<ParamSet>, ys: seq<ParamSet>, fmt: string) {
    forall x: ParamSet | x.format != Some(fmt) :: x in xs <==> x in ys
  }

  lemma {:induction false} WithoutMembers(xs: seq<ParamSet>, fmt: string)
    ensures forall x: ParamSet :: x in Without(xs, fmt) <==> x in xs && x.format != Some(fmt)
    ensures (forall x <- xs :: x.format != Some(fmt)) ==> Without(xs, fmt) == xs
  {
    if xs == [] {
    } else {
      WithoutMembers(xs[1..], fmt);
      assert xs == [xs[0]] + xs[1..];
    }
  }

  lemma WithoutOne(x: ParamSet, fmt: string)
    ensures Without([x], fmt) == if x.format == Some(fmt) then [] else [x]
  {
  }

  lemma WithoutNone(fmt: string)
    ensures Without([], fmt) == []
  {
  }

  lemma {:induction false} WithoutAppend(xs: seq<ParamSet>, ys: seq<ParamSet>, fmt: string)
    ensures Without(xs + ys, fmt) == Without(xs, fmt) + Without(ys, fmt)
  {
    if xs == [] {
      assert xs + ys == ys;
    } else {
      assert (xs + ys)[1..] == xs[1..] + ys;
      WithoutAppend(xs[1..], ys, fmt);
    }
  }

  lemma NewLayerKeeps(xs: seq<ParamSet>, fmt: string, k: nat)
    ensures HasLayer(xs + [NewLayer(fmt, k)], fmt, k)
    ensures forall i | HasLayer(xs, fmt, i) :: HasLayer(xs + [NewLayer(fmt, k)], fmt, i)
  {
    hide Decimal;
    var zs := xs + [NewLayer(fmt, k)];
    assert NewLayer(fmt, k) in zs && IsLayer(NewLayer(fmt, k), fmt, k);
    forall i | HasLayer(xs, fmt, i)
      ensures HasLayer(zs, fmt, i)
    {
      var x :| x in xs && IsLayer(x, fmt, i);
      assert x in zs;
    }
  }

  lemma {:induction false} AddLayersResult(xs: seq<ParamSet>, fmt: string, k: nat, count: int)
    requires forall i | 0 <= i < k && i < count :: HasLayer(xs, fmt, i)
    ensures var ys := AddLayers(xs, fmt, k, count);
            && Grows(xs, ys)
            && (forall i | 0 <= i < count :: HasLayer(ys, fmt, i))
            && (forall y <- ys[|xs|..] :: y.format == Some(fmt) && y.layer.Some? && y.layer.value < count)
    ensures (forall i | k <= i < count :: HasLayer(xs, fmt, i)) ==> AddLayers(xs, fmt, k, count) == xs
    decreases count - k
  {
    hide Decimal, HasLayer;
    if k < count {
      var zs := if HasLayer(xs, fmt, k) then xs else xs + [NewLayer(fmt, k)];
      NewLayerKeeps(xs, fmt, k);
      AddLayersResult(zs, fmt, k + 1, count);
      var ys := AddLayers(xs, fmt, k, count);
      assert ys[|xs|..] == zs[|xs|..] + ys[|zs|..];
    }
  }

  /** The sets that survive a format: all of them, unless the format is disabled. */
  function Survivors(xs: seq<ParamSet>, fmt: string, count: int): seq<ParamSet> {
    if count <= 0 then Without(xs, fmt) else xs
  }

  lemma DisabledFormat(xs: seq<ParamSet>, fmt: string)
    ensures FormatNormal(Without(xs, fmt), fmt, 0) && SameElsewhere(xs, Without(xs, fmt), fmt)
    ensures FormatNormal(xs, fmt, 0) ==> Without(xs, fmt) == xs
  {
    WithoutMembers(xs, fmt);
  }

  lemma EnabledFormat(xs: seq<ParamSet>, fmt: string, count: int)
    requires count > 0
    ensures var ys := AddLayers(xs, fmt, 0, count);
            && Grows(xs, ys) && SameElsewhere(xs, ys, fmt)
            && (forall k | 0 <= k < count :: HasLayer(ys, fmt, k))
            && ((exists y <- ys :: TooHigh(y, fmt, count)) <==> exists x <- xs :: TooHigh(x, fmt, count))
    ensures FormatNormal(xs, fmt, count) ==> AddLayers(xs, fmt, 0, count) == xs
  {
    AddLayersResult(xs, fmt, 0, count);
    var ys := AddLayers(xs, fmt, 0, count);
    assert ys == xs + ys[|xs|..];
    assert forall y <- ys[|xs|..] :: !TooHigh(y, fmt, count) && y.format == Some(fmt);
  }

  /** One format: it raises exactly on a layer too high, and touches no other format. */
  lemma EnsureLayersResult(xs: seq<ParamSet>, fmt: string, count: int)
    ensures EnsureLayers(xs, fmt, count).Raised? <==> count > 0 && exists x <- xs :: TooHigh(x, fmt, count)
    ensures EnsureLayers(xs, fmt, count).Ok? ==>
              var ys := EnsureLayers(xs, fmt, count).value;
              FormatNormal(ys, fmt, count) && SameElsewhere(xs, ys, fmt) && Grows(Survivors(xs, fmt, count), ys)
    ensures FormatNormal(xs, fmt, count) ==> EnsureLayers(xs, fmt, count) == Ok(xs)
  {
    if count > 0 {
      EnabledFormat(xs, fmt, count);
    } else {
      DisabledFormat(xs, fmt);
    }
  }

  lemma HasLayerElsewhere(xs: seq<ParamSet>, ys: seq<ParamSet>, fmt: string, other: string, count: int)
    requires SameElsewhere(xs, ys, fmt) && other != fmt
    ensures FormatNormal(xs, other, count) <==> FormatNormal(ys, other, count)
    ensures HasTrunk(xs) <==> HasTrunk(ys)
    ensures (exists x <- xs :: TooHigh(x, other, count)) <==> (exists y <- ys :: TooHigh(y, other, count))
  {
    forall k: int
      ensures HasLayer(xs, other, k) <==> HasLayer(ys, other, k)
    {
    }
    if HasTrunk(xs) {
      var x :| x in xs && IsTrunk(x);
      assert x in ys;
    }
    if HasTrunk(ys) {
      var y :| y in ys && IsTrunk(y);
      assert y in xs;
    }
  }

  lemma FormatsDiffer()
    ensures AUDIO != VIDEO && AUDIO != DATA && VIDEO != DATA
  {
    assert AUDIO[18] == 'a' && VIDEO[18] == 'v' && DATA[18] == 'd';
  }

  /** An enabled format of `xs` has a layer at or above its count. */
  predicate LayerTooHigh(xs: seq<ParamSet>, layers: Layers) {
    || (Count(layers.audio) > 0 && exists x <- xs :: TooHigh(x, AUDIO, Count(layers.audio)))
    || (Count(layers.video) > 0 && exists x <- xs :: TooHigh(x, VIDEO, Count(layers.video)))
    || (Count(layers.data) > 0 && exists x <- xs :: TooHigh(x, DATA, Count(layers.data)))
  }

  predicate FormatsNormal(xs: seq<ParamSet>, layers: Layers) {
    && FormatNormal(xs, AUDIO, Count(layers.audio))
    && FormatNormal(xs, VIDEO, Count(layers.video))
    && FormatNormal(xs, DATA, Count(layers.data))
  }

  lemma AllFormatsResult(xs: seq<ParamSet>, layers: Layers)
    ensures AllFormats(xs, layers).Raised? <==> LayerTooHigh(xs, layers)
    ensures AllFormats(xs, layers).Ok? ==>
              var ys := AllFormats(xs, layers).value;
              FormatsNormal(ys, layers) && (HasTrunk(xs) <==> HasTrunk(ys))
    ensures FormatsNormal(xs, layers) ==> AllFormats(xs, layers) == Ok(xs)
  {
    hide EnsureLayers, HasLayer;
    FormatsDiffer();
    var m, n, k := Count(layers.audio), Count(layers.video), Count(layers.data);
    EnsureLayersResult(xs, AUDIO, m);
    if EnsureLayers(xs, AUDIO, m).Ok? {
      var a := EnsureLayers(xs, AUDIO, m).value;
      HasLayerElsewhere(xs, a, AUDIO, VIDEO, n);
      HasLayerElsewhere(xs, a, AUDIO, DATA, k);
      EnsureLayersResult(a, VIDEO, n);
      if EnsureLayers(a, VIDEO, n).Ok? {
        var v := EnsureLayers(a, VIDEO, n).value;
        HasLayerElsewhere(a, v, VIDEO, AUDIO, m);
        HasLayerElsewhere(a, v, VIDEO, DATA, k);
        EnsureLayersResult(v, DATA, k);
        if EnsureLayers(v, DATA, k).Ok? {
          var d := EnsureLayers(v, DATA, k).value;
          HasLayerElsewhere(v, d, DATA, AUDIO, m);
          HasLayerElsewhere(v, d, DATA, VIDEO, n);
        }
      }
    }
  }

  /** Pruning moves no set to another part. */
  lemma PruneKeepsParts(xs: seq<ParamSet>, ns: Namespaces, layers: Layers)
    ensures HasTrunk(PruneParts(xs, ns)) <==> HasTrunk(xs)
    ensures FormatsNormal(PruneParts(xs, ns), layers) <==> FormatsNormal(xs, layers)
    ensures forall y <- PruneParts(xs, ns), n <- y.params.Keys :: Allowed(n, NamesOf(y.format, ns))
  {
    var ys := PruneParts(xs, ns);
    assert forall i | 0 <= i < |xs| :: ys[i].format == xs[i].format && ys[i].layer == xs[i].layer;
    SameShape(xs, ys, AUDIO, Count(layers.audio));
    SameShape(xs, ys, VIDEO, Count(layers.video));
    SameShape(xs, ys, DATA, Count(layers.data));
  }

  /** Whether a list is normal depends only on the parts of its members. */
  lemma SameShape(xs: seq<ParamSet>, ys: seq<ParamSet>, fmt: string, count: int)
    requires |xs| == |ys|
    requires forall i | 0 <= i < |xs| :: ys[i].format == xs[i].format && ys[i].layer == xs[i].layer
    ensures HasTrunk(ys) <==> HasTrunk(xs)
    ensures FormatNormal(ys, fmt, count) <==> FormatNormal(xs, fmt, count)
  {
    ShapeOneWay(xs, ys, fmt, count);
    ShapeOneWay(ys, xs, fmt, count);
  }

  lemma ShapeOneWay(xs: seq<ParamSet>, ys: seq<ParamSet>, fmt: string, count: int)
    requires |xs| == |ys|
    requires forall i | 0 <= i < |xs| :: ys[i].format == xs[i].format && ys[i].layer == xs[i].layer
    ensures HasTrunk(xs) ==> HasTrunk(ys)
    ensures FormatNormal(xs, fmt, count) ==> FormatNormal(ys, fmt, count)
  {
    if HasTrunk(xs) {
      var i :| 0 <= i < |xs| && IsTrunk(xs[i]);
      assert IsTrunk(ys[i]);
    }
    if FormatNormal(xs, fmt, count) {
      forall k | 0 <= k < count
        ensures HasLayer(ys, fmt, k)
      {
        assert HasLayer(xs, fmt, k);
        var i :| 0 <= i < |xs| && IsLayer(xs[i], fmt, k);
        assert IsLayer(ys[i], fmt, k);
      }
      forall y | y in ys
        ensures if count <= 0 then y.format != Some(fmt) else !TooHigh(y, fmt, count)
      {
        var i :| 0 <= i < |ys| && ys[i] == y;
        assert xs[i] in xs;
      }
    }
  }

  lemma TrunkAdded(xs: seq<ParamSet>)
    ensures HasTrunk(WithTrunk(xs)) && Grows(xs, WithTrunk(xs))
    ensures forall layers :: LayerTooHigh(WithTrunk(xs), layers) <==> LayerTooHigh(xs, layers)
  {
    if !HasTrunk(xs) {
      assert TRUNK in WithTrunk(xs) && IsTrunk(TRUNK);
      assert forall x: ParamSet :: x in WithTrunk(xs) <==> x in xs || x == TRUNK;
    }
  }

  /**
   Normalization raises exactly on a filtered list, on a part given to a flat one, or on a
   layer at or above an enabled format's count; otherwise its result is normal.
   */
  lemma NormalizeExactly(xs: seq<ParamSet>, filtered: bool, layers: Layers, ns: Namespaces)
    ensures Normalize(xs, filtered, layers, ns).Raised? <==>
              || filtered
              || (!layers.Hierarchical() && exists x <- xs :: x.format.Some? || x.layer.Some?)
              || (layers.Hierarchical() &&
                  exists x <- xs ::
                    x.layer.Some? && (
                      || (x.format == Some(AUDIO) && 0 < Count(layers.audio) <= x.layer.value)
                      || (x.format == Some(VIDEO) && 0 < Count(layers.video) <= x.layer.value)
                      || (x.format == Some(DATA) && 0 < Count(layers.data) <= x.layer.value)))
    ensures layers.Hierarchical() && Normalize(xs, filtered, layers, ns).Ok? ==>
              Normal(Normalize(xs, filtered, layers, ns).value, layers, ns)
  {
    hide AllFormats, WithTrunk, Normal, PruneParts, PruneTrunks;
    TooHighExactly(xs, layers);
    if layers.Hierarchical() {
      HierarchyExactly(xs, layers, ns);
    }
  }

  lemma TooHighExactly(xs: seq<ParamSet>, layers: Layers)
    ensures LayerTooHigh(xs, layers) <==>
              exists x <- xs ::
                x.layer.Some? && (
                  || (x.format == Some(AUDIO) && 0 < Count(layers.audio) <= x.layer.value)
                  || (x.format == Some(VIDEO) && 0 < Count(layers.video) <= x.layer.value)
                  || (x.format == Some(DATA) && 0 < Count(layers.data) <= x.layer.value))
  {
  }

  lemma HierarchyExactly(xs: seq<ParamSet>, layers: Layers, ns: Namespaces)
    ensures var formats := AllFormats(WithTrunk(xs), layers);
            && (formats.Raised? <==> LayerTooHigh(xs, layers))
            && (formats.Ok? ==> Normal(PruneParts(formats.value, ns), layers, ns))
  {
    TrunkAdded(xs);
    AllFormatsResult(WithTrunk(xs), layers);
    if AllFormats(WithTrunk(xs), layers).Ok? {
      PruneKeepsParts(AllFormats(WithTrunk(xs), layers).value, ns, layers);
    }
  }

  lemma PrunedAlready(s: ParamSet, names: Option<set<string>>)
    requires forall n <- s.params.Keys :: Allowed(n, names)
    ensures Prune(s, names) == s
  {
    assert Prune(s, names).params == s.params;
  }

  /** Normalizing a second time changes nothing. */
  lemma NormalizeIdempotent(xs: seq<ParamSet>, layers: Layers, ns: Namespaces)
    requires Normalize(xs, false, layers, ns).Ok?
    ensures var ys := Normalize(xs, false, layers, ns).value;
            Normalize(ys, false, layers, ns) == Ok(ys)
  {
    var ys := Normalize(xs, false, layers, ns).value;
    NormalizeExactly(xs, false, layers, ns);
    if layers.Hierarchical() {
      AllFormatsResult(ys, layers);
      forall i | 0 <= i < |ys|
        ensures Prune(ys[i], NamesOf(ys[i].format, ns)) == ys[i]
      {
        assert ys[i] in ys;
        PrunedAlready(ys[i], NamesOf(ys[i].format, ns));
      }
      assert PruneParts(ys, ns) == ys;
    } else {
      forall i | 0 <= i < |ys|
        ensures Prune(ys[i], ns.trunk) == ys[i]
      {
        PrunedAlready(ys[i], ns.trunk);
      }
      assert PruneTrunks(ys, ns) == ys;
    }
  }

  /** The members of `xs` that no disabled format removes, in order. */
  function Kept(xs: seq<ParamSet>, layers: Layers): seq<ParamSet> {
    Survivors(Survivors(Survivors(xs, AUDIO, Count(layers.audio)), VIDEO, Count(layers.video)), DATA, Count(layers.data))
  }

  lemma {:induction false} WithoutAdded(xs: seq<ParamSet>, fmt: string)
    requires forall x <- xs :: Added(x)
    ensures forall x <- Without(xs, fmt) :: Added(x)
  {
    WithoutMembers(xs, fmt);
  }

  /** Survivors of a list that has grown are the survivors of the original, grown. */
  lemma GrowsThrough(xs: seq<ParamSet>, ys: seq<ParamSet>, fmt: string, count: int)
    requires Grows(xs, ys) && EnsureLayers(ys, fmt, count).Ok?
    ensures Grows(Survivors(xs, fmt, count), EnsureLayers(ys, fmt, count).value)
  {
    hide EnsureLayers, Without, AddLayers, Added;
    EnsureLayersResult(ys, fmt, count);
    var tail := ys[|xs|..];
    assert ys == xs + tail;
    WithoutAppend(xs, tail, fmt);
    WithoutAdded(tail, fmt);
    var kept, wider, zs := Survivors(xs, fmt, count), Survivors(ys, fmt, count), EnsureLayers(ys, fmt, count).value;
    assert zs[|kept|..] == wider[|kept|..] + zs[|wider|..];
  }

  /** Each surviving set stays, in order, and only widens; every set added is native and constrains nothing. */
  lemma NormalizeWidens(xs: seq<ParamSet>, layers: Layers, ns: Namespaces)
    requires layers.Hierarchical() && Normalize(xs, false, layers, ns).Ok?
    ensures var ys, kept := Normalize(xs, false, layers, ns).value, Kept(xs, layers);
            && |kept| <= |ys|
            && (forall i | 0 <= i < |kept| :: ys[i] == Prune(kept[i], NamesOf(kept[i].format, ns)))
            && (forall i, c: Config | 0 <= i < |kept| && Accepts(kept[i], c) :: Accepts(ys[i], c))
            && forall i | |kept| <= i < |ys| :: Added(ys[i])
  {
    TrunkAdded(xs);
    var zs := WithTrunk(xs);
    GrowsThrough(xs, zs, AUDIO, Count(layers.audio));
    var a := EnsureLayers(zs, AUDIO, Count(layers.audio)).value;
    GrowsThrough(Survivors(xs, AUDIO, Count(layers.audio)), a, VIDEO, Count(layers.video));
    var v := EnsureLayers(a, VIDEO, Count(layers.video)).value;
    GrowsThrough(Survivors(Survivors(xs, AUDIO, Count(layers.audio)), VIDEO, Count(layers.video)), v, DATA, Count(layers.data));
    var d := EnsureLayers(v, DATA, Count(layers.data)).value;
    var kept := Kept(xs, layers);
    assert forall i | |kept| <= i < |d| :: d[i] in d[|kept|..];
  }
}
