/** What normalization keeps, name by name, and what it adds, set by set. */
module NormalizationLaws {
  import opened Outcome
  import opened CapSets
  import opened Normalization

  // ---------------------------------------------------------------------------
  // What is kept
  // ---------------------------------------------------------------------------

  /** `y` is `x` with only those of its parameters that are in `names`, as they were. */
  ghost predicate KeepsNamed(x: ParamSet, y: ParamSet, names: Option<set<string>>) {
    && y.preference == x.preference && y.title == x.title
    && y.format == x.format && y.layer == x.layer && y.groups == x.groups
    && (forall n: string :: n in y.params <==> n in x.params && (names.None? || n in names.value))
    && forall n: string | n in y.params :: y.params[n] == x.params[n]
  }

  /** A set of one of the three formats keeps the names of its namespace; the trunk and any other keep all. */
  ghost predicate KeepsNamespace(x: ParamSet, y: ParamSet, ns: Namespaces) {
    if x.format == Some("urn:x-nmos:format:audio") then KeepsNamed(x, y, ns.audio)
    else if x.format == Some("urn:x-nmos:format:video") then KeepsNamed(x, y, ns.video)
    else if x.format == Some("urn:x-nmos:format:data") then KeepsNamed(x, y, ns.data)
    else y == x
  }

  /** A format without a positive layer count is disabled. */
  predicate Disabled(x: ParamSet, layers: Layers) {
    || (x.format == Some("urn:x-nmos:format:audio") && (layers.audio.None? || layers.audio.value <= 0))
    || (x.format == Some("urn:x-nmos:format:video") && (layers.video.None? || layers.video.value <= 0))
    || (x.format == Some("urn:x-nmos:format:data") && (layers.data.None? || layers.data.value <= 0))
  }

  ghost predicate Increasing(picks: seq<nat>) {
    forall i, j | 0 <= i < j < |picks| :: picks[i] < picks[j]
  }

  lemma PruneKeepsNamed(x: ParamSet, names: Option<set<string>>)
    ensures KeepsNamed(x, Prune(x, names), names)
  {
  }

  lemma PruneKeepsNamespace(x: ParamSet, ns: Namespaces)
    ensures KeepsNamespace(x, Prune(x, NamesOf(x.format, ns)), ns)
  {
    PruneKeepsNamed(x, NamesOf(x.format, ns));
    if NamesOf(x.format, ns).None? {
      PrunedAlready(x, None);
    }
  }

  lemma SurvivorsAppend(xs: seq<ParamSet>, ys: seq<ParamSet>, fmt: string, count: int)
    ensures Survivors(xs + ys, fmt, count) == Survivors(xs, fmt, count) + Survivors(ys, fmt, count)
  {
    WithoutAppend(xs, ys, fmt);
  }

  lemma KeptAppend(xs: seq<ParamSet>, ys: seq<ParamSet>, layers: Layers)
    ensures Kept(xs + ys, layers) == Kept(xs, layers) + Kept(ys, layers)
  {
    hide Survivors;
    var m, n, k := Count(layers.audio), Count(layers.video), Count(layers.data);
    SurvivorsAppend(xs, ys, AUDIO, m);
    var a, b := Survivors(xs, AUDIO, m), Survivors(ys, AUDIO, m);
    SurvivorsAppend(a, b, VIDEO, n);
    SurvivorsAppend(Survivors(a, VIDEO, n), Survivors(b, VIDEO, n), DATA, k);
  }

  lemma KeptNone(layers: Layers)
    ensures Kept([], layers) == []
  {
  }

  lemma KeptOne(x: ParamSet, layers: Layers)
    ensures Kept([x], layers) == if Disabled(x, layers) then [] else [x]
  {
    hide Without;
    FormatsDiffer();
    WithoutOne(x, AUDIO);
    WithoutOne(x, VIDEO);
    WithoutOne(x, DATA);
    WithoutNone(VIDEO);
    WithoutNone(DATA);
  }

  /** Which sets survive: those of no disabled format, in their order. */
  lemma {:induction false} KeptPicks(xs: seq<ParamSet>, layers: Layers) returns (picks: seq<nat>)
    ensures Increasing(picks) && |picks| == |Kept(xs, layers)|
    ensures forall i: nat :: i in picks <==> i < |xs| && !Disabled(xs[i], layers)
    ensures forall k | 0 <= k < |picks| :: picks[k] < |xs| && Kept(xs, layers)[k] == xs[picks[k]]
  {
    hide Kept, Disabled;
    if xs == [] {
      KeptNone(layers);
      picks := [];
    } else {
      var init, last := xs[..|xs| - 1], xs[|xs| - 1];
      var before := KeptPicks(init, layers);
      assert xs == init + [last];
      KeptAppend(init, [last], layers);
      KeptOne(last, layers);
      picks := before + if Disabled(last, layers) then [] else [|init|];
      assert forall k | 0 <= k < |before| :: before[k] in before;
      assert forall i: nat | i < |init| :: xs[i] == init[i];
    }
  }

  /** A flat list keeps all its sets, each with the parameters that the trunk namespace holds. */
  lemma FlatKeeps(xs: seq<ParamSet>, layers: Layers, ns: Namespaces)
    requires !layers.Hierarchical() && Normalize(xs, false, layers, ns).Ok?
    ensures var ys := Normalize(xs, false, layers, ns).value;
            |ys| == |xs| && forall i | 0 <= i < |xs| :: KeepsNamed(xs[i], ys[i], ns.trunk)
  {
    hide Prune, KeepsNamed;
    forall i | 0 <= i < |xs|
      ensures KeepsNamed(xs[i], Prune(xs[i], ns.trunk), ns.trunk)
    {
      PruneKeepsNamed(xs[i], ns.trunk);
    }
  }

  // ---------------------------------------------------------------------------
  // What is added
  // ---------------------------------------------------------------------------

  /** The layers of `fmt` from `k` to `count - 1` that `xs` lacks, lowest first, as unconstrained native sets. */
  function Missing(xs: seq<ParamSet>, fmt: string, k: nat, count: int): seq<ParamSet>
    decreases count - k
  {
    if k >= count then []
    else
      (if exists x <- xs :: x.format == Some(fmt) && x.layer == Some(k) then []
       else [ParamSet(map[], 100, fmt + Decimal(k), Some(fmt), Some(k), None)])
      + Missing(xs, fmt, k + 1, count)
  }

  /** Both lists have the same layers of `fmt`. */
  ghost predicate SameLayers(xs: seq<ParamSet>, ys: seq<ParamSet>, fmt: string) {
    forall j: nat :: HasLayer(xs, fmt, j) <==> HasLayer(ys, fmt, j)
  }

  lemma {:induction false} MissingSame(xs: seq<ParamSet>, ys: seq<ParamSet>, fmt: string, k: nat, count: int)
    requires forall j: nat | j >= k :: HasLayer(xs, fmt, j) <==> HasLayer(ys, fmt, j)
    ensures Missing(xs, fmt, k, count) == Missing(ys, fmt, k, count)
    decreases count - k
  {
    hide Decimal;
    if k < count {
      MissingSame(xs, ys, fmt, k + 1, count);
      assert HasLayer(xs, fmt, k) <==> HasLayer(ys, fmt, k);
      MissingHead(xs, fmt, k, count);
      MissingHead(ys, fmt, k, count);
    }
  }

  lemma MissingHead(xs: seq<ParamSet>, fmt: string, k: nat, count: int)
    requires k < count
    ensures Missing(xs, fmt, k, count) == (if HasLayer(xs, fmt, k) then [] else [NewLayer(fmt, k)]) + Missing(xs, fmt, k + 1, count)
  {
    hide Decimal;
    assert HasLayer(xs, fmt, k) <==> exists x <- xs :: x.format == Some(fmt) && x.layer == Some(k) by {
      assert forall x <- xs :: IsLayer(x, fmt, k) <==> x.format == Some(fmt) && x.layer == Some(k);
    }
  }

  lemma OtherLayersSame(xs: seq<ParamSet>, fmt: string, k: nat)
    ensures forall j: nat | j != k :: HasLayer(xs + [NewLayer(fmt, k)], fmt, j) <==> HasLayer(xs, fmt, j)
  {
    hide Decimal;
    var zs := xs + [NewLayer(fmt, k)];
    forall j: nat | j != k
      ensures HasLayer(zs, fmt, j) <==> HasLayer(xs, fmt, j)
    {
      assert forall z: ParamSet :: z in zs <==> z in xs || z == NewLayer(fmt, k);
    }
  }

  lemma MissingAfter(xs: seq<ParamSet>, fmt: string, k: nat, count: int)
    ensures Missing(xs + [NewLayer(fmt, k)], fmt, k + 1, count) == Missing(xs, fmt, k + 1, count)
  {
    hide NewLayer, HasLayer;
    OtherLayersSame(xs, fmt, k);
    MissingSame(xs + [NewLayer(fmt, k)], xs, fmt, k + 1, count);
  }

  lemma {:induction false} AddLayersAppends(xs: seq<ParamSet>, fmt: string, k: nat, count: int)
    ensures AddLayers(xs, fmt, k, count) == xs + Missing(xs, fmt, k, count)
    decreases count - k
  {
    hide NewLayer, HasLayer;
    if k >= count {
      assert xs + [] == xs;
    } else {
      hide Missing;
      MissingHead(xs, fmt, k, count);
      var rest := Missing(xs, fmt, k + 1, count);
      if HasLayer(xs, fmt, k) {
        AddLayersAppends(xs, fmt, k + 1, count);
        assert [] + rest == rest;
      } else {
        AddLayersAppends(xs + [NewLayer(fmt, k)], fmt, k + 1, count);
        MissingAfter(xs, fmt, k, count);
        assert xs + [NewLayer(fmt, k)] + rest == xs + ([NewLayer(fmt, k)] + rest);
      }
    }
  }

  lemma EnsureLayersAppends(xs: seq<ParamSet>, fmt: string, count: int)
    requires EnsureLayers(xs, fmt, count).Ok?
    ensures EnsureLayers(xs, fmt, count).value == Survivors(xs, fmt, count) + Missing(xs, fmt, 0, count)
  {
    hide TooHigh, HasLayer;
    if count > 0 {
      AddLayersAppends(xs, fmt, 0, count);
    } else {
      assert Without(xs, fmt) + [] == Without(xs, fmt);
    }
  }

  ghost predicate NoneOf(xs: seq<ParamSet>, fmt: string) {
    forall x <- xs :: x.format != Some(fmt)
  }

  lemma MissingFormat(xs: seq<ParamSet>, fmt: string, k: nat, count: int)
    ensures forall x <- Missing(xs, fmt, k, count) :: x.format == Some(fmt) && x.params == map[]
    decreases count - k
  {
    hide Decimal;
    if k < count {
      MissingFormat(xs, fmt, k + 1, count);
      MissingHead(xs, fmt, k, count);
    }
  }

  /** One format, on sets that may be removed followed by sets of other formats. */
  lemma Stage(xs: seq<ParamSet>, kept: seq<ParamSet>, extra: seq<ParamSet>, fmt: string, count: int)
    requires EnsureLayers(kept + extra, fmt, count).Ok? && NoneOf(extra, fmt) && SameLayers(kept, xs, fmt)
    ensures EnsureLayers(kept + extra, fmt, count).value
            == Survivors(kept, fmt, count) + (extra + Missing(xs, fmt, 0, count))
  {
    hide EnsureLayers, Missing, Survivors;
    EnsureLayersAppends(kept + extra, fmt, count);
    SurvivorsAppend(kept, extra, fmt, count);
    ExtraSurvives(extra, fmt, count);
    ExtraLayers(kept, extra, fmt);
    MissingSame(kept + extra, xs, fmt, 0, count);
    assert Survivors(kept, fmt, count) + extra + Missing(xs, fmt, 0, count)
           == Survivors(kept, fmt, count) + (extra + Missing(xs, fmt, 0, count));
  }

  lemma ExtraSurvives(extra: seq<ParamSet>, fmt: string, count: int)
    requires NoneOf(extra, fmt)
    ensures Survivors(extra, fmt, count) == extra
  {
    WithoutMembers(extra, fmt);
  }

  lemma ExtraLayers(kept: seq<ParamSet>, extra: seq<ParamSet>, fmt: string)
    requires NoneOf(extra, fmt)
    ensures SameLayers(kept + extra, kept, fmt)
  {
    forall j: nat
      ensures HasLayer(kept + extra, fmt, j) <==> HasLayer(kept, fmt, j)
    {
      assert forall z: ParamSet :: z in kept + extra <==> z in kept || z in extra;
    }
  }

  /** Disabling one format leaves the layers of another. */
  lemma SurvivorsLayers(xs: seq<ParamSet>, fmt: string, count: int, other: string)
    requires fmt != other
    ensures SameLayers(Survivors(xs, fmt, count), xs, other)
  {
    WithoutMembers(xs, fmt);
    forall j: nat
      ensures HasLayer(Survivors(xs, fmt, count), other, j) <==> HasLayer(xs, other, j)
    {
    }
  }

  lemma SameLayersChain(xs: seq<ParamSet>, ys: seq<ParamSet>, zs: seq<ParamSet>, fmt: string)
    requires SameLayers(xs, ys, fmt) && SameLayers(ys, zs, fmt)
    ensures SameLayers(xs, zs, fmt)
  {
    hide HasLayer;
  }

  /** What normalization adds to `xs`: a trunk, then the missing layers of each format, lowest first. */
  function AddedTo(xs: seq<ParamSet>, layers: Layers): seq<ParamSet> {
    (if exists x <- xs :: x.format.None? && x.layer.None? then [] else [ParamSet(map[], 100, "Trunk", None, None, None)])
    + Missing(xs, "urn:x-nmos:format:audio", 0, if layers.audio.Some? then layers.audio.value else 0)
    + Missing(xs, "urn:x-nmos:format:video", 0, if layers.video.Some? then layers.video.value else 0)
    + Missing(xs, "urn:x-nmos:format:data", 0, if layers.data.Some? then layers.data.value else 0)
  }

  lemma TrunkPart(xs: seq<ParamSet>) returns (trunk: seq<ParamSet>)
    ensures trunk == if exists x <- xs :: x.format.None? && x.layer.None? then [] else [ParamSet(map[], 100, "Trunk", None, None, None)]
    ensures WithTrunk(xs) == xs + trunk && forall x <- trunk :: x.format.None? && x.params == map[]
  {
    trunk := if HasTrunk(xs) then [] else [TRUNK];
    assert HasTrunk(xs) <==> exists x <- xs :: x.format.None? && x.layer.None? by {
      assert forall x <- xs :: IsTrunk(x) <==> x.format.None? && x.layer.None?;
    }
    assert xs + [] == xs;
  }

  lemma AllFormatsAdds(xs: seq<ParamSet>, trunk: seq<ParamSet>, layers: Layers)
    requires AllFormats(xs + trunk, layers).Ok? && forall x <- trunk :: x.format.None?
    ensures AllFormats(xs + trunk, layers).value
            == Kept(xs, layers) + (trunk + Missing(xs, AUDIO, 0, Count(layers.audio))
                                   + Missing(xs, VIDEO, 0, Count(layers.video)) + Missing(xs, DATA, 0, Count(layers.data)))
  {
    hide EnsureLayers, Missing, Survivors, SameLayers, Count;
    FormatsDiffer();
    var m, n, k := Count(layers.audio), Count(layers.video), Count(layers.data);
    var ma, mv, md := Missing(xs, AUDIO, 0, m), Missing(xs, VIDEO, 0, n), Missing(xs, DATA, 0, k);
    MissingFormat(xs, AUDIO, 0, m);
    MissingFormat(xs, VIDEO, 0, n);
    SameLayersSelf(xs, AUDIO);
    Stage(xs, xs, trunk, AUDIO, m);
    var a := Survivors(xs, AUDIO, m);
    SurvivorsLayers(xs, AUDIO, m, VIDEO);
    SurvivorsLayers(xs, AUDIO, m, DATA);
    Stage(xs, a, trunk + ma, VIDEO, n);
    var v := Survivors(a, VIDEO, n);
    SurvivorsLayers(a, VIDEO, n, DATA);
    SameLayersChain(v, a, xs, DATA);
    Stage(xs, v, trunk + ma + mv, DATA, k);
  }

  lemma SameLayersSelf(xs: seq<ParamSet>, fmt: string)
    ensures SameLayers(xs, xs, fmt)
  {
  }

  lemma PrunePartsAppend(xs: seq<ParamSet>, ys: seq<ParamSet>, ns: Namespaces)
    requires forall y <- ys :: y.params == map[]
    ensures PruneParts(xs + ys, ns) == PruneParts(xs, ns) + ys
  {
    hide NamesOf;
    forall i | 0 <= i < |ys|
      ensures Prune(ys[i], NamesOf(ys[i].format, ns)) == ys[i]
    {
      assert ys[i] in ys;
      PrunedAlready(ys[i], NamesOf(ys[i].format, ns));
    }
  }

  /** After the sets that survive, normalization adds exactly these, in this order. */
  lemma NormalizeAdds(xs: seq<ParamSet>, layers: Layers, ns: Namespaces)
    requires layers.Hierarchical() && Normalize(xs, false, layers, ns).Ok?
    ensures Normalize(xs, false, layers, ns).value == PruneParts(Kept(xs, layers), ns) + AddedTo(xs, layers)
  {
    hide AllFormats, Kept, PruneParts, Missing, WithTrunk;
    var trunk := TrunkPart(xs);
    AllFormatsAdds(xs, trunk, layers);
    MissingFormat(xs, AUDIO, 0, Count(layers.audio));
    MissingFormat(xs, VIDEO, 0, Count(layers.video));
    MissingFormat(xs, DATA, 0, Count(layers.data));
    PrunePartsAppend(Kept(xs, layers), AddedTo(xs, layers), ns);
  }

  /**
   Each set of no disabled format survives, in order, with exactly those of its parameters that its
   format's namespace holds and everything else as it was; the additions follow, and nothing else.
   */
  lemma NormalizeKeeps(xs: seq<ParamSet>, layers: Layers, ns: Namespaces) returns (picks: seq<nat>)
    requires layers.Hierarchical() && Normalize(xs, false, layers, ns).Ok?
    ensures Increasing(picks) && forall i: nat :: i in picks <==> i < |xs| && !Disabled(xs[i], layers)
    ensures var ys := Normalize(xs, false, layers, ns).value;
            && |picks| <= |ys| && ys[|picks|..] == AddedTo(xs, layers)
            && forall k | 0 <= k < |picks| :: picks[k] < |xs| && KeepsNamespace(xs[picks[k]], ys[k], ns)
  {
    hide Normalize, Disabled, Kept, AddedTo, Prune, NamesOf, KeepsNamespace;
    picks := KeptPicks(xs, layers);
    NormalizeAdds(xs, layers, ns);
    forall k | 0 <= k < |picks|
      ensures KeepsNamespace(xs[picks[k]], Normalize(xs, false, layers, ns).value[k], ns)
    {
      PruneKeepsNamespace(xs[picks[k]], ns);
    }
  }
}
