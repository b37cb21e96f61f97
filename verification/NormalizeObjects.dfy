/**
 Normalization as the source runs it, on mutable CapSet objects: the input is copied, the copy's
 list is rebuilt and its dictionaries lose entries.  No method here that takes the caller's
 objects may modify them.
 */
module NormalizeObjects {
  import opened Outcome
  import opened CapSets
  import opened Normalization

  class CapSetObject {
    var body: ParamSet

    constructor (s: ParamSet)
      ensures body == s
    {
      body := s;
    }

    /** The loop that pops every parameter outside the namespace, in any order. */
    method PopOutside(names: Option<set<string>>)
      modifies this
      ensures body == Prune(old(body), names)
    {
      var todo := body.params.Keys;
      while todo != {}
        invariant todo <= old(body).params.Keys
        invariant body == old(body).(params := body.params)
        invariant body.params ==
                  map n | n in old(body).params && (n in todo || Allowed(n, names)) :: old(body).params[n]
      {
        var n :| n in todo;
        if names.Some? && n !in names.value {
          body := body.(params := body.params - {n});
        }
        todo := todo - {n};
      }
      assert body.params == Prune(old(body), names).params;
    }
  }

  /** The values of a list of objects. */
  ghost function View(objs: seq<CapSetObject>): (xs: seq<ParamSet>)
    reads objs
    ensures |xs| == |objs| && forall i | 0 <= i < |objs| :: xs[i] == objs[i].body
  {
    seq(|objs|, i requires 0 <= i < |objs| reads objs => objs[i].body)
  }

  ghost predicate Distinct(objs: seq<CapSetObject>) {
    forall i, j | 0 <= i < j < |objs| :: objs[i] != objs[j]
  }

  method RemoveFormat(objs: seq<CapSetObject>, fmt: string) returns (kept: seq<CapSetObject>)
    requires Distinct(objs)
    ensures View(kept) == Without(View(objs), fmt)
    ensures Distinct(kept) && forall o <- kept :: o in objs
  {
    hide Without;
    WithoutNone(fmt);
    kept := [];
    for i := 0 to |objs|
      invariant View(kept) == Without(View(objs[..i]), fmt)
      invariant Distinct(kept) && forall o <- kept :: o in objs[..i]
    {
      assert View(objs[..i + 1]) == View(objs[..i]) + [objs[i].body];
      WithoutAppend(View(objs[..i]), [objs[i].body], fmt);
      WithoutOne(objs[i].body, fmt);
      if objs[i].body.format != Some(fmt) {
        assert objs[i] !in objs[..i];
        assert View(kept + [objs[i]]) == View(kept) + [objs[i].body];
        kept := kept + [objs[i]];
      }
    }
    assert objs[..|objs|] == objs;
  }

  lemma ViewHasLayer(objs: seq<CapSetObject>, fmt: string, k: int)
    ensures HasLayer(View(objs), fmt, k) <==> exists o <- objs :: IsLayer(o.body, fmt, k)
  {
    if o :| o in objs && IsLayer(o.body, fmt, k) {
      var i :| 0 <= i < |objs| && objs[i] == o;
      assert View(objs)[i] in View(objs);
    }
  }

  method AppendMissingLayers(objs: seq<CapSetObject>, fmt: string, count: nat) returns (r: seq<CapSetObject>)
    requires Distinct(objs)
    ensures View(r) == AddLayers(View(objs), fmt, 0, count)
    ensures Distinct(r) && forall i | 0 <= i < |r| :: r[i] in objs || fresh(r[i])
  {
    r := objs;
    for k := 0 to count
      invariant AddLayers(View(objs), fmt, 0, count) == AddLayers(View(r), fmt, k, count)
      invariant Distinct(r) && forall i | 0 <= i < |r| :: r[i] in objs || fresh(r[i])
    {
      ViewHasLayer(r, fmt, k);
      if !(exists o <- r :: IsLayer(o.body, fmt, k)) {
        var layer := new CapSetObject(NewLayer(fmt, k));
        assert View(r + [layer]) == View(r) + [layer.body];
        r := r + [layer];
      }
    }
  }

  /** `ensure_format_layers`. */
  method EnsureFormatLayers(objs: seq<CapSetObject>, fmt: string, count: int) returns (r: Result<seq<CapSetObject>>)
    requires Distinct(objs)
    ensures r.Raised? <==> EnsureLayers(View(objs), fmt, count).Raised?
    ensures r.Ok? ==> View(r.value) == EnsureLayers(View(objs), fmt, count).value
    ensures r.Ok? ==> Distinct(r.value) && forall i | 0 <= i < |r.value| :: r.value[i] in objs || fresh(r.value[i])
  {
    if count <= 0 {
      var kept := RemoveFormat(objs, fmt);
      return Ok(kept);
    }
    var all := AppendMissingLayers(objs, fmt, count);
    var keep: seq<CapSetObject> := [];
    for i := 0 to |all|
      invariant keep == all[..i]
      invariant forall j | 0 <= j < i :: !TooHigh(all[j].body, fmt, count)
    {
      if TooHigh(all[i].body, fmt, count) {
        assert View(all)[i] in View(all);
        return Raised;
      }
      keep := keep + [all[i]];
    }
    assert keep == all;
    return Ok(keep);
  }

  /** The loop that prunes each set: by its format, or by the trunk namespace of a flat list. */
  method PruneAll(objs: seq<CapSetObject>, flat: bool, ns: Namespaces)
    requires Distinct(objs)
    modifies objs
    ensures View(objs) == if flat then PruneTrunks(old(View(objs)), ns) else PruneParts(old(View(objs)), ns)
  {
    for i := 0 to |objs|
      invariant forall j | i <= j < |objs| :: objs[j].body == old(objs[j].body)
      invariant forall j | 0 <= j < i :: objs[j].body ==
                  Prune(old(objs[j].body), if flat then ns.trunk else NamesOf(old(objs[j].body).format, ns))
    {
      objs[i].PopOutside(if flat then ns.trunk else NamesOf(objs[i].body.format, ns));
    }
  }

  method CopyAll(objs: seq<CapSetObject>) returns (copy: seq<CapSetObject>)
    ensures View(copy) == View(objs)
    ensures Distinct(copy) && forall i | 0 <= i < |copy| :: fresh(copy[i])
  {
    copy := [];
    for i := 0 to |objs|
      invariant View(copy) == View(objs[..i])
      invariant Distinct(copy) && forall j | 0 <= j < |copy| :: fresh(copy[j])
    {
      var o := new CapSetObject(objs[i].body);
      assert View(copy + [o]) == View(copy) + [o.body] && View(objs[..i + 1]) == View(objs[..i]) + [objs[i].body];
      copy := copy + [o];
    }
    assert objs[..|objs|] == objs;
  }

  /** A flat list may not hold a set with a format or a layer. */
  method IsFlat(objs: seq<CapSetObject>) returns (flat: bool)
    ensures flat <==> !exists x <- View(objs) :: x.format.Some? || x.layer.Some?
  {
    for i := 0 to |objs|
      invariant forall j | 0 <= j < i :: objs[j].body.format.None? && objs[j].body.layer.None?
    {
      if objs[i].body.format.Some? || objs[i].body.layer.Some? {
        assert View(objs)[i] in View(objs);
        return false;
      }
    }
    return true;
  }

  method EnsureTrunk(objs: seq<CapSetObject>) returns (r: seq<CapSetObject>)
    requires Distinct(objs)
    ensures View(r) == WithTrunk(View(objs))
    ensures Distinct(r) && forall i | 0 <= i < |r| :: r[i] in objs || fresh(r[i])
  {
    for i := 0 to |objs|
      invariant forall j | 0 <= j < i :: !IsTrunk(objs[j].body)
    {
      if IsTrunk(objs[i].body) {
        assert View(objs)[i] in View(objs);
        return objs;
      }
    }
    var trunk := new CapSetObject(TRUNK);
    assert View(objs + [trunk]) == View(objs) + [TRUNK];
    return objs + [trunk];
  }

  method EnsureAllFormats(objs: seq<CapSetObject>, layers: Layers) returns (r: Result<seq<CapSetObject>>)
    requires Distinct(objs)
    ensures r.Raised? <==> AllFormats(View(objs), layers).Raised?
    ensures r.Ok? ==> View(r.value) == AllFormats(View(objs), layers).value
    ensures r.Ok? ==> Distinct(r.value) && forall i | 0 <= i < |r.value| :: r.value[i] in objs || fresh(r.value[i])
  {
    var a :- EnsureFormatLayers(objs, AUDIO, Count(layers.audio));
    var v :- EnsureFormatLayers(a, VIDEO, Count(layers.video));
    r := EnsureFormatLayers(v, DATA, Count(layers.data));
  }

  /** `normalize`: a new list of new objects; with no `modifies` clause, the input stays as it was. */
  method NormalizeCaps(objs: seq<CapSetObject>, filtered: bool, layers: Layers, ns: Namespaces)
    returns (r: Result<seq<CapSetObject>>)
    ensures r.Raised? <==> Normalize(old(View(objs)), filtered, layers, ns).Raised?
    ensures r.Ok? ==> View(r.value) == Normalize(old(View(objs)), filtered, layers, ns).value
    ensures r.Ok? ==> Distinct(r.value) && forall i | 0 <= i < |r.value| :: fresh(r.value[i])
  {
    if filtered {
      return Raised;
    }
    var caps := CopyAll(objs);
    if !layers.Hierarchical() {
      var flat := IsFlat(caps);
      if !flat {
        return Raised;
      }
      PruneAll(caps, true, ns);
      return Ok(caps);
    }
    caps := EnsureTrunk(caps);
    caps :- EnsureAllFormats(caps, layers);
    PruneAll(caps, false, ns);
    return Ok(caps);
  }
}
