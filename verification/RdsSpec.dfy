/**
 The `--rds` specifications of nmos/rds_targets.py: one entry is a list of name=value fields
 laid over the defaults, and the entries make up the ordered target list.

 An entry is given after it has been split at commas and equal signs and stripped of spaces.
 */
module RdsSpec {
  import opened Outcome
  import opened Failover

  datatype FieldName =
    | Host | RegistrationPort | QueryPort | WsPort | CertName | Ca | Cert | Key | DisableTls
    | Unknown(name: string)

  datatype Field = Field(name: FieldName, raw: string)

  /** One `--rds` value; `blank` when the text was empty. */
  datatype Entry = Entry(blank: bool, fields: seq<Field>)

  /** `int(raw)` and the words that `disableTLS` takes, as Python reads them. */
  datatype Reader = Reader(toInt: string -> Option<int>, toBool: string -> Option<bool>)
  {
    function Port(raw: string): Option<int> {
      var n := toInt(raw);
      if n.Some? && 1 <= n.value <= 65535 then n else None
    }
  }

  predicate Repeatable(n: FieldName) {
    n == Ca || n == Cert || n == Key
  }

  predicate IsPort(n: FieldName) {
    n == RegistrationPort || n == QueryPort || n == WsPort
  }

  // ---------------------------------------------------------------------------
  // Specification
  // ---------------------------------------------------------------------------

  /** The values given for `n`, in order. */
  function Values(fields: seq<Field>, n: FieldName): seq<string> {
    if fields == [] then []
    else
      var last := fields[|fields| - 1];
      Values(fields[..|fields| - 1], n) + if last.name == n then [last.raw] else []
  }

  predicate GoodField(f: Field, rd: Reader) {
    && !f.name.Unknown?
    && (f.name == Host ==> f.raw != "")
    && (IsPort(f.name) ==> rd.Port(f.raw).Some?)
    && (f.name == DisableTls ==> rd.toBool(f.raw).Some?)
  }

  predicate Earlier(fields: seq<Field>, i: nat)
    requires i < |fields|
  {
    exists j | 0 <= j < i :: fields[j].name == fields[i].name
  }

  /** Field `i` is good and, unless it may be repeated, the first of its name. */
  predicate FieldOk(fields: seq<Field>, i: nat, rd: Reader)
    requires i < |fields|
  {
    GoodField(fields[i], rd) && (Repeatable(fields[i].name) || !Earlier(fields, i))
  }

  predicate WellFormed(fields: seq<Field>, rd: Reader) {
    forall i | 0 <= i < |fields| :: FieldOk(fields, i, rd)
  }

  function Last(values: seq<string>, default: string): string {
    if values == [] then default else values[|values| - 1]
  }

  function LastPort(values: seq<string>, default: int, rd: Reader): int {
    if values == [] || rd.Port(values[|values| - 1]).None? then default else rd.Port(values[|values| - 1]).value
  }

  /** A repeatable field: any value given replaces all that was inherited. */
  function Override(values: seq<string>, default: seq<string>): seq<string> {
    if values == [] then default else values
  }

  function LastTls(values: seq<string>, default: bool, rd: Reader): bool {
    if values == [] || rd.toBool(values[|values| - 1]).None? then default else !rd.toBool(values[|values| - 1]).value
  }

  function Overlay(fields: seq<Field>, d: Target, rd: Reader): Target {
    Target(Last(Values(fields, Host), d.host),
           LastPort(Values(fields, RegistrationPort), d.registrationPort, rd),
           LastPort(Values(fields, QueryPort), d.queryPort, rd),
           LastPort(Values(fields, WsPort), d.wsPort, rd),
           LastTls(Values(fields, DisableTls), d.tls, rd),
           Last(Values(fields, CertName), d.certificateName),
           Override(Values(fields, Ca), d.trustedRootCa),
           Override(Values(fields, Cert), d.clientCertificate),
           Override(Values(fields, Key), d.clientKey))
  }

  /** The entry is accepted, and what it says. */
  predicate Accepted(e: Entry, d: Target, rd: Reader) {
    var t := Overlay(e.fields, d, rd);
    !e.blank && WellFormed(e.fields, rd) && t.host != "" && |t.clientCertificate| == |t.clientKey|
  }

  // ---------------------------------------------------------------------------
  // The parser
  // ---------------------------------------------------------------------------

  /** Which of the repeatable fields have replaced their defaults. */
  datatype Overridden = Overridden(ca: bool, cert: bool, key: bool)

  /** The first value of a repeatable field starts a new list. */
  function Extend(values: seq<string>, overridden: bool, raw: string): seq<string> {
    (if overridden then values else []) + [raw]
  }

  /** The branch of the loop for one field. */
  function Apply(t: Target, o: Overridden, f: Field, rd: Reader): Target
    requires GoodField(f, rd)
  {
    match f.name
    case Host => t.(host := f.raw)
    case RegistrationPort => t.(registrationPort := rd.Port(f.raw).value)
    case QueryPort => t.(queryPort := rd.Port(f.raw).value)
    case WsPort => t.(wsPort := rd.Port(f.raw).value)
    case CertName => t.(certificateName := f.raw)
    case Ca => t.(trustedRootCa := Extend(t.trustedRootCa, o.ca, f.raw))
    case Cert => t.(clientCertificate := Extend(t.clientCertificate, o.cert, f.raw))
    case Key => t.(clientKey := Extend(t.clientKey, o.key, f.raw))
    case DisableTls => t.(tls := !rd.toBool(f.raw).value)
    case Unknown(_) => t
  }

  function Given(fields: seq<Field>): Overridden {
    Overridden(Values(fields, Ca) != [], Values(fields, Cert) != [], Values(fields, Key) != [])
  }

  lemma ValuesAppend(fields: seq<Field>, f: Field, n: FieldName)
    ensures Values(fields + [f], n) == Values(fields, n) + if f.name == n then [f.raw] else []
  {
    assert (fields + [f])[..|fields|] == fields;
  }

  lemma TextAppend(fields: seq<Field>, f: Field, n: FieldName, default: string)
    ensures Last(Values(fields + [f], n), default) == if f.name == n then f.raw else Last(Values(fields, n), default)
  {
    ValuesAppend(fields, f, n);
  }

  lemma PortAppend(fields: seq<Field>, f: Field, n: FieldName, default: int, rd: Reader)
    requires GoodField(f, rd) && IsPort(n)
    ensures LastPort(Values(fields + [f], n), default, rd) ==
            if f.name == n then rd.Port(f.raw).value else LastPort(Values(fields, n), default, rd)
  {
    ValuesAppend(fields, f, n);
  }

  lemma TlsAppend(fields: seq<Field>, f: Field, default: bool, rd: Reader)
    requires GoodField(f, rd)
    ensures LastTls(Values(fields + [f], DisableTls), default, rd) ==
            if f.name == DisableTls then !rd.toBool(f.raw).value else LastTls(Values(fields, DisableTls), default, rd)
  {
    ValuesAppend(fields, f, DisableTls);
  }

  lemma ListAppend(fields: seq<Field>, f: Field, n: FieldName, default: seq<string>)
    ensures Override(Values(fields + [f], n), default) ==
            if f.name == n then Extend(Override(Values(fields, n), default), Values(fields, n) != [], f.raw)
            else Override(Values(fields, n), default)
    ensures Values(fields + [f], n) != [] <==> Values(fields, n) != [] || f.name == n
  {
    ValuesAppend(fields, f, n);
  }

  /** One more field, laid over what the fields before it gave. */
  lemma OverlayAppend(fields: seq<Field>, f: Field, d: Target, rd: Reader)
    requires GoodField(f, rd)
    ensures Overlay(fields + [f], d, rd) == Apply(Overlay(fields, d, rd), Given(fields), f, rd)
  {
    TextAppend(fields, f, Host, d.host);
    TextAppend(fields, f, CertName, d.certificateName);
    PortAppend(fields, f, RegistrationPort, d.registrationPort, rd);
    PortAppend(fields, f, QueryPort, d.queryPort, rd);
    PortAppend(fields, f, WsPort, d.wsPort, rd);
    TlsAppend(fields, f, d.tls, rd);
    ListAppend(fields, f, Ca, d.trustedRootCa);
    ListAppend(fields, f, Cert, d.clientCertificate);
    ListAppend(fields, f, Key, d.clientKey);
  }

  lemma GivenAppend(fields: seq<Field>, f: Field)
    ensures Given(fields + [f]) == Mark(Given(fields), f)
  {
    ListAppend(fields, f, Ca, []);
    ListAppend(fields, f, Cert, []);
    ListAppend(fields, f, Key, []);
  }

  function Mark(o: Overridden, f: Field): Overridden {
    Overridden(o.ca || f.name == Ca, o.cert || f.name == Cert, o.key || f.name == Key)
  }

  /** The target and the marks after the first `i` fields. */
  function ApplyFirst(fields: seq<Field>, i: nat, d: Target, rd: Reader): (Target, Overridden)
    requires i <= |fields| && forall j | 0 <= j < i :: FieldOk(fields, j, rd)
  {
    if i == 0 then (d, Overridden(false, false, false))
    else
      var (t, o) := ApplyFirst(fields, i - 1, d, rd);
      assert FieldOk(fields, i - 1, rd);
      (Apply(t, o, fields[i - 1], rd), Mark(o, fields[i - 1]))
  }

  lemma OneMoreField(fields: seq<Field>, f: Field, d: Target, rd: Reader)
    requires GoodField(f, rd)
    ensures (Overlay(fields + [f], d, rd), Given(fields + [f]))
            == (Apply(Overlay(fields, d, rd), Given(fields), f, rd), Mark(Given(fields), f))
  {
    OverlayAppend(fields, f, d, rd);
    GivenAppend(fields, f);
  }

  lemma {:induction false} ApplyFirstIsOverlay(fields: seq<Field>, i: nat, d: Target, rd: Reader)
    requires i <= |fields| && forall j | 0 <= j < i :: FieldOk(fields, j, rd)
    ensures ApplyFirst(fields, i, d, rd) == (Overlay(fields[..i], d, rd), Given(fields[..i]))
  {
    if i > 0 {
      ApplyFirstIsOverlay(fields, i - 1, d, rd);
      assert FieldOk(fields, i - 1, rd);
      assert fields[..i] == fields[..i - 1] + [fields[i - 1]];
      OneMoreField(fields[..i - 1], fields[i - 1], d, rd);
    }
  }

  /** The loop over the fields, which stops at the first bad one. */
  method ApplyFields(fields: seq<Field>, d: Target, rd: Reader) returns (r: Result<Target>)
    ensures r.Ok? <==> WellFormed(fields, rd)
    ensures r.Ok? ==> r.value == ApplyFirst(fields, |fields|, d, rd).0
  {
    var t, o := d, Overridden(false, false, false);
    var seen: set<FieldName> := {};
    for i := 0 to |fields|
      invariant forall j | 0 <= j < i :: FieldOk(fields, j, rd)
      invariant (t, o) == ApplyFirst(fields, i, d, rd)
      invariant forall j | 0 <= j < i :: fields[j].name in seen
      invariant forall n <- seen :: exists j | 0 <= j < i :: fields[j].name == n
    {
      var f := fields[i];
      assert f.name in seen <==> Earlier(fields, i);
      if !GoodField(f, rd) {
        assert !FieldOk(fields, i, rd);
        return Raised;
      }
      if !Repeatable(f.name) && f.name in seen {
        assert !FieldOk(fields, i, rd);
        return Raised;
      }
      seen := seen + {f.name};
      t, o := Apply(t, o, f, rd), Mark(o, f);
    }
    return Ok(t);
  }

  /** `parse_rds_spec`. */
  method ParseRdsSpec(e: Entry, d: Target, rd: Reader) returns (r: Result<Target>)
    ensures r.Ok? <==> Accepted(e, d, rd)
    ensures r.Ok? <==>
              var t := Overlay(e.fields, d, rd);
              !e.blank && WellFormed(e.fields, rd) && t.host != "" && |t.clientCertificate| == |t.clientKey|
    ensures r.Ok? ==> r.value == Overlay(e.fields, d, rd)
  {
    if e.blank {
      return Raised;
    }
    var t :- ApplyFields(e.fields, d, rd);
    ApplyFirstIsOverlay(e.fields, |e.fields|, d, rd);
    assert e.fields[..|e.fields|] == e.fields;
    if t.host == "" || |t.clientCertificate| != |t.clientKey| {
      return Raised;
    }
    return Ok(t);
  }

  // ---------------------------------------------------------------------------
  // The order of the fields
  // ---------------------------------------------------------------------------

  /** The values of one name are good, and more than one only if it may be repeated. */
  ghost predicate ValuesOk(n: FieldName, values: seq<string>, rd: Reader) {
    && (forall v <- values :: GoodField(Field(n, v), rd))
    && (Repeatable(n) || |values| <= 1)
  }

  ghost predicate NameOk(fields: seq<Field>, n: FieldName, rd: Reader) {
    ValuesOk(n, Values(fields, n), rd)
  }

  lemma {:induction false} NamedIffValues(fields: seq<Field>, n: FieldName)
    ensures (exists j | 0 <= j < |fields| :: fields[j].name == n) <==> Values(fields, n) != []
  {
    if fields != [] {
      var init, last := fields[..|fields| - 1], fields[|fields| - 1];
      NamedIffValues(init, n);
      if j :| 0 <= j < |fields| && fields[j].name == n && j < |init| {
        assert init[j].name == n;
      }
    }
  }

  lemma WellFormedAppend(init: seq<Field>, last: Field, rd: Reader)
    ensures WellFormed(init + [last], rd) <==>
              WellFormed(init, rd) && GoodField(last, rd) && (Repeatable(last.name) || Values(init, last.name) == [])
  {
    var fields := init + [last];
    NamedIffValues(init, last.name);
    forall i | 0 <= i < |init|
      ensures FieldOk(fields, i, rd) <==> FieldOk(init, i, rd)
    {
      assert forall j | 0 <= j <= i :: fields[j] == init[j];
    }
    assert fields[|init|] == last && forall j | 0 <= j < |init| :: fields[j] == init[j];
    assert Earlier(fields, |init|) <==> Values(init, last.name) != [];
    assert FieldOk(fields, |init|, rd) <==> GoodField(last, rd) && (Repeatable(last.name) || Values(init, last.name) == []);
  }

  /** Whether the fields are well formed shows name by name. */
  lemma {:induction false} WellFormedByValues(fields: seq<Field>, rd: Reader)
    ensures WellFormed(fields, rd) <==> forall n: FieldName :: NameOk(fields, n, rd)
  {
    if fields == [] {
      assert forall n: FieldName :: NameOk(fields, n, rd);
    } else {
      var init, last := fields[..|fields| - 1], fields[|fields| - 1];
      assert fields == init + [last];
      WellFormedByValues(init, rd);
      WellFormedAppend(init, last, rd);
      forall n: FieldName
        ensures NameOk(fields, n, rd) <==>
                  && NameOk(init, n, rd)
                  && (n == last.name ==> GoodField(last, rd) && (Repeatable(n) || Values(init, n) == []))
      {
        ValuesAppend(init, last, n);
        OneMoreValue(n, Values(init, n), last.raw, rd);
      }
      assert NameOk(fields, last.name, rd) ==> GoodField(last, rd);
    }
  }

  lemma OneMoreValue(n: FieldName, values: seq<string>, raw: string, rd: Reader)
    ensures ValuesOk(n, values + [raw], rd) <==>
              ValuesOk(n, values, rd) && GoodField(Field(n, raw), rd) && (Repeatable(n) || values == [])
  {
    assert forall v :: v in values + [raw] <==> v in values || v == raw;
  }

  /** Rearranging the fields, but not those of one name, changes neither the verdict nor the target. */
  lemma OrderIrrelevant(e: Entry, e': Entry, d: Target, rd: Reader)
    requires e.blank == e'.blank && forall n: FieldName :: Values(e.fields, n) == Values(e'.fields, n)
    ensures Accepted(e, d, rd) <==> Accepted(e', d, rd)
    ensures Overlay(e.fields, d, rd) == Overlay(e'.fields, d, rd)
  {
    WellFormedByValues(e.fields, rd);
    WellFormedByValues(e'.fields, rd);
    assert forall n: FieldName :: NameOk(e.fields, n, rd) <==> NameOk(e'.fields, n, rd);
  }

  lemma {:induction false} ValuesConcat(a: seq<Field>, b: seq<Field>, n: FieldName)
    ensures Values(a + b, n) == Values(a, n) + Values(b, n)
  {
    if b == [] {
      assert a + b == a;
    } else {
      var init, last := b[..|b| - 1], b[|b| - 1];
      assert b == init + [last] && a + b == a + init + [last];
      ValuesConcat(a, init, n);
      ValuesAppend(a + init, last, n);
      ValuesAppend(init, last, n);
    }
  }

  lemma ValuesOfExchanged(before: seq<Field>, f: Field, g: Field, n: FieldName)
    requires f.name != g.name
    ensures Values(before + [f, g], n) == Values(before + [g, f], n)
  {
    assert before + [f, g] == before + [f] + [g] && before + [g, f] == before + [g] + [f];
    ValuesAppend(before + [f], g, n);
    ValuesAppend(before, f, n);
    ValuesAppend(before + [g], f, n);
    ValuesAppend(before, g, n);
  }

  /** In particular, two adjacent fields of different names may be exchanged. */
  lemma ExchangeIrrelevant(before: seq<Field>, f: Field, g: Field, after: seq<Field>, blank: bool, d: Target, rd: Reader)
    requires f.name != g.name
    ensures var e, e' := Entry(blank, before + [f, g] + after), Entry(blank, before + [g, f] + after);
            && (Accepted(e, d, rd) <==> Accepted(e', d, rd))
            && Overlay(e.fields, d, rd) == Overlay(e'.fields, d, rd)
  {
    var e, e' := Entry(blank, before + [f, g] + after), Entry(blank, before + [g, f] + after);
    forall n: FieldName
      ensures Values(e.fields, n) == Values(e'.fields, n)
    {
      ValuesConcat(before + [f, g], after, n);
      ValuesConcat(before + [g, f], after, n);
      ValuesOfExchanged(before, f, g, n);
    }
    OrderIrrelevant(e, e', d, rd);
  }

  // ---------------------------------------------------------------------------
  // The target list
  // ---------------------------------------------------------------------------

  predicate AllAccepted(entries: seq<Entry>, d: Target, rd: Reader) {
    forall i | 0 <= i < |entries| :: Accepted(entries[i], d, rd)
  }

  function Overlays(entries: seq<Entry>, d: Target, rd: Reader): seq<Target> {
    seq(|entries|, i requires 0 <= i < |entries| => Overlay(entries[i].fields, d, rd))
  }

  lemma OneIsDistinct(d: Target)
    ensures DistinctAddresses([]) && DistinctAddresses([d])
  {
  }

  lemma DistinctOverlays(entries: seq<Entry>, d: Target, rd: Reader)
    ensures DistinctAddresses(Overlays(entries, d, rd)) <==>
              forall i, j | 0 <= i < j < |entries| ::
                var (t, u) := (Overlay(entries[i].fields, d, rd), Overlay(entries[j].fields, d, rd));
                t.host != u.host || t.registrationPort != u.registrationPort
  {
    hide Overlay;
    var targets := Overlays(entries, d, rd);
    assert forall i | 0 <= i < |entries| :: targets[i] == Overlay(entries[i].fields, d, rd);
  }

  /**
   `build_targets`: without entries the default stands alone, if it names a host; otherwise
   each entry, in order, and only if no two share host and registration port.
   */
  method BuildTargets(entries: seq<Entry>, d: Target, rd: Reader) returns (r: Result<seq<Target>>)
    ensures entries == [] ==> r == Ok(if d.host == "" then [] else [d])
    ensures entries != [] ==>
              (r.Ok? <==> && AllAccepted(entries, d, rd) && |entries| <= 5
                          && forall i, j | 0 <= i < j < |entries| ::
                               var (t, u) := (Overlay(entries[i].fields, d, rd), Overlay(entries[j].fields, d, rd));
                               t.host != u.host || t.registrationPort != u.registrationPort)
    ensures entries != [] && r.Ok? ==> r.value == Overlays(entries, d, rd)
    ensures r.Ok? ==> DistinctAddresses(r.value)
  {
    hide Overlay, Accepted, DistinctAddresses;
    if entries == [] {
      OneIsDistinct(d);
      return Ok(if d.host == "" then [] else [d]);
    }
    var targets :- ParseAll(entries, d, rd);
    DistinctOverlays(entries, d, rd);
    if |targets| > MAX_REGISTRIES {
      return Raised;
    }
    var distinct := AllDistinct(targets);
    return if distinct then Ok(targets) else Raised;
  }

  method ParseAll(entries: seq<Entry>, d: Target, rd: Reader) returns (r: Result<seq<Target>>)
    ensures r.Ok? <==> AllAccepted(entries, d, rd)
    ensures r.Ok? ==> r.value == Overlays(entries, d, rd)
  {
    var targets: seq<Target> := [];
    for i := 0 to |entries|
      invariant |targets| == i
      invariant forall j | 0 <= j < i :: Accepted(entries[j], d, rd) && targets[j] == Overlay(entries[j].fields, d, rd)
    {
      var t :- ParseRdsSpec(entries[i], d, rd);
      targets := targets + [t];
    }
    return Ok(targets);
  }

  /** The loop that remembers the addresses seen. */
  method AllDistinct(targets: seq<Target>) returns (distinct: bool)
    ensures distinct <==> DistinctAddresses(targets)
  {
    var seen: set<(string, int)> := {};
    for i := 0 to |targets|
      invariant DistinctAddresses(targets[..i])
      invariant forall j | 0 <= j < i :: Address(targets[j]) in seen
      invariant forall p <- seen :: exists j | 0 <= j < i :: Address(targets[j]) == p
    {
      var pair := (targets[i].host, targets[i].registrationPort);
      if pair in seen {
        return false;
      }
      seen := seen + {pair};
    }
    assert targets[..|targets|] == targets;
    return true;
  }

  // ---------------------------------------------------------------------------
  // What one entry says, field by field
  // ---------------------------------------------------------------------------

  /** The places of the fields named `n`, in order. */
  ghost predicate Places(fields: seq<Field>, n: FieldName, places: seq<nat>) {
    && (forall i, j | 0 <= i < j < |places| :: places[i] < places[j])
    && forall k: nat :: k in places <==> k < |fields| && fields[k].name == n
  }

  lemma {:induction false} ValuesPlaced(fields: seq<Field>, n: FieldName) returns (places: seq<nat>)
    ensures Places(fields, n, places) && |places| == |Values(fields, n)|
    ensures forall i | 0 <= i < |places| :: places[i] < |fields| && Values(fields, n)[i] == fields[places[i]].raw
  {
    if fields == [] {
      places := [];
    } else {
      var init, last := fields[..|fields| - 1], fields[|fields| - 1];
      var before := ValuesPlaced(init, n);
      places := before + if last.name == n then [|init|] else [];
      assert forall i | 0 <= i < |before| :: before[i] in before;
      assert forall k: nat | k < |init| :: fields[k] == init[k];
    }
  }

  /**
   Which entries are well formed: every name is known, a host is not empty, a port reads as a number
   from 1 to 65535 and a switch as a boolean, and only certificates, keys and authorities repeat.
   */
  lemma WellFormedExactly(fields: seq<Field>, rd: Reader)
    ensures WellFormed(fields, rd) <==>
              && (forall f <- fields ::
                    match f.name
                    case Unknown(_) => false
                    case Host => f.raw != ""
                    case RegistrationPort => rd.toInt(f.raw).Some? && 1 <= rd.toInt(f.raw).value <= 65535
                    case QueryPort => rd.toInt(f.raw).Some? && 1 <= rd.toInt(f.raw).value <= 65535
                    case WsPort => rd.toInt(f.raw).Some? && 1 <= rd.toInt(f.raw).value <= 65535
                    case DisableTls => rd.toBool(f.raw).Some?
                    case _ => true)
              && forall i, j | 0 <= i < j < |fields| && fields[i].name == fields[j].name ::
                   fields[i].name == Ca || fields[i].name == Cert || fields[i].name == Key
  {
    assert forall i | 0 <= i < |fields| :: fields[i] in fields;
    if WellFormed(fields, rd) {
      forall i, j | 0 <= i < j < |fields| && fields[i].name == fields[j].name
        ensures Repeatable(fields[i].name)
      {
        assert FieldOk(fields, j, rd) && Earlier(fields, j);
      }
      forall f | f in fields
        ensures GoodField(f, rd)
      {
        var i :| 0 <= i < |fields| && fields[i] == f;
        assert FieldOk(fields, i, rd);
      }
    }
  }

  /** A name that is not given leaves the default, in every part of the target. */
  lemma AbsentExactly(fields: seq<Field>, d: Target, rd: Reader, n: FieldName)
    requires forall f <- fields :: f.name != n
    ensures var t := Overlay(fields, d, rd);
            match n
            case Host => t.host == d.host
            case RegistrationPort => t.registrationPort == d.registrationPort
            case QueryPort => t.queryPort == d.queryPort
            case WsPort => t.wsPort == d.wsPort
            case CertName => t.certificateName == d.certificateName
            case Ca => t.trustedRootCa == d.trustedRootCa
            case Cert => t.clientCertificate == d.clientCertificate
            case Key => t.clientKey == d.clientKey
            case DisableTls => t.tls == d.tls
            case Unknown(_) => true
  {
    hide Last, LastPort, Override, LastTls;
    AbsentParts(d, rd);
    AbsentValues(fields, n);
  }

  lemma {:induction false} AbsentValues(fields: seq<Field>, n: FieldName)
    requires forall f <- fields :: f.name != n
    ensures Values(fields, n) == []
  {
    if fields != [] {
      AbsentValues(fields[..|fields| - 1], n);
    }
  }

  lemma AbsentParts(d: Target, rd: Reader)
    ensures Last([], d.host) == d.host && Last([], d.certificateName) == d.certificateName
    ensures LastPort([], d.registrationPort, rd) == d.registrationPort && LastPort([], d.queryPort, rd) == d.queryPort
    ensures LastPort([], d.wsPort, rd) == d.wsPort && LastTls([], d.tls, rd) == d.tls
    ensures Override([], d.trustedRootCa) == d.trustedRootCa && Override([], d.clientKey) == d.clientKey
    ensures Override([], d.clientCertificate) == d.clientCertificate
  {
  }

  /**
   Field `i` of a well-formed entry replaces its default; a switch that disables TLS clears it.  The
   values of a repeatable name, in order, replace the whole list.
   */
  lemma GivenExactly(fields: seq<Field>, d: Target, rd: Reader, i: nat) returns (places: seq<nat>)
    requires WellFormed(fields, rd) && i < |fields|
    ensures Places(fields, fields[i].name, places)
    ensures var (t, raw) := (Overlay(fields, d, rd), fields[i].raw);
            match fields[i].name
            case Host => t.host == raw
            case RegistrationPort => rd.toInt(raw) == Some(t.registrationPort)
            case QueryPort => rd.toInt(raw) == Some(t.queryPort)
            case WsPort => rd.toInt(raw) == Some(t.wsPort)
            case CertName => t.certificateName == raw
            case Ca => Lists(fields, places, t.trustedRootCa)
            case Cert => Lists(fields, places, t.clientCertificate)
            case Key => Lists(fields, places, t.clientKey)
            case DisableTls => rd.toBool(raw) == Some(!t.tls)
            case Unknown(_) => false
  {
    hide Last, LastPort, LastTls, Override, WellFormed, GoodField, Values, Lists;
    var n := fields[i].name;
    places := ValuesPlaced(fields, n);
    assert i in places;
    GivenIsGood(fields, i, rd);
    if Repeatable(n) {
      ManyParts(d, Values(fields, n));
      ListsValues(fields, places, Values(fields, n));
    } else {
      OnlyPlace(fields, n, places, i, rd);
      assert Values(fields, n) == [fields[i].raw];
      OneParts(d, rd, fields[i]);
    }
  }

  lemma GivenIsGood(fields: seq<Field>, i: nat, rd: Reader)
    requires WellFormed(fields, rd) && i < |fields|
    ensures GoodField(fields[i], rd)
  {
    assert FieldOk(fields, i, rd);
  }

  /** The parts of a target that one value gives. */
  lemma OneParts(d: Target, rd: Reader, f: Field)
    requires GoodField(f, rd)
    ensures Last([f.raw], d.host) == f.raw && Last([f.raw], d.certificateName) == f.raw
    ensures IsPort(f.name) ==>
              forall default: int :: rd.toInt(f.raw) == Some(LastPort([f.raw], default, rd))
    ensures f.name == DisableTls ==> rd.toBool(f.raw) == Some(!LastTls([f.raw], d.tls, rd))
    ensures !f.name.Unknown?
  {
  }

  lemma ManyParts(d: Target, values: seq<string>)
    requires values != []
    ensures Override(values, d.trustedRootCa) == values && Override(values, d.clientCertificate) == values
    ensures Override(values, d.clientKey) == values
  {
  }

  lemma ListsValues(fields: seq<Field>, places: seq<nat>, values: seq<string>)
    requires |places| == |values|
    requires forall i | 0 <= i < |places| :: places[i] < |fields| && values[i] == fields[places[i]].raw
    ensures Lists(fields, places, values)
  {
  }

  /** `values` are the fields at `places`, in order. */
  ghost predicate Lists(fields: seq<Field>, places: seq<nat>, values: seq<string>) {
    |values| == |places| && forall k | 0 <= k < |places| :: places[k] < |fields| && values[k] == fields[places[k]].raw
  }

  lemma NotRepeated(fields: seq<Field>, i: nat, j: nat, rd: Reader)
    requires WellFormed(fields, rd) && i < |fields| && j < |fields|
    requires fields[i].name == fields[j].name && !Repeatable(fields[i].name)
    ensures i == j
  {
    WellFormedExactly(fields, rd);
  }

  lemma FirstTwo(places: seq<nat>)
    requires forall i, j | 0 <= i < j < |places| :: places[i] < places[j]
    ensures |places| > 1 ==> places[0] < places[1]
  {
  }

  lemma OnlyPlace(fields: seq<Field>, n: FieldName, places: seq<nat>, i: nat, rd: Reader)
    requires WellFormed(fields, rd) && Places(fields, n, places) && !Repeatable(n) && i in places
    ensures places == [i]
  {
    hide WellFormed;
    forall k | 0 <= k < |places|
      ensures places[k] == i
    {
      assert places[k] in places;
      NotRepeated(fields, places[k], i, rd);
    }
    FirstTwo(places);
  }
}
