/** Ordered registries and the shared selector of nmos/rds_targets.py. */
module Failover {
  import opened Outcome

  const MAX_REGISTRIES := 5

  datatype Target = Target(host: string, registrationPort: int, queryPort: int, wsPort: int, tls: bool,
                           certificateName: string, trustedRootCa: seq<string>,
                           clientCertificate: seq<string>, clientKey: seq<string>)

  // ---------------------------------------------------------------------------
  // The target list
  // ---------------------------------------------------------------------------

  function Address(t: Target): (string, int) {
    (t.host, t.registrationPort)
  }

  ghost predicate DistinctAddresses(targets: seq<Target>) {
    forall i, j | 0 <= i < j < |targets| :: Address(targets[i]) != Address(targets[j])
  }

  // ---------------------------------------------------------------------------
  // The selector
  // ---------------------------------------------------------------------------

  /** The index after `target` is reported, from `index`. */
  function Advance(targets: seq<Target>, index: nat, target: Target): nat
    requires index < |targets|
  {
    if target != targets[index] || |targets| <= 1 then index else (index + 1) % |targets|
  }

  class RegistrySelector {
    const targets: seq<Target>
    var index: nat
    var failures: nat

    ghost predicate Valid()
      reads this
    {
      index < |targets| && index == failures % |targets| && (|targets| == 1 ==> failures == 0)
    }

    constructor (targets: seq<Target>)
      requires targets != []
      ensures Valid() && this.targets == targets && index == 0 && failures == 0
    {
      this.targets := targets;
      index, failures := 0, 0;
    }

    /** Creation as callers see it: an empty list is refused. */
    static method Create(targets: seq<Target>) returns (r: Result<RegistrySelector>)
      ensures r.Raised? <==> targets == []
      ensures r.Ok? ==> fresh(r.value) && r.value.Valid() && r.value.targets == targets && r.value.failures == 0
    {
      if targets == [] {
        return Raised;
      }
      var selector := new RegistrySelector(targets);
      return Ok(selector);
    }

    function Current(): (t: Target)
      requires Valid()
      reads this
      ensures t == targets[failures % |targets|]
    {
      targets[index]
    }

    /** Report `target` as unusable; the selection moves only if it was the current one. */
    method Fail(target: Target) returns (now: Target)
      requires Valid()
      modifies this`index, this`failures
      ensures Valid() && now == Current() && now == targets[index]
      ensures index == Advance(targets, old(index), target)
      ensures index == if target == targets[old(index)] && |targets| > 1 then (old(index) + 1) % |targets| else old(index)
      ensures failures == if old(index) != Advance(targets, old(index), target) then old(failures) + 1 else old(failures)
    {
      if target != targets[index] {
        return targets[index];
      }
      if |targets| <= 1 {
        return targets[index];
      }
      NextModulo(failures, |targets|);
      index := (index + 1) % |targets|;
      failures := failures + 1;
      return targets[index];
    }
  }

  lemma {:induction false} ProductsApart(a: nat, b: nat, n: nat)
    requires a < b
    ensures a * n + n <= b * n
  {
    assert b * n == (b - 1) * n + n;
    if a < b - 1 {
      ProductsApart(a, b - 1, n);
    }
  }

  /** Two numbers with the same remainder that are less than `n` apart are equal. */
  lemma ModuloDistinct(a: nat, b: nat, n: nat)
    requires n > 0 && a <= b < a + n && a % n == b % n
    ensures a == b
  {
    var p, q := a / n, b / n;
    assert a == p * n + a % n && b == q * n + b % n;
    if p < q {
      ProductsApart(p, q, n);
    }
  }

  lemma SameRemainder(x: nat, n: nat, q: nat, r: nat)
    requires n > 0 && x == q * n + r && r < n
    ensures x % n == r
  {
    var p := x / n;
    assert x == p * n + x % n;
    if p < q {
      ProductsApart(p, q, n);
    } else if q < p {
      ProductsApart(q, p, n);
    }
  }

  lemma NextModulo(k: nat, n: nat)
    requires n > 1
    ensures (k % n + 1) % n == (k + 1) % n && (k + 1) % n != k % n
  {
    var q := k / n;
    assert k == q * n + k % n;
    if k % n + 1 < n {
      SameRemainder(k + 1, n, q, k % n + 1);
    } else {
      assert (q + 1) * n == q * n + n;
      SameRemainder(k + 1, n, q + 1, 0);
    }
  }

  // ---------------------------------------------------------------------------
  // Every interleaving of reports
  // ---------------------------------------------------------------------------

  /** The index after a run of reports, by any clients in any order. */
  function Run(targets: seq<Target>, index: nat, reports: seq<Target>): nat
    requires index < |targets|
    ensures Run(targets, index, reports) < |targets|
    decreases reports
  {
    if reports == [] then index else Run(targets, Advance(targets, index, reports[0]), reports[1..])
  }

  /** The reports that moved the selection, in order. */
  function Effective(targets: seq<Target>, index: nat, reports: seq<Target>): seq<Target>
    requires index < |targets|
    decreases reports
  {
    if reports == [] then []
    else
      var next := Advance(targets, index, reports[0]);
      (if next != index then [reports[0]] else []) + Effective(targets, next, reports[1..])
  }

  /**
   Over any interleaving of clients, the reports that take effect are the targets in cyclic
   order from the one first selected, and the index is that of the next one.
   */
  lemma {:induction false} EffectiveIsCyclic(targets: seq<Target>, index: nat, reports: seq<Target>, m: nat)
    requires |targets| > 1 && index == m % |targets|
    ensures var moved := Effective(targets, index, reports);
            && Run(targets, index, reports) == (m + |moved|) % |targets|
            && forall k | 0 <= k < |moved| :: moved[k] == targets[(m + k) % |targets|]
    decreases reports
  {
    if reports != [] {
      NextModulo(m, |targets|);
      var next := Advance(targets, index, reports[0]);
      var rest := Effective(targets, next, reports[1..]);
      if next != index {
        EffectiveIsCyclic(targets, next, reports[1..], m + 1);
        forall k | 0 <= k < |rest| + 1
          ensures ([reports[0]] + rest)[k] == targets[(m + k) % |targets|]
        {
          assert k > 0 ==> m + k == m + 1 + (k - 1);
        }
      } else {
        EffectiveIsCyclic(targets, next, reports[1..], m);
        assert [] + rest == rest;
      }
    }
  }

  /** No target is left a second time before every other target has been left once. */
  lemma NoneRepeatedEarly(targets: seq<Target>, reports: seq<Target>, i: nat, j: nat)
    requires |targets| > 1 && DistinctAddresses(targets)
    requires i < j < i + |targets| && j < |Effective(targets, 0, reports)|
    ensures Effective(targets, 0, reports)[i] != Effective(targets, 0, reports)[j]
  {
    EffectiveIsCyclic(targets, 0, reports, 0);
    var n := |targets|;
    if i % n == j % n {
      ModuloDistinct(i, j, n);
    } else {
      assert Address(targets[i % n]) != Address(targets[j % n]);
    }
  }

  lemma StaleReports(targets: seq<Target>, index: nat, target: Target, reports: seq<Target>)
    requires index < |targets| && target != targets[index]
    requires forall i | 0 <= i < |reports| :: reports[i] == target
    ensures Run(targets, index, reports) == index && Effective(targets, index, reports) == []
    decreases reports
  {
    if reports != [] {
      StaleReports(targets, index, target, reports[1..]);
    }
  }

  /** However often one outage is reported, the selection moves once. */
  lemma OneOutageOneMove(targets: seq<Target>, index: nat, target: Target, reports: seq<Target>)
    requires index < |targets| && DistinctAddresses(targets) && |targets| > 1
    requires forall i | 0 <= i < |reports| :: reports[i] == target
    ensures Run(targets, index, reports) == if reports == [] || target != targets[index] then index else (index + 1) % |targets|
    ensures |Effective(targets, index, reports)| <= 1
  {
    if target != targets[index] {
      StaleReports(targets, index, target, reports);
    } else if reports != [] {
      var next := Advance(targets, index, reports[0]);
      NextModulo(index, |targets|);
      assert Address(targets[next]) != Address(targets[index]);
      StaleReports(targets, next, target, reports[1..]);
    }
  }

  /** With a single registry nothing ever moves. */
  lemma {:induction false} SingleNeverMoves(targets: seq<Target>, reports: seq<Target>)
    requires |targets| == 1
    ensures Run(targets, 0, reports) == 0 && Effective(targets, 0, reports) == []
    decreases reports
  {
    if reports != [] {
      SingleNeverMoves(targets, reports[1..]);
    }
  }

  /** Without distinct targets one outage could move the selection twice. */
  lemma DuplicatesSkip(t: Target, u: Target)
    requires t != u
    ensures Run([t, t, u], 0, [t, t]) == 2
  {
    assert [t, t][1..] == [t] && [t][1..] == [];
    assert Run([t, t, u], 1, [t]) == 2;
  }

  /** The class carries out any run of reports. */
  method ReportAll(selector: RegistrySelector, reports: seq<Target>) returns (now: Target)
    requires selector.Valid()
    modifies selector
    ensures selector.Valid() && now == selector.Current()
    ensures selector.index == Run(selector.targets, old(selector.index), reports)
    ensures selector.failures == old(selector.failures) + |Effective(selector.targets, old(selector.index), reports)|
  {
    now := selector.Current();
    for k := 0 to |reports|
      invariant selector.Valid() && now == selector.Current()
      invariant Run(selector.targets, old(selector.index), reports) == Run(selector.targets, selector.index, reports[k..])
      invariant old(selector.failures) + |Effective(selector.targets, old(selector.index), reports)|
                == selector.failures + |Effective(selector.targets, selector.index, reports[k..])|
    {
      assert reports[k..][0] == reports[k] && reports[k..][1..] == reports[k + 1..];
      now := selector.Fail(reports[k]);
    }
  }
}
