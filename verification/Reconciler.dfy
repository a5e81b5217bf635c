/** The provider interface and the three-phase reconcile of external-lb.go over it. */
module Reconciler {
  import opened Model
  import opened Rounds
  import opened Seqs
  import opened TargetDiff
  import opened Text

  datatype Op = ADD | REMOVE | UPDATE

  function Views(configs: map<string, LBConfig>): Store {
    map e | e in configs :: View(configs[e])
  }

  // The fully qualified names the provider knows, by endpoint.
  type Names = map<string, string>

  function NameOf(names: Names, e: string): string {
    if e in names then names[e] else ""
  }

  // A provider as the controller assumes it: a store from endpoints to entries that lists what it
  // holds. Calls on a faulty endpoint fail without effect; an unreachable provider cannot be listed.
  class Provider {
    var configs: map<string, LBConfig>
    var faulty: set<string>
    var unreachable: bool
    const fqdns: Names
    ghost var held: Store  // what a listing shows of the configurations
    ghost var calls: seq<Call>

    ghost predicate Valid()
      reads this
    {
      WellKeyed(configs) && held == Views(configs)
    }

    constructor (fqdns: Names)
      ensures Valid() && held == map[] && calls == [] && faulty == {} && !unreachable
      ensures this.fqdns == fqdns
    {
      this.fqdns := fqdns;
      configs, faulty, unreachable := map[], {}, false;
      held, calls := map[], [];
    }

    method GetLBConfigs() returns (r: Result<seq<LBConfig>>)
      requires Valid()
      ensures r.Err? <==> unreachable
      ensures r.Ok? ==> Lists(r.value, held)
    {
      if unreachable {
        return Err;
      }
      var listed: seq<LBConfig> := [];
      var rest := configs.Keys;
      while rest != {}
        invariant rest <= configs.Keys
        invariant ListsPart(listed, held, configs.Keys - rest)
      {
        var e :| e in rest;
        ListOneMore(listed, held, configs.Keys - rest, configs[e]);
        assert configs.Keys - (rest - {e}) == configs.Keys - rest + {e};
        listed := listed + [configs[e]];
        rest := rest - {e};
      }
      r := Ok(listed);
    }

    method AddLBConfig(config: LBConfig) returns (r: Result<string>)
      requires Valid()
      modifies this`configs, this`held, this`calls
      ensures Valid() && calls == old(calls) + [Add(config)]
      ensures held == Apply(old(held), Add(config), faulty)
      ensures r == if config.endpoint in faulty then Err else Ok(NameOf(fqdns, config.endpoint))
    {
      calls := calls + [Add(config)];
      if config.endpoint in faulty {
        return Err;
      }
      configs := configs[config.endpoint := config];
      held := held[config.endpoint := View(config)];
      r := Ok(NameOf(fqdns, config.endpoint));
    }

    method UpdateLBConfig(config: LBConfig) returns (r: Result<string>)
      requires Valid()
      modifies this`configs, this`held, this`calls
      ensures Valid() && calls == old(calls) + [Update(config)]
      ensures held == Apply(old(held), Update(config), faulty)
      ensures r == if config.endpoint in faulty then Err else Ok(NameOf(fqdns, config.endpoint))
    {
      calls := calls + [Update(config)];
      if config.endpoint in faulty {
        return Err;
      }
      configs := configs[config.endpoint := config];
      held := held[config.endpoint := View(config)];
      r := Ok(NameOf(fqdns, config.endpoint));
    }

    method RemoveLBConfig(config: LBConfig) returns (ok: bool)
      requires Valid()
      modifies this`configs, this`held, this`calls
      ensures Valid() && calls == old(calls) + [Remove(config)]
      ensures held == Apply(old(held), Remove(config), faulty)
      ensures ok <==> config.endpoint !in faulty
    {
      calls := calls + [Remove(config)];
      ok := config.endpoint !in faulty;
      if ok {
        configs := configs - {config.endpoint};
        held := held - {config.endpoint};
      }
    }
  }

  function CallOf(op: Op, c: LBConfig): Call {
    match op
    case ADD => Add(c)
    case REMOVE => Remove(c)
    case UPDATE => Update(c)
  }

  function CallsOf(op: Op, cs: seq<LBConfig>): seq<Call> {
    seq(|cs|, i requires 0 <= i < |cs| => CallOf(op, cs[i]))
  }

  function RoundCalls(removed: seq<LBConfig>, added: seq<LBConfig>, changed: seq<LBConfig>): seq<Call> {
    CallsOf(REMOVE, removed) + CallsOf(ADD, added) + CallsOf(UPDATE, changed)
  }

  // What each phase is for, given well-keyed maps.
  ghost function Extra(desired: Desired, snap: Desired): set<LBConfig> {
    set c | c in snap.Values && c.endpoint !in desired
  }

  ghost function Missing(desired: Desired, snap: Desired): set<LBConfig> {
    set c | c in desired.Values && c.endpoint !in snap
  }

  ghost function Differing(desired: Desired, snap: Desired): set<LBConfig> {
    set c | c in desired.Values && c.endpoint in snap && Changed(c, snap[c.endpoint])
  }

  // The list of a phase: the wanted configurations, one for each endpoint, in any order.
  ghost predicate Selects(cs: seq<LBConfig>, wanted: set<LBConfig>) {
    DistinctEndpoints(cs) && Elements(cs) == wanted
  }

  // The part of a phase's work at the endpoints already visited.
  ghost function At(wanted: set<LBConfig>, rest: set<string>): set<LBConfig> {
    set c | c in wanted && c.endpoint !in rest
  }

  // Visiting one more endpoint selects its configuration when it is wanted.
  lemma VisitOne(cs: seq<LBConfig>, from: Desired, wanted: set<LBConfig>, rest: set<string>, e: string)
    requires WellKeyed(from) && wanted <= from.Values
    requires Selects(cs, At(wanted, rest)) && e in rest && e in from
    ensures Selects(if from[e] in wanted then cs + [from[e]] else cs, At(wanted, rest - {e}))
  {
    var c := from[e];
    assert forall d :: d in wanted && d.endpoint == e ==> d == c;
    if c in wanted {
      var more := cs + [c];
      forall i | 0 <= i < |cs| ensures cs[i].endpoint != e {
        assert cs[i] in At(wanted, rest);
      }
      assert Elements(more) == Elements(cs) + {c};
      assert At(wanted, rest - {e}) == At(wanted, rest) + {c};
    } else {
      assert At(wanted, rest - {e}) == At(wanted, rest);
    }
  }

  // A fully qualified name is reported when a successful add or update answered with it.
  predicate Answers(names: Names, faulty: set<string>, call: Call, fqdn: string) {
    !call.Remove? && call.config.endpoint !in faulty && NameOf(names, call.config.endpoint) == fqdn && fqdn != ""
  }

  ghost predicate Reports(names: Names, faulty: set<string>, updated: map<string, LBConfig>, calls: seq<Call>) {
    && (forall i, f :: 0 <= i < |calls| && Answers(names, faulty, calls[i], f) ==> f in updated)
    && (forall f :: f in updated ==>
          exists i :: 0 <= i < |calls| && Answers(names, faulty, calls[i], f) && calls[i].config == updated[f])
  }

  // When two endpoints share a name, the configuration of an add is the one reported.
  ghost predicate AddsFirst(names: Names, faulty: set<string>, updated: map<string, LBConfig>, calls: seq<Call>) {
    forall i, f :: 0 <= i < |calls| && calls[i].Add? && Answers(names, faulty, calls[i], f) ==>
      f in updated && Add(updated[f]) in calls
  }

  class Controller {
    const provider: Provider
    const environment: string
    const poolSuffix: string

    constructor (provider: Provider, environment: string, poolSuffix: string)
      ensures this.provider == provider && this.environment == environment && this.poolSuffix == poolSuffix
    {
      this.provider, this.environment, this.poolSuffix := provider, environment, poolSuffix;
    }

    function Suffix(): string {
      OwnershipSuffix(environment, poolSuffix)
    }

    method GetProviderLBConfigs() returns (r: Result<Desired>)
      requires provider.Valid()
      ensures r.Err? <==> provider.unreachable
      ensures r.Ok? ==> SnapshotOf(r.value, provider.held, Suffix())
    {
      var all := provider.GetLBConfigs();
      if all.Err? {
        return Err;
      }
      var rancherConfigs: Desired := map[];
      var suffix := "_" + environment + "_" + poolSuffix;
      for i := 0 to |all.value|
        invariant rancherConfigs == OwnedPart(all.value[..i], suffix)
      {
        var value := all.value[i];
        assert all.value[..i + 1][..i] == all.value[..i];
        if HasSuffix(value.poolName, suffix) {
          rancherConfigs := rancherConfigs[value.endpoint := value];
        }
      }
      assert all.value[..|all.value|] == all.value;
      ListingGivesSnapshot(all.value, provider.held, suffix);
      r := Ok(rancherConfigs);
    }

    method UpdateProvider(toChange: seq<LBConfig>, op: Op) returns (updateFqdn: map<string, LBConfig>)
      requires provider.Valid()
      modifies provider`configs, provider`held, provider`calls
      ensures provider.Valid()
      ensures provider.calls == old(provider.calls) + CallsOf(op, toChange)
      ensures provider.held == ApplyAll(old(provider.held), CallsOf(op, toChange), provider.faulty)
      ensures Reports(provider.fqdns, provider.faulty, updateFqdn, CallsOf(op, toChange))
    {
      updateFqdn := map[];
      ghost var calls := CallsOf(op, toChange);
      for i := 0 to |toChange|
        invariant provider.Valid()
        invariant provider.calls == old(provider.calls) + calls[..i]
        invariant provider.held == ApplyAll(old(provider.held), calls[..i], provider.faulty)
        invariant Reports(provider.fqdns, provider.faulty, updateFqdn, calls[..i])
      {
        var value := toChange[i];
        ghost var before := updateFqdn;
        assert calls[..i + 1] == calls[..i] + [calls[i]] && calls[..i + 1][..i] == calls[..i];
        match op {
          case ADD =>
            var fqdn := provider.AddLBConfig(value);
            if fqdn.Ok? && fqdn.value != "" {
              updateFqdn := updateFqdn[fqdn.value := value];
            }
          case REMOVE =>
            var ok := provider.RemoveLBConfig(value);
          case UPDATE =>
            var fqdn := provider.UpdateLBConfig(value);
            if fqdn.Ok? && fqdn.value != "" {
              updateFqdn := updateFqdn[fqdn.value := value];
            }
        }
        ReportOneMore(provider.fqdns, provider.faulty, before, calls[..i], calls[i], updateFqdn);
      }
      assert calls[..|toChange|] == calls;
    }

    method RemoveExtraConfigs(metadataConfigs: Desired, providerConfigs: Desired)
        returns (updated: map<string, LBConfig>, ghost removed: seq<LBConfig>)
      requires provider.Valid() && WellKeyed(providerConfigs)
      modifies provider`configs, provider`held, provider`calls
      ensures provider.Valid()
      ensures Selects(removed, Extra(metadataConfigs, providerConfigs))
      ensures provider.calls == old(provider.calls) + CallsOf(REMOVE, removed)
      ensures provider.held == ApplyAll(old(provider.held), CallsOf(REMOVE, removed), provider.faulty)
    {
      var toRemove: seq<LBConfig> := [];
      ghost var wanted := Extra(metadataConfigs, providerConfigs);
      var rest := providerConfigs.Keys;
      while rest != {}
        modifies {}
        invariant rest <= providerConfigs.Keys
        invariant Selects(toRemove, At(wanted, rest))
      {
        var key :| key in rest;
        VisitOne(toRemove, providerConfigs, wanted, rest, key);
        rest := rest - {key};
        if key !in metadataConfigs {
          toRemove := toRemove + [providerConfigs[key]];
        }
      }
      removed := toRemove;
      assert At(wanted, rest) == wanted;
      updated := UpdateProvider(toRemove, REMOVE);
    }

    method AddMissingConfigs(metadataConfigs: Desired, providerConfigs: Desired)
        returns (updated: map<string, LBConfig>, ghost added: seq<LBConfig>)
      requires provider.Valid() && WellKeyed(metadataConfigs)
      modifies provider`configs, provider`held, provider`calls
      ensures provider.Valid()
      ensures Selects(added, Missing(metadataConfigs, providerConfigs))
      ensures provider.calls == old(provider.calls) + CallsOf(ADD, added)
      ensures provider.held == ApplyAll(old(provider.held), CallsOf(ADD, added), provider.faulty)
      ensures Reports(provider.fqdns, provider.faulty, updated, CallsOf(ADD, added))
    {
      var toAdd: seq<LBConfig> := [];
      ghost var wanted := Missing(metadataConfigs, providerConfigs);
      var rest := metadataConfigs.Keys;
      while rest != {}
        modifies {}
        invariant rest <= metadataConfigs.Keys
        invariant Selects(toAdd, At(wanted, rest))
      {
        var key :| key in rest;
        VisitOne(toAdd, metadataConfigs, wanted, rest, key);
        rest := rest - {key};
        if key !in providerConfigs {
          toAdd := toAdd + [metadataConfigs[key]];
        }
      }
      added := toAdd;
      assert At(wanted, rest) == wanted;
      updated := UpdateProvider(toAdd, ADD);
    }

    method UpdateExistingConfigs(metadataConfigs: Desired, providerConfigs: Desired)
        returns (updated: map<string, LBConfig>, ghost changed: seq<LBConfig>)
      requires provider.Valid() && WellKeyed(metadataConfigs)
      modifies provider`configs, provider`held, provider`calls
      ensures provider.Valid()
      ensures Selects(changed, Differing(metadataConfigs, providerConfigs))
      ensures provider.calls == old(provider.calls) + CallsOf(UPDATE, changed)
      ensures provider.held == ApplyAll(old(provider.held), CallsOf(UPDATE, changed), provider.faulty)
      ensures Reports(provider.fqdns, provider.faulty, updated, CallsOf(UPDATE, changed))
    {
      var toUpdate: seq<LBConfig> := [];
      ghost var wanted := Differing(metadataConfigs, providerConfigs);
      var rest := metadataConfigs.Keys;
      while rest != {}
        modifies {}
        invariant rest <= metadataConfigs.Keys
        invariant Selects(toUpdate, At(wanted, rest))
      {
        var key :| key in rest;
        VisitOne(toUpdate, metadataConfigs, wanted, rest, key);
        rest := rest - {key};
        if key in providerConfigs {
          var update := NeedsUpdate(metadataConfigs[key], providerConfigs[key]);
          if update {
            toUpdate := toUpdate + [metadataConfigs[key]];
          }
        }
      }
      changed := toUpdate;
      assert At(wanted, rest) == wanted;
      updated := UpdateProvider(toUpdate, UPDATE);
    }

    // The phases of a round. Each runs against the snapshot, although the phases before it
    // have already changed the provider.
    method RunPhases(metadataConfigs: Desired, providerConfigs: Desired)
        returns (addedFqdn: map<string, LBConfig>, updatedFqdn: map<string, LBConfig>,
                 ghost removed: seq<LBConfig>, ghost added: seq<LBConfig>, ghost changed: seq<LBConfig>)
      requires provider.Valid() && WellKeyed(metadataConfigs) && WellKeyed(providerConfigs)
      modifies provider`configs, provider`held, provider`calls
      ensures provider.Valid()
      ensures Selects(removed, Extra(metadataConfigs, providerConfigs))
      ensures Selects(added, Missing(metadataConfigs, providerConfigs))
      ensures Selects(changed, Differing(metadataConfigs, providerConfigs))
      ensures provider.calls == old(provider.calls) + RoundCalls(removed, added, changed)
      ensures provider.held == ApplyAll(old(provider.held), RoundCalls(removed, added, changed), provider.faulty)
      ensures Reports(provider.fqdns, provider.faulty, addedFqdn, CallsOf(ADD, added))
      ensures Reports(provider.fqdns, provider.faulty, updatedFqdn, CallsOf(UPDATE, changed))
    {
      ghost var held, calls := provider.held, provider.calls;
      var ignored;
      ignored, removed := RemoveExtraConfigs(metadataConfigs, providerConfigs);
      addedFqdn, added := AddMissingConfigs(metadataConfigs, providerConfigs);
      updatedFqdn, changed := UpdateExistingConfigs(metadataConfigs, providerConfigs);
      InOneRow(calls, CallsOf(REMOVE, removed), CallsOf(ADD, added), CallsOf(UPDATE, changed));
      ThreePhases(held, removed, added, changed, provider.faulty);
    }

    // One round.
    method UpdateProviderLBConfigs(metadataConfigs: Desired)
        returns (r: Result<map<string, LBConfig>>, ghost issued: seq<Call>)
      requires provider.Valid() && WellKeyed(metadataConfigs)
      modifies provider`configs, provider`held, provider`calls
      ensures provider.Valid()
      ensures r.Err? <==> provider.unreachable
      ensures r.Err? ==> issued == [] && provider.held == old(provider.held)
      ensures provider.calls == old(provider.calls) + issued
      ensures provider.held == ApplyAll(old(provider.held), issued, provider.faulty)
      ensures Phased(issued)
      ensures r.Ok? ==> exists snap ::
                SnapshotOf(snap, old(provider.held), Suffix()) && Schedules(issued, metadataConfigs, snap)
      ensures forall c :: c in issued ==>
                var e, held := c.config.endpoint, old(provider.held);
                var owned := e in held && HasSuffix(held[e].poolName, "_" + environment + "_" + poolSuffix);
                && (c.Remove? ==> owned && e !in metadataConfigs && View(c.config) == held[e])
                && (c.Add? ==> !owned && e in metadataConfigs && c.config == metadataConfigs[e])
                && (c.Update? ==> owned && e in metadataConfigs && c.config == metadataConfigs[e])
      ensures r.Ok? && WellFormed(metadataConfigs, Suffix()) ==>
                provider.held == Reconciled(metadataConfigs, old(provider.held), Suffix(), provider.faulty)
      ensures r.Ok? ==> Reports(provider.fqdns, provider.faulty, r.value, issued)
      ensures r.Ok? ==> AddsFirst(provider.fqdns, provider.faulty, r.value, issued)
    {
      ghost var held := provider.held;
      var providerConfigs := GetProviderLBConfigs();
      if providerConfigs.Err? {
        return Err, [];
      }
      var snap := providerConfigs.value;
      var addedFqdn, updatedFqdn, removed, added, changed := RunPhases(metadataConfigs, snap);
      var updated := MergeReports(addedFqdn, updatedFqdn);
      r := Ok(updated);
      issued := RoundCalls(removed, added, changed);
      MergedReport(provider.fqdns, provider.faulty, addedFqdn, added, updatedFqdn, changed, removed);
      PhasesSchedule(metadataConfigs, snap, removed, added, changed);
      KindsOfCalls(metadataConfigs, held, snap, Suffix(), issued);
      if WellFormed(metadataConfigs, Suffix()) {
        AnyOrderReconciles(metadataConfigs, held, snap, Suffix(), issued, provider.faulty);
      }
    }
  }

  // Names already reported by the adds are kept.
  method MergeReports(updated: map<string, LBConfig>, more: map<string, LBConfig>)
      returns (merged: map<string, LBConfig>)
    ensures merged == more + updated
  {
    merged := updated;
    var rest := more.Keys;
    while rest != {}
      invariant rest <= more.Keys
      invariant merged == (more - rest) + updated
    {
      var k :| k in rest;
      rest := rest - {k};
      if k !in merged {
        merged := merged[k := more[k]];
      }
    }
  }

  // Removals come first and updates last.
  ghost predicate Phased(calls: seq<Call>) {
    forall i, j :: 0 <= i < j < |calls| ==>
      && (calls[j].Remove? ==> calls[i].Remove?)
      && (calls[i].Update? ==> calls[j].Update?)
  }

  lemma ReportOneMore(names: Names, faulty: set<string>, before: map<string, LBConfig>, calls: seq<Call>, call: Call,
                      after: map<string, LBConfig>)
    requires Reports(names, faulty, before, calls)
    requires after == if Answers(names, faulty, call, NameOf(names, call.config.endpoint))
                      then before[NameOf(names, call.config.endpoint) := call.config] else before
    ensures Reports(names, faulty, after, calls + [call])
  {
    var more := calls + [call];
    forall f | f in after
      ensures exists i :: 0 <= i < |more| && Answers(names, faulty, more[i], f) && more[i].config == after[f]
    {
      if Answers(names, faulty, call, f) {
        assert more[|calls|] == call;
      } else {
        var i :| 0 <= i < |calls| && Answers(names, faulty, calls[i], f) && calls[i].config == before[f];
        assert more[i] == calls[i];
      }
    }
  }

  lemma MergedReport(names: Names, faulty: set<string>, updated: map<string, LBConfig>, added: seq<LBConfig>,
                     updated': map<string, LBConfig>, changed: seq<LBConfig>, removed: seq<LBConfig>)
    requires Reports(names, faulty, updated, CallsOf(ADD, added))
    requires Reports(names, faulty, updated', CallsOf(UPDATE, changed))
    ensures Reports(names, faulty, updated' + updated, RoundCalls(removed, added, changed))
    ensures AddsFirst(names, faulty, updated' + updated, RoundCalls(removed, added, changed))
  {
    var removes, adds, updates := CallsOf(REMOVE, removed), CallsOf(ADD, added), CallsOf(UPDATE, changed);
    var merged, calls := updated' + updated, removes + adds + updates;
    forall f | f in merged
      ensures exists i :: 0 <= i < |calls| && Answers(names, faulty, calls[i], f) && calls[i].config == merged[f]
    {
      if f in updated {
        var i :| 0 <= i < |adds| && Answers(names, faulty, adds[i], f) && adds[i].config == updated[f];
        assert calls[|removes| + i] == adds[i];
      } else {
        var i :| 0 <= i < |updates| && Answers(names, faulty, updates[i], f) && updates[i].config == updated'[f];
        assert calls[|removes| + |adds| + i] == updates[i];
      }
    }
    forall i, f | 0 <= i < |calls| && calls[i].Add? && Answers(names, faulty, calls[i], f)
      ensures f in merged && Add(merged[f]) in calls
    {
      assert calls[i] == adds[i - |removes|];
      var j :| 0 <= j < |adds| && Answers(names, faulty, adds[j], f) && adds[j].config == updated[f];
      assert calls[|removes| + j] == adds[j];
    }
  }

  lemma {:induction false} ApplyInTurn(s: Store, first: seq<Call>, second: seq<Call>, faulty: set<string>)
    ensures ApplyAll(s, first + second, faulty) == ApplyAll(ApplyAll(s, first, faulty), second, faulty)
  {
    if second == [] {
      assert first + second == first;
    } else {
      var front := second[..|second| - 1];
      ApplyInTurn(s, first, front, faulty);
      assert (first + second)[..|first + second| - 1] == first + front;
    }
  }

  lemma InOneRow<T>(a: seq<T>, b: seq<T>, c: seq<T>, d: seq<T>)
    ensures a + b + c + d == a + (b + c + d)
  {
  }

  lemma ThreePhases(s: Store, removed: seq<LBConfig>, added: seq<LBConfig>, changed: seq<LBConfig>,
                    faulty: set<string>)
    ensures ApplyAll(s, RoundCalls(removed, added, changed), faulty)
         == ApplyAll(ApplyAll(ApplyAll(s, CallsOf(REMOVE, removed), faulty), CallsOf(ADD, added), faulty),
                     CallsOf(UPDATE, changed), faulty)
  {
    var removes, adds, updates := CallsOf(REMOVE, removed), CallsOf(ADD, added), CallsOf(UPDATE, changed);
    ApplyInTurn(s, removes, adds, faulty);
    ApplyInTurn(s, removes + adds, updates, faulty);
  }

  // The three phases together cover what is needed, and nothing else.
  lemma PhasesCover(desired: Desired, snap: Desired,
                    removed: seq<LBConfig>, added: seq<LBConfig>, changed: seq<LBConfig>, e: string)
    requires WellKeyed(desired) && WellKeyed(snap)
    requires Elements(removed) == Extra(desired, snap)
    requires Elements(added) == Missing(desired, snap)
    requires Elements(changed) == Differing(desired, snap)
    requires Needed(desired, snap, e).Some?
    ensures Needed(desired, snap, e).value in RoundCalls(removed, added, changed)
  {
    var calls := RoundCalls(removed, added, changed);
    if e !in desired {
      assert snap[e] in Extra(desired, snap);
      var i :| 0 <= i < |removed| && removed[i] == snap[e];
      assert calls[i] == Remove(snap[e]);
    } else if e !in snap {
      assert desired[e] in Missing(desired, snap);
      var i :| 0 <= i < |added| && added[i] == desired[e];
      assert calls[|removed| + i] == Add(desired[e]);
    } else {
      assert desired[e] in Differing(desired, snap);
      var i :| 0 <= i < |changed| && changed[i] == desired[e];
      assert calls[|removed| + |added| + i] == Update(desired[e]);
    }
  }

  // No two phases touch the same endpoint, so the calls of a round are a schedule.
  lemma PhasesSchedule(desired: Desired, snap: Desired,
                       removed: seq<LBConfig>, added: seq<LBConfig>, changed: seq<LBConfig>)
    requires WellKeyed(desired) && WellKeyed(snap)
    requires Selects(removed, Extra(desired, snap))
    requires Selects(added, Missing(desired, snap))
    requires Selects(changed, Differing(desired, snap))
    ensures Phased(RoundCalls(removed, added, changed))
    ensures Schedules(RoundCalls(removed, added, changed), desired, snap)
  {
    forall c | c in removed ensures c.endpoint in snap && c.endpoint !in desired && c == snap[c.endpoint] {
      assert c in Extra(desired, snap);
    }
    forall c | c in added ensures c.endpoint in desired && c.endpoint !in snap && c == desired[c.endpoint] {
      assert c in Missing(desired, snap);
    }
    forall c | c in changed
      ensures c.endpoint in desired && c.endpoint in snap && c == desired[c.endpoint] && Changed(c, snap[c.endpoint])
    {
      assert c in Differing(desired, snap);
    }
    forall e | Needed(desired, snap, e).Some?
      ensures Needed(desired, snap, e).value in RoundCalls(removed, added, changed)
    {
      PhasesCover(desired, snap, removed, added, changed, e);
    }
  }
}
