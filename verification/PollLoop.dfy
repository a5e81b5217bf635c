/** The poll loop of main.go: version gate, forced update, cached configurations, name updates. */
module PollLoop {
  import opened Model
  import opened Reconciler
  import opened Rounds
  import opened Text

  // Times are in nanoseconds; forceUpdateInterval is one minute.
  const MINUTE: int := 60_000_000_000

  const INITIAL_VERSION := "init"

  // What one tick of the ticker meets: the time it fires, the metadata version and
  // configurations it reads, how the provider behaves, and the time when a reconcile ends.
  datatype Tick = Tick(now: int, version: Option<string>, desired: Desired,
                       unreachable: bool, faulty: set<string>, done: int)

  datatype LoopState = LoopState(version: string, lastUpdated: int, cached: Desired, store: Store)

  predicate VersionChanged(s: LoopState, t: Tick) {
    t.version.Some? && t.version.value != s.version
  }

  predicate Forced(s: LoopState, t: Tick) {
    t.version == Some(s.version) && t.now - s.lastUpdated >= MINUTE
  }

  // Whether a tick reconciles, in the loop as written and in the loop without the cache test.
  predicate Attempts(s: LoopState, t: Tick, caching: bool) {
    Forced(s, t) || (VersionChanged(s, t) && (caching ==> t.desired != s.cached))
  }

  function Step(s: LoopState, t: Tick, suffix: string, caching: bool): LoopState {
    var version := if VersionChanged(s, t) then t.version.value else s.version;
    if Attempts(s, t, caching) then
      var store := if t.unreachable then s.store else Reconciled(t.desired, s.store, suffix, t.faulty);
      LoopState(version, t.done, t.desired, store)
    else
      s.(version := version)
  }

  function Run(s: LoopState, ticks: seq<Tick>, suffix: string, caching: bool): LoopState {
    if ticks == [] then s
    else Step(Run(s, ticks[..|ticks| - 1], suffix, caching), ticks[|ticks| - 1], suffix, caching)
  }

  // ----- the cache does not change what the provider sees

  // The configurations are a function of the metadata version, and provider calls succeed.
  ghost predicate Calm(t: Tick, content: string -> Desired, suffix: string) {
    && (t.version.Some? ==> t.desired == content(t.version.value) && WellFormed(t.desired, suffix))
    && !t.unreachable && t.faulty == {}
  }

  // The cache holds the configurations of the current version and the provider is in sync with them.
  ghost predicate Settled(s: LoopState, content: string -> Desired, suffix: string) {
    && s.cached == content(s.version)
    && WellFormed(s.cached, suffix)
    && OutOfSync(s.cached, s.store, suffix) == {}
  }

  lemma InSyncRoundIsIdle(desired: Desired, s: Store, suffix: string, faulty: set<string>)
    requires OutOfSync(desired, s, suffix) == {}
    ensures Reconciled(desired, s, suffix, faulty) == s
  {
    var after := Reconciled(desired, s, suffix, faulty);
    forall e ensures Lookup(after, e) == Lookup(s, e) {
    }
    SameLookupsSameStore(after, s);
  }

  // Any reconcile settles the loop; a settled loop stays settled.
  lemma StepSettles(s: LoopState, t: Tick, content: string -> Desired, suffix: string, caching: bool)
    requires Calm(t, content, suffix)
    requires Attempts(s, t, caching) || (caching && Settled(s, content, suffix))
    ensures Settled(Step(s, t, suffix, caching), content, suffix)
  {
    if Attempts(s, t, caching) {
      RoundRepairs(t.desired, s.store, suffix, {});
    }
  }

  // From a settled state on, the cached and the uncached loop leave the provider in the same
  // state after every tick, although they force updates at different ticks.
  lemma {:induction false} CacheIsInvisible(s: LoopState, u: LoopState, ticks: seq<Tick>,
                                            content: string -> Desired, suffix: string)
    requires Settled(s, content, suffix) && u.version == s.version && u.store == s.store
    requires forall i :: 0 <= i < |ticks| ==> Calm(ticks[i], content, suffix)
    ensures Run(s, ticks, suffix, true).store == Run(u, ticks, suffix, false).store
    ensures Run(s, ticks, suffix, true).version == Run(u, ticks, suffix, false).version
    ensures Settled(Run(s, ticks, suffix, true), content, suffix)
  {
    if ticks != [] {
      var front, t := ticks[..|ticks| - 1], ticks[|ticks| - 1];
      CacheIsInvisible(s, u, front, content, suffix);
      var before := Run(s, front, suffix, true);
      StepSettles(before, t, content, suffix, true);
      InSyncRoundIsIdle(before.cached, before.store, suffix, t.faulty);
    }
  }

  function StartState(store: Store, now: int): LoopState {
    LoopState(INITIAL_VERSION, now, map[], store)
  }

  // The initial cache is empty, so a first desired map that is empty is taken for unchanged. The first
  // tick therefore treats the provider as the uncached loop would exactly when there is something
  // desired or nothing to remove.
  lemma FirstTickExact(store: Store, start: int, t: Tick, content: string -> Desired, suffix: string)
    requires Calm(t, content, suffix) && t.version.Some? && t.version.value != INITIAL_VERSION
    ensures Step(StartState(store, start), t, suffix, true).store
            == Step(StartState(store, start), t, suffix, false).store
       <==> t.desired != map[] || forall e :: e in store ==> !Owned(store[e].poolName, suffix)
    ensures Settled(Step(StartState(store, start), t, suffix, true), content, suffix)
       <==> t.desired != map[] || forall e :: e in store ==> !Owned(store[e].poolName, suffix)
  {
    var s := StartState(store, start);
    RoundRepairs(t.desired, store, suffix, {});
    if t.desired == map[] {
      var idle := Step(s, t, suffix, true);
      assert idle.store == store && idle.cached == map[];
      if forall e :: e in store ==> !Owned(store[e].poolName, suffix) {
        assert OutOfSync(t.desired, store, suffix) == {};
        InSyncRoundIsIdle(t.desired, store, suffix, {});
      } else {
        var e :| e in store && Owned(store[e].poolName, suffix);
        assert e in OutOfSync(t.desired, store, suffix);
        assert e !in Reconciled(t.desired, store, suffix, {});
      }
    } else {
      StepSettles(s, t, content, suffix, true);
    }
  }

  lemma {:induction false} RunFromSecond(s: LoopState, ticks: seq<Tick>, suffix: string, caching: bool)
    requires ticks != []
    ensures Run(s, ticks, suffix, caching) == Run(Step(s, ticks[0], suffix, caching), ticks[1..], suffix, caching)
  {
    if |ticks| == 1 {
      assert ticks[..0] == [] == ticks[1..];
    } else {
      RunFromSecond(s, ticks[..|ticks| - 1], suffix, caching);
      assert ticks[..|ticks| - 1][1..] == ticks[1..][..|ticks[1..]| - 1];
    }
  }

  // Hence after every tick of every calm run from the start the loop is settled, and the provider is as
  // the uncached loop would leave it.
  lemma CalmRunSettles(store: Store, start: int, ticks: seq<Tick>, content: string -> Desired, suffix: string)
    requires ticks != [] && ticks[0].version.Some? && ticks[0].version.value != INITIAL_VERSION
    requires forall i :: 0 <= i < |ticks| ==> Calm(ticks[i], content, suffix)
    requires ticks[0].desired != map[] || forall e :: e in store ==> !Owned(store[e].poolName, suffix)
    ensures Settled(Run(StartState(store, start), ticks, suffix, true), content, suffix)
    ensures Run(StartState(store, start), ticks, suffix, true).store
         == Run(StartState(store, start), ticks, suffix, false).store
  {
    var s := StartState(store, start);
    FirstTickExact(store, start, ticks[0], content, suffix);
    RunFromSecond(s, ticks, suffix, true);
    RunFromSecond(s, ticks, suffix, false);
    var first, uncached := Step(s, ticks[0], suffix, true), Step(s, ticks[0], suffix, false);
    assert first.version == uncached.version && first.store == uncached.store;
    CacheIsInvisible(first, uncached, ticks[1..], content, suffix);
  }

  // ----- forced updates bound the time between reconciles

  // Ticks fire in order, at most d apart, and read the version unchanged; a reconcile takes time.
  ghost predicate Steady(ticks: seq<Tick>, version: string, d: int) {
    && (forall i :: 0 <= i < |ticks| ==> ticks[i].version == Some(version) && ticks[i].now <= ticks[i].done)
    && (forall i :: 0 < i < |ticks| ==> ticks[i - 1].now <= ticks[i].now <= ticks[i - 1].now + d)
  }

  ghost predicate AttemptsAt(s: LoopState, ticks: seq<Tick>, suffix: string, caching: bool, i: nat)
    requires i < |ticks|
  {
    Attempts(Run(s, ticks[..i], suffix, caching), ticks[i], caching)
  }

  lemma RunOneMore(s: LoopState, ticks: seq<Tick>, suffix: string, caching: bool, i: nat)
    requires i < |ticks|
    ensures Run(s, ticks[..i + 1], suffix, caching)
         == Step(Run(s, ticks[..i], suffix, caching), ticks[i], suffix, caching)
  {
    assert ticks[..i + 1][..i] == ticks[..i];
  }

  lemma {:induction false} VersionStays(s: LoopState, ticks: seq<Tick>, suffix: string, caching: bool, d: int, k: nat)
    requires Steady(ticks, s.version, d) && k <= |ticks|
    ensures Run(s, ticks[..k], suffix, caching).version == s.version
  {
    if k > 0 {
      VersionStays(s, ticks, suffix, caching, d, k - 1);
      RunOneMore(s, ticks, suffix, caching, k - 1);
    }
  }

  // While no tick reconciles, the time of the last reconcile stays.
  lemma {:induction false} LastUpdatedStays(s: LoopState, ticks: seq<Tick>, suffix: string, caching: bool, i: nat, k: nat)
    requires i <= k <= |ticks|
    requires forall j :: i <= j < k ==> !AttemptsAt(s, ticks, suffix, caching, j)
    ensures Run(s, ticks[..k], suffix, caching).lastUpdated == Run(s, ticks[..i], suffix, caching).lastUpdated
  {
    if i < k {
      LastUpdatedStays(s, ticks, suffix, caching, i, k - 1);
      RunOneMore(s, ticks, suffix, caching, k - 1);
      assert !AttemptsAt(s, ticks, suffix, caching, k - 1);
    }
  }

  // The next attempt after the one at tick i starts at least a minute and less than a minute and d
  // after it ended.
  lemma AttemptsAreSpaced(s: LoopState, ticks: seq<Tick>, suffix: string, caching: bool, d: int, i: nat, j: nat)
    requires Steady(ticks, s.version, d) && i < j < |ticks|
    requires AttemptsAt(s, ticks, suffix, caching, i) && AttemptsAt(s, ticks, suffix, caching, j)
    requires forall k :: i < k < j ==> !AttemptsAt(s, ticks, suffix, caching, k)
    ensures MINUTE <= ticks[j].now - ticks[i].done < MINUTE + d
  {
    RunOneMore(s, ticks, suffix, caching, i);
    LastUpdatedStays(s, ticks, suffix, caching, i + 1, j);
    VersionStays(s, ticks, suffix, caching, d, j);
    if i < j - 1 {
      LastUpdatedStays(s, ticks, suffix, caching, i + 1, j - 1);
      VersionStays(s, ticks, suffix, caching, d, j - 1);
      assert !AttemptsAt(s, ticks, suffix, caching, j - 1);
    }
  }

  // And it does come: a stretch that lasts a minute beyond a reconcile contains another one.
  lemma AttemptComes(s: LoopState, ticks: seq<Tick>, suffix: string, caching: bool, d: int, i: nat, k: nat)
    requires Steady(ticks, s.version, d) && i < k < |ticks|
    requires AttemptsAt(s, ticks, suffix, caching, i)
    requires ticks[k].now >= ticks[i].done + MINUTE
    ensures exists j :: i < j <= k && AttemptsAt(s, ticks, suffix, caching, j)
  {
    if forall j :: i < j < k ==> !AttemptsAt(s, ticks, suffix, caching, j) {
      RunOneMore(s, ticks, suffix, caching, i);
      LastUpdatedStays(s, ticks, suffix, caching, i + 1, k);
      VersionStays(s, ticks, suffix, caching, d, k);
      assert AttemptsAt(s, ticks, suffix, caching, k);
    }
  }

  // The endpoint's call fails at every attempt that reaches the provider.
  ghost predicate FailsThroughout(s: LoopState, ticks: seq<Tick>, suffix: string, caching: bool, e: string) {
    forall i :: 0 <= i < |ticks| && AttemptsAt(s, ticks, suffix, caching, i) && !ticks[i].unreachable
                ==> e in ticks[i].faulty
  }

  lemma FailsOneMore(s: LoopState, ticks: seq<Tick>, suffix: string, caching: bool, e: string)
    requires ticks != []
    ensures var front, t := ticks[..|ticks| - 1], ticks[|ticks| - 1];
            FailsThroughout(s, ticks, suffix, caching, e) <==>
              && FailsThroughout(s, front, suffix, caching, e)
              && (Attempts(Run(s, front, suffix, caching), t, caching) && !t.unreachable ==> e in t.faulty)
  {
    var front := ticks[..|ticks| - 1];
    forall i | 0 <= i < |front|
      ensures AttemptsAt(s, ticks, suffix, caching, i) <==> AttemptsAt(s, front, suffix, caching, i)
    {
      assert front[..i] == ticks[..i];
    }
    assert AttemptsAt(s, ticks, suffix, caching, |front|) <==>
           Attempts(Run(s, front, suffix, caching), ticks[|front|], caching);
  }

  // While the configurations stay the same, exactly the endpoints that failed at every attempt are
  // still out of sync; ticks without an attempt change nothing.
  lemma {:induction false} LoopRepairs(s: LoopState, ticks: seq<Tick>, desired: Desired, suffix: string,
                                       caching: bool, e: string)
    requires WellFormed(desired, suffix)
    requires forall i :: 0 <= i < |ticks| ==> ticks[i].desired == desired
    ensures e in OutOfSync(desired, Run(s, ticks, suffix, caching).store, suffix)
       <==> e in OutOfSync(desired, s.store, suffix) && FailsThroughout(s, ticks, suffix, caching, e)
  {
    if ticks != [] {
      var front, t := ticks[..|ticks| - 1], ticks[|ticks| - 1];
      LoopRepairs(s, front, desired, suffix, caching, e);
      FailsOneMore(s, ticks, suffix, caching, e);
      RoundRepairs(desired, Run(s, front, suffix, caching).store, suffix, t.faulty);
    }
  }

  // ----- the loop

  datatype FqdnUpdate = FqdnUpdate(service: string, stack: string, fqdn: string)

  // The two name parts of a pool name that the service update reads.
  predicate Splittable(desired: Desired) {
    forall e :: e in desired ==> |Split(desired[e].poolName, '_')| >= 2
  }

  function NameUpdate(c: LBConfig, fqdn: string): FqdnUpdate
    requires |Split(c.poolName, '_')| >= 2
  {
    FqdnUpdate(Split(c.poolName, '_')[0], Split(c.poolName, '_')[1], fqdn)
  }

  ghost predicate AboutRepaired(names: Names, desired: Desired, repaired: set<string>, u: FqdnUpdate)
    requires Splittable(desired)
  {
    exists e :: e in repaired && e in desired && NameOf(names, e) != "" && u == NameUpdate(desired[e], NameOf(names, e))
  }

  ghost predicate Told(updates: seq<FqdnUpdate>, fqdn: string) {
    exists u :: u in updates && u.fqdn == fqdn
  }

  // The services told about their names are those whose endpoint was repaired and has a name.
  ghost predicate TellsRepaired(names: Names, updates: seq<FqdnUpdate>, desired: Desired, repaired: set<string>)
    requires Splittable(desired)
  {
    && (forall u {:trigger AboutRepaired(names, desired, repaired, u)} :: u in updates ==>
          AboutRepaired(names, desired, repaired, u))
    && (forall e {:trigger Told(updates, NameOf(names, e))} ::
          e in repaired && e in desired && NameOf(names, e) != "" ==> Told(updates, NameOf(names, e)))
  }

  // Each update is about a repaired endpoint that has a name.
  lemma ToldIsRepaired(names: Names, updates: seq<FqdnUpdate>, desired: Desired, repaired: set<string>, u: FqdnUpdate)
      returns (e: string)
    requires Splittable(desired) && TellsRepaired(names, updates, desired, repaired) && u in updates
    ensures e in repaired && e in desired && e in names && names[e] != "" && u == NameUpdate(desired[e], names[e])
  {
    assert AboutRepaired(names, desired, repaired, u);
    e :| e in repaired && e in desired && NameOf(names, e) != "" && u == NameUpdate(desired[e], NameOf(names, e));
  }

  // And every repaired endpoint that has a name is told about.
  lemma RepairedIsTold(names: Names, updates: seq<FqdnUpdate>, desired: Desired, repaired: set<string>, e: string)
      returns (u: FqdnUpdate)
    requires Splittable(desired) && TellsRepaired(names, updates, desired, repaired)
    requires e in repaired && e in desired && e in names && names[e] != ""
    ensures u in updates && u.fqdn == names[e]
  {
    assert NameOf(names, e) == names[e];
    assert Told(updates, NameOf(names, e));
    u :| u in updates && u.fqdn == NameOf(names, e);
  }

  // The names a round reports are those of the endpoints it repaired.
  lemma ReportsRepaired(names: Names, faulty: set<string>, updated: map<string, LBConfig>, issued: seq<Call>,
                        desired: Desired, s: Store, snap: Desired, suffix: string)
    requires WellFormed(desired, suffix) && SnapshotOf(snap, s, suffix)
    requires Schedules(issued, desired, snap) && Reports(names, faulty, updated, issued)
    ensures forall f :: f in updated ==>
              var e := updated[f].endpoint;
              && e in OutOfSync(desired, s, suffix) - faulty && e in desired
              && updated[f] == desired[e] && NameOf(names, e) == f != ""
    ensures forall e :: e in OutOfSync(desired, s, suffix) - faulty && e in desired && NameOf(names, e) != ""
              ==> NameOf(names, e) in updated
  {
    forall f | f in updated
      ensures var e := updated[f].endpoint;
              && e in OutOfSync(desired, s, suffix) - faulty && e in desired
              && updated[f] == desired[e] && NameOf(names, e) == f != ""
    {
      var i :| 0 <= i < |issued| && Answers(names, faulty, issued[i], f) && issued[i].config == updated[f];
      NeededIffOutOfSync(desired, s, snap, suffix, issued[i].config.endpoint);
    }
    forall e | e in OutOfSync(desired, s, suffix) - faulty && e in desired && NameOf(names, e) != ""
      ensures NameOf(names, e) in updated
    {
      NeededIffOutOfSync(desired, s, snap, suffix, e);
      var i :| 0 <= i < |issued| && issued[i] == Needed(desired, snap, e).value;
      assert Answers(names, faulty, issued[i], NameOf(names, e));
    }
  }

  class PollLoop {
    const controller: Controller
    var version: string
    var lastUpdated: int
    var metadataLBConfigsCached: Desired
    var fqdnUpdates: seq<FqdnUpdate>  // sent to Cattle

    constructor (controller: Controller, now: int)
      requires controller.provider.Valid()
      ensures this.controller == controller
      ensures State() == StartState(controller.provider.held, now) && fqdnUpdates == []
      ensures version == "init" && lastUpdated == now && metadataLBConfigsCached == map[]
    {
      this.controller := controller;
      version, lastUpdated, metadataLBConfigsCached := INITIAL_VERSION, now, map[];
      fqdnUpdates := [];
    }

    ghost function State(): LoopState
      reads this, controller.provider
    {
      LoopState(version, lastUpdated, metadataLBConfigsCached, controller.provider.held)
    }

    method UpdateServiceFqdn(service: string, stack: string, fqdn: string)
      modifies this`fqdnUpdates
      ensures fqdnUpdates == old(fqdnUpdates) + [FqdnUpdate(service, stack, fqdn)]
    {
      fqdnUpdates := fqdnUpdates + [FqdnUpdate(service, stack, fqdn)];
    }

    method UpdateFqdns(updatedFqdn: map<string, LBConfig>)
      requires forall f :: f in updatedFqdn ==> |Split(updatedFqdn[f].poolName, '_')| >= 2
      modifies this`fqdnUpdates
      ensures old(fqdnUpdates) <= fqdnUpdates
      ensures forall u :: u in fqdnUpdates[|old(fqdnUpdates)|..] <==>
                u.fqdn in updatedFqdn && u == NameUpdate(updatedFqdn[u.fqdn], u.fqdn)
      ensures forall u :: u in fqdnUpdates[|old(fqdnUpdates)|..] ==>
                u.fqdn in updatedFqdn && [u.service, u.stack] <= Split(updatedFqdn[u.fqdn].poolName, '_')
      ensures |fqdnUpdates| == |old(fqdnUpdates)| + |updatedFqdn|
    {
      var rest := updatedFqdn.Keys;
      while rest != {}
        invariant rest <= updatedFqdn.Keys
        invariant |fqdnUpdates| + |rest| == |old(fqdnUpdates)| + |updatedFqdn.Keys|
        invariant old(fqdnUpdates) <= fqdnUpdates
        invariant forall u :: u in fqdnUpdates[|old(fqdnUpdates)|..] <==>
                    u.fqdn in updatedFqdn.Keys - rest && u == NameUpdate(updatedFqdn[u.fqdn], u.fqdn)
      {
        var fqdn :| fqdn in rest;
        rest := rest - {fqdn};
        ghost var sent := fqdnUpdates[|old(fqdnUpdates)|..];
        var parts := Split(updatedFqdn[fqdn].poolName, '_');
        UpdateServiceFqdn(parts[0], parts[1], fqdn);
        assert fqdnUpdates[|old(fqdnUpdates)|..] == sent + [NameUpdate(updatedFqdn[fqdn], fqdn)];
      }
    }

    // One tick. Reading the configurations never fails: a failed read of the services counts as none.
    method OnTick(t: Tick)
      requires controller.provider.Valid()
      requires controller.provider.faulty == t.faulty && controller.provider.unreachable == t.unreachable
      requires WellKeyed(t.desired) && Splittable(t.desired)
      modifies this, controller.provider`configs, controller.provider`held, controller.provider`calls
      ensures controller.provider.Valid()
      ensures version == old(Step(State(), t, controller.Suffix(), true)).version
      ensures lastUpdated == old(Step(State(), t, controller.Suffix(), true)).lastUpdated
      ensures metadataLBConfigsCached == old(Step(State(), t, controller.Suffix(), true)).cached
      ensures WellFormed(t.desired, controller.Suffix()) ==> State() == old(Step(State(), t, controller.Suffix(), true))
      ensures version == if t.version.Some? then t.version.value else old(version)
      ensures var changed := t.version.Some? && t.version.value != old(version);
              var forced := t.version.Some? && !changed && t.now - old(lastUpdated) >= 60_000_000_000;
              if forced || (changed && t.desired != old(metadataLBConfigsCached)) then
                metadataLBConfigsCached == t.desired && lastUpdated == t.done
              else
                && metadataLBConfigsCached == old(metadataLBConfigsCached) && lastUpdated == old(lastUpdated)
                && controller.provider.calls == old(controller.provider.calls) && fqdnUpdates == old(fqdnUpdates)
      ensures t.unreachable ==>
                controller.provider.calls == old(controller.provider.calls) && fqdnUpdates == old(fqdnUpdates)
      ensures old(fqdnUpdates) <= fqdnUpdates
      ensures WellFormed(t.desired, controller.Suffix()) ==>
                TellsRepaired(controller.provider.fqdns, fqdnUpdates[|old(fqdnUpdates)|..], t.desired,
                              if old(Attempts(State(), t, true)) && !t.unreachable
                              then old(OutOfSync(t.desired, controller.provider.held, controller.Suffix())) - t.faulty
                              else {})
    {
      var update, updateForced := false, false;
      if t.version.None? {
      } else if version != t.version.value {
        version := t.version.value;
        update := true;
      } else {
        if t.now - lastUpdated >= MINUTE {
          updateForced := true;
        }
      }
      if update || updateForced {
        if t.desired != metadataLBConfigsCached || updateForced {
          Reconcile(t.desired);
          metadataLBConfigsCached := t.desired;
          lastUpdated := t.done;
        }
      }
    }

    // A round and its name updates; an unreachable provider is only logged.
    method Reconcile(desired: Desired)
      requires controller.provider.Valid()
      requires WellKeyed(desired) && Splittable(desired)
      modifies this`fqdnUpdates, controller.provider`configs, controller.provider`held, controller.provider`calls
      ensures controller.provider.Valid()
      ensures controller.provider.unreachable ==>
                && controller.provider.held == old(controller.provider.held)
                && controller.provider.calls == old(controller.provider.calls) && fqdnUpdates == old(fqdnUpdates)
      ensures old(fqdnUpdates) <= fqdnUpdates
      ensures !controller.provider.unreachable && WellFormed(desired, controller.Suffix()) ==>
                && controller.provider.held ==
                   Reconciled(desired, old(controller.provider.held), controller.Suffix(), controller.provider.faulty)
                && TellsRepaired(controller.provider.fqdns, fqdnUpdates[|old(fqdnUpdates)|..], desired,
                     OutOfSync(desired, old(controller.provider.held), controller.Suffix()) - controller.provider.faulty)
    {
      ghost var held := controller.provider.held;
      var updatedFqdn, issued := controller.UpdateProviderLBConfigs(desired);
      if updatedFqdn.Ok? {
        SendReported(desired, updatedFqdn.value, issued, held);
      }
    }

    method SendReported(desired: Desired, updated: map<string, LBConfig>, ghost issued: seq<Call>, ghost held: Store)
      requires Splittable(desired)
      requires Reports(controller.provider.fqdns, controller.provider.faulty, updated, issued)
      requires exists snap :: SnapshotOf(snap, held, controller.Suffix()) && Schedules(issued, desired, snap)
      modifies this`fqdnUpdates
      ensures old(fqdnUpdates) <= fqdnUpdates
      ensures WellFormed(desired, controller.Suffix()) ==>
                TellsRepaired(controller.provider.fqdns, fqdnUpdates[|old(fqdnUpdates)|..], desired,
                              OutOfSync(desired, held, controller.Suffix()) - controller.provider.faulty)
    {
      ghost var snap :| SnapshotOf(snap, held, controller.Suffix()) && Schedules(issued, desired, snap);
      ReportedAreSplittable(controller.provider.fqdns, controller.provider.faulty, updated, issued, desired, snap);
      UpdateFqdns(updated);
      if WellFormed(desired, controller.Suffix()) {
        TellingReported(controller.provider.fqdns, controller.provider.faulty, updated,
                        fqdnUpdates[|old(fqdnUpdates)|..], issued, desired, held, snap, controller.Suffix());
      }
    }
  }

  lemma ReportedAreSplittable(names: Names, faulty: set<string>, updated: map<string, LBConfig>, issued: seq<Call>,
                              desired: Desired, snap: Desired)
    requires Splittable(desired) && Schedules(issued, desired, snap) && Reports(names, faulty, updated, issued)
    ensures forall f :: f in updated ==> |Split(updated[f].poolName, '_')| >= 2
  {
    forall f | f in updated ensures |Split(updated[f].poolName, '_')| >= 2 {
      var i :| 0 <= i < |issued| && Answers(names, faulty, issued[i], f) && issued[i].config == updated[f];
      assert Needed(desired, snap, issued[i].config.endpoint) == Some(issued[i]);
    }
  }

  lemma TellingReported(names: Names, faulty: set<string>, updated: map<string, LBConfig>, sent: seq<FqdnUpdate>,
                        issued: seq<Call>, desired: Desired, s: Store, snap: Desired, suffix: string)
    requires WellFormed(desired, suffix) && SnapshotOf(snap, s, suffix) && Splittable(desired)
    requires Schedules(issued, desired, snap) && Reports(names, faulty, updated, issued)
    requires forall f :: f in updated ==> |Split(updated[f].poolName, '_')| >= 2
    requires forall u :: u in sent <==> u.fqdn in updated && u == NameUpdate(updated[u.fqdn], u.fqdn)
    ensures TellsRepaired(names, sent, desired, OutOfSync(desired, s, suffix) - faulty)
  {
    ReportsRepaired(names, faulty, updated, issued, desired, s, snap, suffix);
    forall e | e in OutOfSync(desired, s, suffix) - faulty && e in desired && NameOf(names, e) != ""
      ensures exists u :: u in sent && u.fqdn == NameOf(names, e)
    {
      assert NameUpdate(updated[NameOf(names, e)], NameOf(names, e)) in sent;
    }
  }
}
