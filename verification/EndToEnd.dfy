/** From the services in the cluster metadata to the state of the provider. */
module EndToEnd {
  import ElbStore
  import opened Elb
  import opened Environments
  import opened Metadata
  import opened Model
  import opened PollLoop
  import Reconciler
  import opened Rounds
  import opened Seqs
  import opened Text

  // The hosts of every configured service are distinct: what the target diff needs.
  ghost predicate DistinctHosts(desired: Desired) {
    forall e :: e in desired ==> Distinct(HostIPs(desired[e].targets))
  }

  // And each of them is one instance of the cloud: what the ELB read-back needs.
  ghost predicate HostsResolve(desired: Desired, cloud: Cloud) {
    && DistinctHosts(desired)
    && forall e, t :: e in desired && t in desired[e].targets ==> ElbStore.ResolvesOnce(cloud, t.hostIP)
  }

  // Every pool has the name of its service and exactly the targets of that service; an endpoint that no
  // service is eligible for has no pool of the environment.
  ghost predicate Serves(s: Store, services: seq<Service>, environment: string, poolSuffix: string) {
    && (forall e, i :: FirstEligible(services, e, i) ==>
          && e in s
          && EqualFold(PoolName(services[i], environment, poolSuffix), s[e].poolName)
          && s[e].targets == multiset(TargetsOf(services[i], services[i].containers, ServicePort(services[i]).value)))
    && (forall e :: e in s && Owned(s[e].poolName, OwnershipSuffix(environment, poolSuffix)) ==>
          exists i :: FirstEligible(services, e, i))
  }

  // Being in sync with the desired map is serving the services.
  lemma InSyncServes(s: Store, services: seq<Service>, environment: string, poolSuffix: string)
    requires OutOfSync(DesiredOf(services, environment, poolSuffix), s, OwnershipSuffix(environment, poolSuffix)) == {}
    ensures Serves(s, services, environment, poolSuffix)
  {
    var d, suffix := DesiredOf(services, environment, poolSuffix), OwnershipSuffix(environment, poolSuffix);
    forall e, i | FirstEligible(services, e, i)
      ensures e in s && EqualFold(PoolName(services[i], environment, poolSuffix), s[e].poolName)
      ensures s[e].targets == multiset(TargetsOf(services[i], services[i].containers, ServicePort(services[i]).value))
    {
      FirstEligibleConfigures(services, environment, poolSuffix, e, i);
      assert e !in OutOfSync(d, s, suffix);
    }
    forall e | e in s && Owned(s[e].poolName, suffix) ensures exists i :: FirstEligible(services, e, i) {
      assert e !in OutOfSync(d, s, suffix);
      var i := ConfiguredHasFirst(services, environment, poolSuffix, e);
    }
  }

  // The metadata always fits the loop; it fits the target diff and the cloud exactly when the hosts do.
  lemma MetadataFits(services: seq<Service>, environment: string, poolSuffix: string, cloud: Cloud)
    ensures var d := DesiredOf(services, environment, poolSuffix);
            && WellKeyed(d) && Splittable(d)
            && (WellFormed(d, OwnershipSuffix(environment, poolSuffix)) <==> DistinctHosts(d))
            && (WellFormed(d, OwnershipSuffix(environment, poolSuffix)) && ElbStore.Realizable(d, cloud)
                <==> HostsResolve(d, cloud))
  {
    MetadataWellFormed(services, environment, poolSuffix);
  }

  // A round over load balancers whose calls succeed, in any order, leaves the listing serving the
  // services, and the next round has nothing to do.
  lemma ElbServesMetadata(states: seq<LbMap>, calls: seq<Call>, services: seq<Service>, snap: Desired, cloud: Cloud,
                          environment: string, poolSuffix: string)
    requires |states| > 0 && ElbStore.DistinctInstances(cloud) && AllOneState(states[0])
    requires ElbStore.PerformsAll(states, calls, cloud)
    requires HostsResolve(DesiredOf(services, environment, poolSuffix), cloud)
    requires SnapshotOf(snap, Listing(states[0], cloud), OwnershipSuffix(environment, poolSuffix))
    requires Schedules(calls, DesiredOf(services, environment, poolSuffix), snap)
    ensures Serves(Listing(states[|calls|], cloud), services, environment, poolSuffix)
    ensures forall next, snap' ::
              && SnapshotOf(snap', Listing(states[|calls|], cloud), OwnershipSuffix(environment, poolSuffix))
              && Schedules(next, DesiredOf(services, environment, poolSuffix), snap')
              ==> next == []
  {
    var d, suffix := DesiredOf(services, environment, poolSuffix), OwnershipSuffix(environment, poolSuffix);
    MetadataFits(services, environment, poolSuffix, cloud);
    ElbStore.ElbRoundConverges(states, calls, d, snap, cloud, suffix);
    InSyncServes(Listing(states[|calls|], cloud), services, environment, poolSuffix);
  }

  // What the name update for an endpoint tells.
  lemma UpdateNames(services: seq<Service>, environment: string, poolSuffix: string, e: string, fqdn: string)
      returns (i: int)
    requires e in DesiredOf(services, environment, poolSuffix)
    requires |Split(DesiredOf(services, environment, poolSuffix)[e].poolName, '_')| >= 2
    ensures FirstEligible(services, e, i)
    ensures var u := NameUpdate(DesiredOf(services, environment, poolSuffix)[e], fqdn);
            && u.fqdn == fqdn
            && (u.service == services[i].name && u.stack == services[i].stackName
                <==> '_' !in services[i].name && '_' !in services[i].stackName)
  {
    i := ConfiguredHasFirst(services, environment, poolSuffix, e);
    FirstEligibleConfigures(services, environment, poolSuffix, e, i);
    PoolNameSplits(services[i], environment, poolSuffix);
    var u := NameUpdate(DesiredOf(services, environment, poolSuffix)[e], fqdn);
    assert Split(PoolName(services[i], environment, poolSuffix), '_')[..2] == [u.service, u.stack];
  }

  // The name updates of a tick over metadata: each is about a repaired endpoint that has a name, and tells the
  // first eligible service of that endpoint, in its stack, if and only if neither name has an underscore.
  lemma ToldAsNamed(names: Reconciler.Names, updates: seq<FqdnUpdate>, desired: Desired, services: seq<Service>,
                    environment: string, poolSuffix: string, repaired: set<string>, u: FqdnUpdate)
      returns (e: string, i: int)
    requires desired == DesiredOf(services, environment, poolSuffix) && Splittable(desired)
    requires TellsRepaired(names, updates, desired, repaired) && u in updates
    ensures FirstEligible(services, e, i) && e in repaired && e in names && u.fqdn == names[e] != ""
    ensures u.service == services[i].name && u.stack == services[i].stackName
       <==> '_' !in services[i].name && '_' !in services[i].stackName
  {
    e := ToldIsRepaired(names, updates, desired, repaired, u);
    i := UpdateNames(services, environment, poolSuffix, e, names[e]);
  }

  // And every repaired endpoint that has a name is told about.
  lemma NamedIsTold(names: Reconciler.Names, updates: seq<FqdnUpdate>, desired: Desired, services: seq<Service>,
                    environment: string, poolSuffix: string, repaired: set<string>, e: string, i: int)
      returns (u: FqdnUpdate)
    requires desired == DesiredOf(services, environment, poolSuffix) && Splittable(desired)
    requires TellsRepaired(names, updates, desired, repaired)
    requires FirstEligible(services, e, i) && e in repaired && e in names && names[e] != ""
    ensures u in updates && u.fqdn == names[e]
  {
    FirstEligibleConfigures(services, environment, poolSuffix, e, i);
    u := RepairedIsTold(names, updates, desired, repaired, e);
  }

  // A failed read of the services is taken for no services: the next round removes every pool of the
  // environment, and nothing else.
  lemma FailedReadRemovesAll(s: Store, environment: string, poolSuffix: string)
    ensures Reconciled(DesiredOf([], environment, poolSuffix), s, OwnershipSuffix(environment, poolSuffix), {})
         == map e | e in s && !Owned(s[e].poolName, OwnershipSuffix(environment, poolSuffix)) :: s[e]
  {
    var d, suffix := DesiredOf([], environment, poolSuffix), OwnershipSuffix(environment, poolSuffix);
    var unowned := map e | e in s && !Owned(s[e].poolName, suffix) :: s[e];
    forall e ensures Lookup(Reconciled(d, s, suffix, {}), e) == Lookup(unowned, e) {
      assert e in s ==> (e in OutOfSync(d, s, suffix) <==> Owned(s[e].poolName, suffix));
    }
    SameLookupsSameStore(Reconciled(d, s, suffix, {}), unowned);
  }

  // ----- whole runs

  // After every tick of every calm run from the start the provider serves the services of the version
  // read last, with and without the cache test, if the first version has something to configure or finds
  // nothing to remove.
  lemma LoopServesMetadata(store: Store, start: int, ticks: seq<Tick>, content: string -> Desired,
                           services: string -> seq<Service>, environment: string, poolSuffix: string)
    requires ticks != [] && ticks[0].version.Some? && ticks[0].version.value != INITIAL_VERSION
    requires forall v :: content(v) == DesiredOf(services(v), environment, poolSuffix)
    requires forall i :: 0 <= i < |ticks| ==> Calm(ticks[i], content, OwnershipSuffix(environment, poolSuffix))
    requires ticks[0].desired != map[]
             || forall e :: e in store ==> !Owned(store[e].poolName, OwnershipSuffix(environment, poolSuffix))
    ensures var suffix := OwnershipSuffix(environment, poolSuffix);
            var cached := Run(StartState(store, start), ticks, suffix, true);
            && Serves(cached.store, services(cached.version), environment, poolSuffix)
            && cached.store == Run(StartState(store, start), ticks, suffix, false).store
  {
    var suffix, s := OwnershipSuffix(environment, poolSuffix), StartState(store, start);
    CalmRunSettles(store, start, ticks, content, suffix);
    var end := Run(s, ticks, suffix, true);
    InSyncServes(end.store, services(end.version), environment, poolSuffix);
  }

  // Several clusters, each with its own environment and services, share the provider: after any sequence
  // of their rounds each is served as of its last round.
  lemma ClustersServed(s: Store, rounds: seq<EnvRound>, services: seq<seq<Service>>, poolSuffix: string, i: nat)
    requires |services| == |rounds|
    requires forall k :: 0 <= k < |rounds| ==>
               && '_' !in rounds[k].environment
               && rounds[k].desired == DesiredOf(services[k], rounds[k].environment, poolSuffix)
               && DistinctHosts(rounds[k].desired)
    requires forall j, k :: 0 <= j < |rounds| && 0 <= k < |rounds| && rounds[j].environment != rounds[k].environment ==>
               rounds[j].desired.Keys !! rounds[k].desired.Keys
    requires i < |rounds| && forall j :: i < j < |rounds| ==> rounds[j].environment != rounds[i].environment
    ensures Serves(AfterAll(s, rounds, poolSuffix), services[i], rounds[i].environment, poolSuffix)
  {
    forall k | 0 <= k < |rounds|
      ensures WellFormed(rounds[k].desired, OwnershipSuffix(rounds[k].environment, poolSuffix))
    {
      MetadataWellFormed(services[k], rounds[k].environment, poolSuffix);
    }
    ControllersDoNotInterfere(s, rounds, poolSuffix, i);
    InSyncServes(AfterAll(s, rounds, poolSuffix), services[i], rounds[i].environment, poolSuffix);
  }
}
