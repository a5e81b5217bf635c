/** The ELB provider is the store that the reconcile assumes, as far as addresses resolve one to one. */
module ElbStore {
  import opened Elb
  import opened ElbLists
  import opened Model
  import opened Rounds
  import opened Seqs

  predicate Hits(cloud: Cloud, x: EC2Instance, ip: string) {
    x in cloud.instances && x.vpcID == cloud.vpcID && cloud.Address(x) == ip
  }

  // Exactly one instance of the private cloud has the address.
  ghost predicate ResolvesOnce(cloud: Cloud, ip: string) {
    exists x :: Hits(cloud, x, ip) && forall y :: Hits(cloud, y, ip) ==> y == x
  }

  ghost predicate DistinctInstances(cloud: Cloud) {
    forall i, j :: 0 <= i < j < |cloud.instances| ==> cloud.instances[i].id != cloud.instances[j].id
  }

  ghost predicate UniformPort(config: LBConfig) {
    forall t :: t in config.targets ==> t.port == config.targetPort
  }

  lemma ByAddressMember(cloud: Cloud, ips: seq<string>, x: EC2Instance)
    ensures x in cloud.ByAddress(ips) <==> x in cloud.instances && x.vpcID == cloud.vpcID && cloud.Address(x) in ips
  {
    SelectMember(cloud.instances, (y: EC2Instance) => y.vpcID == cloud.vpcID && cloud.Address(y) in ips, x);
  }

  lemma {:induction false} SelectDistinct(instances: seq<EC2Instance>, p: EC2Instance -> bool)
    requires Distinct(instances)
    ensures Distinct(Select(instances, p))
  {
    if instances != [] {
      var front, last := instances[..|instances| - 1], instances[|instances| - 1];
      SelectDistinct(front, p);
      SelectMember(front, p, last);
    }
  }

  // Looking the registered identifiers up again finds the instances that were registered.
  lemma ByIdFindsThem(cloud: Cloud, ips: seq<string>, ids: seq<string>)
    requires DistinctInstances(cloud) && Elements(ids) == Elements(IdsOf(cloud.ByAddress(ips)))
    ensures cloud.ById(ids) == cloud.ByAddress(ips)
  {
    var found := cloud.ByAddress(ips);
    var p := (x: EC2Instance) => x.vpcID == cloud.vpcID && cloud.Address(x) in ips;
    var q := (x: EC2Instance) => x.id in ids;
    forall x | x in cloud.instances ensures p(x) == q(x) {
      ByAddressMember(cloud, ips, x);
      if p(x) {
        var i :| 0 <= i < |found| && found[i] == x;
        assert IdsOf(found)[i] == x.id && x.id in Elements(IdsOf(found));
      }
      if q(x) {
        assert x.id in Elements(ids);
        var i :| 0 <= i < |found| && IdsOf(found)[i] == x.id;
        ByAddressMember(cloud, ips, found[i]);
        assert found[i] == x;
      }
    }
    SelectSame(cloud.instances, p, q);
  }

  // The instances found for distinct targets read back as the targets exactly when every address
  // resolves to one instance.
  lemma FoundReadBack(cloud: Cloud, config: LBConfig)
    requires DistinctInstances(cloud) && UniformPort(config) && Distinct(config.targets)
    ensures multiset(cloud.Targets(cloud.ByAddress(HostIPs(config.targets)), config.targetPort))
            == multiset(config.targets)
       <==> forall t :: t in config.targets ==> ResolvesOnce(cloud, t.hostIP)
  {
    var found := cloud.ByAddress(HostIPs(config.targets));
    var read := cloud.Targets(found, config.targetPort);
    PermutesSet(config.targets, Elements(config.targets));
    PermutesSet(read, Elements(config.targets));
    if forall t :: t in config.targets ==> ResolvesOnce(cloud, t.hostIP) {
      ResolvedReadsBack(cloud, config);
    }
    if Distinct(read) && Elements(read) == Elements(config.targets) {
      forall t | t in config.targets ensures ResolvesOnce(cloud, t.hostIP) {
        ReadBackResolves(cloud, config, t);
      }
    }
  }

  lemma HostIPOfTarget(ts: seq<LBTarget>, ip: string)
    ensures ip in HostIPs(ts) <==> exists t :: t in ts && t.hostIP == ip
  {
    if ip in HostIPs(ts) {
      var i :| 0 <= i < |ts| && HostIPs(ts)[i] == ip;
      assert ts[i] in ts;
    }
    if exists t :: t in ts && t.hostIP == ip {
      var t :| t in ts && t.hostIP == ip;
      var i :| 0 <= i < |ts| && ts[i] == t;
      assert HostIPs(ts)[i] == ip;
    }
  }

  lemma ResolvedReadsBack(cloud: Cloud, config: LBConfig)
    requires DistinctInstances(cloud) && UniformPort(config)
    requires forall t :: t in config.targets ==> ResolvesOnce(cloud, t.hostIP)
    ensures var read := cloud.Targets(cloud.ByAddress(HostIPs(config.targets)), config.targetPort);
            Distinct(read) && Elements(read) == Elements(config.targets)
  {
    var ips := HostIPs(config.targets);
    var found := cloud.ByAddress(ips);
    var read := cloud.Targets(found, config.targetPort);
    SelectDistinct(cloud.instances, (x: EC2Instance) => x.vpcID == cloud.vpcID && cloud.Address(x) in ips);
    forall i | 0 <= i < |found|
      ensures Hits(cloud, found[i], cloud.Address(found[i])) && ResolvesOnce(cloud, cloud.Address(found[i]))
      ensures read[i] in config.targets
    {
      ByAddressMember(cloud, ips, found[i]);
      HostIPOfTarget(config.targets, cloud.Address(found[i]));
      var t :| t in config.targets && t.hostIP == cloud.Address(found[i]);
      assert read[i] == t;
    }
    forall i, j | 0 <= i < j < |read| ensures read[i] != read[j] {
      assert found[i] != found[j];
      assert Hits(cloud, found[i], cloud.Address(found[i])) && Hits(cloud, found[j], cloud.Address(found[j]));
    }
    forall t | t in config.targets ensures t in read {
      var x :| Hits(cloud, x, t.hostIP);
      HostIPOfTarget(config.targets, t.hostIP);
      ByAddressMember(cloud, ips, x);
      var i :| 0 <= i < |found| && found[i] == x;
      assert read[i] == t;
    }
  }

  lemma ReadBackResolves(cloud: Cloud, config: LBConfig, t: LBTarget)
    requires UniformPort(config) && t in config.targets
    requires var read := cloud.Targets(cloud.ByAddress(HostIPs(config.targets)), config.targetPort);
             Distinct(read) && Elements(read) == Elements(config.targets)
    ensures ResolvesOnce(cloud, t.hostIP)
  {
    var ips := HostIPs(config.targets);
    var found := cloud.ByAddress(ips);
    var read := cloud.Targets(found, config.targetPort);
    assert t in Elements(read);
    var i :| 0 <= i < |read| && read[i] == t;
    ByAddressMember(cloud, ips, found[i]);
    assert Hits(cloud, found[i], t.hostIP);
    HostIPOfTarget(config.targets, t.hostIP);
    forall y | Hits(cloud, y, t.hostIP) ensures y == found[i] {
      ByAddressMember(cloud, ips, y);
      var j :| 0 <= j < |found| && found[j] == y;
      assert read[j] == t;
    }
  }

  // A successful add or update with distinct targets on the service port makes the listing show exactly
  // the configuration, and nothing else changes, if and only if every address resolves to one instance.
  lemma WriteFaithfulIffResolves(lbs: LbMap, config: LBConfig, cloud: Cloud)
    requires AllOneState(lbs) && config.endpoint in lbs && DistinctInstances(cloud)
    requires UniformPort(config) && Distinct(config.targets)
    ensures Listing(Written(lbs, config, cloud), cloud) == Listing(lbs, cloud)[config.endpoint := View(config)]
       <==> forall t :: t in config.targets ==> ResolvesOnce(cloud, t.hostIP)
  {
    var e, lbs' := config.endpoint, Written(lbs, config, cloud);
    var before, after := Listing(lbs, cloud), Listing(lbs', cloud);
    MakeBeforeBreak(lbs[e].states, WantedIds(config, cloud));
    ByIdFindsThem(cloud, HostIPs(config.targets), ActiveIds(lbs'[e].states));
    FoundReadBack(cloud, config);
    var entry := Entry(config.poolName, multiset(ListedTargets(lbs'[e], cloud)));
    assert after[e] == entry;
    forall n ensures Lookup(after, n) == Lookup(before[e := entry], n) {
    }
    SameLookupsSameStore(after, before[e := entry]);
    EntryAt(before, e, entry, View(config));
  }

  // A successful remove makes the endpoint disappear from the listing, and nothing else.
  lemma RemoveIsFaithful(lbs: LbMap, e: string, cloud: Cloud)
    requires e in lbs
    ensures Listing(Cleared(lbs, e), cloud) == Listing(lbs, cloud) - {e}
  {
    var before, after := Listing(lbs, cloud), Listing(Cleared(lbs, e), cloud);
    forall n ensures Lookup(after, n) == Lookup(before - {e}, n) {
      assert n == e ==> !Tagged(Cleared(lbs, e)[e]);
    }
    SameLookupsSameStore(after, before - {e});
  }

  // ----- whole rounds over load balancers

  // What a successful call of a round does to the load balancers.
  ghost predicate Performs(lbs: LbMap, call: Call, cloud: Cloud, lbs': LbMap) {
    && call.config.endpoint in lbs
    && lbs' == if call.Remove? then Cleared(lbs, call.config.endpoint) else Written(lbs, call.config, cloud)
  }

  // The load balancers after each call of a round, all of them successful.
  ghost predicate PerformsAll(states: seq<LbMap>, calls: seq<Call>, cloud: Cloud) {
    && |states| == |calls| + 1
    && forall i :: 0 <= i < |calls| ==> Performs(states[i], calls[i], cloud, states[i + 1])
  }

  // What metadata and the cloud must provide for a desired map to be realizable.
  ghost predicate Realizable(desired: Desired, cloud: Cloud) {
    forall e :: e in desired ==>
      && UniformPort(desired[e]) && Distinct(desired[e].targets)
      && forall t :: t in desired[e].targets ==> ResolvesOnce(cloud, t.hostIP)
  }

  lemma {:induction false} CallsFollowTheStore(states: seq<LbMap>, calls: seq<Call>, cloud: Cloud)
    requires DistinctInstances(cloud) && PerformsAll(states, calls, cloud) && AllOneState(states[0])
    requires forall i :: 0 <= i < |calls| && !calls[i].Remove? ==>
               && UniformPort(calls[i].config) && Distinct(calls[i].config.targets)
               && forall t :: t in calls[i].config.targets ==> ResolvesOnce(cloud, t.hostIP)
    ensures AllOneState(states[|calls|])
    ensures Listing(states[|calls|], cloud) == ApplyAll(Listing(states[0], cloud), calls, {})
  {
    if calls != [] {
      var n := |calls| - 1;
      var front, before := calls[..n], states[n];
      forall i | 0 <= i < n ensures Performs(states[..n + 1][i], front[i], cloud, states[..n + 1][i + 1]) {
        assert Performs(states[i], calls[i], cloud, states[i + 1]);
      }
      CallsFollowTheStore(states[..n + 1], front, cloud);
      assert Performs(before, calls[n], cloud, states[n + 1]);
      CallFollowsTheStore(before, calls[n], cloud);
    }
  }

  lemma CallFollowsTheStore(lbs: LbMap, call: Call, cloud: Cloud)
    requires DistinctInstances(cloud) && AllOneState(lbs) && call.config.endpoint in lbs
    requires !call.Remove? ==>
               && UniformPort(call.config) && Distinct(call.config.targets)
               && forall t :: t in call.config.targets ==> ResolvesOnce(cloud, t.hostIP)
    ensures var lbs' := if call.Remove? then Cleared(lbs, call.config.endpoint) else Written(lbs, call.config, cloud);
            AllOneState(lbs') && Listing(lbs', cloud) == Apply(Listing(lbs, cloud), call, {})
  {
    if call.Remove? {
      MakeBeforeBreak(lbs[call.config.endpoint].states, []);
      RemoveIsFaithful(lbs, call.config.endpoint, cloud);
    } else {
      MakeBeforeBreak(lbs[call.config.endpoint].states, WantedIds(call.config, cloud));
      WriteFaithfulIffResolves(lbs, call.config, cloud);
    }
  }

  // End to end: a round whose calls succeed on the load balancers, in any order, brings the listing of
  // the provider in sync with the desired map, so that the next round has nothing to do.
  lemma ElbRoundConverges(states: seq<LbMap>, calls: seq<Call>, desired: Desired, snap: Desired,
                          cloud: Cloud, suffix: string)
    requires |states| > 0 && DistinctInstances(cloud) && AllOneState(states[0])
    requires PerformsAll(states, calls, cloud)
    requires WellFormed(desired, suffix) && Realizable(desired, cloud)
    requires SnapshotOf(snap, Listing(states[0], cloud), suffix) && Schedules(calls, desired, snap)
    ensures Listing(states[|calls|], cloud) == Reconciled(desired, Listing(states[0], cloud), suffix, {})
    ensures OutOfSync(desired, Listing(states[|calls|], cloud), suffix) == {}
    ensures forall next, snap' ::
              SnapshotOf(snap', Listing(states[|calls|], cloud), suffix) && Schedules(next, desired, snap')
              ==> next == []
  {
    forall i | 0 <= i < |calls| && !calls[i].Remove?
      ensures UniformPort(calls[i].config) && Distinct(calls[i].config.targets)
      ensures forall t :: t in calls[i].config.targets ==> ResolvesOnce(cloud, t.hostIP)
    {
      assert Needed(desired, snap, calls[i].config.endpoint) == Some(calls[i]);
    }
    CallsFollowTheStore(states, calls, cloud);
    AnyOrderReconciles(desired, Listing(states[0], cloud), snap, suffix, calls, {});
    RoundRepairs(desired, Listing(states[0], cloud), suffix, {});
    forall next, snap' | SnapshotOf(snap', Listing(states[|calls|], cloud), suffix) && Schedules(next, desired, snap')
      ensures next == []
    {
      QuietIffInSync(desired, Listing(states[|calls|], cloud), snap', suffix, next);
    }
  }
}
