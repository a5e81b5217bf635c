/**
 * The ELB classic provider (elbv1/aws_elbv1.go, elbv1svc) over load balancers with instance states
 * and tags. Any call of a service that is not reliable may fail.
 */
module Elb {
  import opened ElbLists
  import opened Merging
  import opened Model
  import opened Rounds
  import opened Seqs
  import opened Text

  const TAG_TARGET_POOL := "external-lb/targetPoolName"
  const TAG_SERVICE_PORT := "external-lb/servicePort"

  const IN_SERVICE := "InService"
  const OUT_OF_SERVICE := "OutOfService"
  const UNKNOWN := "Unknown"

  // Descriptions that the service gives to instances on their way in and out.
  const REGISTERING := "registration in progress"
  const DEREGISTERING := "deregistration in progress"

  datatype InstanceState = InstanceState(id: string, state: string, description: string)

  datatype LoadBalancer = LoadBalancer(dnsName: string, instancePorts: seq<int>, states: seq<InstanceState>,
                                       tags: map<string, string>)

  datatype EC2Instance = EC2Instance(id: string, privateIP: string, publicIP: string, vpcID: string)

  datatype TagDescription = TagDescription(name: string, tags: seq<Tag>)

  type LbMap = map<string, LoadBalancer>

  // ----- registration

  predicate Active(s: InstanceState) {
    || s.state == IN_SERVICE
    || ((s.state == OUT_OF_SERVICE || s.state == UNKNOWN)
        && !Contains(s.description, "deregistration") && !Contains(s.description, "not currently registered"))
  }

  // The instances that count as registered, in the order of their states.
  function ActiveIds(states: seq<InstanceState>): seq<string> {
    if states == [] then []
    else
      var s := states[|states| - 1];
      ActiveIds(states[..|states| - 1]) + if Active(s) then [s.id] else []
  }

  function Registered(lb: LoadBalancer): set<string> {
    Elements(ActiveIds(lb.states))
  }

  ghost predicate OneStateEach(states: seq<InstanceState>) {
    forall i, j :: 0 <= i < j < |states| ==> states[i].id != states[j].id
  }

  lemma {:induction false} ActiveIdsExact(states: seq<InstanceState>, id: string)
    ensures id in ActiveIds(states) <==> exists i :: 0 <= i < |states| && states[i].id == id && Active(states[i])
  {
    if states != [] {
      var front := states[..|states| - 1];
      ActiveIdsExact(front, id);
      assert forall i :: 0 <= i < |front| ==> front[i] == states[i];
    }
  }

  // In words of the service: an instance counts when it is in service, whatever its description, or out of
  // service or unknown with a description that speaks neither of deregistration nor of no registration.
  lemma RegisteredMeans(states: seq<InstanceState>, id: string)
    ensures id in ActiveIds(states) <==>
            exists i ::
              && 0 <= i < |states| && states[i].id == id
              && (|| states[i].state == "InService"
                  || (states[i].state in {"OutOfService", "Unknown"}
                      && !Contains(states[i].description, "deregistration")
                      && !Contains(states[i].description, "not currently registered")))
  {
    ActiveIdsExact(states, id);
    assert forall i :: 0 <= i < |states| ==>
             (Active(states[i]) <==>
              || states[i].state == "InService"
              || (states[i].state in {"OutOfService", "Unknown"}
                  && !Contains(states[i].description, "deregistration")
                  && !Contains(states[i].description, "not currently registered")));
  }

  // Instances are registered in the order of their states, each as often as it has a state that counts.
  lemma {:induction false} RegisteredInOrder(a: seq<InstanceState>, b: seq<InstanceState>)
    ensures ActiveIds(a + b) == ActiveIds(a) + ActiveIds(b)
  {
    if b == [] {
      assert a + b == a;
    } else {
      RegisteredInOrder(a, b[..|b| - 1]);
      assert (a + b)[..|a + b| - 1] == a + b[..|b| - 1];
    }
  }

  // What the service does to the states.
  function Join(states: seq<InstanceState>, id: string): seq<InstanceState> {
    Without(states, id) + [InstanceState(id, OUT_OF_SERVICE, REGISTERING)]
  }

  function Without(states: seq<InstanceState>, id: string): seq<InstanceState> {
    if states == [] then []
    else
      var s := states[|states| - 1];
      Without(states[..|states| - 1], id) + if s.id == id then [] else [s]
  }

  function JoinAll(states: seq<InstanceState>, ids: seq<string>): seq<InstanceState> {
    if ids == [] then states else Join(JoinAll(states, ids[..|ids| - 1]), ids[|ids| - 1])
  }

  function LeaveAll(states: seq<InstanceState>, ids: seq<string>): seq<InstanceState> {
    seq(|states|, i requires 0 <= i < |states| =>
      if states[i].id in ids then InstanceState(states[i].id, OUT_OF_SERVICE, DEREGISTERING) else states[i])
  }

  lemma JoiningIsActive(id: string)
    ensures Active(InstanceState(id, OUT_OF_SERVICE, REGISTERING))
  {
    ContainsBrings(REGISTERING, "deregistration", 'd');
    ContainsBrings(REGISTERING, "not currently registered", 'd');
    assert 'd' in "deregistration" by {
      assert "deregistration"[0] == 'd';
    }
    assert 'd' in "not currently registered" by {
      assert "not currently registered"[23] == 'd';
    }
    assert 'd' !in REGISTERING;
  }

  lemma LeavingIsNotActive(id: string)
    ensures !Active(InstanceState(id, OUT_OF_SERVICE, DEREGISTERING))
  {
    assert DEREGISTERING == "deregistration" + " in progress";
    assert PartAt(DEREGISTERING, "deregistration", 0);
  }

  lemma {:induction false} WithoutExact(states: seq<InstanceState>, id: string, s: InstanceState)
    ensures s in Without(states, id) <==> s in states && s.id != id
    ensures OneStateEach(states) ==> OneStateEach(Without(states, id))
  {
    if states != [] {
      var front, last := states[..|states| - 1], states[|states| - 1];
      WithoutExact(front, id, s);
      WithoutExact(front, id, last);
      assert s in states <==> s in front || s == last;
      forall x | x in Without(front, id) && OneStateEach(states) ensures x.id != last.id {
        WithoutExact(front, id, x);
        var i :| 0 <= i < |front| && front[i] == x;
        assert states[i] == x;
      }
    }
  }

  // Joining makes the instance registered and leaves the states of the others alone.
  lemma JoinExact(states: seq<InstanceState>, id: string)
    requires OneStateEach(states)
    ensures OneStateEach(Join(states, id))
    ensures Elements(ActiveIds(Join(states, id))) == Elements(ActiveIds(states)) + {id}
    ensures forall s :: s in states && s.id != id ==> s in Join(states, id)
  {
    JoiningIsActive(id);
    var joined := Join(states, id);
    forall s ensures s in Without(states, id) <==> s in states && s.id != id {
      WithoutExact(states, id, s);
    }
    WithoutExact(states, id, joined[|joined| - 1]);
    forall x ensures x in ActiveIds(joined) <==> x in ActiveIds(states) || x == id {
      ActiveIdsExact(joined, x);
      ActiveIdsExact(states, x);
      MembersCarry(joined, states, x);
    }
  }

  // Registration of an instance depends on the set of states only.
  lemma MembersCarry(joined: seq<InstanceState>, states: seq<InstanceState>, x: string)
    ensures x in ActiveIds(joined) <==> exists s :: s in joined && s.id == x && Active(s)
    ensures x in ActiveIds(states) <==> exists s :: s in states && s.id == x && Active(s)
  {
    ActiveIdsExact(joined, x);
    ActiveIdsExact(states, x);
  }

  lemma {:induction false} JoinAllExact(states: seq<InstanceState>, ids: seq<string>)
    requires OneStateEach(states)
    ensures OneStateEach(JoinAll(states, ids))
    ensures Elements(ActiveIds(JoinAll(states, ids))) == Elements(ActiveIds(states)) + Elements(ids)
    ensures forall s :: s in states && s.id !in ids ==> s in JoinAll(states, ids)
  {
    if ids != [] {
      var front, id := ids[..|ids| - 1], ids[|ids| - 1];
      JoinAllExact(states, front);
      JoinExact(JoinAll(states, front), id);
      assert Elements(ids) == Elements(front) + {id};
    }
  }

  lemma LeaveAllExact(states: seq<InstanceState>, ids: seq<string>)
    requires OneStateEach(states)
    ensures OneStateEach(LeaveAll(states, ids))
    ensures Elements(ActiveIds(LeaveAll(states, ids))) == Elements(ActiveIds(states)) - Elements(ids)
    ensures forall s :: s in states && s.id !in ids ==> s in LeaveAll(states, ids)
  {
    var left := LeaveAll(states, ids);
    forall x ensures x in ActiveIds(left) <==> x in ActiveIds(states) && x !in ids {
      LeavingIsNotActive(x);
      ActiveIdsExact(left, x);
      ActiveIdsExact(states, x);
      assert forall i :: 0 <= i < |states| && states[i].id == x && x !in ids ==> left[i] == states[i];
      assert forall i :: 0 <= i < |left| && left[i].id == x && Active(left[i]) ==> left[i] == states[i];
    }
    forall s | s in states && s.id !in ids ensures s in left {
      var i :| 0 <= i < |states| && states[i] == s;
      assert left[i] == s;
    }
  }

  // ----- instances

  function Select(instances: seq<EC2Instance>, p: EC2Instance -> bool): seq<EC2Instance> {
    if instances == [] then []
    else
      var x := instances[|instances| - 1];
      Select(instances[..|instances| - 1], p) + if p(x) then [x] else []
  }

  function IdsOf(instances: seq<EC2Instance>): seq<string> {
    seq(|instances|, i requires 0 <= i < |instances| => instances[i].id)
  }

  datatype Cloud = Cloud(instances: seq<EC2Instance>, vpcID: string, usePrivateIP: bool)
  {
    function Address(x: EC2Instance): string {
      if usePrivateIP then x.privateIP else x.publicIP
    }

    function ByAddress(ips: seq<string>): seq<EC2Instance> {
      Select(instances, (x: EC2Instance) => x.vpcID == vpcID && Address(x) in ips)
    }

    function ById(ids: seq<string>): seq<EC2Instance> {
      Select(instances, (x: EC2Instance) => x.id in ids)
    }

    function Targets(found: seq<EC2Instance>, port: string): seq<LBTarget> {
      seq(|found|, i requires 0 <= i < |found| => LBTarget(Address(found[i]), port))
    }
  }

  predicate Tagged(lb: LoadBalancer) {
    TAG_TARGET_POOL in lb.tags && TAG_SERVICE_PORT in lb.tags
  }

  function ListedTargets(lb: LoadBalancer, cloud: Cloud): seq<LBTarget>
    requires Tagged(lb)
  {
    cloud.Targets(cloud.ById(ActiveIds(lb.states)), lb.tags[TAG_SERVICE_PORT])
  }

  // What a listing of the provider shows.
  function Listing(lbs: LbMap, cloud: Cloud): Store {
    map n | n in lbs && Tagged(lbs[n]) :: Entry(lbs[n].tags[TAG_TARGET_POOL], multiset(ListedTargets(lbs[n], cloud)))
  }

  // ----- the service

  class ElbService {
    var lbs: LbMap
    const cloud: Cloud
    const reliable: bool

    ghost predicate Valid()
      reads this
    {
      AllOneState(lbs)
    }

    constructor (lbs: LbMap, cloud: Cloud, reliable: bool)
      requires AllOneState(lbs)
      ensures Valid() && this.lbs == lbs && this.cloud == cloud && this.reliable == reliable
    {
      this.lbs, this.cloud, this.reliable := lbs, cloud, reliable;
    }

    method Reached() returns (ok: bool)
      ensures reliable ==> ok
    {
      ok := *;
      ok := ok || reliable;
    }

    method DescribeTags(names: seq<string>) returns (r: Result<seq<TagDescription>>)
      requires 1 <= |names| <= CHUNK_SIZE
      ensures r.Ok? ==> Describes(names, r.value, lbs)
      ensures reliable && (forall n :: n in names ==> n in lbs) ==> r.Ok?
    {
      var ok := Reached();
      if !ok || exists n :: n in names && n !in lbs {
        return Err;
      }
      var ds: seq<TagDescription> := [];
      for i := 0 to |names|
        invariant Describes(names[..i], ds, lbs)
      {
        var tags := ElbTags(lbs[names[i]].tags);
        ds := ds + [TagDescription(names[i], tags[..])];
      }
      assert names[..|names|] == names;
      r := Ok(ds);
    }

    // The lookup in chunks describes all the names, as one unbounded lookup would.
    method FindLBTags(loadBalancerNames: seq<string>) returns (r: Result<seq<TagDescription>>)
      ensures r.Ok? ==> Describes(loadBalancerNames, r.value, lbs)
      ensures reliable && (forall n :: n in loadBalancerNames ==> n in lbs) ==> r.Ok?
    {
      var dividedNames := DivideNames(loadBalancerNames);
      var tagDescriptions: seq<TagDescription> := [];
      for i := 0 to |dividedNames|
        invariant Describes(Flatten(dividedNames[..i]), tagDescriptions, lbs)
      {
        assert dividedNames[..i + 1][..i] == dividedNames[..i];
        ChunkMember(dividedNames, i);
        var resp := DescribeTags(dividedNames[i]);
        if resp.Err? {
          return Err;
        }
        tagDescriptions := tagDescriptions + resp.value;
      }
      assert dividedNames[..|dividedNames|] == dividedNames;
      r := Ok(tagDescriptions);
    }

    method DescribeLBTags(loadBalancerNames: seq<string>) returns (r: Result<map<string, map<string, string>>>)
      ensures r.Ok? ==> r.value.Keys == Elements(loadBalancerNames)
      ensures r.Ok? ==> forall n :: n in r.value ==> n in lbs && r.value[n] == lbs[n].tags
      ensures reliable && (forall n :: n in loadBalancerNames ==> n in lbs) ==> r.Ok?
    {
      var tagDescriptions := FindLBTags(loadBalancerNames);
      if tagDescriptions.Err? {
        return Err;
      }
      var ret: map<string, map<string, string>> := map[];
      for i := 0 to |tagDescriptions.value|
        invariant ret.Keys == Elements(loadBalancerNames[..i])
        invariant forall n :: n in ret ==> n in lbs && ret[n] == lbs[n].tags
      {
        var desc := tagDescriptions.value[i];
        var tags := MapTags(desc.tags);
        ret := ret[desc.name := tags];
        assert loadBalancerNames[..i + 1] == loadBalancerNames[..i] + [desc.name];
      }
      assert loadBalancerNames[..|loadBalancerNames|] == loadBalancerNames;
      r := Ok(ret);
    }

    method AddLBTags(name: string, tags: map<string, string>) returns (ok: bool)
      modifies this
      ensures ok ==> name in old(lbs) && lbs == old(lbs)[name := old(lbs)[name].(tags := old(lbs)[name].tags + tags)]
      ensures !ok ==> lbs == old(lbs)
      ensures reliable && name in old(lbs) ==> ok
    {
      var awsTags := ElbTags(tags);
      ok := Reached();
      ok := ok && name in lbs;
      if ok {
        lbs := lbs[name := lbs[name].(tags := lbs[name].tags + TagMap(awsTags[..]))];
      }
    }

    method RemoveLBTag(name: string, tagKey: string) returns (ok: bool)
      modifies this
      ensures ok ==> name in old(lbs)
                     && lbs == old(lbs)[name := old(lbs)[name].(tags := old(lbs)[name].tags - {tagKey})]
      ensures !ok ==> lbs == old(lbs)
      ensures reliable && name in old(lbs) ==> ok
    {
      ok := Reached();
      ok := ok && name in lbs;
      if ok {
        lbs := lbs[name := lbs[name].(tags := lbs[name].tags - {tagKey})];
      }
    }

    method RegisterInstances(name: string, ids: seq<string>) returns (ok: bool)
      modifies this
      ensures ok ==> name in old(lbs) && lbs == WithStates(old(lbs), name, JoinAll(old(lbs)[name].states, ids))
      ensures !ok ==> lbs == old(lbs)
      ensures reliable && name in old(lbs) ==> ok
    {
      ok := Reached();
      ok := ok && name in lbs;
      if ok {
        lbs := lbs[name := lbs[name].(states := JoinAll(lbs[name].states, ids))];
      }
    }

    method DeregisterInstances(name: string, ids: seq<string>) returns (ok: bool)
      modifies this
      ensures ok ==> name in old(lbs) && lbs == WithStates(old(lbs), name, LeaveAll(old(lbs)[name].states, ids))
      ensures !ok ==> lbs == old(lbs)
      ensures reliable && name in old(lbs) ==> ok
    {
      ok := Reached();
      ok := ok && name in lbs;
      if ok {
        lbs := lbs[name := lbs[name].(states := LeaveAll(lbs[name].states, ids))];
      }
    }

    method DescribeInstanceHealth(name: string) returns (r: Result<seq<InstanceState>>)
      ensures r.Ok? ==> name in lbs && r.value == lbs[name].states
      ensures reliable && name in lbs ==> r.Ok?
    {
      var ok := Reached();
      r := if ok && name in lbs then Ok(lbs[name].states) else Err;
    }

    method GetRegisteredInstances(name: string) returns (r: Result<seq<string>>)
      ensures r.Ok? ==> name in lbs && r.value == ActiveIds(lbs[name].states)
      ensures r.Ok? ==> forall id :: id in r.value <==>
                exists i ::
                  && 0 <= i < |lbs[name].states| && lbs[name].states[i].id == id
                  && (|| lbs[name].states[i].state == "InService"
                      || (lbs[name].states[i].state in {"OutOfService", "Unknown"}
                          && !Contains(lbs[name].states[i].description, "deregistration")
                          && !Contains(lbs[name].states[i].description, "not currently registered")))
      ensures reliable && name in lbs ==> r.Ok?
    {
      var instanceStates := DescribeInstanceHealth(name);
      if instanceStates.Err? {
        return Err;
      }
      var states := instanceStates.value;
      var instanceIds: seq<string> := [];
      for i := 0 to |states|
        invariant instanceIds == ActiveIds(states[..i])
      {
        assert states[..i + 1][..i] == states[..i];
        var s := states[i];
        if s.state == IN_SERVICE {
          instanceIds := instanceIds + [s.id];
        } else if s.state == OUT_OF_SERVICE || s.state == UNKNOWN {
          if Contains(s.description, "deregistration") || Contains(s.description, "not currently registered") {
            continue;
          }
          instanceIds := instanceIds + [s.id];
        }
      }
      assert states[..|states|] == states;
      forall id { RegisteredMeans(states, id); }
      r := Ok(instanceIds);
    }

    method LookupInstancesByIPAddress(ips: seq<string>) returns (r: Result<seq<EC2Instance>>)
      ensures r.Ok? ==> r.value == cloud.ByAddress(ips)
      ensures reliable ==> r.Ok?
    {
      var ok := Reached();
      r := if ok then Ok(cloud.ByAddress(ips)) else Err;
    }

    method GetInstancesByID(ids: seq<string>) returns (r: Result<seq<EC2Instance>>)
      ensures r.Ok? ==> r.value == cloud.ById(ids)
      ensures reliable ==> r.Ok?
    {
      var ok := Reached();
      r := if ok then Ok(cloud.ById(ids)) else Err;
    }

    method GetLoadBalancerByName(name: string) returns (r: Result<Option<LoadBalancer>>)
      ensures r.Ok? ==> r.value == if name in lbs then Some(lbs[name]) else None
      ensures reliable ==> r.Ok?
    {
      var ok := Reached();
      r := if !ok then Err else Ok(if name in lbs then Some(lbs[name]) else None);
    }
  }

  // One description for each name, in order, whose tags amount to those of the load balancer.
  ghost predicate Describes(names: seq<string>, ds: seq<TagDescription>, lbs: LbMap) {
    && |ds| == |names|
    && forall i :: 0 <= i < |ds| ==>
         ds[i].name == names[i] && names[i] in lbs && TagMap(ds[i].tags) == lbs[names[i]].tags
  }

  // ----- what the provider's calls leave behind

  // Some listener forwards to the port.
  predicate ServesPort(lb: LoadBalancer, port: string) {
    exists i :: 0 <= i < |lb.instancePorts| && Itoa(lb.instancePorts[i]) == port
  }

  // The instances behind the addresses of the targets.
  function WantedIds(config: LBConfig, cloud: Cloud): seq<string> {
    IdsOf(cloud.ByAddress(HostIPs(config.targets)))
  }

  function ConfigTags(config: LBConfig): map<string, string> {
    map[TAG_TARGET_POOL := config.poolName, TAG_SERVICE_PORT := config.targetPort]
  }

  // A successful add or update.
  function Written(lbs: LbMap, config: LBConfig, cloud: Cloud): LbMap
    requires config.endpoint in lbs
  {
    var lb := lbs[config.endpoint];
    lbs[config.endpoint :=
      lb.(states := Swapped(lb.states, WantedIds(config, cloud)), tags := lb.tags + ConfigTags(config))]
  }

  // A successful remove.
  function Cleared(lbs: LbMap, e: string): LbMap
    requires e in lbs
  {
    lbs[e := lbs[e].(states := Swapped(lbs[e].states, []), tags := lbs[e].tags - {TAG_TARGET_POOL} - {TAG_SERVICE_PORT})]
  }

  // A remove that failed on its last step.
  function HalfCleared(lbs: LbMap, e: string): LbMap
    requires e in lbs
  {
    lbs[e := lbs[e].(states := Swapped(lbs[e].states, []), tags := lbs[e].tags - {TAG_TARGET_POOL})]
  }

  // An add or update answers the DNS name after writing the configuration, or fails with part of the swap
  // done. On a reliable service it succeeds exactly when the load balancer exists and serves the port.
  ghost predicate WriteOutcome(lbs: LbMap, config: LBConfig, cloud: Cloud, reliable: bool,
                               lbs': LbMap, r: Result<string>) {
    && (r.Ok? ==>
          && config.endpoint in lbs && ServesPort(lbs[config.endpoint], config.targetPort)
          && lbs' == Written(lbs, config, cloud)
          && r.value == lbs[config.endpoint].dnsName)
    && (r.Err? ==> PartlyDone(lbs, config.endpoint, WantedIds(config, cloud), lbs'))
    && (reliable ==>
          (r.Ok? <==> config.endpoint in lbs && ServesPort(lbs[config.endpoint], config.targetPort)))
  }

  // A call that failed on the way: the tags are as they were, and so are the registrations unless some
  // of the swap was done.
  ghost predicate PartlyDone(lbs: LbMap, name: string, wanted: seq<string>, lbs': LbMap) {
    || lbs' == lbs
    || (name in lbs && lbs' == WithStates(lbs, name, Joined(lbs[name].states, wanted)))
    || (name in lbs && lbs' == WithStates(lbs, name, Swapped(lbs[name].states, wanted)))
  }

  // Only the registrations of one load balancer may differ, between what it had and what was wanted.
  ghost predicate Between(lbs: LbMap, e: string, wanted: set<string>, lbs': LbMap) {
    && lbs'.Keys == lbs.Keys
    && (forall n :: n in lbs && n != e ==> lbs'[n] == lbs[n])
    && (e in lbs ==>
          && lbs'[e] == lbs[e].(states := lbs'[e].states)
          && Registered(lbs[e]) * wanted <= Registered(lbs'[e]) <= Registered(lbs[e]) + wanted)
  }

  lemma {:induction false} SelectMember(instances: seq<EC2Instance>, p: EC2Instance -> bool, x: EC2Instance)
    ensures x in Select(instances, p) <==> x in instances && p(x)
  {
    if instances != [] {
      SelectMember(instances[..|instances| - 1], p, x);
      assert x in instances <==> x in instances[..|instances| - 1] || x == instances[|instances| - 1];
    }
  }

  lemma {:induction false} SelectSame(instances: seq<EC2Instance>, p: EC2Instance -> bool, q: EC2Instance -> bool)
    requires forall x :: x in instances ==> p(x) == q(x)
    ensures Select(instances, p) == Select(instances, q)
  {
    if instances != [] {
      SelectSame(instances[..|instances| - 1], p, q);
    }
  }

  lemma {:induction false} SelectNone(instances: seq<EC2Instance>, p: EC2Instance -> bool)
    requires forall x :: x in instances ==> !p(x)
    ensures Select(instances, p) == []
  {
    if instances != [] {
      SelectNone(instances[..|instances| - 1], p);
    }
  }

  // The states after registering what is missing, and after then deregistering what is extra.
  function Joined(states: seq<InstanceState>, wanted: seq<string>): seq<InstanceState> {
    JoinAll(states, Difference(wanted, ActiveIds(states)))
  }

  function Swapped(states: seq<InstanceState>, wanted: seq<string>): seq<InstanceState> {
    LeaveAll(Joined(states, wanted), Difference(ActiveIds(states), wanted))
  }

  // Make before break, from any states to any wanted list: in between all that was and all that is
  // wanted is registered, in the end exactly the wanted, and the states of those in both stay untouched.
  lemma MakeBeforeBreak(states: seq<InstanceState>, wanted: seq<string>)
    requires OneStateEach(states)
    ensures OneStateEach(Joined(states, wanted)) && OneStateEach(Swapped(states, wanted))
    ensures Elements(ActiveIds(Joined(states, wanted))) == Elements(ActiveIds(states)) + Elements(wanted)
    ensures Elements(ActiveIds(Swapped(states, wanted))) == Elements(wanted)
    ensures forall s :: s in states && s.id in ActiveIds(states) && s.id in wanted
              ==> s in Joined(states, wanted) && s in Swapped(states, wanted)
  {
    var toRegister, toDeregister := Difference(wanted, ActiveIds(states)), Difference(ActiveIds(states), wanted);
    DifferenceExact(wanted, ActiveIds(states));
    DifferenceExact(ActiveIds(states), wanted);
    JoinAllExact(states, toRegister);
    LeaveAllExact(Joined(states, wanted), toDeregister);
    forall s | s in states && s.id in ActiveIds(states) && s.id in wanted
      ensures s in Joined(states, wanted) && s in Swapped(states, wanted)
    {
      assert s.id !in Elements(toRegister) && s.id !in Elements(toDeregister);
    }
  }

  lemma SwappedMember(states: seq<InstanceState>, wanted: seq<string>, id: string)
    requires OneStateEach(states)
    ensures id in ActiveIds(Swapped(states, wanted)) <==> id in wanted
  {
    MakeBeforeBreak(states, wanted);
    assert id in Elements(ActiveIds(Swapped(states, wanted))) <==> id in Elements(wanted);
  }

  // A write registers exactly the instances behind the targets, sets the two tags, and touches nothing else.
  lemma WrittenMeans(lbs: LbMap, config: LBConfig, cloud: Cloud, id: string)
    requires config.endpoint in lbs && OneStateEach(lbs[config.endpoint].states)
    ensures var before, after := lbs[config.endpoint], Written(lbs, config, cloud)[config.endpoint];
            && (id in ActiveIds(after.states) <==> id in WantedIds(config, cloud))
            && after.tags == before.tags["external-lb/targetPoolName" := config.poolName]
                                        ["external-lb/servicePort" := config.targetPort]
            && after.dnsName == before.dnsName && after.instancePorts == before.instancePorts
    ensures Written(lbs, config, cloud).Keys == lbs.Keys
    ensures forall n :: n in lbs && n != config.endpoint ==> Written(lbs, config, cloud)[n] == lbs[n]
  {
    SwappedMember(lbs[config.endpoint].states, WantedIds(config, cloud), id);
  }

  // A remove registers nothing any more, takes the two tags off, the one of the pool first, and touches
  // nothing else.
  lemma ClearedMeans(lbs: LbMap, e: string)
    requires e in lbs && OneStateEach(lbs[e].states)
    ensures var before, after := lbs[e], Cleared(lbs, e)[e];
            && ActiveIds(after.states) == []
            && after.tags == before.tags - {"external-lb/targetPoolName", "external-lb/servicePort"}
            && after.dnsName == before.dnsName && after.instancePorts == before.instancePorts
    ensures Cleared(lbs, e).Keys == lbs.Keys
    ensures HalfCleared(lbs, e) == lbs[e := Cleared(lbs, e)[e].(tags := lbs[e].tags - {"external-lb/targetPoolName"})]
    ensures forall n :: n in lbs && n != e ==> Cleared(lbs, e)[n] == lbs[n]
  {
    MakeBeforeBreak(lbs[e].states, []);
    NoElements(ActiveIds(Swapped(lbs[e].states, [])));
  }

  function WithStates(lbs: LbMap, name: string, states: seq<InstanceState>): LbMap
    requires name in lbs
  {
    lbs[name := lbs[name].(states := states)]
  }

  // Even then every instance that was registered and is wanted stays registered.
  lemma PartlyDoneIsBetween(lbs: LbMap, name: string, wanted: seq<string>, lbs': LbMap)
    requires AllOneState(lbs) && PartlyDone(lbs, name, wanted, lbs')
    ensures Between(lbs, name, Elements(wanted), lbs')
  {
    if name in lbs {
      MakeBeforeBreak(lbs[name].states, wanted);
    }
  }

  ghost predicate AllOneState(lbs: LbMap) {
    forall n :: n in lbs ==> OneStateEach(lbs[n].states)
  }

  lemma SwapKeepsOneState(lbs: LbMap, name: string, wanted: seq<string>)
    requires AllOneState(lbs) && name in lbs
    ensures AllOneState(WithStates(lbs, name, Joined(lbs[name].states, wanted)))
    ensures AllOneState(WithStates(lbs, name, Swapped(lbs[name].states, wanted)))
  {
    MakeBeforeBreak(lbs[name].states, wanted);
  }

  lemma ByAddressOfSet(cloud: Cloud, a: seq<string>, b: seq<string>)
    requires Elements(a) == Elements(b)
    ensures cloud.ByAddress(a) == cloud.ByAddress(b)
  {
    var p := (x: EC2Instance) => x.vpcID == cloud.vpcID && cloud.Address(x) in a;
    var q := (x: EC2Instance) => x.vpcID == cloud.vpcID && cloud.Address(x) in b;
    forall x | x in cloud.instances ensures p(x) == q(x) {
      assert cloud.Address(x) in a <==> cloud.Address(x) in Elements(a);
      assert cloud.Address(x) in b <==> cloud.Address(x) in Elements(b);
    }
    SelectSame(cloud.instances, p, q);
  }

  // Instances are looked up by the private or the public address, as configured, in the private cloud.
  lemma FoundByAddress(cloud: Cloud, ips: seq<string>)
    ensures forall id :: id in IdsOf(cloud.ByAddress(ips)) <==>
              exists x :: x in cloud.instances && x.id == id && x.vpcID == cloud.vpcID
                && (if cloud.usePrivateIP then x.privateIP else x.publicIP) in ips
  {
    var p := (x: EC2Instance) => x.vpcID == cloud.vpcID && cloud.Address(x) in ips;
    var found := cloud.ByAddress(ips);
    forall id
      ensures id in IdsOf(found) <==>
              exists x :: x in cloud.instances && x.id == id && x.vpcID == cloud.vpcID
                && (if cloud.usePrivateIP then x.privateIP else x.publicIP) in ips
    {
      if id in IdsOf(found) {
        var i :| 0 <= i < |found| && IdsOf(found)[i] == id;
        SelectMember(cloud.instances, p, found[i]);
      }
      if x :| x in cloud.instances && x.id == id && x.vpcID == cloud.vpcID
              && (if cloud.usePrivateIP then x.privateIP else x.publicIP) in ips {
        SelectMember(cloud.instances, p, x);
        var i :| 0 <= i < |found| && found[i] == x;
        assert IdsOf(found)[i] == id;
      }
    }
  }

  // And read back under the same kind of address.
  lemma FoundById(cloud: Cloud, ids: seq<string>, port: string)
    ensures forall t :: t in cloud.Targets(cloud.ById(ids), port) <==>
              exists x :: x in cloud.instances && x.id in ids
                && t == LBTarget(if cloud.usePrivateIP then x.privateIP else x.publicIP, port)
  {
    var p := (x: EC2Instance) => x.id in ids;
    var found := cloud.ById(ids);
    forall t
      ensures t in cloud.Targets(found, port) <==>
              exists x :: x in cloud.instances && x.id in ids
                && t == LBTarget(if cloud.usePrivateIP then x.privateIP else x.publicIP, port)
    {
      if t in cloud.Targets(found, port) {
        var i :| 0 <= i < |found| && cloud.Targets(found, port)[i] == t;
        SelectMember(cloud.instances, p, found[i]);
      }
      if x :| x in cloud.instances && x.id in ids
              && t == LBTarget(if cloud.usePrivateIP then x.privateIP else x.publicIP, port) {
        SelectMember(cloud.instances, p, x);
        var i :| 0 <= i < |found| && found[i] == x;
        assert cloud.Targets(found, port)[i] == t;
      }
    }
  }

  // ----- the provider

  class ElbProvider {
    const svc: ElbService

    constructor (svc: ElbService)
      ensures this.svc == svc
    {
      this.svc := svc;
    }

    method EnsureBackendInstances(name: string, instanceIds: seq<string>) returns (ok: bool)
      requires svc.Valid()
      modifies svc
      ensures svc.Valid()
      ensures ok ==> name in old(svc.lbs)
                     && svc.lbs == WithStates(old(svc.lbs), name, Swapped(old(svc.lbs)[name].states, instanceIds))
      ensures !ok && svc.lbs != old(svc.lbs) ==>
                name in old(svc.lbs)
                && svc.lbs == WithStates(old(svc.lbs), name, Joined(old(svc.lbs)[name].states, instanceIds))
      ensures svc.reliable && name in old(svc.lbs) ==> ok
    {
      var registeredInstanceIds := svc.GetRegisteredInstances(name);
      if registeredInstanceIds.Err? {
        return false;
      }
      ghost var states := svc.lbs[name].states;
      SwapKeepsOneState(svc.lbs, name, instanceIds);
      var toRegister := DifferenceStringSlice(instanceIds, registeredInstanceIds.value);
      var toDeregister := DifferenceStringSlice(registeredInstanceIds.value, instanceIds);
      if |toRegister| > 0 {
        var registered := svc.RegisterInstances(name, toRegister);
        if !registered {
          return false;
        }
      }
      assert svc.lbs == WithStates(old(svc.lbs), name, Joined(states, instanceIds));
      if |toDeregister| > 0 {
        var deregistered := svc.DeregisterInstances(name, toDeregister);
        if !deregistered {
          return false;
        }
      } else {
        assert LeaveAll(Joined(states, instanceIds), toDeregister) == Joined(states, instanceIds);
      }
      ok := true;
    }

    method GetEC2Instances(targets: seq<LBTarget>) returns (r: Result<seq<string>>)
      ensures r.Ok? ==> r.value == IdsOf(svc.cloud.ByAddress(HostIPs(targets)))
      ensures r.Ok? ==> forall id :: id in r.value <==>
                exists x :: x in svc.cloud.instances && x.id == id && x.vpcID == svc.cloud.vpcID
                  && (if svc.cloud.usePrivateIP then x.privateIP else x.publicIP) in HostIPs(targets)
      ensures svc.reliable ==> r.Ok?
    {
      var targetIps: seq<string> := [];
      for i := 0 to |targets|
        invariant targetIps == HostIPs(targets[..i])
      {
        targetIps := targetIps + [targets[i].hostIP];
      }
      assert targets[..|targets|] == targets;
      FoundByAddress(svc.cloud, targetIps);
      var unique := RemoveDuplicates(targetIps);
      ByAddressOfSet(svc.cloud, unique, targetIps);
      if |unique| == 0 {
        SelectNone(svc.cloud.instances, (y: EC2Instance) => y.vpcID == svc.cloud.vpcID && svc.cloud.Address(y) in unique);
        return Ok([]);
      }
      var ec2Instances := svc.LookupInstancesByIPAddress(unique);
      if ec2Instances.Err? {
        return Err;
      }
      var instanceIds: seq<string> := [];
      for i := 0 to |ec2Instances.value|
        invariant instanceIds == IdsOf(ec2Instances.value[..i])
      {
        instanceIds := instanceIds + [ec2Instances.value[i].id];
      }
      r := Ok(instanceIds);
    }

    static method CheckListenersInstancePort(lb: LoadBalancer, port: string) returns (found: bool)
      ensures found <==> ServesPort(lb, port)
      ensures found <==> exists p :: p in lb.instancePorts && Itoa(p) == port
    {
      found := false;
      for i := 0 to |lb.instancePorts|
        invariant !found && forall k :: 0 <= k < i ==> Itoa(lb.instancePorts[k]) != port
      {
        if Itoa(lb.instancePorts[i]) == port {
          return true;
        }
      }
    }

    // Adding and updating are the same steps: look up, check the port, register, tag.
    method EnsureLBConfig(config: LBConfig) returns (r: Result<string>)
      requires svc.Valid()
      modifies svc
      ensures svc.Valid() && WriteOutcome(old(svc.lbs), config, svc.cloud, svc.reliable, svc.lbs, r)
    {
      var lb := svc.GetLoadBalancerByName(config.endpoint);
      if lb.Err? || lb.value.None? {
        return Err;
      }
      var port := CheckListenersInstancePort(lb.value.value, config.targetPort);
      if !port {
        return Err;
      }
      var ec2InstanceIds := GetEC2Instances(config.targets);
      if ec2InstanceIds.Err? {
        return Err;
      }
      var ensured := EnsureBackendInstances(config.endpoint, ec2InstanceIds.value);
      if !ensured {
        return Err;
      }
      var tagged := svc.AddLBTags(config.endpoint, ConfigTags(config));
      if !tagged {
        return Err;
      }
      r := Ok(lb.value.value.dnsName);
    }

    method AddLBConfig(config: LBConfig) returns (r: Result<string>)
      requires svc.Valid()
      modifies svc
      ensures svc.Valid() && WriteOutcome(old(svc.lbs), config, svc.cloud, svc.reliable, svc.lbs, r)
    {
      r := EnsureLBConfig(config);
    }

    method UpdateLBConfig(config: LBConfig) returns (r: Result<string>)
      requires svc.Valid()
      modifies svc
      ensures svc.Valid() && WriteOutcome(old(svc.lbs), config, svc.cloud, svc.reliable, svc.lbs, r)
    {
      r := EnsureLBConfig(config);
    }

    method RemoveLBConfig(config: LBConfig) returns (ok: bool)
      requires svc.Valid()
      modifies svc
      ensures svc.Valid()
      ensures ok ==> config.endpoint in old(svc.lbs) && svc.lbs == Cleared(old(svc.lbs), config.endpoint)
      ensures !ok ==> PartlyDone(old(svc.lbs), config.endpoint, [], svc.lbs)
                      || (config.endpoint in old(svc.lbs) && svc.lbs == HalfCleared(old(svc.lbs), config.endpoint))
      ensures svc.reliable ==> (ok <==> config.endpoint in old(svc.lbs))
    {
      var lb := svc.GetLoadBalancerByName(config.endpoint);
      if lb.Err? || lb.value.None? {
        return false;
      }
      var ensured := EnsureBackendInstances(config.endpoint, []);
      if !ensured {
        return false;
      }
      var pool := svc.RemoveLBTag(config.endpoint, TAG_TARGET_POOL);
      if !pool {
        return false;
      }
      ok := svc.RemoveLBTag(config.endpoint, TAG_SERVICE_PORT);
    }

    // One configuration for each load balancer with both tags.
    method GetLBConfigs() returns (r: Result<seq<LBConfig>>)
      requires svc.Valid()
      ensures r.Ok? ==> Lists(r.value, Listing(svc.lbs, svc.cloud))
      ensures svc.reliable ==> r.Ok?
    {
      var reachable := svc.Reached();
      if !reachable {
        return Err;
      }
      var allNames := NamesInAnyOrder(svc.lbs.Keys);
      if |allNames| == 0 {
        return Ok([]);
      }
      var lbTags := svc.DescribeLBTags(allNames);
      if lbTags.Err? {
        return Err;
      }
      ghost var store := Listing(svc.lbs, svc.cloud);
      var lbConfigs: seq<LBConfig> := [];
      for i := 0 to |allNames|
        invariant ListsPart(lbConfigs, store, Elements(allNames[..i]))
      {
        var name := allNames[i];
        assert allNames[..i + 1] == allNames[..i] + [name] && name !in allNames[..i];
        ElementsOfOneMore(allNames[..i], name);
        assert name in Elements(allNames);
        var lbConfig := ReadLBConfig(name, lbTags.value[name]);
        if lbConfig.Err? {
          return Err;
        }
        if lbConfig.value.Some? {
          ListOneMore(lbConfigs, store, Elements(allNames[..i]), lbConfig.value.value);
          lbConfigs := lbConfigs + [lbConfig.value.value];
        } else {
          ListNoMore(lbConfigs, store, Elements(allNames[..i]), name);
        }
      }
      assert allNames[..|allNames|] == allNames;
      r := Ok(lbConfigs);
    }

    // The listed configuration of one load balancer, when it has both tags.
    method ReadLBConfig(name: string, tags: map<string, string>) returns (r: Result<Option<LBConfig>>)
      requires name in svc.lbs && tags == svc.lbs[name].tags
      ensures r.Ok? ==> (r.value.Some? <==> name in Listing(svc.lbs, svc.cloud))
      ensures r.Ok? && r.value.Some? ==>
                r.value.value.endpoint == name && View(r.value.value) == Listing(svc.lbs, svc.cloud)[name]
      ensures svc.reliable ==> r.Ok?
    {
      if TAG_TARGET_POOL !in tags || TAG_SERVICE_PORT !in tags {
        return Ok(None);
      }
      var targets := ReadTargets(name, tags[TAG_SERVICE_PORT]);
      if targets.Err? {
        return Err;
      }
      r := Ok(Some(LBConfig(name, tags[TAG_TARGET_POOL], "", targets.value)));
    }

    // The registered instances of a load balancer, read back as targets.
    method ReadTargets(name: string, servicePort: string) returns (r: Result<seq<LBTarget>>)
      ensures r.Ok? ==>
                name in svc.lbs
                && r.value == svc.cloud.Targets(svc.cloud.ById(ActiveIds(svc.lbs[name].states)), servicePort)
      ensures r.Ok? ==> forall t :: t in r.value <==>
                exists x :: x in svc.cloud.instances && x.id in ActiveIds(svc.lbs[name].states)
                  && t == LBTarget(if svc.cloud.usePrivateIP then x.privateIP else x.publicIP, servicePort)
      ensures svc.reliable && name in svc.lbs ==> r.Ok?
    {
      var instanceIds := svc.GetRegisteredInstances(name);
      if instanceIds.Err? {
        return Err;
      }
      var targets: seq<LBTarget> := [];
      if |instanceIds.value| > 0 {
        var ec2Instances := svc.GetInstancesByID(instanceIds.value);
        if ec2Instances.Err? {
          return Err;
        }
        for i := 0 to |ec2Instances.value|
          invariant targets == svc.cloud.Targets(ec2Instances.value[..i], servicePort)
        {
          targets := targets + [LBTarget(svc.cloud.Address(ec2Instances.value[i]), servicePort)];
        }
        assert ec2Instances.value[..|ec2Instances.value|] == ec2Instances.value;
      } else {
        SelectNone(svc.cloud.instances, (y: EC2Instance) => y.id in instanceIds.value);
      }
      FoundById(svc.cloud, instanceIds.value, servicePort);
      r := Ok(targets);
    }
  }

  method NamesInAnyOrder(names: set<string>) returns (s: seq<string>)
    ensures Distinct(s) && Elements(s) == names
  {
    s := [];
    var rest := names;
    while rest != {}
      invariant rest <= names
      invariant Distinct(s) && Elements(s) == names - rest
    {
      var n :| n in rest;
      assert n !in Elements(s);
      ElementsOfOneMore(s, n);
      s := s + [n];
      rest := rest - {n};
    }
  }
}
