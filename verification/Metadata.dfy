/** The configurations that the cluster metadata asks for (metadata/metadata.go). */
module Metadata {
  import opened Model
  import opened Rounds
  import opened Seqs
  import opened Text

  const LABEL := "io.rancher.service.external_lb.endpoint"
  const LABEL_LEGACY := "io.rancher.service.external_lb_endpoint"

  datatype Container = Container(serviceName: string, stackName: string, state: string, healthState: string,
                                 ports: seq<string>)

  datatype Service = Service(name: string, stackName: string, labels: map<string, string>, ports: seq<string>,
                             containers: seq<Container>)

  predicate ContainerStateOK(c: Container) {
    c.state == "running" && (c.healthState == "healthy" || c.healthState == "updating-healthy" || c.healthState == "")
  }

  // ----- the simple specification

  // The label naming the endpoint, the new one before the legacy one.
  function Endpoint(s: Service): Option<string> {
    if LABEL in s.labels then Some(s.labels[LABEL])
    else if LABEL_LEGACY in s.labels then Some(s.labels[LABEL_LEGACY])
    else None
  }

  // The public part of the first port mapping.
  function ServicePort(s: Service): Option<string> {
    if s.ports == [] then None
    else
      var portspec := Split(s.ports[0], ':');
      if |portspec| == 2 then Some(portspec[0]) else None
  }

  predicate Eligible(s: Service, e: string) {
    Endpoint(s) == Some(e) && ServicePort(s).Some?
  }

  predicate Counted(s: Service, c: Container) {
    && c.serviceName != ""
    && ContainerStateOK(c)
    && (s.name != "" ==> s.name == c.serviceName && s.stackName == c.stackName)
  }

  function PortTarget(spec: string, port: string): seq<LBTarget> {
    var portspec := Split(spec, ':');
    if |portspec| == 3 && portspec[1] == port then [LBTarget(portspec[0], port)] else []
  }

  function PortTargets(specs: seq<string>, port: string): seq<LBTarget> {
    if specs == [] then []
    else PortTargets(specs[..|specs| - 1], port) + PortTarget(specs[|specs| - 1], port)
  }

  // The matching ports of the counted containers, in order.
  function TargetsOf(s: Service, containers: seq<Container>, port: string): seq<LBTarget> {
    if containers == [] then []
    else
      var c := containers[|containers| - 1];
      TargetsOf(s, containers[..|containers| - 1], port) + if Counted(s, c) then PortTargets(c.ports, port) else []
  }

  function PoolName(s: Service, environment: string, poolSuffix: string): string {
    s.name + "_" + s.stackName + "_" + environment + "_" + poolSuffix
  }

  function ConfigOf(s: Service, environment: string, poolSuffix: string): LBConfig
    requires Endpoint(s).Some? && ServicePort(s).Some?
  {
    var port := ServicePort(s).value;
    LBConfig(Endpoint(s).value, PoolName(s, environment, poolSuffix), port, TargetsOf(s, s.containers, port))
  }

  // A service configures its endpoint unless an earlier one already has.
  function DesiredOf(services: seq<Service>, environment: string, poolSuffix: string): Desired {
    if services == [] then map[]
    else
      var s := services[|services| - 1];
      var earlier := DesiredOf(services[..|services| - 1], environment, poolSuffix);
      if Endpoint(s).None? || Endpoint(s).value in earlier || ServicePort(s).None? then earlier
      else earlier[Endpoint(s).value := ConfigOf(s, environment, poolSuffix)]
  }

  ghost predicate FirstEligible(services: seq<Service>, e: string, i: int) {
    0 <= i < |services| && Eligible(services[i], e) && forall j :: 0 <= j < i ==> !Eligible(services[j], e)
  }

  // The first eligible service for an endpoint, if any, is the one that configures it.
  lemma {:induction false} FirstEligibleConfigures(services: seq<Service>, environment: string, poolSuffix: string,
                                                   e: string, i: int)
    requires FirstEligible(services, e, i)
    ensures e in DesiredOf(services, environment, poolSuffix)
    ensures DesiredOf(services, environment, poolSuffix)[e] == ConfigOf(services[i], environment, poolSuffix)
  {
    var front, n := services[..|services| - 1], |services| - 1;
    assert forall k :: 0 <= k < n ==> front[k] == services[k];
    if i < n {
      FirstEligibleConfigures(front, environment, poolSuffix, e, i);
    } else if e in DesiredOf(front, environment, poolSuffix) {
      var k := ConfiguredHasFirst(front, environment, poolSuffix, e);
      assert false;
    }
  }

  lemma {:induction false} ConfiguredHasFirst(services: seq<Service>, environment: string, poolSuffix: string, e: string)
      returns (i: int)
    requires e in DesiredOf(services, environment, poolSuffix)
    ensures FirstEligible(services, e, i)
  {
    var front, n := services[..|services| - 1], |services| - 1;
    assert forall k :: 0 <= k < n ==> front[k] == services[k];
    if e in DesiredOf(front, environment, poolSuffix) {
      i := ConfiguredHasFirst(front, environment, poolSuffix, e);
    } else {
      i := n;
      forall j | 0 <= j < n ensures !Eligible(services[j], e) {
        if Eligible(services[j], e) {
          var k := FirstOf(front, e, j);
          FirstEligibleConfigures(front, environment, poolSuffix, e, k);
        }
      }
    }
  }

  lemma {:induction false} FirstOf(services: seq<Service>, e: string, j: int) returns (i: int)
    requires 0 <= j < |services| && Eligible(services[j], e)
    ensures FirstEligible(services, e, i)
  {
    i := 0;
    while !Eligible(services[i], e)
      invariant 0 <= i <= j && forall k :: 0 <= k < i ==> !Eligible(services[k], e)
      decreases j - i
    {
      i := i + 1;
    }
  }

  // The endpoint is the value of the new label, and of the legacy one only without it.
  lemma EndpointExact(s: Service, e: string)
    ensures Endpoint(s) == Some(e) <==>
            || ("io.rancher.service.external_lb.endpoint" in s.labels
                && s.labels["io.rancher.service.external_lb.endpoint"] == e)
            || ("io.rancher.service.external_lb.endpoint" !in s.labels
                && "io.rancher.service.external_lb_endpoint" in s.labels
                && s.labels["io.rancher.service.external_lb_endpoint"] == e)
  {
  }

  // The service port is what stands before the only colon of the first port mapping.
  lemma ServicePortExact(s: Service, p: string)
    ensures ServicePort(s) == Some(p) <==>
            s.ports != [] && exists rest :: ':' !in p && ':' !in rest && s.ports[0] == p + ":" + rest
  {
    if s.ports != [] {
      SplitThenJoin(s.ports[0], ':');
      if ServicePort(s) == Some(p) {
        var parts := Split(s.ports[0], ':');
        assert parts[0] == p && ':' !in parts[1] && s.ports[0] == p + ":" + parts[1];
      }
      if rest :| ':' !in p && ':' !in rest && s.ports[0] == p + ":" + rest {
        JoinThenSplit([p, rest], ':');
      }
    }
  }

  // An endpoint is configured when some service is eligible for it, and then for the first one.
  lemma FirstEligibleWins(services: seq<Service>, environment: string, poolSuffix: string, e: string)
    ensures e in DesiredOf(services, environment, poolSuffix) <==>
            exists i :: 0 <= i < |services| && Eligible(services[i], e)
    ensures forall i :: FirstEligible(services, e, i) ==>
              e in DesiredOf(services, environment, poolSuffix)
              && DesiredOf(services, environment, poolSuffix)[e] == ConfigOf(services[i], environment, poolSuffix)
    ensures e in DesiredOf(services, environment, poolSuffix) ==> exists i :: FirstEligible(services, e, i)
  {
    forall i | FirstEligible(services, e, i)
      ensures e in DesiredOf(services, environment, poolSuffix)
              && DesiredOf(services, environment, poolSuffix)[e] == ConfigOf(services[i], environment, poolSuffix)
    {
      FirstEligibleConfigures(services, environment, poolSuffix, e, i);
    }
    if e in DesiredOf(services, environment, poolSuffix) {
      var i := ConfiguredHasFirst(services, environment, poolSuffix, e);
    }
    if j :| 0 <= j < |services| && Eligible(services[j], e) {
      var i := FirstOf(services, e, j);
    }
  }

  // A configuration has the names and the port of the first eligible service.
  lemma ConfiguredAsNamed(services: seq<Service>, environment: string, poolSuffix: string)
    ensures forall e :: e in DesiredOf(services, environment, poolSuffix) ==>
              exists i :: FirstEligible(services, e, i)
                && var s, c := services[i], DesiredOf(services, environment, poolSuffix)[e];
                   && c.endpoint == e
                   && c.poolName == s.name + "_" + s.stackName + "_" + environment + "_" + poolSuffix
                   && s.ports != [] && ':' !in c.targetPort
                   && exists rest :: ':' !in rest && s.ports[0] == c.targetPort + ":" + rest
  {
    forall e | e in DesiredOf(services, environment, poolSuffix)
      ensures exists i :: FirstEligible(services, e, i)
                && var s, c := services[i], DesiredOf(services, environment, poolSuffix)[e];
                   && c.endpoint == e
                   && c.poolName == s.name + "_" + s.stackName + "_" + environment + "_" + poolSuffix
                   && s.ports != [] && ':' !in c.targetPort
                   && exists rest :: ':' !in rest && s.ports[0] == c.targetPort + ":" + rest
    {
      var i := ConfiguredHasFirst(services, environment, poolSuffix, e);
      FirstEligibleConfigures(services, environment, poolSuffix, e, i);
      ServicePortExact(services[i], ServicePort(services[i]).value);
    }
  }

  // ----- the code

  method GetContainerLBTargets(lbConfig: LBConfig, service: Service) returns (filled: LBConfig)
    ensures filled == lbConfig.(targets := lbConfig.targets + TargetsOf(service, service.containers, lbConfig.targetPort))
  {
    var targets := lbConfig.targets;
    for i := 0 to |service.containers|
      invariant targets == lbConfig.targets + TargetsOf(service, service.containers[..i], lbConfig.targetPort)
    {
      var container := service.containers[i];
      assert service.containers[..i + 1][..i] == service.containers[..i];
      if |container.serviceName| == 0 {
        continue;
      }
      if !ContainerStateOK(container) {
        continue;
      }
      if |service.name| != 0 {
        if service.name != container.serviceName {
          continue;
        }
        if service.stackName != container.stackName {
          continue;
        }
      }
      targets := AppendPortTargets(targets, container.ports, lbConfig.targetPort);
    }
    assert service.containers[..|service.containers|] == service.containers;
    filled := lbConfig.(targets := targets);
  }

  method AppendPortTargets(targets: seq<LBTarget>, ports: seq<string>, targetPort: string) returns (more: seq<LBTarget>)
    ensures more == targets + PortTargets(ports, targetPort)
  {
    more := targets;
    for j := 0 to |ports|
      invariant more == targets + PortTargets(ports[..j], targetPort)
    {
      assert ports[..j + 1][..j] == ports[..j];
      var portspec := Split(ports[j], ':');
      if |portspec| != 3 {
        continue;
      }
      var ip, port := portspec[0], portspec[1];
      if port != targetPort {
        continue;
      }
      more := more + [LBTarget(ip, port)];
    }
    assert ports[..|ports|] == ports;
  }

  // Services that cannot be read are taken for none.
  method GetMetadataLBConfigs(read: Result<seq<Service>>, environment: string, poolSuffix: string)
      returns (lbConfigs: Desired)
    ensures lbConfigs == DesiredOf(if read.Ok? then read.value else [], environment, poolSuffix)
    ensures forall e :: e in lbConfigs ==>
              && read.Ok?
              && exists i :: FirstEligible(read.value, e, i)
                   && var s, c := read.value[i], lbConfigs[e];
                      && c.endpoint == e
                      && c.poolName == s.name + "_" + s.stackName + "_" + environment + "_" + poolSuffix
                      && s.ports != [] && ':' !in c.targetPort
                      && exists rest :: ':' !in rest && s.ports[0] == c.targetPort + ":" + rest
  {
    lbConfigs := map[];
    if read.Ok? {
      var services := read.value;
      for i := 0 to |services|
        invariant lbConfigs == DesiredOf(services[..i], environment, poolSuffix)
      {
        var service := services[i];
        assert services[..i + 1][..i] == services[..i];
        var endpoint, ok := "", LABEL in service.labels;
        if ok {
          endpoint := service.labels[LABEL];
        } else {
          ok := LABEL_LEGACY in service.labels;
          if ok {
            endpoint := service.labels[LABEL_LEGACY];
          }
        }
        if !ok {
          continue;
        }
        if endpoint in lbConfigs {
          continue;
        }
        if |service.ports| == 0 {
          continue;
        }
        var portspec := Split(service.ports[0], ':');
        if |portspec| != 2 {
          continue;
        }
        var lbConfig := LBConfig(endpoint, PoolName(service, environment, poolSuffix), portspec[0], []);
        lbConfig := GetContainerLBTargets(lbConfig, service);
        assert lbConfig.targets == TargetsOf(service, service.containers, portspec[0]);
        lbConfigs := lbConfigs[endpoint := lbConfig];
      }
      assert services[..|services|] == services;
      ConfiguredAsNamed(services, environment, poolSuffix);
    }
  }

  // ----- what the configurations guarantee

  predicate Mapping(spec: string, ip: string, port: string, rest: string) {
    ':' !in ip && ':' !in port && ':' !in rest && spec == Join([ip, port, rest], ':')
  }

  // A port mapping counts exactly when it reads ip:port:rest with the service port in the middle.
  lemma PortTargetExact(spec: string, port: string, t: LBTarget)
    ensures PortTarget(spec, port) == [t] <==> t.port == port && exists rest :: Mapping(spec, t.hostIP, port, rest)
  {
    var parts := Split(spec, ':');
    SplitThenJoin(spec, ':');
    if PortTarget(spec, port) == [t] {
      assert parts == [t.hostIP, port, parts[2]];
      assert Mapping(spec, t.hostIP, port, parts[2]);
    }
    if t.port == port && exists rest :: Mapping(spec, t.hostIP, port, rest) {
      var rest :| Mapping(spec, t.hostIP, port, rest);
      JoinThenSplit([t.hostIP, port, rest], ':');
    }
  }

  lemma {:induction false} PortTargetsMember(specs: seq<string>, port: string, t: LBTarget)
    ensures t in PortTargets(specs, port) <==> exists i :: 0 <= i < |specs| && PortTarget(specs[i], port) == [t]
  {
    if specs != [] {
      var front := specs[..|specs| - 1];
      PortTargetsMember(front, port, t);
      assert forall i :: 0 <= i < |front| ==> front[i] == specs[i];
    }
  }

  // The targets are the matching ports of the counted containers, and all carry the service port.
  lemma {:induction false} TargetsMember(s: Service, containers: seq<Container>, port: string, t: LBTarget)
    ensures t in TargetsOf(s, containers, port) <==>
            exists i, j :: 0 <= i < |containers| && Counted(s, containers[i])
                        && 0 <= j < |containers[i].ports| && PortTarget(containers[i].ports[j], port) == [t]
    ensures t in TargetsOf(s, containers, port) ==> t.port == port
  {
    if containers != [] {
      var front, c := containers[..|containers| - 1], containers[|containers| - 1];
      TargetsMember(s, front, port, t);
      PortTargetsMember(c.ports, port, t);
      assert forall i :: 0 <= i < |front| ==> front[i] == containers[i];
    }
  }

  lemma JoinedMapping(ip: string, port: string, rest: string)
    ensures Join([ip, port, rest], ':') == ip + ":" + port + ":" + rest
  {
    JoinMore(port, [rest], ':');
    JoinMore(ip, [port, rest], ':');
    assert [port] + [rest] == [port, rest] && [ip] + [port, rest] == [ip, port, rest];
    assert ip + [':'] + (port + [':'] + rest) == ip + ":" + port + ":" + rest;
  }

  // In words of the metadata: a target is a mapping ip:port:rest of the service port on a running container
  // that is healthy, updating while healthy or without a health check, and belongs to the service.
  lemma TargetsExact(s: Service, containers: seq<Container>, port: string, t: LBTarget)
    ensures t in TargetsOf(s, containers, port) <==>
            && t.port == port && ':' !in t.hostIP && ':' !in port
            && exists i, j, rest ::
                 && 0 <= i < |containers| && 0 <= j < |containers[i].ports|
                 && containers[i].serviceName != ""
                 && (s.name == "" || (containers[i].serviceName == s.name && containers[i].stackName == s.stackName))
                 && containers[i].state == "running"
                 && containers[i].healthState in {"healthy", "updating-healthy", ""}
                 && ':' !in rest && containers[i].ports[j] == t.hostIP + ":" + port + ":" + rest
  {
    TargetsMember(s, containers, port, t);
    if t in TargetsOf(s, containers, port) {
      var i, j :| 0 <= i < |containers| && Counted(s, containers[i])
                  && 0 <= j < |containers[i].ports| && PortTarget(containers[i].ports[j], port) == [t];
      PortTargetExact(containers[i].ports[j], port, t);
      var rest :| Mapping(containers[i].ports[j], t.hostIP, port, rest);
      JoinedMapping(t.hostIP, port, rest);
    }
    if t.port == port && ':' !in t.hostIP && ':' !in port {
      forall i, j, rest |
        && 0 <= i < |containers| && 0 <= j < |containers[i].ports| && Counted(s, containers[i])
        && ':' !in rest && containers[i].ports[j] == t.hostIP + ":" + port + ":" + rest
        ensures t in TargetsOf(s, containers, port)
      {
        JoinedMapping(t.hostIP, port, rest);
        assert Mapping(containers[i].ports[j], t.hostIP, port, rest);
        PortTargetExact(containers[i].ports[j], port, t);
      }
    }
  }

  // The targets of containers in a row are their targets in a row: in order, and repeated when mapped twice.
  lemma {:induction false} TargetsInOrder(s: Service, a: seq<Container>, b: seq<Container>, port: string)
    ensures TargetsOf(s, a + b, port) == TargetsOf(s, a, port) + TargetsOf(s, b, port)
  {
    if b == [] {
      assert a + b == a;
    } else {
      TargetsInOrder(s, a, b[..|b| - 1], port);
      assert (a + b)[..|a + b| - 1] == a + b[..|b| - 1];
    }
  }

  // So are those of the mappings of one container.
  lemma MappingsInOrder(s: Service, c: Container, a: seq<string>, b: seq<string>, port: string)
    requires c.ports == a + b
    ensures TargetsOf(s, [c], port) == TargetsOf(s, [c.(ports := a)], port) + TargetsOf(s, [c.(ports := b)], port)
  {
    OneContainer(s, c, port);
    OneContainer(s, c.(ports := a), port);
    OneContainer(s, c.(ports := b), port);
    PortTargetsInOrder(a, b, port);
  }

  lemma {:induction false} PortTargetsInOrder(a: seq<string>, b: seq<string>, port: string)
    ensures PortTargets(a + b, port) == PortTargets(a, port) + PortTargets(b, port)
  {
    if b == [] {
      assert a + b == a;
    } else {
      PortTargetsInOrder(a, b[..|b| - 1], port);
      assert (a + b)[..|a + b| - 1] == a + b[..|b| - 1];
    }
  }

  lemma OneContainer(s: Service, c: Container, port: string)
    ensures TargetsOf(s, [c], port) == if Counted(s, c) then PortTargets(c.ports, port) else []
  {
    assert [c][..0] == [];
  }

  // A pool name belongs to its environment.
  lemma PoolNameOwned(s: Service, environment: string, poolSuffix: string)
    ensures Owned(PoolName(s, environment, poolSuffix), OwnershipSuffix(environment, poolSuffix))
  {
    assert PoolName(s, environment, poolSuffix)
        == (s.name + "_" + s.stackName) + OwnershipSuffix(environment, poolSuffix);
  }

  // The first two parts of a pool name always exist; they are the service and the stack name
  // exactly when neither contains an underscore.
  lemma PoolNameSplits(s: Service, environment: string, poolSuffix: string)
    ensures |Split(PoolName(s, environment, poolSuffix), '_')| >= 4
    ensures Split(PoolName(s, environment, poolSuffix), '_')[..2] == [s.name, s.stackName]
       <==> '_' !in s.name && '_' !in s.stackName
    ensures Split(PoolName(s, environment, poolSuffix), '_') == [s.name, s.stackName, environment, poolSuffix]
       <==> '_' !in s.name && '_' !in s.stackName && '_' !in environment && '_' !in poolSuffix
  {
    var rest := environment + ['_'] + poolSuffix;
    var pool := PoolName(s, environment, poolSuffix);
    assert pool == s.name + ['_'] + (s.stackName + ['_'] + rest);
    assert s.stackName + ['_'] + rest == (s.stackName + ['_'] + environment) + ['_'] + poolSuffix;
    SplitAcross(environment, poolSuffix, '_');
    SplitAcross(s.stackName, rest, '_');
    SplitAcross(s.name, s.stackName + ['_'] + rest, '_');
    SplitThenJoin(pool, '_');
    AllFourParts(s.name, s.stackName, environment, poolSuffix, pool);
    if '_' !in s.name && '_' !in s.stackName {
      SplitHead(s.name, s.stackName + ['_'] + rest, '_');
      SplitHead(s.stackName, rest, '_');
    } else {
      assert Split(pool, '_')[..2] == [s.name, s.stackName] ==>
               '_' !in Split(pool, '_')[0] && '_' !in Split(pool, '_')[1];
    }
  }

  lemma AllFourParts(a: string, b: string, c: string, d: string, pool: string)
    requires pool == a + "_" + b + "_" + c + "_" + d
    ensures Split(pool, '_') == [a, b, c, d] <==> '_' !in a && '_' !in b && '_' !in c && '_' !in d
  {
    SplitThenJoin(pool, '_');
    var parts := [a, b, c, d];
    JoinMore(c, [d], '_');
    JoinMore(b, [c, d], '_');
    JoinMore(a, [b, c, d], '_');
    assert [c] + [d] == [c, d] && [b] + [c, d] == [b, c, d] && [a] + [b, c, d] == parts;
    assert a + ['_'] + (b + ['_'] + (c + ['_'] + d)) == pool;
    if '_' !in a && '_' !in b && '_' !in c && '_' !in d {
      JoinThenSplit(parts, '_');
    }
    if Split(pool, '_') == parts {
      assert forall i :: 0 <= i < |parts| ==> '_' !in parts[i];
      assert parts[0] == a && parts[1] == b && parts[2] == c && parts[3] == d;
    }
  }

  // The desired map is keyed and owned as the reconcile needs it. Targets are not deduplicated: they
  // are distinct, as the target diff needs it, exactly when the host addresses are.
  lemma MetadataWellFormed(services: seq<Service>, environment: string, poolSuffix: string)
    ensures var d := DesiredOf(services, environment, poolSuffix);
            && WellKeyed(d)
            && (forall e :: e in d ==> Owned(d[e].poolName, OwnershipSuffix(environment, poolSuffix)))
            && (forall e :: e in d ==> |Split(d[e].poolName, '_')| >= 2)
            && (forall e, t :: e in d && t in d[e].targets ==> t.port == d[e].targetPort)
            && (WellFormed(d, OwnershipSuffix(environment, poolSuffix)) <==>
                forall e :: e in d ==> Distinct(HostIPs(d[e].targets)))
  {
    var d := DesiredOf(services, environment, poolSuffix);
    forall e | e in d
      ensures d[e].endpoint == e
      ensures Owned(d[e].poolName, OwnershipSuffix(environment, poolSuffix))
      ensures |Split(d[e].poolName, '_')| >= 2
      ensures forall t :: t in d[e].targets ==> t.port == d[e].targetPort
      ensures Distinct(d[e].targets) <==> Distinct(HostIPs(d[e].targets))
    {
      FirstEligibleWins(services, environment, poolSuffix, e);
      var i :| FirstEligible(services, e, i);
      var s := services[i];
      PoolNameOwned(s, environment, poolSuffix);
      PoolNameSplits(s, environment, poolSuffix);
      forall t | t in d[e].targets ensures t.port == d[e].targetPort {
        TargetsMember(s, s.containers, d[e].targetPort, t);
      }
      UniformPortDistinct(d[e].targets, d[e].targetPort);
    }
  }

  lemma UniformPortDistinct(ts: seq<LBTarget>, port: string)
    requires forall t :: t in ts ==> t.port == port
    ensures Distinct(ts) <==> Distinct(HostIPs(ts))
  {
    if Distinct(ts) {
      forall i, j | 0 <= i < j < |ts| ensures HostIPs(ts)[i] != HostIPs(ts)[j] {
        assert ts[i] in ts && ts[j] in ts && ts[i] != ts[j];
      }
    }
    if Distinct(HostIPs(ts)) {
      forall i, j | 0 <= i < j < |ts| ensures ts[i] != ts[j] {
        assert HostIPs(ts)[i] != HostIPs(ts)[j];
      }
    }
  }
}
