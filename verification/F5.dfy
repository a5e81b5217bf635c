/** The F5 BIG-IP provider (f5/f5_bigip.go) over a device that refuses to break its references. */
module F5 {
  import opened Model
  import opened Rounds
  import opened Seqs
  import opened Text

  const PARTITION := "/Common/"

  type NodeMap = map<string, string>        // node name to address
  type PoolMap = map<string, seq<string>>   // pool name to member names
  type ServerMap = map<string, string>      // virtual server name to the path of its pool, or nothing

  function MemberName(t: LBTarget): string {
    t.hostIP + ":" + t.port
  }

  function MemberNames(ts: seq<LBTarget>): seq<string> {
    seq(|ts|, i requires 0 <= i < |ts| => MemberName(ts[i]))
  }

  // The node a member name refers to: the text before its last colon.
  function NodeOf(member: string): string {
    if member == "" then ""
    else if member[|member| - 1] == ':' then member[..|member| - 1]
    else NodeOf(member[..|member| - 1])
  }

  lemma {:induction false} NodeOfName(ip: string, port: string)
    requires ':' !in port
    ensures NodeOf(ip + ":" + port) == ip
  {
    var name := ip + ":" + port;
    if port != "" {
      NodeOfName(ip, port[..|port| - 1]);
      assert name[..|name| - 1] == ip + ":" + port[..|port| - 1];
    }
  }

  predicate Referenced(pools: PoolMap, node: string) {
    exists p :: p in pools && exists m :: m in pools[p] && NodeOf(m) == node
  }

  predicate InUse(servers: ServerMap, pool: string) {
    exists n :: n in servers && servers[n] == PARTITION + pool
  }

  // References of the device resolve: attached pools exist, and so do the nodes of members.
  ghost predicate Intact(nodes: NodeMap, pools: PoolMap, servers: ServerMap) {
    && (forall n :: n in servers && servers[n] != "" ==>
          PARTITION <= servers[n] && TrimPrefix(servers[n], PARTITION) in pools)
    && (forall p, m :: p in pools && m in pools[p] ==> NodeOf(m) in nodes)
  }

  lemma PathOfPool(pool: string)
    ensures PARTITION <= PARTITION + pool && TrimPrefix(PARTITION + pool, PARTITION) == pool
  {
  }

  // ----- reading back

  // Member names of the form ip:port; others are passed over.
  function ParsedTargets(members: seq<string>): seq<LBTarget> {
    if members == [] then []
    else
      var parts := Split(members[|members| - 1], ':');
      ParsedTargets(members[..|members| - 1]) + if |parts| == 2 then [LBTarget(parts[0], parts[1])] else []
  }

  // What a listing of the provider shows: the virtual servers with a pool.
  function Listing(pools: PoolMap, servers: ServerMap): Store {
    map n | n in servers && servers[n] != "" && TrimPrefix(servers[n], PARTITION) in pools ::
      var pool := TrimPrefix(servers[n], PARTITION);
      Entry(pool, multiset(ParsedTargets(pools[pool])))
  }

  predicate ColonFree(t: LBTarget) {
    ':' !in t.hostIP && ':' !in t.port
  }

  lemma ParsedName(t: LBTarget)
    ensures |Split(MemberName(t), ':')| == 2 <==> ColonFree(t)
    ensures ColonFree(t) ==> Split(MemberName(t), ':') == [t.hostIP, t.port]
  {
    if ':' !in t.hostIP {
      SplitHead(t.hostIP, t.port, ':');
    }
    assert MemberName(t) == t.hostIP + [':'] + t.port;
    SplitAcross(t.hostIP, t.port, ':');
    ColonFreeIffOnePart(t.hostIP);
    ColonFreeIffOnePart(t.port);
  }

  lemma ColonFreeIffOnePart(s: string)
    ensures ':' !in s <==> |Split(s, ':')| == 1
    ensures ':' !in s ==> Split(s, ':') == [s]
  {
    SplitThenJoin(s, ':');
    if ':' !in s {
      SplitWhole(s, ':');
    }
  }

  // Members written for targets read back as the targets exactly when no address or port has a colon.
  lemma {:induction false} ParsedNames(ts: seq<LBTarget>)
    ensures |ParsedTargets(MemberNames(ts))| <= |ts|
    ensures |ParsedTargets(MemberNames(ts))| == |ts| <==> forall t :: t in ts ==> ColonFree(t)
    ensures (forall t :: t in ts ==> ColonFree(t)) ==> ParsedTargets(MemberNames(ts)) == ts
  {
    if ts != [] {
      var front, t := ts[..|ts| - 1], ts[|ts| - 1];
      assert MemberNames(ts)[..|ts| - 1] == MemberNames(front);
      assert ts == front + [t];
      ParsedNames(front);
      ParsedName(t);
      assert forall x :: x in ts <==> x in front || x == t;
    }
  }

  lemma ReadBackIffColonFree(ts: seq<LBTarget>)
    ensures multiset(ParsedTargets(MemberNames(ts))) == multiset(ts) <==> forall t :: t in ts ==> ColonFree(t)
  {
    ParsedNames(ts);
    if multiset(ParsedTargets(MemberNames(ts))) == multiset(ts) {
      assert |multiset(ParsedTargets(MemberNames(ts)))| == |multiset(ts)|;
    }
  }

  // ----- the device

  class BigIP {
    var nodes: NodeMap
    var pools: PoolMap
    var servers: ServerMap

    constructor (nodes: NodeMap, pools: PoolMap, servers: ServerMap)
      ensures this.nodes == nodes && this.pools == pools && this.servers == servers
    {
      this.nodes, this.pools, this.servers := nodes, pools, servers;
    }

    method CreateNode(name: string, address: string) returns (ok: bool)
      modifies this`nodes
      ensures ok <==> name !in old(nodes)
      ensures nodes == if ok then old(nodes)[name := address] else old(nodes)
    {
      ok := name !in nodes;
      if ok {
        nodes := nodes[name := address];
      }
    }

    method DeleteNode(name: string) returns (ok: bool)
      modifies this`nodes
      ensures ok <==> name in old(nodes) && !Referenced(pools, name)
      ensures nodes == if ok then old(nodes) - {name} else old(nodes)
    {
      ok := name in nodes && !Referenced(pools, name);
      if ok {
        nodes := nodes - {name};
      }
    }

    method CreatePool(name: string) returns (ok: bool)
      modifies this`pools
      ensures ok <==> name !in old(pools)
      ensures pools == if ok then old(pools)[name := []] else old(pools)
    {
      ok := name !in pools;
      if ok {
        pools := pools[name := []];
      }
    }

    method DeletePool(name: string) returns (ok: bool)
      modifies this`pools
      ensures ok <==> name in old(pools) && !InUse(servers, name)
      ensures pools == if ok then old(pools) - {name} else old(pools)
    {
      ok := name in pools && !InUse(servers, name);
      if ok {
        pools := pools - {name};
      }
    }

    // The members of a pool; a missing pool has none.
    method PoolMembers(name: string) returns (members: seq<string>)
      ensures members == if name in pools then pools[name] else []
    {
      members := if name in pools then pools[name] else [];
    }

    // Needs the pool and the node of the member, and the member not to be there.
    method AddPoolMember(pool: string, member: string) returns (ok: bool)
      modifies this`pools
      ensures ok <==> pool in old(pools) && NodeOf(member) in nodes && member !in old(pools)[pool]
      ensures pools == if ok then old(pools)[pool := old(pools)[pool] + [member]] else old(pools)
    {
      ok := pool in pools && NodeOf(member) in nodes && member !in pools[pool];
      if ok {
        pools := pools[pool := pools[pool] + [member]];
      }
    }

    // Attaches an existing pool, or with "None" detaches the current one; an empty name says nothing.
    method PatchVirtualServer(name: string, pool: string) returns (ok: bool)
      modifies this`servers
      ensures ok <==> name in old(servers) && (pool in {"", "None"} || pool in pools)
      ensures servers == if !ok || pool == "" then old(servers)
                         else old(servers)[name := if pool == "None" then "" else PARTITION + pool]
    {
      ok := name in servers && (pool == "" || pool == "None" || pool in pools);
      if ok && pool != "" {
        servers := servers[name := if pool == "None" then "" else PARTITION + pool];
      }
    }
  }

  // ----- what the calls leave behind

  // A node named by a removed member is dropped unless something still refers to it.
  predicate Dropped(nodes: NodeMap, named: seq<LBTarget>, pools: PoolMap, n: string) {
    n in nodes && nodes[n] == n && !Referenced(pools, n) && exists i :: 0 <= i < |named| && named[i].hostIP == n
  }

  function NodesWithout(nodes: NodeMap, named: seq<LBTarget>, pools: PoolMap): NodeMap {
    map n | n in nodes && !Dropped(nodes, named, pools, n) :: nodes[n]
  }

  function MembersOf(pools: PoolMap, pool: string): seq<string> {
    if pool in pools then pools[pool] else []
  }

  function PoolsWithout(pools: PoolMap, servers: ServerMap, pool: string): PoolMap {
    if InUse(servers, pool) then pools else pools - {pool}
  }

  // A completed remove: the server is detached, its pool goes unless another server uses it, and so do
  // the nodes that only this pool referred to.
  ghost predicate Detached(nodes: NodeMap, pools: PoolMap, servers: ServerMap, config: LBConfig,
                           nodes': NodeMap, pools': PoolMap, servers': ServerMap) {
    && config.endpoint in servers
    && servers' == servers[config.endpoint := ""]
    && pools' == PoolsWithout(pools, servers', config.poolName)
    && nodes' == NodesWithout(nodes, ParsedTargets(MembersOf(pools, config.poolName)), pools')
  }

  // A completed add: the pool holds what it held and the missing members, and the server is attached to it.
  function PoolsWith(pools: PoolMap, config: LBConfig): PoolMap {
    var present := MembersOf(pools, config.poolName);
    pools[config.poolName := present + Missing(MemberNames(config.targets), present)]
  }

  function Attached(servers: ServerMap, config: LBConfig): ServerMap {
    if config.poolName == "" then servers
    else servers[config.endpoint := if config.poolName == "None" then "" else PARTITION + config.poolName]
  }

  lemma DetachedIntact(nodes: NodeMap, pools: PoolMap, servers: ServerMap, config: LBConfig,
                       nodes': NodeMap, pools': PoolMap, servers': ServerMap)
    requires Intact(nodes, pools, servers) && Detached(nodes, pools, servers, config, nodes', pools', servers')
    ensures Intact(nodes', pools', servers')
  {
    forall n | n in servers' && servers'[n] != "" ensures TrimPrefix(servers'[n], PARTITION) in pools' {
      assert servers'[n] == servers[n];
      assert servers[n] == PARTITION + TrimPrefix(servers[n], PARTITION);
    }
    forall p, m | p in pools' && m in pools'[p] ensures NodeOf(m) in nodes' {
      assert p in pools && m in pools[p] && Referenced(pools', NodeOf(m));
    }
  }

  lemma NamedNode(members: seq<string>, n: string)
    ensures (exists t :: t in ParsedTargets(members) && t.hostIP == n)
       <==> ':' !in n && exists port :: ':' !in port && n + ":" + port in members
  {
    if t :| t in ParsedTargets(members) && t.hostIP == n {
      ParsedMember(members, t);
      assert n + ":" + t.port in members;
    }
    if port :| ':' !in n && ':' !in port && n + ":" + port in members {
      ParsedMember(members, LBTarget(n, port));
    }
  }

  // A remove detaches the server and no other. It takes the pool unless another server uses it, and the nodes
  // of the pool's readable members unless some remaining pool has a member on them; the rest stays as it was.
  lemma DetachedMeans(nodes: NodeMap, pools: PoolMap, servers: ServerMap, config: LBConfig,
                      nodes': NodeMap, pools': PoolMap, servers': ServerMap)
    requires Detached(nodes, pools, servers, config, nodes', pools', servers')
    ensures servers' == servers[config.endpoint := ""]
    ensures forall q :: q in pools' <==>
              && q in pools
              && (q != config.poolName
                  || exists n :: n in servers && n != config.endpoint && servers[n] == "/Common/" + q)
    ensures forall q :: q in pools' ==> pools'[q] == pools[q]
    ensures forall n :: n in nodes' <==>
              && n in nodes
              && (|| nodes[n] != n
                  || ':' in n
                  || !(exists port :: ':' !in port && n + ":" + port in MembersOf(pools, config.poolName))
                  || exists q :: q in pools' && exists m :: m in pools'[q] && NodeOf(m) == n)
    ensures forall n :: n in nodes' ==> nodes'[n] == nodes[n]
  {
    var p := config.poolName;
    if n :| n in servers && n != config.endpoint && servers[n] == "/Common/" + p {
      assert servers'[n] == PARTITION + p;
    }
    if n :| n in servers' && servers'[n] == PARTITION + p {
      assert n != config.endpoint && servers[n] == "/Common/" + p;
    }
    var named := ParsedTargets(MembersOf(pools, p));
    forall n | n in nodes
      ensures Dropped(nodes, named, pools', n) <==>
              && nodes[n] == n && ':' !in n
              && (exists port :: ':' !in port && n + ":" + port in MembersOf(pools, p))
              && !exists q :: q in pools' && exists m :: m in pools'[q] && NodeOf(m) == n
    {
      NamedNode(MembersOf(pools, p), n);
    }
  }

  lemma MembersKeepIntact(nodes: NodeMap, pools: PoolMap, servers: ServerMap, pool: string, names: seq<string>)
    requires Intact(nodes, pools, servers) && pool in pools && NodesThere(nodes, names)
    ensures Intact(nodes, pools[pool := pools[pool] + names], servers)
  {
    forall m | m in pools[pool] + names ensures NodeOf(m) in nodes {
      if m !in pools[pool] {
        var i :| 0 <= i < |names| && names[i] == m;
      }
    }
  }

  // No node stands under a target's address with another address.
  ghost predicate NodesAgree(nodes: NodeMap, ts: seq<LBTarget>) {
    forall t :: t in ts && t.hostIP in nodes ==> nodes[t.hostIP] == t.hostIP
  }

  class F5BigIPProvider {
    const client: BigIP

    constructor (client: BigIP)
      ensures this.client == client
    {
      this.client := client;
    }

    ghost predicate Valid()
      reads client
    {
      Intact(client.nodes, client.pools, client.servers)
    }

    predicate NodeExists(name: string, nodeIp: string)
      reads client
    {
      name in client.nodes && client.nodes[name] == nodeIp
    }

    // Creates the missing nodes; fails on a node that has another address.
    method EnsureNodes(targets: seq<LBTarget>) returns (ok: bool)
      modifies client`nodes
      ensures ok <==> NodesAgree(old(client.nodes), targets)
      ensures ok ==> client.nodes == NodesWith(old(client.nodes), targets)
      ensures ok ==> forall n :: n in client.nodes <==> n in old(client.nodes) || n in HostIPs(targets)
      ensures ok ==> forall n :: n in HostIPs(targets) ==> client.nodes[n] == n
      ensures forall n :: n in old(client.nodes) ==> n in client.nodes && client.nodes[n] == old(client.nodes)[n]
      ensures !ok ==> exists i :: 0 <= i < |targets| && client.nodes == NodesWith(old(client.nodes), targets[..i])
    {
      ghost var nodes := client.nodes;
      assert NodesWith(nodes, targets[..0]) == nodes;
      for i := 0 to |targets|
        invariant NodesAgree(nodes, targets[..i])
        invariant client.nodes == NodesWith(nodes, targets[..i])
      {
        var node := targets[i];
        NodeOneMore(nodes, targets, i);
        if NodeExists(node.hostIP, node.hostIP) {
          continue;
        }
        ok := client.CreateNode(node.hostIP, node.hostIP);
        if !ok {
          return;
        }
      }
      assert targets[..|targets|] == targets;
      ok := true;
    }

    // Adds the members that the given list of present ones does not hold.
    method AddMissingMembers(poolName: string, targets: seq<LBTarget>, present: seq<string>) returns (ok: bool)
      requires Valid() && poolName in client.pools && client.pools[poolName] == present
      modifies client`pools
      ensures Valid()
      ensures ok <==> Writable(client.nodes, Missing(MemberNames(targets), present))
      ensures client.pools == old(client.pools)[poolName := MembersOf(client.pools, poolName)]
      ensures ok ==> client.pools == old(client.pools)[poolName := present + Missing(MemberNames(targets), present)]
      ensures !ok ==> present <= MembersOf(client.pools, poolName) <= present + Missing(MemberNames(targets), present)
    {
      ghost var names, pools := MemberNames(targets), client.pools;
      assert present + Missing(names[..0], present) == present;
      for i := 0 to |targets|
        invariant client.pools == pools[poolName := present + Missing(names[..i], present)]
        invariant Writable(client.nodes, Missing(names[..i], present))
      {
        var name := MemberName(targets[i]);
        ghost var before := present + Missing(names[..i], present);
        MissingOneMore(names, i, present);
        if name !in present {
          WritableOneMore(client.nodes, names, i, present);
          assert pools[poolName := before][poolName := before + [name]] == pools[poolName := before + [name]];
          ok := client.AddPoolMember(poolName, name);
          if !ok {
            MissingPrefix(names, i, present);
            MembersKeepIntact(client.nodes, pools, client.servers, poolName, Missing(names[..i], present));
            return;
          }
        }
      }
      assert names[..|targets|] == names;
      MembersKeepIntact(client.nodes, pools, client.servers, poolName, Missing(names, present));
      ok := true;
    }

    method RemoveLBConfig(config: LBConfig) returns (ok: bool)
      requires Valid()
      modifies client
      ensures Valid()
      ensures ok <==> config.endpoint in old(client.servers)
      ensures ok ==> Detached(old(client.nodes), old(client.pools), old(client.servers), config,
                              client.nodes, client.pools, client.servers)
      ensures !ok ==> client.nodes == old(client.nodes) && client.pools == old(client.pools)
                      && client.servers == old(client.servers)
    {
      ok := client.PatchVirtualServer(config.endpoint, "None");
      if !ok {
        return;
      }
      var poolName := config.poolName;
      var poolMembers := client.PoolMembers(poolName);
      var nodes := ParseMembers(poolMembers);
      var deleted := client.DeletePool(poolName);
      assert client.pools == PoolsWithout(old(client.pools), client.servers, poolName);
      DeleteNodes(nodes);
      DetachedIntact(old(client.nodes), old(client.pools), old(client.servers), config,
                     client.nodes, client.pools, client.servers);
    }

    static method ParseMembers(members: seq<string>) returns (nodes: seq<LBTarget>)
      ensures nodes == ParsedTargets(members)
    {
      nodes := [];
      for i := 0 to |members|
        invariant nodes == ParsedTargets(members[..i])
      {
        assert members[..i + 1][..i] == members[..i];
        var nodeParts := Split(members[i], ':');
        if |nodeParts| == 2 {
          nodes := nodes + [LBTarget(nodeParts[0], nodeParts[1])];
        }
      }
      assert members[..|members|] == members;
    }

    // A node that the device refuses to delete is left, with a message.
    method DeleteNodes(named: seq<LBTarget>)
      modifies client`nodes
      ensures client.nodes == NodesWithout(old(client.nodes), named, client.pools)
    {
      ghost var nodes := client.nodes;
      assert client.nodes == NodesWithout(nodes, named[..0], client.pools);
      for i := 0 to |named|
        invariant client.nodes == NodesWithout(nodes, named[..i], client.pools)
      {
        DropOneMore(nodes, named, i, client.pools);
        if NodeExists(named[i].hostIP, named[i].hostIP) {
          var ok := client.DeleteNode(named[i].hostIP);
        }
      }
      assert named[..|named|] == named;
    }

    method AddLBConfig(config: LBConfig) returns (r: Result<string>)
      requires Valid()
      modifies client
      ensures Valid()
      ensures config.endpoint !in old(client.servers) ==>
                r == Ok("") && client.nodes == old(client.nodes) && client.pools == old(client.pools)
                && client.servers == old(client.servers)
      ensures config.endpoint in old(client.servers) ==>
                && (r.Ok? <==> Addable(old(client.nodes), old(client.pools), config))
                && AddOutcome(old(client.nodes), old(client.pools), old(client.servers), config,
                              client.nodes, client.pools, client.servers, r)
    {
      if config.endpoint !in client.servers {
        // reported without an error
        return Ok("");
      }
      var created := EnsureNodes(config.targets);
      if !created {
        return Err;
      }
      assert config.targets[..|config.targets|] == config.targets;
      var filled := FillPool(config);
      if !filled {
        return Err;
      }
      var attached := client.PatchVirtualServer(config.endpoint, config.poolName);
      PathOfPool(config.poolName);
      if !attached {
        return Err;
      }
      r := Ok("");
    }

    // Creates the pool if it does not exist and adds the missing members.
    method FillPool(config: LBConfig) returns (ok: bool)
      requires Valid()
      modifies client`pools
      ensures Valid() && config.poolName in client.pools
      ensures ok <==> Writable(client.nodes, Missing(MemberNames(config.targets),
                                                     MembersOf(old(client.pools), config.poolName)))
      ensures client.pools == old(client.pools)[config.poolName := MembersOf(client.pools, config.poolName)]
      ensures ok ==> client.pools == PoolsWith(old(client.pools), config)
      ensures !ok ==>
                MembersOf(old(client.pools), config.poolName) <= MembersOf(client.pools, config.poolName)
                <= MembersOf(PoolsWith(old(client.pools), config), config.poolName)
    {
      var poolName := config.poolName;
      ghost var present := MembersOf(client.pools, poolName);
      if poolName !in client.pools {
        var created := client.CreatePool(poolName);
      }
      var poolMembers := client.PoolMembers(poolName);
      assert poolMembers == present;
      ok := AddMissingMembers(poolName, config.targets, poolMembers);
    }

    // A failing update leaves the server detached.
    method UpdateLBConfig(config: LBConfig) returns (r: Result<string>)
      requires Valid()
      modifies client
      ensures Valid()
      ensures config.endpoint !in old(client.servers) ==>
                r.Err? && client.nodes == old(client.nodes) && client.pools == old(client.pools)
                && client.servers == old(client.servers)
      ensures config.endpoint in old(client.servers) ==>
                exists nodes, pools, servers ::
                  && Detached(old(client.nodes), old(client.pools), old(client.servers), config, nodes, pools, servers)
                  && (r.Ok? <==> Addable(nodes, pools, config))
                  && AddOutcome(nodes, pools, servers, config, client.nodes, client.pools, client.servers, r)
      ensures r.Ok? ==>
                && client.pools == UpdatedPools(old(client.pools), old(client.servers), config)
                && client.servers == Attached(old(client.servers)[config.endpoint := ""], config)
    {
      var removed := RemoveLBConfig(config);
      if !removed {
        return Err;
      }
      ghost var nodes, pools, servers := client.nodes, client.pools, client.servers;
      r := AddLBConfig(config);
      assert Detached(old(client.nodes), old(client.pools), old(client.servers), config, nodes, pools, servers);
    }

    // One configuration for each virtual server with a pool.
    method GetLBConfigs() returns (lbConfigs: seq<LBConfig>)
      requires Valid()
      ensures Lists(lbConfigs, Listing(client.pools, client.servers))
    {
      ghost var store := Listing(client.pools, client.servers);
      lbConfigs := [];
      var rest := client.servers.Keys;
      while rest != {}
        invariant rest <= client.servers.Keys
        invariant ListsPart(lbConfigs, store, client.servers.Keys - rest)
      {
        var n :| n in rest;
        ghost var visited := client.servers.Keys - rest;
        rest := rest - {n};
        assert client.servers.Keys - rest == visited + {n};
        if client.servers[n] != "" {
          var pool := TrimPrefix(client.servers[n], PARTITION);
          var nodes := ParseMembers(client.pools[pool]);
          var lbConfig := LBConfig(n, pool, "", nodes);
          ListOneMore(lbConfigs, store, visited, lbConfig);
          lbConfigs := lbConfigs + [lbConfig];
        } else {
          ListNoMore(lbConfigs, store, visited, n);
        }
      }
    }
  }

  lemma DropOneMore(nodes: NodeMap, named: seq<LBTarget>, i: nat, pools: PoolMap)
    requires i < |named|
    ensures var before, n := NodesWithout(nodes, named[..i], pools), named[i].hostIP;
            NodesWithout(nodes, named[..i + 1], pools)
            == if n in before && before[n] == n && !Referenced(pools, n) then before - {n} else before
  {
    var n := named[i].hostIP;
    forall x | x in nodes
      ensures Dropped(nodes, named[..i + 1], pools, x) <==>
              Dropped(nodes, named[..i], pools, x) || (x == n && nodes[n] == n && !Referenced(pools, n))
    {
      assert forall k :: 0 <= k < i ==> named[..i + 1][k] == named[..i][k];
      assert named[..i + 1][i] == named[i];
    }
  }

  // The nodes after creating those of the targets.
  function NodesWith(nodes: NodeMap, ts: seq<LBTarget>): NodeMap {
    map n | n in nodes.Keys + Elements(HostIPs(ts)) :: if n in nodes then nodes[n] else n
  }

  lemma NodeOneMore(nodes: NodeMap, ts: seq<LBTarget>, i: nat)
    requires i < |ts|
    ensures var before, ip := NodesWith(nodes, ts[..i]), ts[i].hostIP;
            && NodesWith(nodes, ts[..i + 1]) == (if ip in before then before else before[ip := ip])
            && (NodesAgree(nodes, ts[..i]) ==>
                  (NodesAgree(nodes, ts[..i + 1]) <==> (ip in before ==> before[ip] == ip)))
            && (NodesAgree(nodes, ts) ==> NodesAgree(nodes, ts[..i + 1]))
  {
    assert HostIPs(ts[..i + 1]) == HostIPs(ts[..i]) + [ts[i].hostIP];
    ElementsOfOneMore(HostIPs(ts[..i]), ts[i].hostIP);
    assert ts[..i + 1] == ts[..i] + [ts[i]];
    forall t | t in ts[..i] ensures t.hostIP in NodesWith(nodes, ts[..i]) {
      var k :| 0 <= k < i && ts[k] == t;
      assert HostIPs(ts[..i])[k] == t.hostIP;
    }
  }

  // Members that the device takes one after the other: no name twice, and every node there.
  ghost predicate Writable(nodes: NodeMap, names: seq<string>) {
    Distinct(names) && NodesThere(nodes, names)
  }

  lemma WritableGrows(nodes: NodeMap, names: seq<string>, m: string)
    requires Writable(nodes, names)
    ensures Writable(nodes, names + [m]) <==> NodeOf(m) in nodes && m !in names
  {
    var more := names + [m];
    assert more[|names|] == m;
    if m in names {
      var k :| 0 <= k < |names| && names[k] == m;
      assert more[k] == more[|names|];
    }
  }

  lemma WritablePart(nodes: NodeMap, part: seq<string>, names: seq<string>)
    requires part <= names && Writable(nodes, names)
    ensures Writable(nodes, part)
  {
  }

  lemma WritableOneMore(nodes: NodeMap, names: seq<string>, i: nat, present: seq<string>)
    requires i < |names| && names[i] !in present
    requires Writable(nodes, Missing(names[..i], present))
    ensures Writable(nodes, Missing(names[..i + 1], present)) <==>
            NodeOf(names[i]) in nodes && names[i] !in present + Missing(names[..i], present)
    ensures Writable(nodes, Missing(names, present)) ==> Writable(nodes, Missing(names[..i + 1], present))
  {
    MissingOneMore(names, i, present);
    WritableGrows(nodes, Missing(names[..i], present), names[i]);
    MissingPrefix(names, i + 1, present);
    if Writable(nodes, Missing(names, present)) {
      WritablePart(nodes, Missing(names[..i + 1], present), Missing(names, present));
    }
  }

  lemma {:induction false} MissingPrefix(names: seq<string>, i: nat, present: seq<string>)
    requires i <= |names|
    ensures Missing(names[..i], present) <= Missing(names, present)
  {
    if i < |names| {
      MissingPrefix(names[..|names| - 1], i, present);
      assert names[..|names| - 1][..i] == names[..i];
    } else {
      assert names[..i] == names;
    }
  }

  // What lets an add go through: no node in the way, and members that the device takes.
  ghost predicate Addable(nodes: NodeMap, pools: PoolMap, config: LBConfig) {
    && NodesAgree(nodes, config.targets)
    && Writable(NodesWith(nodes, config.targets),
                Missing(MemberNames(config.targets), MembersOf(pools, config.poolName)))
  }

  // An add that fails never touches a server, and adds only nodes of the targets and members of the pool.
  ghost predicate AddOutcome(nodes: NodeMap, pools: PoolMap, servers: ServerMap, config: LBConfig,
                             nodes': NodeMap, pools': PoolMap, servers': ServerMap, r: Result<string>) {
    if r.Ok? then
      && r.value == "" && nodes' == NodesWith(nodes, config.targets)
      && pools' == PoolsWith(pools, config) && servers' == Attached(servers, config)
    else
      && servers' == servers
      && (exists i :: 0 <= i <= |config.targets| && nodes' == NodesWith(nodes, config.targets[..i]))
      && (|| pools' == pools
          || (&& MembersOf(pools, config.poolName) <= MembersOf(pools', config.poolName)
                 <= MembersOf(PoolsWith(pools, config), config.poolName)
              && pools' == pools[config.poolName := MembersOf(pools', config.poolName)]))
  }

  // The missing names are distinct exactly when only present names are repeated.
  lemma {:induction false} RepeatedMissing(names: seq<string>, present: seq<string>)
    ensures Distinct(Missing(names, present)) <==>
            forall i, j :: 0 <= i < j < |names| && names[i] == names[j] ==> names[i] in present
  {
    if names != [] {
      var n := |names| - 1;
      var front, m, missing := names[..n], names[n], Missing(names[..n], present);
      RepeatedMissing(front, present);
      assert forall i :: 0 <= i < n ==> front[i] == names[i];
      assert Missing(names, present) == if m in present then missing else missing + [m];
      DistinctGrows(missing, m);
      MissingMember(front, present, m);
      if m !in present && m in front {
        var i :| 0 <= i < n && front[i] == m;
        assert names[i] == names[n];
      }
      if Distinct(Missing(names, present)) {
        forall i, j | 0 <= i < j < |names| && names[i] == names[j] ensures names[i] in present {
          if j < n {
            assert front[i] == front[j];
          } else {
            assert front[i] == m;
          }
        }
      }
    }
  }

  // In words of the device: an add goes through unless a node stands under a target's address with another
  // one, a target that is not a member yet is given twice, or the node of a new member is nobody's address.
  lemma AddableMeans(nodes: NodeMap, pools: PoolMap, config: LBConfig)
    ensures Addable(nodes, pools, config) <==>
            && (forall ip :: ip in HostIPs(config.targets) && ip in nodes ==> nodes[ip] == ip)
            && (forall i, j ::
                  0 <= i < j < |config.targets| && MemberName(config.targets[i]) == MemberName(config.targets[j]) ==>
                  MemberName(config.targets[i]) in MembersOf(pools, config.poolName))
            && (forall t :: t in config.targets && MemberName(t) !in MembersOf(pools, config.poolName) ==>
                  NodeOf(MemberName(t)) in nodes || NodeOf(MemberName(t)) in HostIPs(config.targets))
  {
    var ts, present := config.targets, MembersOf(pools, config.poolName);
    var names := MemberNames(ts);
    AgreeMeans(nodes, ts);
    RepeatedMissing(names, present);
    assert forall i :: 0 <= i < |ts| ==> names[i] == MemberName(ts[i]);
    NodesOfMissing(NodesWith(nodes, ts), ts, present);
  }

  lemma AgreeMeans(nodes: NodeMap, ts: seq<LBTarget>)
    ensures NodesAgree(nodes, ts) <==> forall ip :: ip in HostIPs(ts) && ip in nodes ==> nodes[ip] == ip
  {
    forall t | t in ts ensures t.hostIP in HostIPs(ts) {
      var i :| 0 <= i < |ts| && ts[i] == t;
      assert HostIPs(ts)[i] == t.hostIP;
    }
    forall ip | ip in HostIPs(ts) ensures exists t :: t in ts && t.hostIP == ip {
      var i :| 0 <= i < |ts| && HostIPs(ts)[i] == ip;
      assert ts[i] in ts;
    }
  }

  lemma NodesOfMissing(nodes: NodeMap, ts: seq<LBTarget>, present: seq<string>)
    ensures NodesThere(nodes, Missing(MemberNames(ts), present)) <==>
            forall t :: t in ts && MemberName(t) !in present ==> NodeOf(MemberName(t)) in nodes
  {
    var names := MemberNames(ts);
    var missing := Missing(names, present);
    forall t | t in ts ensures MemberName(t) in names {
      var i :| 0 <= i < |ts| && ts[i] == t;
      assert names[i] == MemberName(t);
    }
    forall m ensures m in missing <==> m in names && m !in present {
      MissingMember(names, present, m);
    }
    forall m | m in names ensures exists t :: t in ts && MemberName(t) == m {
      var i :| 0 <= i < |names| && names[i] == m;
      assert ts[i] in ts;
    }
    if NodesThere(nodes, missing) {
      forall m | m in missing ensures NodeOf(m) in nodes {
        var i :| 0 <= i < |missing| && missing[i] == m;
      }
    }
    assert forall i :: 0 <= i < |missing| ==> missing[i] in missing;
  }

  // Distinct targets whose ports have no colon are addable unless a node is in the way.
  lemma CleanTargetsAddable(nodes: NodeMap, pools: PoolMap, config: LBConfig)
    requires Distinct(config.targets) && forall t :: t in config.targets ==> ':' !in t.port
    ensures Addable(nodes, pools, config) <==> NodesAgree(nodes, config.targets)
  {
    var ts, names := config.targets, MemberNames(config.targets);
    forall i, j | 0 <= i < j < |ts| ensures names[i] != names[j] {
      assert ts[i] in ts && ts[j] in ts;
      if names[i] == names[j] {
        LastSeparator(ts[i].hostIP, ts[i].port, ts[j].hostIP, ts[j].port, ':');
      }
    }
    MissingDistinct(names, MembersOf(pools, config.poolName));
    forall k | 0 <= k < |Missing(names, MembersOf(pools, config.poolName))|
      ensures NodeOf(Missing(names, MembersOf(pools, config.poolName))[k]) in NodesWith(nodes, ts)
    {
      var m := Missing(names, MembersOf(pools, config.poolName))[k];
      MissingMember(names, MembersOf(pools, config.poolName), m);
      var i :| 0 <= i < |names| && names[i] == m;
      assert ts[i] in ts && HostIPs(ts)[i] == ts[i].hostIP;
      NodeOfName(ts[i].hostIP, ts[i].port);
    }
  }

  lemma {:induction false} MissingDistinct(names: seq<string>, present: seq<string>)
    requires Distinct(names)
    ensures Distinct(Missing(names, present))
  {
    if names != [] {
      var front, m := names[..|names| - 1], names[|names| - 1];
      MissingDistinct(front, present);
      MissingMember(front, present, m);
    }
  }

  // ----- update then read back

  function UpdatedPools(pools: PoolMap, servers: ServerMap, config: LBConfig): PoolMap {
    PoolsWith(PoolsWithout(pools, servers[config.endpoint := ""], config.poolName), config)
  }

  ghost predicate Unshared(servers: ServerMap, e: string, pool: string) {
    forall n :: n in servers && n != e ==> servers[n] != PARTITION + pool
  }

  // Attaching a server to a pool that no other server uses changes the listing at that server alone.
  lemma AttachedListing(pools: PoolMap, servers: ServerMap, e: string, path: string, pools': PoolMap)
    requires e in servers && path != "" && TrimPrefix(path, PARTITION) in pools'
    requires forall n :: n in servers && n != e && servers[n] != "" ==>
               && TrimPrefix(servers[n], PARTITION) in pools
               && TrimPrefix(servers[n], PARTITION) != TrimPrefix(path, PARTITION)
    requires forall q :: q in pools && q != TrimPrefix(path, PARTITION) ==> q in pools' && pools'[q] == pools[q]
    ensures var p := TrimPrefix(path, PARTITION);
            Listing(pools', servers[e := path])
            == Listing(pools, servers)[e := Entry(p, multiset(ParsedTargets(pools'[p])))]
  {
    var p := TrimPrefix(path, PARTITION);
    var entry := Entry(p, multiset(ParsedTargets(pools'[p])));
    var before, after := Listing(pools, servers), Listing(pools', servers[e := path]);
    forall n ensures Lookup(after, n) == Lookup(before[e := entry], n) {
    }
    SameLookupsSameStore(after, before[e := entry]);
  }

  // After an update of a server whose new pool no other server uses, the listing shows exactly the
  // configuration, and nothing else changes, if and only if no target has a colon. Other pools keep
  // their members, also the one the server was attached to under another name.
  lemma UpdateFaithfulIffColonFree(nodes: NodeMap, pools: PoolMap, servers: ServerMap, config: LBConfig)
    requires Intact(nodes, pools, servers) && config.endpoint in servers
    requires Unshared(servers, config.endpoint, config.poolName) && config.poolName !in {"", "None"}
    ensures Listing(UpdatedPools(pools, servers, config), Attached(servers[config.endpoint := ""], config))
         == Listing(pools, servers)[config.endpoint := View(config)]
       <==> forall t :: t in config.targets ==> ColonFree(t)
    ensures config.poolName in UpdatedPools(pools, servers, config)
    ensures UpdatedPools(pools, servers, config)[config.poolName] == MemberNames(config.targets)
    ensures forall q :: q in pools && q != config.poolName ==>
              q in UpdatedPools(pools, servers, config) && UpdatedPools(pools, servers, config)[q] == pools[q]
  {
    var e, p := config.endpoint, config.poolName;
    var pools' := UpdatedPools(pools, servers, config);
    UpdatedPoolsExact(pools, servers, config);
    assert Attached(servers[e := ""], config) == servers[e := PARTITION + p];
    PathOfPool(p);
    forall n | n in servers && n != e && servers[n] != "" ensures TrimPrefix(servers[n], PARTITION) != p {
      assert servers[n] == PARTITION + TrimPrefix(servers[n], PARTITION);
    }
    AttachedListing(pools, servers, e, PARTITION + p, pools');
    ReadBackIffColonFree(config.targets);
    var before, entry := Listing(pools, servers), Entry(p, multiset(ParsedTargets(pools'[p])));
    EntryAt(before, e, entry, View(config));
  }

  // ----- add then read back

  // The targets a pool reads back as are those of the colon-free names among its members.
  lemma {:induction false} ParsedMember(members: seq<string>, t: LBTarget)
    ensures t in ParsedTargets(members) <==> ColonFree(t) && MemberName(t) in members
  {
    if members != [] {
      var front, m := members[..|members| - 1], members[|members| - 1];
      ParsedMember(front, t);
      ParsedName(t);
      SplitThenJoin(m, ':');
      assert MemberName(t) in members <==> MemberName(t) in front || MemberName(t) == m;
      if |Split(m, ':')| == 2 {
        assert m == Join(Split(m, ':'), ':') == Split(m, ':')[0] + [':'] + Split(m, ':')[1];
      }
    }
  }

  lemma {:induction false} ParsedOfSum(a: seq<string>, b: seq<string>)
    ensures ParsedTargets(a + b) == ParsedTargets(a) + ParsedTargets(b)
  {
    if b == [] {
      assert a + b == a;
    } else {
      ParsedOfSum(a, b[..|b| - 1]);
      assert (a + b)[..|a + b| - 1] == a + b[..|b| - 1];
    }
  }

  // The targets that are not listed, in order.
  function Unlisted(ts: seq<LBTarget>, listed: seq<LBTarget>): seq<LBTarget> {
    if ts == [] then []
    else
      var t := ts[|ts| - 1];
      Unlisted(ts[..|ts| - 1], listed) + if t in listed then [] else [t]
  }

  lemma {:induction false} UnlistedExact(ts: seq<LBTarget>, listed: seq<LBTarget>, t: LBTarget)
    ensures t in Unlisted(ts, listed) <==> t in ts && t !in listed
    ensures Distinct(ts) ==> Distinct(Unlisted(ts, listed))
  {
    if ts != [] {
      var front, last := ts[..|ts| - 1], ts[|ts| - 1];
      UnlistedExact(front, listed, t);
      UnlistedExact(front, listed, last);
      assert t in ts <==> t in front || t == last;
    }
  }

  // The members an add writes are the names of the targets that the pool does not read back as.
  lemma {:induction false} MissingAreUnlisted(ts: seq<LBTarget>, present: seq<string>)
    requires forall t :: t in ts ==> ColonFree(t)
    ensures Missing(MemberNames(ts), present) == MemberNames(Unlisted(ts, ParsedTargets(present)))
  {
    if ts != [] {
      var front, t := ts[..|ts| - 1], ts[|ts| - 1];
      assert MemberNames(ts)[..|ts| - 1] == MemberNames(front);
      MissingAreUnlisted(front, present);
      ParsedMember(present, t);
    }
  }

  // What was listed, completed with the rest, is a permutation of the targets exactly when it was part of
  // them, without repetition.
  lemma CompletedIffPart(ts: seq<LBTarget>, listed: seq<LBTarget>)
    requires Distinct(ts)
    ensures multiset(listed + Unlisted(ts, listed)) == multiset(ts)
       <==> Distinct(listed) && forall t :: t in listed ==> t in ts
  {
    var rest := Unlisted(ts, listed);
    var all := listed + rest;
    PermutesSet(ts, Elements(ts));
    PermutesSet(all, Elements(ts));
    forall t ensures t in rest <==> t in ts && t !in listed {
      UnlistedExact(ts, listed, t);
    }
    UnlistedExact(ts, listed, LBTarget("", ""));
    if Distinct(all) {
      forall i, j | 0 <= i < j < |listed| ensures listed[i] != listed[j] {
        assert all[i] == listed[i] && all[j] == listed[j];
      }
    }
    if Elements(all) == Elements(ts) {
      forall t | t in listed ensures t in ts {
        assert t in Elements(all);
      }
    }
    if Distinct(listed) && forall t :: t in listed ==> t in ts {
      forall t ensures t in all <==> t in ts {
        assert t in all <==> t in listed || t in rest;
      }
      forall i, j | 0 <= i < j < |all| ensures all[i] != all[j] {
        assert i < |listed| <= j ==> all[i] in listed && all[j] in rest;
        assert |listed| <= i ==> all[i] == rest[i - |listed|] && all[j] == rest[j - |listed|];
      }
    }
  }

  // An add keeps the members it finds. So after an add of distinct colon-free targets to a pool that no
  // other server uses, the listing shows exactly the configuration, and nothing else changes, if and only
  // if what the pool read back as before was part of the targets, without repetition.
  lemma AddFaithfulIffFits(nodes: NodeMap, pools: PoolMap, servers: ServerMap, config: LBConfig)
    requires Intact(nodes, pools, servers) && config.endpoint in servers
    requires Unshared(servers, config.endpoint, config.poolName) && config.poolName !in {"", "None"}
    requires Distinct(config.targets) && forall t :: t in config.targets ==> ColonFree(t)
    ensures Listing(PoolsWith(pools, config), Attached(servers, config))
         == Listing(pools, servers)[config.endpoint := View(config)]
       <==> var listed := ParsedTargets(MembersOf(pools, config.poolName));
            Distinct(listed) && forall t :: t in listed ==> t in config.targets
  {
    var e, p, present := config.endpoint, config.poolName, MembersOf(pools, config.poolName);
    var pools', listed := PoolsWith(pools, config), ParsedTargets(present);
    var rest := Unlisted(config.targets, listed);
    PathOfPool(p);
    forall n | n in servers && n != e && servers[n] != "" ensures TrimPrefix(servers[n], PARTITION) != p {
      assert servers[n] == PARTITION + TrimPrefix(servers[n], PARTITION);
    }
    AttachedListing(pools, servers, e, PARTITION + p, pools');
    MissingAreUnlisted(config.targets, present);
    ParsedOfSum(present, MemberNames(rest));
    forall t | t in rest ensures ColonFree(t) {
      UnlistedExact(config.targets, listed, t);
    }
    ParsedNames(rest);
    assert pools'[p] == present + MemberNames(rest);
    CompletedIffPart(config.targets, listed);
    EntryAt(Listing(pools, servers), e, Entry(p, multiset(ParsedTargets(pools'[p]))), View(config));
  }

  // ----- the shape of an update

  // An attached server names its pool by the path in the common partition.
  lemma AttachedMeans(servers: ServerMap, config: LBConfig)
    requires config.endpoint in servers && config.poolName !in {"", "None"}
    ensures Attached(servers, config) == servers[config.endpoint := "/Common/" + config.poolName]
  {
  }

  lemma UpdatedPoolsExact(pools: PoolMap, servers: ServerMap, config: LBConfig)
    requires config.endpoint in servers && Unshared(servers, config.endpoint, config.poolName)
    ensures UpdatedPools(pools, servers, config)
         == (pools - {config.poolName})[config.poolName := MemberNames(config.targets)]
  {
    assert !InUse(servers[config.endpoint := ""], config.poolName);
    MissingFromNothing(MemberNames(config.targets));
    assert [] + MemberNames(config.targets) == MemberNames(config.targets);
  }

  lemma DetachedListing(pools: PoolMap, servers: ServerMap, e: string, pools': PoolMap)
    requires e in servers
    requires forall n :: n in servers && n != e && servers[n] != "" && TrimPrefix(servers[n], PARTITION) in pools ==>
               && TrimPrefix(servers[n], PARTITION) in pools'
               && pools'[TrimPrefix(servers[n], PARTITION)] == pools[TrimPrefix(servers[n], PARTITION)]
    requires pools'.Keys <= pools.Keys
    ensures Listing(pools', servers[e := ""]) == Listing(pools, servers) - {e}
  {
    var before, after := Listing(pools, servers), Listing(pools', servers[e := ""]);
    forall n ensures Lookup(after, n) == Lookup(before - {e}, n) {
    }
    SameLookupsSameStore(after, before - {e});
  }

  // A remove of a server makes it disappear from the listing, and nothing else.
  lemma RemoveIsFaithful(nodes: NodeMap, pools: PoolMap, servers: ServerMap, config: LBConfig,
                         nodes': NodeMap, pools': PoolMap, servers': ServerMap)
    requires Intact(nodes, pools, servers) && Detached(nodes, pools, servers, config, nodes', pools', servers')
    ensures Listing(pools', servers') == Listing(pools, servers) - {config.endpoint}
  {
    forall n | n in servers && n != config.endpoint && servers[n] != ""
      ensures var p := TrimPrefix(servers[n], PARTITION); p in pools' && pools'[p] == pools[p]
    {
      assert servers'[n] == servers[n] && servers[n] == PARTITION + TrimPrefix(servers[n], PARTITION);
    }
    DetachedListing(pools, servers, config.endpoint, pools');
  }

  // The nodes of all the members exist.
  ghost predicate NodesThere(nodes: NodeMap, names: seq<string>) {
    forall i :: 0 <= i < |names| ==> NodeOf(names[i]) in nodes
  }

  // The names that are not present, in order.
  function Missing(names: seq<string>, present: seq<string>): seq<string> {
    if names == [] then []
    else
      var m := names[|names| - 1];
      Missing(names[..|names| - 1], present) + if m in present then [] else [m]
  }

  lemma {:induction false} MissingMember(names: seq<string>, present: seq<string>, m: string)
    ensures m in Missing(names, present) <==> m in names && m !in present
  {
    if names != [] {
      MissingMember(names[..|names| - 1], present, m);
      assert m in names <==> m in names[..|names| - 1] || m == names[|names| - 1];
    }
  }

  // A name that is not present is missing once more.
  lemma MissingOneMore(names: seq<string>, i: nat, present: seq<string>)
    requires i < |names|
    ensures names[i] in present ==> Missing(names[..i + 1], present) == Missing(names[..i], present)
    ensures names[i] !in present ==>
              && Missing(names[..i + 1], present) == Missing(names[..i], present) + [names[i]]
              && present + Missing(names[..i + 1], present) == present + Missing(names[..i], present) + [names[i]]
  {
    assert names[..i + 1][..i] == names[..i];
  }

  lemma {:induction false} MissingFromNothing(names: seq<string>)
    ensures Missing(names, []) == names
  {
    if names != [] {
      MissingFromNothing(names[..|names| - 1]);
      assert names == names[..|names| - 1] + [names[|names| - 1]];
    }
  }
}
