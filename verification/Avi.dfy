/**
 * The Avi provider (avi.go, aviutils.go, avivs.go) over a controller that stores documents for
 * virtual services and pools. Any call to a controller that is not reliable may fail.
 */
module Avi {
  import opened AviMembers
  import opened Merging
  import opened Model
  import opened Rounds
  import opened Seqs
  import opened Text

  datatype VirtualService = VirtualService(name: string, poolRef: Option<string>, cloudRef: Option<string>,
                                           serviceMetadata: Option<string>, fqdn: string, dnsName: Option<string>)

  datatype Pool = Pool(uuid: string, name: string, servers: Option<seq<Server>>, defaultPort: Option<int>)

  type VsMap = map<string, VirtualService>
  type PoolMap = map<string, Pool>

  function GetPoolMembers(pool: Pool): seq<Server> {
    if pool.servers.Some? then pool.servers.value else []
  }

  // ----- association and listing

  predicate VsFromCloud(vs: VirtualService, cloudRef: string) {
    vs.cloudRef == Some(cloudRef)
  }

  predicate VsHasMetadata(vs: VirtualService, metadata: string) {
    vs.serviceMetadata == Some(metadata)
  }

  predicate IsAssociatedVs(vs: VirtualService, cloudRef: string, lbSuffix: string) {
    VsFromCloud(vs, cloudRef) && VsHasMetadata(vs, lbSuffix)
  }

  function DefaultPort(pool: Pool): string {
    if pool.defaultPort.Some? then Itoa(pool.defaultPort.value) else ""
  }

  function PoolTargets(pool: Pool): seq<LBTarget> {
    ReadTargets(GetPoolMembers(pool), DefaultPort(pool))
  }

  // What a listing of the provider shows.
  function Listing(vses: VsMap, pools: PoolMap, cloudRef: string, lbSuffix: string): Store {
    map n | n in vses && IsAssociatedVs(vses[n], cloudRef, lbSuffix)
            && vses[n].poolRef.Some? && vses[n].poolRef.value in pools ::
      var pool := pools[vses[n].poolRef.value];
      Entry(pool.name, multiset(PoolTargets(pool)))
  }

  // Documents are stored under their names, references resolve, and members carry ports.
  ghost predicate Sound(vses: VsMap, pools: PoolMap) {
    && (forall n :: n in vses ==> vses[n].name == n)
    && (forall n :: n in vses && vses[n].poolRef.Some? ==> vses[n].poolRef.value in pools)
    && (forall u :: u in pools ==> pools[u].uuid == u && HavePorts(GetPoolMembers(pools[u])))
  }

  // What the listing relies on: every associated virtual service refers to a pool.
  ghost predicate Listable(vses: VsMap, cloudRef: string, lbSuffix: string) {
    forall n :: n in vses && IsAssociatedVs(vses[n], cloudRef, lbSuffix) ==> vses[n].poolRef.Some?
  }

  // ----- what every step keeps

  // No virtual service appears, disappears, moves to another pool, changes cloud or loses its
  // metadata, and one that changes its metadata has a pool; no pool disappears or, once its name
  // ends in the suffix, is renamed.
  ghost predicate Evolves(vses: VsMap, pools: PoolMap, vses': VsMap, pools': PoolMap, lbSuffix: string) {
    && vses'.Keys == vses.Keys && pools.Keys <= pools'.Keys
    && (forall n :: n in vses ==>
          && vses'[n].cloudRef == vses[n].cloudRef
          && (vses[n].poolRef.Some? ==> vses'[n].poolRef == vses[n].poolRef)
          && (VsHasMetadata(vses[n], lbSuffix) ==> VsHasMetadata(vses'[n], lbSuffix))
          && (vses'[n].serviceMetadata != vses[n].serviceMetadata ==> vses'[n].poolRef.Some?))
    && (forall u :: u in pools && HasSuffix(pools[u].name, lbSuffix) ==> pools'[u].name == pools[u].name)
  }

  // So the listing never meets an associated virtual service without a pool, if it met none at first.
  lemma EvolvingStaysListable(vses: VsMap, pools: PoolMap, vses': VsMap, pools': PoolMap,
                              cloudRef: string, lbSuffix: string)
    requires Listable(vses, cloudRef, lbSuffix) && Evolves(vses, pools, vses', pools', lbSuffix)
    ensures Listable(vses', cloudRef, lbSuffix)
  {
    forall n | n in vses' && IsAssociatedVs(vses'[n], cloudRef, lbSuffix) ensures vses'[n].poolRef.Some? {
      if vses'[n].serviceMetadata == vses[n].serviceMetadata {
        assert IsAssociatedVs(vses[n], cloudRef, lbSuffix);
      }
    }
  }

  datatype State = State(vses: VsMap, pools: PoolMap)

  // Any run of steps that each evolve evolves as a whole.
  lemma {:induction false} RunEvolves(states: seq<State>, lbSuffix: string, i: nat, j: nat)
    requires i <= j < |states|
    requires forall k :: 0 < k < |states| ==>
               Evolves(states[k - 1].vses, states[k - 1].pools, states[k].vses, states[k].pools, lbSuffix)
    ensures Evolves(states[i].vses, states[i].pools, states[j].vses, states[j].pools, lbSuffix)
  {
    if i < j {
      RunEvolves(states, lbSuffix, i, j - 1);
      var a, b, c := states[i], states[j - 1], states[j];
      assert Evolves(b.vses, b.pools, c.vses, c.pools, lbSuffix);
      forall u | u in a.pools && HasSuffix(a.pools[u].name, lbSuffix) ensures c.pools[u].name == a.pools[u].name {
        assert b.pools[u].name == a.pools[u].name;
      }
    }
  }

  // ----- the provider

  class AviController {
    var vses: VsMap
    var pools: PoolMap
    const reliable: bool

    constructor (vses: VsMap, pools: PoolMap, reliable: bool)
      ensures this.vses == vses && this.pools == pools && this.reliable == reliable
    {
      this.vses, this.pools, this.reliable := vses, pools, reliable;
    }

    method Reached() returns (ok: bool)
      ensures reliable ==> ok
    {
      ok := *;
      ok := ok || reliable;
    }

    method PutVs(vs: VirtualService) returns (ok: bool)
      modifies this`vses
      ensures ok ==> vs.name in old(vses) && vses == old(vses)[vs.name := vs]
      ensures !ok ==> vses == old(vses)
      ensures reliable && vs.name in old(vses) ==> ok
    {
      ok := Reached();
      ok := ok && vs.name in vses;
      if ok {
        vses := vses[vs.name := vs];
      }
    }

    method PutPool(pool: Pool) returns (ok: bool)
      modifies this`pools
      ensures ok ==> pool.uuid in old(pools) && pools == old(pools)[pool.uuid := pool]
      ensures !ok ==> pools == old(pools)
      ensures reliable && pool.uuid in old(pools) ==> ok
    {
      ok := Reached();
      ok := ok && pool.uuid in pools;
      if ok {
        pools := pools[pool.uuid := pool];
      }
    }

    method GetVs(name: string) returns (r: Result<VirtualService>)
      ensures r.Ok? ==> name in vses && r.value == vses[name]
      ensures reliable && name in vses ==> r.Ok?
    {
      var ok := Reached();
      r := if ok && name in vses then Ok(vses[name]) else Err;
    }

    method GetPool(uuid: string) returns (r: Result<Pool>)
      ensures r.Ok? ==> uuid in pools && r.value == pools[uuid]
      ensures reliable && uuid in pools ==> r.Ok?
    {
      var ok := Reached();
      r := if ok && uuid in pools then Ok(pools[uuid]) else Err;
    }

    // Some pool with the name, if there is one.
    method FindPool(name: string) returns (r: Result<Option<Pool>>)
      ensures r.Ok? && r.value.Some? ==>
                exists u :: u in pools && r.value == Some(pools[u]) && pools[u].name == name
      ensures r.Ok? && r.value.None? ==> forall u :: u in pools ==> pools[u].name != name
      ensures reliable ==> r.Ok?
    {
      var ok := Reached();
      if !ok {
        return Err;
      }
      if u :| u in pools && pools[u].name == name {
        r := Ok(Some(pools[u]));
      } else {
        r := Ok(None);
      }
    }

    method PostPool(name: string) returns (r: Result<Pool>)
      modifies this`pools
      ensures r.Ok? ==> r.value.uuid !in old(pools) && r.value == Pool(r.value.uuid, name, None, None)
                        && pools == old(pools)[r.value.uuid := r.value]
      ensures r.Err? ==> pools == old(pools)
      ensures reliable ==> r.Ok?
    {
      var ok := Reached();
      if !ok {
        return Err;
      }
      var uuid := "pool-";
      var rest := pools.Keys;
      while rest != {}
        modifies {}
        invariant rest <= pools.Keys
        invariant forall u :: u in pools.Keys - rest ==> |u| < |uuid|
        invariant |uuid| > 0
      {
        var u :| u in rest;
        rest := rest - {u};
        uuid := uuid + u + "x";
      }
      var pool := Pool(uuid, name, None, None);
      pools := pools[uuid := pool];
      r := Ok(pool);
    }
  }

  // How the tasks and members of one call relate: what the three merges write.
  datatype PoolOp = POOL_ADD | POOL_REMOVE | POOL_RECONCILE

  // What a merge of the pool document leaves on the controller. A merge with nothing to do
  // writes nothing, not even a new name.
  ghost predicate Merged(op: PoolOp, pool: Pool, tasks: DockerTasks, pools: PoolMap, pools': PoolMap) {
    var before := GetPoolMembers(pool);
    match op
    case POOL_ADD =>
      if tasks.Keys <= Keys(before) then pools' == pools
      else exists after :: Adds(before, tasks, after) && pools' == pools[pool.uuid := pool.(servers := Some(after))]
    case POOL_REMOVE =>
      var after := Removed(before, tasks.Keys, ServerKey);
      if tasks.Keys !! Keys(before) then pools' == pools
      else pools' == pools[pool.uuid := pool.(servers := Some(after))]
    case POOL_RECONCILE =>
      exists after :: Reconciles(before, tasks, after) && pools' == pools[pool.uuid := pool.(servers := Some(after))]
  }

  class AviProvider {
    const controller: AviController
    const cloudRef: string
    const lbSuffix: string

    constructor (controller: AviController, cloudRef: string, lbSuffix: string)
      ensures this.controller == controller && this.cloudRef == cloudRef && this.lbSuffix == lbSuffix
    {
      this.controller, this.cloudRef, this.lbSuffix := controller, cloudRef, lbSuffix;
    }

    ghost predicate Valid()
      reads controller
    {
      Sound(controller.vses, controller.pools)
    }

    // New members for the tasks, taken from the map one by one.
    static method AppendTasks(servers: seq<Server>, tasks: DockerTasks) returns (all: seq<Server>)
      requires forall k :: k in tasks ==> TaskKey(tasks[k]) == k
      ensures servers <= all && Supplies(all[|servers|..], tasks, tasks.Keys)
    {
      all := servers;
      var rest := tasks.Keys;
      while rest != {}
        invariant rest <= tasks.Keys
        invariant servers <= all && Supplies(all[|servers|..], tasks, tasks.Keys - rest)
      {
        var k :| k in rest;
        rest := rest - {k};
        ghost var added := all[|servers|..];
        SupplyOneMore(added, tasks, tasks.Keys - rest - {k}, k);
        all := all + [NewServer(tasks[k])];
        assert all[|servers|..] == added + [NewServer(tasks[k])];
        assert tasks.Keys - rest == tasks.Keys - rest - {k} + {k};
      }
    }

    // The members whose task is requested, each key once, and the tasks that are left.
    static method RetainMembers(members: seq<Server>, allTasks: DockerTasks)
        returns (retained: seq<Server>, tasks: DockerTasks)
      requires HavePorts(members)
      ensures retained == Retained(members, allTasks.Keys, ServerKey)
      ensures tasks == allTasks - Keys(retained)
    {
      retained, tasks := [], allTasks;
      for i := 0 to |members|
        invariant retained == Retained(members[..i], allTasks.Keys, ServerKey)
        invariant tasks == allTasks - Keys(retained)
      {
        var server := members[i];
        RetainOneMore(members, i, allTasks, retained, tasks);
        var key := MakeKey(server.addr, Itoa(server.port.value));
        if key in tasks {
          retained := retained + [server];
          tasks := tasks - {key};
        }
      }
      assert members[..|members|] == members;
    }

    method UpdatePoolMembers(pool: Pool, allTasks: DockerTasks) returns (ok: bool)
      requires HavePorts(GetPoolMembers(pool))
      requires forall k :: k in allTasks ==> TaskKey(allTasks[k]) == k
      modifies controller`pools
      ensures ok ==> pool.uuid in old(controller.pools)
                     && Merged(POOL_RECONCILE, pool, allTasks, old(controller.pools), controller.pools)
      ensures !ok ==> controller.pools == old(controller.pools)
      ensures controller.reliable && pool.uuid in old(controller.pools) ==> ok
    {
      var aviPoolMembers := GetPoolMembers(pool);
      var retained, tasks := RetainMembers(aviPoolMembers, allTasks);
      var members := AppendTasks(retained, tasks);
      LeftTasksSupply(members[|retained|..], allTasks, tasks, Keys(retained));
      assert Reconciles(aviPoolMembers, allTasks, members);
      ok := controller.PutPool(pool.(servers := Some(members)));
    }

    static method DropMembers(members: seq<Server>, deletedTasks: DockerTasks) returns (retained: seq<Server>)
      requires HavePorts(members)
      ensures retained == Removed(members, deletedTasks.Keys, ServerKey)
    {
      retained := [];
      for i := 0 to |members|
        invariant retained == Removed(members[..i], deletedTasks.Keys, ServerKey)
      {
        var server := members[i];
        assert members[..i + 1][..i] == members[..i];
        var key := MakeKey(server.addr, Itoa(server.port.value));
        if key !in deletedTasks {
          retained := retained + [server];
        }
      }
      assert members[..|members|] == members;
    }

    method RemovePoolMembers(pool: Pool, deletedTasks: DockerTasks) returns (ok: bool)
      requires HavePorts(GetPoolMembers(pool))
      modifies controller`pools
      ensures ok ==> Merged(POOL_REMOVE, pool, deletedTasks, old(controller.pools), controller.pools)
      ensures ok && controller.pools != old(controller.pools) ==> pool.uuid in old(controller.pools)
      ensures !ok ==> controller.pools == old(controller.pools)
      ensures controller.reliable && pool.uuid in old(controller.pools) ==> ok
    {
      var currMembers := GetPoolMembers(pool);
      var retained := DropMembers(currMembers, deletedTasks);
      RemovedLength(currMembers, deletedTasks.Keys, ServerKey);
      if |currMembers| == |retained| {
        return true;
      }
      ok := controller.PutPool(pool.(servers := Some(retained)));
    }

    // The tasks that no member has.
    static method MissingTasks(members: seq<Server>, addedTasks: DockerTasks) returns (tasks: DockerTasks)
      requires HavePorts(members)
      ensures tasks == addedTasks - Keys(members)
    {
      tasks := addedTasks;
      for i := 0 to |members|
        invariant tasks == addedTasks - Keys(members[..i])
      {
        var member := members[i];
        assert members[..i + 1][..i] == members[..i];
        KeysOfLast(members[..i + 1], ServerKey);
        var key := MakeKey(member.addr, Itoa(member.port.value));
        tasks := tasks - {key};
      }
      assert members[..|members|] == members;
    }

    method AddPoolMembers(pool: Pool, addedTasks: DockerTasks) returns (ok: bool)
      requires HavePorts(GetPoolMembers(pool))
      requires forall k :: k in addedTasks ==> TaskKey(addedTasks[k]) == k
      modifies controller`pools
      ensures ok ==> Merged(POOL_ADD, pool, addedTasks, old(controller.pools), controller.pools)
      ensures ok && controller.pools != old(controller.pools) ==> pool.uuid in old(controller.pools)
      ensures !ok ==> controller.pools == old(controller.pools)
      ensures controller.reliable && pool.uuid in old(controller.pools) ==> ok
    {
      var currMembers := GetPoolMembers(pool);
      var tasks := MissingTasks(currMembers, addedTasks);
      NothingLeftIffPart(addedTasks, Keys(currMembers));
      if tasks == map[] {
        return true;
      }
      var members := AppendTasks(currMembers, tasks);
      LeftTasksSupply(members[|currMembers|..], addedTasks, tasks, Keys(currMembers));
      assert Adds(currMembers, addedTasks, members);
      ok := controller.PutPool(pool.(servers := Some(members)));
    }

    // The virtual service and its pool after making sure that there is one. A pool that already
    // carries the name of another service is refused; any other is renamed, in the fetched document.
    method CheckExistingPool(vs: VirtualService, rnchrPoolName: string) returns (r: Result<Pool>)
      requires vs.poolRef.Some?
      ensures r.Ok? ==> vs.poolRef.value in controller.pools
                        && Available(controller.pools[vs.poolRef.value], rnchrPoolName, lbSuffix)
                        && r.value == controller.pools[vs.poolRef.value].(name := rnchrPoolName)
      ensures controller.reliable && vs.poolRef.value in controller.pools ==>
                var name := controller.pools[vs.poolRef.value].name;
                (r.Ok? <==> name == rnchrPoolName || !HasSuffix(name, lbSuffix))
    {
      var aviPool := controller.GetPool(vs.poolRef.value);
      if aviPool.Err? {
        return Err;
      }
      if aviPool.value.name == rnchrPoolName {
        return aviPool;
      }
      if HasSuffix(aviPool.value.name, lbSuffix) {
        return Err;
      }
      r := Ok(aviPool.value.(name := rnchrPoolName));
    }

    method EnsurePoolExists(poolName: string) returns (r: Result<Pool>)
      modifies controller`pools
      ensures r.Ok? ==> Provided(old(controller.pools), poolName, controller.pools, r.value)
      ensures r.Err? ==> controller.pools == old(controller.pools)
      ensures r.Ok? ==> r.value.name == poolName
      ensures (exists u :: u in old(controller.pools) && old(controller.pools)[u].name == poolName) ==>
                controller.pools == old(controller.pools)
      ensures controller.reliable ==> r.Ok?
    {
      var existing := controller.FindPool(poolName);
      if existing.Err? {
        return Err;
      }
      if existing.value.Some? {
        return Ok(existing.value.value);
      }
      r := controller.PostPool(poolName);
    }

    method EnsureVsHasPool(vs: VirtualService, poolName: string)
        returns (r: Result<(VirtualService, Pool)>, ghost found: Pool)
      requires Valid() && vs.name in controller.vses && vs == controller.vses[vs.name]
      modifies controller
      ensures Valid() && Evolves(old(controller.vses), old(controller.pools), controller.vses, controller.pools, lbSuffix)
      ensures r.Ok? ==>
                && Prepared(old(controller.vses), old(controller.pools), vs.name, poolName, lbSuffix,
                            controller.vses, controller.pools, found)
                && r.value == (controller.vses[vs.name], found.(name := poolName))
      ensures r.Err? ==> Unprepared(old(controller.vses), old(controller.pools), vs.name, poolName,
                                    controller.vses, controller.pools)
      ensures controller.reliable ==>
                (r.Ok? <==> Claimable(old(controller.vses), old(controller.pools), vs.name, poolName, lbSuffix))
    {
      found := Pool("", "", None, None);
      if vs.poolRef.None? {
        var pool := EnsurePoolExists(poolName);
        if pool.Err? {
          return Err, found;
        }
        found := pool.value;
        var vs' := vs.(poolRef := Some(pool.value.uuid));
        var ok := controller.PutVs(vs');
        if !ok {
          return Err, found;
        }
        return Ok((vs', pool.value)), found;
      }
      var pool := CheckExistingPool(vs, poolName);
      if pool.Err? {
        return Err, found;
      }
      found := controller.pools[vs.poolRef.value];
      r := Ok((vs, pool.value));
    }

    method ConvergePoolMembers(pool: Pool, config: LBConfig, op: PoolOp) returns (ok: bool)
      requires HavePorts(GetPoolMembers(pool))
      modifies controller`pools
      ensures ok ==> Merged(op, pool, TasksOf(config.targets), old(controller.pools), controller.pools)
      ensures controller.pools != old(controller.pools) ==> ok && pool.uuid in old(controller.pools)
      ensures controller.reliable && pool.uuid in old(controller.pools) ==> ok
    {
      var dockerTasks: DockerTasks := map[];
      for i := 0 to |config.targets|
        modifies {}
        invariant dockerTasks == TasksOf(config.targets[..i])
        invariant forall k :: k in dockerTasks ==> TaskKey(dockerTasks[k]) == k
      {
        assert config.targets[..i + 1][..i] == config.targets[..i];
        var dt := DockerTask(config.targets[i].hostIP, Atoi(config.targets[i].port));
        dockerTasks := dockerTasks[TaskKey(dt) := dt];
      }
      assert config.targets[..|config.targets|] == config.targets;
      match op {
        case POOL_ADD => ok := AddPoolMembers(pool, dockerTasks);
        case POOL_REMOVE => ok := RemovePoolMembers(pool, dockerTasks);
        case POOL_RECONCILE => ok := UpdatePoolMembers(pool, dockerTasks);
      }
    }

    method UpdateLBConfig(config: LBConfig) returns (r: Result<string>, ghost found: Pool)
      requires Valid()
      modifies controller
      ensures Valid() && Evolves(old(controller.vses), old(controller.pools), controller.vses, controller.pools, lbSuffix)
      ensures r.Ok? ==>
                && Done(POOL_RECONCILE, old(controller.vses), old(controller.pools), config, lbSuffix,
                        controller.vses, controller.pools, found)
                && var vs := old(controller.vses)[config.endpoint];
                   && (vs.fqdn != "" ==> r.value == vs.fqdn)
                   && (vs.fqdn == "" && vs.dnsName.Some? ==> r.value == vs.dnsName.value)
                   && (vs.fqdn == "" && vs.dnsName.None? ==> r.value == "")
      ensures r.Err? ==>
                || Unprepared(old(controller.vses), old(controller.pools), config.endpoint, config.poolName,
                              controller.vses, controller.pools)
                || Prepared(old(controller.vses), old(controller.pools), config.endpoint, config.poolName, lbSuffix,
                            controller.vses, controller.pools, found)
      ensures controller.reliable ==>
                (r.Ok? <==> Claimable(old(controller.vses), old(controller.pools), config.endpoint, config.poolName,
                                      lbSuffix))
    {
      found := Pool("", "", None, None);
      var vs := controller.GetVs(config.endpoint);
      if vs.Err? {
        return Err, found;
      }
      ghost var vses, pools := controller.vses, controller.pools;
      var prepared;
      prepared, found := EnsureVsHasPool(vs.value, config.poolName);
      if prepared.Err? {
        return Err, found;
      }
      ghost var mid := controller.pools;
      var ok := ConvergePoolMembers(prepared.value.1, config, POOL_RECONCILE);
      MergeKeepsShape(POOL_RECONCILE, vses, pools, config, lbSuffix, controller.vses, mid, found,
                      controller.pools, ok);
      if !ok {
        return Err, found;
      }
      r := Ok(VsFqdn(prepared.value.0));
    }

    // An add whose members cannot be written is reported as done, with no name.
    method AddLBConfig(config: LBConfig) returns (r: Result<string>, ghost found: Pool, ghost converged: bool)
      requires Valid()
      modifies controller
      ensures Valid() && Evolves(old(controller.vses), old(controller.pools), controller.vses, controller.pools, lbSuffix)
      ensures r.Ok? && converged ==>
                && Added(old(controller.vses), old(controller.pools), config, lbSuffix,
                         controller.vses, controller.pools, found)
                && var vs := old(controller.vses)[config.endpoint];
                   && (vs.fqdn != "" ==> r.value == vs.fqdn)
                   && (vs.fqdn == "" && vs.dnsName.Some? ==> r.value == vs.dnsName.value)
                   && (vs.fqdn == "" && vs.dnsName.None? ==> r.value == "")
      ensures r.Ok? && !converged ==>
                && r.value == ""
                && Prepared(old(controller.vses), old(controller.pools), config.endpoint, config.poolName, lbSuffix,
                            controller.vses, controller.pools, found)
      ensures r.Err? ==>
                || Unprepared(old(controller.vses), old(controller.pools), config.endpoint, config.poolName,
                              controller.vses, controller.pools)
                || Done(POOL_ADD, old(controller.vses), old(controller.pools), config, lbSuffix,
                        controller.vses, controller.pools, found)
      ensures controller.reliable ==>
                && (r.Ok? <==> Claimable(old(controller.vses), old(controller.pools), config.endpoint, config.poolName,
                                      lbSuffix))
                && (r.Ok? ==> converged)
    {
      found, converged := Pool("", "", None, None), false;
      var vs := controller.GetVs(config.endpoint);
      if vs.Err? {
        return Err, found, converged;
      }
      ghost var vses, pools := controller.vses, controller.pools;
      var prepared;
      prepared, found := EnsureVsHasPool(vs.value, config.poolName);
      if prepared.Err? {
        return Err, found, converged;
      }
      ghost var mid := controller.pools;
      var ok := ConvergePoolMembers(prepared.value.1, config, POOL_ADD);
      converged := ok;
      MergeKeepsShape(POOL_ADD, vses, pools, config, lbSuffix, controller.vses, mid, found,
                      controller.pools, ok);
      if !ok {
        return Ok(""), found, converged;
      }
      assert Done(POOL_ADD, vses, pools, config, lbSuffix, controller.vses, controller.pools, found);
      var put := UpdateVsMetadata(prepared.value.0);
      r := if put then Ok(VsFqdn(prepared.value.0)) else Err;
    }

    method UpdateVsMetadata(vs: VirtualService) returns (ok: bool)
      requires Valid() && vs.name in controller.vses && vs == controller.vses[vs.name] && vs.poolRef.Some?
      modifies controller`vses
      ensures Valid()
      ensures Evolves(old(controller.vses), controller.pools, controller.vses, controller.pools, lbSuffix)
      ensures ok ==> controller.vses == old(controller.vses)[vs.name := vs.(serviceMetadata := Some(lbSuffix))]
      ensures !ok ==> controller.vses == old(controller.vses)
      ensures controller.reliable ==> ok
    {
      if VsHasMetadata(vs, lbSuffix) {
        assert vs.(serviceMetadata := Some(lbSuffix)) == vs;
        return true;
      }
      ok := controller.PutVs(vs.(serviceMetadata := Some(lbSuffix)));
    }

    method RemoveLBConfig(config: LBConfig) returns (ok: bool, ghost found: Pool)
      requires Valid()
      modifies controller
      ensures Valid() && Evolves(old(controller.vses), old(controller.pools), controller.vses, controller.pools, lbSuffix)
      ensures controller.vses == old(controller.vses)
      ensures ok ==>
                && config.endpoint in old(controller.vses)
                && if old(controller.vses)[config.endpoint].poolRef.None? then controller.pools == old(controller.pools)
                   else Done(POOL_REMOVE, old(controller.vses), old(controller.pools), config, lbSuffix,
                             controller.vses, controller.pools, found)
      ensures !ok ==> controller.pools == old(controller.pools)
      ensures controller.reliable ==>
                (ok <==> Claimable(old(controller.vses), old(controller.pools), config.endpoint, config.poolName,
                                   lbSuffix))
    {
      found := Pool("", "", None, None);
      var vs := controller.GetVs(config.endpoint);
      if vs.Err? {
        return false, found;
      }
      if vs.value.poolRef.None? {
        return true, found;
      }
      var pool := CheckExistingPool(vs.value, config.poolName);
      if pool.Err? {
        return false, found;
      }
      ghost var vses, pools := controller.vses, controller.pools;
      found := pools[vs.value.poolRef.value];
      ok := ConvergePoolMembers(pool.value, config, POOL_REMOVE);
      MergeKeepsShape(POOL_REMOVE, vses, pools, config, lbSuffix, controller.vses, pools, found,
                      controller.pools, ok);
    }

    method FormLBConfig(vs: VirtualService, pool: Pool) returns (c: LBConfig)
      ensures c == LBConfig(vs.name, pool.name, DefaultPort(pool), PoolTargets(pool))
      ensures c.targetPort == if pool.defaultPort.Some? then Itoa(pool.defaultPort.value) else ""
      ensures |c.targets| == |GetPoolMembers(pool)|
      ensures forall i :: 0 <= i < |c.targets| ==>
                var member := GetPoolMembers(pool)[i];
                && c.targets[i].hostIP == member.addr
                && c.targets[i].port == if member.port.Some? then Itoa(member.port.value)
                                        else if pool.defaultPort.Some? then Itoa(pool.defaultPort.value) else ""
    {
      var lbTargets: seq<LBTarget> := [];
      var defaultPort := DefaultPort(pool);
      var currMembers := GetPoolMembers(pool);
      for i := 0 to |currMembers|
        invariant lbTargets == ReadTargets(currMembers[..i], defaultPort)
      {
        var server := currMembers[i];
        var targetPort := defaultPort;
        if server.port.Some? {
          targetPort := Itoa(server.port.value);
        }
        lbTargets := lbTargets + [LBTarget(server.addr, targetPort)];
      }
      c := LBConfig(vs.name, pool.name, defaultPort, lbTargets);
    }

    // One configuration for each associated virtual service.
    method GetLBConfigs() returns (r: Result<seq<LBConfig>>)
      requires Valid() && Listable(controller.vses, cloudRef, lbSuffix)
      ensures r.Ok? ==> Lists(r.value, Listing(controller.vses, controller.pools, cloudRef, lbSuffix))
      ensures r.Ok? ==> forall n ::
                Listed(r.value, n) <==>
                && n in controller.vses
                && controller.vses[n].cloudRef == Some(cloudRef) && controller.vses[n].serviceMetadata == Some(lbSuffix)
      ensures controller.reliable ==> r.Ok?
    {
      var ok := controller.Reached();
      if !ok {
        return Err;
      }
      ghost var store := Listing(controller.vses, controller.pools, cloudRef, lbSuffix);
      var lbConfigs: seq<LBConfig> := [];
      var rest := controller.vses.Keys;
      while rest != {}
        invariant rest <= controller.vses.Keys
        invariant ListsPart(lbConfigs, store, controller.vses.Keys - rest)
      {
        var n :| n in rest;
        ghost var visited := controller.vses.Keys - rest;
        rest := rest - {n};
        assert controller.vses.Keys - rest == visited + {n};
        var vs := controller.vses[n];
        ListedWhenAssociated(controller.vses, controller.pools, cloudRef, lbSuffix, n);
        if !IsAssociatedVs(vs, cloudRef, lbSuffix) {
          ListNoMore(lbConfigs, store, visited, n);
          continue;
        }
        var pool := controller.GetPool(vs.poolRef.value);
        if pool.Err? {
          return Err;
        }
        var lbConfig := FormLBConfig(vs, pool.value);
        ListOneMore(lbConfigs, store, visited, lbConfig);
        lbConfigs := lbConfigs + [lbConfig];
      }
      forall n { ListedMeans(lbConfigs, controller.vses, controller.pools, cloudRef, lbSuffix, n); }
      r := Ok(lbConfigs);
    }
  }

  // ----- the relations between the documents before and after a call

  // A pool that may carry the name: it already does, or no service of this suffix claims it.
  predicate Available(pool: Pool, poolName: string, lbSuffix: string) {
    pool.name == poolName || !HasSuffix(pool.name, lbSuffix)
  }

  // A pool of the name, adopted or created.
  ghost predicate Provided(pools: PoolMap, poolName: string, pools': PoolMap, found: Pool) {
    || (pools' == pools && found.name == poolName && exists u :: u in pools && pools[u] == found)
    || (&& (forall u :: u in pools ==> pools[u].name != poolName)
        && found.uuid !in pools && found == Pool(found.uuid, poolName, None, None)
        && pools' == pools[found.uuid := found])
  }

  ghost predicate Prepared(vses: VsMap, pools: PoolMap, e: string, poolName: string, lbSuffix: string,
                           vses': VsMap, pools': PoolMap, found: Pool) {
    && e in vses
    && if vses[e].poolRef.Some? then
         && vses' == vses && pools' == pools
         && vses[e].poolRef.value in pools && found == pools[vses[e].poolRef.value]
         && Available(found, poolName, lbSuffix)
       else
         vses' == vses[e := vses[e].(poolRef := Some(found.uuid))] && Provided(pools, poolName, pools', found)
  }

  // A call that failed before there was a pool to write: at most a pool of the name was created.
  ghost predicate Unprepared(vses: VsMap, pools: PoolMap, e: string, poolName: string, vses': VsMap, pools': PoolMap) {
    && vses' == vses
    && (|| pools' == pools
        || (e in vses && vses[e].poolRef.None? && exists found :: Provided(pools, poolName, pools', found)))
  }

  // The virtual service exists and its pool, if it has one, may carry the name.
  predicate Claimable(vses: VsMap, pools: PoolMap, e: string, poolName: string, lbSuffix: string) {
    && e in vses
    && (vses[e].poolRef.Some? ==>
          vses[e].poolRef.value in pools && Available(pools[vses[e].poolRef.value], poolName, lbSuffix))
  }

  ghost predicate Done(op: PoolOp, vses: VsMap, pools: PoolMap, config: LBConfig, lbSuffix: string,
                       vses': VsMap, pools': PoolMap, found: Pool) {
    exists mid :: Prepared(vses, pools, config.endpoint, config.poolName, lbSuffix, vses', mid, found)
                  && Merged(op, found.(name := config.poolName), TasksOf(config.targets), mid, pools')
  }

  // A completed add also marks the virtual service as associated.
  ghost predicate Added(vses: VsMap, pools: PoolMap, config: LBConfig, lbSuffix: string,
                        vses': VsMap, pools': PoolMap, found: Pool) {
    exists vses1: VsMap ::
      && Done(POOL_ADD, vses, pools, config, lbSuffix, vses1, pools', found)
      && config.endpoint in vses1
      && vses' == vses1[config.endpoint := vses1[config.endpoint].(serviceMetadata := Some(lbSuffix))]
  }

  lemma MergedPools(op: PoolOp, pool: Pool, tasks: DockerTasks, pools: PoolMap, pools': PoolMap)
    requires Merged(op, pool, tasks, pools, pools') && HavePorts(GetPoolMembers(pool))
    ensures pools' == pools || exists after ::
              HavePorts(after) && pools' == pools[pool.uuid := pool.(servers := Some(after))]
  {
    if pools' != pools {
      var before := GetPoolMembers(pool);
      var after: seq<Server> :|
        && pools' == pools[pool.uuid := pool.(servers := Some(after))]
        && (|| Reconciles(before, tasks, after)
            || Adds(before, tasks, after)
            || after == Removed(before, tasks.Keys, ServerKey));
      MergedHavePorts(before, tasks, after);
    }
  }

  // Listed are the virtual services of the cloud that carry the suffix as their metadata.
  lemma ListedMeans(listed: seq<LBConfig>, vses: VsMap, pools: PoolMap, cloudRef: string, lbSuffix: string, n: string)
    requires Sound(vses, pools) && Listable(vses, cloudRef, lbSuffix)
    requires Lists(listed, Listing(vses, pools, cloudRef, lbSuffix))
    ensures Listed(listed, n) <==>
            n in vses && vses[n].cloudRef == Some(cloudRef) && vses[n].serviceMetadata == Some(lbSuffix)
  {
    if n in vses {
      ListedWhenAssociated(vses, pools, cloudRef, lbSuffix, n);
    }
    assert Listed(listed, n) ==> n in Listing(vses, pools, cloudRef, lbSuffix);
  }

  // A virtual service without a pool gets the pool that has the name already, if there is one.
  lemma PreparedAdopts(vses: VsMap, pools: PoolMap, e: string, poolName: string, lbSuffix: string,
                       vses': VsMap, pools': PoolMap, found: Pool, u: string)
    requires Sound(vses, pools)
    requires Prepared(vses, pools, e, poolName, lbSuffix, vses', pools', found)
    requires vses[e].poolRef.None? && u in pools && pools[u].name == poolName
    ensures pools' == pools && found.uuid in pools && pools[found.uuid] == found && found.name == poolName
    ensures vses'[e].poolRef == Some(found.uuid)
  {
  }

  lemma ListedWhenAssociated(vses: VsMap, pools: PoolMap, cloudRef: string, lbSuffix: string, n: string)
    requires Sound(vses, pools) && Listable(vses, cloudRef, lbSuffix) && n in vses
    ensures n in Listing(vses, pools, cloudRef, lbSuffix) <==> IsAssociatedVs(vses[n], cloudRef, lbSuffix)
    ensures IsAssociatedVs(vses[n], cloudRef, lbSuffix) ==>
              && vses[n].poolRef.Some? && vses[n].poolRef.value in pools
              && var pool := pools[vses[n].poolRef.value];
                 Listing(vses, pools, cloudRef, lbSuffix)[n] == Entry(pool.name, multiset(PoolTargets(pool)))
  {
  }

  // Writing a pool under a name that is available to it, with members that carry ports, keeps the shape.
  lemma PutKeepsShape(vses: VsMap, pools: PoolMap, vses': VsMap, mid: PoolMap, pool: Pool, lbSuffix: string)
    requires Sound(vses', mid) && Evolves(vses, pools, vses', mid, lbSuffix)
    requires pool.uuid in mid && Available(mid[pool.uuid], pool.name, lbSuffix) && HavePorts(GetPoolMembers(pool))
    ensures Sound(vses', mid[pool.uuid := pool]) && Evolves(vses, pools, vses', mid[pool.uuid := pool], lbSuffix)
  {
    if pool.uuid in pools && HasSuffix(pools[pool.uuid].name, lbSuffix) {
      assert mid[pool.uuid].name == pools[pool.uuid].name;
    }
  }

  lemma MergeKeepsShape(op: PoolOp, vses: VsMap, pools: PoolMap, config: LBConfig, lbSuffix: string,
                        vses': VsMap, mid: PoolMap, found: Pool, pools': PoolMap, ok: bool)
    requires Sound(vses', mid) && Evolves(vses, pools, vses', mid, lbSuffix)
    requires Prepared(vses, pools, config.endpoint, config.poolName, lbSuffix, vses', mid, found)
    requires if ok then Merged(op, found.(name := config.poolName), TasksOf(config.targets), mid, pools')
             else pools' == mid
    ensures Sound(vses', pools') && Evolves(vses, pools, vses', pools', lbSuffix)
  {
    var pool := found.(name := config.poolName);
    assert found.uuid in mid && mid[found.uuid] == found && Available(found, config.poolName, lbSuffix);
    if pools' != mid {
      MergedPools(op, pool, TasksOf(config.targets), mid, pools');
      var after: seq<Server> :| HavePorts(after) && pools' == mid[pool.uuid := pool.(servers := Some(after))];
      PutKeepsShape(vses, pools, vses', mid, pool.(servers := Some(after)), lbSuffix);
    }
  }

  function VsFqdn(vs: VirtualService): string {
    if vs.fqdn != "" then vs.fqdn else if vs.dnsName.Some? then vs.dnsName.value else ""
  }
}
