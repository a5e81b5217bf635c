/** How far the Avi provider is the store that the reconcile assumes. */
module AviStore {
  import opened Avi
  import opened AviMembers
  import opened Merging
  import opened Model
  import opened Rounds
  import opened Seqs
  import opened Text

  // What the claims about read-back need: ports in printed form, members with non-negative ports,
  // and no other virtual service on the same pool.
  ghost predicate ReadsBack(config: LBConfig, found: Pool) {
    Canonical(config.targets) && Ported(GetPoolMembers(found))
  }

  ghost predicate Unshared(vses: VsMap, e: string)
    requires e in vses
  {
    forall n :: n in vses && n != e ==> vses[n].poolRef.None? || vses[n].poolRef != vses[e].poolRef
  }

  // The entry a listing shows after exactly the requested targets were written.
  function WrittenEntry(config: LBConfig): Entry {
    Entry(config.poolName, multiset(Elements(config.targets)))
  }

  // Writing the document of an unshared pool changes the listing at its virtual service alone.
  lemma ListingFrame(vses: VsMap, pools: PoolMap, vses': VsMap, pools': PoolMap, cloudRef: string, lbSuffix: string,
                     e: string, pool: Pool)
    requires e in vses' && vses'.Keys == vses.Keys && Unshared(vses', e)
    requires forall n :: n in vses && n != e ==> vses'[n] == vses[n]
    requires IsAssociatedVs(vses'[e], cloudRef, lbSuffix) && vses'[e].poolRef == Some(pool.uuid)
    requires Sound(vses, pools) && pool.uuid in pools' && pools'[pool.uuid] == pool
    requires forall u :: u in pools && u != pool.uuid ==> u in pools' && pools'[u] == pools[u]
    ensures Listing(vses', pools', cloudRef, lbSuffix)
         == Listing(vses, pools, cloudRef, lbSuffix)[e := Entry(pool.name, multiset(PoolTargets(pool)))]
  {
    var before, after := Listing(vses, pools, cloudRef, lbSuffix), Listing(vses', pools', cloudRef, lbSuffix);
    forall n ensures Lookup(after, n) == Lookup(before[e := Entry(pool.name, multiset(PoolTargets(pool)))], n) {
      if n in vses && n != e && vses[n].poolRef.Some? {
        assert vses'[n].poolRef != vses'[e].poolRef;
      }
    }
    SameLookupsSameStore(after, before[e := Entry(pool.name, multiset(PoolTargets(pool)))]);
  }

  // Members that are exactly the requested ones are those whose entry is the requested one.
  lemma EntryExact(config: LBConfig, pool: Pool)
    requires Canonical(config.targets) && Ported(GetPoolMembers(pool))
    ensures Entry(pool.name, multiset(PoolTargets(pool))) == WrittenEntry(config)
       <==> && pool.name == config.poolName
            && DistinctKeys(GetPoolMembers(pool)) && Keys(GetPoolMembers(pool)) == TasksOf(config.targets).Keys
  {
    ReadBackExact(GetPoolMembers(pool), config.targets, DefaultPort(pool));
    PermutesSet(PoolTargets(pool), Elements(config.targets));
  }

  lemma MergedPorted(before: seq<Server>, ts: seq<LBTarget>, after: seq<Server>)
    requires Ported(before) && Canonical(ts)
    requires Reconciles(before, TasksOf(ts), after) || Adds(before, TasksOf(ts), after)
    ensures Ported(after)
  {
    var tasks := TasksOf(ts);
    TaskKeysExact(ts);
    forall s | s in after ensures s.port.Some? && s.port.value >= 0 {
      KeptItems(before, tasks.Keys, ServerKey, s);
      if Reconciles(before, tasks, after) {
        PrefixOrRest(Retained(before, tasks.Keys, ServerKey), after, s);
      } else {
        PrefixOrRest(before, after, s);
      }
    }
  }

  // A successful update of an associated virtual service, whether it has a pool already or not, makes
  // the listing show the requested pool name and exactly the requested targets, and leaves every other
  // endpoint as it was.
  lemma UpdateIsFaithful(vses: VsMap, pools: PoolMap, config: LBConfig, vses': VsMap, pools': PoolMap, found: Pool,
                         cloudRef: string, lbSuffix: string)
    requires Sound(vses, pools)
    requires Done(POOL_RECONCILE, vses, pools, config, lbSuffix, vses', pools', found)
    requires config.endpoint in vses' && IsAssociatedVs(vses[config.endpoint], cloudRef, lbSuffix)
    requires ReadsBack(config, found) && Unshared(vses', config.endpoint)
    ensures Listing(vses', pools', cloudRef, lbSuffix)
         == Listing(vses, pools, cloudRef, lbSuffix)[config.endpoint := WrittenEntry(config)]
    ensures Distinct(config.targets) ==>
              Listing(vses', pools', cloudRef, lbSuffix)
              == Apply(Listing(vses, pools, cloudRef, lbSuffix), Update(config), {})
  {
    var mid := PreparedDocuments(POOL_RECONCILE, vses, pools, config, vses', pools', found, lbSuffix);
    ReconciledPool(config, found, mid, pools');
    EntryExact(config, pools'[found.uuid]);
    ListingFrame(vses, pools, vses', pools', cloudRef, lbSuffix, config.endpoint, pools'[found.uuid]);
    PermutesSet(config.targets, Elements(config.targets));
  }

  // The documents of a call before its merge, and what it leaves of the virtual services.
  lemma PreparedDocuments(op: PoolOp, vses: VsMap, pools: PoolMap, config: LBConfig, vses': VsMap, pools': PoolMap,
                          found: Pool, lbSuffix: string) returns (mid: PoolMap)
    requires Sound(vses, pools)
    requires Done(op, vses, pools, config, lbSuffix, vses', pools', found)
    ensures found.uuid in mid && mid[found.uuid] == found
    ensures Merged(op, found.(name := config.poolName), TasksOf(config.targets), mid, pools')
    ensures forall u :: u in pools ==> u in mid && mid[u] == pools[u]
    ensures config.endpoint in vses && vses'.Keys == vses.Keys
    ensures forall n :: n in vses && n != config.endpoint ==> vses'[n] == vses[n]
    ensures vses'[config.endpoint] == vses[config.endpoint].(poolRef := Some(found.uuid))
  {
    mid :| Prepared(vses, pools, config.endpoint, config.poolName, lbSuffix, vses', mid, found)
           && Merged(op, found.(name := config.poolName), TasksOf(config.targets), mid, pools');
  }

  // The pool document an update leaves behind.
  lemma ReconciledPool(config: LBConfig, found: Pool, mid: PoolMap, pools': PoolMap)
    requires found.uuid in mid && mid[found.uuid] == found
    requires Merged(POOL_RECONCILE, found.(name := config.poolName), TasksOf(config.targets), mid, pools')
    requires ReadsBack(config, found)
    ensures found.uuid in pools' && pools'[found.uuid].uuid == found.uuid && pools'[found.uuid].name == config.poolName
    ensures forall u :: u in mid && u != found.uuid ==> u in pools' && pools'[u] == mid[u]
    ensures Ported(GetPoolMembers(pools'[found.uuid]))
    ensures DistinctKeys(GetPoolMembers(pools'[found.uuid]))
    ensures Keys(GetPoolMembers(pools'[found.uuid])) == TasksOf(config.targets).Keys
  {
    var before, tasks := GetPoolMembers(found), TasksOf(config.targets);
    var after :| Reconciles(before, tasks, after)
                 && pools' == mid[found.uuid := found.(name := config.poolName, servers := Some(after))];
    assert GetPoolMembers(pools'[found.uuid]) == after;
    ReconcileExact(before, tasks, after);
    MergedPorted(before, config.targets, after);
  }

  // When an add meets no member to write it writes nothing, and it never drops a member.
  ghost predicate AddFits(config: LBConfig, found: Pool) {
    var members, wanted := GetPoolMembers(found), TasksOf(config.targets).Keys;
    && DistinctKeys(members) && Keys(members) <= wanted
    && (found.name == config.poolName || !(wanted <= Keys(members)))
  }

  // So a completed add makes the listing show the requested entry exactly when the pool it found holds
  // only requested members, each once, and has the name already or lacks some member.
  lemma AddFaithfulIffFits(vses: VsMap, pools: PoolMap, config: LBConfig, vses': VsMap, pools': PoolMap, found: Pool,
                           cloudRef: string, lbSuffix: string)
    requires Sound(vses, pools)
    requires Added(vses, pools, config, lbSuffix, vses', pools', found)
    requires config.endpoint in vses && config.endpoint in vses'
    requires VsFromCloud(vses[config.endpoint], cloudRef)
    requires ReadsBack(config, found) && Unshared(vses', config.endpoint)
    ensures Listing(vses', pools', cloudRef, lbSuffix)
         == Listing(vses, pools, cloudRef, lbSuffix)[config.endpoint := WrittenEntry(config)]
       <==> AddFits(config, found)
  {
    var mid := AddedDocuments(vses, pools, config, vses', pools', found, cloudRef, lbSuffix);
    AddedPool(config, found, mid, pools');
    var pool := pools'[found.uuid];
    EntryExact(config, pool);
    ListingFrame(vses, pools, vses', pools', cloudRef, lbSuffix, config.endpoint, pool);
    EntryAt(Listing(vses, pools, cloudRef, lbSuffix), config.endpoint,
            Entry(pool.name, multiset(PoolTargets(pool))), WrittenEntry(config));
  }

  // The documents of a completed add before its merge, and what it leaves of the virtual services.
  lemma AddedDocuments(vses: VsMap, pools: PoolMap, config: LBConfig, vses': VsMap, pools': PoolMap, found: Pool,
                       cloudRef: string, lbSuffix: string) returns (mid: PoolMap)
    requires Sound(vses, pools)
    requires Added(vses, pools, config, lbSuffix, vses', pools', found)
    requires config.endpoint in vses && VsFromCloud(vses[config.endpoint], cloudRef)
    ensures found.uuid in mid && mid[found.uuid] == found
    ensures Merged(POOL_ADD, found.(name := config.poolName), TasksOf(config.targets), mid, pools')
    ensures forall u :: u in pools ==> u in mid && mid[u] == pools[u]
    ensures vses'.Keys == vses.Keys && forall n :: n in vses && n != config.endpoint ==> vses'[n] == vses[n]
    ensures vses'[config.endpoint].poolRef == Some(found.uuid)
    ensures IsAssociatedVs(vses'[config.endpoint], cloudRef, lbSuffix)
  {
    var e := config.endpoint;
    var vses1: VsMap :| Done(POOL_ADD, vses, pools, config, lbSuffix, vses1, pools', found) && e in vses1
                        && vses' == vses1[e := vses1[e].(serviceMetadata := Some(lbSuffix))];
    mid := PreparedDocuments(POOL_ADD, vses, pools, config, vses1, pools', found, lbSuffix);
  }

  // The pool document an add leaves behind.
  lemma AddedPool(config: LBConfig, found: Pool, mid: PoolMap, pools': PoolMap)
    requires found.uuid in mid && mid[found.uuid] == found
    requires Merged(POOL_ADD, found.(name := config.poolName), TasksOf(config.targets), mid, pools')
    requires ReadsBack(config, found)
    ensures found.uuid in pools' && pools'[found.uuid].uuid == found.uuid
    ensures forall u :: u in mid && u != found.uuid ==> u in pools' && pools'[u] == mid[u]
    ensures Ported(GetPoolMembers(pools'[found.uuid]))
    ensures AddFits(config, found) <==>
              && pools'[found.uuid].name == config.poolName
              && DistinctKeys(GetPoolMembers(pools'[found.uuid]))
              && Keys(GetPoolMembers(pools'[found.uuid])) == TasksOf(config.targets).Keys
  {
    var before, tasks := GetPoolMembers(found), TasksOf(config.targets);
    if !(tasks.Keys <= Keys(before)) {
      var after :| Adds(before, tasks, after)
                   && pools' == mid[found.uuid := found.(name := config.poolName, servers := Some(after))];
      assert GetPoolMembers(pools'[found.uuid]) == after;
      MergedPorted(before, config.targets, after);
      AddExact(before, tasks, after);
    }
  }

  // The documents a completed remove leaves behind.
  lemma RemovedDocuments(vses: VsMap, pools: PoolMap, config: LBConfig, pools': PoolMap, found: Pool, lbSuffix: string)
    requires Sound(vses, pools)
    requires Done(POOL_REMOVE, vses, pools, config, lbSuffix, vses, pools', found)
    requires vses[config.endpoint].poolRef.Some?
    ensures found.uuid in pools && pools[found.uuid] == found && vses[config.endpoint].poolRef == Some(found.uuid)
    ensures var before, unwanted := GetPoolMembers(found), TasksOf(config.targets).Keys;
            pools' == if unwanted !! Keys(before) then pools
                      else pools[found.uuid := found.(name := config.poolName,
                                                      servers := Some(Removed(before, unwanted, ServerKey)))]
  {
    assert Merged(POOL_REMOVE, found.(name := config.poolName), TasksOf(config.targets), pools, pools');
  }

  // After a completed remove the members of the pool are the old ones, unmodified and in order, whose address
  // and port are no target's: position i of them was position at[i].
  lemma RemovedMembers(vses: VsMap, pools: PoolMap, config: LBConfig, pools': PoolMap, found: Pool, lbSuffix: string)
      returns (at: seq<nat>)
    requires Sound(vses, pools)
    requires Done(POOL_REMOVE, vses, pools, config, lbSuffix, vses, pools', found)
    requires vses[config.endpoint].poolRef.Some? && ReadsBack(config, found)
    ensures found.uuid in pools && pools[found.uuid] == found && vses[config.endpoint].poolRef == Some(found.uuid)
    ensures found.uuid in pools' && Subsequence(GetPoolMembers(pools'[found.uuid]), GetPoolMembers(found), at)
    ensures forall i: nat :: i < |GetPoolMembers(found)| ==>
              (i in at <==>
               LBTarget(GetPoolMembers(found)[i].addr, Itoa(GetPoolMembers(found)[i].port.value)) !in config.targets)
    ensures forall u :: u in pools && u != found.uuid ==> u in pools' && pools'[u] == pools[u]
  {
    var before, unwanted := GetPoolMembers(found), TasksOf(config.targets).Keys;
    RemovedDocuments(vses, pools, config, pools', found, lbSuffix);
    RemovedLength(before, unwanted, ServerKey);
    at := RemovedInOrder(before, unwanted, ServerKey);
    forall i: nat | i < |before|
      ensures i in at <==> LBTarget(before[i].addr, Itoa(before[i].port.value)) !in config.targets
    {
      KeyOfTarget(before[i], config.targets);
    }
  }

  // So the listing shows the endpoint with its old targets less the given ones, under the given name if there
  // was any to take away, and nothing else changes.
  lemma RemoveIsExact(vses: VsMap, pools: PoolMap, config: LBConfig, pools': PoolMap, found: Pool,
                      cloudRef: string, lbSuffix: string)
    requires Sound(vses, pools)
    requires Done(POOL_REMOVE, vses, pools, config, lbSuffix, vses, pools', found)
    requires vses[config.endpoint].poolRef.Some? && IsAssociatedVs(vses[config.endpoint], cloudRef, lbSuffix)
    requires ReadsBack(config, found) && Unshared(vses, config.endpoint)
    ensures var before, after := Listing(vses, pools, cloudRef, lbSuffix), Listing(vses, pools', cloudRef, lbSuffix);
            var e := config.endpoint;
            && e in before && e in after && after == before[e := after[e]]
            && (forall t :: after[e].targets[t] == if t in config.targets then 0 else before[e].targets[t])
            && after[e].poolName == if exists t :: t in config.targets && t in before[e].targets
                                    then config.poolName else before[e].poolName
  {
    var e, members := config.endpoint, GetPoolMembers(found);
    RemovedDocuments(vses, pools, config, pools', found, lbSuffix);
    RemovedLength(members, TasksOf(config.targets).Keys, ServerKey);
    NothingToRemove(members, config.targets, DefaultPort(found));
    var pool := pools'[found.uuid];
    ListingFrame(vses, pools, vses, pools', cloudRef, lbSuffix, e, pool);
    assert GetPoolMembers(pool) == Removed(members, TasksOf(config.targets).Keys, ServerKey);
    forall t
      ensures multiset(PoolTargets(pool))[t] == if t in config.targets then 0 else multiset(PoolTargets(found))[t]
    {
      RemovedTargets(members, config.targets, DefaultPort(found), t);
    }
    assert Listing(vses, pools, cloudRef, lbSuffix)[e] == Entry(found.name, multiset(PoolTargets(found)));
  }

  // A remove only takes members out of the pool: whatever it was given, the same endpoints stay
  // listed, and owned pools keep their names.
  lemma RemoveNeverDelists(vses: VsMap, pools: PoolMap, config: LBConfig, pools': PoolMap, found: Pool,
                           cloudRef: string, lbSuffix: string)
    requires Sound(vses, pools)
    requires Done(POOL_REMOVE, vses, pools, config, lbSuffix, vses, pools', found)
    requires vses[config.endpoint].poolRef.Some?
    ensures Listing(vses, pools', cloudRef, lbSuffix).Keys == Listing(vses, pools, cloudRef, lbSuffix).Keys
    ensures forall n :: n in Listing(vses, pools, cloudRef, lbSuffix)
                        && HasSuffix(Listing(vses, pools, cloudRef, lbSuffix)[n].poolName, lbSuffix)
              ==> Listing(vses, pools', cloudRef, lbSuffix)[n].poolName
                  == Listing(vses, pools, cloudRef, lbSuffix)[n].poolName
  {
    assert Merged(POOL_REMOVE, found.(name := config.poolName), TasksOf(config.targets), pools, pools');
    assert found.uuid in pools && pools[found.uuid] == found && Available(found, config.poolName, lbSuffix);
  }

  // Hence an endpoint of the environment that is no longer wanted never comes in sync: every round
  // that calls the Avi remove leaves it owned and listed.
  lemma RemovedStaysOutOfSync(vses: VsMap, pools: PoolMap, config: LBConfig, pools': PoolMap, found: Pool,
                              cloudRef: string, lbSuffix: string, desired: Desired, environment: string)
    requires Sound(vses, pools)
    requires Done(POOL_REMOVE, vses, pools, config, lbSuffix, vses, pools', found)
    requires config.endpoint !in desired
    requires config.endpoint in
               OutOfSync(desired, Listing(vses, pools, cloudRef, lbSuffix), OwnershipSuffix(environment, lbSuffix))
    ensures config.endpoint in
              OutOfSync(desired, Listing(vses, pools', cloudRef, lbSuffix), OwnershipSuffix(environment, lbSuffix))
  {
    RemoveNeverDelists(vses, pools, config, pools', found, cloudRef, lbSuffix);
    OwnedHasPoolSuffix(Listing(vses, pools, cloudRef, lbSuffix)[config.endpoint].poolName, environment, lbSuffix);
  }

  // The smallest case: a remove of an endpoint whose pool is empty already changes no document at all, so
  // the same remove is issued in every round.
  lemma EmptiedIsRemovedForever(environment: string, lbSuffix: string, cloudRef: string)
    ensures var name := "web_app" + OwnershipSuffix(environment, lbSuffix);
            var pool := Pool("p", name, None, None);
            var vs := VirtualService("web", Some("p"), Some(cloudRef), Some(lbSuffix), "", None);
            var vses, pools := map["web" := vs], map["p" := pool];
            var config := LBConfig("web", name, "", []);
            && Sound(vses, pools) && Listable(vses, cloudRef, lbSuffix)
            && Listing(vses, pools, cloudRef, lbSuffix) == map["web" := View(config)]
            && Done(POOL_REMOVE, vses, pools, config, lbSuffix, vses, pools, pool)
            && "web" in OutOfSync(map[], Listing(vses, pools, cloudRef, lbSuffix), OwnershipSuffix(environment, lbSuffix))
  {
    var suffix := OwnershipSuffix(environment, lbSuffix);
    var name := "web_app" + suffix;
    var pool := Pool("p", name, None, None);
    var vs := VirtualService("web", Some("p"), Some(cloudRef), Some(lbSuffix), "", None);
    var vses, pools := map["web" := vs], map["p" := pool];
    var config := LBConfig("web", name, "", []);
    assert name[|name| - |suffix|..] == suffix;
    assert PoolTargets(pool) == [];
    assert Listing(vses, pools, cloudRef, lbSuffix)["web"] == View(config);
    assert Prepared(vses, pools, "web", name, lbSuffix, vses, pools, pool);
    assert Keys(GetPoolMembers(pool)) == {};
    assert Merged(POOL_REMOVE, pool.(name := name), TasksOf(config.targets), pools, pools);
  }
}
