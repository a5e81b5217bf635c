/** Pool members of the Avi provider on values: their string identity and the three ways to merge them. */
module AviMembers {
  import opened Merging
  import opened Model
  import opened Seqs
  import opened Text

  // ----- identity (dockerTasks.go)

  // A pool member on the controller; the other fields of its document stay as they are.
  datatype Server = Server(addr: string, port: Option<int>, otherFields: string)

  datatype DockerTask = DockerTask(ipAddr: string, publicPort: int)

  type DockerTasks = map<string, DockerTask>

  // The two parts joined by a dash.
  function MakeKey(ipAddr: string, port: string): string {
    ipAddr + "-" + port
  }

  function TaskKey(dt: DockerTask): string {
    MakeKey(dt.ipAddr, Itoa(dt.publicPort))
  }

  // The provider computes keys only of members that carry a port.
  function ServerKey(s: Server): string {
    MakeKey(s.addr, if s.port.Some? then Itoa(s.port.value) else "")
  }

  lemma DigitsHaveNoSign(n: nat)
    ensures '-' !in Itoa(n)
  {
    assert forall c :: c in NatToString(n) ==> IsDigit(c);
  }

  // Keys of non-negative ports identify address and port, whatever the address.
  lemma KeyInjective(ip: string, port: nat, ip': string, port': nat)
    ensures MakeKey(ip, Itoa(port)) == MakeKey(ip', Itoa(port')) <==> ip == ip' && port == port'
  {
    if MakeKey(ip, Itoa(port)) == MakeKey(ip', Itoa(port')) {
      DigitsHaveNoSign(port);
      DigitsHaveNoSign(port');
      LastSeparator(ip, Itoa(port), ip', Itoa(port'), '-');
      ItoaInjective(port, port');
    }
  }

  // A negative port breaks this: its sign reads as the separator.
  lemma NegativePortCollides(ip: string, port: int)
    requires port > 0
    ensures MakeKey(ip, Itoa(-port)) == MakeKey(ip + "-", Itoa(port))
  {
    assert ip + "-" + ("-" + NatToString(port)) == ip + "-" + "-" + NatToString(port);
  }

  // ----- documents

  // The source reads the port of every member; the claims about identity need it not to be negative.
  ghost predicate HavePorts(servers: seq<Server>) {
    forall i :: 0 <= i < |servers| ==> servers[i].port.Some?
  }

  ghost predicate Ported(servers: seq<Server>) {
    forall i :: 0 <= i < |servers| ==> servers[i].port.Some? && servers[i].port.value >= 0
  }

  function Keys(servers: seq<Server>): set<string> {
    KeySet(servers, ServerKey)
  }

  ghost predicate DistinctKeys(servers: seq<Server>) {
    DistinctBy(servers, ServerKey)
  }

  function NewServer(dt: DockerTask): Server {
    Server(dt.ipAddr, Some(dt.publicPort), "")
  }

  // New members, one for each task with the given keys, in any order.
  ghost predicate Supplies(added: seq<Server>, tasks: DockerTasks, keys: set<string>) {
    && DistinctKeys(added) && Keys(added) == keys && keys <= tasks.Keys
    && (forall i :: 0 <= i < |added| ==>
          ServerKey(added[i]) in tasks && added[i] == NewServer(tasks[ServerKey(added[i])]))
  }

  lemma SupplyOneMore(added: seq<Server>, tasks: DockerTasks, done: set<string>, k: string)
    requires Supplies(added, tasks, done) && k in tasks && k !in done && TaskKey(tasks[k]) == k
    ensures Supplies(added + [NewServer(tasks[k])], tasks, done + {k})
  {
    var s := NewServer(tasks[k]);
    assert ServerKey(s) == k;
    KeysOfSum(added, [s], ServerKey);
    KeysOfOne(s, ServerKey);
    DistinctOfSum(added, [s], ServerKey);
  }

  // Members supplied from the tasks that are left are supplied from all of them.
  lemma LeftTasksSupply(added: seq<Server>, all: DockerTasks, left: DockerTasks, taken: set<string>)
    requires left == all - taken && Supplies(added, left, left.Keys)
    ensures Supplies(added, all, all.Keys - taken)
  {
    assert left.Keys == all.Keys - taken;
  }

  lemma NothingLeftIffPart(all: DockerTasks, taken: set<string>)
    ensures all - taken == map[] <==> all.Keys <= taken
  {
    assert (all - taken).Keys == all.Keys - taken;
    if all - taken == map[] {
      forall k | k in all ensures k in taken {
        assert k !in (all - taken).Keys;
      }
    }
  }

  // One more member is retained when its task is left, and then its task no longer is.
  lemma RetainOneMore(members: seq<Server>, i: nat, all: DockerTasks, retained: seq<Server>, left: DockerTasks)
    requires i < |members|
    requires retained == Retained(members[..i], all.Keys, ServerKey) && left == all - Keys(retained)
    ensures Retained(members[..i + 1], all.Keys, ServerKey)
         == if ServerKey(members[i]) in left then retained + [members[i]] else retained
    ensures Keys(retained + [members[i]]) == Keys(retained) + {ServerKey(members[i])}
    ensures left - {ServerKey(members[i])} == all - Keys(retained + [members[i]])
  {
    RetainedStep(members, i, all.Keys, ServerKey);
    LessOneMore(all, Keys(retained), ServerKey(members[i]));
  }

  lemma LessOneMore(all: DockerTasks, taken: set<string>, k: string)
    ensures all - taken - {k} == all - (taken + {k})
  {
  }

  // ----- the merges (avivs.go)

  ghost predicate Reconciles(before: seq<Server>, tasks: DockerTasks, after: seq<Server>) {
    var kept := Retained(before, tasks.Keys, ServerKey);
    kept <= after && Supplies(after[|kept|..], tasks, tasks.Keys - Keys(kept))
  }

  ghost predicate Adds(before: seq<Server>, tasks: DockerTasks, after: seq<Server>) {
    before <= after && Supplies(after[|before|..], tasks, tasks.Keys - Keys(before))
  }

  // A reconcile leaves exactly the requested keys, each once.
  lemma ReconcileExact(before: seq<Server>, tasks: DockerTasks, after: seq<Server>)
    requires Reconciles(before, tasks, after)
    ensures DistinctKeys(after) && Keys(after) == tasks.Keys
  {
    var kept := Retained(before, tasks.Keys, ServerKey);
    assert after == kept + after[|kept|..];
    RetainedKeys(before, tasks.Keys, ServerKey);
    KeysOfSum(kept, after[|kept|..], ServerKey);
    DistinctOfSum(kept, after[|kept|..], ServerKey);
  }

  // Reconciling again with the same tasks changes nothing.
  lemma ReconcileIdempotent(before: seq<Server>, tasks: DockerTasks, once: seq<Server>, twice: seq<Server>)
    requires Reconciles(before, tasks, once) && Reconciles(once, tasks, twice)
    ensures twice == once
  {
    ReconcileExact(before, tasks, once);
    RetainedWhole(once, tasks.Keys, ServerKey);
    NoKeysNoItems(twice[|once|..], ServerKey);
    assert twice == once + twice[|once|..];
  }

  // Removing what was added gives what removing alone gives: the old members when none of the tasks was there.
  lemma RemoveUndoesAdd(before: seq<Server>, tasks: DockerTasks, after: seq<Server>)
    requires Adds(before, tasks, after)
    ensures Removed(after, tasks.Keys, ServerKey) == Removed(before, tasks.Keys, ServerKey)
    ensures Keys(before) !! tasks.Keys ==> Removed(after, tasks.Keys, ServerKey) == before
  {
    var added := after[|before|..];
    assert after == before + added;
    RemovedOfSum(before, added, tasks.Keys, ServerKey);
    RemovedAll(added, tasks.Keys, ServerKey);
    RemovedLength(before, tasks.Keys, ServerKey);
  }

  // An add ends up with exactly the requested keys, each once, when it starts from some of them, each once.
  lemma AddExact(before: seq<Server>, tasks: DockerTasks, after: seq<Server>)
    requires Adds(before, tasks, after)
    ensures DistinctKeys(after) && Keys(after) == tasks.Keys <==> DistinctKeys(before) && Keys(before) <= tasks.Keys
  {
    assert after == before + after[|before|..];
    KeysOfSum(before, after[|before|..], ServerKey);
    DistinctOfSum(before, after[|before|..], ServerKey);
  }

  // A reconcile has the keys of dropping the unwanted members and adding the wanted ones.
  lemma ReconcileIsRemoveThenAdd(before: seq<Server>, tasks: DockerTasks, reconciled: seq<Server>, added: seq<Server>)
    requires Reconciles(before, tasks, reconciled)
    requires Adds(Removed(before, Keys(before) - tasks.Keys, ServerKey), tasks, added)
    ensures Keys(reconciled) == Keys(added)
  {
    ReconcileExact(before, tasks, reconciled);
    var kept := Removed(before, Keys(before) - tasks.Keys, ServerKey);
    RemovedKeys(before, Keys(before) - tasks.Keys, ServerKey);
    assert added == kept + added[|kept|..];
    KeysOfSum(kept, added[|kept|..], ServerKey);
  }

  lemma PrefixOrRest<T>(prefix: seq<T>, all: seq<T>, x: T)
    requires prefix <= all && x in all
    ensures x in prefix || x in all[|prefix|..]
  {
    var i :| 0 <= i < |all| && all[i] == x;
    assert i >= |prefix| ==> all[|prefix|..][i - |prefix|] == x;
  }

  lemma SuppliedMember(added: seq<Server>, tasks: DockerTasks, keys: set<string>, s: Server)
    requires Supplies(added, tasks, keys) && s in added
    ensures s.port.Some?
  {
  }

  // Every merge only keeps old members and makes new ones from tasks, so members keep carrying ports.
  lemma MergedHavePorts(before: seq<Server>, tasks: DockerTasks, after: seq<Server>)
    requires HavePorts(before)
    requires || Reconciles(before, tasks, after)
             || Adds(before, tasks, after)
             || after == Removed(before, tasks.Keys, ServerKey)
    ensures HavePorts(after)
  {
    forall s | s in after ensures s.port.Some? {
      KeptItems(before, tasks.Keys, ServerKey, s);
      if Reconciles(before, tasks, after) {
        var kept := Retained(before, tasks.Keys, ServerKey);
        PrefixOrRest(kept, after, s);
        if s in after[|kept|..] {
          SuppliedMember(after[|kept|..], tasks, tasks.Keys - Keys(kept), s);
        }
      } else if Adds(before, tasks, after) {
        PrefixOrRest(before, after, s);
        if s in after[|before|..] {
          SuppliedMember(after[|before|..], tasks, tasks.Keys - Keys(before), s);
        }
      }
    }
  }

  // ----- targets

  // Ports as strconv prints them, in the range it parses.
  predicate CanonicalPort(port: string) {
    0 <= Atoi(port) <= MAX_INT && Itoa(Atoi(port)) == port
  }

  // They are exactly the printed non-negative numbers of that range.
  lemma CanonicalIffPrinted(port: string)
    ensures CanonicalPort(port) <==> exists n: nat | n <= 9_223_372_036_854_775_807 :: port == Itoa(n)
  {
    if n: nat :| n <= MAX_INT && port == Itoa(n) {
      AtoiItoa(n);
    }
  }

  ghost predicate Canonical(ts: seq<LBTarget>) {
    forall i :: 0 <= i < |ts| ==> CanonicalPort(ts[i].port)
  }

  function TaskFor(t: LBTarget): DockerTask {
    DockerTask(t.hostIP, Atoi(t.port))
  }

  // The tasks of a configuration; a later target replaces an earlier one with its key.
  function TasksOf(ts: seq<LBTarget>): DockerTasks {
    if ts == [] then map[]
    else
      var dt := TaskFor(ts[|ts| - 1]);
      TasksOf(ts[..|ts| - 1])[TaskKey(dt) := dt]
  }

  function ReadTarget(s: Server, defaultPort: string): LBTarget {
    LBTarget(s.addr, if s.port.Some? then Itoa(s.port.value) else defaultPort)
  }

  function ReadTargets(servers: seq<Server>, defaultPort: string): seq<LBTarget> {
    seq(|servers|, i requires 0 <= i < |servers| => ReadTarget(servers[i], defaultPort))
  }

  function TargetKey(t: LBTarget): string {
    MakeKey(t.hostIP, t.port)
  }

  // The keys of the tasks are those of the targets.
  lemma {:induction false} TaskKeysExact(ts: seq<LBTarget>)
    requires Canonical(ts)
    ensures TasksOf(ts).Keys == KeySet(ts, TargetKey)
    ensures forall k :: k in TasksOf(ts) ==> TasksOf(ts)[k].publicPort >= 0
  {
    if ts != [] {
      TaskKeysExact(ts[..|ts| - 1]);
      KeysOfLast(ts, TargetKey);
      assert TaskKey(TaskFor(ts[|ts| - 1])) == TargetKey(ts[|ts| - 1]);
    }
  }

  // A member and a target have the same key exactly when the member reads back as the target.
  lemma KeysAgreeIffSame(s: Server, t: LBTarget, defaultPort: string)
    requires s.port.Some? && s.port.value >= 0 && CanonicalPort(t.port)
    ensures ServerKey(s) == TargetKey(t) <==> ReadTarget(s, defaultPort) == t
  {
    KeyInjective(s.addr, s.port.value, t.hostIP, Atoi(t.port));
    if Itoa(s.port.value) == t.port {
      ItoaInjective(s.port.value, Atoi(t.port));
    }
  }

  // Members with exactly the keys of the targets, each once, are those that read back as exactly
  // the targets, each once.
  lemma ReadBackExact(members: seq<Server>, ts: seq<LBTarget>, defaultPort: string)
    requires Ported(members) && Canonical(ts)
    ensures DistinctKeys(members) && Keys(members) == TasksOf(ts).Keys
       <==> Distinct(ReadTargets(members, defaultPort)) && Elements(ReadTargets(members, defaultPort)) == Elements(ts)
  {
    TaskKeysExact(ts);
    ReadBackDistinct(members, defaultPort);
    if Keys(members) == KeySet(ts, TargetKey) {
      KeysToTargets(members, ts, defaultPort);
    }
    if Elements(ReadTargets(members, defaultPort)) == Elements(ts) {
      TargetsToKeys(members, ts, defaultPort);
    }
  }

  lemma ReadBackDistinct(members: seq<Server>, defaultPort: string)
    requires Ported(members)
    ensures DistinctKeys(members) <==> Distinct(ReadTargets(members, defaultPort))
  {
    var read := ReadTargets(members, defaultPort);
    forall i, j | 0 <= i < j < |members|
      ensures ServerKey(members[i]) == ServerKey(members[j]) <==> read[i] == read[j]
    {
      KeyInjective(members[i].addr, members[i].port.value, members[j].addr, members[j].port.value);
      if read[i] == read[j] {
        ItoaInjective(members[i].port.value, members[j].port.value);
      }
    }
  }

  lemma KeysToTargets(members: seq<Server>, ts: seq<LBTarget>, defaultPort: string)
    requires Ported(members) && Canonical(ts) && Keys(members) == KeySet(ts, TargetKey)
    ensures Elements(ReadTargets(members, defaultPort)) == Elements(ts)
  {
    var read := ReadTargets(members, defaultPort);
    forall i | 0 <= i < |members| ensures read[i] in ts {
      assert ServerKey(members[i]) in Keys(members);
      var t :| t in ts && TargetKey(t) == ServerKey(members[i]);
      KeysAgreeIffSame(members[i], t, defaultPort);
    }
    forall t | t in ts ensures t in read {
      assert TargetKey(t) in KeySet(ts, TargetKey);
      var i :| 0 <= i < |members| && ServerKey(members[i]) == TargetKey(t);
      KeysAgreeIffSame(members[i], t, defaultPort);
      assert read[i] == t;
    }
  }

  lemma TargetsToKeys(members: seq<Server>, ts: seq<LBTarget>, defaultPort: string)
    requires Ported(members) && Canonical(ts) && Elements(ReadTargets(members, defaultPort)) == Elements(ts)
    ensures Keys(members) == KeySet(ts, TargetKey)
  {
    var read := ReadTargets(members, defaultPort);
    forall i | 0 <= i < |members| ensures ServerKey(members[i]) in KeySet(ts, TargetKey) {
      assert read[i] in Elements(read);
      KeysAgreeIffSame(members[i], read[i], defaultPort);
    }
    forall t | t in ts ensures TargetKey(t) in Keys(members) {
      assert t in Elements(ts);
      var i :| 0 <= i < |read| && read[i] == t;
      KeysAgreeIffSame(members[i], t, defaultPort);
    }
  }

  // A member has the key of a task exactly when its address and port are a target's.
  lemma KeyOfTarget(s: Server, ts: seq<LBTarget>)
    requires s.port.Some? && s.port.value >= 0 && Canonical(ts)
    ensures ServerKey(s) in TasksOf(ts).Keys <==> LBTarget(s.addr, Itoa(s.port.value)) in ts
  {
    var read := LBTarget(s.addr, Itoa(s.port.value));
    TaskKeysExact(ts);
    if read in ts {
      assert TargetKey(read) in KeySet(ts, TargetKey);
    }
    if ServerKey(s) in KeySet(ts, TargetKey) {
      var t :| t in ts && TargetKey(t) == ServerKey(s);
      KeysAgreeIffSame(s, t, "");
    }
  }

  // Removing the tasks of targets takes these targets, however often they are read back, and no others.
  lemma {:induction false} RemovedTargets(members: seq<Server>, ts: seq<LBTarget>, defaultPort: string, t: LBTarget)
    requires Ported(members) && Canonical(ts)
    ensures multiset(ReadTargets(Removed(members, TasksOf(ts).Keys, ServerKey), defaultPort))[t]
         == if t in ts then 0 else multiset(ReadTargets(members, defaultPort))[t]
  {
    if members != [] {
      var front, s := members[..|members| - 1], members[|members| - 1];
      var kept := Removed(front, TasksOf(ts).Keys, ServerKey);
      RemovedTargets(front, ts, defaultPort, t);
      KeyOfTarget(s, ts);
      CountOneMore(front, s, defaultPort, t);
      CountOneMore(kept, s, defaultPort, t);
      assert front + [s] == members;
    }
  }

  lemma CountOneMore(members: seq<Server>, s: Server, defaultPort: string, t: LBTarget)
    ensures multiset(ReadTargets(members + [s], defaultPort))[t]
         == multiset(ReadTargets(members, defaultPort))[t] + if ReadTarget(s, defaultPort) == t then 1 else 0
  {
    assert ReadTargets(members + [s], defaultPort) == ReadTargets(members, defaultPort) + [ReadTarget(s, defaultPort)];
  }

  lemma NothingToRemove(members: seq<Server>, ts: seq<LBTarget>, defaultPort: string)
    requires Ported(members) && Canonical(ts)
    ensures TasksOf(ts).Keys !! Keys(members) <==> forall t :: t in ts ==> t !in ReadTargets(members, defaultPort)
  {
    forall i | 0 <= i < |members|
      ensures ServerKey(members[i]) in Keys(members)
      ensures ServerKey(members[i]) in TasksOf(ts).Keys <==> ReadTargets(members, defaultPort)[i] in ts
    {
      KeyOfTarget(members[i], ts);
    }
    if !(TasksOf(ts).Keys !! Keys(members)) {
      var k :| k in TasksOf(ts).Keys && k in Keys(members);
      var i :| 0 <= i < |members| && ServerKey(members[i]) == k;
      KeyOfTarget(members[i], ts);
      var t := LBTarget(members[i].addr, Itoa(members[i].port.value));
      assert ReadTargets(members, defaultPort)[i] == t;
    }
  }
}
