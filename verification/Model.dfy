/** The load-balancer configuration that metadata asks for and providers report. */
module Model {
  import opened Text

  datatype Option<+T> = None | Some(value: T)

  datatype Result<+T> = Ok(value: T) | Err

  datatype LBTarget = LBTarget(hostIP: string, port: string)

  datatype LBConfig = LBConfig(endpoint: string, poolName: string, targetPort: string, targets: seq<LBTarget>)

  // What a listing says about one endpoint: targets may be listed in any order.
  datatype Entry = Entry(poolName: string, targets: multiset<LBTarget>)

  type Store = map<string, Entry>

  type Desired = map<string, LBConfig>

  function View(c: LBConfig): Entry {
    Entry(c.poolName, multiset(c.targets))
  }

  function Lookup(s: Store, e: string): Option<Entry> {
    if e in s then Some(s[e]) else None
  }

  function HostIPs(ts: seq<LBTarget>): seq<string> {
    seq(|ts|, i requires 0 <= i < |ts| => ts[i].hostIP)
  }

  function OwnershipSuffix(environment: string, poolSuffix: string): string {
    "_" + environment + "_" + poolSuffix
  }

  predicate Owned(poolName: string, suffix: string) {
    HasSuffix(poolName, suffix)
  }

  // A pool owned by an environment carries the pool suffix that all environments share.
  lemma OwnedHasPoolSuffix(poolName: string, environment: string, poolSuffix: string)
    requires Owned(poolName, OwnershipSuffix(environment, poolSuffix))
    ensures HasSuffix(poolName, poolSuffix)
  {
    var suffix := OwnershipSuffix(environment, poolSuffix);
    assert suffix[|suffix| - |poolSuffix|..] == poolSuffix;
    assert poolName[|poolName| - |poolSuffix|..] == suffix[|suffix| - |poolSuffix|..];
  }

  lemma EntryAt(s: Store, e: string, x: Entry, y: Entry)
    ensures s[e := x] == s[e := y] <==> x == y
  {
    assert s[e := x][e] == x && s[e := y][e] == y;
  }

  lemma SameLookupsSameStore(s: Store, t: Store)
    requires forall e :: Lookup(s, e) == Lookup(t, e)
    ensures s == t
  {
    forall e ensures e in s <==> e in t {
      assert Lookup(s, e) == Lookup(t, e);
    }
    assert s.Keys == t.Keys;
    forall e | e in s ensures s[e] == t[e] {
      assert Lookup(s, e) == Lookup(t, e);
    }
  }
}
