/**
 * Reconciliation rounds on values (external-lb.go): which calls a round issues, what they do to
 * the provider, and what any number of rounds with any failures achieves.
 */
module Rounds {
  import opened Model
  import opened Seqs
  import opened TargetDiff
  import opened Text

  datatype Call = Remove(config: LBConfig) | Add(config: LBConfig) | Update(config: LBConfig)

  // ----- what a provider does with a call

  // A call on a faulty endpoint fails without effect.
  function Apply(s: Store, call: Call, faulty: set<string>): Store {
    var e := call.config.endpoint;
    if e in faulty then s
    else if call.Remove? then s - {e}
    else s[e := View(call.config)]
  }

  function ApplyAll(s: Store, calls: seq<Call>, faulty: set<string>): Store {
    if calls == [] then s
    else Apply(ApplyAll(s, calls[..|calls| - 1], faulty), calls[|calls| - 1], faulty)
  }

  // A listing of the provider: one configuration for each endpoint, in any order.
  ghost predicate Lists(listed: seq<LBConfig>, s: Store) {
    && DistinctEndpoints(listed)
    && (forall i :: 0 <= i < |listed| ==> listed[i].endpoint in s && View(listed[i]) == s[listed[i].endpoint])
    && (forall e :: e in s ==> Listed(listed, e))
  }

  ghost predicate DistinctEndpoints(cs: seq<LBConfig>) {
    forall i, j :: 0 <= i < j < |cs| ==> cs[i].endpoint != cs[j].endpoint
  }

  ghost predicate Listed(cs: seq<LBConfig>, e: string) {
    exists i :: 0 <= i < |cs| && cs[i].endpoint == e
  }

  // A listing in the making: the entries at the endpoints already visited.
  ghost predicate ListsPart(listed: seq<LBConfig>, s: Store, done: set<string>) {
    && DistinctEndpoints(listed)
    && (forall i :: 0 <= i < |listed| ==>
          && listed[i].endpoint in s && listed[i].endpoint in done
          && View(listed[i]) == s[listed[i].endpoint])
    && (forall e :: e in s && e in done ==> Listed(listed, e))
  }

  lemma ListOneMore(listed: seq<LBConfig>, s: Store, done: set<string>, c: LBConfig)
    requires ListsPart(listed, s, done)
    requires c.endpoint in s && c.endpoint !in done && View(c) == s[c.endpoint]
    ensures ListsPart(listed + [c], s, done + {c.endpoint})
  {
    var more := listed + [c];
    assert more[|listed|] == c;
    forall e | e in s && e in done + {c.endpoint} ensures Listed(more, e) {
      if e != c.endpoint {
        assert Listed(listed, e);
        var i :| 0 <= i < |listed| && listed[i].endpoint == e;
        assert more[i].endpoint == e;
      }
    }
  }

  lemma ListNoMore(listed: seq<LBConfig>, s: Store, done: set<string>, e: string)
    requires ListsPart(listed, s, done) && e !in s
    ensures ListsPart(listed, s, done + {e})
  {
  }

  // ----- the snapshot a round works from

  // The owned part of a listing; a later configuration for an endpoint replaces an earlier one.
  function OwnedPart(listed: seq<LBConfig>, suffix: string): Desired {
    if listed == [] then map[]
    else
      var c := listed[|listed| - 1];
      var earlier := OwnedPart(listed[..|listed| - 1], suffix);
      if HasSuffix(c.poolName, suffix) then earlier[c.endpoint := c] else earlier
  }

  ghost predicate SnapshotOf(snap: Desired, s: Store, suffix: string) {
    && (forall e :: e in snap <==> e in s && Owned(s[e].poolName, suffix))
    && (forall e :: e in snap ==> snap[e].endpoint == e && View(snap[e]) == s[e])
  }

  // The last owned configuration listed for an endpoint.
  ghost predicate LastOwned(listed: seq<LBConfig>, suffix: string, e: string, i: int) {
    && 0 <= i < |listed| && listed[i].endpoint == e && HasSuffix(listed[i].poolName, suffix)
    && forall j :: i < j < |listed| && listed[j].endpoint == e ==> !HasSuffix(listed[j].poolName, suffix)
  }

  // The owned part holds an endpoint only if there is one, and then holds that one.
  lemma {:induction false} HeldHasLastOwned(listed: seq<LBConfig>, suffix: string, e: string) returns (i: int)
    requires e in OwnedPart(listed, suffix)
    ensures LastOwned(listed, suffix, e, i)
  {
    var n := |listed| - 1;
    if listed[n].endpoint == e && HasSuffix(listed[n].poolName, suffix) {
      i := n;
    } else {
      i := HeldHasLastOwned(listed[..n], suffix, e);
      assert listed[..n][i] == listed[i];
      forall j | i < j < |listed| && listed[j].endpoint == e ensures !HasSuffix(listed[j].poolName, suffix) {
        assert j < n ==> listed[..n][j] == listed[j];
      }
    }
  }

  lemma {:induction false} LastOwnedIsHeld(listed: seq<LBConfig>, suffix: string, e: string, i: int)
    requires LastOwned(listed, suffix, e, i)
    ensures e in OwnedPart(listed, suffix) && OwnedPart(listed, suffix)[e] == listed[i]
  {
    var n := |listed| - 1;
    if i < n {
      var front := listed[..n];
      assert front[i] == listed[i];
      forall j | i < j < n && front[j].endpoint == e ensures !HasSuffix(front[j].poolName, suffix) {
        assert front[j] == listed[j];
      }
      LastOwnedIsHeld(front, suffix, e, i);
      assert !(listed[n].endpoint == e && HasSuffix(listed[n].poolName, suffix));
    }
  }

  lemma ListingGivesSnapshot(listed: seq<LBConfig>, s: Store, suffix: string)
    requires Lists(listed, s)
    ensures SnapshotOf(OwnedPart(listed, suffix), s, suffix)
  {
    var snap := OwnedPart(listed, suffix);
    forall e | e in snap
      ensures e in s && Owned(s[e].poolName, suffix) && snap[e].endpoint == e && View(snap[e]) == s[e]
    {
      var i := HeldHasLastOwned(listed, suffix, e);
      LastOwnedIsHeld(listed, suffix, e, i);
    }
    forall e | e in s && Owned(s[e].poolName, suffix) ensures e in snap {
      assert Listed(listed, e);
      var i :| 0 <= i < |listed| && listed[i].endpoint == e;
      assert View(listed[i]) == s[e];
      LastOwnedIsHeld(listed, suffix, e, i);
    }
  }

  // ----- the calls of a round

  predicate WellKeyed(desired: Desired) {
    forall e :: e in desired ==> desired[e].endpoint == e
  }

  // What metadata guarantees (keys and ownership) and what the target diff needs (distinct targets).
  ghost predicate WellFormed(desired: Desired, suffix: string) {
    && WellKeyed(desired)
    && (forall e :: e in desired ==> Owned(desired[e].poolName, suffix))
    && (forall e :: e in desired ==> Distinct(desired[e].targets))
  }

  function Needed(desired: Desired, snap: Desired, e: string): Option<Call> {
    if e in snap && e !in desired then Some(Remove(snap[e]))
    else if e in desired && e !in snap then Some(Add(desired[e]))
    else if e in desired && Changed(desired[e], snap[e]) then Some(Update(desired[e]))
    else None
  }

  // The calls of a round in some order: exactly the needed ones, one for each endpoint.
  ghost predicate Schedules(calls: seq<Call>, desired: Desired, snap: Desired) {
    && (forall i, j :: 0 <= i < j < |calls| ==> calls[i].config.endpoint != calls[j].config.endpoint)
    && (forall i :: 0 <= i < |calls| ==> Needed(desired, snap, calls[i].config.endpoint) == Some(calls[i]))
    && (forall e :: Needed(desired, snap, e).Some? ==> Needed(desired, snap, e).value in calls)
  }

  // Removes are for owned endpoints that are not desired, adds for desired ones that are not owned, and
  // updates for desired ones that are.
  lemma KindsOfCalls(desired: Desired, s: Store, snap: Desired, suffix: string, calls: seq<Call>)
    requires SnapshotOf(snap, s, suffix) && Schedules(calls, desired, snap)
    ensures forall c :: c in calls ==>
              var e := c.config.endpoint;
              var owned := e in s && HasSuffix(s[e].poolName, suffix);
              && (c.Remove? ==> owned && e !in desired && View(c.config) == s[e])
              && (c.Add? ==> !owned && e in desired && c.config == desired[e])
              && (c.Update? ==> owned && e in desired && c.config == desired[e])
  {
    forall c | c in calls ensures Needed(desired, snap, c.config.endpoint) == Some(c) {
      var i :| 0 <= i < |calls| && calls[i] == c;
    }
  }

  // ----- what a round is for

  // An endpoint is in sync when the owned entry is the desired one, pool names compared up to case.
  predicate InSync(desired: Desired, s: Store, suffix: string, e: string) {
    if e in desired then
      && e in s
      && Owned(s[e].poolName, suffix)
      && EqualFold(desired[e].poolName, s[e].poolName)
      && multiset(desired[e].targets) == s[e].targets
    else
      e in s ==> !Owned(s[e].poolName, suffix)
  }

  function OutOfSync(desired: Desired, s: Store, suffix: string): set<string> {
    set e | e in desired.Keys + s.Keys && !InSync(desired, s, suffix, e)
  }

  // A round on the whole: the out-of-sync endpoints whose call succeeds take their desired entry.
  function Reconciled(desired: Desired, s: Store, suffix: string, faulty: set<string>): Store {
    var repaired := OutOfSync(desired, s, suffix) - faulty;
    map e | e in desired.Keys + s.Keys && (if e in repaired then e in desired else e in s) ::
      if e in repaired then View(desired[e]) else s[e]
  }

  // A call is issued exactly for the endpoints that are out of sync.
  lemma NeededIffOutOfSync(desired: Desired, s: Store, snap: Desired, suffix: string, e: string)
    requires WellFormed(desired, suffix) && SnapshotOf(snap, s, suffix)
    ensures Needed(desired, snap, e).Some? <==> e in OutOfSync(desired, s, suffix)
  {
    if e in desired && e in snap {
      assert View(snap[e]) == s[e];
      DiffIsExact(desired[e].targets, snap[e].targets);
    }
  }

  // An endpoint that no call names keeps its entry; one that exactly one call names gets what that call does.
  lemma {:induction false} AppliedAt(s: Store, calls: seq<Call>, faulty: set<string>, e: string)
    requires forall i, j :: 0 <= i < j < |calls| ==> calls[i].config.endpoint != calls[j].config.endpoint
    ensures (forall i :: 0 <= i < |calls| ==> calls[i].config.endpoint != e)
            ==> Lookup(ApplyAll(s, calls, faulty), e) == Lookup(s, e)
    ensures forall i :: 0 <= i < |calls| && calls[i].config.endpoint == e
                        ==> Lookup(ApplyAll(s, calls, faulty), e) == Lookup(Apply(s, calls[i], faulty), e)
  {
    if calls != [] {
      var front := calls[..|calls| - 1];
      AppliedAt(s, front, faulty, e);
      forall i | 0 <= i < |calls| && calls[i].config.endpoint == e
        ensures Lookup(ApplyAll(s, calls, faulty), e) == Lookup(Apply(s, calls[i], faulty), e)
      {
        if i < |front| {
          assert front[i] == calls[i];
        } else {
          assert forall k :: 0 <= k < |front| ==> front[k].config.endpoint != e;
        }
      }
    }
  }

  // The only call of a schedule that can name an endpoint is the one it needs.
  lemma ScheduledAt(calls: seq<Call>, desired: Desired, snap: Desired, e: string)
    requires Schedules(calls, desired, snap)
    ensures Needed(desired, snap, e).Some? ==>
              exists i :: 0 <= i < |calls| && calls[i] == Needed(desired, snap, e).value
    ensures Needed(desired, snap, e).None? ==> forall i :: 0 <= i < |calls| ==> calls[i].config.endpoint != e
  {
    if Needed(desired, snap, e).Some? {
      assert Needed(desired, snap, e).value in calls;
    }
  }

  lemma ReconciledAt(desired: Desired, s: Store, snap: Desired, suffix: string,
                     calls: seq<Call>, faulty: set<string>, e: string)
    requires WellFormed(desired, suffix) && SnapshotOf(snap, s, suffix)
    requires Schedules(calls, desired, snap)
    ensures Lookup(ApplyAll(s, calls, faulty), e) == Lookup(Reconciled(desired, s, suffix, faulty), e)
  {
    AppliedAt(s, calls, faulty, e);
    NeededIffOutOfSync(desired, s, snap, suffix, e);
    ScheduledAt(calls, desired, snap, e);
    if Needed(desired, snap, e).Some? {
      var call := Needed(desired, snap, e).value;
      assert call.config.endpoint == e;
      assert Lookup(ApplyAll(s, calls, faulty), e) == Lookup(Apply(s, call, faulty), e);
    }
  }

  // Whatever the map order, the calls of a round amount to the same repair.
  lemma AnyOrderReconciles(desired: Desired, s: Store, snap: Desired, suffix: string,
                           calls: seq<Call>, faulty: set<string>)
    requires WellFormed(desired, suffix) && SnapshotOf(snap, s, suffix)
    requires Schedules(calls, desired, snap)
    ensures ApplyAll(s, calls, faulty) == Reconciled(desired, s, suffix, faulty)
  {
    forall e ensures Lookup(ApplyAll(s, calls, faulty), e) == Lookup(Reconciled(desired, s, suffix, faulty), e) {
      ReconciledAt(desired, s, snap, suffix, calls, faulty, e);
    }
    SameLookupsSameStore(ApplyAll(s, calls, faulty), Reconciled(desired, s, suffix, faulty));
  }

  // ----- progress, convergence and frame

  // After a round the endpoints out of sync are exactly those that were and whose call failed.
  lemma RoundRepairs(desired: Desired, s: Store, suffix: string, faulty: set<string>)
    requires WellFormed(desired, suffix)
    ensures OutOfSync(desired, Reconciled(desired, s, suffix, faulty), suffix) == OutOfSync(desired, s, suffix) * faulty
  {
    var after := Reconciled(desired, s, suffix, faulty);
    forall e ensures e in OutOfSync(desired, after, suffix) <==> e in OutOfSync(desired, s, suffix) && e in faulty {
      if e in OutOfSync(desired, s, suffix) && e !in faulty {
        assert InSync(desired, after, suffix, e);
      } else {
        assert Lookup(after, e) == Lookup(s, e);
      }
    }
  }

  // A round without failures converges, and nothing else moves.
  lemma RoundConverges(desired: Desired, s: Store, suffix: string)
    requires WellFormed(desired, suffix)
    ensures forall e :: InSync(desired, Reconciled(desired, s, suffix, {}), suffix, e)
    ensures forall e :: e !in desired && e in s && !Owned(s[e].poolName, suffix)
                        ==> Lookup(Reconciled(desired, s, suffix, {}), e) == Some(s[e])
    ensures forall e :: InSync(desired, s, suffix, e)
                        ==> Lookup(Reconciled(desired, s, suffix, {}), e) == Lookup(s, e)
  {
    var after := Reconciled(desired, s, suffix, {});
    RoundRepairs(desired, s, suffix, {});
    forall e ensures InSync(desired, after, suffix, e) {
      assert e !in OutOfSync(desired, after, suffix);
    }
  }

  // A round issues no call at all if and only if every endpoint is in sync.
  lemma QuietIffInSync(desired: Desired, s: Store, snap: Desired, suffix: string, calls: seq<Call>)
    requires WellFormed(desired, suffix) && SnapshotOf(snap, s, suffix)
    requires Schedules(calls, desired, snap)
    ensures calls == [] <==> OutOfSync(desired, s, suffix) == {}
  {
    if calls == [] {
      forall e ensures e !in OutOfSync(desired, s, suffix) {
        NeededIffOutOfSync(desired, s, snap, suffix, e);
      }
    } else {
      NeededIffOutOfSync(desired, s, snap, suffix, calls[0].config.endpoint);
    }
  }

  // Rounds in a row, each with its own failures.
  function AfterRounds(desired: Desired, s: Store, suffix: string, faults: seq<set<string>>): Store
    decreases |faults|
  {
    if faults == [] then s
    else AfterRounds(desired, Reconciled(desired, s, suffix, faults[0]), suffix, faults[1..])
  }

  // Over any run, exactly the endpoints that fail in every round stay out of sync.
  lemma {:induction false} RunRepairs(desired: Desired, s: Store, suffix: string, faults: seq<set<string>>)
    requires WellFormed(desired, suffix)
    ensures OutOfSync(desired, AfterRounds(desired, s, suffix, faults), suffix)
         == set e | e in OutOfSync(desired, s, suffix) && forall i :: 0 <= i < |faults| ==> e in faults[i]
    decreases |faults|
  {
    if faults != [] {
      var next := Reconciled(desired, s, suffix, faults[0]);
      RoundRepairs(desired, s, suffix, faults[0]);
      RunRepairs(desired, next, suffix, faults[1..]);
      forall e ensures (forall i :: 0 <= i < |faults| ==> e in faults[i])
                   <==> e in faults[0] && (forall i :: 0 <= i < |faults[1..]| ==> e in faults[1..][i])
      {
        if e in faults[0] && (forall i :: 0 <= i < |faults[1..]| ==> e in faults[1..][i]) {
          forall i | 0 <= i < |faults| ensures e in faults[i] {
            assert i > 0 ==> faults[1..][i - 1] == faults[i];
          }
        }
      }
    }
  }

  // So a longer run never has more endpoints out of sync, and has none exactly when
  // every endpoint that started out of sync had a round in which its call succeeded.
  lemma RunProgress(desired: Desired, s: Store, suffix: string, faults: seq<set<string>>, k: nat)
    requires WellFormed(desired, suffix) && k <= |faults|
    ensures |OutOfSync(desired, AfterRounds(desired, s, suffix, faults), suffix)|
         <= |OutOfSync(desired, AfterRounds(desired, s, suffix, faults[..k]), suffix)|
    ensures OutOfSync(desired, AfterRounds(desired, s, suffix, faults), suffix) == {} <==>
            forall e :: e in OutOfSync(desired, s, suffix) ==> exists i :: 0 <= i < |faults| && e !in faults[i]
  {
    RunRepairs(desired, s, suffix, faults);
    RunRepairs(desired, s, suffix, faults[..k]);
    var late := OutOfSync(desired, AfterRounds(desired, s, suffix, faults), suffix);
    var early := OutOfSync(desired, AfterRounds(desired, s, suffix, faults[..k]), suffix);
    assert late <= early;
    SubsetSize(late, early);
    if late == {} {
      forall e | e in OutOfSync(desired, s, suffix) ensures exists i :: 0 <= i < |faults| && e !in faults[i] {
        assert e !in late;
      }
    }
  }

  lemma SubsetSize<T>(a: set<T>, b: set<T>)
    requires a <= b
    ensures |a| <= |b|
  {
    assert b == a + (b - a);
  }
}
