/** Several controllers, one for each environment, share a provider and a pool suffix. */
module Environments {
  import opened Model
  import opened Rounds
  import opened Text

  // Two environments can own the same pool exactly when one ownership suffix ends in the other.
  lemma SharedPoolIffNested(a: string, b: string)
    ensures (exists pool :: Owned(pool, a) && Owned(pool, b)) <==> HasSuffix(a, b) || HasSuffix(b, a)
  {
    if exists pool :: Owned(pool, a) && Owned(pool, b) {
      var pool :| Owned(pool, a) && Owned(pool, b);
      var longer, shorter := if |a| >= |b| then a else b, if |a| >= |b| then b else a;
      assert longer[|longer| - |shorter|..] == pool[|pool| - |shorter|..];
    }
    assert Owned(a, a) && Owned(b, b);
  }

  // Identifiers without an underscore never nest, so no pool has two owners.
  lemma OneOwner(pool: string, a: string, b: string, poolSuffix: string)
    requires '_' !in a && '_' !in b
    requires Owned(pool, OwnershipSuffix(a, poolSuffix)) && Owned(pool, OwnershipSuffix(b, poolSuffix))
    ensures a == b
  {
    var sa, sb, tail := OwnershipSuffix(a, poolSuffix), OwnershipSuffix(b, poolSuffix), "_" + poolSuffix;
    var headA, headB := pool[..|pool| - |sa|], pool[..|pool| - |sb|];
    assert pool == headA + sa && pool == headB + sb;
    assert sa == "_" + a + tail && sb == "_" + b + tail;
    var stem := pool[..|pool| - |tail|];
    assert stem == headA + ['_'] + a && stem == headB + ['_'] + b;
    LastSeparator(headA, a, headB, b, '_');
  }

  // With an underscore they can: a pool of environment "x_y" is also one of environment "y".
  lemma UnderscoreSharesPools(service: string)
    ensures Owned(service + OwnershipSuffix("x_y", "lb"), OwnershipSuffix("x_y", "lb"))
    ensures Owned(service + OwnershipSuffix("x_y", "lb"), OwnershipSuffix("y", "lb"))
  {
    assert OwnershipSuffix("x_y", "lb") == "_x" + OwnershipSuffix("y", "lb");
    var pool := service + OwnershipSuffix("x_y", "lb");
    assert pool == (service + "_x") + OwnershipSuffix("y", "lb");
  }

  datatype EnvRound = EnvRound(environment: string, desired: Desired)

  // Whole successful rounds, one after the other.
  function AfterAll(s: Store, rounds: seq<EnvRound>, poolSuffix: string): Store {
    if rounds == [] then s
    else
      var last := rounds[|rounds| - 1];
      Reconciled(last.desired, AfterAll(s, rounds[..|rounds| - 1], poolSuffix),
                 OwnershipSuffix(last.environment, poolSuffix), {})
  }

  // Environments have underscore-free identifiers and never want the same endpoint.
  ghost predicate Separate(rounds: seq<EnvRound>, poolSuffix: string) {
    && (forall i :: 0 <= i < |rounds| ==>
          '_' !in rounds[i].environment
          && WellFormed(rounds[i].desired, OwnershipSuffix(rounds[i].environment, poolSuffix)))
    && (forall i, j :: 0 <= i < |rounds| && 0 <= j < |rounds| && rounds[i].environment != rounds[j].environment ==>
          rounds[i].desired.Keys !! rounds[j].desired.Keys)
  }

  // A round of one environment keeps every endpoint of another in sync.
  lemma RoundSparesOthers(mine: EnvRound, other: EnvRound, s: Store, poolSuffix: string)
    requires '_' !in mine.environment && '_' !in other.environment && mine.environment != other.environment
    requires mine.desired.Keys !! other.desired.Keys
    requires WellFormed(other.desired, OwnershipSuffix(other.environment, poolSuffix))
    requires OutOfSync(mine.desired, s, OwnershipSuffix(mine.environment, poolSuffix)) == {}
    ensures OutOfSync(mine.desired,
                      Reconciled(other.desired, s, OwnershipSuffix(other.environment, poolSuffix), {}),
                      OwnershipSuffix(mine.environment, poolSuffix)) == {}
  {
    var mySuffix := OwnershipSuffix(mine.environment, poolSuffix);
    var itsSuffix := OwnershipSuffix(other.environment, poolSuffix);
    var after := Reconciled(other.desired, s, itsSuffix, {});
    forall e ensures e !in OutOfSync(mine.desired, after, mySuffix) {
      assert e !in OutOfSync(mine.desired, s, mySuffix);
      if e in s && Owned(s[e].poolName, mySuffix) && Owned(s[e].poolName, itsSuffix) {
        OneOwner(s[e].poolName, mine.environment, other.environment, poolSuffix);
      }
      if e in other.desired && Owned(other.desired[e].poolName, mySuffix) {
        OneOwner(other.desired[e].poolName, mine.environment, other.environment, poolSuffix);
      }
      assert e in mine.desired ==> Lookup(after, e) == Lookup(s, e);
    }
  }

  // After any sequence of rounds, every environment is in sync with what it wanted in its last one.
  lemma {:induction false} ControllersDoNotInterfere(s: Store, rounds: seq<EnvRound>, poolSuffix: string, i: nat)
    requires Separate(rounds, poolSuffix)
    requires i < |rounds| && forall j :: i < j < |rounds| ==> rounds[j].environment != rounds[i].environment
    ensures OutOfSync(rounds[i].desired, AfterAll(s, rounds, poolSuffix),
                      OwnershipSuffix(rounds[i].environment, poolSuffix)) == {}
  {
    var front, last := rounds[..|rounds| - 1], rounds[|rounds| - 1];
    var before := AfterAll(s, front, poolSuffix);
    if i == |rounds| - 1 {
      RoundRepairs(last.desired, before, OwnershipSuffix(last.environment, poolSuffix), {});
    } else {
      ControllersDoNotInterfere(s, front, poolSuffix, i);
      RoundSparesOthers(rounds[i], last, before, poolSuffix);
    }
  }
}
