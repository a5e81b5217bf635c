/** How the controller decides that a listed endpoint needs an update (external-lb.go). */
module TargetDiff {
  import opened Model
  import opened Seqs
  import opened Text

  // What the nested search loops establish about the two target lists.
  predicate TargetsMissed(wanted: seq<LBTarget>, listed: seq<LBTarget>) {
    |wanted| != |listed| || exists t :: t in wanted && t !in listed
  }

  predicate Changed(wanted: LBConfig, listed: LBConfig) {
    !EqualFold(wanted.poolName, listed.poolName) || TargetsMissed(wanted.targets, listed.targets)
  }

  method NeedsUpdate(wanted: LBConfig, listed: LBConfig) returns (update: bool)
    ensures update <==> Changed(wanted, listed)
    ensures !update <==>
            && |wanted.poolName| == |listed.poolName|
            && (forall i :: 0 <= i < |wanted.poolName| ==>
                  var c, d := wanted.poolName[i], listed.poolName[i];
                  || c == d
                  || ('A' <= c <= 'Z' && d as int == c as int + 32)
                  || ('A' <= d <= 'Z' && c as int == d as int + 32))
            && |wanted.targets| == |listed.targets|
            && forall t :: t in wanted.targets ==> t in listed.targets
  {
    EqualFoldExact(wanted.poolName, listed.poolName);
    update := false;
    if EqualFold(wanted.poolName, listed.poolName) {
      if |wanted.targets| != |listed.targets| {
        update := true;
      } else {
        for i := 0 to |wanted.targets|
          invariant !update
          invariant forall k :: 0 <= k < i ==> wanted.targets[k] in listed.targets
        {
          var mTarget := wanted.targets[i];
          var targetExists := false;
          for j := 0 to |listed.targets|
            invariant !targetExists
            invariant mTarget !in listed.targets[..j]
          {
            var pTarget := listed.targets[j];
            if pTarget.hostIP == mTarget.hostIP && pTarget.port == mTarget.port {
              targetExists := true;
              break;
            }
          }
          if !targetExists {
            assert listed.targets[..|listed.targets|] == listed.targets;
            update := true;
            break;
          }
        }
      }
    } else {
      update := true;
    }
  }

  // Names that differ in length, or anywhere but in the case of a letter, are a change.
  lemma RenamedIsChanged(wanted: LBConfig, listed: LBConfig, i: nat)
    requires || |wanted.poolName| != |listed.poolName|
             || (i < |wanted.poolName| && wanted.poolName[i] != listed.poolName[i]
                 && !('A' <= wanted.poolName[i] <= 'Z') && !('a' <= wanted.poolName[i] <= 'z'))
    ensures Changed(wanted, listed)
  {
    EqualFoldExact(wanted.poolName, listed.poolName);
  }

  // For distinct wanted targets the test is exact, whatever the provider lists.
  lemma DiffIsExact(wanted: seq<LBTarget>, listed: seq<LBTarget>)
    requires Distinct(wanted)
    ensures TargetsMissed(wanted, listed) <==> multiset(wanted) != multiset(listed)
  {
    if !TargetsMissed(wanted, listed) {
      Pigeonhole(wanted, listed);
    }
    if multiset(wanted) == multiset(listed) {
      assert |multiset(wanted)| == |multiset(listed)|;
      forall t | t in wanted ensures t in listed {
        assert t in multiset(wanted);
      }
    }
  }

  // A target that no list of the given targets contains.
  function Unlisted(ts: seq<LBTarget>): (other: LBTarget)
    ensures other !in ts
    ensures forall t :: t in ts ==> |t.hostIP| < |other.hostIP|
  {
    if ts == [] then LBTarget("x", "")
    else
      var rest := Unlisted(ts[1..]);
      LBTarget(rest.hostIP + ts[0].hostIP + "x", "")
  }

  // And distinctness is exactly what it takes: a repeated target hides some change.
  lemma ExactOnlyForDistinct(wanted: seq<LBTarget>)
    ensures Distinct(wanted) <==>
            forall listed :: TargetsMissed(wanted, listed) <==> multiset(wanted) != multiset(listed)
  {
    if Distinct(wanted) {
      forall listed ensures TargetsMissed(wanted, listed) <==> multiset(wanted) != multiset(listed) {
        DiffIsExact(wanted, listed);
      }
    } else {
      var i, j :| 0 <= i < j < |wanted| && wanted[i] == wanted[j];
      var other := Unlisted(wanted);
      var listed := wanted[j := other];
      forall t | t in wanted ensures t in listed {
        var k :| 0 <= k < |wanted| && wanted[k] == t;
        assert listed[if k == j then i else k] == t;
      }
      assert listed[j] == other && other in multiset(listed) && other !in multiset(wanted);
      assert !(TargetsMissed(wanted, listed) <==> multiset(wanted) != multiset(listed));
    }
  }
}
