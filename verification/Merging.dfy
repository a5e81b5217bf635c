/** Lists of keyed items: keeping the wanted ones, dropping the unwanted ones, appending the missing ones. */
module Merging {

  function KeySet<T(==)>(items: seq<T>, key: T -> string): set<string> {
    set x | x in items :: key(x)
  }

  ghost predicate DistinctBy<T>(items: seq<T>, key: T -> string) {
    forall i, j :: 0 <= i < j < |items| ==> key(items[i]) != key(items[j])
  }

  // The wanted items that are there, each key once, as they are and in their order.
  function Retained<T(==)>(items: seq<T>, wanted: set<string>, key: T -> string): seq<T> {
    if items == [] then []
    else
      var kept := Retained(items[..|items| - 1], wanted, key);
      var x := items[|items| - 1];
      if key(x) in wanted && key(x) !in KeySet(kept, key) then kept + [x] else kept
  }

  function Removed<T(==)>(items: seq<T>, unwanted: set<string>, key: T -> string): seq<T> {
    if items == [] then []
    else
      var kept := Removed(items[..|items| - 1], unwanted, key);
      var x := items[|items| - 1];
      if key(x) in unwanted then kept else kept + [x]
  }

  lemma {:induction false} KeptItems<T>(items: seq<T>, keys: set<string>, key: T -> string, x: T)
    ensures x in Retained(items, keys, key) ==> x in items
    ensures x in Removed(items, keys, key) <==> x in items && key(x) !in keys
  {
    if items != [] {
      KeptItems(items[..|items| - 1], keys, key, x);
      assert x in items <==> x in items[..|items| - 1] || x == items[|items| - 1];
    }
  }

  lemma KeysOfOne<T>(x: T, key: T -> string)
    ensures KeySet([x], key) == {key(x)}
  {
    assert [x][0] == x;
    assert forall y :: y in [x] <==> y == x;
  }

  lemma KeysOfSum<T>(a: seq<T>, b: seq<T>, key: T -> string)
    ensures KeySet(a + b, key) == KeySet(a, key) + KeySet(b, key)
  {
  }

  lemma KeysOfLast<T>(items: seq<T>, key: T -> string)
    requires items != []
    ensures KeySet(items, key) == KeySet(items[..|items| - 1], key) + {key(items[|items| - 1])}
  {
    KeysOfSum(items[..|items| - 1], [items[|items| - 1]], key);
    assert items == items[..|items| - 1] + [items[|items| - 1]];
  }

  lemma DistinctOfSum<T>(a: seq<T>, b: seq<T>, key: T -> string)
    requires DistinctBy(b, key) && KeySet(a, key) !! KeySet(b, key)
    ensures DistinctBy(a + b, key) <==> DistinctBy(a, key)
  {
    forall i, j | 0 <= i < |a| && 0 <= j < |b| ensures key(a[i]) != key(b[j]) {
      assert key(a[i]) in KeySet(a, key) && key(b[j]) in KeySet(b, key);
    }
    if DistinctBy(a + b, key) {
      forall i, j | 0 <= i < j < |a| ensures key(a[i]) != key(a[j]) {
        assert (a + b)[i] == a[i] && (a + b)[j] == a[j];
      }
    }
  }

  lemma NoKeysNoItems<T>(items: seq<T>, key: T -> string)
    ensures items == [] <==> KeySet(items, key) == {}
  {
    if items != [] {
      KeysOfLast(items, key);
      assert key(items[|items| - 1]) in KeySet(items, key);
    }
  }

  lemma RetainedStep<T>(items: seq<T>, i: nat, wanted: set<string>, key: T -> string)
    requires i < |items|
    ensures var kept, x := Retained(items[..i], wanted, key), items[i];
            && Retained(items[..i + 1], wanted, key)
               == (if key(x) in wanted && key(x) !in KeySet(kept, key) then kept + [x] else kept)
            && KeySet(kept + [x], key) == KeySet(kept, key) + {key(x)}
  {
    var kept, x := Retained(items[..i], wanted, key), items[i];
    assert items[..i + 1][..i] == items[..i];
    KeysOfSum(kept, [x], key);
    KeysOfOne(x, key);
  }

  // Retaining keeps each wanted key that is there, exactly once.
  lemma {:induction false} RetainedKeys<T>(items: seq<T>, wanted: set<string>, key: T -> string)
    ensures DistinctBy(Retained(items, wanted, key), key)
    ensures KeySet(Retained(items, wanted, key), key) == KeySet(items, key) * wanted
  {
    if items != [] {
      var kept, x := Retained(items[..|items| - 1], wanted, key), items[|items| - 1];
      RetainedKeys(items[..|items| - 1], wanted, key);
      KeysOfLast(items, key);
      KeysOfSum(kept, [x], key);
      assert forall i :: 0 <= i < |kept| ==> key(kept[i]) in KeySet(kept, key);
    }
  }

  // Position i of the kept items is position at[i] of the old ones.
  ghost predicate Subsequence<T>(kept: seq<T>, items: seq<T>, at: seq<nat>) {
    && |at| == |kept|
    && (forall i, j :: 0 <= i < j < |at| ==> at[i] < at[j])
    && (forall i :: 0 <= i < |at| ==> at[i] < |items| && kept[i] == items[at[i]])
  }

  lemma SubsequenceGrows<T>(kept: seq<T>, items: seq<T>, at: seq<nat>, x: T)
    requires Subsequence(kept, items, at)
    ensures Subsequence(kept, items + [x], at)
    ensures Subsequence(kept + [x], items + [x], at + [|items|])
  {
  }

  // It keeps a subsequence, items unmodified and in order: of each wanted key the first item.
  lemma {:induction false} RetainedInOrder<T>(items: seq<T>, wanted: set<string>, key: T -> string)
      returns (at: seq<nat>)
    ensures Subsequence(Retained(items, wanted, key), items, at)
    ensures forall i: nat :: i < |items| ==>
              (i in at <==> key(items[i]) in wanted && key(items[i]) !in KeySet(items[..i], key))
  {
    at := [];
    if items != [] {
      var n := |items| - 1;
      var front, x := items[..n], items[n];
      at := RetainedInOrder(front, wanted, key);
      RetainedKeys(front, wanted, key);
      SubsequenceGrows(Retained(front, wanted, key), front, at, x);
      assert front + [x] == items;
      assert forall i: nat :: i < n ==> front[..i] == items[..i];
      assert n !in at;
      if key(x) in wanted && key(x) !in KeySet(front, key) {
        ghost var before := at;
        at := at + [n];
        assert forall i :: i in at <==> i in before || i == n;
      }
    }
  }

  // A list whose keys are wanted and distinct is retained as it is.
  lemma {:induction false} RetainedWhole<T>(items: seq<T>, wanted: set<string>, key: T -> string)
    requires DistinctBy(items, key) && KeySet(items, key) <= wanted
    ensures Retained(items, wanted, key) == items
  {
    if items != [] {
      var front, x := items[..|items| - 1], items[|items| - 1];
      KeysOfLast(items, key);
      assert front + [x] == items;
      RetainedWhole(front, wanted, key);
    }
  }

  // A removal keeps exactly the other items, unmodified and in order.
  lemma {:induction false} RemovedInOrder<T>(items: seq<T>, unwanted: set<string>, key: T -> string)
      returns (at: seq<nat>)
    ensures Subsequence(Removed(items, unwanted, key), items, at)
    ensures forall i: nat :: i < |items| ==> (i in at <==> key(items[i]) !in unwanted)
  {
    at := [];
    if items != [] {
      var n := |items| - 1;
      var front, x := items[..n], items[n];
      at := RemovedInOrder(front, unwanted, key);
      SubsequenceGrows(Removed(front, unwanted, key), front, at, x);
      assert front + [x] == items;
      assert n !in at;
      if key(x) !in unwanted {
        ghost var before := at;
        at := at + [n];
        assert forall i :: i in at <==> i in before || i == n;
      }
    }
  }

  lemma {:induction false} RemovedKeys<T>(items: seq<T>, unwanted: set<string>, key: T -> string)
    ensures KeySet(Removed(items, unwanted, key), key) == KeySet(items, key) - unwanted
  {
    if items != [] {
      RemovedKeys(items[..|items| - 1], unwanted, key);
      KeysOfLast(items, key);
      KeysOfSum(Removed(items[..|items| - 1], unwanted, key), [items[|items| - 1]], key);
    }
  }

  // Removing shortens the list exactly when it removes something, and otherwise leaves it alone.
  lemma {:induction false} RemovedLength<T>(items: seq<T>, unwanted: set<string>, key: T -> string)
    ensures |Removed(items, unwanted, key)| <= |items|
    ensures |Removed(items, unwanted, key)| == |items| <==> KeySet(items, key) !! unwanted
    ensures KeySet(items, key) !! unwanted ==> Removed(items, unwanted, key) == items
  {
    if items != [] {
      RemovedLength(items[..|items| - 1], unwanted, key);
      KeysOfLast(items, key);
    }
  }

  lemma {:induction false} RemovedOfSum<T>(a: seq<T>, b: seq<T>, unwanted: set<string>, key: T -> string)
    ensures Removed(a + b, unwanted, key) == Removed(a, unwanted, key) + Removed(b, unwanted, key)
  {
    if b == [] {
      assert a + b == a;
    } else {
      var front := b[..|b| - 1];
      RemovedOfSum(a, front, unwanted, key);
      assert (a + b)[..|a + b| - 1] == a + front;
    }
  }

  lemma RemovedAll<T>(items: seq<T>, unwanted: set<string>, key: T -> string)
    requires KeySet(items, key) <= unwanted
    ensures Removed(items, unwanted, key) == []
  {
    RemovedKeys(items, unwanted, key);
    NoKeysNoItems(Removed(items, unwanted, key), key);
  }
}
