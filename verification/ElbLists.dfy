/** List and tag helpers of the ELB provider (elbv1/util.go, elbv1svc/util.go, elb_classic.go). */
module ElbLists {
  import opened Merging
  import opened Seqs

  // ----- lists of strings as sets

  function Self(s: string): string {
    s
  }

  // The strings of a that are not in b, in order.
  function Difference(a: seq<string>, b: seq<string>): seq<string> {
    Removed(a, Elements(b), Self)
  }

  method DifferenceStringSlice(sliceA: seq<string>, sliceB: seq<string>) returns (diff: seq<string>)
    ensures diff == Difference(sliceA, sliceB)
    ensures Elements(diff) == Elements(sliceA) - Elements(sliceB)
  {
    diff := [];
    for i := 0 to |sliceA|
      invariant diff == Difference(sliceA[..i], sliceB)
    {
      var a := sliceA[i];
      assert sliceA[..i + 1][..i] == sliceA[..i];
      var found := false;
      for j := 0 to |sliceB|
        invariant !found
        invariant a !in sliceB[..j]
      {
        if a == sliceB[j] {
          found := true;
          break;
        }
      }
      assert sliceB[..|sliceB|] == sliceB;
      if !found {
        diff := diff + [a];
      }
    }
    assert sliceA[..|sliceA|] == sliceA;
    DifferenceExact(sliceA, sliceB);
  }

  lemma DifferenceExact(a: seq<string>, b: seq<string>)
    ensures Elements(Difference(a, b)) == Elements(a) - Elements(b)
  {
    forall x ensures x in Difference(a, b) <==> x in a && x !in Elements(b) {
      KeptItems(a, Elements(b), Self, x);
    }
  }

  method RemoveDuplicates(strings: seq<string>) returns (unique: seq<string>)
    ensures unique == Retained(strings, Elements(strings), Self)
    ensures Distinct(unique) && Elements(unique) == Elements(strings)
  {
    unique := [];
    var m: map<string, bool> := map[];
    for i := 0 to |strings|
      invariant unique == Retained(strings[..i], Elements(strings), Self)
      invariant m.Keys == KeySet(unique, Self)
    {
      var v := strings[i];
      assert strings[..i + 1][..i] == strings[..i];
      if v !in m {
        KeysOfSum(unique, [v], Self);
        KeysOfOne(v, Self);
        unique := unique + [v];
        m := m[v := true];
      }
    }
    assert strings[..|strings|] == strings;
    RetainedKeys(strings, Elements(strings), Self);
    SelfKeys(strings);
    SelfKeys(unique);
    assert forall i, j :: 0 <= i < j < |unique| ==> Self(unique[i]) != Self(unique[j]);
  }

  lemma SelfKeys(strings: seq<string>)
    ensures KeySet(strings, Self) == Elements(strings)
  {
  }

  // ----- tags

  datatype Tag = Tag(key: string, value: string)

  // A later tag replaces an earlier one with its key.
  function TagMap(tags: seq<Tag>): map<string, string> {
    if tags == [] then map[]
    else TagMap(tags[..|tags| - 1])[tags[|tags| - 1].key := tags[|tags| - 1].value]
  }

  lemma {:induction false} LastTagWins(tags: seq<Tag>, k: string, v: string)
    ensures k in TagMap(tags) && TagMap(tags)[k] == v <==>
            exists i :: 0 <= i < |tags| && tags[i] == Tag(k, v) && forall j :: i < j < |tags| ==> tags[j].key != k
  {
    if tags != [] {
      var front, last := tags[..|tags| - 1], tags[|tags| - 1];
      LastTagWins(front, k, v);
      if last.key == k {
        if last.value == v {
          assert tags[|tags| - 1] == Tag(k, v);
        }
      } else {
        assert forall i :: 0 <= i < |front| ==> front[i] == tags[i];
      }
    }
  }

  method MapTags(tags: seq<Tag>) returns (m: map<string, string>)
    ensures m == TagMap(tags)
  {
    m := map[];
    for i := 0 to |tags|
      invariant m == TagMap(tags[..i])
    {
      assert tags[..i + 1][..i] == tags[..i];
      m := m[tags[i].key := tags[i].value];
    }
    assert tags[..|tags|] == tags;
  }

  lemma TagOneMore(written: seq<Tag>, tags: map<string, string>, rest: set<string>, k: string)
    requires TagMap(written) == tags - rest && k in rest && k in tags
    ensures TagMap(written + [Tag(k, tags[k])]) == tags - (rest - {k})
  {
    assert (written + [Tag(k, tags[k])])[..|written|] == written;
    assert (tags - rest)[k := tags[k]] == tags - (rest - {k});
  }

  // Whatever the order in which the map is read, the list gives the map back.
  method ElbTags(tags: map<string, string>) returns (s: array<Tag>)
    ensures fresh(s) && s.Length == |tags|
    ensures TagMap(s[..]) == tags
  {
    s := new Tag[|tags|](_ => Tag("", ""));
    var i := 0;
    var rest := tags.Keys;
    while rest != {}
      invariant rest <= tags.Keys
      invariant i + |rest| == |tags.Keys| == s.Length
      invariant TagMap(s[..i]) == tags - rest
    {
      var k :| k in rest;
      ghost var written := s[..i];
      s[i] := Tag(k, tags[k]);
      assert s[..i + 1] == written + [Tag(k, tags[k])];
      TagOneMore(written, tags, rest, k);
      rest := rest - {k};
      i := i + 1;
    }
    assert s[..] == s[..i];
  }

  // ----- chunks

  const CHUNK_SIZE := 20

  function Flatten<T>(chunks: seq<seq<T>>): seq<T> {
    if chunks == [] then [] else Flatten(chunks[..|chunks| - 1]) + chunks[|chunks| - 1]
  }

  // Chunks of 1 to 20 names that concatenate to the names in order.
  method DivideNames(names: seq<string>) returns (divided: seq<seq<string>>)
    ensures Flatten(divided) == names
    ensures forall i :: 0 <= i < |divided| ==> 1 <= |divided[i]| <= 20
    ensures forall i :: 0 <= i < |divided| - 1 ==> |divided[i]| == 20
  {
    divided := [];
    var i := 0;
    while i < |names|
      invariant 0 <= i
      invariant Flatten(divided) == names[..if i < |names| then i else |names|]
      invariant forall k :: 0 <= k < |divided| ==> 1 <= |divided[k]| <= CHUNK_SIZE
      invariant forall k :: 0 <= k < |divided| - 1 ==> |divided[k]| == CHUNK_SIZE
      invariant i < |names| && |divided| > 0 ==> |divided[|divided| - 1]| == CHUNK_SIZE
    {
      var end := i + CHUNK_SIZE;
      if end > |names| {
        end := |names|;
      }
      ghost var before := divided;
      divided := divided + [names[i..end]];
      assert divided[..|divided| - 1] == before;
      assert names[..i] + names[i..end] == names[..end];
      i := i + CHUNK_SIZE;
    }
  }

  lemma {:induction false} FlattenMember<T>(chunks: seq<seq<T>>, x: T)
    ensures x in Flatten(chunks) <==> exists i :: 0 <= i < |chunks| && x in chunks[i]
  {
    if chunks != [] {
      var front, last := chunks[..|chunks| - 1], chunks[|chunks| - 1];
      FlattenMember(front, x);
      assert x in Flatten(chunks) <==> x in Flatten(front) || x in last;
      assert forall i :: 0 <= i < |front| ==> front[i] == chunks[i];
    }
  }

  lemma ChunkMember(chunks: seq<seq<string>>, i: nat)
    requires i < |chunks|
    ensures forall n :: n in chunks[i] ==> n in Flatten(chunks)
  {
    forall n | n in chunks[i] ensures n in Flatten(chunks) {
      FlattenMember(chunks, n);
    }
  }
}
