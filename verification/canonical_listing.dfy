/** A successful listing is canonical: it does not depend on the order of the answers. */
module CanonicalListing {
  import opened Wrappers
  import opened Sequences
  import opened Discovery
  import opened TextOrder
  import opened DiscoveryConfig
  import opened KubernetesClient

  // ----- the listing as a map over the listed services

  const NO_SNAPSHOT := Snapshot("", Info("", "", "", "", "", ""), [], [], [])

  function Converted(lib: Library, clusterDomain: string): Object -> Snapshot {
    o => if SnapshotOf(lib, o, clusterDomain).Ok? then SnapshotOf(lib, o, clusterDomain).value else NO_SNAPSHOT
  }

  ghost predicate AllConvert(lib: Library, objects: seq<Object>) {
    forall i :: 0 <= i < |objects| ==> !Inconvertible(lib, objects[i])
  }

  function AllObjects(lists: seq<Listing>): seq<Object>
    decreases |lists|
  {
    if lists == [] then []
    else AllObjects(lists[..|lists| - 1]) + if lists[|lists| - 1].Ok? then lists[|lists| - 1].value else []
  }

  predicate AllAnswered(lists: seq<Listing>) {
    forall n :: 0 <= n < |lists| ==> lists[n].Ok?
  }

  lemma ConvertsIff(lib: Library, o: Object, clusterDomain: string)
    ensures SnapshotOf(lib, o, clusterDomain).Ok? <==> !Inconvertible(lib, o)
    ensures SnapshotOf(lib, o, clusterDomain).Ok? ==>
              && Converted(lib, clusterDomain)(o).uid == o.uid
              && (Storable(Converted(lib, clusterDomain)(o)) <==> DistinctHostnames(o.ingress))
  {
    SnapshotExact(lib, o, clusterDomain, CLUSTER_IP, Addresses.Addr(Addresses.V4, 0));
  }

  lemma {:induction false} CollectIsMap(lib: Library, clusterDomain: string, objects: seq<Object>)
    ensures var r := Collect(lib, clusterDomain, objects);
            (r.Ok? <==> AllConvert(lib, objects)) && (r.Ok? ==> r.value == Map(Converted(lib, clusterDomain), objects))
    decreases |objects|
  {
    if objects != [] {
      var before, last := objects[..|objects| - 1], objects[|objects| - 1];
      CollectIsMap(lib, clusterDomain, before);
      ConvertsIff(lib, last, clusterDomain);
      assert objects == before + [last];
      AllConvertSnoc(lib, before, [last]);
      MapConcat(Converted(lib, clusterDomain), before, [last]);
      CollectStep(lib, clusterDomain, objects);
    }
  }

  lemma CollectStep(lib: Library, clusterDomain: string, objects: seq<Object>)
    requires objects != []
    ensures var before := Collect(lib, clusterDomain, objects[..|objects| - 1]);
            var last := SnapshotOf(lib, objects[|objects| - 1], clusterDomain);
            Collect(lib, clusterDomain, objects) ==
              if before.Err? then before else if last.Err? then Err(last.error) else Ok(before.value + [last.value])
  {
  }

  lemma AllConvertSnoc(lib: Library, a: seq<Object>, b: seq<Object>)
    ensures AllConvert(lib, a + b) <==> AllConvert(lib, a) && AllConvert(lib, b)
  {
    if AllConvert(lib, a + b) {
      assert forall i :: 0 <= i < |a| ==> a[i] == (a + b)[i];
      assert forall i :: 0 <= i < |b| ==> b[i] == (a + b)[|a| + i];
    }
  }

  lemma MapConcat<A, B>(f: A -> B, a: seq<A>, b: seq<A>)
    ensures Map(f, a + b) == Map(f, a) + Map(f, b)
  {
  }

  /** The listing succeeds exactly when every list answers and every service converts. */
  lemma {:induction false} CollectListsIsMap(lib: Library, clusterDomain: string, lists: seq<Listing>)
    ensures var r := CollectLists(lib, clusterDomain, lists);
            && (r.Ok? <==> AllAnswered(lists) && AllConvert(lib, AllObjects(lists)))
            && (r.Ok? ==> r.value == Map(Converted(lib, clusterDomain), AllObjects(lists)))
    decreases |lists|
  {
    if lists != [] {
      var k := |lists| - 1;
      CollectListsIsMap(lib, clusterDomain, lists[..k]);
      assert AllAnswered(lists) <==> AllAnswered(lists[..k]) && lists[k].Ok? by {
        assert forall n :: 0 <= n < k ==> lists[..k][n] == lists[n];
      }
      if lists[k].Ok? {
        CollectIsMap(lib, clusterDomain, lists[k].value);
        AllConvertSnoc(lib, AllObjects(lists[..k]), lists[k].value);
        MapConcat(Converted(lib, clusterDomain), AllObjects(lists[..k]), lists[k].value);
      }
    }
  }

  // ----- one order only

  predicate DistinctObjects(objects: seq<Object>) {
    forall i, j :: 0 <= i < j < |objects| ==> objects[i].uid != objects[j].uid
  }

  /** Heads that each come later in the other sequence have the same sort key. */
  lemma SwappedHeads(a: seq<Snapshot>, b: seq<Snapshot>, i: nat, j: nat)
    requires Ordered(a) && Ordered(b) && 0 < i < |a| && 0 < j < |b| && a[i] == b[0] && b[j] == a[0]
    ensures a[0].uid == a[i].uid
  {
    TripleOrder(SortKey(a[0]), SortKey(b[0]), SortKey(a[0]));
    assert !BeforeTriple(SortKey(a[i]), SortKey(a[0]));
    assert !BeforeTriple(SortKey(b[j]), SortKey(b[0]));
  }

  lemma SameHead(a: seq<Snapshot>, b: seq<Snapshot>)
    requires Ordered(a) && Ordered(b) && DistinctSnapshots(a) && multiset(a) == multiset(b) && a != [] && b != []
    ensures a[0] == b[0]
  {
    assert a[0] in multiset(b) && b[0] in multiset(a);
    var i :| 0 <= i < |a| && a[i] == b[0];
    var j :| 0 <= j < |b| && b[j] == a[0];
    if i > 0 && j > 0 {
      SwappedHeads(a, b, i, j);
    }
  }

  /** With distinct UIDs there is only one ordered arrangement. */
  lemma {:induction false} OrderedUnique(a: seq<Snapshot>, b: seq<Snapshot>)
    requires Ordered(a) && Ordered(b) && DistinctSnapshots(a) && multiset(a) == multiset(b)
    ensures a == b
    decreases |a|
  {
    assert |multiset(a)| == |a| && |multiset(b)| == |b|;
    if a != [] {
      SameHead(a, b);
      assert a == [a[0]] + a[1..] && b == [b[0]] + b[1..];
      assert multiset(a) == multiset(a[1..]) + multiset{a[0]} && multiset(b) == multiset(b[1..]) + multiset{a[0]};
      CancelOne(multiset(a[1..]), multiset(b[1..]), a[0]);
      OrderedUnique(a[1..], b[1..]);
    }
  }

  lemma Twice<T>(s: seq<T>, i: nat, j: nat)
    requires i < j < |s|
    ensures s[i] == s[j] ==> multiset(s)[s[i]] >= 2
  {
    WithoutOne(s, j);
    assert (s[..j] + s[j + 1..])[i] == s[i];
  }

  lemma DistinctPermutation(a: seq<Snapshot>, b: seq<Snapshot>)
    requires multiset(a) == multiset(b) && DistinctSnapshots(a)
    ensures DistinctSnapshots(b)
  {
    forall i, j | 0 <= i < j < |b|
      ensures b[i].uid != b[j].uid
    {
      assert b[i] in multiset(a) && b[j] in multiset(a);
      var k :| 0 <= k < |a| && a[k] == b[i];
      var m :| 0 <= m < |a| && a[m] == b[j];
      CountOnce(a, a[k]);
      Twice(b, i, j);
    }
  }

  /**
   * Two listings of the same services, in any order, both succeed or both fail; when they
   * succeed and the UIDs are distinct, the results are equal.
   */
  lemma ListingIsCanonical(lib: Library, clusterDomain: string, lists: seq<Listing>, lists': seq<Listing>,
                           r: seq<Snapshot>, r': seq<Snapshot>)
    requires AllAnswered(lists) && AllAnswered(lists') && multiset(AllObjects(lists)) == multiset(AllObjects(lists'))
    requires DistinctObjects(AllObjects(lists))
    requires IsResult(lib, clusterDomain, lists, r) && IsResult(lib, clusterDomain, lists', r')
    ensures r == r'
  {
    CollectListsIsMap(lib, clusterDomain, lists);
    CollectListsIsMap(lib, clusterDomain, lists');
    MapPermutation(Converted(lib, clusterDomain), AllObjects(lists), AllObjects(lists'));
    ResultDistinct(lib, clusterDomain, lists, r);
    OrderedUnique(r, r');
  }

  /** What the listing method returns on success. */
  ghost predicate IsResult(lib: Library, clusterDomain: string, lists: seq<Listing>, r: seq<Snapshot>) {
    var all := CollectLists(lib, clusterDomain, lists);
    all.Ok? && Ordered(r) && multiset(r) == multiset(all.value)
  }

  lemma ResultDistinct(lib: Library, clusterDomain: string, lists: seq<Listing>, r: seq<Snapshot>)
    requires IsResult(lib, clusterDomain, lists, r) && DistinctObjects(AllObjects(lists))
    ensures DistinctSnapshots(r)
  {
    CollectListsIsMap(lib, clusterDomain, lists);
    var objects := AllObjects(lists);
    var all := CollectLists(lib, clusterDomain, lists).value;
    forall i | 0 <= i < |objects|
      ensures all[i].uid == objects[i].uid
    {
      ConvertsIff(lib, objects[i], clusterDomain);
    }
    DistinctPermutation(all, r);
  }

  /** Success does not depend on the order of the answers either. */
  lemma SuccessIsCanonical(lib: Library, clusterDomain: string, lists: seq<Listing>, lists': seq<Listing>)
    requires AllAnswered(lists) && AllAnswered(lists') && multiset(AllObjects(lists)) == multiset(AllObjects(lists'))
    ensures CollectLists(lib, clusterDomain, lists).Ok? <==> CollectLists(lib, clusterDomain, lists').Ok?
  {
    CollectListsIsMap(lib, clusterDomain, lists);
    CollectListsIsMap(lib, clusterDomain, lists');
    SameConvert(lib, AllObjects(lists), AllObjects(lists'));
    SameConvert(lib, AllObjects(lists'), AllObjects(lists));
  }

  lemma SameConvert(lib: Library, a: seq<Object>, b: seq<Object>)
    requires multiset(a) == multiset(b)
    ensures AllConvert(lib, a) ==> AllConvert(lib, b)
  {
    forall i | 0 <= i < |b| && AllConvert(lib, a)
      ensures !Inconvertible(lib, b[i])
    {
      assert b[i] in multiset(a);
      var k :| 0 <= k < |a| && a[k] == b[i];
    }
  }

  // ----- distinct UIDs

  /** What the API answers for a scope: its own namespace's services, no service twice. */
  ghost predicate Answers(namespaces: seq<string>, lists: seq<Listing>) {
    && |lists| == |namespaces| && AllAnswered(lists)
    && (forall n :: 0 <= n < |lists| ==> DistinctObjects(lists[n].value) && InNamespace(namespaces[n], lists[n].value))
  }

  predicate InNamespace(namespace: string, objects: seq<Object>) {
    namespace != ALL_NAMESPACES ==> forall i :: 0 <= i < |objects| ==> objects[i].namespace == namespace
  }

  /** A UID belongs to one service of the cluster and so to one namespace. */
  ghost predicate UidsAreUnique(objects: seq<Object>) {
    forall i, j :: 0 <= i < |objects| && 0 <= j < |objects| && objects[i].uid == objects[j].uid ==>
      objects[i].namespace == objects[j].namespace
  }

  /** Deduplicated, valid namespaces never overlap, so no service is listed twice. */
  lemma ListedOnce(isLabel: string -> bool, namespaces: seq<string>, lists: seq<Listing>)
    requires NoDup(namespaces) && ValidNamespaces(isLabel, namespaces)
    requires Answers(namespaces, lists) && UidsAreUnique(AllObjects(lists))
    ensures DistinctObjects(AllObjects(lists))
  {
    if |namespaces| == 1 {
      assert lists[..0] == [];
      assert AllObjects(lists) == lists[0].value;
    } else {
      NamedListedOnce(namespaces, lists);
    }
  }

  lemma {:induction false} NamedListedOnce(namespaces: seq<string>, lists: seq<Listing>)
    requires NoDup(namespaces) && ALL_NAMESPACES !in namespaces
    requires Answers(namespaces, lists) && UidsAreUnique(AllObjects(lists))
    ensures DistinctObjects(AllObjects(lists))
    ensures forall i :: 0 <= i < |AllObjects(lists)| ==> AllObjects(lists)[i].namespace in namespaces
    decreases |lists|
  {
    if lists != [] {
      var k := |lists| - 1;
      var before, last := AllObjects(lists[..k]), lists[k].value;
      assert AllObjects(lists) == before + last;
      PrefixUnique(before, last);
      assert forall n :: 0 <= n < k ==> lists[..k][n] == lists[n];
      NamedListedOnce(namespaces[..k], lists[..k]);
      assert InNamespace(namespaces[k], last);
      assert namespaces[k] !in namespaces[..k];
      Joined(namespaces[..k], namespaces[k], before, last);
      assert namespaces == namespaces[..k] + [namespaces[k]];
    }
  }

  lemma PrefixUnique(a: seq<Object>, b: seq<Object>)
    requires UidsAreUnique(a + b)
    ensures UidsAreUnique(a)
  {
    assert forall i :: 0 <= i < |a| ==> a[i] == (a + b)[i];
  }

  lemma Joined(named: seq<string>, namespace: string, a: seq<Object>, b: seq<Object>)
    requires UidsAreUnique(a + b) && DistinctObjects(a) && DistinctObjects(b) && namespace !in named
    requires forall i :: 0 <= i < |a| ==> a[i].namespace in named
    requires forall i :: 0 <= i < |b| ==> b[i].namespace == namespace
    ensures DistinctObjects(a + b)
  {
    var all := a + b;
    forall i, j | 0 <= i < j < |all|
      ensures all[i].uid != all[j].uid
    {
      if i < |a| <= j {
        assert all[i] == a[i] && all[j] == b[j - |a|];
      } else if j < |a| {
        assert all[i] == a[i] && all[j] == a[j];
      } else {
        assert all[i] == b[i - |a|] && all[j] == b[j - |a|];
      }
    }
  }

  // ----- storing what was listed

  /** The listed services can all be stored exactly when none reports a hostname twice. */
  lemma ListedIsStorableIff(lib: Library, clusterDomain: string, lists: seq<Listing>, r: seq<Snapshot>)
    requires IsResult(lib, clusterDomain, lists, r)
    ensures (forall i :: 0 <= i < |r| ==> Storable(r[i])) <==>
            forall i :: 0 <= i < |AllObjects(lists)| ==> DistinctHostnames(AllObjects(lists)[i].ingress)
  {
    CollectListsIsMap(lib, clusterDomain, lists);
    var objects, all := AllObjects(lists), CollectLists(lib, clusterDomain, lists).value;
    forall i | 0 <= i < |objects|
      ensures Storable(all[i]) <==> DistinctHostnames(objects[i].ingress)
    {
      ConvertsIff(lib, objects[i], clusterDomain);
    }
    StorablePermutation(all, r);
    StorablePermutation(r, all);
  }

  lemma StorablePermutation(a: seq<Snapshot>, b: seq<Snapshot>)
    requires multiset(a) == multiset(b)
    ensures (forall i :: 0 <= i < |a| ==> Storable(a[i])) ==> forall i :: 0 <= i < |b| ==> Storable(b[i])
  {
    forall i | 0 <= i < |b| && forall j :: 0 <= j < |a| ==> Storable(a[j])
      ensures Storable(b[i])
    {
      assert b[i] in multiset(a);
      var k :| 0 <= k < |a| && a[k] == b[i];
    }
  }

  // ----- what a listing holds

  ghost predicate IsListed(lists: seq<Listing>, o: Object) {
    exists n :: 0 <= n < |lists| && lists[n].Ok? && o in lists[n].value
  }

  lemma {:induction false} AllObjectsExactly(lists: seq<Listing>, o: Object)
    ensures o in AllObjects(lists) <==> IsListed(lists, o)
    decreases |lists|
  {
    if lists != [] {
      var k := |lists| - 1;
      AllObjectsExactly(lists[..k], o);
      if n :| 0 <= n < k && lists[..k][n].Ok? && o in lists[..k][n].value {
        assert lists[n] == lists[..k][n];
      }
      if n :| 0 <= n < |lists| && lists[n].Ok? && o in lists[n].value {
        assert n < k ==> lists[..k][n] == lists[n];
      }
    }
  }

  /** The snapshot carries exactly what the object reports. */
  ghost predicate Depicts(lib: Library, clusterDomain: string, o: Object, s: Snapshot) {
    forall kind, addr :: KubernetesClient.Carries(lib, o, clusterDomain, s, kind, addr)
  }

  lemma ConvertedDepicts(lib: Library, clusterDomain: string, o: Object)
    requires !Inconvertible(lib, o)
    ensures Depicts(lib, clusterDomain, o, Converted(lib, clusterDomain)(o))
  {
    forall kind, addr
      ensures KubernetesClient.Carries(lib, o, clusterDomain, Converted(lib, clusterDomain)(o), kind, addr)
    {
      SnapshotExact(lib, o, clusterDomain, kind, addr);
    }
  }

  /** Namespace first, then name, then UID. */
  predicate NotAfterInList(a: Snapshot, b: Snapshot) {
    if a.info.namespace != b.info.namespace then Before(a.info.namespace, b.info.namespace)
    else if a.info.name != b.info.name then Before(a.info.name, b.info.name)
    else a.uid == b.uid || Before(a.uid, b.uid)
  }

  /**
   * A successful listing depicts every listed service, depicts nothing else, has as many
   * snapshots as there are services, and is sorted by namespace, then name, then UID.
   */
  lemma ListingDepictsAll(lib: Library, clusterDomain: string, lists: seq<Listing>, r: seq<Snapshot>)
    requires IsResult(lib, clusterDomain, lists, r)
    ensures |r| == |AllObjects(lists)|
    ensures forall o :: IsListed(lists, o) ==> exists s :: s in r && Depicts(lib, clusterDomain, o, s)
    ensures forall s :: s in r ==> exists o :: IsListed(lists, o) && Depicts(lib, clusterDomain, o, s)
    ensures forall i, j :: 0 <= i < j < |r| ==> NotAfterInList(r[i], r[j])
  {
    CollectListsIsMap(lib, clusterDomain, lists);
    var objects, all := AllObjects(lists), CollectLists(lib, clusterDomain, lists).value;
    assert |multiset(r)| == |r| && |multiset(all)| == |all|;
    forall o | IsListed(lists, o)
      ensures exists s :: s in r && Depicts(lib, clusterDomain, o, s)
    {
      AllObjectsExactly(lists, o);
      var i :| 0 <= i < |objects| && objects[i] == o;
      ConvertedDepicts(lib, clusterDomain, o);
      assert all[i] in multiset(r);
    }
    forall s | s in r
      ensures exists o :: IsListed(lists, o) && Depicts(lib, clusterDomain, o, s)
    {
      assert s in multiset(all);
      var i :| 0 <= i < |all| && all[i] == s;
      AllObjectsExactly(lists, objects[i]);
      ConvertedDepicts(lib, clusterDomain, objects[i]);
    }
    forall i, j | 0 <= i < j < |r|
      ensures NotAfterInList(r[i], r[j])
    {
      TripleOrder(SortKey(r[i]), SortKey(r[j]), SortKey(r[i]));
    }
  }
}
