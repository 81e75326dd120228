/** Small facts about sequences used by the reads and the importer. */
module Sequences {
  ghost predicate NoDup<T>(s: seq<T>) {
    forall i, j :: 0 <= i < j < |s| ==> s[i] != s[j]
  }

  function Append<T(==)>(s: seq<T>, x: T): seq<T> {
    if x in s then s else s + [x]
  }

  lemma AppendIsSet<T>(s: seq<T>, x: T)
    requires NoDup(s)
    ensures NoDup(Append(s, x))
    ensures forall y :: y in Append(s, x) <==> y in s || y == x
  {
  }

  function Map<A, B>(f: A -> B, s: seq<A>): seq<B> {
    seq(|s|, i requires 0 <= i < |s| => f(s[i]))
  }

  /** Mapping respects permutation. */
  lemma {:induction false} MapPermutation<A, B>(f: A -> B, a: seq<A>, b: seq<A>)
    requires multiset(a) == multiset(b)
    ensures multiset(Map(f, a)) == multiset(Map(f, b))
    decreases |a|
  {
    if a == [] {
      assert |multiset(a)| == 0 && |multiset(b)| == |b|;
    } else {
      assert a[0] in multiset(b);
      var k :| 0 <= k < |b| && b[k] == a[0];
      var rest := b[..k] + b[k + 1..];
      WithoutOne(a, 0);
      WithoutOne(b, k);
      assert a[..0] + a[1..] == a[1..];
      CancelOne(multiset(a[1..]), multiset(rest), a[0]);
      MapPermutation(f, a[1..], rest);
      WithoutOne(Map(f, a), 0);
      WithoutOne(Map(f, b), k);
      assert Map(f, a)[..0] + Map(f, a)[1..] == Map(f, a[1..]);
      assert Map(f, b)[..k] + Map(f, b)[k + 1..] == Map(f, rest);
    }
  }

  lemma CancelOne<T>(x: multiset<T>, y: multiset<T>, e: T)
    requires x + multiset{e} == y + multiset{e}
    ensures x == y
  {
    assert x == x + multiset{e} - multiset{e};
    assert y == y + multiset{e} - multiset{e};
  }

  lemma WithoutOne<T>(s: seq<T>, k: nat)
    requires k < |s|
    ensures multiset(s) == multiset(s[..k] + s[k + 1..]) + multiset{s[k]}
  {
    assert s == s[..k] + [s[k]] + s[k + 1..];
  }

  /** Two duplicate-free sequences with the same elements are permutations of each other. */
  lemma SameElements<T>(a: seq<T>, b: seq<T>)
    requires NoDup(a) && NoDup(b) && forall x :: x in a <==> x in b
    ensures multiset(a) == multiset(b)
  {
    forall x
      ensures multiset(a)[x] == multiset(b)[x]
    {
      CountOnce(a, x);
      CountOnce(b, x);
    }
  }

  lemma {:induction false} CountOnce<T>(a: seq<T>, x: T)
    requires NoDup(a)
    ensures multiset(a)[x] == if x in a then 1 else 0
    decreases |a|
  {
    if a != [] {
      assert a == [a[0]] + a[1..];
      CountOnce(a[1..], x);
    }
  }

  /** The elements of a set, each once. */
  ghost function SeqOf<T(!new)>(s: set<T>): (q: seq<T>)
    ensures NoDup(q) && forall x :: x in q <==> x in s
    decreases s
  {
    if s == {} then []
    else
      var x :| x in s;
      var rest := SeqOf(s - {x});
      assert x !in rest;
      rest + [x]
  }

  // ----- rows of one owner

  /** The values of the rows that carry an owner, in order. */
  function Select<K(==), V>(rows: seq<(K, V)>, k: K): seq<V>
    decreases |rows|
  {
    if rows == [] then []
    else
      var last := rows[|rows| - 1];
      Select(rows[..|rows| - 1], k) + if last.0 == k then [last.1] else []
  }

  /** Each owner's values, tagged with it. */
  function Tagged<K, V>(owners: seq<K>, values: K -> seq<V>): seq<(K, V)>
    decreases |owners|
  {
    if owners == [] then []
    else
      var k := owners[|owners| - 1];
      Tagged(owners[..|owners| - 1], values) + Map(v => (k, v), values(k))
  }

  lemma {:induction false} SelectConcat<K, V>(a: seq<(K, V)>, b: seq<(K, V)>, k: K)
    ensures Select(a + b, k) == Select(a, k) + Select(b, k)
    decreases |b|
  {
    if b == [] {
      assert a + b == a;
    } else {
      SelectConcat(a, b[..|b| - 1], k);
      assert (a + b)[..|a + b| - 1] == a + b[..|b| - 1];
    }
  }

  lemma {:induction false} SelectOwn<K, V>(k: K, vs: seq<V>, j: K)
    ensures Select(Map(v => (k, v), vs), j) == if j == k then vs else []
    decreases |vs|
  {
    if vs != [] {
      var m := |vs| - 1;
      SelectOwn(k, vs[..m], j);
      assert Map(v => (k, v), vs)[..m] == Map(v => (k, v), vs[..m]);
    }
  }

  /** Selecting by an owner undoes the tagging. */
  lemma {:induction false} SelectTagged<K, V>(owners: seq<K>, values: K -> seq<V>, k: K)
    requires NoDup(owners)
    ensures Select(Tagged(owners, values), k) == if k in owners then values(k) else []
    decreases |owners|
  {
    if owners != [] {
      var m := |owners| - 1;
      SelectTagged(owners[..m], values, k);
      SelectConcat(Tagged(owners[..m], values), Map(v => (owners[m], v), values(owners[m])), k);
      SelectOwn(owners[m], values(owners[m]), k);
    }
  }

  // ----- the last element of a kind

  /** The last position whose element satisfies p, or -1. */
  function LastWhere<T>(s: seq<T>, p: T -> bool): (i: int)
    ensures -1 <= i < |s|
    ensures i >= 0 ==> p(s[i])
    ensures forall j :: i < j < |s| ==> !p(s[j])
    decreases |s|
  {
    if s == [] then -1
    else if p(s[|s| - 1]) then |s| - 1
    else LastWhere(s[..|s| - 1], p)
  }
}
