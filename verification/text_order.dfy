/** The byte order of text, and orders by several texts at once. */
module TextOrder {
  /** a comes strictly before b. */
  predicate Before(a: string, b: string)
    decreases |a|
  {
    if b == "" then false
    else if a == "" then true
    else if a[0] != b[0] then a[0] < b[0]
    else Before(a[1..], b[1..])
  }

  lemma {:induction false} Irreflexive(a: string)
    ensures !Before(a, a)
    decreases |a|
  {
    if a != "" { Irreflexive(a[1..]); }
  }

  lemma {:induction false} Transitive(a: string, b: string, c: string)
    requires Before(a, b) && Before(b, c)
    ensures Before(a, c)
    decreases |a|
  {
    if a != "" && a[0] == b[0] && b[0] == c[0] {
      Transitive(a[1..], b[1..], c[1..]);
    }
  }

  lemma {:induction false} Connected(a: string, b: string)
    ensures Before(a, b) || Before(b, a) || a == b
    decreases |a|
  {
    if a != "" && b != "" && a[0] == b[0] {
      Connected(a[1..], b[1..]);
      assert a == [a[0]] + a[1..] && b == [b[0]] + b[1..];
    }
  }

  /** The shorter of two texts that agree comes first, else the one with the smaller first different character. */
  ghost predicate Differs(a: string, b: string, k: nat) {
    k <= |a| && k < |b| && a[..k] == b[..k] && (k == |a| || a[k] < b[k])
  }

  lemma {:induction false} BeforeExactly(a: string, b: string)
    ensures Before(a, b) <==> exists k: nat :: Differs(a, b, k)
    decreases |a|
  {
    if a == "" || b == "" || a[0] != b[0] {
      if Before(a, b) { assert Differs(a, b, 0); }
    } else {
      BeforeExactly(a[1..], b[1..]);
      if k: nat :| Differs(a[1..], b[1..], k) {
        assert a[..k + 1] == [a[0]] + a[1..][..k] && b[..k + 1] == [b[0]] + b[1..][..k];
        assert Differs(a, b, k + 1);
      }
      if k: nat :| Differs(a, b, k) {
        assert k > 0;
        assert a[1..][..k - 1] == a[..k][1..] && b[1..][..k - 1] == b[..k][1..];
        assert Differs(a[1..], b[1..], k - 1);
      }
    }
  }

  type Triple = (string, string, string)

  predicate BeforeTriple(a: Triple, b: Triple) {
    if a.0 != b.0 then Before(a.0, b.0)
    else if a.1 != b.1 then Before(a.1, b.1)
    else Before(a.2, b.2)
  }

  /** The order by three texts is strict and total. */
  lemma TripleOrder(a: Triple, b: Triple, c: Triple)
    ensures !BeforeTriple(a, a)
    ensures BeforeTriple(a, b) || BeforeTriple(b, a) || a == b
    ensures BeforeTriple(a, b) && BeforeTriple(b, c) ==> BeforeTriple(a, c)
  {
    Irreflexive(a.2);
    Connected(a.0, b.0);
    Connected(a.1, b.1);
    Connected(a.2, b.2);
    if BeforeTriple(a, b) && BeforeTriple(b, c) {
      Irreflexive(a.0);
      Irreflexive(a.1);
      if Before(a.0, b.0) && Before(b.0, c.0) { Transitive(a.0, b.0, c.0); }
      if Before(a.1, b.1) && Before(b.1, c.1) { Transitive(a.1, b.1, c.1); }
      if Before(a.2, b.2) && Before(b.2, c.2) { Transitive(a.2, b.2, c.2); }
    }
  }
}
