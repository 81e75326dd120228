/** The namespace list of the discovery configuration and the checks on it. */
module DiscoveryConfig {
  import opened Sequences

  const ALL_NAMESPACES := "*"

  /** The trimmed, nonempty items, each at its first place. */
  function Items(trim: string -> string, pieces: seq<string>): seq<string>
    decreases |pieces|
  {
    if pieces == [] then []
    else
      var before, item := Items(trim, pieces[..|pieces| - 1]), trim(pieces[|pieces| - 1]);
      if item == "" then before else Append(before, item)
  }

  lemma {:induction false} ItemsExact(trim: string -> string, pieces: seq<string>, x: string)
    ensures NoDup(Items(trim, pieces))
    ensures x in Items(trim, pieces) <==> x != "" && exists i :: 0 <= i < |pieces| && trim(pieces[i]) == x
    decreases |pieces|
  {
    if pieces != [] {
      var k := |pieces| - 1;
      ItemsExact(trim, pieces[..k], x);
      AppendIsSet(Items(trim, pieces[..k]), trim(pieces[k]));
      if i :| 0 <= i < k && trim(pieces[..k][i]) == x {
        assert trim(pieces[i]) == x;
      }
      if i :| 0 <= i < |pieces| && trim(pieces[i]) == x {
        assert i < k ==> trim(pieces[..k][i]) == x;
      }
    }
  }

  /** The first piece that trims to this item. */
  predicate FirstAt(trim: string -> string, pieces: seq<string>, x: string, i: nat) {
    i < |pieces| && trim(pieces[i]) == x && forall k :: 0 <= k < i ==> trim(pieces[k]) != x
  }

  /** The items come in the order of their first places. */
  lemma {:induction false} ItemsInOrder(trim: string -> string, pieces: seq<string>, a: nat, b: nat, i: nat, j: nat)
    requires a < b < |Items(trim, pieces)|
    requires FirstAt(trim, pieces, Items(trim, pieces)[a], i) && FirstAt(trim, pieces, Items(trim, pieces)[b], j)
    ensures i < j
    decreases |pieces|
  {
    var m := |pieces| - 1;
    var before, items := Items(trim, pieces[..m]), Items(trim, pieces);
    ItemsExact(trim, pieces[..m], items[a]);
    ItemsExact(trim, pieces[..m], items[b]);
    if b < |before| {
      var k :| 0 <= k < m && trim(pieces[..m][k]) == items[b];
      var n :| 0 <= n < m && trim(pieces[..m][n]) == items[a];
      assert trim(pieces[k]) == items[b] && trim(pieces[n]) == items[a];
      assert i < m && j < m;
      ItemsInOrder(trim, pieces[..m], a, b, i, j);
    } else {
      assert items[a] in before;
      var n :| 0 <= n < m && trim(pieces[..m][n]) == items[a];
      assert trim(pieces[n]) == items[a];
      assert i <= n < m;
      assert forall k :: 0 <= k < m ==> trim(pieces[..m][k]) != items[b];
    }
  }

  /** Reads a comma-separated list, given the pieces between the commas. */
  method ParseList(trim: string -> string, pieces: seq<string>) returns (items: seq<string>)
    ensures items == Items(trim, pieces) && NoDup(items) && "" !in items
  {
    var seen: set<string> := {};
    items := [];
    for i := 0 to |pieces|
      invariant items == Items(trim, pieces[..i])
      invariant forall x :: x in seen <==> x in items
    {
      assert pieces[..i + 1][..i] == pieces[..i];
      var item := trim(pieces[i]);
      if item != "" && item !in seen {
        seen := seen + {item};
        items := items + [item];
      }
    }
    assert pieces[..|pieces|] == pieces;
    ItemsExact(trim, pieces, "");
  }

  /** The scope names at least one namespace, and all namespaces only on its own. */
  predicate ValidNamespaces(isLabel: string -> bool, namespaces: seq<string>) {
    && namespaces != []
    && (|namespaces| > 1 ==> ALL_NAMESPACES !in namespaces)
    && forall i :: 0 <= i < |namespaces| && namespaces[i] != ALL_NAMESPACES ==> isLabel(namespaces[i])
  }
}
