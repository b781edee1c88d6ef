/** Sorted lists of ranges: what an ordered tree of range nodes holds, in tree order. */
module RangeList {

  /** A node; its identity tells it from others that take over its range. */
  datatype Node = Node(id: nat, low: nat, high: nat)

  /** Node i lies before node j, with a gap, or the two would have been one. */
  predicate Gap(nodes: seq<Node>, i: nat, j: nat) {
    i < |nodes| && j < |nodes| && nodes[i].high + 1 < nodes[j].low
  }

  ghost predicate Sorted(nodes: seq<Node>) {
    && (forall i :: 0 <= i < |nodes| ==> nodes[i].low <= nodes[i].high)
    && (forall i, j :: 0 <= i < j < |nodes| ==> Gap(nodes, i, j))
  }

  predicate In(n: Node, x: int) {
    n.low <= x <= n.high
  }

  /** x is in one of the ranges. */
  ghost predicate Has(nodes: seq<Node>, x: int) {
    exists i :: 0 <= i < |nodes| && In(nodes[i], x)
  }

  ghost predicate DistinctIds(nodes: seq<Node>) {
    forall i, j :: 0 <= i < j < |nodes| ==> nodes[i].id != nodes[j].id
  }

  /** The number of values in the ranges. */
  function Total(nodes: seq<Node>): (t: int) {
    if nodes == [] then 0 else Total(nodes[..|nodes| - 1]) + nodes[|nodes| - 1].high - nodes[|nodes| - 1].low + 1
  }

  lemma {:induction false} TotalConcat(a: seq<Node>, b: seq<Node>)
    ensures Total(a + b) == Total(a) + Total(b)
  {
    if b == [] {
      assert a + b == a;
    } else {
      assert (a + b)[..|a + b| - 1] == a + b[..|b| - 1];
      TotalConcat(a, b[..|b| - 1]);
    }
  }

  lemma {:induction false} TotalIsLarge(nodes: seq<Node>, i: nat)
    requires i < |nodes| && forall j :: 0 <= j < |nodes| ==> nodes[j].low <= nodes[j].high
    ensures Total(nodes) >= nodes[i].high - nodes[i].low + 1
    ensures Total(nodes) >= |nodes|
  {
    if |nodes| > 1 {
      TotalIsLarge(nodes[..|nodes| - 1], if i < |nodes| - 1 then i else 0);
    }
  }

  // ---------------------------------------------------------------- changing one place

  /** Nodes [a, b) are replaced. */
  function Replaced(nodes: seq<Node>, a: nat, b: nat, fill: seq<Node>): seq<Node>
    requires a <= b <= |nodes|
  {
    nodes[..a] + fill + nodes[b..]
  }

  lemma ReplacedTotal(nodes: seq<Node>, a: nat, b: nat, fill: seq<Node>)
    requires a <= b <= |nodes|
    ensures Total(Replaced(nodes, a, b, fill)) == Total(nodes) - Total(nodes[a..b]) + Total(fill)
  {
    TotalConcat(nodes[..a] + fill, nodes[b..]);
    TotalConcat(nodes[..a], fill);
    TotalConcat(nodes[..b], nodes[b..]);
    TotalConcat(nodes[..a], nodes[a..b]);
    assert nodes[..b] == nodes[..a] + nodes[a..b];
    assert nodes == nodes[..b] + nodes[b..];
  }

  lemma ReplacedHas(nodes: seq<Node>, a: nat, b: nat, fill: seq<Node>, x: int)
    requires a <= b <= |nodes|
    ensures Has(Replaced(nodes, a, b, fill), x) <==> Has(nodes[..a], x) || Has(fill, x) || Has(nodes[b..], x)
    ensures Has(nodes, x) <==> Has(nodes[..a], x) || Has(nodes[a..b], x) || Has(nodes[b..], x)
  {
    HasConcat(nodes[..a] + fill, nodes[b..], x);
    HasConcat(nodes[..a], fill, x);
    HasConcat(nodes[..b], nodes[b..], x);
    HasConcat(nodes[..a], nodes[a..b], x);
    assert nodes[..b] == nodes[..a] + nodes[a..b];
    assert nodes == nodes[..b] + nodes[b..];
  }

  lemma HasConcat(a: seq<Node>, b: seq<Node>, x: int)
    ensures Has(a + b, x) <==> Has(a, x) || Has(b, x)
  {
    var c := a + b;
    if Has(a, x) {
      var i :| 0 <= i < |a| && In(a[i], x);
      assert In(c[i], x);
    }
    if Has(b, x) {
      var i :| 0 <= i < |b| && In(b[i], x);
      assert In(c[|a| + i], x);
    }
    if Has(c, x) {
      var i :| 0 <= i < |c| && In(c[i], x);
      if i < |a| { assert In(a[i], x); } else { assert In(b[i - |a|], x); }
    }
  }

  /** Sorted nodes stay so if the new ones are, and keep away from their neighbours. */
  lemma ReplacedSorted(nodes: seq<Node>, a: nat, b: nat, fill: seq<Node>)
    requires a <= b <= |nodes| && Sorted(nodes) && Sorted(fill)
    requires fill != [] && a > 0 ==> nodes[a - 1].high + 1 < fill[0].low
    requires fill != [] && b < |nodes| ==> fill[|fill| - 1].high + 1 < nodes[b].low
    ensures Sorted(Replaced(nodes, a, b, fill))
  {
    var z := Replaced(nodes, a, b, fill);
    forall i | 0 <= i < |z| ensures z[i].low <= z[i].high { }
    forall i, j | 0 <= i < j < |z| ensures Gap(z, i, j) {
      ReplacedGap(nodes, a, b, fill, i, j);
    }
  }

  lemma ReplacedGap(nodes: seq<Node>, a: nat, b: nat, fill: seq<Node>, i: nat, j: nat)
    requires a <= b <= |nodes| && Sorted(nodes) && Sorted(fill) && i < j < |Replaced(nodes, a, b, fill)|
    requires fill != [] && a > 0 ==> nodes[a - 1].high + 1 < fill[0].low
    requires fill != [] && b < |nodes| ==> fill[|fill| - 1].high + 1 < nodes[b].low
    ensures Gap(Replaced(nodes, a, b, fill), i, j)
  {
    var m := |fill|;
    var z := Replaced(nodes, a, b, fill);
    if i < a {
      assert z[i] == nodes[i];
      if j < a {
        assert Gap(nodes, i, j);
      } else if j < a + m {
        assert i < a - 1 ==> Gap(nodes, i, a - 1);
        assert j > a ==> Gap(fill, 0, j - a);
      } else {
        assert Gap(nodes, i, j - a - m + b);
      }
    } else if i < a + m {
      assert z[i] == fill[i - a];
      if j < a + m {
        assert Gap(fill, i - a, j - a);
      } else {
        assert i - a < m - 1 ==> Gap(fill, i - a, m - 1);
        assert j > a + m ==> Gap(nodes, b, j - a - m + b);
      }
    } else {
      assert Gap(nodes, i - a - m + b, j - a - m + b);
    }
  }

  lemma ReplacedIds(nodes: seq<Node>, a: nat, b: nat, fill: seq<Node>)
    requires a <= b <= |nodes| && DistinctIds(nodes) && DistinctIds(fill)
    requires forall i, j :: 0 <= i < |fill| && 0 <= j < |nodes| && !(a <= j < b) ==> fill[i].id != nodes[j].id
    ensures DistinctIds(Replaced(nodes, a, b, fill))
  {
    var z, m := Replaced(nodes, a, b, fill), |fill|;
    forall i, j | 0 <= i < j < |z| ensures z[i].id != z[j].id {
      assert z[i] == if i < a then nodes[i] else if i < a + m then fill[i - a] else nodes[i - a - m + b];
      assert z[j] == if j < a then nodes[j] else if j < a + m then fill[j - a] else nodes[j - a - m + b];
    }
  }

  lemma HasIt(nodes: seq<Node>, i: nat, x: int)
    requires i < |nodes|
    ensures In(nodes[i], x) ==> Has(nodes, x)
  {
  }

  /** Values are in one node only, and nodes in order hold values in order. */
  lemma OneNode(nodes: seq<Node>, i: nat, j: nat, x: int)
    requires Sorted(nodes) && i < |nodes| && j < |nodes| && In(nodes[i], x) && In(nodes[j], x)
    ensures i == j
  {
    assert i < j ==> Gap(nodes, i, j);
    assert j < i ==> Gap(nodes, j, i);
  }

  lemma HasOne(n: Node, x: int)
    ensures Has([n], x) <==> In(n, x)
  {
    if In(n, x) { assert In([n][0], x); }
  }

  lemma HasTwo(n: Node, m: Node, x: int)
    ensures Has([n, m], x) <==> In(n, x) || In(m, x)
  {
    assert [n, m] == [n] + [m];
    HasConcat([n], [m], x);
    HasOne(n, x);
    HasOne(m, x);
  }

  lemma TotalOne(n: Node)
    ensures Total([n]) == n.high - n.low + 1
  {
    assert [n][..0] == [];
  }

  lemma TotalTwo(n: Node, m: Node)
    ensures Total([n, m]) == n.high - n.low + 1 + m.high - m.low + 1
  {
    assert [n, m] == [n] + [m];
    TotalConcat([n], [m]);
    TotalOne(n);
    TotalOne(m);
  }

  /** One node in place of one. */
  lemma Retouch(nodes: seq<Node>, k: nat, n: Node)
    requires k < |nodes| && Sorted(nodes) && DistinctIds(nodes) && n.low <= n.high && n.id == nodes[k].id
    requires k > 0 ==> nodes[k - 1].high + 1 < n.low
    requires k + 1 < |nodes| ==> n.high + 1 < nodes[k + 1].low
    ensures Sorted(Replaced(nodes, k, k + 1, [n])) && DistinctIds(Replaced(nodes, k, k + 1, [n]))
    ensures Total(Replaced(nodes, k, k + 1, [n])) == Total(nodes) - (nodes[k].high - nodes[k].low) + (n.high - n.low)
    ensures forall x :: Has(Replaced(nodes, k, k + 1, [n]), x) <==> In(n, x) || (Has(nodes, x) && !In(nodes[k], x))
  {
    assert nodes[k..k + 1] == [nodes[k]];
    ReplacedSorted(nodes, k, k + 1, [n]);
    ReplacedIds(nodes, k, k + 1, [n]);
    ReplacedTotal(nodes, k, k + 1, [n]);
    TotalOne(n);
    TotalOne(nodes[k]);
    forall x ensures Has(Replaced(nodes, k, k + 1, [n]), x) <==> In(n, x) || (Has(nodes, x) && !In(nodes[k], x)) {
      ReplacedHas(nodes, k, k + 1, [n], x);
      HasOne(n, x);
      HasOne(nodes[k], x);
      OthersAway(nodes, k, x);
    }
  }

  /** A node grows upwards. */
  lemma RetouchUp(nodes: seq<Node>, k: nat, num: nat)
    requires k < |nodes| && Sorted(nodes) && DistinctIds(nodes) && num > 0
    requires k + 1 < |nodes| ==> nodes[k].high + num + 1 < nodes[k + 1].low
    ensures
      var z := nodes[k := nodes[k].(high := nodes[k].high + num)];
      && Replaced(nodes, k, k + 1, [nodes[k].(high := nodes[k].high + num)]) == z
      && Sorted(z) && DistinctIds(z) && Total(z) == Total(nodes) + num
      && forall x :: Has(z, x) <==> Has(nodes, x) || nodes[k].high + 1 <= x < nodes[k].high + 1 + num
  {
    assert k > 0 ==> Gap(nodes, k - 1, k);
    var n := nodes[k].(high := nodes[k].high + num);
    Retouch(nodes, k, n);
    var z := nodes[k := n];
    assert Replaced(nodes, k, k + 1, [n]) == z;
    forall x ensures Has(z, x) <==> In(n, x) || (Has(nodes, x) && !In(nodes[k], x)) { }
    hide Has, Sorted, DistinctIds, Total;
    forall x ensures In(nodes[k], x) ==> Has(nodes, x) { HasIt(nodes, k, x); }
  }

  /** A node grows downwards. */
  lemma RetouchDown(nodes: seq<Node>, k: nat, num: nat)
    requires k < |nodes| && Sorted(nodes) && DistinctIds(nodes) && 0 < num <= nodes[k].low
    requires k > 0 ==> nodes[k - 1].high + 1 < nodes[k].low - num
    ensures
      var z := nodes[k := nodes[k].(low := nodes[k].low - num)];
      && Replaced(nodes, k, k + 1, [nodes[k].(low := nodes[k].low - num)]) == z
      && Sorted(z) && DistinctIds(z) && Total(z) == Total(nodes) + num
      && forall x :: Has(z, x) <==> Has(nodes, x) || nodes[k].low - num <= x < nodes[k].low
  {
    assert k + 1 < |nodes| ==> Gap(nodes, k, k + 1);
    var n := nodes[k].(low := nodes[k].low - num);
    Retouch(nodes, k, n);
    var z := nodes[k := n];
    assert Replaced(nodes, k, k + 1, [n]) == z;
    forall x ensures Has(z, x) <==> In(n, x) || (Has(nodes, x) && !In(nodes[k], x)) { }
    hide Has, Sorted, DistinctIds, Total;
    forall x ensures In(nodes[k], x) ==> Has(nodes, x) { HasIt(nodes, k, x); }
  }

  /** What is in node k is in no other. */
  lemma OthersAway(nodes: seq<Node>, k: nat, x: int)
    requires k < |nodes| && Sorted(nodes)
    ensures In(nodes[k], x) ==> !Has(nodes[..k], x) && !Has(nodes[k + 1..], x)
  {
    if In(nodes[k], x) && Has(nodes[..k], x) {
      var i :| 0 <= i < k && In(nodes[..k][i], x);
      OneNode(nodes, i, k, x);
    }
    if In(nodes[k], x) && Has(nodes[k + 1..], x) {
      var i :| 0 <= i < |nodes| - k - 1 && In(nodes[k + 1..][i], x);
      OneNode(nodes, i + k + 1, k, x);
    }
  }

  /** One node less. */
  lemma Drop(nodes: seq<Node>, k: nat)
    requires k < |nodes| && Sorted(nodes) && DistinctIds(nodes)
    ensures Sorted(Replaced(nodes, k, k + 1, [])) && DistinctIds(Replaced(nodes, k, k + 1, []))
    ensures Total(Replaced(nodes, k, k + 1, [])) == Total(nodes) - (nodes[k].high - nodes[k].low + 1)
    ensures forall x :: Has(Replaced(nodes, k, k + 1, []), x) <==> Has(nodes, x) && !In(nodes[k], x)
  {
    assert nodes[k..k + 1] == [nodes[k]];
    ReplacedSorted(nodes, k, k + 1, []);
    ReplacedIds(nodes, k, k + 1, []);
    ReplacedTotal(nodes, k, k + 1, []);
    TotalOne(nodes[k]);
    forall x ensures Has(Replaced(nodes, k, k + 1, []), x) <==> Has(nodes, x) && !In(nodes[k], x) {
      ReplacedHas(nodes, k, k + 1, [], x);
      HasOne(nodes[k], x);
      OthersAway(nodes, k, x);
    }
  }

  /** One node more. */
  lemma Insert(nodes: seq<Node>, k: nat, n: Node)
    requires k <= |nodes| && Sorted(nodes) && DistinctIds(nodes) && n.low <= n.high
    requires forall i :: 0 <= i < |nodes| ==> nodes[i].id != n.id
    requires k > 0 ==> nodes[k - 1].high + 1 < n.low
    requires k < |nodes| ==> n.high + 1 < nodes[k].low
    ensures Sorted(Replaced(nodes, k, k, [n])) && DistinctIds(Replaced(nodes, k, k, [n]))
    ensures Total(Replaced(nodes, k, k, [n])) == Total(nodes) + (n.high - n.low + 1)
    ensures forall x :: Has(Replaced(nodes, k, k, [n]), x) <==> Has(nodes, x) || In(n, x)
  {
    assert nodes[k..k] == [];
    ReplacedSorted(nodes, k, k, [n]);
    ReplacedIds(nodes, k, k, [n]);
    ReplacedTotal(nodes, k, k, [n]);
    TotalOne(n);
    forall x ensures Has(Replaced(nodes, k, k, [n]), x) <==> Has(nodes, x) || In(n, x) {
      ReplacedHas(nodes, k, k, [n], x);
      HasOne(n, x);
    }
  }

  /** Two neighbours become one, which fills the hole between them. */
  lemma Merge(nodes: seq<Node>, k: nat)
    requires 0 < k < |nodes| && Sorted(nodes) && DistinctIds(nodes)
    ensures
      var z := Replaced(nodes, k - 1, k + 1, [nodes[k - 1].(high := nodes[k].high)]);
      && Sorted(z) && DistinctIds(z)
      && Total(z) == Total(nodes) + (nodes[k].low - nodes[k - 1].high - 1)
      && forall x :: Has(z, x) <==> Has(nodes, x) || nodes[k - 1].high < x < nodes[k].low
  {
    var n := nodes[k - 1].(high := nodes[k].high);
    var z := Replaced(nodes, k - 1, k + 1, [n]);
    assert Gap(nodes, k - 1, k);
    assert nodes[k - 1..k + 1] == [nodes[k - 1], nodes[k]];
    assert k > 1 ==> Gap(nodes, k - 2, k - 1);
    assert k + 1 < |nodes| ==> Gap(nodes, k, k + 1);
    ReplacedSorted(nodes, k - 1, k + 1, [n]);
    ReplacedIds(nodes, k - 1, k + 1, [n]);
    ReplacedTotal(nodes, k - 1, k + 1, [n]);
    TotalOne(n);
    TotalTwo(nodes[k - 1], nodes[k]);
    forall x ensures Has(z, x) <==> Has(nodes, x) || nodes[k - 1].high < x < nodes[k].low {
      ReplacedHas(nodes, k - 1, k + 1, [n], x);
      HasOne(n, x);
      HasTwo(nodes[k - 1], nodes[k], x);
    }
  }

  /** nova_find_range_node: the node that holds the key, or the number of nodes below it. */
  method FindRangeNode(nodes: seq<Node>, key: nat) returns (found: bool, k: nat)
    requires Sorted(nodes)
    ensures found <==> Has(nodes, key)
    ensures found ==> k < |nodes| && In(nodes[k], key)
    ensures !found ==>
              k <= |nodes| && (forall i :: 0 <= i < k ==> nodes[i].high < key)
              && (k < |nodes| ==> key < nodes[k].low)
  {
    k := 0;
    while k < |nodes| && nodes[k].high < key
      invariant k <= |nodes| && forall i :: 0 <= i < k ==> nodes[i].high < key
    {
      k := k + 1;
    }
    found := k < |nodes| && nodes[k].low <= key;
    forall i | k < i < |nodes| ensures !found ==> key < nodes[i].low { assert Gap(nodes, k, i); }
  }

  /** nova_find_free_slot: the place of a new range between the nodes below and the nodes above
      it.  Fails if the range begins inside a node; a range must not run into a later one. */
  method FindFreeSlot(nodes: seq<Node>, low: nat, high: nat) returns (ok: bool, k: nat)
    requires Sorted(nodes) && low <= high && (Has(nodes, low) || forall x :: low <= x <= high ==> !Has(nodes, x))
    ensures ok <==> !Has(nodes, low)
    ensures ok ==>
              k <= |nodes| && (forall i :: 0 <= i < k ==> nodes[i].high < low)
              && (forall i :: k <= i < |nodes| ==> nodes[i].low > high)
  {
    var found;
    found, k := FindRangeNode(nodes, low);
    ok := !found;
    if ok {
      forall i | k <= i < |nodes| ensures nodes[i].low > high {
        assert k < i ==> Gap(nodes, k, i);
        HasIt(nodes, k, nodes[k].low);
      }
    }
  }

  /** All identities are below a bound, and all ranges inside some limits. */
  ghost predicate Below(nodes: seq<Node>, bound: nat) {
    forall i :: 0 <= i < |nodes| ==> 0 < nodes[i].id < bound
  }

  ghost predicate Inside(nodes: seq<Node>, low: int, high: int) {
    forall i :: 0 <= i < |nodes| ==> low <= nodes[i].low && nodes[i].high <= high
  }

  lemma ReplacedBelow(nodes: seq<Node>, a: nat, b: nat, fill: seq<Node>, bound: nat, bound': nat)
    requires a <= b <= |nodes| && Below(nodes, bound) && Below(fill, bound') && bound <= bound'
    ensures Below(Replaced(nodes, a, b, fill), bound')
  {
    var z := Replaced(nodes, a, b, fill);
    forall i | 0 <= i < |z| ensures 0 < z[i].id < bound' {
      assert z[i] == if i < a then nodes[i] else if i < a + |fill| then fill[i - a] else nodes[i - a - |fill| + b];
    }
  }

  lemma ReplacedInside(nodes: seq<Node>, a: nat, b: nat, fill: seq<Node>, low: int, high: int)
    requires a <= b <= |nodes| && Inside(nodes, low, high)
    ensures Inside(Replaced(nodes, a, b, fill), low, high) <==> Inside(fill, low, high)
  {
    var z := Replaced(nodes, a, b, fill);
    forall i | 0 <= i < |z|
      ensures z[i] == if i < a then nodes[i] else if i < a + |fill| then fill[i - a] else nodes[i - a - |fill| + b]
    {
    }
    forall i | 0 <= i < |fill| ensures z[a + i] == fill[i] { }
  }

  lemma ReplacedInsideOne(nodes: seq<Node>, a: nat, b: nat, n: Node, low: int, high: int)
    requires a <= b <= |nodes|
    ensures Inside(nodes, low, high) ==>
            (Inside(Replaced(nodes, a, b, [n]), low, high) <==> low <= n.low && n.high <= high)
    ensures Inside(nodes, low, high) ==> forall i :: 0 <= i < |nodes| ==> low <= nodes[i].low && nodes[i].high <= high
  {
    if Inside(nodes, low, high) {
      ReplacedInside(nodes, a, b, [n], low, high);
      assert [n][0] == n;
    }
  }
}
