/** The block allocator: one list of free ranges for each CPU. */
module BlockAllocator {
  import opened Common
  import opened RangeList

  const EINVAL: int := -22
  const EIO: int := -5
  const ENOSPC: int := -28
  const PAGES_PER_2MB: nat := 512
  const DEAD_ZONE_BLOCKS: nat := 256
  /** The right margin of a superpage is kept in 32 bits. */
  const UINT: nat := 0x1_0000_0000

  /** z is the list nodes with the blocks [low, low + num). */
  ghost predicate Adds(nodes: seq<Node>, z: seq<Node>, low: int, num: int, bound: nat, start: int, end: int) {
    && Sorted(z) && DistinctIds(z) && Below(z, bound) && Total(z) == Total(nodes) + num
    && (forall x :: Has(z, x) <==> Has(nodes, x) || low <= x < low + num)
    && (Inside(nodes, start, end) ==> (Inside(z, start, end) <==> start <= low && low + num - 1 <= end))
  }

  lemma Filled(nodes: seq<Node>, k: nat, bound: nat, start: int, end: int)
    requires Sorted(nodes) && DistinctIds(nodes) && Below(nodes, bound) && 0 < k < |nodes|
    ensures
      var n := nodes[k - 1].(high := nodes[k].high);
      Adds(nodes, Replaced(nodes, k - 1, k + 1, [n]), nodes[k - 1].high + 1, nodes[k].low - nodes[k - 1].high - 1,
        bound, start, end)
  {
    var n := nodes[k - 1].(high := nodes[k].high);
    Merge(nodes, k);
    assert Gap(nodes, k - 1, k);
    ReplacedBelow(nodes, k - 1, k + 1, [n], bound, bound);
    ReplacedInsideOne(nodes, k - 1, k + 1, n, start, end);
    hide Sorted, DistinctIds, Total, Has, Below, Inside, Replaced;
  }

  lemma GrownUp(nodes: seq<Node>, k: nat, num: nat, bound: nat, start: int, end: int)
    requires Sorted(nodes) && DistinctIds(nodes) && Below(nodes, bound)
    requires k < |nodes| && num > 0 && (k + 1 < |nodes| ==> nodes[k].high + num + 1 < nodes[k + 1].low)
    ensures
      var n := nodes[k].(high := nodes[k].high + num);
      Adds(nodes, Replaced(nodes, k, k + 1, [n]), nodes[k].high + 1, num, bound, start, end)
        && Replaced(nodes, k, k + 1, [n]) == nodes[k := n]
  {
    var n := nodes[k].(high := nodes[k].high + num);
    RetouchUp(nodes, k, num);
    ReplacedBelow(nodes, k, k + 1, [n], bound, bound);
    ReplacedInsideOne(nodes, k, k + 1, n, start, end);
    hide Sorted, DistinctIds, Total, Has, Below, Inside, Replaced;
  }

  lemma GrownDown(nodes: seq<Node>, k: nat, num: nat, bound: nat, start: int, end: int)
    requires Sorted(nodes) && DistinctIds(nodes) && Below(nodes, bound)
    requires k < |nodes| && 0 < num <= nodes[k].low && (k > 0 ==> nodes[k - 1].high + 1 < nodes[k].low - num)
    ensures
      var n := nodes[k].(low := nodes[k].low - num);
      Adds(nodes, Replaced(nodes, k, k + 1, [n]), nodes[k].low - num, num, bound, start, end)
        && Replaced(nodes, k, k + 1, [n]) == nodes[k := n]
  {
    var n := nodes[k].(low := nodes[k].low - num);
    assert nodes[k].low <= nodes[k].high;
    RetouchDown(nodes, k, num);
    ReplacedBelow(nodes, k, k + 1, [n], bound, bound);
    ReplacedInsideOne(nodes, k, k + 1, n, start, end);
    hide Sorted, DistinctIds, Total, Has, Below, Inside, Replaced;
  }

  lemma Inserted(nodes: seq<Node>, k: nat, n: Node, start: int, end: int)
    requires Sorted(nodes) && DistinctIds(nodes) && Below(nodes, n.id) && 0 < n.id
    requires k <= |nodes| && n.low <= n.high && (k > 0 ==> nodes[k - 1].high + 1 < n.low)
    requires k < |nodes| ==> n.high + 1 < nodes[k].low
    ensures Adds(nodes, Replaced(nodes, k, k, [n]), n.low, n.high - n.low + 1, n.id + 1, start, end)
    ensures |Replaced(nodes, k, k, [n])| == |nodes| + 1 && Replaced(nodes, k, k, [n])[k] == n
    ensures k > 0 ==> Replaced(nodes, k, k, [n])[0] == nodes[0]
    ensures k < |nodes| ==> Replaced(nodes, k, k, [n])[|nodes|] == nodes[|nodes| - 1]
  {
    Insert(nodes, k, n);
    ReplacedBelow(nodes, k, k, [n], n.id, n.id + 1);
    ReplacedInsideOne(nodes, k, k, n, start, end);
    hide Sorted, DistinctIds, Total, Has, Below, Inside;
  }

  /** z is the list nodes without the blocks [low, low + num), all of which it held. */
  ghost predicate Takes(nodes: seq<Node>, z: seq<Node>, low: int, num: int, bound: nat, start: int, end: int) {
    && Sorted(z) && DistinctIds(z) && Below(z, bound) && Total(z) == Total(nodes) - num
    && (forall x :: low <= x < low + num ==> Has(nodes, x))
    && (forall x :: Has(z, x) <==> Has(nodes, x) && !(low <= x < low + num))
    && (Inside(nodes, start, end) ==> Inside(z, start, end))
  }

  /** From what is in the nodes to what is in the range. */
  lemma TakesFrom(nodes: seq<Node>, z: seq<Node>, k: nat, low: int, num: int)
    requires k < |nodes| && forall x :: Has(z, x) <==> Has(nodes, x) && !(In(nodes[k], x) && low <= x < low + num)
    requires nodes[k].low <= low && low + num - 1 <= nodes[k].high
    ensures forall x :: low <= x < low + num ==> Has(nodes, x)
    ensures forall x :: Has(z, x) <==> Has(nodes, x) && !(low <= x < low + num)
  {
    forall x | low <= x < low + num ensures Has(nodes, x) && In(nodes[k], x) { HasIt(nodes, k, x); }
  }

  lemma Dropped(nodes: seq<Node>, k: nat, bound: nat, start: int, end: int)
    requires Sorted(nodes) && DistinctIds(nodes) && Below(nodes, bound) && k < |nodes|
    ensures Takes(nodes, Replaced(nodes, k, k + 1, []), nodes[k].low, nodes[k].high - nodes[k].low + 1, bound, start,
            end)
  {
    var z := Replaced(nodes, k, k + 1, []);
    Drop(nodes, k);
    ReplacedBelow(nodes, k, k + 1, [], bound, bound);
    TakesFrom(nodes, z, k, nodes[k].low, nodes[k].high - nodes[k].low + 1);
    if Inside(nodes, start, end) { ReplacedInside(nodes, k, k + 1, [], start, end); }
    hide Sorted, DistinctIds, Total, Has, Below, Replaced;
  }

  /** A node loses blocks at one end. */
  lemma Shrunk(nodes: seq<Node>, k: nat, n: Node, low: int, num: int, bound: nat, start: int, end: int)
    requires Sorted(nodes) && DistinctIds(nodes) && Below(nodes, bound) && k < |nodes| && 0 <= num
    requires n.id == nodes[k].id && n.low <= n.high
    requires (low == nodes[k].low && n.low == low + num && n.high == nodes[k].high)
             || (low == n.high + 1 && n.low == nodes[k].low && n.high == nodes[k].high - num)
    ensures Takes(nodes, Replaced(nodes, k, k + 1, [n]), low, num, bound, start, end)
    ensures Replaced(nodes, k, k + 1, [n]) == nodes[k := n]
  {
    hide Has, Sorted, DistinctIds, Total;
    NeighbourGaps(nodes, k);
    var z := nodes[k := n];
    assert Replaced(nodes, k, k + 1, [n]) == z;
    Retouch(nodes, k, n);
    ReplacedBelow(nodes, k, k + 1, [n], bound, bound);
    ReplacedInsideOne(nodes, k, k + 1, n, start, end);
    hide Sorted, DistinctIds, Total, Below, Replaced, Inside;
    ShrunkHas(nodes, z, k, n, low, num);
    TakesFrom(nodes, z, k, low, num);
    hide Has;
  }

  lemma ShrunkHas(nodes: seq<Node>, z: seq<Node>, k: nat, n: Node, low: int, num: int)
    requires k < |nodes| && forall x :: Has(z, x) <==> In(n, x) || (Has(nodes, x) && !In(nodes[k], x))
    requires forall x :: In(n, x) <==> In(nodes[k], x) && !(low <= x < low + num)
    ensures forall x :: Has(z, x) <==> Has(nodes, x) && !(In(nodes[k], x) && low <= x < low + num)
  {
    forall x ensures Has(z, x) <==> Has(nodes, x) && !(In(nodes[k], x) && low <= x < low + num) { HasIt(nodes, k, x); }
  }

  lemma NeighbourGaps(nodes: seq<Node>, k: nat)
    requires Sorted(nodes) && k < |nodes|
    ensures k > 0 ==> nodes[k - 1].high + 1 < nodes[k].low
    ensures k + 1 < |nodes| ==> nodes[k].high + 1 < nodes[k + 1].low
    ensures nodes[k].low <= nodes[k].high
  {
    assert k > 0 ==> Gap(nodes, k - 1, k);
    assert k + 1 < |nodes| ==> Gap(nodes, k, k + 1);
  }

  lemma SplitSorted(nodes: seq<Node>, k: nat, n: Node, m: Node)
    requires Sorted(nodes) && DistinctIds(nodes) && Below(nodes, m.id) && k < |nodes|
    requires n.id == nodes[k].id && nodes[k].low == n.low <= n.high && n.high + 1 < m.low <= m.high == nodes[k].high
    ensures Sorted(Replaced(nodes, k, k + 1, [n, m])) && DistinctIds(Replaced(nodes, k, k + 1, [n, m]))
    ensures Total(Replaced(nodes, k, k + 1, [n, m])) == Total(nodes) - (m.low - n.high - 1)
  {
    assert nodes[k..k + 1] == [nodes[k]];
    NeighbourGaps(nodes, k);
    ReplacedSorted(nodes, k, k + 1, [n, m]);
    ReplacedIds(nodes, k, k + 1, [n, m]);
    ReplacedTotal(nodes, k, k + 1, [n, m]);
    TotalTwo(n, m);
    TotalOne(nodes[k]);
    hide Sorted, DistinctIds, Total, Below, Replaced;
  }

  /** A node loses blocks in its middle; m is the new node for those above. */
  lemma Split(nodes: seq<Node>, k: nat, n: Node, m: Node, bound: nat, start: int, end: int)
    requires Sorted(nodes) && DistinctIds(nodes) && Below(nodes, bound) && k < |nodes| && 0 < bound == m.id
    requires n.id == nodes[k].id && nodes[k].low == n.low <= n.high && n.high + 1 < m.low <= m.high == nodes[k].high
    ensures Takes(nodes, Replaced(nodes, k, k + 1, [n, m]), n.high + 1, m.low - n.high - 1, bound + 1, start, end)
    ensures Replaced(nodes, k, k + 1, [n, m])[0] == (if k == 0 then n else nodes[0])
    ensures
      var z := Replaced(nodes, k, k + 1, [n, m]);
      |z| == |nodes| + 1 && z[|nodes|] == if k == |nodes| - 1 then m else nodes[|nodes| - 1]
  {
    assert 0 < n.id < bound;
    SplitSorted(nodes, k, n, m);
    SplitHas(nodes, k, n, m);
    ReplacedBelow(nodes, k, k + 1, [n, m], bound, bound + 1);
    if Inside(nodes, start, end) { ReplacedInside(nodes, k, k + 1, [n, m], start, end); }
    hide Sorted, DistinctIds, Total, Has, Below;
  }

  lemma SplitHas(nodes: seq<Node>, k: nat, n: Node, m: Node)
    requires Sorted(nodes) && k < |nodes|
    requires nodes[k].low == n.low <= n.high && n.high + 1 < m.low <= m.high == nodes[k].high
    ensures forall x :: Has(Replaced(nodes, k, k + 1, [n, m]), x) <==> Has(nodes, x) && !(n.high + 1 <= x < m.low)
    ensures forall x :: n.high + 1 <= x < m.low ==> Has(nodes, x)
  {
    assert nodes[k..k + 1] == [nodes[k]];
    forall x
      ensures Has(Replaced(nodes, k, k + 1, [n, m]), x) <==> Has(nodes, x) && !(n.high + 1 <= x < m.low)
      ensures In(nodes[k], x) ==> Has(nodes, x)
    {
      ReplacedHas(nodes, k, k + 1, [n, m], x);
      HasTwo(n, m, x);
      HasOne(nodes[k], x);
      OthersAway(nodes, k, x);
    }
  }

  /** The blocks of a node in front of its first inner 2MB boundary.  The boundary on which an
      aligned node begins does not count, so there are always some. */
  function LeftMargin(n: Node): (m: nat)
    ensures 1 <= m <= PAGES_PER_2MB && (n.low + m) % PAGES_PER_2MB == 0
    ensures n.low % PAGES_PER_2MB == 0 <==> m == PAGES_PER_2MB
  {
    PAGES_PER_2MB - n.low % PAGES_PER_2MB
  }

  function Size(n: Node): int {
    n.high - n.low + 1
  }

  /** How many of the wanted blocks a superpage allocation takes from a node: all, or as many
      2MB pages as fit. */
  function Best(n: Node, want: nat): nat {
    var room := Size(n) - LeftMargin(n);
    if room >= 0 && want > room && room / PAGES_PER_2MB * PAGES_PER_2MB > 0 then room / PAGES_PER_2MB * PAGES_PER_2MB
      else want
  }

  /** A node may be too small for a request of single pages, but not for one of larger pages. */
  predicate Usable(n: Node, btype: nat, num: nat) {
    btype == 0 || num <= Size(n)
  }

  predicate SuperpageFits(n: Node, want: nat) {
    Size(n) > LeftMargin(n) && Best(n, want) <= Size(n) - LeftMargin(n)
  }

  /** What a superpage allocation gets from a node. */
  function Got(n: Node, want: nat): nat {
    if SuperpageFits(n, want) then Best(n, want) else 0
  }

  /** The 2MB pages that lie in a node as a whole: page i for First(n) <= i < First(n) + Held(n). */
  function First(n: Node): int {
    (n.low + PAGES_PER_2MB - 1) / PAGES_PER_2MB
  }

  function Held(n: Node): nat {
    var end := (n.high + 1) / PAGES_PER_2MB;
    if First(n) < end then end - First(n) else 0
  }

  lemma HeldPages(n: Node, i: int)
    ensures n.low <= i * PAGES_PER_2MB && i * PAGES_PER_2MB + PAGES_PER_2MB - 1 <= n.high
            <==> First(n) <= i < First(n) + Held(n)
  {
  }

  function Min(a: nat, b: nat): nat {
    if a <= b then a else b
  }

  /** The node begins with a 2MB page, and it is needed. */
  predicate Wasteful(n: Node, want: nat) {
    n.low % PAGES_PER_2MB == 0 && want + PAGES_PER_2MB > Size(n) && Held(n) > 0
  }

  /** A superpage allocation gets from a node what is wanted, or else all 2MB pages that lie in it,
      but for one: exactly from a node that begins with a 2MB page which is needed it gets a page
      less. */
  lemma SuperpageGets(n: Node, want: nat)
    requires n.low <= n.high && want > 0 && want % PAGES_PER_2MB == 0
    ensures Got(n, want) == Min(want, PAGES_PER_2MB * Held(n)) - if Wasteful(n, want) then PAGES_PER_2MB else 0
    ensures Got(n, want) == Min(want, PAGES_PER_2MB * Held(n)) <==> !Wasteful(n, want)
  {
    if n.low % PAGES_PER_2MB == 0 {
      assert Held(n) == Size(n) / PAGES_PER_2MB;
    } else {
      var room := Size(n) - LeftMargin(n);
      assert First(n) * PAGES_PER_2MB == n.low + LeftMargin(n);
      assert Held(n) == if room < 0 then 0 else room / PAGES_PER_2MB;
    }
  }

  /** The nodes that it passes over: those in which no 2MB page lies, and those in which one lies,
      at their beginning. */
  predicate Refused(n: Node) {
    Held(n) == 0 || (n.low % PAGES_PER_2MB == 0 && Held(n) == 1)
  }

  lemma RefusedExactly(n: Node, want: nat)
    requires n.low <= n.high && want > 0 && want % PAGES_PER_2MB == 0
    ensures SuperpageFits(n, want) <==> !Refused(n)
  {
    SuperpageGets(n, want);
  }

  /** Of two free 2MB pages a request for two gets one, and a single one is refused. */
  lemma FirstPageIsWasted()
    ensures Held(Node(1, 0, 1023)) == 2 && Got(Node(1, 0, 1023), 1024) == 512
    ensures Held(Node(1, 0, 511)) == 1 && Got(Node(1, 0, 511), 512) == 0
  {
    SuperpageGets(Node(1, 0, 1023), 1024);
    SuperpageGets(Node(1, 0, 511), 512);
  }

  /** What a superpage allocation of num blocks from node n leaves above them. */
  function RightMargin(n: Node, num: nat): int {
    Size(n) - LeftMargin(n) - num
  }

  /** The right margin is cut to 32 bits; if nothing is left of it, its blocks are forgotten. */
  function Forgotten(n: Node, num: nat): int {
    if RightMargin(n, num) % UINT == 0 then RightMargin(n, num) else 0
  }

  /** No range is longer than 16 TB. */
  ghost predicate AllSmall(nodes: seq<Node>) {
    forall i :: 0 <= i < |nodes| ==> Size(nodes[i]) <= UINT
  }

  class FreeList {
    const blockStart: nat
    const blockEnd: nat
    var nodes: seq<Node>      // block_free_tree, in order
    var first: nat            // first_node, last_node: identities, 0 for NULL
    var last: nat
    var numBlocknode: nat
    var numFreeBlocks: nat
    var nextId: nat

    /** first and last node and the number of nodes are exact. */
    ghost predicate Ends()
      reads this
    {
      && first == (if nodes == [] then 0 else nodes[0].id)
      && last == (if nodes == [] then 0 else nodes[|nodes| - 1].id)
      && numBlocknode == |nodes|
    }

    /** The nodes are in order and coalesced. */
    ghost predicate Linked()
      reads this
    {
      Sorted(nodes) && 0 < nextId && DistinctIds(nodes) && Below(nodes, nextId) && Ends()
    }

    ghost predicate Valid()
      reads this
    {
      Linked() && numFreeBlocks == Total(nodes)
    }

    ghost predicate InBounds()
      reads this
    {
      Inside(nodes, blockStart, blockEnd)
    }

    /** nova_init_free_list and nova_init_blockmap: everything is free. */
    constructor (start: nat, end: nat)
      requires start <= end
      ensures Valid() && InBounds() && blockStart == start && blockEnd == end
      ensures nodes == [Node(1, start, end)] && forall x :: Has(nodes, x) <==> start <= x <= end
    {
      blockStart, blockEnd := start, end;
      nodes := [Node(1, start, end)];
      first, last, nextId := 1, 1, 2;
      numBlocknode, numFreeBlocks := 1, end - start + 1;
      new;
      assert Total(nodes[..0]) == 0;
      assert In(nodes[0], start);
      forall x ensures Has(nodes, x) <==> start <= x <= end { if start <= x <= end { assert In(nodes[0], x); } }
    }

    /** nova_init_blockmap when the list is about to be rebuilt. */
    constructor ForRecovery(start: nat, end: nat)
      ensures Valid() && nodes == [] && blockStart == start && blockEnd == end
    {
      blockStart, blockEnd := start, end;
      nodes := [];
      first, last, nextId := 0, 0, 1;
      numBlocknode, numFreeBlocks := 0, 0;
    }

    /** The blocks [low, low + num) have joined the list. */
    twostate predicate Joined(low: int, num: int)
      reads this
    {
      Adds(old(nodes), nodes, low, num, nextId, blockStart, blockEnd) && Ends() && 0 < nextId
        && numFreeBlocks == old(numFreeBlocks)
    }

    method FillHole(k: nat)
      requires Linked() && 0 < k < |nodes|
      modifies this
      ensures Joined(old(nodes[k - 1].high + 1), old(nodes[k].low - nodes[k - 1].high - 1))
    {
      Filled(nodes, k, nextId, blockStart, blockEnd);
      hide Sorted, Total, Has, Below, Inside, Adds;
      var prev, next := nodes[k - 1], nodes[k];
      nodes := Replaced(nodes, k - 1, k + 1, [prev.(high := next.high)]);
      numBlocknode := numBlocknode - 1;
      if last == next.id {
        last := prev.id;
      }
    }

    method GrowUp(k: nat, num: nat)
      requires Linked() && k < |nodes| && num > 0 && (k + 1 < |nodes| ==> nodes[k].high + num + 1 < nodes[k + 1].low)
      modifies this
      ensures Joined(old(nodes[k].high + 1), num)
    {
      GrownUp(nodes, k, num, nextId, blockStart, blockEnd);
      hide Sorted, DistinctIds, Total, Has, Replaced, Below, Inside, Adds;
      nodes := Replaced(nodes, k, k + 1, [nodes[k].(high := nodes[k].high + num)]);
    }

    method GrowDown(k: nat, num: nat)
      requires Linked() && k < |nodes| && 0 < num <= nodes[k].low
      requires k > 0 ==> nodes[k - 1].high + 1 < nodes[k].low - num
      modifies this
      ensures Joined(old(nodes[k].low - num), num)
    {
      GrownDown(nodes, k, num, nextId, blockStart, blockEnd);
      hide Sorted, DistinctIds, Total, Has, Replaced, Below, Inside, Adds;
      nodes := Replaced(nodes, k, k + 1, [nodes[k].(low := nodes[k].low - num)]);
    }

    method InsertNode(k: nat, low: nat, high: nat)
      requires Linked() && k <= |nodes| && low <= high
      requires (k > 0 ==> nodes[k - 1].high + 1 < low) && (k < |nodes| ==> high + 1 < nodes[k].low)
      modifies this
      ensures Joined(low, high - low + 1)
    {
      Inserted(nodes, k, Node(nextId, low, high), blockStart, blockEnd);
      hide Sorted, DistinctIds, Total, Has, Replaced, Below, Inside, Adds;
      nodes := Replaced(nodes, k, k, [Node(nextId, low, high)]);
      if k == 0 {
        first := nextId;
      }
      if k == |nodes| - 1 {
        last := nextId;
      }
      nextId := nextId + 1;
      numBlocknode := numBlocknode + 1;
    }

    /** nova_free_blocks: the blocks [blocknr, blocknr + num) come back.  A free first block is
        noticed, later ones must not be free already.  The bounds check lets a range end one
        block behind the list. */
    method FreeBlocks(blocknr: nat, num: int) returns (ret: int)
      requires Valid() && (Has(nodes, blocknr) || forall x :: blocknr <= x < blocknr + num ==> !Has(nodes, x))
      modifies this
      ensures Valid()
      ensures ret ==
        if num <= 0 then EINVAL
        else if blocknr < blockStart || blocknr + num - 1 > blockEnd + 1 then EIO
        else if old(Has(nodes, blocknr)) then EINVAL
        else 0
      ensures ret != 0 ==> nodes == old(nodes)
      ensures ret == 0 ==> forall x :: Has(nodes, x) <==> old(Has(nodes, x)) || blocknr <= x < blocknr + num
      ensures ret == 0 && old(InBounds()) ==> (InBounds() <==> blocknr + num - 1 <= blockEnd)
    {
      if num <= 0 {
        return EINVAL;
      }
      var low, high := blocknr, blocknr + num - 1;
      if low < blockStart || high > blockEnd + 1 {
        return EIO;
      }
      var ok, k := FindFreeSlot(nodes, low, high);
      if !ok {
        return EINVAL;
      }
      hide Has, Sorted, DistinctIds, Total;
      if 0 < k < |nodes| && low == nodes[k - 1].high + 1 && high + 1 == nodes[k].low {
        FillHole(k);
      } else if 0 < k && low == nodes[k - 1].high + 1 {
        // aligns left
        GrowUp(k - 1, num);
      } else if k < |nodes| && high + 1 == nodes[k].low {
        // aligns right
        GrowDown(k, num);
      } else {
        // aligns somewhere in the middle
        InsertNode(k, low, high);
      }
      numFreeBlocks := numFreeBlocks + num;
      ret := 0;
    }

    /** A block range has left the list, along with its nodes' share of the counters but
        numFreeBlocks. */
    twostate predicate Left(low: int, num: int)
      reads this
    {
      Takes(old(nodes), nodes, low, num, nextId, blockStart, blockEnd) && Ends() && 0 < nextId
        && numFreeBlocks == old(numFreeBlocks)
    }

    /** The whole node is handed out. */
    method TakeNode(k: nat)
      requires Linked() && k < |nodes|
      modifies this
      ensures Left(old(nodes[k].low), old(nodes[k].high - nodes[k].low + 1))
    {
      Dropped(nodes, k, nextId, blockStart, blockEnd);
      hide Sorted, Total, Has, Below, Inside, Takes;
      var curr := nodes[k];
      if curr.id == first {
        first := if k + 1 < |nodes| then nodes[k + 1].id else 0;
      }
      if curr.id == last {
        last := if k > 0 then nodes[k - 1].id else 0;
      }
      nodes := Replaced(nodes, k, k + 1, []);
      numBlocknode := numBlocknode - 1;
    }

    /** One end of a node is handed out. */
    method TakePart(k: nat, num: nat, fromTail: bool) returns (blocknr: nat)
      requires Linked() && k < |nodes| && 0 < num < nodes[k].high - nodes[k].low + 1
      modifies this
      ensures Left(blocknr, num) && blocknr == old(if fromTail then nodes[k].high + 1 - num else nodes[k].low)
    {
      var n := if fromTail then nodes[k].(high := nodes[k].high - num) else nodes[k].(low := nodes[k].low + num);
      blocknr := if fromTail then nodes[k].high + 1 - num else nodes[k].low;
      Shrunk(nodes, k, n, blocknr, num, nextId, blockStart, blockEnd);
      hide Sorted, DistinctIds, Total, Has, Replaced, Below, Inside, Takes;
      nodes := Replaced(nodes, k, k + 1, [n]);
    }

    /** A superpage is handed out: the blocks below and above it stay, in two nodes. */
    method TakeMiddle(k: nat, num: nat) returns (blocknr: nat)
      requires Linked() && k < |nodes| && 0 < num && LeftMargin(nodes[k]) + num <= Size(nodes[k])
      modifies this
      ensures blocknr == old(nodes[k].low + LeftMargin(nodes[k])) && Left(blocknr, num + old(Forgotten(nodes[k], num)))
    {
      hide Sorted, DistinctIds, Total, Has, Below, Inside, Takes, Replaced;
      var curr := nodes[k];
      var left := LeftMargin(curr);
      blocknr := curr.low + left;
      var right := RightMargin(curr, num) % UINT;
      var n := curr.(high := curr.low + left - 1);
      if right > 0 {
        var m := Node(nextId, curr.low + left + num, curr.high);
        Split(nodes, k, n, m, nextId, blockStart, blockEnd);
        hide LeftMargin;
        var isLast := curr.id == last;
        LastIs(k);
        nodes := Replaced(nodes, k, k + 1, [n, m]);
        numBlocknode := numBlocknode + 1;
        nextId := nextId + 1;
        if isLast {
          last := m.id;
        }
      } else {
        Shrunk(nodes, k, n, blocknr, num + RightMargin(curr, num), nextId, blockStart, blockEnd);
        nodes := Replaced(nodes, k, k + 1, [n]);
      }
    }

    lemma LastIs(k: nat)
      requires Linked() && k < |nodes|
      ensures nodes[k].id == last <==> k == |nodes| - 1
    {
    }

    /** The search of nova_alloc_superpage: the first node, from the given side, in which a 2MB
        aligned range of the wanted size fits, or of some smaller number of 2MB pages. */
    method FindSuperpage(want: nat, fromTail: bool) returns (found: bool, k: nat)
      ensures found ==> FirstFit(nodes, want, fromTail, k)
      ensures !found ==> forall i :: 0 <= i < |nodes| ==> !SuperpageFits(nodes[i], want)
    {
      found, k := false, 0;
      var step := 0;
      while step < |nodes|
        invariant 0 <= step <= |nodes|
        invariant forall i :: 0 <= i < |nodes| && (if fromTail then |nodes| - step <= i else i < step) ==>
                  !SuperpageFits(nodes[i], want)
      {
        k := if fromTail then |nodes| - 1 - step else step;
        if SuperpageFits(nodes[k], want) {
          return true, k;
        }
        step := step + 1;
      }
    }

    /** nova_alloc_superpage; k is history: the node that was used.  None is used if and only if
        every node has no 2MB page or just one, at its beginning. */
    method AllocSuperpage(want: nat, fromTail: bool) returns (got: nat, blocknr: nat, ghost k: nat)
      requires Linked() && want > 0
      modifies this
      ensures got == 0 ==> nodes == old(nodes) && Linked() && numFreeBlocks == old(numFreeBlocks)
      ensures got == 0 ==> forall i :: 0 <= i < |nodes| ==> !SuperpageFits(nodes[i], want)
      ensures want % PAGES_PER_2MB == 0 ==> (got == 0 <==> forall i :: 0 <= i < old(|nodes|) ==> Refused(old(nodes[i])))
      ensures got > 0 ==> FirstFit(old(nodes), want, fromTail, k) && got == old(Got(nodes[k], want))
      ensures got > 0 && want % PAGES_PER_2MB == 0 ==>
                var n := old(nodes[k]);
                got == Min(want, PAGES_PER_2MB * Held(n)) - if Wasteful(n, want) then PAGES_PER_2MB else 0
      ensures got > 0 ==> old(LeftMargin(nodes[k])) + got <= old(Size(nodes[k]))
      ensures got > 0 ==>
                blocknr == old(nodes[k].low + LeftMargin(nodes[k]))
                && Left(blocknr, got + old(Forgotten(nodes[k], got)))
      ensures got > 0 ==>
                blocknr % PAGES_PER_2MB == 0 && blocknr > 0 && got <= want
                && (got < want ==> got % PAGES_PER_2MB == 0)
    {
      var found, at := FindSuperpage(want, fromTail);
      k, got, blocknr := at, 0, 0;
      AllRefused(nodes, want);
      if found {
        BestIsGood(nodes[at], want);
        if want % PAGES_PER_2MB == 0 { SuperpageGets(nodes[at], want); }
        hide Held, Refused, Wasteful;
        got := Best(nodes[at], want);
        blocknr := TakeMiddle(at, got);
      }
    }

    /** not_enough_blocks. */
    predicate NotEnough(num: nat, log: bool)
      reads this
    {
      numFreeBlocks < num || nodes == [] || (log && nodes[|nodes| - 1].high - nodes[0].low < DEAD_ZONE_BLOCKS)
    }

    /** The first node, from the given side, that may be used: any, or for multi-page block
        types one that is large enough. */
    method FindNode(btype: nat, num: nat, fromTail: bool) returns (found: bool, k: nat)
      ensures found ==> FirstUsable(nodes, btype, num, fromTail, k)
      ensures !found ==> forall i :: 0 <= i < |nodes| ==> !Usable(nodes[i], btype, num)
    {
      found, k := false, 0;
      var step := 0;
      while step < |nodes|
        invariant 0 <= step <= |nodes|
        invariant forall i :: 0 <= i < |nodes| && (if fromTail then |nodes| - step <= i else i < step) ==>
                  !Usable(nodes[i], btype, num)
      {
        k := if fromTail then |nodes| - 1 - step else step;
        if Usable(nodes[k], btype, num) {
          return true, k;
        }
        step := step + 1;
      }
    }

    /** The fallback of nova_alloc_blocks_in_free_list: a whole node, or one end of it. */
    method AllocUnaligned(btype: nat, num: nat, fromTail: bool) returns (ret: nat, blocknr: nat)
      requires Valid() && num > 0
      modifies this
      ensures Valid()
      ensures ret == 0 ==> nodes == old(nodes)
      ensures ret == 0 <==> forall i :: 0 <= i < old(|nodes|) ==> !Usable(old(nodes[i]), btype, num)
      ensures ret > 0 ==> TakesEnd(old(nodes), btype, num, fromTail, ret, blocknr)
      ensures ret > 0 ==>
                ret <= num && (btype > 0 ==> ret == num)
                && Takes(old(nodes), nodes, blocknr, ret, nextId, blockStart, blockEnd)
    {
      var found, k := FindNode(btype, num, fromTail);
      if !found {
        return 0, 0;
      }
      NodesAreNotEmpty(nodes);
      assert FirstUsable(old(nodes), btype, num, fromTail, k);
      if num >= Size(nodes[k]) {
        ret, blocknr := Size(nodes[k]), nodes[k].low;
        TakeNode(k);
      } else {
        ret := num;
        blocknr := TakePart(k, num, fromTail);
      }
      TakenIsThere(old(nodes), nodes, blocknr, ret);
      numFreeBlocks := numFreeBlocks - ret;
    }

    /** The attempt at 2MB pages.  k is history: the node that was used. */
    method AllocHuge(num: nat, fromTail: bool) returns (got: nat, blocknr: nat, ghost k: nat)
      requires Valid() && num > 0
      modifies this
      ensures got == 0 ==> Valid() && nodes == old(nodes)
      ensures got == 0 ==> forall i :: 0 <= i < |nodes| ==> !SuperpageFits(nodes[i], num)
      ensures got > 0 ==> got <= num && blocknr % PAGES_PER_2MB == 0 && (got < num ==> got % PAGES_PER_2MB == 0)
      ensures got > 0 ==> FirstFit(old(nodes), num, fromTail, k) && got == old(Got(nodes[k], num))
      ensures got > 0 ==> blocknr == old(nodes[k].low + LeftMargin(nodes[k]))
      ensures got > 0 ==>
                0 <= old(Forgotten(nodes[k], got))
                && Takes(old(nodes), nodes, blocknr, got + old(Forgotten(nodes[k], got)), nextId, blockStart, blockEnd)
                && (Valid() <==> old(Forgotten(nodes[k], got)) == 0)
      ensures got > 0 ==> k < old(|nodes|) && TakesInner(old(nodes), num, fromTail, got, blocknr)
      ensures num % PAGES_PER_2MB == 0 ==> (got > 0 <==> Inner(old(nodes), false, num))
      ensures num % PAGES_PER_2MB == 0 ==> (Valid() <==> !Loses(old(nodes), false, num, fromTail))
    {
      got, blocknr, k := AllocSuperpage(num, fromTail);
      if got > 0 {
        hide Sorted, DistinctIds, Below, Inside, Total;
        NothingForgotten(old(nodes), k, got);
        ghost var forgotten := old(Forgotten(nodes[k], got));
        TakenIsThere(old(nodes), nodes, blocknr, got + forgotten);
        numFreeBlocks := numFreeBlocks - got;
        if num % PAGES_PER_2MB == 0 { ForgottenAt(old(nodes), num, fromTail, k); }
      }
    }

    /** nova_alloc_blocks_in_free_list.  forgotten is history: the blocks that leave the list without
        being handed out.  The list remains as it should be if and only if there are none. */
    method AllocBlocksInFreeList(btype: nat, log: bool, num: nat, fromTail: bool)
      returns (ret: int, blocknr: nat, ghost forgotten: nat)
      requires Valid() && num > 0
      modifies this
      ensures ret == ENOSPC || 0 < ret <= num
      ensures ret < 0 ==> Valid() && nodes == old(nodes)
      ensures ret < 0 <==>
                (log && old(NotEnough(num, log)))
                || (!Inner(old(nodes), log, num)
                    && forall i :: 0 <= i < old(|nodes|) ==> !Usable(old(nodes[i]), btype, num))
      ensures ret > 0 ==> Answers(old(nodes), btype, log, num, fromTail, ret, blocknr)
      ensures ret > 0 ==> Takes(old(nodes), nodes, blocknr, ret + forgotten, nextId, blockStart, blockEnd)
      ensures forgotten == 0 <==> !Loses(old(nodes), log, num, fromTail)
      ensures Valid() <==> !Loses(old(nodes), log, num, fromTail)
      ensures ret > 0 && btype > 0 ==> ret == num || ret % PAGES_PER_2MB == 0
    {
      hide Sorted, DistinctIds, Below, Takes, Usable, SuperpageFits, Has, TakesEnd, TakesInner, Inner, Loses,
        Forgotten, FirstFit, Got, LeftMargin, Size, Total;
      forgotten := 0;
      TotalIsPositive(nodes);
      SomeInner(nodes, log, num, fromTail);
      if nodes == [] || numFreeBlocks == 0 {
        return ENOSPC, 0, 0;
      }
      if log && NotEnough(num, log) {
        return ENOSPC, 0, 0;
      }
      var got: nat;
      if num % PAGES_PER_2MB == 0 && !log {
        ghost var k;
        got, blocknr, k := AllocHuge(num, fromTail);
        if got > 0 {
          return got, blocknr, old(Forgotten(nodes[k], got));
        }
      }
      got, blocknr := AllocUnaligned(btype, num, fromTail);
      forgotten := 0;
      ret := if got == 0 then ENOSPC else got;
    }
  }

  lemma TotalIsPositive(nodes: seq<Node>)
    requires Sorted(nodes)
    ensures nodes != [] ==> Total(nodes) > 0
    ensures Total(nodes) >= 0
  {
    if nodes != [] {
      TotalIsLarge(nodes, 0);
    }
  }

  lemma NodesAreNotEmpty(nodes: seq<Node>)
    requires Sorted(nodes)
    ensures forall i :: 0 <= i < |nodes| ==> Size(nodes[i]) > 0
  {
  }

  lemma NothingForgotten(nodes: seq<Node>, k: nat, num: nat)
    requires k < |nodes| && LeftMargin(nodes[k]) + num <= Size(nodes[k])
    ensures Forgotten(nodes[k], num) >= 0
    ensures Size(nodes[k]) <= UINT ==> Forgotten(nodes[k], num) == 0
  {
  }

  lemma AllRefused(nodes: seq<Node>, want: nat)
    requires Sorted(nodes) && want > 0
    ensures want % PAGES_PER_2MB == 0 ==>
              forall i :: 0 <= i < |nodes| ==> (SuperpageFits(nodes[i], want) <==> !Refused(nodes[i]))
  {
    if want % PAGES_PER_2MB == 0 {
      forall i | 0 <= i < |nodes|
        ensures SuperpageFits(nodes[i], want) <==> !Refused(nodes[i])
      {
        RefusedExactly(nodes[i], want);
      }
    }
  }

  /** What is taken was counted. */
  lemma TakenIsThere(nodes: seq<Node>, z: seq<Node>, low: int, num: int)
    requires Sorted(z) && Total(z) == Total(nodes) - num
    ensures Total(nodes) >= num
  {
    TotalIsPositive(z);
  }

  lemma BestIsGood(n: Node, want: nat)
    requires SuperpageFits(n, want) && want > 0
    ensures 0 < Best(n, want) <= want && LeftMargin(n) + Best(n, want) <= Size(n)
    ensures Best(n, want) < want ==> Best(n, want) % PAGES_PER_2MB == 0
  {
  }

  /** Node i comes before node k when the list is searched from the given side. */
  predicate Sooner(i: nat, k: nat, fromTail: bool) {
    if fromTail then i > k else i < k
  }

  /** The node that a superpage allocation uses. */
  ghost predicate FirstFit(nodes: seq<Node>, want: nat, fromTail: bool, k: nat) {
    && k < |nodes| && SuperpageFits(nodes[k], want)
    && forall i :: 0 <= i < |nodes| && Sooner(i, k, fromTail) ==> !SuperpageFits(nodes[i], want)
  }

  /** The node that an unaligned allocation uses. */
  ghost predicate FirstUsable(nodes: seq<Node>, btype: nat, num: nat, fromTail: bool, k: nat) {
    && k < |nodes| && Usable(nodes[k], btype, num)
    && forall i :: 0 <= i < |nodes| && Sooner(i, k, fromTail) ==> !Usable(nodes[i], btype, num)
  }

  /** The allocation is from the wanted end of the first usable node, and of as much of it as is wanted. */
  ghost predicate TakesEnd(nodes: seq<Node>, btype: nat, num: nat, fromTail: bool, ret: int, blocknr: nat) {
    exists k: nat :: FirstUsable(nodes, btype, num, fromTail, k) && Size(nodes[k]) > 0
      && ret == Min(num, Size(nodes[k])) && blocknr == if fromTail then nodes[k].high + 1 - ret else nodes[k].low
  }

  /** The allocation is from the first inner 2MB boundary of the first node in which a superpage fits. */
  ghost predicate TakesInner(nodes: seq<Node>, num: nat, fromTail: bool, ret: int, blocknr: nat) {
    exists k: nat :: FirstFit(nodes, num, fromTail, k)
      && ret == Got(nodes[k], num) && blocknr == nodes[k].low + LeftMargin(nodes[k])
  }

  /** Superpages are wanted and there are some. */
  ghost predicate Inner(nodes: seq<Node>, log: bool, num: nat) {
    !log && num % PAGES_PER_2MB == 0 && exists i :: 0 <= i < |nodes| && SuperpageFits(nodes[i], num)
  }

  /** How many blocks, and which, a list hands out. */
  ghost predicate Answers(nodes: seq<Node>, btype: nat, log: bool, num: nat, fromTail: bool, ret: int, blocknr: nat) {
    if Inner(nodes, log, num) then TakesInner(nodes, num, fromTail, ret, blocknr)
    else TakesEnd(nodes, btype, num, fromTail, ret, blocknr)
  }

  lemma SomeInner(nodes: seq<Node>, log: bool, num: nat, fromTail: bool)
    ensures !log && num % PAGES_PER_2MB == 0 ==>
              (Inner(nodes, log, num) <==> !forall i :: 0 <= i < |nodes| ==> !SuperpageFits(nodes[i], num))
    ensures log || num % PAGES_PER_2MB != 0 ==> !Inner(nodes, log, num)
    ensures nodes == [] ==> !Inner(nodes, log, num)
    ensures log || num % PAGES_PER_2MB != 0 || nodes == [] ==> !Loses(nodes, log, num, fromTail)
  {
  }

  /** The first node in which a superpage fits has, above it, a positive multiple of 2^32 blocks. */
  ghost predicate Loses(nodes: seq<Node>, log: bool, num: nat, fromTail: bool) {
    && !log && num % PAGES_PER_2MB == 0
    && exists k: nat :: FirstFit(nodes, num, fromTail, k)
         && RightMargin(nodes[k], Got(nodes[k], num)) > 0 && RightMargin(nodes[k], Got(nodes[k], num)) % UINT == 0
  }

  lemma OneFit(nodes: seq<Node>, want: nat, fromTail: bool, i: nat, k: nat)
    requires FirstFit(nodes, want, fromTail, i) && FirstFit(nodes, want, fromTail, k)
    ensures i == k
  {
    assert Sooner(i, k, fromTail) || Sooner(k, i, fromTail) || i == k;
  }

  /** Blocks are forgotten exactly then. */
  lemma ForgottenAt(nodes: seq<Node>, num: nat, fromTail: bool, k: nat)
    requires num % PAGES_PER_2MB == 0 && FirstFit(nodes, num, fromTail, k)
    requires LeftMargin(nodes[k]) + Got(nodes[k], num) <= Size(nodes[k])
    ensures Forgotten(nodes[k], Got(nodes[k], num)) == 0 <==> !Loses(nodes, false, num, fromTail)
  {
    if Loses(nodes, false, num, fromTail) {
      var i: nat :| FirstFit(nodes, num, fromTail, i)
        && RightMargin(nodes[i], Got(nodes[i], num)) > 0 && RightMargin(nodes[i], Got(nodes[i], num)) % UINT == 0;
      OneFit(nodes, num, fromTail, i, k);
    }
  }

  /** Nothing is lost if no node has more than 2^32 blocks. */
  lemma SmallLosesNothing(nodes: seq<Node>, log: bool, num: nat, fromTail: bool)
    requires AllSmall(nodes)
    ensures !Loses(nodes, log, num, fromTail)
  {
  }

  /** From one node 512 blocks are taken: 512 remain below them, and the 2^32 above are neither handed
      out nor free any more. */
  method ForgetsBlocks() returns (l: FreeList, got: nat, blocknr: nat)
    ensures !l.Valid() && got == 512 && blocknr == 512 && l.blockEnd == 1023 + UINT
    ensures forall x :: Has(l.nodes, x) <==> 0 <= x < 512
  {
    l := new FreeList(0, 1023 + UINT);
    ghost var was := l.nodes;
    assert was[0] == Node(1, 0, 1023 + UINT) && Got(was[0], 512) == 512 && Forgotten(was[0], 512) == UINT;
    assert FirstFit(was, 512, false, 0);
    ghost var k;
    got, blocknr, k := l.AllocHuge(512, false);
    OneFit(was, 512, false, 0, k);
  }

  /** How blocks of one kind are divided among the CPUs: each gets perList of them, of which some
      hold checksums; the first one lacks the reserved head and the last one the reserved tail. */
  datatype Layout = Layout(cpus: nat, perList: nat, head: nat, csum: nat, tail: nat)
  {
    predicate Fits() {
      cpus > 0 && head + csum + tail < perList
    }

    function Start(i: nat): nat {
      perList * i + (if i == 0 then head else 0) + csum
    }

    function End(i: nat): (e: nat)
      requires Fits()
    {
      perList * i + perList - 1 - if i == cpus - 1 then tail else 0
    }
  }

  /** The list of each CPU has the bounds of its share. */
  ghost predicate Divided(f: Layout, lists: seq<FreeList>)
    requires f.Fits()
  {
    && |lists| == f.cpus
    && (forall i :: 0 <= i < |lists| ==> lists[i].blockStart == f.Start(i) && lists[i].blockEnd == f.End(i))
    && (forall i, j :: 0 <= i < j < |lists| ==> lists[i] != lists[j])
  }

  /** A new list: nothing in it before a recovery, everything otherwise. */
  ghost predicate New(l: FreeList, recovery: bool)
    reads l
  {
    && l.Valid() && (recovery ==> l.nodes == [])
    && (!recovery ==> l.InBounds() && forall x :: Has(l.nodes, x) <==> l.blockStart <= x <= l.blockEnd)
  }

  /** nova_init_blockmap. */
  method InitBlockmap(f: Layout, recovery: bool) returns (lists: seq<FreeList>)
    requires f.Fits()
    ensures Divided(f, lists) && fresh(lists)
    ensures forall i :: 0 <= i < |lists| ==> New(lists[i], recovery)
  {
    lists := [];
    while |lists| < f.cpus
      invariant |lists| <= f.cpus && fresh(lists)
      invariant forall i :: 0 <= i < |lists| ==> lists[i].blockStart == f.Start(i) && lists[i].blockEnd == f.End(i)
      invariant forall i, j :: 0 <= i < j < |lists| ==> lists[i] != lists[j]
      invariant forall i :: 0 <= i < |lists| ==> New(lists[i], recovery)
    {
      var i := |lists|;
      var l: FreeList;
      if recovery {
        l := new FreeList.ForRecovery(f.Start(i), f.End(i));
      } else {
        l := new FreeList(f.Start(i), f.End(i));
      }
      lists := lists + [l];
    }
  }

  /** The blocks that a bitmap says are in use. */
  ghost function SetBits(bitmap: seq<bool>): set<nat> {
    set x: nat | x < |bitmap| && bitmap[x]
  }

  /** The list holds exactly the clear bits of its share. */
  ghost predicate Rest(bitmap: seq<bool>, l: FreeList)
    reads l
  {
    && l.Valid() && l.InBounds() && l.blockEnd < |bitmap|
    && forall x :: Has(l.nodes, x) <==> l.blockStart <= x <= l.blockEnd && !bitmap[x]
  }

  /** Whoever holds the blocks of one kind: the free lists of all CPUs, and as history the
      blocks that have been handed out. */
  class Allocator {
    const log: bool
    const perList: nat
    const lists: seq<FreeList>
    ghost var granted: set<nat>

    /** The share of one CPU. */
    ghost predicate Share(i: nat)
      requires i < |lists|
    {
      perList * i <= lists[i].blockStart && lists[i].blockEnd < perList * i + perList
    }

    /** Every block of a share is either free or handed out. */
    ghost predicate Kept(i: nat)
      requires i < |lists|
      reads this, lists[i]
    {
      && lists[i].Valid() && lists[i].InBounds()
      && forall x: nat :: Has(lists[i].nodes, x) <==> lists[i].blockStart <= x <= lists[i].blockEnd && x !in granted
    }

    ghost predicate Shares() {
      && lists != [] && perList > 0
      && (forall i :: 0 <= i < |lists| ==> Share(i))
      && (forall i, j :: 0 <= i < j < |lists| ==> lists[i] != lists[j])
    }

    ghost predicate Valid()
      reads this, lists
    {
      Shares() && forall i :: 0 <= i < |lists| ==> Kept(i)
    }

    /** A new file system: every block of every share is free. */
    constructor (log: bool, f: Layout)
      requires f.Fits()
      ensures Valid() && fresh(lists) && granted == {}
      ensures this.log == log && perList == f.perList && Divided(f, lists)
      ensures forall i :: 0 <= i < |lists| ==> New(lists[i], false)
    {
      var lists := InitBlockmap(f, false);
      this.log, perList, this.lists, granted := log, f.perList, lists, {};
      new;
      forall i | 0 <= i < |lists| ensures Share(i) && Kept(i) { assert New(lists[i], false); }
    }

    /** A file system that has crashed: what the bitmap has is in use, and the lists have the rest
        of their shares. */
    constructor FromBitmap(log: bool, f: Layout, lists: seq<FreeList>, ghost bitmap: seq<bool>)
      requires f.Fits() && Divided(f, lists) && forall i :: 0 <= i < |lists| ==> Rest(bitmap, lists[i])
      ensures Valid() && granted == SetBits(bitmap)
      ensures this.log == log && perList == f.perList && this.lists == lists
    {
      this.log, perList, this.lists, granted := log, f.perList, lists, SetBits(bitmap);
      new;
      forall i | 0 <= i < |lists| ensures Share(i) && Kept(i) { assert Rest(bitmap, lists[i]); }
    }

    /** No list has more free blocks, and none before it as many. */
    ghost predicate Richest(cpuid: nat)
      reads lists
    {
      && cpuid < |lists|
      && (forall i :: 0 <= i < |lists| ==> lists[i].numFreeBlocks <= lists[cpuid].numFreeBlocks)
      && (forall i :: 0 <= i < cpuid ==> lists[i].numFreeBlocks < lists[cpuid].numFreeBlocks)
    }

    /** nova_get_candidate_free_list: the list with most free blocks. */
    method Candidate() returns (cpuid: nat)
      requires lists != []
      ensures Richest(cpuid)
    {
      cpuid := 0;
      var most := 0;
      var i := 0;
      while i < |lists|
        invariant 0 <= i <= |lists| && cpuid < |lists|
        invariant most == (if i == 0 then 0 else lists[cpuid].numFreeBlocks)
        invariant cpuid < i || (i == 0 && cpuid == 0)
        invariant forall k :: 0 <= k < i ==> lists[k].numFreeBlocks <= most
        invariant forall k :: 0 <= k < cpuid ==> lists[k].numFreeBlocks < most
      {
        if lists[i].numFreeBlocks > most {
          cpuid, most := i, lists[i].numFreeBlocks;
        }
        i := i + 1;
      }
    }

    /** The retries of nova_new_blocks: a list without enough blocks is given up for the richest one. */
    method PickList(num: nat, cpu: nat) returns (cpuid: nat)
      requires cpu < |lists|
      ensures if lists[cpu].NotEnough(num, log) then Richest(cpuid) else cpuid == cpu
    {
      cpuid := cpu;
      var retried := 0;
      while lists[cpuid].NotEnough(num, log) && retried < 2
        invariant cpuid < |lists| && retried <= 2
        invariant if retried == 0 then cpuid == cpu else Richest(cpuid)
        invariant !lists[cpu].NotEnough(num, log) ==> cpuid == cpu && retried == 0
      {
        cpuid := Candidate();
        retried := retried + 1;
      }
    }

    /** nova_new_blocks: the blocks that it hands out were free, so nobody has them.  used and forgotten are
        history: the CPU whose list is used, which is the given one if that has enough blocks and the richest
        otherwise; and the blocks that leave this list without being handed out.  The lists stay as they should be
        if and only if there are none.  Single data blocks are refused only if every list is empty. */
    method NewBlocks(num: nat, btype: nat, cpu: nat, fromTail: bool)
      returns (ret: int, blocknr: nat, ghost used: nat, ghost forgotten: nat)
      requires Valid() && cpu < |lists|
      modifies this, lists
      ensures used < |lists| && forall i :: 0 <= i < |lists| && i != used ==> lists[i].nodes == old(lists[i].nodes)
      ensures num > 0 ==> if old(lists[cpu].NotEnough(num, log)) then old(Richest(used)) else used == cpu
      ensures num == 0 ==> ret == EINVAL && lists[used].nodes == old(lists[used].nodes)
      ensures num > 0 ==> Served(old(lists[used].nodes), old(lists[used].NotEnough(num, log)), btype, num, fromTail,
                                 lists[used].nodes, ret, blocknr, forgotten)
      ensures forgotten == 0 <==> num == 0 || !Loses(old(lists[used].nodes), log, num, fromTail)
      ensures Valid() <==> forgotten == 0
      ensures perList <= UINT ==> Valid()
      ensures ret <= 0 ==> granted == old(granted)
      ensures ret > 0 ==> Range(blocknr, ret) !! old(granted) && granted == old(granted) + Range(blocknr, ret)
      ensures num > 0 && !log && btype == 0 ==>
                (ret == ENOSPC <==> forall i :: 0 <= i < |lists| ==> old(lists[i].nodes) == [])
    {
      used, forgotten := cpu, 0;
      if num == 0 {
        ret, blocknr := EINVAL, 0;
      } else {
        var cpuid := PickList(num, cpu);
        used := cpuid;
        if perList <= UINT {
          assert Kept(cpuid) && Share(cpuid);
          SmallShare(cpuid);
          SmallLosesNothing(lists[cpuid].nodes, log, num, fromTail);
        }
        NoneLeft(num, cpu, cpuid);
        ret, blocknr, forgotten := AllocFrom(cpuid, num, btype, fromTail);
      }
    }

    /** The list that is picked is empty only if all are. */
    lemma NoneLeft(num: nat, cpu: nat, cpuid: nat)
      requires Valid() && cpu < |lists| && num > 0
      requires if lists[cpu].NotEnough(num, log) then Richest(cpuid) else cpuid == cpu
      ensures lists[cpuid].nodes == [] <==> forall i :: 0 <= i < |lists| ==> lists[i].nodes == []
    {
      if lists[cpuid].nodes == [] {
        forall i | 0 <= i < |lists| ensures lists[i].nodes == [] {
          assert Kept(i) && Kept(cpuid);
          TotalIsPositive(lists[i].nodes);
        }
      }
    }

    /** What a list answers to a request, and what is left of it. */
    ghost predicate Served(nodes: seq<Node>, notEnough: bool, btype: nat, num: nat, fromTail: bool, nodes': seq<Node>,
                           ret: int, blocknr: nat, forgotten: nat)
    {
      && (ret == ENOSPC || 0 < ret <= num)
      && (ret == ENOSPC <==>
            (log && notEnough)
            || (!Inner(nodes, log, num) && forall i :: 0 <= i < |nodes| ==> !Usable(nodes[i], btype, num)))
      && (ret == ENOSPC ==> nodes' == nodes)
      && (ret > 0 ==> Answers(nodes, btype, log, num, fromTail, ret, blocknr))
      && (ret > 0 ==> forall x :: blocknr <= x < blocknr + ret + forgotten ==> Has(nodes, x))
      && (ret > 0 ==> forall x :: Has(nodes', x) <==> Has(nodes, x) && !(blocknr <= x < blocknr + ret + forgotten))
    }

    method AllocFrom(cpuid: nat, num: nat, btype: nat, fromTail: bool)
      returns (ret: int, blocknr: nat, ghost forgotten: nat)
      requires Valid() && cpuid < |lists| && num > 0
      modifies this, lists[cpuid]
      ensures Valid() <==> forgotten == 0
      ensures forgotten == 0 <==> !Loses(old(lists[cpuid].nodes), log, num, fromTail)
      ensures forall i :: 0 <= i < |lists| && i != cpuid ==> lists[i].nodes == old(lists[i].nodes)
      ensures Served(old(lists[cpuid].nodes), old(lists[cpuid].NotEnough(num, log)), btype, num, fromTail,
                     lists[cpuid].nodes, ret, blocknr, forgotten)
      ensures ret <= 0 ==> granted == old(granted)
      ensures ret > 0 ==> Range(blocknr, ret) !! old(granted) && granted == old(granted) + Range(blocknr, ret)
    {
      hide Loses, Sorted, DistinctIds, Below, Total, Inner, Usable, Answers;
      assert Kept(cpuid);
      ghost var nodes := lists[cpuid].nodes;
      ret, blocknr, forgotten := lists[cpuid].AllocBlocksInFreeList(btype, log, num, fromTail);
      ghost var taken := Range(blocknr, ret);
      granted := granted + taken;
      forall i | 0 <= i < |lists| && i != cpuid
        ensures Kept(i)
      {
        assert old(Kept(i));
        InOneShare(cpuid, i, nodes, lists[i].nodes, taken);
        assert lists[i].nodes == old(lists[i].nodes);
      }
      assert forgotten == 0 ==> Kept(cpuid);
      assert Kept(cpuid) ==> lists[cpuid].Valid();
    }

    /** nova_free_blocks: the list is the one of the first block.  The range must have been
        handed out, and lie in the share of one CPU. */
    method FreeBlocks(blocknr: nat, num: int) returns (ret: int)
      requires Valid() && Range(blocknr, num) <= granted
      requires num > 0 ==> blocknr / perList < |lists| && blocknr + num - 1 <= lists[blocknr / perList].blockEnd
      modifies this, lists
      ensures Valid()
      ensures ret == if num <= 0 then EINVAL else if blocknr < lists[blocknr / perList].blockStart then EIO else 0
      ensures ret == 0 ==> granted == old(granted) - Range(blocknr, num)
      ensures ret != 0 ==> granted == old(granted)
      ensures forall i :: 0 <= i < |lists| && (ret != 0 || i != blocknr / perList) ==>
                lists[i].nodes == old(lists[i].nodes)
      ensures ret == 0 ==>
                var i := blocknr / perList;
                forall x :: Has(lists[i].nodes, x) <==> old(Has(lists[i].nodes, x)) || blocknr <= x < blocknr + num
    {
      if num <= 0 {
        return EINVAL;
      }
      hide Sorted, DistinctIds, Below, Total, Has;
      var cpuid := blocknr / perList;
      assert Kept(cpuid);
      forall x | blocknr <= x < blocknr + num ensures !Has(lists[cpuid].nodes, x) { assert x in Range(blocknr, num); }
      ret := lists[cpuid].FreeBlocks(blocknr, num);
      if ret == 0 {
        granted := granted - Range(blocknr, num);
      }
      forall i | 0 <= i < |lists| ensures Kept(i) {
        assert old(Kept(i)) && Share(i) && Share(cpuid);
        if i != cpuid {
          assert lists[i].nodes == old(lists[i].nodes);
          if i < cpuid { Spaced(perList, i, cpuid); } else { Spaced(perList, cpuid, i); }
        }
      }
    }

    /** No range of a share of at most 2^32 blocks is longer. */
    lemma SmallShare(i: nat)
      requires i < |lists| && Share(i) && Kept(i) && perList <= UINT
      ensures AllSmall(lists[i].nodes)
    {
    }

    /** Blocks of one CPU's list are in no other's. */
    lemma InOneShare(c: nat, i: nat, nodes: seq<Node>, others: seq<Node>, taken: set<nat>)
      requires Shares() && c < |lists| && i < |lists| && i != c
      requires Inside(nodes, lists[c].blockStart, lists[c].blockEnd)
      requires Inside(others, lists[i].blockStart, lists[i].blockEnd)
      requires forall x :: x in taken ==> Has(nodes, x)
      ensures forall x :: x in taken ==> !Has(others, x)
    {
      assert Share(i) && Share(c);
      if i < c {
        Spaced(perList, i, c);
      } else {
        Spaced(perList, c, i);
      }
      forall x | x in taken ensures !Has(others, x) {
        BoundsOf(nodes, lists[c].blockStart, lists[c].blockEnd, x);
        if Has(others, x) {
          BoundsOf(others, lists[i].blockStart, lists[i].blockEnd, x);
        }
      }
    }
  }

  lemma {:induction false} Spaced(n: nat, i: nat, j: nat)
    requires i < j
    ensures n * i + n <= n * j
    decreases j
  {
    assert n * j == n * (j - 1) + n;
    if i < j - 1 {
      Spaced(n, i, j - 1);
    }
  }

  lemma BoundsOf(nodes: seq<Node>, start: int, end: int, x: int)
    requires Inside(nodes, start, end) && Has(nodes, x)
    ensures start <= x <= end
  {
  }
}
