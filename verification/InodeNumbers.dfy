/** Inode numbers: for each CPU a list of the ranges in use, and the numbers made from them. */
module InodeNumbers {
  import opened RangeList
  import opened BlockAllocator

  const NORMAL_INODE_START: nat := 32
  const MAX_INODE: nat := 0x8000_0000

  /** The last number on each CPU that is never handed out. */
  function Reserved(cpus: nat): (r: nat)
    requires cpus > 0
    ensures forall ino :: 0 <= ino < NORMAL_INODE_START ==> ino / cpus < r
  {
    var r := if NORMAL_INODE_START % cpus != 0 then NORMAL_INODE_START / cpus + 1 else NORMAL_INODE_START / cpus;
    assert forall ino :: 0 <= ino < NORMAL_INODE_START ==> ino / cpus < r by {
      forall ino | 0 <= ino < NORMAL_INODE_START ensures ino / cpus < r {
        BelowQuotient(ino, cpus, r);
      }
    }
    r
  }

  lemma BelowQuotient(ino: nat, cpus: nat, r: nat)
    requires cpus > 0 && r * cpus > ino
    ensures ino / cpus < r
  {
    var q := ino / cpus;
    assert q * cpus <= ino;
    assert r <= q ==> r * cpus <= q * cpus;
  }

  /** The inode number of an internal number of a CPU. */
  function Ino(internal: nat, cpuid: nat, cpus: nat): nat {
    internal * cpus + cpuid
  }

  /** Numbers of different CPUs never collide, and both parts can be read back. */
  lemma InoParts(internal: nat, cpuid: nat, cpus: nat)
    requires cpuid < cpus
    ensures Ino(internal, cpuid, cpus) / cpus == internal && Ino(internal, cpuid, cpus) % cpus == cpuid
  {
    var ino := Ino(internal, cpuid, cpus);
    var q, r := ino / cpus, ino % cpus;
    assert ino == q * cpus + r;
    assert q < internal ==> internal * cpus >= (q + 1) * cpus;
    assert q > internal ==> q * cpus >= (internal + 1) * cpus;
  }

  /** The ranges in use on one CPU. */
  class InodeMap {
    var nodes: seq<Node>      // inode_inuse_tree, in order
    var first: nat            // first_inode_range: an identity
    var num: nat              // num_range_node_inode
    var nextId: nat

    /** The ranges are in order and coalesced, and first_inode_range, which begins at 0, is the
        first of them. */
    ghost predicate Valid()
      reads this
    {
      && Sorted(nodes) && 0 < nextId && DistinctIds(nodes) && Below(nodes, nextId)
      && nodes != [] && nodes[0].low == 0 && first == nodes[0].id && num == |nodes|
    }

    /** nova_init_inode_inuse_list for one CPU. */
    constructor (high: nat)
      ensures Valid() && forall x :: Has(nodes, x) <==> 0 <= x <= high
    {
      nodes := [Node(1, 0, high)];
      first, num, nextId := 1, 1, 2;
      new;
      forall x ensures Has(nodes, x) <==> 0 <= x <= high { if 0 <= x <= high { assert In(nodes[0], x); } }
    }

    /** The numbers low to high have joined the list. */
    twostate predicate Joined(low: int, high: int)
      reads this
    {
      Valid() && forall x :: Has(nodes, x) <==> old(Has(nodes, x)) || low <= x <= high
    }

    method FillGap(k: nat)
      requires Valid() && 0 < k < |nodes|
      modifies this
      ensures Joined(old(nodes[k - 1].high + 1), old(nodes[k].low - 1))
    {
      Filled(nodes, k, nextId, 0, 0);
      hide Sorted, DistinctIds, Has, Below, Total, Inside;
      nodes := Replaced(nodes, k - 1, k + 1, [nodes[k - 1].(high := nodes[k].high)]);
      num := num - 1;
    }

    method GrowUp(k: nat, size: nat)
      requires Valid() && k < |nodes| && size > 0 && (k + 1 < |nodes| ==> nodes[k].high + size + 1 < nodes[k + 1].low)
      modifies this
      ensures Joined(old(nodes[k].high + 1), old(nodes[k].high + size))
    {
      GrownUp(nodes, k, size, nextId, 0, 0);
      hide Sorted, DistinctIds, Has, Below, Total, Inside, Replaced;
      nodes := Replaced(nodes, k, k + 1, [nodes[k].(high := nodes[k].high + size)]);
    }

    method GrowDown(k: nat, size: nat)
      requires Valid() && 0 < k < |nodes| && 0 < size <= nodes[k].low && nodes[k - 1].high + 1 < nodes[k].low - size
      modifies this
      ensures Joined(old(nodes[k].low - size), old(nodes[k].low - 1))
    {
      GrownDown(nodes, k, size, nextId, 0, 0);
      hide Sorted, DistinctIds, Has, Below, Total, Inside, Replaced;
      nodes := Replaced(nodes, k, k + 1, [nodes[k].(low := nodes[k].low - size)]);
    }

    method InsertNode(k: nat, low: nat, high: nat)
      requires Valid() && 0 < k <= |nodes| && low <= high
      requires nodes[k - 1].high + 1 < low && (k < |nodes| ==> high + 1 < nodes[k].low)
      modifies this
      ensures Joined(low, high)
    {
      Inserted(nodes, k, Node(nextId, low, high), 0, 0);
      hide Sorted, DistinctIds, Has, Below, Total, Inside, Replaced;
      nodes := Replaced(nodes, k, k, [Node(nextId, low, high)]);
      nextId := nextId + 1;
      num := num + 1;
    }

    /** nova_alloc_unused_inode, the part of one CPU: the least number that is not in use.  Fails
        only if all numbers up to the limit are in use. */
    method AllocUnused() returns (ret: int, internal: nat)
      requires Valid()
      modifies this
      ensures Valid()
      ensures ret == if old(|nodes| == 1 && nodes[0].high + 2 >= MAX_INODE) then ENOSPC else 0
      ensures ret == ENOSPC ==> nodes == old(nodes) && forall x :: Has(nodes, x) <==> 0 <= x <= nodes[0].high
      ensures ret == ENOSPC <==> Full(old(nodes))
      ensures ret == 0 ==> !old(Has(nodes, internal)) && forall x :: 0 <= x < internal ==> old(Has(nodes, x))
      ensures ret == 0 ==> forall x :: Has(nodes, x) <==> old(Has(nodes, x)) || x == internal
    {
      var i := nodes[0];
      internal := i.high + 1;
      FirstGap(nodes);
      FullMeansOne(nodes);
      hide Sorted, DistinctIds, Has, Below, Total, Inside;
      var nextLow := if |nodes| > 1 then nodes[1].low else MAX_INODE;
      if |nodes| > 1 && internal == nextLow - 1 {
        // fill the gap completely
        FillGap(1);
        ret := 0;
      } else if internal < nextLow - 1 {
        // aligns to left
        GrowUp(0, 1);
        ret := 0;
      } else {
        ret := ENOSPC;
      }
    }

    /** nova_free_inuse_inode, the part of one CPU: one number less.  Number 0 must not be
        freed: first_inode_range is not kept up to date. */
    method FreeInuse(internal: nat) returns (ret: int)
      requires Valid()
      modifies this
      ensures ret == if old(Has(nodes, internal)) then 0 else EINVAL
      ensures ret != 0 ==> nodes == old(nodes)
      ensures ret == 0 ==> forall x :: Has(nodes, x) <==> old(Has(nodes, x)) && x != internal
      ensures Valid() <==> ret != 0 || internal > 0
    {
      var found, k := FindRangeNode(nodes, internal);
      if !found {
        return EINVAL;
      }
      ret := 0;
      var i := nodes[k];
      FirstIsLeast(nodes, k);
      if internal == i.low && internal == i.high {
        // fits entire node
        Dropped(nodes, k, nextId, 0, 0);
        hide Sorted, DistinctIds, Has, Below, Total, Inside;
        nodes := Replaced(nodes, k, k + 1, []);
        num := num - 1;
      } else if internal == i.low {
        // aligns left
        Shrunk(nodes, k, i.(low := internal + 1), internal, 1, nextId, 0, 0);
        hide Sorted, DistinctIds, Has, Below, Total, Inside;
        nodes := Replaced(nodes, k, k + 1, [i.(low := internal + 1)]);
      } else if internal == i.high {
        // aligns right
        Shrunk(nodes, k, i.(high := internal - 1), internal, 1, nextId, 0, 0);
        hide Sorted, DistinctIds, Has, Below, Total, Inside;
        nodes := Replaced(nodes, k, k + 1, [i.(high := internal - 1)]);
      } else {
        // aligns somewhere in the middle
        var curr := Node(nextId, internal + 1, i.high);
        Split(nodes, k, i.(high := internal - 1), curr, nextId, 0, 0);
        hide Sorted, DistinctIds, Has, Below, Total, Inside;
        nodes := Replaced(nodes, k, k + 1, [i.(high := internal - 1), curr]);
        nextId := nextId + 1;
        num := num + 1;
      }
    }

    /** nova_failure_insert_inodetree, the part of one CPU: a range found by the scan after a
        crash. */
    method FailureInsert(low: nat, high: nat) returns (ret: int)
      requires Valid() && low <= high && (Has(nodes, low) || forall x :: low <= x <= high ==> !Has(nodes, x))
      modifies this
      ensures Valid()
      ensures ret == if old(Has(nodes, low)) then EINVAL else 0
      ensures ret != 0 ==> nodes == old(nodes)
      ensures ret == 0 ==> forall x :: Has(nodes, x) <==> old(Has(nodes, x)) || low <= x <= high
    {
      var ok, k := FindFreeSlot(nodes, low, high);
      if !ok {
        return EINVAL;
      }
      FirstGap(nodes);
      assert k > 0;
      hide Sorted, DistinctIds, Has, Below, Total, Inside;
      if k < |nodes| && low == nodes[k - 1].high + 1 && high + 1 == nodes[k].low {
        // fits the hole
        FillGap(k);
      } else if low == nodes[k - 1].high + 1 {
        // aligns left
        GrowUp(k - 1, high - low + 1);
      } else if k < |nodes| && high + 1 == nodes[k].low {
        // aligns right
        GrowDown(k, high - low + 1);
      } else {
        // aligns somewhere in the middle
        InsertNode(k, low, high);
      }
      ret := 0;
    }
  }

  /** Everything up to the end of the first range is in it, and the next number is in none. */
  lemma FirstGap(nodes: seq<Node>)
    requires Sorted(nodes) && nodes != [] && nodes[0].low == 0
    ensures !Has(nodes, nodes[0].high + 1) && forall x :: 0 <= x <= nodes[0].high ==> Has(nodes, x)
    ensures |nodes| == 1 ==> forall x :: Has(nodes, x) <==> 0 <= x <= nodes[0].high
    ensures |nodes| > 1 ==> nodes[0].high + 1 < nodes[1].low
  {
    forall x | 0 <= x <= nodes[0].high ensures Has(nodes, x) { HasIt(nodes, 0, x); }
    forall i | 0 <= i < |nodes| ensures !In(nodes[i], nodes[0].high + 1) {
      assert i > 0 ==> Gap(nodes, 0, i);
    }
    assert |nodes| > 1 ==> Gap(nodes, 0, 1);
  }

  /** The numbers in use are those up to some number that comes close to the limit. */
  ghost predicate Full(nodes: seq<Node>) {
    exists h: nat :: h + 2 >= MAX_INODE && UpTo(nodes, h)
  }

  ghost predicate UpTo(nodes: seq<Node>, h: nat) {
    forall x :: Has(nodes, x) <==> 0 <= x <= h
  }

  lemma FullMeansOne(nodes: seq<Node>)
    requires Sorted(nodes) && nodes != [] && nodes[0].low == 0
    ensures Full(nodes) <==> |nodes| == 1 && nodes[0].high + 2 >= MAX_INODE
  {
    FirstGap(nodes);
    if h: nat :| h + 2 >= MAX_INODE && UpTo(nodes, h) {
      assert Has(nodes, nodes[0].high) && !Has(nodes, nodes[0].high + 1);
      assert nodes[0].high == h;
      if |nodes| > 1 { HasIt(nodes, 1, nodes[1].low); }
    }
    if |nodes| == 1 && nodes[0].high + 2 >= MAX_INODE {
      assert UpTo(nodes, nodes[0].high);
    }
  }

  lemma FirstIsLeast(nodes: seq<Node>, k: nat)
    requires Sorted(nodes) && k < |nodes|
    ensures nodes[0].high <= nodes[k].high && (k > 0 ==> nodes[0].high < nodes[k].low)
  {
    assert k > 0 ==> Gap(nodes, 0, k);
  }

  /** The numbers issued on this CPU are those up to some number that comes close to the limit. */
  ghost predicate Exhausted(issued: set<nat>, cpuid: nat, cpus: nat)
    requires cpuid < cpus
  {
    exists h: nat :: h + 2 >= MAX_INODE && IssuedUpTo(issued, cpuid, cpus, h)
  }

  ghost predicate IssuedUpTo(issued: set<nat>, cpuid: nat, cpus: nat, h: nat)
    requires cpuid < cpus
  {
    h >= Reserved(cpus) && forall x: nat :: x > Reserved(cpus) ==> (Ino(x, cpuid, cpus) in issued <==> x <= h)
  }

  lemma FullMeansExhausted(nodes: seq<Node>, issued: set<nat>, cpuid: nat, cpus: nat)
    requires cpuid < cpus && Sorted(nodes) && nodes != [] && nodes[0].low == 0
    requires forall x :: 0 <= x <= Reserved(cpus) ==> Has(nodes, x)
    requires forall x :: x > Reserved(cpus) ==> (Has(nodes, x) <==> Ino(x, cpuid, cpus) in issued)
    ensures Full(nodes) <==> Exhausted(issued, cpuid, cpus)
  {
    if h: nat :| h + 2 >= MAX_INODE && UpTo(nodes, h) {
      assert Has(nodes, Reserved(cpus));
      assert IssuedUpTo(issued, cpuid, cpus, h);
    }
    if h: nat :| h + 2 >= MAX_INODE && IssuedUpTo(issued, cpuid, cpus, h) {
      forall x ensures Has(nodes, x) <==> 0 <= x <= h {
        if x > Reserved(cpus) { assert Ino(x, cpuid, cpus) in issued <==> x <= h; }
      }
      assert UpTo(nodes, h);
    }
  }

  /** The inode numbers of all CPUs. */
  class InodeTable {
    const cpus: nat
    const maps: seq<InodeMap>
    var used: int             // s_inodes_used_count
    ghost var issued: set<nat>

    ghost predicate Shape() {
      cpus > 0 && |maps| == cpus && forall i, j :: 0 <= i < j < cpus ==> maps[i] != maps[j]
    }

    /** A CPU's list holds the reserved numbers and those issued. */
    ghost predicate Holds(i: nat)
      requires Shape() && i < cpus
      reads this, maps[i]
    {
      && maps[i].Valid()
      && (forall x :: 0 <= x <= Reserved(cpus) ==> Has(maps[i].nodes, x))
      && (forall x :: x > Reserved(cpus) ==> (Has(maps[i].nodes, x) <==> Ino(x, i, cpus) in issued))
    }

    ghost predicate Valid()
      reads this, maps
    {
      && Shape()
      && (forall i :: 0 <= i < cpus ==> Holds(i))
      && (forall ino :: ino in issued ==> ino / cpus > Reserved(cpus))
      && used == NORMAL_INODE_START + |issued|
    }

    /** nova_init_inode_inuse_list. */
    constructor (n: nat)
      requires n > 0
      ensures Valid() && cpus == n && issued == {}
    {
      var all: seq<InodeMap> := [];
      while |all| < n
        invariant |all| <= n
        invariant forall i :: 0 <= i < |all| ==> fresh(all[i]) && all[i].Valid()
        invariant forall i, x :: 0 <= i < |all| ==> (Has(all[i].nodes, x) <==> 0 <= x <= Reserved(n))
        invariant forall i, j :: 0 <= i < j < |all| ==> all[i] != all[j]
      {
        var m := new InodeMap(Reserved(n));
        all := all + [m];
      }
      cpus, maps, used, issued := n, all, NORMAL_INODE_START, {};
    }

    /** nova_alloc_unused_inode: a number not in use, the least one of its CPU. */
    method NewInode(cpuid: nat) returns (ret: int, ino: nat)
      requires Valid() && cpuid < cpus
      modifies this, maps[cpuid]
      ensures Valid()
      ensures ret == 0 || ret == ENOSPC
      ensures ret == ENOSPC <==> Exhausted(old(issued), cpuid, cpus)
      ensures ret != 0 ==> issued == old(issued)
      ensures ret == 0 ==>
                ino !in old(issued) && issued == old(issued) + {ino} && ino % cpus == cpuid
                && ino >= NORMAL_INODE_START
      ensures ret == 0 ==> forall x :: Reserved(cpus) < x < ino / cpus ==> Ino(x, cpuid, cpus) in old(issued)
    {
      assert Holds(cpuid);
      FullMeansExhausted(maps[cpuid].nodes, issued, cpuid, cpus);
      hide Full, Exhausted;
      var internal;
      ret, internal := maps[cpuid].AllocUnused();
      ino := Ino(internal, cpuid, cpus);
      InoParts(internal, cpuid, cpus);
      if ret == 0 {
        used := used + 1;
        issued := issued + {ino};
      }
      SameInos(cpuid, internal);
      forall i | 0 <= i < cpus ensures Holds(i) { assert old(Holds(i)); }
      assert ino < NORMAL_INODE_START ==> ino / cpus < Reserved(cpus);
    }

    /** nova_free_inuse_inode: exactly this number may be issued again. */
    method FreeInode(ino: nat) returns (ret: int)
      requires Valid() && ino / cpus > Reserved(cpus)
      modifies this, maps[ino % cpus]
      ensures Valid()
      ensures ret == if ino in old(issued) then 0 else EINVAL
      ensures issued == old(issued) - {ino}
    {
      var cpuid, internal := ino % cpus, ino / cpus;
      assert Holds(cpuid);
      InoParts(internal, cpuid, cpus);
      assert ino == Ino(internal, cpuid, cpus);
      ret := maps[cpuid].FreeInuse(internal);
      if ret == 0 {
        used := used - 1;
        issued := issued - {ino};
      }
      SameInos(cpuid, internal);
      forall i | 0 <= i < cpus ensures Holds(i) { assert old(Holds(i)); }
    }

    /** No other pair of a CPU and an internal number makes the same inode number. */
    lemma SameInos(cpuid: nat, internal: nat)
      requires cpuid < cpus
      ensures forall i: nat, x: nat :: i < cpus && Ino(x, i, cpus) == Ino(internal, cpuid, cpus) ==>
              i == cpuid && x == internal
    {
      InoParts(internal, cpuid, cpus);
      forall i: nat, x: nat | i < cpus && Ino(x, i, cpus) == Ino(internal, cpuid, cpus)
        ensures i == cpuid && x == internal
      {
        InoParts(x, i, cpus);
      }
    }
  }

  // ---------------------------------------------------------------- after a crash

  /** Some inode of the table has the internal number x. */
  ghost predicate Found(inos: seq<nat>, cpus: nat, x: int)
    requires cpus > 0
  {
    exists j :: 0 <= j < |inos| && inos[j] / cpus == x
  }

  /** The live inodes of one page of a CPU's inode table, in the order of the scan. */
  ghost predicate TablePage(inos: seq<nat>, cpus: nat, cpuid: nat) {
    && cpuid < cpus
    && (forall j :: 0 <= j < |inos| ==> inos[j] % cpus == cpuid && inos[j] > 0)
    && (forall j, k :: 0 <= j < k < |inos| ==> inos[j] / cpus < inos[k] / cpus)
  }

  /** The numbers with indices [from, to) are one range, low to high. */
  ghost predicate OneRange(inos: seq<nat>, cpus: nat, from: nat, to: nat, low: nat, high: nat)
    requires cpus > 0
  {
    && from < to <= |inos| && low == inos[from] && high == inos[to - 1]
    && forall j :: from <= j < to ==> inos[j] / cpus == low / cpus + (j - from)
  }

  /** The scan of one page (failure_thread_func with nova_failure_update_inodetree): all live
      inodes are in use again. */
  method RecoverPage(m: InodeMap, inos: seq<nat>, cpus: nat, cpuid: nat)
    requires TablePage(inos, cpus, cpuid) && m.Valid() && forall x :: Found(inos, cpus, x) ==> !Has(m.nodes, x)
    modifies m
    ensures m.Valid()
    ensures forall x :: Has(m.nodes, x) <==> old(Has(m.nodes, x)) || Found(inos, cpus, x)
  {
    var low: nat, high: nat := 0, 0;
    ghost var from: nat := 0;
    for i := 0 to |inos|
      invariant m.Valid() && from <= i && (low == 0 <==> i == 0)
      invariant i > 0 ==> OneRange(inos, cpus, from, i, low, high)
      invariant forall x :: Has(m.nodes, x) <==> old(Has(m.nodes, x)) || Found(inos[..from], cpus, x)
    {
      if low == 0 {
        low, high := inos[i], inos[i];
      } else if inos[i] == high + cpus {
        NextIno(high, cpus);
        high := inos[i];
      } else {
        Ahead(inos, cpus, cpuid, from, i);
        FoundConcat(inos, cpus, from, i);
        AddRange(m, inos, cpus, from, i, low, high);
        low, high := inos[i], inos[i];
        from := i;
      }
    }
    if low != 0 && high != 0 {
      Ahead(inos, cpus, cpuid, from, |inos|);
      FoundConcat(inos, cpus, from, |inos|);
      AddRange(m, inos, cpus, from, |inos|, low, high);
    }
    assert inos[..|inos|] == inos;
  }

  /** The numbers behind an index are not among those in front of it. */
  lemma Ahead(inos: seq<nat>, cpus: nat, cpuid: nat, from: nat, to: nat)
    requires TablePage(inos, cpus, cpuid) && from <= to <= |inos|
    ensures forall x :: Found(inos[from..to], cpus, x) ==> Found(inos, cpus, x) && !Found(inos[..from], cpus, x)
  {
    forall x | Found(inos[from..to], cpus, x) ensures Found(inos, cpus, x) && !Found(inos[..from], cpus, x) {
      var j :| 0 <= j < to - from && inos[from..to][j] / cpus == x;
      assert inos[from + j] / cpus == x;
    }
  }

  lemma FoundConcat(inos: seq<nat>, cpus: nat, from: nat, to: nat)
    requires cpus > 0 && from <= to <= |inos|
    ensures forall x :: Found(inos[..to], cpus, x) <==> Found(inos[..from], cpus, x) || Found(inos[from..to], cpus, x)
  {
    forall x ensures Found(inos[..to], cpus, x) <==> Found(inos[..from], cpus, x) || Found(inos[from..to], cpus, x) {
      if Found(inos[..from], cpus, x) {
        var j :| 0 <= j < from && inos[..from][j] / cpus == x;
        assert inos[..to][j] / cpus == x;
      }
      if Found(inos[from..to], cpus, x) {
        var j :| 0 <= j < to - from && inos[from..to][j] / cpus == x;
        assert inos[..to][from + j] / cpus == x;
      }
      if Found(inos[..to], cpus, x) {
        var j :| 0 <= j < to && inos[..to][j] / cpus == x;
        if j < from { assert inos[..from][j] / cpus == x; } else { assert inos[from..to][j - from] / cpus == x; }
      }
    }
  }

  lemma NextIno(high: nat, cpus: nat)
    requires cpus > 0
    ensures (high + cpus) / cpus == high / cpus + 1
  {
    InoParts(high / cpus + 1, high % cpus, cpus);
    assert high + cpus == Ino(high / cpus + 1, high % cpus, cpus);
  }

  /** The numbers of a range are those of its inodes. */
  lemma RangeIsFound(inos: seq<nat>, cpus: nat, from: nat, to: nat, low: nat, high: nat)
    requires cpus > 0 && OneRange(inos, cpus, from, to, low, high)
    ensures low / cpus <= high / cpus
    ensures forall x :: Found(inos[from..to], cpus, x) <==> low / cpus <= x <= high / cpus
  {
    forall x | low / cpus <= x <= high / cpus ensures Found(inos[from..to], cpus, x) {
      assert inos[from + (x - low / cpus)] / cpus == x;
      assert inos[from..to][x - low / cpus] / cpus == x;
    }
  }

  /** One range goes in. */
  method AddRange(m: InodeMap, ghost inos: seq<nat>, cpus: nat, ghost from: nat, ghost to: nat, low: nat, high: nat)
    requires cpus > 0 && m.Valid() && OneRange(inos, cpus, from, to, low, high)
    requires forall x :: Found(inos[from..to], cpus, x) ==> !Has(m.nodes, x)
    modifies m
    ensures m.Valid()
    ensures forall x :: Has(m.nodes, x) <==> old(Has(m.nodes, x)) || Found(inos[from..to], cpus, x)
  {
    RangeIsFound(inos, cpus, from, to, low, high);
    hide Has, Found, OneRange, Sorted, DistinctIds, Below;
    var _ := m.FailureInsert(low / cpus, high / cpus);
  }
}
