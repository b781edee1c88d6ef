/** The free lists after a crash: rebuilt from a bitmap of the blocks that are in use. */
module BlockmapRebuild {
  import opened RangeList
  import opened BlockAllocator

  type Bitmap = seq<bool>

  /** find_next_zero_bit: the first clear bit in [start, end), or end. */
  method FindNextZeroBit(bitmap: Bitmap, end: nat, start: nat) returns (next: nat)
    requires start <= end <= |bitmap|
    ensures start <= next <= end && (forall x :: start <= x < next ==> bitmap[x]) && (next < end ==> !bitmap[next])
  {
    next := start;
    while next < end && bitmap[next]
      invariant start <= next <= end && forall x :: start <= x < next ==> bitmap[x]
    {
      next := next + 1;
    }
  }

  /** find_next_bit: the first set bit in [start, end), or end. */
  method FindNextBit(bitmap: Bitmap, end: nat, start: nat) returns (next: nat)
    requires start <= end <= |bitmap|
    ensures start <= next <= end && (forall x :: start <= x < next ==> !bitmap[x]) && (next < end ==> bitmap[next])
  {
    next := start;
    while next < end && !bitmap[next]
      invariant start <= next <= end && forall x :: start <= x < next ==> !bitmap[x]
    {
      next := next + 1;
    }
  }

  /** The list holds exactly the clear bits of its share below x. */
  ghost predicate BuiltTo(bitmap: Bitmap, nodes: seq<Node>, start: nat, to: nat)
    requires to <= |bitmap|
  {
    forall x :: Has(nodes, x) <==> start <= x < to && !bitmap[x]
  }

  /** The shares lie inside the bitmap, and only the last one reaches its end. */
  ghost predicate Covers(bitmap: Bitmap, lists: seq<FreeList>) {
    && lists != []
    && (forall i :: 0 <= i < |lists| ==> lists[i].blockStart <= lists[i].blockEnd < |bitmap|)
    && (forall i :: 0 <= i < |lists| - 1 ==> lists[i].blockEnd + 1 < |bitmap|)
    && (forall i, j :: 0 <= i < j < |lists| ==> lists[i] != lists[j])
  }

  /** nova_insert_blocknode_map: a run behind all others. */
  method InsertBlocknodeMap(l: FreeList, low: nat, high: nat)
    requires l.Valid() && l.InBounds() && low <= high && l.blockStart <= low && high <= l.blockEnd
    requires l.nodes != [] ==> l.nodes[|l.nodes| - 1].high + 1 < low
    modifies l
    ensures l.Valid() && l.InBounds()
    ensures l.nodes != [] && l.nodes[|l.nodes| - 1].high == high
    ensures forall x :: Has(l.nodes, x) <==> old(Has(l.nodes, x)) || low <= x <= high
  {
    var k := |l.nodes|;
    var n := Node(l.nextId, low, high);
    Inserted(l.nodes, k, n, l.blockStart, l.blockEnd);
    hide Sorted, DistinctIds, Total, Has, Below, Inside;
    l.nodes := Replaced(l.nodes, k, k, [n]);
    if l.first == 0 {
      l.first := n.id;
    }
    l.last := n.id;
    l.nextId := l.nextId + 1;
    l.numBlocknode := l.numBlocknode + 1;
    l.numFreeBlocks := l.numFreeBlocks + (high - low + 1);
  }

  /** A list before its share is scanned (FreeList.ForRecovery). */
  ghost predicate Blank(l: FreeList)
    reads l
  {
    l.Valid() && l.nodes == []
  }

  /** A list whose share is scanned up to start, which is where its last run was seen to end. */
  ghost predicate Scanned(bitmap: Bitmap, l: FreeList, start: nat)
    reads l
  {
    && l.Valid() && l.InBounds() && l.blockStart <= start <= l.blockEnd < |bitmap|
    && BuiltTo(bitmap, l.nodes, l.blockStart, start)
    && (l.nodes != [] ==> l.nodes[|l.nodes| - 1].high + 1 == start && bitmap[start])
  }

  lemma BlankIsScanned(bitmap: Bitmap, l: FreeList)
    requires Blank(l) && l.blockStart <= l.blockEnd < |bitmap|
    ensures Scanned(bitmap, l, l.blockStart)
  {
  }

  /** __nova_build_blocknode_map, in 4KB blocks: each list gets exactly the clear bits of its share. */
  method BuildBlocknodeMap(bitmap: Bitmap, lists: seq<FreeList>)
    requires Covers(bitmap, lists) && forall i :: 0 <= i < |lists| ==> Blank(lists[i])
    modifies lists
    ensures forall i :: 0 <= i < |lists| ==> Rest(bitmap, lists[i])
  {
    var cpuid: nat := 0;
    var start, end := lists[0].blockStart, lists[0].blockEnd + 1;
    BlankIsScanned(bitmap, lists[0]);
    while true
      invariant cpuid < |lists| && end == lists[cpuid].blockEnd + 1 && Scanned(bitmap, lists[cpuid], start)
      invariant forall i :: 0 <= i < cpuid ==> Rest(bitmap, lists[i])
      invariant forall i :: cpuid < i < |lists| ==> Blank(lists[i])
      decreases |lists| - cpuid, end - start
    {
      var l := lists[cpuid];
      var next := FindNextZeroBit(bitmap, end, start);
      if next == end {
        NothingLeft(bitmap, l, start);
      }
      if next == |bitmap| {
        break;
      }
      if next == end {
        if cpuid == |lists| - 1 {
          break;
        }
        cpuid := cpuid + 1;
        start, end := lists[cpuid].blockStart, lists[cpuid].blockEnd + 1;
        BlankIsScanned(bitmap, lists[cpuid]);
        continue;
      }
      var low := next;
      next := FindNextBit(bitmap, end, next);
      AddRun(bitmap, l, start, low, next);
      start := next;
      if next == |bitmap| {
        break;
      }
      if next == end {
        if cpuid == |lists| - 1 {
          break;
        }
        cpuid := cpuid + 1;
        start, end := lists[cpuid].blockStart, lists[cpuid].blockEnd + 1;
        BlankIsScanned(bitmap, lists[cpuid]);
      }
    }
  }

  lemma NothingLeft(bitmap: Bitmap, l: FreeList, start: nat)
    requires Scanned(bitmap, l, start) && forall x :: start <= x <= l.blockEnd ==> bitmap[x]
    ensures Rest(bitmap, l)
  {
  }

  /** One step of the scan: the set bits [start, low) are passed by, the run [low, next) goes in. */
  method AddRun(bitmap: Bitmap, l: FreeList, start: nat, low: nat, next: nat)
    requires Scanned(bitmap, l, start) && start <= low < next <= l.blockEnd + 1
    requires forall x :: start <= x < low ==> bitmap[x]
    requires forall x :: low <= x < next ==> !bitmap[x]
    requires next <= l.blockEnd ==> bitmap[next]
    modifies l
    ensures next <= l.blockEnd ==> Scanned(bitmap, l, next)
    ensures next == l.blockEnd + 1 ==> Rest(bitmap, l)
  {
    InsertBlocknodeMap(l, low, next - 1);
    hide Sorted, DistinctIds, Total, Has, Below, Inside;
    forall x ensures Has(l.nodes, x) <==> l.blockStart <= x < next && !bitmap[x] { }
  }

  /** After a crash: the allocator takes as handed out what the bitmap says is in use, and as free
      exactly what is left of the shares. */
  method RecoverBlockmap(bitmap: Bitmap, log: bool, f: Layout) returns (a: Allocator)
    requires f.Fits() && f.perList * f.cpus <= |bitmap|
    ensures fresh(a) && a.Valid() && a.granted == SetBits(bitmap)
    ensures a.log == log && a.perList == f.perList && Divided(f, a.lists)
    ensures forall i :: 0 <= i < |a.lists| ==> Rest(bitmap, a.lists[i])
  {
    hide Sorted, DistinctIds, Total, Has, Below, Inside;
    var lists := InitBlockmap(f, true);
    SharesAreCovered(bitmap, f, lists);
    forall i | 0 <= i < |lists|
      ensures Blank(lists[i])
    {
      assert New(lists[i], true);
    }
    BuildBlocknodeMap(bitmap, lists);
    a := new Allocator.FromBitmap(log, f, lists, bitmap);
  }

  lemma SharesAreCovered(bitmap: Bitmap, f: Layout, lists: seq<FreeList>)
    requires f.Fits() && f.perList * f.cpus <= |bitmap| && Divided(f, lists)
    ensures Covers(bitmap, lists)
  {
    forall i | 0 <= i < |lists|
      ensures lists[i].blockStart <= lists[i].blockEnd < |bitmap|
      ensures i < |lists| - 1 ==> lists[i].blockEnd + 1 < |bitmap|
    {
      Spaced(f.perList, i, f.cpus);
      if i < f.cpus - 1 {
        Spaced(f.perList, i + 1, f.cpus);
        assert f.perList * (i + 1) == f.perList * i + f.perList;
      }
    }
  }

  /** The nodes of a rebuilt list are whole runs of clear bits, cut only at the ends of its share. */
  lemma NodesAreMaximalRuns(bitmap: Bitmap, l: FreeList, k: nat)
    requires Rest(bitmap, l) && k < |l.nodes|
    ensures l.blockStart <= l.nodes[k].low <= l.nodes[k].high <= l.blockEnd
    ensures forall x :: l.nodes[k].low <= x <= l.nodes[k].high ==> !bitmap[x]
    ensures l.nodes[k].low == l.blockStart || bitmap[l.nodes[k].low - 1]
    ensures l.nodes[k].high == l.blockEnd || bitmap[l.nodes[k].high + 1]
  {
    var n := l.nodes[k];
    forall x | n.low <= x <= n.high ensures !bitmap[x] {
      HasIt(l.nodes, k, x);
    }
    NeighboursOut(l.nodes, k);
  }

  /** The values next to a node are in no node. */
  lemma NeighboursOut(nodes: seq<Node>, k: nat)
    requires Sorted(nodes) && k < |nodes|
    ensures !Has(nodes, nodes[k].low - 1) && !Has(nodes, nodes[k].high + 1)
  {
    forall i | 0 <= i < |nodes| ensures !In(nodes[i], nodes[k].low - 1) && !In(nodes[i], nodes[k].high + 1) {
      assert i < k ==> Gap(nodes, i, k);
      assert k < i ==> Gap(nodes, k, i);
    }
  }
}
