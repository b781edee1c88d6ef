/** The in-memory header of a file: its page index and its list of superseded runs. */
module FileIndex {
  import opened Common
  import opened Epochs
  import opened FileLog
  import opened FileBooks

  /** A non-resizing attribute entry cuts nothing at its place in the log, and a resizing one is
      never invalid. */
  ghost predicate AttrOk(log: seq<Entry>, k: nat)
    requires k < |log|
  {
    log[k].SetAttr? ==>
      if log[k].setsize then !log[k].invalid else forall p: nat :: Cuts(log[k], p) ==> Last(log, k, p) == -1
  }

  ghost predicate AttrsOk(log: seq<Entry>) {
    forall k :: 0 <= k < |log| ==> AttrOk(log, k)
  }

  /** The last attribute entry is valid; if it did not resize the file, the file has only grown since. */
  predicate LastAttrOk(log: seq<Entry>, last: int, size: nat) {
    -1 <= last < |log| && (last >= 0 ==>
      log[last].SetAttr? && !log[last].invalid && (!log[last].setsize ==> log[last].size <= size))
  }

  /** No slot lies beyond the end of the file. */
  ghost predicate InFile(tree: Tree, size: nat) {
    forall p :: p in tree ==> p < FirstPage(size)
  }

  /** Every slot holds a write entry that covers its page. */
  ghost predicate Covered(tree: Tree, log: seq<Entry>) {
    forall p :: p in tree ==> tree[p] < |log| && Covers(log[tree[p]], p)
  }

  /** The index after the pages [lo, hi) have been given to entry to, or to none. */
  ghost predicate Overlaid(tree: Tree, tree': Tree, lo: nat, hi: nat, to: int) {
    forall p: nat :: Slot(tree', p) == if lo <= p < hi then to else Slot(tree, p)
  }

  /** The index after the pages from lo on have been dropped. */
  ghost predicate Cut(tree: Tree, tree': Tree, lo: nat) {
    forall p: nat :: Slot(tree', p) == if lo <= p then -1 else Slot(tree, p)
  }

  /** Only counters and flags of write entries have changed. */
  ghost predicate SameShapes(log: seq<Entry>, log': seq<Entry>) {
    && |log| == |log'|
    && (forall k :: 0 <= k < |log| ==> SameShape(log[k], log'[k]))
    && (forall k :: 0 <= k < |log| && !log[k].Write? ==> log'[k] == log[k])
  }

  /** The log has at most one more entry, and no dead entry has changed. */
  ghost predicate Evolves(log: seq<Entry>, log': seq<Entry>) {
    && |log| <= |log'| <= |log| + 1
    && forall k :: 0 <= k < |log| ==> log'[k] == log[k] || !Dead(log[k])
  }

  lemma ShapesEvolve(log: seq<Entry>, more: seq<Entry>, log': seq<Entry>)
    requires SameShapes(log + more, log') && |more| <= 1
    ensures Evolves(log, log')
  {
    forall k | 0 <= k < |log|
      ensures log'[k] == log[k] || !Dead(log[k])
    {
      assert (log + more)[k] == log[k] && SameShape((log + more)[k], log'[k]);
    }
  }

  lemma EvolvesOn(log: seq<Entry>, log1: seq<Entry>, log2: seq<Entry>)
    requires Evolves(log, log1) && SameShapes(log1, log2)
    ensures Evolves(log, log2)
  {
    forall k | 0 <= k < |log|
      ensures log2[k] == log[k] || !Dead(log[k])
    {
      assert SameShape(log1[k], log2[k]);
    }
  }

  lemma ShapesAgree(tree: Tree, log: seq<Entry>, log': seq<Entry>, n: nat)
    requires SameShapes(log, log') && n <= |log| && Agrees(tree, log, n)
    ensures Agrees(tree, log', n)
  {
    forall p: nat ensures Slot(tree, p) == Last(log', n, p) { LastFrame(log, log', n, p); }
  }

  lemma ShapesAttrs(log: seq<Entry>, log': seq<Entry>)
    requires SameShapes(log, log') && AttrsOk(log)
    ensures AttrsOk(log')
  {
    forall k | 0 <= k < |log'| ensures AttrOk(log', k) {
      assert AttrOk(log, k);
      if log[k].SetAttr? && !log[k].setsize {
        forall p: nat | FirstPage(log[k].size) <= p ensures Last(log', k, p) == -1 { LastFrame(log, log', k, p); }
      }
    }
  }

  /** The run that a loop holds: its entry (or -1), its first page, its length. */
  datatype Hand = Hand(cur: int, start: nat, num: nat)

  /** What a deletion of the pages from lo on found. */
  datatype Was = Was(tree: Tree, log: seq<Entry>, parked: set<nat>, lo: nat)

  /** The run that a loop holds has been found in the index tree, and only holes follow it. */
  ghost predicate HandOk(tree: Tree, cur: int, start: nat, num: nat, c: nat) {
    cur >= 0 ==>
      start in tree && tree[start] == cur && num > 0 && start + num <= c
      && forall m: nat :: start + num <= m < c ==> m !in tree
  }

  /** As no hole lies between two slots of one entry, a run that goes on has no hole. */
  lemma RunGoesOn(tree: Tree, cur: int, start: nat, num: nat, c: nat)
    requires NoGap(tree) && HandOk(tree, cur, start, num, c) && c in tree && tree[c] == cur
    ensures start + num == c
  {
    if start + num in tree {
    }
  }

  lemma OnlyWritesChange(b: Books, r: Run, deleteDead: bool, park: bool)
    requires BooksOk(b) && r in b.pend && RunOk(b, r) && (!deleteDead ==> b.pend == {r})
    ensures SameShapes(b.log, Given(b, r, deleteDead, park).log)
  {
    GivenKeeps(b, r, deleteDead, park);
  }

  lemma NotYet(tree: Tree, log: seq<Entry>, n: nat)
    requires n <= |log| && Agrees(tree, log, n)
    ensures forall p :: p in tree ==> tree[p] < n
  {
    forall p | p in tree ensures tree[p] < n { assert Slot(tree, p) == Last(log, n, p); }
  }

  /** Without that the runs are wrong: pages 0 and 2 of entry 0 around a hole make a run of
      two pages, which gives back the block of page 1 and keeps the one of page 2. */
  lemma RunsNeedNoGap(tree: Tree)
    requires tree == map[0 := 0, 2 := 0]
    ensures HandOk(tree, 0, 0, 1, 2) && 2 in tree && tree[2] == 0 && !NoGap(tree)
    ensures Run(0, 0, 2).Has(0, 1) && !Run(0, 0, 2).Has(0, 2)
  {
    assert 0 in tree && 2 in tree && 1 !in tree;
  }

  lemma OverlayKeepsNoGap(tree: Tree, tree': Tree, lo: nat, hi: nat, to: nat)
    requires NoGap(tree) && Overlaid(tree, tree', lo, hi, to) && forall p :: p in tree ==> tree[p] != to
    ensures NoGap(tree')
  {
    forall p, q, m: nat | p in tree' && q in tree' && tree'[p] == tree'[q] && p <= m <= q
      ensures m in tree'
    {
      assert Slot(tree', p) == Slot(tree', q);
      assert Slot(tree', m) == if lo <= m < hi then to as int else Slot(tree, m);
      if !(lo <= p < hi) {
        assert Slot(tree, p) == Slot(tree', p);
        assert Slot(tree, q) == Slot(tree', q);
        assert p in tree && q in tree;
      }
    }
  }

  lemma OverlayGrows(tree: Tree, tree': Tree, lo: nat, hi: nat, to: nat)
    requires lo <= hi && Overlaid(tree, tree', lo, hi, to)
    ensures Overlaid(tree, tree'[hi := to], lo, hi + 1, to)
  {
    forall p: nat ensures Slot(tree'[hi := to], p) == if lo <= p < hi + 1 then to else Slot(tree, p) {
      assert Slot(tree', p) == if lo <= p < hi then to as int else Slot(tree, p);
    }
  }

  /** A step over holes. */
  lemma OverlaySkips(tree: Tree, tree': Tree, lo: nat, hi: nat, hi': nat)
    requires lo <= hi <= hi' && Overlaid(tree, tree', lo, hi, -1) && forall m: nat :: hi <= m < hi' ==> m !in tree'
    ensures Overlaid(tree, tree', lo, hi', -1) && forall m: nat :: hi <= m < hi' ==> m !in tree
  {
    forall p: nat ensures Slot(tree', p) == if lo <= p < hi' then -1 else Slot(tree, p) {
      assert Slot(tree', p) == if lo <= p < hi then -1 else Slot(tree, p);
    }
    forall m: nat | hi <= m < hi' ensures m !in tree {
      assert Slot(tree', m) == Slot(tree, m);
    }
  }

  lemma OverlayDrops(tree: Tree, tree': Tree, lo: nat, hi: nat)
    requires lo <= hi && Overlaid(tree, tree', lo, hi, -1)
    ensures Overlaid(tree, tree' - {hi}, lo, hi + 1, -1)
  {
    forall p: nat ensures Slot(tree' - {hi}, p) == if lo <= p < hi + 1 then -1 else Slot(tree, p) {
      assert Slot(tree', p) == if lo <= p < hi then -1 else Slot(tree, p);
    }
  }

  lemma OverlayCuts(tree: Tree, tree': Tree, lo: nat, hi: nat)
    requires lo <= hi && Overlaid(tree, tree', lo, hi, -1) && forall p :: p in tree' ==> p < hi
    ensures Cut(tree, tree', lo)
  {
    forall p: nat ensures Slot(tree', p) == if lo <= p then -1 else Slot(tree, p) {
      assert Slot(tree', p) == if lo <= p < hi then -1 else Slot(tree, p);
    }
  }

  lemma AllBetween(tree: Tree, tree': Tree, lo: nat, hi: nat)
    requires Overlaid(tree, tree', lo, hi, -1) && forall p :: p in tree' ==> p < hi
    ensures Between(tree, lo, hi) == Tail(tree, lo)
  {
    forall p | p in tree && lo <= p ensures p < hi {
      assert Slot(tree', p) == if lo <= p < hi then -1 else Slot(tree, p);
    }
  }

  lemma StillCovered(tree: Tree, tree': Tree, lo: nat, hi: nat, log: seq<Entry>, log': seq<Entry>)
    requires Overlaid(tree, tree', lo, hi, -1) && Covered(tree, log) && SameShapes(log, log')
    ensures Covered(tree', log') && tree'.Keys <= tree.Keys
  {
    forall p | p in tree' ensures p in tree && tree'[p] < |log'| && Covers(log'[tree'[p]], p) {
      assert Slot(tree', p) == if lo <= p < hi then -1 else Slot(tree, p);
      assert Covers(log[tree[p]], p) && SameShape(log[tree[p]], log'[tree[p]]);
    }
  }

  lemma {:induction false} Bounded(keys: set<nat>) returns (hi: nat)
    ensures forall p :: p in keys ==> p < hi
    decreases |keys|
  {
    if keys == {} {
      hi := 0;
    } else {
      var p :| p in keys;
      var rest := keys - {p};
      hi := Bounded(rest);
      if hi <= p {
        hi := p + 1;
      }
      assert forall q :: q in keys ==> q == p || q in rest;
    }
  }

  lemma OverlayAgrees(tree: Tree, tree': Tree, log: seq<Entry>, j: nat)
    requires j < |log| && log[j].Write? && Agrees(tree, log, j)
    requires Overlaid(tree, tree', log[j].pgoff, log[j].pgoff + log[j].num, j)
    ensures Agrees(tree', log, j + 1)
  {
    forall p: nat ensures Slot(tree', p) == Last(log, j + 1, p) {
      assert Slot(tree, p) == Last(log, j, p);
    }
  }

  /** The log cuts the index at the given size; the index may not have been cut yet. */
  ghost predicate CutsFrom(tree: Tree, log: seq<Entry>, size: nat) {
    forall p: nat :: Last(log, |log|, p) == if FirstPage(size) <= p then -1 else Slot(tree, p)
  }

  lemma NothingBehind(tree: Tree, end: nat, first: nat)
    requires InFile(tree, end) && first > if end == 0 then 0 else (end - 1) / PAGE
    ensures Cut(tree, tree, first)
  {
    forall p | p in tree ensures p < first { assert p < FirstPage(end); }
  }

  /** What becomes of the log when attribute entry e is logged and the last one is at place last: e is stored there,
      if both are of one epoch and neither resizes the file; or it is appended, and the last one becomes invalid
      if it is of the same epoch and does not resize. */
  ghost predicate AttrLogged(log: seq<Entry>, last: int, e: Entry, log': seq<Entry>, last': int)
    requires -1 <= last < |log| && (last >= 0 ==> log[last].SetAttr?) && e.SetAttr?
  {
    var same := last >= 0 && log[last].epoch == e.epoch && !log[last].setsize;
    if same && !e.setsize then last' == last && log' == log[last := e]
    else last' == |log| && log' == (if same then log[last := log[last].(invalid := true)] else log) + [e]
  }

  /** A new attribute entry cuts at its size; if it does not resize the file that is nothing. */
  lemma AppendAttrs(tree: Tree, log: seq<Entry>, e: Entry, size: nat)
    requires Agrees(tree, log, |log|) && AttrsOk(log) && InFile(tree, size)
    requires e.SetAttr? && !e.invalid && (!e.setsize ==> e.size == size)
    ensures AttrsOk(log + [e]) && CutsFrom(tree, log + [e], e.size)
  {
    var z := log + [e];
    forall n: nat, p: nat | n <= |log| ensures Last(z, n, p) == Last(log, n, p) { LastFrame(log, z, n, p); }
    forall k | 0 <= k < |z| ensures AttrOk(z, k) {
      if k < |log| {
        assert AttrOk(log, k);
      } else if !e.setsize {
        forall p: nat | FirstPage(size) <= p
          ensures Last(z, k, p) == -1
        {
          assert Slot(tree, p) == Last(log, |log|, p);
        }
      }
    }
    forall p: nat ensures Last(z, |z|, p) == if FirstPage(e.size) <= p then -1 else Slot(tree, p) {
      assert Slot(tree, p) == Last(log, |log|, p);
    }
  }

  /** Overwriting the last attribute entry in place is harmless: the file has only grown since
      it was written, so neither the old nor the new size cuts anything at its place. */
  lemma OverwriteIsHarmless(tree: Tree, log: seq<Entry>, k: nat, e: Entry, size: nat)
    requires k < |log| && LastAttrOk(log, k, size) && !log[k].setsize && AttrsOk(log) && Agrees(tree, log, |log|)
    requires e.SetAttr? && !e.setsize && e.size == size && InFile(tree, size)
    ensures AttrsOk(log[k := e]) && CutsFrom(tree, log[k := e], size)
  {
    var z := log[k := e];
    assert AttrOk(log, k);
    forall n: nat, p: nat | n <= |log| ensures Last(z, n, p) == Last(log, n, p) {
      LastAfterRewrite(log, k, e, n, p);
    }
    forall i | 0 <= i < |z| ensures AttrOk(z, i) { assert AttrOk(log, i); }
    forall p: nat ensures Last(z, |z|, p) == if FirstPage(size) <= p then -1 else Slot(tree, p) {
      assert Slot(tree, p) == Last(log, |log|, p);
    }
  }

  /** Replay does not look at the invalid flag, which a resizing entry never gets. */
  lemma InvalidIsHarmless(tree: Tree, log: seq<Entry>, k: nat, size: nat)
    requires k < |log| && log[k].SetAttr? && !log[k].setsize && AttrsOk(log) && CutsFrom(tree, log, size)
    ensures AttrsOk(log[k := log[k].(invalid := true)]) && CutsFrom(tree, log[k := log[k].(invalid := true)], size)
  {
    var z := log[k := log[k].(invalid := true)];
    forall n: nat, p: nat | n <= |log| ensures Last(z, n, p) == Last(log, n, p) { LastFrame(log, z, n, p); }
    forall i | 0 <= i < |z| ensures AttrOk(z, i) { assert AttrOk(log, i); }
  }

  lemma ShapesReflexive(log: seq<Entry>)
    ensures SameShapes(log, log)
  {
  }

  lemma ShapesCompose(log: seq<Entry>, log1: seq<Entry>, log2: seq<Entry>)
    requires SameShapes(log, log1) && SameShapes(log1, log2) && Alike(log, log1) && Alike(log1, log2)
    ensures SameShapes(log, log2) && Alike(log, log2)
  {
    ShapesJoin(log, log1, log2);
  }

  lemma ShapesJoin(log: seq<Entry>, log1: seq<Entry>, log2: seq<Entry>)
    requires SameShapes(log, log1) && SameShapes(log1, log2)
    ensures SameShapes(log, log2)
  {
    forall k | 0 <= k < |log| ensures SameShape(log[k], log2[k]) && (!log[k].Write? ==> log2[k] == log[k]) {
      assert SameShape(log[k], log1[k]) && SameShape(log1[k], log2[k]);
    }
  }

  lemma PagesGrow(size: nat, size': nat)
    requires size <= size'
    ensures FirstPage(size) <= FirstPage(size')
  {
  }

  lemma SizesKept(log: seq<Entry>, log': seq<Entry>, last: int, size: nat)
    requires SameShapes(log, log') && LastAttrOk(log, last, size)
    ensures LastAttrOk(log', last, size)
  {
  }

  lemma NothingBehindSize(tree: Tree, size: nat)
    requires InFile(tree, size)
    ensures Cut(tree, tree, FirstPage(size))
  {
  }

  /** After the cut the index is what the log says. */
  lemma CutAgrees(tree: Tree, tree': Tree, log: seq<Entry>, log': seq<Entry>, size: nat)
    requires CutsFrom(tree, log, size) && Cut(tree, tree', FirstPage(size)) && SameShapes(log, log')
    requires NoGap(tree) && AttrsOk(log)
    ensures Agrees(tree', log', |log'|) && NoGap(tree') && AttrsOk(log') && InFile(tree', size)
  {
    forall p: nat ensures Slot(tree', p) == Last(log', |log'|, p) {
      LastFrame(log, log', |log|, p);
      assert Slot(tree', p) == if FirstPage(size) <= p then -1 else Slot(tree, p);
    }
    forall p, q, m: nat | p in tree' && q in tree' && tree'[p] == tree'[q] && p <= m <= q ensures m in tree' {
      assert Slot(tree', p) == Slot(tree, p) && Slot(tree', q) == Slot(tree, q) && Slot(tree', m) == Slot(tree, m);
    }
    ShapesAttrs(log, log');
    forall p | p in tree' ensures p < FirstPage(size) {
      assert Slot(tree', p) == if FirstPage(size) <= p then -1 else Slot(tree, p);
    }
  }

  lemma AppendShapes(tree: Tree, log: seq<Entry>, e: Entry, n: nat, last: int, size: nat)
    requires n <= |log| && Agrees(tree, log, n) && AttrsOk(log) && LastAttrOk(log, last, size) && e.Write?
    ensures Agrees(tree, log + [e], n) && AttrsOk(log + [e]) && LastAttrOk(log + [e], last, size)
  {
    var z := log + [e];
    forall m: nat, p: nat | m <= |log| ensures Last(z, m, p) == Last(log, m, p) { LastFrame(log, z, m, p); }
    forall k | 0 <= k < |z| ensures AttrOk(z, k) { if k < |log| { assert AttrOk(log, k); } }
    forall p: nat ensures Slot(tree, p) == Last(z, n, p) { assert Slot(tree, p) == Last(log, n, p); }
  }

  lemma AppendOther(tree: Tree, log: seq<Entry>, last: int, size: nat)
    requires Agrees(tree, log, |log|) && AttrsOk(log) && LastAttrOk(log, last, size)
    ensures Agrees(tree, log + [Other(false)], |log| + 1) && AttrsOk(log + [Other(false)])
    ensures LastAttrOk(log + [Other(false)], last, size)
  {
    var z := log + [Other(false)];
    forall m: nat, p: nat | m <= |log| ensures Last(z, m, p) == Last(log, m, p) { LastFrame(log, z, m, p); }
    forall k | 0 <= k < |z| ensures AttrOk(z, k) { if k < |log| { assert AttrOk(log, k); } }
    forall p: nat ensures Slot(tree, p) == Last(z, |z|, p) { assert Slot(tree, p) == Last(log, |log|, p); }
  }

  lemma OtherIsHarmless(tree: Tree, log: seq<Entry>, k: nat, last: int, size: nat)
    requires k < |log| && log[k].Other? && Agrees(tree, log, |log|) && AttrsOk(log) && LastAttrOk(log, last, size)
    ensures Agrees(tree, log[k := Other(true)], |log|) && AttrsOk(log[k := Other(true)])
    ensures LastAttrOk(log[k := Other(true)], last, size)
  {
    var z := log[k := Other(true)];
    forall m: nat, p: nat | m <= |log| ensures Last(z, m, p) == Last(log, m, p) { LastFrame(log, z, m, p); }
    forall i | 0 <= i < |z| ensures AttrOk(z, i) { assert AttrOk(log, i); }
    forall p: nat ensures Slot(tree, p) == Last(z, |z|, p) { assert Slot(tree, p) == Last(log, |log|, p); }
  }

  lemma OverlayInFile(tree: Tree, tree': Tree, lo: nat, hi: nat, to: nat, size: nat)
    requires Overlaid(tree, tree', lo, hi, to) && InFile(tree, size) && hi <= FirstPage(size)
    ensures InFile(tree', size)
  {
    forall p | p in tree' ensures p < FirstPage(size) {
      assert Slot(tree', p) == if lo <= p < hi then to as int else Slot(tree, p);
    }
  }

  // ---------------------------------------------------------------- what a truncation leaves behind

  /** The device block behind page p, or -1 for a hole. */
  function Place(tree: Tree, log: seq<Entry>, p: nat): int {
    if p in tree && tree[p] < |log| && log[tree[p]].Write? then BlockOf(log[tree[p]], p) else -1
  }

  /** The blocks behind the pages [lo, hi). */
  ghost function Places(tree: Tree, log: seq<Entry>, lo: nat, hi: nat): set<nat> {
    set p | lo <= p < hi && Place(tree, log, p) >= 0 :: Place(tree, log, p)
  }

  lemma SamePlaces(tree: Tree, log: seq<Entry>, log': seq<Entry>, lo: nat, hi: nat)
    requires Alike(log, log') && forall p :: p in tree ==> tree[p] < |log|
    ensures Places(tree, log', lo, hi) == Places(tree, log, lo, hi)
  {
    forall p: nat ensures Place(tree, log', p) == Place(tree, log, p) { }
  }

  /** An entry has been given to the index, and nothing waited before: now exactly the blocks of the pages that it
      took over wait to be freed. */
  lemma SupersededWait(b: Books, z: Books, lo: nat, hi: nat)
    requires BooksOk(b) && BooksOk(z) && b.pend == {} && b.log == z.log && b.owner == z.owner
    requires b.n < |b.log| && z.n == b.n + 1 && (forall p: nat :: Covers(b.log[b.n], p) <==> lo <= p < hi)
    requires Overlaid(b.tree, z.tree, lo, hi, b.n) && forall p :: p in b.tree ==> b.tree[p] < b.n
    ensures PendingBlocks(z) == Places(b.tree, b.log, lo, hi)
  {
    forall x: nat ensures x in PendingBlocks(z) ==> x in Places(b.tree, b.log, lo, hi) {
      if x in PendingBlocks(z) {
        var (j, q) := z.owner[x];
        var r :| r in z.pend && r.Has(j, q);
        assert RunOk(z, r) && BlockOk(b, x);
        assert Owns(z, r.entry, q) && Slot(z.tree, q) != r.entry;
        assert Place(b.tree, b.log, q) == x;
      }
    }
    forall p: nat | lo <= p < hi && Place(b.tree, b.log, p) >= 0 ensures Place(b.tree, b.log, p) in PendingBlocks(z) {
      assert SlotOk(b, p) && Slot(z.tree, p) == b.n;
      assert BlockOk(z, Place(b.tree, b.log, p));
    }
  }

  /** A live snapshot sees what entry e wrote, if that is replaced in the given epoch. */
  predicate SeenBy(e: Entry, epoch: nat, live: set<nat>)
    requires e.Write?
  {
    exists s :: s in live && e.epoch <= s < epoch
  }

  /** A live snapshot sees what is in page p of the index, if that is replaced in the given epoch. */
  ghost predicate Seen(tree: Tree, log: seq<Entry>, p: nat, epoch: nat, live: set<nat>) {
    p in tree && tree[p] < |log| && log[tree[p]].Write? && SeenBy(log[tree[p]], epoch, live)
  }

  /** The pages of the index from lo on. */
  ghost function Tail(tree: Tree, lo: nat): set<nat> {
    set p | p in tree && lo <= p
  }

  ghost function Between(tree: Tree, lo: nat, hi: nat): set<nat> {
    set p | p in tree && lo <= p < hi
  }

  /** Those of the given pages whose slot is j. */
  ghost function OfEntry(tree: Tree, pages: set<nat>, j: nat): set<nat> {
    set p | p in pages && p in tree && tree[p] == j
  }

  /** The given pages of the index have been dropped: a block is kept for snapshots exactly if it was before,
      or one of these pages had it and a live snapshot sees it; and an entry counts the pages it has lost,
      unless a snapshot sees them. */
  ghost predicate Settled(tree: Tree, log: seq<Entry>, parked: set<nat>, pages: set<nat>, epoch: nat, live: set<nat>,
                          log': seq<Entry>, parked': set<nat>)
  {
    && |log| <= |log'|
    && (forall x: nat :: x in parked' <==>
          x in parked || exists p :: p in pages && Seen(tree, log, p, epoch, live) && Place(tree, log, p) == x)
    && (forall j :: 0 <= j < |log| && log[j].Write? ==>
          log'[j].Write? && log'[j].invalidPages
          == log[j].invalidPages + if SeenBy(log[j], epoch, live) then 0 else |OfEntry(tree, pages, j)|)
  }

  /** The blocks of the given pages that no live snapshot sees are no longer in use. */
  ghost predicate Freed(tree: Tree, log: seq<Entry>, pages: set<nat>, epoch: nat, live: set<nat>, used': set<nat>) {
    forall p: nat :: p in pages && !Seen(tree, log, p, epoch, live) ==> Place(tree, log, p) !in used'
  }

  lemma {:induction false} RangeSize(low: nat, num: nat)
    ensures |Range(low, num)| == num
  {
    if num > 0 {
      RangeSize(low, num - 1);
    }
  }

  lemma NothingSettled(tree: Tree, log: seq<Entry>, parked: set<nat>, epoch: nat, live: set<nat>, log': seq<Entry>)
    requires Alike(log, log')
    ensures Settled(tree, log, parked, {}, epoch, live, log', parked)
  {
    forall j | 0 <= j < |log| ensures OfEntry(tree, {}, j) == {} { }
  }

  /** No page is behind lo. */
  lemma NothingCut(tree: Tree, log: seq<Entry>, parked: set<nat>, lo: nat, epoch: nat, live: set<nat>,
                   log': seq<Entry>, used': set<nat>)
    requires Cut(tree, tree, lo) && Alike(log, log')
    ensures Settled(tree, log, parked, Tail(tree, lo), epoch, live, log', parked)
    ensures Freed(tree, log, Tail(tree, lo), epoch, live, used')
  {
    forall p | p in tree ensures p < lo { assert Slot(tree, p) == if lo <= p then -1 else Slot(tree, p); }
    assert Tail(tree, lo) == {};
    NothingSettled(tree, log, parked, epoch, live, log');
  }

  /** One more run of dropped pages has been given back. */
  lemma RunSettled(tree: Tree, log: seq<Entry>, parked: set<nat>, pages: set<nat>, epoch: nat, live: set<nat>,
                   log1: seq<Entry>, parked1: set<nat>, r: Run, log2: seq<Entry>, parked2: set<nat>)
    requires Settled(tree, log, parked, pages, epoch, live, log1, parked1) && pages !! Range(r.start, r.num)
    requires r.entry < |log| && Covers(log[r.entry], r.start)
    requires forall p: nat :: r.start <= p < r.start + r.num ==> Slot(tree, p) == r.entry
    requires
      var seen := SeenBy(log[r.entry], epoch, live);
      && log2 == log1[r.entry := Invalidated(log1[r.entry], if seen then 0 else r.num)]
      && parked2 == if seen then parked1 + Range(BlockOf(log[r.entry], r.start), r.num) else parked1
    ensures Settled(tree, log, parked, pages + Range(r.start, r.num), epoch, live, log2, parked2)
  {
    var pages2, e := pages + Range(r.start, r.num), log[r.entry];
    forall x: nat
      ensures x in parked2 <==>
        x in parked || exists p :: p in pages2 && Seen(tree, log, p, epoch, live) && Place(tree, log, p) == x
    {
      if x in parked2 && x !in parked1 {
        var p: nat := r.start + (x - BlockOf(e, r.start));
        assert Slot(tree, p) == r.entry && p in pages2;
        assert Seen(tree, log, p, epoch, live) && Place(tree, log, p) == x;
      }
      forall p | p in pages2 && Seen(tree, log, p, epoch, live) && Place(tree, log, p) == x
        ensures x in parked2
      {
        if p !in pages {
          assert Slot(tree, p) == r.entry;
          assert SeenBy(e, epoch, live) && x in Range(BlockOf(e, r.start), r.num);
        } else {
          assert x in parked1;
        }
      }
    }
    forall j | 0 <= j < |log| && log[j].Write?
      ensures log2[j].Write? && log2[j].invalidPages
        == log[j].invalidPages + if SeenBy(log[j], epoch, live) then 0 else |OfEntry(tree, pages2, j)|
    {
      RunCounted(tree, pages, r, j);
    }
  }

  /** The pages of one entry among more pages. */
  lemma RunCounted(tree: Tree, pages: set<nat>, r: Run, j: nat)
    requires pages !! Range(r.start, r.num)
    requires forall p: nat :: r.start <= p < r.start + r.num ==> Slot(tree, p) == r.entry
    ensures |OfEntry(tree, pages + Range(r.start, r.num), j)|
            == |OfEntry(tree, pages, j)| + if j == r.entry then r.num else 0
  {
    var pages2 := pages + Range(r.start, r.num);
    if j == r.entry {
      forall p: nat | r.start <= p < r.start + r.num ensures p in OfEntry(tree, pages2, j) {
        assert Slot(tree, p) == r.entry;
      }
      assert OfEntry(tree, pages2, j) == OfEntry(tree, pages, j) + Range(r.start, r.num);
      RangeSize(r.start, r.num);
    } else {
      forall p: nat | r.start <= p < r.start + r.num ensures p !in OfEntry(tree, pages2, j) {
        assert Slot(tree, p) == r.entry;
      }
      assert OfEntry(tree, pages2, j) == OfEntry(tree, pages, j);
    }
  }

  /** What was settled for a log is settled for one that replay cannot tell from it. */
  lemma SettledBefore(tree: Tree, log0: seq<Entry>, log: seq<Entry>, parked: set<nat>, pages: set<nat>,
                      epoch: nat, live: set<nat>, log': seq<Entry>, parked': set<nat>)
    requires Alike(log0, log)
    requires forall p :: p in tree ==> tree[p] < |log0|
    requires Settled(tree, log, parked, pages, epoch, live, log', parked')
    ensures Settled(tree, log0, parked, pages, epoch, live, log', parked')
  {
    forall p: nat
      ensures Place(tree, log, p) == Place(tree, log0, p)
      ensures Seen(tree, log, p, epoch, live) == Seen(tree, log0, p, epoch, live)
    {
    }
  }

  /** Write entries differ at most in their reassigned flag. */
  ghost predicate Alike(log: seq<Entry>, log': seq<Entry>) {
    && |log| <= |log'|
    && (forall k :: 0 <= k < |log| && log'[k].Write? ==> log[k].Write?)
    && (forall k :: 0 <= k < |log| && log[k].Write? ==>
          log'[k].Write? && log'[k].(reassigned := true) == log[k].(reassigned := true))
  }

  lemma CutBefore(tree: Tree, log0: seq<Entry>, log: seq<Entry>, parked: set<nat>, lo: nat, epoch: nat, live: set<nat>,
                  log': seq<Entry>, parked': set<nat>, used': set<nat>)
    requires Alike(log0, log) && (forall p :: p in tree ==> tree[p] < |log0|)
    requires Settled(tree, log, parked, Tail(tree, lo), epoch, live, log', parked')
    requires Freed(tree, log, Tail(tree, lo), epoch, live, used')
    ensures Settled(tree, log0, parked, Tail(tree, lo), epoch, live, log', parked')
    ensures Freed(tree, log0, Tail(tree, lo), epoch, live, used')
  {
    SettledBefore(tree, log0, log, parked, Tail(tree, lo), epoch, live, log', parked');
  }

  /** What is still owned after a cut belongs to a page before it, or is not indexed yet. */
  lemma OwnedBefore(b: Books, lo: nat, z: Books, x: nat)
    requires BooksOk(b) && BooksOk(z) && z.n == b.n && z.pend == {}
    requires SameShapes(b.log, z.log) && Cut(b.tree, z.tree, lo)
    requires x in z.owner
    ensures x in b.owner && b.owner[x] == z.owner[x] && (z.owner[x].0 >= b.n || z.owner[x].1 < lo)
  {
    var (j, q) := z.owner[x];
    assert BlockOk(z, x) && SameShape(b.log[j], z.log[j]);
    if j >= b.n {
      assert AwaitOk(b, j);
      assert Owns(b, j, q);
    } else {
      assert Slot(z.tree, q) == if lo <= q then -1 else Slot(b.tree, q);
      assert SlotOk(b, q);
    }
  }

  /** A block of a dropped page that is not kept for snapshots is in use no more. */
  lemma DroppedIsFree(b: Books, lo: nat, z: Books, p: nat, epoch: nat, live: set<nat>)
    requires BooksOk(b) && BooksOk(z) && z.n == b.n && z.pend == {}
    requires SameShapes(b.log, z.log) && Cut(b.tree, z.tree, lo)
    requires Settled(b.tree, b.log, b.parked, Tail(b.tree, lo), epoch, live, z.log, z.parked)
    requires p in Tail(b.tree, lo) && b.tree[p] < b.n && !Seen(b.tree, b.log, p, epoch, live)
    ensures Place(b.tree, b.log, p) !in z.used
  {
    var x := Place(b.tree, b.log, p);
    assert SlotOk(b, p);
    forall q | q in Tail(b.tree, lo) && Seen(b.tree, b.log, q, epoch, live) ensures Place(b.tree, b.log, q) != x {
      SlotsHaveTheirOwnBlocks(b, p, q);
    }
    forall y | y in z.owner ensures y != x { OwnedBefore(b, lo, z, y); }
  }

  lemma DroppedAreFree(b: Books, lo: nat, z: Books, epoch: nat, live: set<nat>)
    requires BooksOk(b) && BooksOk(z) && z.n == b.n && z.pend == {}
    requires SameShapes(b.log, z.log) && Cut(b.tree, z.tree, lo)
    requires Settled(b.tree, b.log, b.parked, Tail(b.tree, lo), epoch, live, z.log, z.parked)
    requires forall p :: p in b.tree ==> b.tree[p] < b.n
    ensures Freed(b.tree, b.log, Tail(b.tree, lo), epoch, live, z.used)
  {
    hide BooksOk, Settled, Seen, Place;
    forall p: nat | p in Tail(b.tree, lo) && !Seen(b.tree, b.log, p, epoch, live)
      ensures Place(b.tree, b.log, p) !in z.used
    {
      DroppedIsFree(b, lo, z, p, epoch, live);
    }
  }

  /** The given pages have been dropped and settled, and those in hand have been dropped only. */
  ghost predicate Dropping(was: Was, pages: set<nat>, c: nat, hand: Hand, epoch: nat, live: set<nat>,
                           log: seq<Entry>, parked: set<nat>)
  {
    var held := if hand.cur >= 0 then Range(hand.start, hand.num) else {};
    && pages !! held && pages + held == Between(was.tree, was.lo, c)
    && (forall p :: p in held ==> Slot(was.tree, p) == hand.cur)
    && Settled(was.tree, was.log, was.parked, pages, epoch, live, log, parked)
  }

  /** The pages in hand have been settled too. */
  lemma HandSettled(was: Was, pages: set<nat>, c: nat, r: Run, epoch: nat, live: set<nat>,
                    log1: seq<Entry>, parked1: set<nat>, log2: seq<Entry>, parked2: set<nat>)
    requires Dropping(was, pages, c, Hand(r.entry, r.start, r.num), epoch, live, log1, parked1)
    requires SameShapes(was.log, log1) && r.entry < |log1| && Covers(log1[r.entry], r.start)
    requires
      var seen := SeenBy(log1[r.entry], epoch, live);
      && log2 == log1[r.entry := Invalidated(log1[r.entry], if seen then 0 else r.num)]
      && parked2 == parked1 + if seen then Range(BlockOf(log1[r.entry], r.start), r.num) else {}
    ensures Dropping(was, pages + Range(r.start, r.num), c, Hand(-1, 0, 0), epoch, live, log2, parked2)
  {
    hide Settled, SameShapes;
    assert SameShape(was.log[r.entry], log1[r.entry]) by { ShapeAt(was.log, log1, r.entry); }
    RunSettled(was.tree, was.log, was.parked, pages, epoch, live, log1, parked1, r, log2, parked2);
  }

  lemma ShapeAt(log: seq<Entry>, log': seq<Entry>, k: nat)
    requires SameShapes(log, log') && k < |log'|
    ensures k < |log| && SameShape(log[k], log'[k])
  {
  }

  /** nova_rebuild_file_inode_tree, first pass: the index is rebuilt from the log alone. */
  method Rebuild(log: seq<Entry>) returns (h: Header)
    ensures fresh(h)
    ensures forall p: nat :: Slot(h.tree, p) == LastReplayed(log, |log|, p)
  {
    h := new Header();
    h.log := log;
    var curr := 0;
    while curr < |log|
      invariant 0 <= curr <= |log| && h.log == log && h.runs == []
      invariant forall p: nat :: Slot(h.tree, p) == LastReplayed(log, curr, p)
    {
      ghost var tree0 := h.tree;
      match log[curr] {
        case SetAttr(size, _, _, _) =>
          forall p | p in h.tree ensures h.tree[p] < |log| && Covers(log[h.tree[p]], p) {
            assert Slot(h.tree, p) == LastReplayed(log, curr, p);
          }
          h.DeleteFileTree(FirstPage(size), false, false, 0, {});
        case Write(_, num, _, _, invalidPages, _) =>
          if num != invalidPages {
            h.AssignWriteEntry(curr, false, 0, {});
          }
        case Other(_) =>
      }
      forall p: nat ensures Slot(h.tree, p) == LastReplayed(log, curr + 1, p) {
        assert Slot(tree0, p) == LastReplayed(log, curr, p);
      }
      curr := curr + 1;
    }
  }

  /** Recovery is exact: for every file that any operations have produced, replaying its log
      gives its index. */
  method RebuildFindsIndex(h: Header) returns (r: Header)
    requires h.Valid()
    ensures fresh(r) && r.tree == h.tree
  {
    r := Rebuild(h.log);
    forall p: nat ensures Slot(r.tree, p) == Slot(h.tree, p) { ReplayFindsIndex(h.Accounts(), p); }
    SameSlots(r.tree, h.tree);
  }

  lemma SameSlots(tree: Tree, tree': Tree)
    requires forall p: nat :: Slot(tree, p) == Slot(tree', p)
    ensures tree == tree'
  {
    forall p ensures p in tree <==> p in tree' { assert Slot(tree, p) == Slot(tree', p); }
    forall p | p in tree ensures tree[p] == tree'[p] { assert Slot(tree, p) == Slot(tree', p); }
  }

  class Header {
    var log: seq<Entry>
    var tree: Tree
    var runs: seq<Run>        // old_entry_list, newest first
    var size: nat             // i_size
    var lastSetattr: int      // -1 if there is none
    var used: set<nat>        // blocks that the allocator has granted to the file
    var parked: set<nat>      // blocks that only snapshots still see
    var marks: seq<nat>       // for each entry, how often it was counted in its log page
    ghost var n: nat
    ghost var owner: map<nat, (nat, nat)>
    ghost var lost: seq<nat>

    ghost function Accounts(): Books
      reads this
    {
        Books(log, n, tree, (set r | r in runs), used, parked, marks, owner, lost)
    }

    /** The accounts with one more run, held by a loop. */
    ghost function Holding(r: Run): Books
      reads this
    {
      Accounts().(pend := Accounts().pend + {r})
    }

    ghost predicate Distinct()
      reads this
    {
      forall i, k :: 0 <= i < k < |runs| ==> runs[i] != runs[k]
    }

    /** Write entries may have been appended that the index has not seen yet. */
    ghost predicate Steady()
      reads this
    {
      && BooksOk(Accounts()) && Distinct() && NoGap(tree)
      && Agrees(tree, log, n) && AttrsOk(log) && LastAttrOk(log, lastSetattr, size)
      && (forall k :: n <= k < |log| ==> log[k].Write?)
    }

    ghost predicate Valid()
      reads this
    {
      Steady() && n == |log| && InFile(tree, size)
    }

    constructor ()
      ensures Valid() && log == [] && tree == map[] && runs == [] && used == {} && parked == {} && size == 0
    {
      log, tree, runs, size, lastSetattr, used, parked, marks := [], map[], [], 0, -1, {}, {}, [];
      n, owner, lost := 0, map[], [];
    }

    /** A header with the given accounts. */
    ghost constructor Of(b: Books, runs: seq<Run>, last: int, size: nat)
      requires b.pend == set r | r in runs
      ensures Accounts() == b && this.runs == runs && lastSetattr == last && this.size == size
    {
      log, tree, this.runs, this.size, lastSetattr := b.log, b.tree, runs, size, last;
      used, parked, marks, n, owner, lost := b.used, b.parked, b.marks, b.n, b.owner, b.lost;
    }

    lemma SlotsCovered()
      requires BooksOk(Accounts())
      ensures Covered(tree, log)
    {
      forall p | p in tree ensures tree[p] < |log| && Covers(log[tree[p]], p) {
        assert SlotOk(Accounts(), p);
      }
    }

    /** The blocks of a run go back to the allocator, or onto the list of a snapshot. */
    method FreeDataBlocks(r: Run, park: bool)
      requires r !in runs && BooksOk(Holding(r)) && RunOk(Holding(r), r)
      modifies `used, `parked, `owner
      ensures Accounts() == old(Discarded(Holding(r), r, park))
    {
      ghost var b := Holding(r);
      assert Owns(b, r.entry, r.start);
      assert b.pend - {r} == (set q | q in runs);
      var first := BlockOf(log[r.entry], r.start);
      if park {
        parked := parked + Range(first, r.num);
      } else {
        used := used - Range(first, r.num);
      }
      owner := owner - Blocks(b, r);
    }

    /** nova_free_old_entry.  A truncation (deleteDead is false) keeps the blocks that a
        snapshot still sees, and counts the other pages in invalid_pages. */
    method FreeOldEntry(r: Run, deleteDead: bool, epoch: nat, live: set<nat>)
      requires r !in runs && BooksOk(Holding(r)) && RunOk(Holding(r), r)
      requires !deleteDead ==> runs == []
      modifies `log, `marks, `used, `parked, `owner, `lost
      ensures Accounts() ==
        old(Given(Holding(r), r, deleteDead, !deleteDead && !Deleteable(live, log[r.entry].epoch, epoch)))
    {
      ghost var b := Holding(r);
      var park := !deleteDead && !Deleteable(live, log[r.entry].epoch, epoch);
      DiscardKeeps(b, r, park);
      FreeDataBlocks(r, park);
      if !deleteDead {
        Invalidate(r.entry, if park then 0 else r.num);
        lost := lost[r.entry := lost[r.entry] - if park then 0 else r.num];
      }
    }

    /** nova_invalidate_write_entry, with reassign set. */
    method Invalidate(j: nat, num: nat)
      requires j < |log| == |marks| && log[j].Write?
      modifies `log, `marks
      ensures log == old(log)[j := Invalidated(old(log)[j], num)]
      ensures marks ==
        if num == 0 && old(log)[j].reassigned then old(marks)
        else old(marks)[j := old(marks)[j] + if Dead(log[j]) then 1 else 0]
    {
      if num == 0 && log[j].reassigned {
        return;
      }
      log := log[j := log[j].(reassigned := true, invalidPages := log[j].invalidPages + num)];
      if log[j].invalidPages == log[j].num {
        marks := marks[j := marks[j] + 1];
      }
    }

    /** free_old_entry: the runs that the previous operation left behind are freed. */
    method FreeOldEntries(epoch: nat, live: set<nat>)
      requires runs == [] || (BooksOk(Accounts()) && Distinct())
      modifies `log, `marks, `used, `parked, `owner, `lost, `runs
      ensures runs == [] && SameShapes(old(log), log) && Alike(old(log), log)
      ensures parked == old(parked) && used == old(used - PendingBlocks(Accounts()))
      ensures old(runs) != [] ==> BooksOk(Accounts())
      ensures old(runs) == [] ==>
                log == old(log) && marks == old(marks) && used == old(used) && owner == old(owner)
                && lost == old(lost)
    {
      hide BooksOk, RunOk, SameShapes, PendingBlocks;
      ShapesReflexive(log);
      while runs != []
        invariant old(runs) != [] ==> BooksOk(Accounts())
        invariant Distinct() && SameShapes(old(log), log) && Alike(old(log), log)
        invariant parked == old(parked)
        invariant PendingBlocks(Accounts()) <= old(PendingBlocks(Accounts()))
        invariant used == old(used) - (old(PendingBlocks(Accounts())) - PendingBlocks(Accounts()))
        invariant old(runs) == [] ==>
                    log == old(log) && marks == old(marks) && used == old(used)
                    && owner == old(owner) && lost == old(lost)
        decreases |runs|
      {
        ghost var log1 := log;
        FreeFirst(epoch, live);
        ShapesCompose(old(log), log1, log);
      }
      assert Accounts().pend == {};
      NonePending(Accounts());
    }

    /** The newest run is freed. */
    method FreeFirst(epoch: nat, live: set<nat>)
      requires runs != [] && BooksOk(Accounts()) && Distinct()
      modifies `log, `marks, `used, `parked, `owner, `lost, `runs
      ensures runs == old(runs)[1..] && BooksOk(Accounts()) && Distinct()
      ensures SameShapes(old(log), log) && Alike(old(log), log) && parked == old(parked)
      ensures PendingBlocks(Accounts()) <= old(PendingBlocks(Accounts()))
      ensures used == old(used) - (old(PendingBlocks(Accounts())) - PendingBlocks(Accounts()))
    {
      hide BooksOk, RunOk, PendingBlocks;
      ghost var b := Accounts();
      var r := runs[0];
      PendingIsOk(b, r);
      runs := runs[1..];
      assert b.pend == Accounts().pend + {r};
      assert Holding(r) == b;
      GivenKeeps(b, r, true, false);
      DiscardPending(b, r, false);
      FreeOldEntry(r, true, epoch, live);
      ghost var g := Accounts();
      assert g == Discarded(b, r, false);
      CountKeeps(g, r.entry, 0);
      SamePending(g, r.entry);
      Invalidate(r.entry, 0);
      assert Accounts() == Counted(g, r.entry, 0);
    }

    /** The accounts with the run that a loop holds, if any. */
    ghost function Held(cur: int, start: nat, num: nat): Books
      reads this
    {
      if cur >= 0 then Holding(Run(cur, start, num)) else Accounts()
    }

    /** What the loops over the index rely on while they hold a run. */
    ghost predicate LoopOk(cur: int, start: nat, num: nat)
      reads this
    {
      BooksOk(Held(cur, start, num)) && Distinct() && (cur >= 0 ==> Run(cur, start, num) !in runs)
    }

    /** insert_old_entry. */
    method InsertOldEntry(r: Run)
      requires LoopOk(r.entry, r.start, r.num)
      modifies `runs
      ensures runs == [r] + old(runs) && Accounts() == old(Holding(r)) && Distinct()
    {
      runs := [r] + runs;
      assert (set q | q in runs) == old(Accounts().pend) + {r};
    }

    /** Page c is given to another entry, or leaves the index (to < 0).  It joins the run that
        the loop holds if that is one of the same entry, and starts a run otherwise. */
    method Supersede(c: nat, to: int, free: bool, ghost cur: int, ghost start: nat, ghost num: nat)
      requires c in tree && to < |log|
      requires free ==>
                 Sized(Accounts()) && tree[c] < n && to != tree[c]
                 && (to >= 0 ==> to >= n && Owns(Accounts(), to, c))
      requires free ==> if cur == tree[c] then LoopOk(cur, start, num) && start + num == c else LoopOk(-1, 0, 0)
      modifies `tree, `lost
      ensures tree == if to >= 0 then old(tree)[c := to] else old(tree) - {c}
      ensures free ==> if cur == old(tree[c]) then LoopOk(cur, start, num + 1) else LoopOk(old(tree[c]), c, 1)
      ensures !free ==> lost == old(lost)
    {
      hide BooksOk, Superseded;
      if free {
        ghost var grows := cur == tree[c];
        ghost var b := if grows then Held(cur, start, num) else Accounts();
        ghost var r := if grows then Run(cur, start, num) else Run(0, 0, 0);
        TakeKeeps(b, c, to, grows, r);
        TakenIsNew(b, c, grows, r);
        SupersededIs(c, to, grows, r);
        lost := lost[tree[c] := lost[tree[c]] + 1];
      }
      tree := if to >= 0 then tree[c := to] else tree - {c};
    }

    /** The accounts after the store, put together from the fields. */
    lemma SupersededIs(c: nat, to: int, grows: bool, r: Run)
      requires c in tree && to < |log| && Sized(Accounts()) && (grows ==> r !in runs && Sized(Holding(r)))
      ensures
        var tree' := if to >= 0 then tree[c := to] else tree - {c};
        var lost' := lost[tree[c] := lost[tree[c]] + 1];
        var grown := if grows then r.(num := r.num + 1) else Run(tree[c], c, 1);
        Accounts().(tree := tree', lost := lost', pend := Accounts().pend + {grown})
        == Superseded(if grows then Holding(r) else Accounts(), c, to, grows, r)
    {
    }

    /** Page c, a hole so far, is given to entry to. */
    method Fill(c: nat, to: nat, free: bool, ghost cur: int, ghost start: nat, ghost num: nat)
      requires c !in tree && to < |log|
      requires free ==> LoopOk(cur, start, num) && to >= n && Owns(Accounts(), to, c)
      modifies `tree
      ensures tree == old(tree)[c := to]
      ensures free ==> LoopOk(cur, start, num)
    {
      ghost var b := Held(cur, start, num);
      if free {
        FillKeeps(b, c, to);
      }
      tree := tree[c := to];
      if free {
        assert Held(cur, start, num) == Filled(b, c, to);
      }
    }

    /** One round of nova_assign_write_entry: page c is given to entry j. */
    method AssignPage(c: nat, j: nat, free: bool, cur: int, start: nat, num: nat, ghost tree0: Tree)
      returns (cur': int, start': nat, num': nat)
      requires j < |log| && Covers(log[j], c)
      requires Slot(tree, c) == Slot(tree0, c)
      requires free ==>
                 HandOk(tree0, cur, start, num, c) && LoopOk(cur, start, num) && n == j && NoGap(tree0)
                 && (c in tree ==> tree[c] < n)
      modifies `tree, `lost, `runs
      ensures tree == old(tree)[c := j]
      ensures if free then HandOk(tree0, cur', start', num', c + 1) && LoopOk(cur', start', num')
              else runs == old(runs) && lost == old(lost)
    {
      cur', start', num' := cur, start, num;
      if free {
        OwnsAwaited(c, j, cur, start, num);
      }
      if c in tree {
        if tree[c] != cur {
          if cur >= 0 && free {
            InsertOldEntry(Run(cur, start, num));
          }
          cur', start', num' := tree[c], c, 1;
          Supersede(c, j, free, -1, 0, 0);
        } else {
          if free {
            RunGoesOn(tree0, cur, start, num, c);
          }
          Supersede(c, j, free, cur, start, num);
          num' := num + 1;
        }
      } else {
        Fill(c, j, free, cur, start, num);
      }
    }

    lemma OwnsAwaited(c: nat, j: nat, cur: int, start: nat, num: nat)
      requires LoopOk(cur, start, num) && n <= j < |log| && Covers(log[j], c)
      ensures Sized(Accounts()) && Owns(Accounts(), j, c)
    {
      assert AwaitOk(Held(cur, start, num), j);
      assert Owns(Held(cur, start, num), j, c);
    }

    /** The loop of nova_assign_write_entry. */
    method AssignPages(j: nat, free: bool)
      requires j < |log| && log[j].Write?
      requires if free then LoopOk(-1, 0, 0) && n == j && NoGap(tree) && (forall p :: p in tree ==> tree[p] < n)
               else runs == []
      modifies `tree, `lost, `runs
      ensures Overlaid(old(tree), tree, log[j].pgoff, log[j].pgoff + log[j].num, j)
      ensures if free then LoopOk(-1, 0, 0) else runs == [] && lost == old(lost)
    {
      ghost var tree0 := tree;
      var lo, num := log[j].pgoff, log[j].num;
      var startOld: int, startPgoff: nat, numFree: nat := -1, 0, 0;
      var i: nat := 0;
      while i < num
        invariant 0 <= i <= num && Overlaid(tree0, tree, lo, lo + i, j)
        invariant if free then HandOk(tree0, startOld, startPgoff, numFree, lo + i)
                  && LoopOk(startOld, startPgoff, numFree) else runs == [] && lost == old(lost)
      {
        assert Slot(tree, lo + i) == Slot(tree0, lo + i);
        OverlayGrows(tree0, tree, lo, lo + i, j);
        startOld, startPgoff, numFree := AssignPage(lo + i, j, free, startOld, startPgoff, numFree, tree0);
        i := i + 1;
      }
      if free && startOld >= 0 {
        InsertOldEntry(Run(startOld, startPgoff, numFree));
      }
    }

    /** The next entry has been given to the index. */
    lemma Assigned(tree0: Tree, log0: seq<Entry>)
      requires LoopOk(-1, 0, 0) && n < |log| && log[n].Write? && SameShapes(log0, log)
      requires Overlaid(tree0, tree, log[n].pgoff, log[n].pgoff + log[n].num, n)
      requires Agrees(tree0, log0, n) && AttrsOk(log0) && NoGap(tree0)
      ensures BooksOk(Accounts().(n := n + 1)) && NoGap(tree) && Agrees(tree, log, n + 1) && AttrsOk(log)
    {
      forall p: nat | Covers(log[n], p) ensures Slot(tree, p) == n { }
      AssignedKeeps(Accounts());
      ShapesAgree(tree0, log0, log, n);
      ShapesAttrs(log0, log);
      NotYet(tree0, log0, n);
      OverlayKeepsNoGap(tree0, tree, log[n].pgoff, log[n].pgoff + log[n].num, n);
      OverlayAgrees(tree0, tree, log, n);
    }

    /** nova_assign_write_entry: entry j takes over its pages.  With free, the runs that it
        supersedes are queued, to be freed by the next operation. */
    method AssignWriteEntry(j: nat, free: bool, epoch: nat, live: set<nat>)
      requires j < |log| && log[j].Write?
      requires if free then Steady() && n == j else runs == []
      modifies this
      ensures SameShapes(old(log), log) && size == old(size) && lastSetattr == old(lastSetattr)
      ensures parked == old(parked) && used == old(used - PendingBlocks(Accounts())) && Alike(old(log), log)
      ensures Overlaid(old(tree), tree, old(log[j].pgoff), old(log[j].pgoff + log[j].num), j)
      ensures if free then Steady() && n == j + 1 else runs == [] && log == old(log)
      ensures free ==>
        PendingBlocks(Accounts()) == old(Places(tree, log, log[j].pgoff, log[j].pgoff + log[j].num))
    {
      hide BooksOk;
      ghost var tree0, log0 := tree, log;
      if free {
        NotYet(tree, log, n);
      }
      FreeOldEntries(epoch, live);
      assert SameShape(log0[j], log[j]);
      ghost var b := Accounts();
      AssignPages(j, free);
      if free {
        Assigned(tree0, log0);
        n := n + 1;
        SupersededWait(b, Accounts(), log[j].pgoff, log[j].pgoff + log[j].num);
        SamePlaces(tree0, log0, log, log[j].pgoff, log[j].pgoff + log[j].num);
      }
    }

    /** nova_find_next_entry: the first page from pgoff on that is in the index, or -1. */
    method NextSlot(pgoff: nat) returns (next: int)
      ensures next == -1 ==> forall p :: p in tree ==> p < pgoff
      ensures next != -1 ==>
                0 <= next && next in tree && pgoff <= next
                && forall p :: p in tree ==> p < pgoff || next <= p
    {
      next := -1;
      var keys := tree.Keys;
      while keys != {}
        invariant keys <= tree.Keys
        invariant next == -1 ==> forall p :: p in tree && p !in keys ==> p < pgoff
        invariant next != -1 ==>
                    0 <= next && next in tree && pgoff <= next
                    && forall p :: p in tree && p !in keys ==> p < pgoff || next <= p
        decreases keys
      {
        var p: nat :| p in keys;
        keys := keys - {p};
        if pgoff <= p && (next == -1 || p < next) {
          next := p;
        }
      }
    }

    /** A hole in nova_delete_file_tree: jump to the entry that follows, which may begin before
        the hole does.  No indexed page is jumped over. */
    method SkipHole(pgoff: nat) returns (pgoff': int)
      requires pgoff !in tree && Covered(tree, log)
      ensures pgoff' == -1 ==> forall p :: p in tree ==> p < pgoff
      ensures pgoff' != -1 ==> pgoff < pgoff' && (forall m: nat :: pgoff <= m < pgoff' ==> m !in tree)
      ensures pgoff' != -1 ==> exists p :: p in tree && pgoff' <= p
    {
      var next := NextSlot(pgoff);
      if next == -1 {
        return -1;
      }
      var e := log[tree[next]];
      pgoff' := if pgoff + 1 > e.pgoff then pgoff + 1 else e.pgoff;
      assert next in tree && pgoff' <= next;
    }

    ghost predicate Deleting(tree0: Tree, log0: seq<Entry>, pgoff: nat, deleteNvmm: bool, hand: Hand)
      reads this
    {
      match hand
      case Hand(cur, first, num) =>
        && runs == [] && SameShapes(log0, log) && (!deleteNvmm ==> log == log0)
        && (deleteNvmm ==> HandOk(tree0, cur, first, num, pgoff) && LoopOk(cur, first, num))
    }

    lemma HeldSized(cur: int, start: nat, num: nat)
      requires LoopOk(cur, start, num)
      ensures Sized(Accounts())
    {
    }

    lemma StartDropping(epoch: nat, live: set<nat>, lo: nat)
      ensures Dropping(Was(tree, log, parked, lo), {}, lo, Hand(-1, 0, 0), epoch, live, log, parked)
    {
      NothingSettled(tree, log, parked, epoch, live, log);
    }

    lemma SkipDropping(was: Was, pages: set<nat>, c: nat, c': nat, hand: Hand, epoch: nat, live: set<nat>)
      requires Dropping(was, pages, c, hand, epoch, live, log, parked) && c <= c' && forall m: nat :: c <= m < c' ==> m !in was.tree
      ensures Dropping(was, pages, c', hand, epoch, live, log, parked)
    {
      hide Settled;
      assert Between(was.tree, was.lo, c') == Between(was.tree, was.lo, c);
    }

    lemma EndDropping(was: Was, pages: set<nat>, c: nat, hand: Hand, epoch: nat, live: set<nat>, tree': Tree)
      requires hand.cur < 0 && Dropping(was, pages, c, hand, epoch, live, log, parked)
      requires was.lo <= c && Overlaid(was.tree, tree', was.lo, c, -1) && forall p :: p in tree' ==> p < c
      ensures Settled(was.tree, was.log, was.parked, Tail(was.tree, was.lo), epoch, live, log, parked)
    {
      hide Settled;
      AllBetween(was.tree, tree', was.lo, c);
      assert pages + {} == pages;
    }

    /** The run in hand is freed: its pages are settled. */
    method FreeRun(r: Run, deleteDead: bool, epoch: nat, live: set<nat>, ghost was: Was, ghost pages: set<nat>,
                   ghost c: nat)
      returns (ghost pages': set<nat>)
      requires LoopOk(r.entry, r.start, r.num) && runs == [] && SameShapes(was.log, log)
      requires !deleteDead ==> Dropping(was, pages, c, Hand(r.entry, r.start, r.num), epoch, live, log, parked)
      modifies `log, `marks, `used, `parked, `owner, `lost
      ensures LoopOk(-1, 0, 0) && SameShapes(was.log, log)
      ensures deleteDead ==> parked == old(parked) && log == old(log)
      ensures !deleteDead ==> Dropping(was, pages', c, Hand(-1, 0, 0), epoch, live, log, parked)
    {
      hide BooksOk, Dropping, SameShapes;
      pages' := pages + Range(r.start, r.num);
      ghost var log1, parked1 := log, parked;
      FreeHeld(r, deleteDead, epoch, live);
      ShapesJoin(was.log, log1, log);
      if !deleteDead {
        HandSettled(was, pages, c, r, epoch, live, log1, parked1, log, parked);
      }
    }

    /** One round of nova_delete_file_tree: page c leaves the index. */
    method DeletePage(c: nat, deleteNvmm: bool, deleteDead: bool, epoch: nat, live: set<nat>,
                      cur: int, start: nat, num: nat, ghost was: Was, ghost pages: set<nat>)
      returns (cur': int, start': nat, num': nat, ghost pages': set<nat>)
      requires c in tree && Slot(tree, c) == Slot(was.tree, c) && was.lo <= c
      requires Deleting(was.tree, was.log, c, deleteNvmm, Hand(cur, start, num))
      requires deleteNvmm ==> NoGap(was.tree) && tree[c] < n
      requires deleteNvmm && !deleteDead ==> Dropping(was, pages, c, Hand(cur, start, num), epoch, live, log, parked)
      modifies `tree, `lost, `log, `marks, `used, `parked, `owner
      ensures tree == old(tree) - {c}
      ensures Deleting(was.tree, was.log, c + 1, deleteNvmm, Hand(cur', start', num'))
      ensures deleteDead ==> parked == old(parked) && log == old(log)
      ensures deleteNvmm && !deleteDead ==> Dropping(was, pages', c + 1, Hand(cur', start', num'), epoch, live, log, parked)
    {
      hide BooksOk, Settled;
      pages' := pages;
      if tree[c] != cur {
        if cur >= 0 && deleteNvmm {
          pages' := FreeRun(Run(cur, start, num), deleteDead, epoch, live, was, pages, c);
        }
        if deleteNvmm {
          HeldSized(-1, 0, 0);
        }
        cur', start', num' := tree[c], c, 1;
        Supersede(c, -1, deleteNvmm, -1, 0, 0);
      } else {
        if deleteNvmm {
          RunGoesOn(was.tree, cur, start, num, c);
          HeldSized(cur, start, num);
        }
        cur', start', num' := cur, start, num + 1;
        Supersede(c, -1, deleteNvmm, cur, start, num);
      }
    }

    /** The run that the deletion holds is freed. */
    method FreeHeld(r: Run, deleteDead: bool, epoch: nat, live: set<nat>)
      requires LoopOk(r.entry, r.start, r.num) && runs == []
      modifies `log, `marks, `used, `parked, `owner, `lost
      ensures LoopOk(-1, 0, 0) && SameShapes(old(log), log)
      ensures deleteDead ==> parked == old(parked) && log == old(log)
      ensures r.entry < |old(log)| && Covers(old(log)[r.entry], r.start)
      ensures !deleteDead ==>
        var seen := SeenBy(old(log)[r.entry], epoch, live);
        && log == old(log)[r.entry := Invalidated(old(log)[r.entry], if seen then 0 else r.num)]
        && parked == old(parked) + if seen then Range(BlockOf(old(log)[r.entry], r.start), r.num) else {}
    {
      ghost var b := Holding(r);
      assert RunOk(b, r) && Owns(b, r.entry, r.start);
      GivenKeeps(b, r, deleteDead, !deleteDead && !Deleteable(live, log[r.entry].epoch, epoch));
      assert b.pend == {r};
      FreeOldEntry(r, deleteDead, epoch, live);
      OnlyWritesChange(b, r, deleteDead, !deleteDead && !Deleteable(live, b.log[r.entry].epoch, epoch));
    }

    /** The loop of nova_delete_file_tree. */
    method DeletePages(start: nat, deleteNvmm: bool, deleteDead: bool, epoch: nat, live: set<nat>)
      requires Covered(tree, log) && runs == []
      requires deleteNvmm ==> LoopOk(-1, 0, 0) && NoGap(tree) && (forall p :: p in tree ==> tree[p] < n)
      modifies `tree, `lost, `log, `marks, `used, `parked, `owner
      ensures Cut(old(tree), tree, start) && SameShapes(old(log), log)
      ensures if deleteNvmm then LoopOk(-1, 0, 0) else log == old(log)
      ensures deleteDead ==> parked == old(parked) && log == old(log)
      ensures deleteNvmm && !deleteDead ==>
        Settled(old(tree), old(log), old(parked), Tail(old(tree), start), epoch, live, log, parked)
    {
      hide BooksOk, Settled, Dropping;
      ghost var tree0, log0, was := tree, log, Was(tree, log, parked, start);
      ghost var hi := Bounded(tree.Keys);
      ghost var pages: set<nat> := {};
      StartDropping(epoch, live, start);
      var pgoff := start;
      var cur: int, first: nat, num: nat := -1, 0, 0;
      while true
        invariant start <= pgoff && Overlaid(tree0, tree, start, pgoff, -1)
        invariant Deleting(tree0, log0, pgoff, deleteNvmm, Hand(cur, first, num))
        invariant deleteDead ==> parked == old(parked) && log == old(log)
        invariant deleteNvmm && !deleteDead ==> Dropping(was, pages, pgoff, Hand(cur, first, num), epoch, live, log, parked)
        decreases hi - pgoff
      {
        if pgoff in tree {
          assert Slot(tree, pgoff) == Slot(tree0, pgoff);
          OverlayDrops(tree0, tree, start, pgoff);
          cur, first, num, pages :=
            DeletePage(pgoff, deleteNvmm, deleteDead, epoch, live, cur, first, num, was, pages);
          pgoff := pgoff + 1;
        } else {
          StillCovered(tree0, tree, start, pgoff, log0, log);
          var pgoff' := SkipHole(pgoff);
          if pgoff' == -1 { break; }
          OverlaySkips(tree0, tree, start, pgoff, pgoff');
          if deleteNvmm && !deleteDead {
            SkipDropping(was, pages, pgoff, pgoff', Hand(cur, first, num), epoch, live);
          }
          pgoff := pgoff';
        }
      }
      OverlayCuts(tree0, tree, start, pgoff);
      if cur >= 0 && deleteNvmm {
        pages := FreeRun(Run(cur, first, num), deleteDead, epoch, live, was, pages, pgoff);
        cur, first, num := -1, 0, 0;
      }
      if deleteNvmm && !deleteDead {
        EndDropping(was, pages, pgoff, Hand(cur, first, num), epoch, live, tree);
      }
    }

    /** nova_delete_file_tree: all pages from start on leave the index.  Their blocks are freed
        run by run, or stay allocated when replay calls it (deleteNvmm is false). */
    method DeleteFileTree(start: nat, deleteNvmm: bool, deleteDead: bool, epoch: nat, live: set<nat>)
      requires Covered(tree, log)
      requires if deleteNvmm then LoopOk(-1, 0, 0) && NoGap(tree) && (forall p :: p in tree ==> tree[p] < n)
               else runs == []
      modifies `tree, `lost, `runs, `log, `marks, `used, `parked, `owner
      ensures Cut(old(tree), tree, start) && SameShapes(old(log), log) && runs == []
      ensures if deleteNvmm then BooksOk(Accounts()) else log == old(log)
      ensures deleteDead ==> parked == old(parked) && Alike(old(log), log)
      ensures deleteNvmm && !deleteDead ==>
        && Settled(old(tree), old(log), old(parked), Tail(old(tree), start), epoch, live, log, parked)
        && Freed(old(tree), old(log), Tail(old(tree), start), epoch, live, used)
    {
      hide BooksOk, Settled;
      ghost var b := Accounts();
      FreeOldEntries(epoch, live);
      ghost var log1 := log;
      assert Overlaid(b.tree, tree, 0, 0, -1);
      StillCovered(b.tree, tree, 0, 0, b.log, log);
      DeletePages(start, deleteNvmm, deleteDead, epoch, live);
      if deleteNvmm && !deleteDead {
        SettledBefore(b.tree, b.log, log1, b.parked, Tail(b.tree, start), epoch, live, log, parked);
        ShapesJoin(b.log, log1, log);
        DroppedAreFree(b, start, Accounts(), epoch, live);
      }
    }

    // -------------------------------------------------------------- operations

    /** nova_truncate_file_blocks, for a file that ended at end.  It returns early when the cut
        lies behind the last block, where no page can be indexed. */
    method TruncateFileBlocks(start: nat, end: nat, epoch: nat, live: set<nat>)
      requires Covered(tree, log) && InFile(tree, end)
      requires LoopOk(-1, 0, 0) && NoGap(tree) && (forall p :: p in tree ==> tree[p] < n)
      modifies `tree, `lost, `runs, `log, `marks, `used, `parked, `owner
      ensures Cut(old(tree), tree, FirstPage(start)) && SameShapes(old(log), log)
      ensures LoopOk(-1, 0, 0)
      ensures Settled(old(tree), old(log), old(parked), Tail(old(tree), FirstPage(start)), epoch, live, log, parked)
      ensures Freed(old(tree), old(log), Tail(old(tree), FirstPage(start)), epoch, live, used)
    {
      hide BooksOk, Settled;
      var first := FirstPage(start);
      var last := if end == 0 then 0 else (end - 1) / PAGE;
      if first > last {
        NothingBehind(tree, end, first);
        NothingCut(tree, log, parked, first, epoch, live, log, used);
        ShapesReflexive(log);
        return;
      }
      DeleteFileTree(first, true, false, epoch, live);
    }

    /** An attribute entry is appended to the log. */
    method AppendSetattr(e: Entry)
      requires Steady() && n == |log| && e.SetAttr? && !e.invalid
      modifies `log, `marks, `n, `lost, `lastSetattr
      ensures BooksOk(Accounts()) && log == old(log) + [e] && n == |log| && lastSetattr == |old(log)|
    {
      hide BooksOk;
      AppendKeeps(Accounts(), e);
      AppendPlain(Accounts(), e);
      log := log + [e];
      marks := marks + [0];
      lost := lost + [0];
      n := |log|;
      lastSetattr := |log| - 1;
    }

    /** Entry k, an attribute entry, is overwritten. */
    method StoreSetattr(k: nat, e: Entry)
      requires BooksOk(Accounts()) && k < |log| && log[k].SetAttr? && !log[k].invalid && e.SetAttr?
      modifies `log, `marks
      ensures BooksOk(Accounts()) && log == old(log)[k := e]
    {
      ghost var b := Accounts();
      assert EntryOk(b, k);
      RewriteKeeps(b, k, e);
      log := log[k := e];
      if e.invalid {
        marks := marks[k := marks[k] + 1];
      }
      assert Accounts() == Rewritten(b, k, e);
    }

    /** nova_handle_setattr_operation: overwrite the last attribute entry, if it belongs to this
        epoch and neither one resizes the file, or else append an entry and invalidate the last. */
    method HandleSetattr(newSize: Option<nat>, epoch: nat)
      requires Valid()
      modifies `log, `marks, `n, `lost, `lastSetattr
      ensures BooksOk(Accounts()) && Distinct() && n == |log| && AttrsOk(log) && NoGap(tree) && Covered(tree, log)
      ensures LastAttrOk(log, lastSetattr, if newSize.Some? then newSize.value else size)
      ensures CutsFrom(tree, log, if newSize.Some? then newSize.value else size)
      ensures Evolves(old(log), log) && Alike(old(log), log)
      ensures
        var to := if newSize.Some? then newSize.value else size;
        AttrLogged(old(log), old(lastSetattr), SetAttr(to, newSize.Some?, epoch, false), log, lastSetattr)
    {
      var last := lastSetattr;
      var to := if newSize.Some? then newSize.value else size;
      var e := SetAttr(to, newSize.Some?, epoch, false);
      SlotsCovered();
      if newSize.None? && last >= 0 && !log[last].setsize && log[last].epoch == epoch {
        OverwriteIsHarmless(tree, log, last, e, size);
        StoreSetattr(last, e);
      } else {
        AppendAttrs(tree, log, e, size);
        AppendSetattr(e);
        if last >= 0 && log[last].epoch == epoch && !log[last].setsize {
          InvalidIsHarmless(tree, log, last, to);
          StoreSetattr(last, log[last].(invalid := true));
        }
      }
    }

    /** nova_notify_change: log the attributes first, and only then cut the index.  Afterwards
        the index is what the log says again. */
    method NotifyChange(newSize: Option<nat>, epoch: nat, live: set<nat>)
      requires Valid()
      modifies this
      ensures Valid()
      ensures size == if newSize.Some? then newSize.value else old(size)
      ensures Cut(old(tree), tree, FirstPage(size)) && Evolves(old(log), log)
      ensures 0 <= lastSetattr && log[lastSetattr] == SetAttr(size, newSize.Some?, epoch, false)
      ensures Settled(old(tree), old(log), old(parked), Tail(old(tree), FirstPage(size)), epoch, live, log, parked)
      ensures Freed(old(tree), old(log), Tail(old(tree), FirstPage(size)), epoch, live, used)
    {
      hide BooksOk, Settled, Freed;
      var oldSize := size;
      NotYet(tree, log, n);
      HandleSetattr(newSize, epoch);
      ghost var tree0, log0 := tree, log;
      if newSize.Some? && newSize.value != oldSize {
        size := newSize.value;
        TruncateFileBlocks(size, oldSize, epoch, live);
        SizesKept(log0, log, lastSetattr, size);
        CutBefore(tree0, old(log), log0, old(parked), FirstPage(size), epoch, live, log, parked, used);
      } else {
        NothingBehindSize(tree, size);
        NothingCut(tree, old(log), parked, FirstPage(size), epoch, live, log, used);
        assert SameShapes(log0, log) by { ShapesReflexive(log); }
      }
      CutAgrees(tree0, tree, log0, log, size);
      EvolvesOn(old(log), log0, log);
    }

    /** nova_append_link_change_entry with nova_invalidate_link_change_entry: the last entry of its
        kind is overwritten if it belongs to this epoch; or else a new entry is appended, and the last
        one is invalidated if no snapshot needs it. */
    method ChangeLinks(last: int, sameEpoch: bool, freeable: bool)
      requires Valid() && -1 <= last < |log| && (last >= 0 ==> log[last] == Other(false))
      modifies `log, `marks, `n, `lost
      ensures Valid() && Evolves(old(log), log)
      ensures log == if last >= 0 && sameEpoch then old(log)
                     else (if last >= 0 && freeable then old(log)[last := Other(true)] else old(log)) + [Other(false)]
    {
      hide BooksOk;
      if last >= 0 && sameEpoch {
        assert log[last := Other(false)] == log;
        log := log[last := Other(false)];
        return;
      }
      AppendOther(tree, log, lastSetattr, size);
      AppendKeeps(Accounts(), Other(false));
      AppendPlain(Accounts(), Other(false));
      log := log + [Other(false)];
      marks := marks + [0];
      lost := lost + [0];
      n := |log|;
      if last >= 0 && freeable {
        InvalidateOther(last);
      }
    }

    method InvalidateOther(k: nat)
      requires Valid() && k < |log| && log[k] == Other(false)
      modifies `log, `marks
      ensures Valid() && log == old(log)[k := Other(true)]
    {
      ghost var b := Accounts();
      assert EntryOk(b, k);
      RewriteKeeps(b, k, Other(true));
      OtherIsHarmless(tree, log, k, lastSetattr, size);
      log := log[k := Other(true)];
      marks := marks[k := marks[k] + 1];
      assert Accounts() == Rewritten(b, k, Other(true));
    }

    /** A write entry is appended to the log; its blocks come from the allocator. */
    method AppendWrite(e: Entry)
      requires Steady() && e.Write? && Fresh(Accounts(), e)
      modifies `log, `marks, `lost, `used, `owner
      ensures Steady() && log == old(log) + [e] && used == old(used) + Range(e.blocknr, e.num)
      ensures PendingBlocks(Accounts()) == old(PendingBlocks(Accounts()))
    {
      assert n <= |log|;
      AppendPending(Accounts(), e);
      hide BooksOk, Agrees, AttrsOk, LastAttrOk, NoGap, PendingBlocks;
      AppendKeeps(Accounts(), e);
      AppendShapes(tree, log, e, n, lastSetattr, size);
      ghost var b := Appended(Accounts(), e);
      log := log + [e];
      marks := marks + [0];
      lost := lost + [0];
      used := used + Range(e.blocknr, e.num);
      owner := b.owner;
    }

    /** nova_append_file_write_entry: the entry goes to the log and at once into the index. */
    method AppendFileWriteEntry(e: Entry, live: set<nat>)
      requires Steady() && n == |log| && e.Write? && Fresh(Accounts(), e)
      modifies this
      ensures Steady() && n == |log| && SameShapes(old(log) + [e], log)
      ensures size == old(size) && parked == old(parked) && Alike(old(log) + [e], log)
      ensures used == old(used) + Range(e.blocknr, e.num) - old(PendingBlocks(Accounts()))
      ensures PendingBlocks(Accounts()) == old(Places(tree, log, e.pgoff, e.pgoff + e.num))
      ensures Overlaid(old(tree), tree, e.pgoff, e.pgoff + e.num, |old(log)|)
    {
      hide BooksOk;
      AppendWrite(e);
      NotYet(tree, old(log), n);
      SamePlaces(tree, old(log), log, e.pgoff, e.pgoff + e.num);
      AssignWriteEntry(|log| - 1, true, e.epoch, live);
    }

    /** At the end of a write that reached byte end the file has at least that size. */
    method ExtendSize(end: nat)
      requires Steady() && n == |log| && InFile(tree, if end > size then end else size)
      modifies `size
      ensures Valid() && size == if end > old(size) then end else old(size)
    {
      if end > size {
        size := end;
      }
    }

    /** The inode is evicted: every block goes back, except those kept for snapshots. */
    method Evict(epoch: nat, live: set<nat>)
      requires Valid()
      modifies this
      ensures tree == map[] && runs == [] && used == old(parked) == parked
    {
      NotYet(tree, log, n);
      SlotsCovered();
      DeleteFileTree(0, true, true, epoch, live);
      forall p ensures p !in tree { assert p >= 0 ==> Slot(tree, p) == -1; }
      forall x ensures x in used <==> x in parked { UsedMeansIndexed(Accounts(), x); }
    }
  }
}
