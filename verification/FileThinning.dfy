/** The accounts of a file after dead entries have been dropped from its log: every later entry is
    found at an earlier place, and nothing else changes. */
module FileThinning {
  import opened FileBooks
  import opened FileIndex
  import opened FileLog
  import LogGC

  // ---------------------------------------------------------------- dead entries own nothing

  /** No slot, run or block refers to a dead entry, and none of its pages is lost. */
  lemma DeadOwnsNothing(b: Books, j: nat)
    requires BooksOk(b) && b.n == |b.log| && j < |b.log| && Dead(b.log[j])
    ensures forall p :: p in b.tree ==> b.tree[p] != j
    ensures forall r :: r in b.pend ==> r.entry != j
    ensures forall x :: x in b.owner ==> b.owner[x].0 != j
  {
    forall p | p in b.tree
      ensures b.tree[p] != j
    {
      DeadHasNoSlot(b, p);
    }
    assert EntryOk(b, j);
    forall r | r in b.pend
      ensures r.entry != j
    {
      assert RunOk(b, r);
    }
    forall x | x in b.owner
      ensures b.owner[x].0 != j
    {
      assert BlockOk(b, x);
      OwnerHasSlotOrRun(b, x);
    }
  }

  lemma OwnerHasSlotOrRun(b: Books, x: nat)
    requires BooksOk(b) && b.n == |b.log| && x in b.owner
    ensures var (j, p) := b.owner[x];
            Slot(b.tree, p) == j || exists r :: r in b.pend && r.entry == j
  {
    assert BlockOk(b, x);
  }

  // ---------------------------------------------------------------- the accounts without them

  /** The entries [a, b) may be dropped from the accounts. */
  ghost predicate Droppable(x: Books, a: nat, b: nat) {
    BooksOk(x) && x.n == |x.log| && a <= b <= |x.log| && forall i :: a <= i < b ==> Dead(x.log[i])
  }

  function DroppedRun(r: Run, a: nat, b: nat): Run
    requires a <= b
  {
    r.(entry := LogGC.DroppedAt(r.entry, a, b))
  }

  function DroppedBooks(x: Books, a: nat, b: nat): Books
    requires Sized(x) && x.n == |x.log| && a <= b <= |x.log|
  {
    Books(LogGC.Dropped(x.log, a, b), x.n - (b - a), LogGC.DroppedRef(x.tree, a, b),
          set r | r in x.pend :: DroppedRun(r, a, b), x.used, x.parked, LogGC.Dropped(x.marks, a, b),
          map o | o in x.owner :: (LogGC.DroppedAt(x.owner[o].0, a, b), x.owner[o].1), LogGC.Dropped(x.lost, a, b))
  }

  /** Where the entry at place i was before. */
  function Origin(i: nat, a: nat, b: nat): nat
    requires a <= b
  {
    if i < a then i else i + (b - a)
  }

  lemma NothingDropped(x: Books, a: nat, b: nat)
    requires Droppable(x, a, b)
    ensures forall p :: p in x.tree ==> !(a <= x.tree[p] < b)
    ensures forall r :: r in x.pend ==> !(a <= r.entry < b)
    ensures forall o :: o in x.owner ==> !(a <= x.owner[o].0 < b)
  {
    hide BooksOk, Dead;
    forall p | p in x.tree && a <= x.tree[p] < b
      ensures false
    {
      DeadOwnsNothing(x, x.tree[p]);
    }
    forall r | r in x.pend && a <= r.entry < b
      ensures false
    {
      DeadOwnsNothing(x, r.entry);
    }
    forall o | o in x.owner && a <= x.owner[o].0 < b
      ensures false
    {
      DeadOwnsNothing(x, x.owner[o].0);
    }
  }

  lemma DroppedSized(x: Books, a: nat, b: nat)
    requires Droppable(x, a, b)
    ensures Sized(x) && Sized(DroppedBooks(x, a, b))
  {
    hide Dead;
    NothingDropped(x, a, b);
  }

  /** A kept entry and its new place. */
  lemma PlaceOfKept(k: nat, a: nat, b: nat)
    requires a <= b && !(a <= k < b)
    ensures Origin(LogGC.DroppedAt(k, a, b), a, b) == k
    ensures forall j: nat :: !(a <= j < b) && LogGC.DroppedAt(j, a, b) == LogGC.DroppedAt(k, a, b) ==> j == k
  {
  }

  lemma {:induction false} SlotsDropped(tree: Tree, k: nat, a: nat, b: nat, lo: nat, hi: nat)
    requires a <= b && lo <= hi && !(a <= k < b) && forall p :: p in tree ==> !(a <= tree[p] < b)
    ensures Slots(LogGC.DroppedRef(tree, a, b), LogGC.DroppedAt(k, a, b), lo, hi) == Slots(tree, k, lo, hi)
  {
    if lo < hi {
      SlotsDropped(tree, k, a, b, lo, hi - 1);
      PlaceOfKept(k, a, b);
    }
  }

  lemma DroppedEntry(x: Books, a: nat, b: nat, i: nat)
    requires Droppable(x, a, b) && i < |x.log| - (b - a)
    ensures Sized(DroppedBooks(x, a, b)) && EntryOk(DroppedBooks(x, a, b), i)
  {
    DroppedSized(x, a, b);
    NothingDropped(x, a, b);
    var k := Origin(i, a, b);
    assert EntryOk(x, k) && DroppedBooks(x, a, b).log[i] == x.log[k];
    hide BooksOk, Dead;
    if x.log[k].Write? {
      SlotsDropped(x.tree, k, a, b, x.log[k].pgoff, x.log[k].pgoff + x.log[k].num);
    }
  }

  lemma DroppedOwns(x: Books, a: nat, b: nat, k: nat, p: nat)
    requires Droppable(x, a, b) && Sized(x) && k < |x.log| && !(a <= k < b) && Owns(x, k, p)
    ensures Sized(DroppedBooks(x, a, b)) && LogGC.DroppedAt(k, a, b) < |x.log| - (b - a)
    ensures Owns(DroppedBooks(x, a, b), LogGC.DroppedAt(k, a, b), p)
  {
    DroppedSized(x, a, b);
    hide BooksOk, Dead;
    assert DroppedBooks(x, a, b).log[LogGC.DroppedAt(k, a, b)] == x.log[k];
  }

  lemma DroppedSlot(x: Books, a: nat, b: nat, p: nat)
    requires Droppable(x, a, b) && p in x.tree
    ensures Sized(DroppedBooks(x, a, b)) && SlotOk(DroppedBooks(x, a, b), p)
  {
    NothingDropped(x, a, b);
    assert SlotOk(x, p);
    hide BooksOk, Dead;
    DroppedOwns(x, a, b, x.tree[p], p);
  }

  lemma DroppedRunOk(x: Books, a: nat, b: nat, r: Run)
    requires Droppable(x, a, b) && r in x.pend
    ensures Sized(DroppedBooks(x, a, b)) && DroppedRun(r, a, b) in DroppedBooks(x, a, b).pend
    ensures RunOk(DroppedBooks(x, a, b), DroppedRun(r, a, b))
  {
    DroppedSized(x, a, b);
    NothingDropped(x, a, b);
    assert RunOk(x, r);
    hide BooksOk, Dead;
    var z := DroppedBooks(x, a, b);
    var j := LogGC.DroppedAt(r.entry, a, b);
    assert z.log[j] == x.log[r.entry] && z.lost[j] == x.lost[r.entry];
    forall p: nat | r.start <= p < r.start + r.num
      ensures Owns(z, LogGC.DroppedAt(r.entry, a, b), p) && Slot(z.tree, p) != LogGC.DroppedAt(r.entry, a, b)
    {
      DroppedOwns(x, a, b, r.entry, p);
      PlaceOfKept(r.entry, a, b);
    }
  }

  lemma DroppedBlock(x: Books, a: nat, b: nat, o: nat)
    requires Droppable(x, a, b) && o in x.owner
    ensures Sized(DroppedBooks(x, a, b)) && o in DroppedBooks(x, a, b).owner && BlockOk(DroppedBooks(x, a, b), o)
  {
    DroppedSized(x, a, b);
    NothingDropped(x, a, b);
    assert BlockOk(x, o);
    hide BooksOk, Dead;
    var z := DroppedBooks(x, a, b);
    var (j, p) := x.owner[o];
    assert z.log[LogGC.DroppedAt(j, a, b)] == x.log[j];
    if Slot(x.tree, p) != j {
      var r :| r in x.pend && r.Has(j, p);
      assert DroppedRun(r, a, b) in z.pend && DroppedRun(r, a, b).Has(LogGC.DroppedAt(j, a, b), p);
    }
  }

  lemma DroppedApart(x: Books, a: nat, b: nat, r: Run, q: Run)
    requires Droppable(x, a, b) && r in x.pend && q in x.pend && DroppedRun(r, a, b) != DroppedRun(q, a, b)
    ensures Apart(DroppedRun(r, a, b), DroppedRun(q, a, b))
  {
    NothingDropped(x, a, b);
    assert Apart(r, q);
    hide BooksOk, Dead;
    PlaceOfKept(r.entry, a, b);
  }

  /** The accounts stay right when dead entries are dropped. */
  lemma DropKeepsBooks(x: Books, a: nat, b: nat)
    requires Droppable(x, a, b)
    ensures Sized(x) && BooksOk(DroppedBooks(x, a, b))
  {
    DroppedSized(x, a, b);
    var z := DroppedBooks(x, a, b);
    hide EntryOk, AwaitOk, SlotOk, RunOk, BlockOk, Apart, Dead;
    forall i | 0 <= i < |z.log| ensures EntryOk(z, i) { DroppedEntry(x, a, b, i); }
    forall i | 0 <= i < |z.log| ensures AwaitOk(z, i) { NothingAwaits(z, i); }
    forall p | p in z.tree ensures SlotOk(z, p) { DroppedSlot(x, a, b, p); }
    forall r' | r' in z.pend
      ensures RunOk(z, r')
    {
      var r :| r in x.pend && r' == DroppedRun(r, a, b);
      DroppedRunOk(x, a, b, r);
    }
    forall r', q' | r' in z.pend && q' in z.pend && r' != q'
      ensures Apart(r', q')
    {
      var r :| r in x.pend && r' == DroppedRun(r, a, b);
      var q :| q in x.pend && q' == DroppedRun(q, a, b);
      DroppedApart(x, a, b, r, q);
    }
    forall o | o in z.owner ensures BlockOk(z, o) { DroppedBlock(x, a, b, o); }
    assert z.owner.Keys == x.owner.Keys;
  }

  lemma NothingAwaits(z: Books, i: nat)
    requires Sized(z) && z.n == |z.log| && i < |z.log|
    ensures AwaitOk(z, i)
  {
  }

  // ---------------------------------------------------------------- the header without them

  /** What Header.Valid says, of a header that is given by its accounts and other fields. */
  ghost predicate Sound(x: Books, runs: seq<Run>, last: int, size: nat) {
    && BooksOk(x) && x.n == |x.log| && x.pend == (set r | r in runs)
    && (forall i, k :: 0 <= i < k < |runs| ==> runs[i] != runs[k])
    && NoGap(x.tree) && Agrees(x.tree, x.log, x.n) && AttrsOk(x.log) && LastAttrOk(x.log, last, size)
    && InFile(x.tree, size)
  }

  lemma ValidIsSound(h: Header)
    requires h.Valid()
    ensures Sound(h.Accounts(), h.runs, h.lastSetattr, h.size)
  {
  }

  function DroppedRuns(runs: seq<Run>, a: nat, b: nat): seq<Run>
    requires a <= b
  {
    seq(|runs|, i requires 0 <= i < |runs| => DroppedRun(runs[i], a, b))
  }

  function DroppedLast(last: int, a: nat, b: nat): int
    requires a <= b
  {
    if last < 0 then last else LogGC.DroppedAt(last, a, b)
  }

  lemma DroppedNoGap(x: Books, a: nat, b: nat)
    requires Droppable(x, a, b) && NoGap(x.tree)
    ensures NoGap(LogGC.DroppedRef(x.tree, a, b))
  {
    NothingDropped(x, a, b);
    hide BooksOk, Dead;
    var z := LogGC.DroppedRef(x.tree, a, b);
    forall p, q, m: nat | p in z && q in z && z[p] == z[q] && p <= m <= q
      ensures m in z
    {
      PlaceOfKept(x.tree[p], a, b);
    }
  }

  lemma DroppedLog(x: Books, a: nat, b: nat)
    requires Droppable(x, a, b) && Agrees(x.tree, x.log, x.n) && AttrsOk(x.log)
    ensures Sized(x)
    ensures var z := DroppedBooks(x, a, b); Agrees(z.tree, z.log, |z.log|) && AttrsOk(z.log)
  {
    var z := DroppedBooks(x, a, b);
    forall p | p in x.tree
      ensures x.tree[p] < |x.log| && !Dead(x.log[x.tree[p]])
    {
      DeadHasNoSlot(x, p);
    }
    hide BooksOk, Agrees, AttrOk, Dead;
    LogGC.DropKeepsAgrees(x.log, x.tree, a, b);
    forall i | 0 <= i < |z.log|
      ensures AttrOk(z.log, i)
    {
      LogGC.DropKeepsAttr(x.log, a, b, i);
    }
  }

  lemma DroppedRunsAre(x: Books, runs: seq<Run>, a: nat, b: nat)
    requires Droppable(x, a, b) && x.pend == (set r | r in runs)
    requires forall i, k :: 0 <= i < k < |runs| ==> runs[i] != runs[k]
    ensures Sized(x) && DroppedBooks(x, a, b).pend == (set r | r in DroppedRuns(runs, a, b))
    ensures var z := DroppedRuns(runs, a, b); forall i, k :: 0 <= i < k < |z| ==> z[i] != z[k]
  {
    NothingDropped(x, a, b);
    hide BooksOk, Dead;
    var z := DroppedRuns(runs, a, b);
    forall r' | r' in DroppedBooks(x, a, b).pend
      ensures r' in z
    {
      var r :| r in x.pend && r' == DroppedRun(r, a, b);
      var i :| 0 <= i < |runs| && runs[i] == r;
      assert z[i] == r';
    }
    forall i, k | 0 <= i < k < |z|
      ensures z[i] != z[k]
    {
      PlaceOfKept(runs[i].entry, a, b);
      assert runs[k] in x.pend && runs[i] in x.pend;
    }
  }

  /** A valid header stays valid when dead entries are dropped. */
  lemma DropKeepsSound(x: Books, runs: seq<Run>, last: int, size: nat, a: nat, b: nat)
    requires Sound(x, runs, last, size) && a <= b <= |x.log| && forall i :: a <= i < b ==> Dead(x.log[i])
    ensures Sized(x)
    ensures Sound(DroppedBooks(x, a, b), DroppedRuns(runs, a, b), DroppedLast(last, a, b), size)
  {
    DropKeepsBooks(x, a, b);
    DroppedLog(x, a, b);
    DroppedNoGap(x, a, b);
    DroppedRunsAre(x, runs, a, b);
    hide BooksOk, NoGap, Agrees, AttrsOk;
    if last >= 0 {
      assert !(a <= last < b) && LogGC.Dropped(x.log, a, b)[LogGC.DroppedAt(last, a, b)] == x.log[last];
    }
  }

  /** Whatever dead entries a collection drops: the header stays valid, with the same size, blocks
      and number of superseded runs. */
  lemma {:induction false} ThinningKeepsSound(
    x: Books, runs: seq<Run>, last: int, size: nat, recs: seq<LogGC.LogPages.Rec>, d: seq<(nat, nat)>,
    recs': seq<LogGC.LogPages.Rec>)
    returns (z: Books, runs': seq<Run>, last': int)
    requires Sound(x, runs, last, size) && x.log == LogGC.Entries(recs) && LogGC.Drops(recs, d, recs')
    ensures Sound(z, runs', last', size) && z.log == LogGC.Entries(recs')
    ensures z.used == x.used && z.parked == x.parked && |runs'| == |runs| && z.tree.Keys == x.tree.Keys
    decreases |d|
  {
    hide BooksOk, NoGap, Agrees, AttrsOk, LastAttrOk, InFile, Dead;
    if d == [] {
      z, runs', last' := x, runs, last;
    } else {
      var a, b := d[0].0, d[0].1;
      assert forall i :: a <= i < b ==> x.log[i] == recs[i].e;
      DropKeepsSound(x, runs, last, size, a, b);
      assert LogGC.Entries(LogGC.Dropped(recs, a, b)) == LogGC.Dropped(x.log, a, b);
      z, runs', last' := ThinningKeepsSound(DroppedBooks(x, a, b), DroppedRuns(runs, a, b), DroppedLast(last, a, b),
                                            size, LogGC.Dropped(recs, a, b), d[1..], recs');
    }
  }

  lemma SoundIsValid(h: Header)
    requires Sound(h.Accounts(), h.runs, h.lastSetattr, h.size)
    ensures h.Valid()
  {
  }

  /** One log determines its index. */
  lemma OneIndex(tree: Tree, tree': Tree, log: seq<Entry>)
    requires Agrees(tree, log, |log|) && Agrees(tree', log, |log|)
    ensures tree == tree'
  {
    forall p: nat
      ensures Slot(tree, p) == Slot(tree', p)
    {
      assert Slot(tree, p) == Last(log, |log|, p);
    }
    SameSlots(tree, tree');
  }
}
