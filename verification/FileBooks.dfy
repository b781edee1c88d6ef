/** Who owns which block: the accounts behind the index of one file. */
module FileBooks {
  import opened Common
  import opened FileLog

  /** A run of superseded pages of one entry, waiting to be freed. */
  datatype Run = Run(entry: nat, start: nat, num: nat)
  {
    predicate Has(j: nat, p: nat) { j == entry && start <= p < start + num }
  }

  /** The state of a file.  The first n entries of the log have been given to the index; the
      blocks of the others are allocated already.  pend holds the superseded runs.  owner and
      lost are history: the entry and page that each block was allocated for, and for each
      entry the number of pages that were superseded but never counted in invalid_pages. */
  datatype Books = Books(
    log: seq<Entry>, n: nat, tree: Tree, pend: set<Run>, used: set<nat>, parked: set<nat>, marks: seq<nat>,
    owner: map<nat, (nat, nat)>, lost: seq<nat>)

  predicate Sized(b: Books) {
    match b
    case Books(log, n, tree, pend, _, _, marks, owner, lost) =>
      && n <= |log| == |marks| == |lost|
      && (forall p :: p in tree ==> tree[p] < |log|)
      && (forall r :: r in pend ==> r.entry < n)
      && (forall x :: x in owner ==> owner[x].0 < |log|)
  }

  /** The dead entries are the ones that the counter of their log page knows about. */
  predicate Dead(e: Entry) {
    match e
    case Write(_, num, _, _, invalidPages, _) => invalidPages == num
    case SetAttr(_, _, _, invalid) => invalid
    case Other(invalid) => invalid
  }

  /** The pages of an entry are indexed, counted as invalid, or lost. */
  ghost predicate EntryOk(b: Books, j: nat)
    requires Sized(b) && j < |b.log|
  {
    match b.log[j]
    case Write(pgoff, num, _, _, invalidPages, reassigned) =>
      && num > 0
      && b.marks[j] == (if Dead(b.log[j]) then 1 else 0)
      && (if j < b.n
          then Slots(b.tree, j, pgoff, pgoff + num) + invalidPages + b.lost[j] == num
          else invalidPages == 0 && b.lost[j] == 0)
    case SetAttr(_, _, _, _) => b.marks[j] == (if Dead(b.log[j]) then 1 else 0)
    case Other(_) => b.marks[j] == (if Dead(b.log[j]) then 1 else 0)
  }

  /** Block x belongs to page p of entry j. */
  ghost predicate Owns(b: Books, j: nat, p: nat)
    requires Sized(b) && j < |b.log|
  {
    Covers(b.log[j], p) && BlockOf(b.log[j], p) in b.owner && b.owner[BlockOf(b.log[j], p)] == (j, p)
  }

  /** An entry that the index has not seen yet owns all its pages. */
  ghost predicate AwaitOk(b: Books, j: nat)
    requires Sized(b) && j < |b.log|
  {
    j >= b.n ==> forall p: nat :: Covers(b.log[j], p) ==> Owns(b, j, p)
  }

  ghost predicate SlotOk(b: Books, p: nat)
    requires Sized(b)
  {
    p in b.tree ==> Owns(b, b.tree[p], p)
  }

  ghost predicate RunOk(b: Books, r: Run)
    requires Sized(b) && r in b.pend
  {
    && r.num > 0 && b.log[r.entry].Write? && b.lost[r.entry] >= r.num
    && (forall p: nat :: r.start <= p < r.start + r.num ==> Owns(b, r.entry, p) && Slot(b.tree, p) != r.entry)
  }

  predicate Apart(r: Run, q: Run) {
    r.entry != q.entry || r.start + r.num <= q.start || q.start + q.num <= r.start
  }

  /** Every block has exactly one place: an index slot, a pending run, or an entry that the
      index has not seen yet. */
  ghost predicate BlockOk(b: Books, x: nat)
    requires Sized(b) && x in b.owner
  {
    var (j, p) := b.owner[x];
    && Covers(b.log[j], p) && BlockOf(b.log[j], p) == x
    && (j >= b.n || Slot(b.tree, p) == j || exists r :: r in b.pend && r.Has(j, p))
  }

  ghost predicate BooksOk(b: Books) {
    && Sized(b)
    && (forall j :: 0 <= j < |b.log| ==> EntryOk(b, j))
    && (forall j :: 0 <= j < |b.log| ==> AwaitOk(b, j))
    && (forall p :: p in b.tree ==> SlotOk(b, p))
    && (forall r :: r in b.pend ==> RunOk(b, r))
    && (forall r, q :: r in b.pend && q in b.pend && r != q ==> Apart(r, q))
    && (forall x :: x in b.owner ==> BlockOk(b, x))
    && b.used == b.owner.Keys + b.parked && b.owner.Keys !! b.parked
  }

  /** No hole lies between two slots of one entry. */
  ghost predicate NoGap(tree: Tree) {
    forall p, q, m: nat :: p in tree && q in tree && tree[p] == tree[q] && p <= m <= q ==> m in tree
  }

  // ---------------------------------------------------------------- superseding a slot

  /** The slot of page p leaves the index (to < 0) or is replaced, and the page joins run cur
      or starts a run of its own. */
  function Superseded(b: Books, p: nat, to: int, grows: bool, cur: Run): Books
    requires Sized(b) && p in b.tree && to < |b.log|
  {
    var e := b.tree[p];
    b.(tree := if to >= 0 then b.tree[p := to] else b.tree - {p},
       pend := if grows then b.pend - {cur} + {cur.(num := cur.num + 1)} else b.pend + {Run(e, p, 1)},
       lost := b.lost[e := b.lost[e] + 1])
  }

  ghost predicate MayTake(b: Books, p: nat, to: int, grows: bool, cur: Run) {
    && BooksOk(b) && p in b.tree && b.tree[p] < b.n && to < |b.log| && to != b.tree[p]
    && (to >= 0 ==> to >= b.n && Owns(b, to, p))
    && (grows ==> cur in b.pend && cur.entry == b.tree[p] && cur.start + cur.num == p)
  }

  lemma TakeSized(b: Books, p: nat, to: int, grows: bool, cur: Run)
    requires MayTake(b, p, to, grows, cur)
    ensures Sized(Superseded(b, p, to, grows, cur))
  {
  }

  lemma TakeEntry(b: Books, p: nat, to: int, grows: bool, cur: Run, j: nat)
    requires MayTake(b, p, to, grows, cur) && j < |b.log|
    ensures Sized(Superseded(b, p, to, grows, cur)) && EntryOk(Superseded(b, p, to, grows, cur), j)
  {
    TakeSized(b, p, to, grows, cur);
    assert EntryOk(b, j);
    assert SlotOk(b, p);
    if b.log[j].Write? {
      SlotsChange(b.tree, Superseded(b, p, to, grows, cur).tree, p, j, b.log[j].pgoff, b.log[j].pgoff + b.log[j].num);
    }
  }

  /** The page that is taken is in no pending run. */
  lemma TakenIsNotPending(b: Books, p: nat, r: Run)
    requires BooksOk(b) && p in b.tree && r in b.pend
    ensures !r.Has(b.tree[p], p)
  {
    assert RunOk(b, r);
  }

  lemma TakeRun(b: Books, p: nat, to: int, grows: bool, cur: Run, r: Run)
    requires MayTake(b, p, to, grows, cur)
    requires r in Superseded(b, p, to, grows, cur).pend
    ensures Sized(Superseded(b, p, to, grows, cur)) && RunOk(Superseded(b, p, to, grows, cur), r)
  {
    TakeSized(b, p, to, grows, cur);
    var z := Superseded(b, p, to, grows, cur);
    assert SlotOk(b, p);
    if r in b.pend {
      assert RunOk(b, r);
    }
    if grows {
      assert RunOk(b, cur);
    }
    forall q: nat | r.start <= q < r.start + r.num
      ensures Owns(z, r.entry, q) && Slot(z.tree, q) != r.entry
    {
      if r in b.pend {
        assert Owns(b, r.entry, q);
      } else if q != p {
        assert Owns(b, cur.entry, q);
      }
    }
  }

  lemma TakeApart(b: Books, p: nat, to: int, grows: bool, cur: Run, r: Run, q: Run)
    requires MayTake(b, p, to, grows, cur)
    requires r in Superseded(b, p, to, grows, cur).pend && q in Superseded(b, p, to, grows, cur).pend && r != q
    ensures Apart(r, q)
  {
    if r in b.pend {
      TakenIsNotPending(b, p, r);
      assert RunOk(b, r);
    }
    if q in b.pend {
      TakenIsNotPending(b, p, q);
      assert RunOk(b, q);
    }
  }

  lemma TakeBlock(b: Books, p: nat, to: int, grows: bool, cur: Run, x: nat)
    requires MayTake(b, p, to, grows, cur) && x in b.owner
    ensures Sized(Superseded(b, p, to, grows, cur)) && BlockOk(Superseded(b, p, to, grows, cur), x)
  {
    TakeSized(b, p, to, grows, cur);
    var z := Superseded(b, p, to, grows, cur);
    assert BlockOk(b, x);
    var (j, q) := b.owner[x];
    var grown := if grows then cur.(num := cur.num + 1) else Run(b.tree[p], p, 1);
    assert grown in z.pend;
    if j < b.n && Slot(z.tree, q) != j {
      if Slot(b.tree, q) == j {
        assert grown.Has(j, q);
      } else {
        var r :| r in b.pend && r.Has(j, q);
        if r in z.pend {
          assert r.Has(j, q);
        } else {
          assert grown.Has(j, q);
        }
      }
    }
  }

  lemma TakeKeeps(b: Books, p: nat, to: int, grows: bool, cur: Run)
    requires MayTake(b, p, to, grows, cur)
    ensures BooksOk(Superseded(b, p, to, grows, cur))
  {
    TakeSized(b, p, to, grows, cur);
    var z := Superseded(b, p, to, grows, cur);
    forall j | 0 <= j < |b.log| ensures EntryOk(z, j) { TakeEntry(b, p, to, grows, cur, j); }
    forall j | 0 <= j < |b.log| ensures AwaitOk(z, j) {
      assert AwaitOk(b, j);
      forall p: nat | j >= z.n && Covers(z.log[j], p) ensures Owns(z, j, p) { assert Owns(b, j, p); }
    }
    forall q | q in z.tree ensures SlotOk(z, q) {
      if q != p { assert SlotOk(b, q); }
    }
    forall r | r in z.pend ensures RunOk(z, r) { TakeRun(b, p, to, grows, cur, r); }
    forall r, q | r in z.pend && q in z.pend && r != q ensures Apart(r, q) { TakeApart(b, p, to, grows, cur, r, q); }
    forall x | x in z.owner ensures BlockOk(z, x) { TakeBlock(b, p, to, grows, cur, x); }
  }

  /** The grown or new run was not pending before. */
  lemma TakenIsNew(b: Books, p: nat, grows: bool, cur: Run)
    requires BooksOk(b) && p in b.tree && (grows ==> cur.entry == b.tree[p] && cur.start + cur.num == p)
    ensures (if grows then cur.(num := cur.num + 1) else Run(b.tree[p], p, 1)) !in b.pend
  {
    var r := if grows then cur.(num := cur.num + 1) else Run(b.tree[p], p, 1);
    if r in b.pend {
      TakenIsNotPending(b, p, r);
    }
  }

  // ---------------------------------------------------------------- filling a hole

  function Filled(b: Books, p: nat, to: nat): Books {
    b.(tree := b.tree[p := to])
  }

  lemma FillRun(b: Books, p: nat, to: nat, r: Run)
    requires BooksOk(b) && p !in b.tree && b.n <= to < |b.log| && Owns(b, to, p) && r in b.pend
    ensures Sized(Filled(b, p, to)) && RunOk(Filled(b, p, to), r)
  {
    assert RunOk(b, r);
    forall q: nat | r.start <= q < r.start + r.num
      ensures Owns(Filled(b, p, to), r.entry, q) && Slot(Filled(b, p, to).tree, q) != r.entry
    {
      assert Owns(b, r.entry, q);
    }
  }

  lemma FillKeeps(b: Books, p: nat, to: nat)
    requires BooksOk(b) && p !in b.tree && b.n <= to < |b.log| && Owns(b, to, p)
    ensures BooksOk(Filled(b, p, to))
  {
    hide RunOk, Apart;
    var z := Filled(b, p, to);
    forall j | 0 <= j < |b.log| ensures EntryOk(z, j) {
      assert EntryOk(b, j);
      if b.log[j].Write? {
        SlotsChange(b.tree, z.tree, p, j, b.log[j].pgoff, b.log[j].pgoff + b.log[j].num);
      }
    }
    forall j | 0 <= j < |b.log| ensures AwaitOk(z, j) {
      assert AwaitOk(b, j);
      forall p: nat | j >= z.n && Covers(z.log[j], p) ensures Owns(z, j, p) { assert Owns(b, j, p); }
    }
    forall q | q in z.tree ensures SlotOk(z, q) {
      if q != p { assert SlotOk(b, q); }
    }
    forall r | r in z.pend ensures RunOk(z, r) { FillRun(b, p, to, r); }
    forall x | x in z.owner ensures BlockOk(z, x) { assert BlockOk(b, x); }
  }

  lemma AssignedRun(b: Books, r: Run)
    requires BooksOk(b) && b.n < |b.log| && r in b.pend
    ensures Sized(b.(n := b.n + 1)) && RunOk(b.(n := b.n + 1), r)
  {
    var z := b.(n := b.n + 1);
    assert RunOk(b, r);
    assert z.pend == b.pend && z.log == b.log && z.lost == b.lost;
    forall q: nat | r.start <= q < r.start + r.num ensures Owns(z, r.entry, q) && Slot(z.tree, q) != r.entry {
      assert Owns(b, r.entry, q) && Slot(b.tree, q) != r.entry;
    }
  }

  /** All pages of entry n have been given to the index. */
  lemma AssignedKeeps(b: Books)
    requires BooksOk(b) && b.n < |b.log| && b.log[b.n].Write?
    requires forall p: nat :: Covers(b.log[b.n], p) ==> Slot(b.tree, p) == b.n
    ensures BooksOk(b.(n := b.n + 1))
  {
    hide RunOk, Apart;
    var z, e := b.(n := b.n + 1), b.log[b.n];
    forall p: nat | e.pgoff <= p < e.pgoff + e.num ensures Slot(b.tree, p) == b.n {
      assert Covers(e, p);
    }
    SlotsAll(b.tree, b.n, e.pgoff, e.pgoff + e.num);
    forall j | 0 <= j < |b.log| ensures EntryOk(z, j) { assert EntryOk(b, j); }
    forall j | 0 <= j < |b.log| ensures AwaitOk(z, j) {
      assert AwaitOk(b, j);
      forall p: nat | j >= z.n && Covers(z.log[j], p) ensures Owns(z, j, p) { assert Owns(b, j, p); }
    }
    forall q | q in z.tree ensures SlotOk(z, q) { assert SlotOk(b, q); assert Owns(b, b.tree[q], q); }
    forall r | r in z.pend ensures RunOk(z, r) { AssignedRun(b, r); }
    forall x | x in z.owner ensures BlockOk(z, x) { assert BlockOk(b, x); }
  }

  // ---------------------------------------------------------------- giving a run back

  /** The blocks of a run. */
  function Blocks(b: Books, r: Run): set<nat>
    requires Sized(b) && r in b.pend && RunOk(b, r)
  {
    assert r.num > 0 ==> Owns(b, r.entry, r.start);
    Range(BlockOf(b.log[r.entry], r.start), r.num)
  }

  /** Entry e is marked as reassigned, and count more of its pages as invalid. */
  function Invalidated(e: Entry, count: nat): Entry
    requires e.Write?
  {
    if count == 0 && e.reassigned then e else e.(reassigned := true, invalidPages := e.invalidPages + count)
  }

  function Noted(b: Books, j: nat, count: nat): Books
    requires Sized(b) && j < |b.log| && b.log[j].Write?
  {
    if count == 0 && b.log[j].reassigned then b else
    var e := Invalidated(b.log[j], count);
    b.(log := b.log[j := e], marks := b.marks[j := b.marks[j] + if Dead(e) then 1 else 0])
  }

  /** The blocks of run r go back to the allocator, or stay allocated for a snapshot. */
  function Discarded(b: Books, r: Run, park: bool): Books
    requires Sized(b) && r in b.pend && RunOk(b, r)
  {
    b.(pend := b.pend - {r}, owner := b.owner - Blocks(b, r),
       used := if park then b.used else b.used - Blocks(b, r),
       parked := if park then b.parked + Blocks(b, r) else b.parked)
  }

  /** Block x belongs to run r exactly if it lies in its range. */
  lemma BlocksOwned(b: Books, r: Run, x: nat)
    requires BooksOk(b) && r in b.pend && RunOk(b, r)
    ensures x in Blocks(b, r) <==> x in b.owner && r.Has(b.owner[x].0, b.owner[x].1)
  {
    var e := b.log[r.entry];
    assert Owns(b, r.entry, r.start);
    if x in Blocks(b, r) {
      var p: nat := r.start + (x - BlockOf(e, r.start));
      assert Owns(b, r.entry, p);
    }
    if x in b.owner {
      assert BlockOk(b, x);
    }
  }

  lemma DiscardBlock(b: Books, r: Run, park: bool, x: nat)
    requires BooksOk(b) && r in b.pend && RunOk(b, r) && x in Discarded(b, r, park).owner
    ensures Sized(Discarded(b, r, park)) && BlockOk(Discarded(b, r, park), x)
  {
    BlocksOwned(b, r, x);
    assert BlockOk(b, x);
    var (j, p) := b.owner[x];
    if j < b.n && Slot(b.tree, p) != j {
      var q :| q in b.pend && q.Has(j, p);
      assert q in Discarded(b, r, park).pend;
    }
  }

  lemma DiscardRun(b: Books, r: Run, park: bool, q: Run)
    requires BooksOk(b) && r in b.pend && RunOk(b, r) && q in b.pend && q != r
    ensures Sized(Discarded(b, r, park)) && RunOk(Discarded(b, r, park), q)
  {
    var z := Discarded(b, r, park);
    assert RunOk(b, q) && Apart(r, q);
    forall p: nat | q.start <= p < q.start + q.num
      ensures Owns(z, q.entry, p)
    {
      assert Owns(b, q.entry, p);
      BlocksOwned(b, r, BlockOf(b.log[q.entry], p));
    }
  }

  lemma DiscardSlot(b: Books, r: Run, park: bool, p: nat)
    requires BooksOk(b) && r in b.pend && RunOk(b, r) && p in b.tree
    ensures Sized(Discarded(b, r, park)) && SlotOk(Discarded(b, r, park), p)
  {
    assert SlotOk(b, p);
    TakenIsNotPending(b, p, r);
    BlocksOwned(b, r, BlockOf(b.log[b.tree[p]], p));
  }

  lemma DiscardAwait(b: Books, r: Run, park: bool, j: nat)
    requires BooksOk(b) && r in b.pend && RunOk(b, r) && j < |b.log|
    ensures Sized(Discarded(b, r, park)) && AwaitOk(Discarded(b, r, park), j)
  {
    var z := Discarded(b, r, park);
    assert AwaitOk(b, j);
    forall p: nat | j >= z.n && Covers(z.log[j], p)
      ensures Owns(z, j, p)
    {
      assert Owns(b, j, p);
      BlocksOwned(b, r, BlockOf(b.log[j], p));
    }
  }

  /** Only blocks that are in use are given back, so none is given back twice. */
  lemma DiscardKeeps(b: Books, r: Run, park: bool)
    requires BooksOk(b) && r in b.pend && RunOk(b, r)
    ensures BooksOk(Discarded(b, r, park))
    ensures Blocks(b, r) <= b.used && Blocks(b, r) !! b.parked
  {
    var z := Discarded(b, r, park);
    forall j | 0 <= j < |b.log| ensures EntryOk(z, j) { assert EntryOk(b, j); }
    forall j | 0 <= j < |b.log| ensures AwaitOk(z, j) { DiscardAwait(b, r, park, j); }
    forall p | p in z.tree ensures SlotOk(z, p) { DiscardSlot(b, r, park, p); }
    forall q | q in z.pend ensures RunOk(z, q) { DiscardRun(b, r, park, q); }
    forall x | x in z.owner ensures BlockOk(z, x) { DiscardBlock(b, r, park, x); }
    forall x | x in Blocks(b, r) ensures x in b.owner { BlocksOwned(b, r, x); }
  }

  /** The blocks of superseded pages that wait to be freed. */
  ghost function PendingBlocks(b: Books): set<nat> {
    set x | x in b.owner && exists r :: r in b.pend && r.Has(b.owner[x].0, b.owner[x].1)
  }

  lemma DiscardPending(b: Books, r: Run, park: bool)
    requires BooksOk(b) && r in b.pend && RunOk(b, r)
    ensures PendingBlocks(Discarded(b, r, park)) == PendingBlocks(b) - Blocks(b, r)
    ensures Blocks(b, r) <= PendingBlocks(b)
  {
    var z := Discarded(b, r, park);
    forall x: nat
      ensures x in PendingBlocks(z) <==> x in PendingBlocks(b) && x !in Blocks(b, r)
      ensures x in Blocks(b, r) ==> x in PendingBlocks(b)
    {
      BlocksOwned(b, r, x);
      if x in PendingBlocks(b) && x !in Blocks(b, r) {
        var q :| q in b.pend && q.Has(b.owner[x].0, b.owner[x].1);
        assert q in z.pend;
      }
    }
  }

  /** Truncation counts the pages of its last run as invalid. */
  function Counted(b: Books, j: nat, count: nat): Books
    requires Sized(b) && j < |b.log| && b.log[j].Write? && count <= b.lost[j]
  {
    Noted(b, j, count).(lost := b.lost[j := b.lost[j] - count])
  }

  lemma NonePending(b: Books)
    ensures b.pend == {} ==> PendingBlocks(b) == {}
  {
  }

  lemma SamePending(b: Books, j: nat)
    requires MayCount(b, j, 0)
    ensures PendingBlocks(Counted(b, j, 0)) == PendingBlocks(b)
  {
  }

  ghost predicate MayCount(b: Books, j: nat, count: nat) {
    BooksOk(b) && j < b.n && b.log[j].Write? && count <= b.lost[j] && 0 < b.lost[j] && (count > 0 ==> b.pend == {})
  }

  lemma CountSized(b: Books, j: nat, count: nat)
    requires MayCount(b, j, count)
    ensures Sized(Counted(b, j, count))
    ensures forall i :: 0 <= i < |b.log| ==> SameShape(b.log[i], Counted(b, j, count).log[i])
  {
    assert EntryOk(b, j);
  }

  lemma CountEntry(b: Books, j: nat, count: nat, i: nat)
    requires MayCount(b, j, count) && i < |b.log|
    ensures Sized(Counted(b, j, count)) && EntryOk(Counted(b, j, count), i)
  {
    CountSized(b, j, count);
    assert EntryOk(b, i);
  }

  lemma CountOwner(b: Books, j: nat, count: nat, i: nat, p: nat)
    requires MayCount(b, j, count) && i < |b.log| && Owns(b, i, p)
    ensures Sized(Counted(b, j, count)) && Owns(Counted(b, j, count), i, p)
  {
    CountSized(b, j, count);
  }

  lemma CountKeeps(b: Books, j: nat, count: nat)
    requires MayCount(b, j, count)
    ensures BooksOk(Counted(b, j, count))
  {
    var z := Counted(b, j, count);
    CountSized(b, j, count);
    forall i | 0 <= i < |b.log| ensures EntryOk(z, i) { CountEntry(b, j, count, i); }
    forall i | 0 <= i < |b.log| ensures AwaitOk(z, i) {
      assert AwaitOk(b, i);
      forall p: nat | i >= z.n && Covers(z.log[i], p) ensures Owns(z, i, p) { CountOwner(b, j, count, i, p); }
    }
    forall p | p in z.tree ensures SlotOk(z, p) { assert SlotOk(b, p); CountOwner(b, j, count, b.tree[p], p); }
    forall q | q in z.pend ensures RunOk(z, q) {
      assert RunOk(b, q);
      forall p: nat | q.start <= p < q.start + q.num
        ensures Owns(z, q.entry, p)
      {
        CountOwner(b, j, count, q.entry, p);
      }
    }
    forall x | x in z.owner ensures BlockOk(z, x) { assert BlockOk(b, x); }
  }

  /** A run is freed after an overwrite (deleteDead), or by a truncation, which also counts
      its pages unless a snapshot keeps them. */
  function Given(b: Books, r: Run, deleteDead: bool, park: bool): Books
    requires BooksOk(b) && r in b.pend && RunOk(b, r) && (!deleteDead ==> b.pend == {r})
  {
    DiscardKeeps(b, r, park);
    var d := Discarded(b, r, park);
    if deleteDead then d else Counted(d, r.entry, if park then 0 else r.num)
  }

  lemma GivenKeeps(b: Books, r: Run, deleteDead: bool, park: bool)
    requires BooksOk(b) && r in b.pend && RunOk(b, r) && (!deleteDead ==> b.pend == {r})
    ensures BooksOk(Given(b, r, deleteDead, park))
    ensures Given(b, r, deleteDead, park).tree == b.tree && Given(b, r, deleteDead, park).n == b.n
    ensures Given(b, r, deleteDead, park).pend == b.pend - {r}
    ensures |Given(b, r, deleteDead, park).log| == |b.log|
    ensures forall k :: 0 <= k < |b.log| ==> SameShape(b.log[k], Given(b, r, deleteDead, park).log[k])
    ensures deleteDead ==> Given(b, r, deleteDead, park).log == b.log && Given(b, r, deleteDead, park).lost == b.lost
  {
    DiscardKeeps(b, r, park);
    var d := Discarded(b, r, park);
    if !deleteDead {
      CountKeeps(d, r.entry, if park then 0 else r.num);
      CountSized(d, r.entry, if park then 0 else r.num);
    }
  }

  // ---------------------------------------------------------------- appending

  /** The log grows by one entry; a write entry brings blocks that the allocator has granted. */
  function Appended(b: Books, e: Entry): Books {
    var blocks := if e.Write? then Range(e.blocknr, e.num) else {};
    b.(log := b.log + [e], marks := b.marks + [0], lost := b.lost + [0],
       n := if e.Write? then b.n else |b.log| + 1,
       used := b.used + blocks,
       owner := b.owner + map x | x in blocks ::
         (|b.log|, if e.Write? && x >= e.blocknr then e.pgoff + (x - e.blocknr) else 0))
  }

  predicate Fresh(b: Books, e: Entry) {
    match e
    case Write(_, num, blocknr, _, invalidPages, _) => num > 0 && invalidPages == 0 && Range(blocknr, num) !! b.used
    case SetAttr(_, _, _, invalid) => !invalid && b.n == |b.log|
    case Other(invalid) => !invalid && b.n == |b.log|
  }

  lemma AppendEntry(b: Books, e: Entry, j: nat)
    requires BooksOk(b) && Fresh(b, e) && j <= |b.log|
    ensures Sized(Appended(b, e)) && EntryOk(Appended(b, e), j)
  {
    if j < |b.log| {
      assert EntryOk(b, j);
    }
  }

  lemma AppendOwner(b: Books, e: Entry, j: nat, p: nat)
    requires BooksOk(b) && Fresh(b, e) && j < |b.log| && Owns(b, j, p)
    ensures Sized(Appended(b, e)) && Owns(Appended(b, e), j, p)
  {
    assert BlockOf(b.log[j], p) in b.used;
  }

  lemma AppendRun(b: Books, e: Entry, r: Run)
    requires BooksOk(b) && Fresh(b, e) && r in b.pend
    ensures Sized(Appended(b, e)) && RunOk(Appended(b, e), r)
  {
    assert RunOk(b, r);
    forall p: nat | r.start <= p < r.start + r.num ensures Owns(Appended(b, e), r.entry, p) {
      AppendOwner(b, e, r.entry, p);
    }
  }

  lemma AppendBlock(b: Books, e: Entry, x: nat)
    requires BooksOk(b) && Fresh(b, e) && x in Appended(b, e).owner
    ensures Sized(Appended(b, e)) && BlockOk(Appended(b, e), x)
  {
    if x in b.owner {
      assert BlockOk(b, x);
      assert x in b.used;
    }
  }

  lemma AppendAwait(b: Books, e: Entry, j: nat)
    requires BooksOk(b) && Fresh(b, e) && j <= |b.log|
    ensures Sized(Appended(b, e)) && AwaitOk(Appended(b, e), j)
  {
    var z := Appended(b, e);
    forall p: nat | j >= z.n && Covers(z.log[j], p)
      ensures Owns(z, j, p)
    {
      if j < |b.log| {
        assert AwaitOk(b, j);
        AppendOwner(b, e, j, p);
      } else {
        assert BlockOf(e, p) in Range(e.blocknr, e.num);
      }
    }
  }

  lemma AppendPending(b: Books, e: Entry)
    requires BooksOk(b) && Fresh(b, e)
    ensures PendingBlocks(Appended(b, e)) == PendingBlocks(b)
  {
    var z := Appended(b, e);
    forall x: nat ensures x in PendingBlocks(z) <==> x in PendingBlocks(b) {
      if x in b.owner { assert x in b.used; }
    }
  }

  lemma AppendUsed(b: Books, e: Entry)
    requires BooksOk(b) && Fresh(b, e)
    ensures Appended(b, e).used == Appended(b, e).owner.Keys + b.parked && Appended(b, e).owner.Keys !! b.parked
  {
    var blocks := if e.Write? then Range(e.blocknr, e.num) else {};
    assert Appended(b, e).owner.Keys == b.owner.Keys + blocks;
  }

  lemma AppendPlain(b: Books, e: Entry)
    requires !e.Write?
    ensures Appended(b, e) == b.(log := b.log + [e], marks := b.marks + [0], lost := b.lost + [0], n := |b.log| + 1)
  {
    assert Appended(b, e).owner == b.owner && Appended(b, e).used == b.used;
  }

  lemma AppendKeeps(b: Books, e: Entry)
    requires BooksOk(b) && Fresh(b, e)
    ensures BooksOk(Appended(b, e))
  {
    hide EntryOk, AwaitOk, RunOk, BlockOk, Apart;
    var z := Appended(b, e);
    AppendUsed(b, e);
    forall j | 0 <= j < |z.log| ensures EntryOk(z, j) { AppendEntry(b, e, j); }
    forall j | 0 <= j < |z.log| ensures AwaitOk(z, j) { AppendAwait(b, e, j); }
    forall p | p in z.tree ensures SlotOk(z, p) { assert SlotOk(b, p); AppendOwner(b, e, b.tree[p], p); }
    forall r | r in z.pend ensures RunOk(z, r) { AppendRun(b, e, r); }
    forall x | x in z.owner ensures BlockOk(z, x) { AppendBlock(b, e, x); }
  }

  // ---------------------------------------------------------------- attribute entries

  /** An entry that is no write entry is rewritten in place, or marked as invalid. */
  function Rewritten(b: Books, k: nat, e: Entry): Books
    requires Sized(b) && k < |b.log|
  {
    b.(log := b.log[k := e], marks := b.marks[k := if Dead(e) then 1 else 0])
  }

  lemma RewriteOwner(b: Books, k: nat, e: Entry, j: nat, p: nat)
    requires BooksOk(b) && k < |b.log| && !b.log[k].Write? && !e.Write? && j < |b.log| && Owns(b, j, p)
    ensures Sized(Rewritten(b, k, e)) && Owns(Rewritten(b, k, e), j, p)
  {
  }

  lemma RewriteKeeps(b: Books, k: nat, e: Entry)
    requires BooksOk(b) && k < |b.log| && !b.log[k].Write? && !e.Write?
    ensures BooksOk(Rewritten(b, k, e))
  {
    var z := Rewritten(b, k, e);
    forall j | 0 <= j < |b.log| ensures EntryOk(z, j) { assert EntryOk(b, j); }
    forall j | 0 <= j < |b.log| ensures AwaitOk(z, j) {
      assert AwaitOk(b, j);
      forall p: nat | j >= z.n && Covers(z.log[j], p) ensures Owns(z, j, p) { RewriteOwner(b, k, e, j, p); }
    }
    forall p | p in z.tree ensures SlotOk(z, p) { assert SlotOk(b, p); RewriteOwner(b, k, e, b.tree[p], p); }
    forall r | r in z.pend ensures RunOk(z, r) {
      assert RunOk(b, r);
      forall p: nat | r.start <= p < r.start + r.num ensures Owns(z, r.entry, p) { RewriteOwner(b, k, e, r.entry, p); }
    }
    forall x | x in z.owner ensures BlockOk(z, x) { assert BlockOk(b, x); }
  }

  lemma PendingIsOk(b: Books, r: Run)
    requires BooksOk(b) && r in b.pend
    ensures Sized(b) && RunOk(b, r) && b.log[r.entry].Write? && 0 < b.lost[r.entry] && !Dead(b.log[r.entry])
  {
    assert EntryOk(b, r.entry);
  }

  // ---------------------------------------------------------------- what the accounts say

  /** For every write entry, the indexed pages and invalid_pages never exceed num_pages, and
      the counter of its log page counts it exactly when all its pages are invalid. */
  lemma IndexedAndInvalidFit(b: Books, j: nat)
    requires BooksOk(b) && j < b.n && b.log[j].Write?
    ensures
      var e := b.log[j];
      Slots(b.tree, j, e.pgoff, e.pgoff + e.num) + e.invalidPages <= e.num
      && b.marks[j] == (if e.invalidPages == e.num then 1 else 0)
  {
    assert EntryOk(b, j);
  }

  /** An entry that its log page counts as dead has no slot. */
  lemma DeadHasNoSlot(b: Books, p: nat)
    requires BooksOk(b) && p in b.tree && b.tree[p] < b.n
    ensures !Dead(b.log[b.tree[p]]) && b.marks[b.tree[p]] == 0
  {
    var j := b.tree[p];
    assert SlotOk(b, p) && EntryOk(b, j);
    SlotsSome(b.tree, j, b.log[j].pgoff, b.log[j].pgoff + b.log[j].num, p);
  }

  /** Replay of the log skips the entries whose pages are all invalid, and still finds the index. */
  lemma ReplayFindsIndex(b: Books, p: nat)
    requires BooksOk(b) && b.n == |b.log| && Agrees(b.tree, b.log, b.n)
    ensures LastReplayed(b.log, b.n, p) == Slot(b.tree, p)
  {
    assert Slot(b.tree, p) == Last(b.log, b.n, p);
    if p in b.tree {
      DeadHasNoSlot(b, p);
    }
    SkipIsHarmless(b.log, b.n, p);
  }

  /** Distinct pages of the index have distinct blocks. */
  lemma SlotsHaveTheirOwnBlocks(b: Books, p: nat, q: nat)
    requires BooksOk(b) && p in b.tree && q in b.tree && p != q
    ensures Covers(b.log[b.tree[p]], p) && Covers(b.log[b.tree[q]], q)
    ensures BlockOf(b.log[b.tree[p]], p) != BlockOf(b.log[b.tree[q]], q)
    ensures BlockOf(b.log[b.tree[p]], p) in b.used
  {
    assert SlotOk(b, p) && SlotOk(b, q);
  }

  /** With no run pending, the blocks in use are the indexed ones and those kept for snapshots. */
  lemma UsedMeansIndexed(b: Books, x: nat)
    requires BooksOk(b) && b.n == |b.log| && b.pend == {}
    ensures x in b.used <==>
            x in b.parked || exists p :: p in b.tree && Covers(b.log[b.tree[p]], p) && BlockOf(b.log[b.tree[p]], p) == x
  {
    if x in b.owner {
      assert BlockOk(b, x);
    }
    forall p | p in b.tree
      ensures Covers(b.log[b.tree[p]], p) && BlockOf(b.log[b.tree[p]], p) in b.used
    {
      assert SlotOk(b, p);
    }
  }
}
