/** The life of a file: its header in memory and its log on pages, through all operations. */
module LogLife {
  import opened Common
  import FileBooks
  import opened FileIndex
  import opened FileLog
  import opened FileThinning
  import opened LogGC
  import opened LogPages

  /** A file as a whole: its header is valid, and its log lies on pages with right counters; places is
      where its entries are. */
  ghost predicate Whole(gc: Collector, h: Header, places: seq<Pos>, l: Log)
    reads gc, gc.area, h
  {
    && LogOk(gc.area.pages, l) && CountersOk(gc.area.pages, l) && Stands(h, l, gc.slots)
    && gc.head == l.chain[0] && gc.tail == At(l, |l.path|) && places == l.path
  }

  // ---------------------------------------------------------------- collections

  /** The header after a collection, with its positions in the new log. */
  ghost method Renumber(h: Header, l: Log, m: Log, slots: Slots, ref': map<nat, nat>) returns (h': Header)
    requires h.Valid() && LogSized(l) && Entries(l.recs) == h.log && Thinner(l.recs, m.recs)
    requires FileOk(m.recs, ref') && SlotsOk(slots, m, ref')
    ensures fresh(h') && Stands(h', m, slots) && h'.tree == ref'
    ensures h'.size == h.size && h'.used == h.used && h'.parked == h.parked && |h'.runs| == |h.runs|
  {
    hide FileBooks.BooksOk, Agrees, AttrsOk, FileBooks.NoGap, InFile, LastAttrOk, LogGC.SlotOk;
    ValidIsSound(h);
    var d :| Drops(l.recs, d, m.recs);
    var z, runs, last := ThinningKeepsSound(h.Accounts(), h.runs, h.lastSetattr, h.size, l.recs, d, m.recs);
    h' := new Header.Of(z, runs, last, h.size);
    SoundIsValid(h');
    OneIndex(z.tree, ref', z.log);
    forall p | p in ref'
      ensures ref'[p] < |m.path| && slots[p] == m.path[ref'[p]]
    {
      SlotIsThere(slots, m, ref', p);
    }
  }

  lemma SlotIsThere(slots: Slots, m: Log, ref: map<nat, nat>, p: nat)
    requires SlotsOk(slots, m, ref) && p in ref
    ensures p in slots && ref[p] < |m.path| && slots[p] == m.path[ref[p]]
  {
    assert LogGC.SlotOk(slots, m, ref, p);
  }

  /** Any valid file is collected, thoroughly or fast: what results is a valid file again, with the
      same size and blocks, and with an index that leads to the same entries. */
  method CollectKeepsFile(gc: Collector, ghost h: Header, fast: bool, blocks: seq<nat>, pool: seq<nat>, ghost l: Log)
    returns (ghost m: Log, ghost h': Header)
    requires Whole(gc, h, l.path, l)
    requires blocks != [] && FreshPages(gc.area.pages, blocks + pool) && |l.path| <= |pool|
    modifies gc, gc.area
    ensures Whole(gc, h', m.path, m) && fresh(h')
    ensures h'.size == h.size && h'.used == h.used && h'.parked == h.parked && SameFile(h.tree, l, h'.tree, m, gc.slots)
    ensures LogSized(l) && LogSized(m) && CollectedBy(fast, old(gc.area.pages), l, gc.area.pages, m)
  {
    hide CollectedBy;
    hide EntryOk, ChainOk, CountersOk, FileOk, SlotsOk, FileBooks.BooksOk, Agrees, AttrsOk, SameEntries, SameFile;
    hide Thinner;
    ValidFile(h, l, gc.slots);
    ghost var ref, ref' := h.tree, map[];
    m, ref' := CollectFile(gc, fast, blocks, pool, l, ref);
    FitIsSame(gc.area.pages, l, ref, m, gc.slots, ref');
    h' := Renumber(h, l, m, gc.slots, ref');
  }

  // ---------------------------------------------------------------- operations

  /** A new entry, if there is one, goes behind the last one. */
  method StoreNew(gc: Collector, log: seq<Entry>, places: seq<Pos>, size: nat, spare: seq<nat>, ghost l: Log)
    returns (places': seq<Pos>, ghost l': Log)
    requires LogOk(gc.area.pages, l) && CountersOk(gc.area.pages, l) && places == l.path
    requires gc.head == l.chain[0] && gc.tail == At(l, |l.path|) && Evolves(Entries(l.recs), log)
    requires LegalSize(size) && spare != [] && FreshPages(gc.area.pages, spare)
    modifies gc`tail, gc.area
    ensures LogOk(gc.area.pages, l') && CountersOk(gc.area.pages, l') && places' == l'.path
    ensures gc.head == l'.chain[0] && gc.tail == At(l', |l'.path|) && MayBecome(l', log)
  {
    hide EntryOk, ChainOk, CountersOk, FileBooks.Dead;
    places', l' := places, l;
    if |log| > |places| {
      var rec := Rec(log[|log| - 1], size);
      var ok, p;
      ok, p, l' := gc.area.AppendLogEntry(gc.tail, rec, spare, false, l);
      places' := places + [p];
      gc.tail := Pos(p.page, p.loc + size);
    }
  }

  /** The header has been changed by an operation; now its log on the pages is: a new entry goes
      behind the last one, changed entries are stored, and the index slots get their addresses. */
  method StoreLog(gc: Collector, h: Header, places: seq<Pos>, size: nat, spare: seq<nat>, ghost l: Log)
    returns (places': seq<Pos>, ghost l': Log)
    requires LogOk(gc.area.pages, l) && CountersOk(gc.area.pages, l) && places == l.path
    requires gc.head == l.chain[0] && gc.tail == At(l, |l.path|)
    requires h.Valid() && Evolves(Entries(l.recs), h.log)
    requires LegalSize(size) && spare != [] && FreshPages(gc.area.pages, spare)
    modifies gc`slots, gc`tail, gc.area
    ensures Whole(gc, h, places', l')
  {
    hide EntryOk, ChainOk, CountersOk, FileBooks.BooksOk, Agrees, AttrsOk, LastAttrOk, InFile, FileBooks.NoGap;
    hide Evolves, MayBecome;
    ghost var l1;
    places', l1 := StoreNew(gc, h.log, places, size, spare, l);
    l' := gc.area.StoreChanges(places', h.log, l1);
    SameEnd(l1, h.log);
    NotYet(h.tree, h.log, h.n);
    gc.slots := map p | p in h.tree :: places'[h.tree[p]];
  }

  lemma SameEnd(l: Log, es: seq<Entry>)
    requires LogSized(l) && |es| == |l.recs|
    ensures At(WithEntries(l, es), |l.path|) == At(l, |l.path|) && Entries(WithEntries(l, es).recs) == es
  {
    assert forall i :: 0 <= i < |es| ==> Entries(WithEntries(l, es).recs)[i] == es[i];
  }

  /** What is seen of a file from outside, and where its last attribute entry is. */
  datatype FileState = FileState(log: seq<Entry>, tree: Tree, size: nat, used: set<nat>, parked: set<nat>,
                                 waiting: set<nat>, last: int, pages: Pages)

  ghost function StateOf(gc: Collector, h: Header): FileState
    reads gc, gc.area, h
  {
    FileState(h.log, h.tree, h.size, h.used, h.parked, FileBooks.PendingBlocks(h.Accounts()), h.lastSetattr,
              gc.area.pages)
  }

  /** The pages of entry e belong to it, and the blocks that they had before wait to be freed. */
  ghost predicate Written(e: Entry, end: nat, s: FileState, z: FileState) {
    && e.Write? && Overlaid(s.tree, z.tree, e.pgoff, e.pgoff + e.num, |s.log|)
    && SameShapes(s.log + [e], z.log) && Alike(s.log + [e], z.log)
    && z.size == (if end > s.size then end else s.size) && z.parked == s.parked
    && z.used == s.used + Range(e.blocknr, e.num) - s.waiting
    && z.waiting == Places(s.tree, s.log, e.pgoff, e.pgoff + e.num)
  }

  /** The attributes are logged, and the pages behind the new size are cut: their blocks are free, or kept for the
      snapshots that see them. */
  ghost predicate AttrChanged(newSize: Option<nat>, epoch: nat, live: set<nat>, s: FileState, z: FileState) {
    && z.size == (if newSize.Some? then newSize.value else s.size) && Cut(s.tree, z.tree, FirstPage(z.size))
    && Evolves(s.log, z.log) && 0 <= z.last < |z.log|
    && z.log[z.last] == SetAttr(z.size, newSize.Some?, epoch, false)
    && Settled(s.tree, s.log, s.parked, Tail(s.tree, FirstPage(z.size)), epoch, live, z.log, z.parked)
    && Freed(s.tree, s.log, Tail(s.tree, FirstPage(z.size)), epoch, live, z.used)
  }

  /** Only the log changes: an entry is stored again, or a new one appended. */
  ghost predicate LinksChanged(last: int, sameEpoch: bool, freeable: bool, s: FileState, z: FileState)
    requires last < |s.log|
  {
    && z == s.(log := z.log, pages := z.pages)
    && z.log == if last >= 0 && sameEpoch then s.log
                else (if last >= 0 && freeable then s.log[last := Other(true)] else s.log) + [Other(false)]
  }

  /** A write of one entry that reaches byte end; its blocks come from the allocator. */
  method WriteFile(gc: Collector, h: Header, e: Entry, end: nat, live: set<nat>, places: seq<Pos>, size: nat,
                   spare: seq<nat>, ghost l: Log)
    returns (places': seq<Pos>, ghost l': Log)
    requires Whole(gc, h, places, l) && e.Write? && FileBooks.Fresh(h.Accounts(), e)
    requires e.pgoff + e.num <= FirstPage(end)
    requires LegalSize(size) && spare != [] && FreshPages(gc.area.pages, spare)
    modifies gc`slots, gc`tail, gc.area, h
    ensures Whole(gc, h, places', l') && Written(e, end, old(StateOf(gc, h)), StateOf(gc, h))
  {
    hide EntryOk, ChainOk, CountersOk, FileBooks.BooksOk, Agrees, AttrsOk, LastAttrOk, FileBooks.NoGap;
    ghost var log0, tree0 := h.log, h.tree;
    h.AppendFileWriteEntry(e, live);
    ShapesEvolve(log0, [e], h.log);
    PagesGrow(h.size, if end > h.size then end else h.size);
    PagesGrow(end, if end > h.size then end else h.size);
    OverlayInFile(tree0, h.tree, e.pgoff, e.pgoff + e.num, |log0|, if end > h.size then end else h.size);
    ghost var b := h.Accounts();
    h.ExtendSize(end);
    assert h.Accounts() == b;
    places', l' := StoreLog(gc, h, places, size, spare, l);
  }

  /** A change of attributes, which may cut the file. */
  method ChangeFile(gc: Collector, h: Header, newSize: Option<nat>, epoch: nat, live: set<nat>, places: seq<Pos>,
                    size: nat, spare: seq<nat>, ghost l: Log)
    returns (places': seq<Pos>, ghost l': Log)
    requires Whole(gc, h, places, l) && LegalSize(size) && spare != [] && FreshPages(gc.area.pages, spare)
    modifies gc`slots, gc`tail, gc.area, h
    ensures Whole(gc, h, places', l') && AttrChanged(newSize, epoch, live, old(StateOf(gc, h)), StateOf(gc, h))
  {
    hide EntryOk, ChainOk, CountersOk, FileBooks.BooksOk, Agrees, AttrsOk, FileBooks.NoGap;
    h.NotifyChange(newSize, epoch, live);
    places', l' := StoreLog(gc, h, places, size, spare, l);
  }

  /** A change of the number of links. */
  method LinkFile(gc: Collector, h: Header, last: int, sameEpoch: bool, freeable: bool, places: seq<Pos>, size: nat,
                  spare: seq<nat>, ghost l: Log)
    returns (places': seq<Pos>, ghost l': Log)
    requires Whole(gc, h, places, l) && LegalSize(size) && spare != [] && FreshPages(gc.area.pages, spare)
    requires -1 <= last < |h.log| && (last >= 0 ==> h.log[last] == Other(false))
    modifies gc`slots, gc`tail, gc.area, h
    ensures Whole(gc, h, places', l')
    ensures LinksChanged(last, sameEpoch, freeable, old(StateOf(gc, h)), StateOf(gc, h))
  {
    hide EntryOk, ChainOk, CountersOk, FileBooks.BooksOk, Agrees, AttrsOk, LastAttrOk, FileBooks.NoGap;
    h.ChangeLinks(last, sameEpoch, freeable);
    places', l' := StoreLog(gc, h, places, size, spare, l);
  }

  /** An operation on the file, with the size of its entry and the pages that the allocator would grant
      to the log. */
  datatype Op =
    | WriteOp(e: Entry, end: nat, size: nat, spare: seq<nat>)
    | AttrOp(newSize: Option<nat>, epoch: nat, size: nat, spare: seq<nat>)
    | LinkOp(last: int, sameEpoch: bool, freeable: bool, size: nat, spare: seq<nat>)

  /** The allocators hand out what is free, and a write ends where its last page ends at the latest. */
  predicate Legal(op: Op, log: seq<Entry>, used: set<nat>, pages: Pages) {
    && LegalSize(op.size) && op.spare != [] && FreshPages(pages, op.spare)
    && match op
       case WriteOp(e, end, _, _) =>
         && e.Write? && e.num > 0 && e.invalidPages == 0 && Range(e.blocknr, e.num) !! used
         && e.pgoff + e.num <= FirstPage(end)
       case AttrOp(_, _, _, _) => true
       case LinkOp(last, _, _, _, _) => -1 <= last < |log| && (last >= 0 ==> log[last] == Other(false))
  }

  /** What the operation does to the file. */
  ghost predicate Effect(op: Op, live: set<nat>, s: FileState, z: FileState) {
    match op
    case WriteOp(e, end, _, _) => Written(e, end, s, z)
    case AttrOp(newSize, epoch, _, _) => AttrChanged(newSize, epoch, live, s, z)
    case LinkOp(last, sameEpoch, freeable, _, _) =>
      last < |s.log| && LinksChanged(last, sameEpoch, freeable, s, z)
  }

  /** An operation has its turn; one that the allocators would not allow is passed over. */
  ghost predicate Turn(op: Op, live: set<nat>, s: FileState, z: FileState) {
    if Legal(op, s.log, s.used, s.pages) then Effect(op, live, s, z) else z == s
  }

  /** The operations have had their turns. */
  ghost predicate Turns(ops: seq<Op>, live: set<nat>, states: seq<FileState>) {
    |states| == |ops| + 1 && forall i :: 0 <= i < |ops| ==> Turn(ops[i], live, states[i], states[i + 1])
  }

  lemma NextTurn(ops: seq<Op>, i: nat, live: set<nat>, states: seq<FileState>, z: FileState)
    requires i < |ops| && Turns(ops[..i], live, states) && Turn(ops[i], live, states[i], z)
    ensures Turns(ops[..i + 1], live, states + [z])
  {
    hide Turn;
  }

  method Perform(gc: Collector, h: Header, op: Op, live: set<nat>, places: seq<Pos>, ghost l: Log)
    returns (places': seq<Pos>, ghost l': Log)
    requires Whole(gc, h, places, l) && Legal(op, h.log, h.used, gc.area.pages)
    modifies gc`slots, gc`tail, gc.area, h
    ensures Whole(gc, h, places', l') && Effect(op, live, old(StateOf(gc, h)), StateOf(gc, h))
  {
    hide Whole, Written, AttrChanged, LinksChanged;
    match op
    case WriteOp(e, end, size, spare) =>
      places', l' := WriteFile(gc, h, e, end, live, places, size, spare, l);
    case AttrOp(newSize, epoch, size, spare) =>
      places', l' := ChangeFile(gc, h, newSize, epoch, live, places, size, spare, l);
    case LinkOp(last, sameEpoch, freeable, size, spare) =>
      places', l' := LinkFile(gc, h, last, sameEpoch, freeable, places, size, spare, l);
  }

  /** From every whole file, one that has just been collected included, any list of operations leads to
      a whole file, step by step as each says; and then recovery finds the index in the pages alone. */
  method Life(gc: Collector, h: Header, ops: seq<Op>, live: set<nat>, places: seq<Pos>, ghost l: Log)
    returns (places': seq<Pos>, ghost l': Log, r: Header, ghost states: seq<FileState>)
    requires Whole(gc, h, places, l)
    modifies gc`slots, gc`tail, gc.area, h
    ensures Whole(gc, h, places', l') && fresh(r) && r.tree == h.tree
    ensures Turns(ops, live, states) && states[0] == old(StateOf(gc, h)) && states[|ops|] == StateOf(gc, h)
  {
    hide Whole, Legal, Turn, Effect;
    places', l', states := places, l, [StateOf(gc, h)];
    for i := 0 to |ops|
      invariant Whole(gc, h, places', l') && Turns(ops[..i], live, states)
      invariant states[0] == old(StateOf(gc, h)) && states[i] == StateOf(gc, h)
    {
      ghost var s := StateOf(gc, h);
      if Legal(ops[i], h.log, h.used, gc.area.pages) {
        places', l' := Perform(gc, h, ops[i], live, places', l');
      }
      TurnTaken(ops[i], live, gc, h, s);
      NextTurn(ops, i, live, states, StateOf(gc, h));
      states := states + [StateOf(gc, h)];
    }
    assert ops[..|ops|] == ops;
    r := Recover(gc, h, places', l');
  }

  lemma TurnTaken(op: Op, live: set<nat>, gc: Collector, h: Header, s: FileState)
    requires if Legal(op, s.log, s.used, s.pages) then Effect(op, live, s, StateOf(gc, h)) else StateOf(gc, h) == s
    ensures Turn(op, live, s, StateOf(gc, h))
  {
  }

  /** The log is walked and replayed after a crash. */
  method Recover(gc: Collector, ghost h: Header, places: seq<Pos>, ghost l: Log) returns (r: Header)
    requires Whole(gc, h, places, l)
    ensures fresh(r) && r.tree == h.tree
  {
    hide EntryOk, ChainOk, CountersOk, SlotsOk, FileOk, FileBooks.BooksOk, Agrees, AttrsOk;
    ValidFile(h, l, gc.slots);
    r := RecoverFile(gc, l, h.tree);
  }

  // ---------------------------------------------------------------- superseded runs

  /** The entry that lies at this address. */
  predicate Leads(pages: Pages, p: Pos, rec: Rec) {
    p.page in pages && p.loc in pages[p.page].cells && pages[p.page].cells[p.loc] == Data(rec)
  }

  /** The list of superseded runs holds the addresses that their entries had in log l.  They still
      lead to these entries. */
  ghost predicate RunsLead(pages: Pages, l: Log, runs: seq<FileBooks.Run>)
    requires LogSized(l)
  {
    forall r :: r in runs && r.entry < |l.path| ==> Leads(pages, l.path[r.entry], l.recs[r.entry])
  }

  /** Every run is one of an entry on the tail page. */
  ghost predicate RunsAtTail(l: Log, runs: seq<FileBooks.Run>)
    requires LogSized(l)
  {
    forall r :: r in runs && r.entry < |l.path| ==> l.at[r.entry] == Rank(l, |l.path|)
  }

  /** An entry on the tail page stays where it is. */
  lemma TailEntryStays(pages: Pages, pages': Pages, l: Log, m: Log, i: nat)
    requires LogOk(pages, l) && LogOk(pages', m) && CollectedTo(l, m, Collectable(l)) && i < |l.path|
    requires l.at[i] == Rank(l, |l.path|)
    ensures Leads(pages', l.path[i], l.recs[i])
  {
    hide ChainOk, EntryOk;
    var k := Collectable(l);
    if i < k {
      BeforeIsBefore(pages, l, Rank(l, |l.path|), i);
    }
    var j := |m.path| - |l.path| + i;
    assert m.path[|m.path| - (|l.path| - k)..][i - k] == m.path[j];
    assert (Live(l.recs[..k]) + l.recs[k..])[j] == l.recs[i];
    EntryIsThere(pages', m, j);
  }

  /** An entry on an earlier page is gone with its page. */
  lemma EarlierEntryGoes(pages: Pages, pages': Pages, l: Log, i: nat)
    requires LogOk(pages, l) && i < |l.path| && l.at[i] != Rank(l, |l.path|)
    requires Rank(l, |l.path|) > 0 ==> forall k :: 0 <= k < Rank(l, |l.path|) ==> l.chain[k] !in pages'
    ensures !Leads(pages', l.path[i], l.recs[i])
  {
    hide ChainOk;
    EndsIncrease(pages, l, i + 1, |l.path|);
    assert EntryOk(pages, l, i);
  }

  /** Thorough collection leaves the list of superseded runs alone.  Afterwards its addresses are good
      if and only if every run in it is one of an entry on the tail page. */
  method ThoroughAndRuns(gc: Collector, ghost h: Header, blocks: seq<nat>, pool: seq<nat>, ghost l: Log)
    returns (ghost m: Log)
    requires LogOk(gc.area.pages, l) && CountersOk(gc.area.pages, l) && Stands(h, l, gc.slots)
    requires gc.head == l.chain[0] && gc.tail == At(l, |l.path|)
    requires blocks != [] && FreshPages(gc.area.pages, blocks + pool) && |l.path| <= |pool|
    modifies gc, gc.area
    ensures LogOk(gc.area.pages, m) && Thinner(l.recs, m.recs)
    ensures RunsLead(gc.area.pages, l, h.runs) <==> RunsAtTail(l, h.runs)
  {
    hide EntryOk, ChainOk, CountersOk, FileOk, SlotsOk, FileBooks.BooksOk, Agrees, AttrsOk, SameEntries, Thinner;
    hide CollectedTo, Header.Valid, RunsLead, RunsAtTail;
    ValidFile(h, l, gc.slots);
    ghost var pages := gc.area.pages;
    var collected;
    ghost var ref';
    collected, m, ref' := gc.ThoroughGC(blocks, pool, l, h.tree);
    RunsFollow(pages, gc.area.pages, l, m, h.runs);
  }

  lemma RunsFollow(pages: Pages, pages': Pages, l: Log, m: Log, runs: seq<FileBooks.Run>)
    requires LogOk(pages, l) && LogOk(pages', m) && CollectedTo(l, m, Collectable(l))
    requires Rank(l, |l.path|) > 0 ==> forall k :: 0 <= k < Rank(l, |l.path|) ==> l.chain[k] !in pages'
    ensures RunsLead(pages', l, runs) <==> RunsAtTail(l, runs)
  {
    hide ChainOk, EntryOk, CollectedTo, Leads;
    forall r | r in runs && r.entry < |l.path|
      ensures Leads(pages', l.path[r.entry], l.recs[r.entry]) <==> l.at[r.entry] == Rank(l, |l.path|)
    {
      if l.at[r.entry] == Rank(l, |l.path|) {
        TailEntryStays(pages, pages', l, m, r.entry);
      } else {
        EarlierEntryGoes(pages, pages', l, r.entry);
      }
    }
  }

  // A file of one page, written twice; each of the two entries is on a page of its own.

  const FIRST: Rec := Rec(Write(0, 1, 5, 0, 0, false), 64)
  const SECOND: Rec := Rec(Write(0, 1, 6, 0, 0, false), 64)

  const TWO_PAGES: Pages := map[
    1 := LogPage(map[0 := Data(FIRST), 64 := NextPage], 2, 1, 0), 2 := LogPage(map[0 := Data(SECOND)], 0, 1, 0)]
  const TWO_ENTRIES: Log := Log([1, 2], [Pos(1, 0), Pos(2, 0)], [0, 1], [FIRST, SECOND])

  /** The block of the first write waits to be freed. */
  const TWICE: FileBooks.Books := FileBooks.Books(
    [FIRST.e, SECOND.e], 2, map[0 := 1], {FileBooks.Run(0, 0, 1)}, {5, 6}, {}, [0, 0],
    map[5 := (0, 0), 6 := (1, 0)], [1, 0])

  lemma TallyOne(x: nat, rec: Rec, r: nat, dead: bool)
    ensures Tally([x], [rec], r, dead) == if x == r && (dead ==> FileBooks.Dead(rec.e)) then 1 else 0
  {
    assert [x][..0] == [] && [rec][..0] == [];
  }

  lemma TwiceIsLog()
    ensures LogOk(TWO_PAGES, TWO_ENTRIES) && CountersOk(TWO_PAGES, TWO_ENTRIES)
  {
    var l := TWO_ENTRIES;
    assert l.at == [0] + [1] && l.recs == [FIRST] + [SECOND];
    forall r: nat, dead: bool
      ensures Tally(l.at, l.recs, r, dead) == Tally([0], [FIRST], r, dead) + Tally([1], [SECOND], r, dead)
      ensures Tally([0], [FIRST], r, dead) == if r == 0 && !dead then 1 else 0
      ensures Tally([1], [SECOND], r, dead) == if r == 1 && !dead then 1 else 0
    {
      TallyConcat([0], [FIRST], [1], [SECOND], r, dead);
      TallyOne(0, FIRST, r, dead);
      TallyOne(1, SECOND, r, dead);
    }
    assert EntryOk(TWO_PAGES, l, 0) && EntryOk(TWO_PAGES, l, 1);
    assert LinkTo(TWO_PAGES, l.chain, 0) && LinkTo(TWO_PAGES, l.chain, 1);
    assert CounterOk(TWO_PAGES, l, 0) && CounterOk(TWO_PAGES, l, 1);
  }

  lemma TwiceIsBooks()
    ensures FileBooks.BooksOk(TWICE)
  {
    var b := TWICE;
    assert FileLog.Slots(b.tree, 0, 0, 1) == 0 && FileLog.Slots(b.tree, 1, 0, 1) == 1;
    assert FileBooks.EntryOk(b, 0) && FileBooks.EntryOk(b, 1);
    assert FileBooks.Owns(b, 0, 0) && FileBooks.Owns(b, 1, 0);
    assert FileBooks.RunOk(b, FileBooks.Run(0, 0, 1)) && FileBooks.Run(0, 0, 1).Has(0, 0);
    assert FileBooks.BlockOk(b, 5) && FileBooks.BlockOk(b, 6);
  }

  lemma TwiceAgrees()
    ensures Agrees(TWICE.tree, TWICE.log, 2)
  {
    forall p: nat
      ensures Slot(TWICE.tree, p) == Last(TWICE.log, 2, p)
    {
      assert Last(TWICE.log, 0, p) == -1;
    }
  }

  lemma TwiceIsFile()
    ensures Sound(TWICE, [FileBooks.Run(0, 0, 1)], -1, 4096)
  {
    hide FileBooks.BooksOk, Agrees;
    TwiceIsBooks();
    TwiceAgrees();
  }

  lemma TwiceStands(h: Header)
    requires h.Valid() && h.log == TWICE.log && h.tree == TWICE.tree
    ensures Stands(h, TWO_ENTRIES, map[0 := Pos(2, 0)])
  {
    hide Header.Valid;
    assert Entries(TWO_ENTRIES.recs) == TWICE.log;
  }

  /** Thorough collection frees the page on which the entry of the first write lies, and the list of
      superseded runs still holds its address. */
  method RunLosesItsEntry() returns (gc: Collector, ghost h: Header)
    ensures h.Valid() && h.runs == [FileBooks.Run(0, 0, 1)] && !RunsLead(gc.area.pages, TWO_ENTRIES, h.runs)
  {
    hide Sound, Header.Valid, LogOk, CountersOk, Stands, RunsLead, Thinner;
    TwiceIsLog();
    TwiceIsFile();
    h := new Header.Of(TWICE, [FileBooks.Run(0, 0, 1)], -1, 4096);
    SoundIsValid(h);
    TwiceStands(h);
    var area := new LogArea(TWO_PAGES);
    gc := new Collector(area, map[0 := Pos(2, 0)], 1, Pos(2, 64));
    ghost var m := ThoroughAndRuns(gc, h, [3], [4, 5], TWO_ENTRIES);
    assert FileBooks.Run(0, 0, 1) in h.runs && !RunsAtTail(TWO_ENTRIES, h.runs);
  }
}
