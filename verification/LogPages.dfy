/** Inode logs in persistent memory: chains of pages that hold entries of different sizes. */
module LogPages {
  import FileBooks
  import opened FileLog

  /** The part of a page that holds entries, and the smallest entry. */
  const LOG_BLOCK_TAIL: nat := 4064
  const MIN_ENTRY: nat := 32

  /** The address of an entry: its page and its offset in the page.  Page 0 does not exist. */
  datatype Pos = Pos(page: nat, loc: nat)

  /** An entry as it lies in the log. */
  datatype Rec = Rec(e: Entry, size: nat)

  /** What the type byte at an offset says; an offset without a cell holds type 0. */
  datatype Cell = Data(rec: Rec) | NextPage

  datatype LogPage = LogPage(cells: map<nat, Cell>, next: nat, num: nat, invalid: nat)

  type Pages = map<nat, LogPage>

  /** An empty page with a link. */
  function Blank(next: nat): LogPage {
    LogPage(map[], next, 0, 0)
  }

  /** The page that page k of a chain links to. */
  function NextOf(chain: seq<nat>, k: nat): nat
    requires k < |chain|
  {
    if k + 1 < |chain| then chain[k + 1] else 0
  }

  predicate IsLastEntry(p: Pos, size: nat) {
    p.loc + size > LOG_BLOCK_TAIL
  }

  /** goto_next_page: no entry fits here, or the writer left a mark. */
  predicate GotoNext(pages: Pages, p: Pos)
    requires p.page in pages
  {
    p.loc + MIN_ENTRY > LOG_BLOCK_TAIL || (p.loc in pages[p.page].cells && pages[p.page].cells[p.loc].NextPage?)
  }

  predicate LegalSize(size: nat) {
    MIN_ENTRY <= size <= LOG_BLOCK_TAIL
  }

  // ---------------------------------------------------------------- a log, as its writer knows it

  /** The pages of a log in the order of their links, the entries with their places, and for
      each entry the rank of its page.  Pages behind the last entry are reserved. */
  datatype Log = Log(chain: seq<nat>, path: seq<Pos>, at: seq<nat>, recs: seq<Rec>)

  predicate LogSized(l: Log) {
    match l
    case Log(chain, path, at, recs) =>
      && |chain| > 0 && |path| == |at| == |recs|
      && (forall i :: 0 <= i < |at| ==> at[i] < |chain|)
  }

  /** The rank of the page that holds the end of the first i entries. */
  function Rank(l: Log, i: nat): (r: nat)
    requires LogSized(l) && i <= |l.path|
    ensures r < |l.chain|
  {
    if i == 0 then 0 else l.at[i - 1]
  }

  /** The place behind the first i entries, where the walk looks next. */
  function At(l: Log, i: nat): Pos
    requires LogSized(l) && i <= |l.path|
  {
    if i == 0 then Pos(l.chain[0], 0) else Pos(l.path[i - 1].page, l.path[i - 1].loc + l.recs[i - 1].size)
  }

  predicate Distinct(chain: seq<nat>) {
    forall j, k :: 0 <= j < k < |chain| ==> chain[j] != chain[k]
  }

  lemma DistinctConcat(a: seq<nat>, b: seq<nat>)
    requires Distinct(a) && Distinct(b) && forall j, k :: 0 <= j < |a| && 0 <= k < |b| ==> a[j] != b[k]
    ensures Distinct(a + b)
  {
    forall j, k | 0 <= j < k < |a + b| ensures (a + b)[j] != (a + b)[k] {
      if j >= |a| {
        assert b[j - |a|] != b[k - |a|];
      }
    }
  }

  /** Page k of a chain links to page k + 1, and the last one to none. */
  predicate LinkTo(pages: Pages, chain: seq<nat>, k: nat) {
    k < |chain| && chain[k] in pages && pages[chain[k]].next == NextOf(chain, k)
  }

  ghost predicate ChainOk(pages: Pages, chain: seq<nat>) {
    && (forall k :: 0 <= k < |chain| ==> chain[k] != 0 && chain[k] in pages)
    && Distinct(chain)
    && (forall k :: 0 <= k < |chain| ==> LinkTo(pages, chain, k))
  }

  /** Entry i lies where its predecessor ends, or at the start of the next page if a reader at
      that place goes on to the next page. */
  ghost predicate EntryOk(pages: Pages, l: Log, i: nat)
    requires LogSized(l) && i < |l.path|
  {
    && l.path[i].page == l.chain[l.at[i]] && l.path[i].page in pages && Rank(l, i) <= l.at[i] <= Rank(l, i) + 1
    && LegalSize(l.recs[i].size) && !IsLastEntry(l.path[i], l.recs[i].size)
    && l.path[i].loc in pages[l.path[i].page].cells && pages[l.path[i].page].cells[l.path[i].loc] == Data(l.recs[i])
    && At(l, i).page in pages
    && (if l.at[i] == Rank(l, i) then l.path[i] == At(l, i) else GotoNext(pages, At(l, i)) && l.path[i].loc == 0)
  }

  ghost predicate LogOk(pages: Pages, l: Log) {
    match l
    case Log(chain, path, _, _) =>
      LogSized(l) && ChainOk(pages, chain) && forall i :: 0 <= i < |path| ==> EntryOk(pages, l, i)
  }

  /** Later ends lie further on. */
  lemma {:induction false} EndsIncrease(pages: Pages, l: Log, i: nat, j: nat)
    requires LogOk(pages, l) && i < j <= |l.path|
    ensures Rank(l, i) <= Rank(l, j)
    ensures l.at[i] <= Rank(l, j) && (l.at[i] == Rank(l, j) ==> l.path[i].loc < At(l, j).loc)
    ensures Rank(l, i) == Rank(l, j) ==> At(l, i).loc < At(l, j).loc
    decreases j
  {
    assert EntryOk(pages, l, j - 1);
    if i < j - 1 {
      EndsIncrease(pages, l, i, j - 1);
    }
  }

  /** The end of the first i entries lies on the page of its rank. */
  lemma EndIsOnItsPage(pages: Pages, l: Log, i: nat)
    requires LogOk(pages, l) && i <= |l.path|
    ensures At(l, i).page == l.chain[Rank(l, i)] && At(l, i).page in pages
  {
    if i > 0 {
      assert EntryOk(pages, l, i - 1);
    }
  }

  /** So no two ends are the same address. */
  lemma EndsDiffer(pages: Pages, l: Log, i: nat, j: nat)
    requires LogOk(pages, l) && i < j <= |l.path|
    ensures At(l, i) != At(l, j)
  {
    EndsIncrease(pages, l, i, j);
    EndIsOnItsPage(pages, l, i);
    EndIsOnItsPage(pages, l, j);
  }

  /** Nothing before the end of the log has been touched. */
  ghost predicate SameBefore(pages: Pages, pages': Pages, l: Log)
    requires LogSized(l)
  {
    var r, end := Rank(l, |l.path|), At(l, |l.path|);
    && (forall k :: 0 <= k <= r && l.chain[k] in pages ==> l.chain[k] in pages')
    && (forall k :: 0 <= k < r && l.chain[k] in pages ==> pages'[l.chain[k]].cells == pages[l.chain[k]].cells)
    && (l.chain[r] in pages ==> forall o :: 0 <= o < end.loc ==> SameCell(pages[l.chain[r]], pages'[l.chain[r]], o))
  }

  predicate SameCell(p: LogPage, q: LogPage, o: nat) {
    (o in p.cells <==> o in q.cells) && (o in p.cells ==> p.cells[o] == q.cells[o])
  }

  lemma EntryFrame(pages: Pages, pages': Pages, l: Log, l': Log, i: nat)
    requires LogOk(pages, l) && SameBefore(pages, pages', l) && i < |l.path|
    requires LogSized(l') && |l.path| <= |l'.path| && Rank(l, |l.path|) < |l'.chain|
    requires forall k :: 0 <= k <= Rank(l, |l.path|) ==> l'.chain[k] == l.chain[k]
    requires forall k :: 0 <= k < |l.path| ==> l'.path[k] == l.path[k] && l'.at[k] == l.at[k] && l'.recs[k] == l.recs[k]
    ensures EntryOk(pages', l', i)
  {
    assert EntryOk(pages, l, i);
    EndIsOnItsPage(pages, l, i);
    EndsIncrease(pages, l, i, |l.path|);
    assert Rank(l', i) == Rank(l, i) && At(l', i) == At(l, i);
    var r := Rank(l, |l.path|);
    if l.at[i] == r {
      assert SameCell(pages[l.chain[r]], pages'[l.chain[r]], l.path[i].loc);
    } else {
      assert pages'[l.chain[l.at[i]]].cells == pages[l.chain[l.at[i]]].cells;
    }
    if l.at[i] != Rank(l, i) {
      assert pages'[l.chain[Rank(l, i)]].cells == pages[l.chain[Rank(l, i)]].cells;
    }
  }

  // ---------------------------------------------------------------- the counters of the pages

  /** The entries on the page of rank r, or only the dead ones of them. */
  function Tally(at: seq<nat>, recs: seq<Rec>, r: nat, dead: bool): (t: nat)
    requires |at| == |recs|
  {
    if at == [] then 0
    else
      var n := |at| - 1;
      Tally(at[..n], recs[..n], r, dead) + if at[n] == r && (dead ==> FileBooks.Dead(recs[n].e)) then 1 else 0
  }

  lemma {:induction false} TallyConcat(at: seq<nat>, recs: seq<Rec>, at': seq<nat>, recs': seq<Rec>, r: nat, dead: bool)
    requires |at| == |recs| && |at'| == |recs'|
    ensures Tally(at + at', recs + recs', r, dead) == Tally(at, recs, r, dead) + Tally(at', recs', r, dead)
    decreases |at'|
  {
    if at' == [] {
      assert at + at' == at && recs + recs' == recs;
    } else {
      var n := |at'| - 1;
      assert (at + at')[..|at + at'| - 1] == at + at'[..n] && (recs + recs')[..|at + at'| - 1] == recs + recs'[..n];
      TallyConcat(at, recs, at'[..n], recs'[..n], r, dead);
    }
  }

  /** The ranks may have other names. */
  lemma {:induction false} TallySame(at: seq<nat>, at': seq<nat>, recs: seq<Rec>, r: nat, r': nat, dead: bool)
    requires |at| == |at'| == |recs| && forall i :: 0 <= i < |at| ==> (at[i] == r <==> at'[i] == r')
    ensures Tally(at, recs, r, dead) == Tally(at', recs, r', dead)
  {
    if at != [] {
      var n := |at| - 1;
      TallySame(at[..n], at'[..n], recs[..n], r, r', dead);
    }
  }

  lemma {:induction false} TallyNone(at: seq<nat>, recs: seq<Rec>, r: nat, dead: bool)
    requires |at| == |recs| && forall i :: 0 <= i < |at| ==> at[i] != r
    ensures Tally(at, recs, r, dead) == 0
  {
    if at != [] {
      var n := |at| - 1;
      TallyNone(at[..n], recs[..n], r, dead);
    }
  }

  lemma {:induction false} TallyUpdate(at: seq<nat>, recs: seq<Rec>, i: nat, rec: Rec, r: nat, dead: bool)
    requires |at| == |recs| && i < |recs|
    ensures Tally(at, recs[i := rec], r, dead) + (if at[i] == r && (dead ==> FileBooks.Dead(recs[i].e)) then 1 else 0)
      == Tally(at, recs, r, dead) + if at[i] == r && (dead ==> FileBooks.Dead(rec.e)) then 1 else 0
    decreases |at|
  {
    var n := |at| - 1;
    if i < n {
      TallyUpdate(at[..n], recs[..n], i, rec, r, dead);
      assert recs[i := rec][..n] == recs[..n][i := rec];
    } else {
      assert recs[i := rec][..n] == recs[..n];
    }
  }

  lemma {:induction false} TallyDead(at: seq<nat>, recs: seq<Rec>, r: nat)
    requires |at| == |recs|
    ensures Tally(at, recs, r, true) <= Tally(at, recs, r, false)
    ensures Tally(at, recs, r, true) == Tally(at, recs, r, false) ==>
      forall i :: 0 <= i < |at| && at[i] == r ==> FileBooks.Dead(recs[i].e)
  {
    if at != [] {
      var n := |at| - 1;
      TallyDead(at[..n], recs[..n], r);
      assert forall i :: 0 <= i < n ==> at[..n][i] == at[i] && recs[..n][i] == recs[i];
    }
  }

  /** num_entries counts every entry of the page, and maybe some that were never committed;
      invalid_entries counts no more than the dead ones. */
  predicate CounterOk(pages: Pages, l: Log, r: nat)
    requires LogSized(l) && r < |l.chain|
  {
    l.chain[r] in pages
    && Tally(l.at, l.recs, r, false) <= pages[l.chain[r]].num
         && pages[l.chain[r]].invalid <= Tally(l.at, l.recs, r, true)
  }

  ghost predicate CountersOk(pages: Pages, l: Log) {
    LogSized(l) && forall r :: 0 <= r < |l.chain| ==> CounterOk(pages, l, r)
  }

  /** So a page whose counters are equal holds dead entries only. */
  lemma EqualMeansDead(pages: Pages, l: Log, r: nat, i: nat)
    requires CountersOk(pages, l) && r < |l.chain| && l.chain[r] in pages
    requires pages[l.chain[r]].invalid == pages[l.chain[r]].num
    requires i < |l.path| && l.at[i] == r
    ensures FileBooks.Dead(l.recs[i].e)
  {
    assert CounterOk(pages, l, r);
    TallyDead(l.at, l.recs, r);
  }

  /** Cells and links do not matter to the counters. */
  lemma SameCounters(pages: Pages, pages': Pages, l: Log)
    requires CountersOk(pages, l)
    requires forall r :: 0 <= r < |l.chain| && l.chain[r] in pages ==>
      l.chain[r] in pages' && pages'[l.chain[r]].num == pages[l.chain[r]].num
        && pages'[l.chain[r]].invalid == pages[l.chain[r]].invalid
    ensures CountersOk(pages', l)
  {
    forall r | 0 <= r < |l.chain| ensures CounterOk(pages', l, r) { assert CounterOk(pages, l, r); }
  }

  // ---------------------------------------------------------------- appending

  /** The pages from, from[1], ... linked to a chain; they are empty. */
  function Linked(pages: Pages, spare: seq<nat>): Pages
    decreases |spare|
  {
    if spare == [] then pages
    else Linked(pages, spare[1..])[spare[0] := Blank(NextOf(spare, 0))]
  }

  predicate FreshPages(pages: Pages, spare: seq<nat>) {
    && (forall k :: 0 <= k < |spare| ==> spare[k] != 0 && spare[k] !in pages)
    && Distinct(spare)
  }

  lemma {:induction false} LinkedIs(pages: Pages, spare: seq<nat>)
    requires FreshPages(pages, spare)
    ensures forall q :: q in Linked(pages, spare) <==> q in pages || q in spare
    ensures forall q :: q in pages ==> Linked(pages, spare)[q] == pages[q]
    ensures forall k :: 0 <= k < |spare| ==> Linked(pages, spare)[spare[k]] == Blank(NextOf(spare, k))
    decreases |spare|
  {
    if spare != [] {
      var rest := spare[1..];
      assert forall k :: 0 <= k < |rest| ==> rest[k] == spare[k + 1];
      LinkedIs(pages, rest);
      forall q ensures q in spare <==> q == spare[0] || q in rest {
        if q in rest { var k :| 0 <= k < |rest| && rest[k] == q; assert spare[k + 1] == q; }
        if q in spare && q != spare[0] { var k :| 0 <= k < |spare| && spare[k] == q; assert rest[k - 1] == q; }
      }
      forall k | 0 < k < |spare|
        ensures Linked(pages, spare)[spare[k]] == Blank(NextOf(spare, k))
      {
        var j := k - 1;
        assert rest[j] == spare[k] && spare[k] != spare[0];
        assert Linked(pages, rest)[rest[j]] == Blank(NextOf(rest, j));
      }
    }
  }

  /** A mark at an offset, if it lies before the tail of the page. */
  function Flagged(pages: Pages, p: Pos): Pages
    requires p.page in pages
  {
    if p.loc >= LOG_BLOCK_TAIL then pages
    else pages[p.page := pages[p.page].(cells := pages[p.page].cells[p.loc := NextPage])]
  }

  /** The zero byte behind an entry that ends where the page's tail begins falls on the first
      byte of invalid_entries. */
  function Ended(invalid: nat, end: nat): nat {
    if end == LOG_BLOCK_TAIL then invalid / 256 * 256 else invalid
  }

  /** An entry is stored, counted, and ended with a zero byte. */
  function Stored(pages: Pages, p: Pos, rec: Rec): Pages
    requires p.page in pages
  {
    var page := pages[p.page];
    var kept := map o | o in page.cells && !(p.loc <= o <= p.loc + rec.size) :: page.cells[o];
    pages[p.page :=
      page.(cells := kept[p.loc := Data(rec)], num := page.num + 1, invalid := Ended(page.invalid, p.loc + rec.size))]
  }

  lemma FlagKeeps(pages: Pages, l: Log)
    requires LogOk(pages, l)
    ensures At(l, |l.path|).page in pages
    ensures LogOk(Flagged(pages, At(l, |l.path|)), l) && GotoNext(Flagged(pages, At(l, |l.path|)), At(l, |l.path|))
  {
    EndIsOnItsPage(pages, l, |l.path|);
    var pages' := Flagged(pages, At(l, |l.path|));
    forall k | 0 <= k < |l.chain| ensures LinkTo(pages', l.chain, k) { assert LinkTo(pages, l.chain, k); }
    forall i | 0 <= i < |l.path| ensures EntryOk(pages', l, i) { EntryFrame(pages, pages', l, l, i); }
  }

  /** The log with more reserved pages. */
  function Extended(l: Log, spare: seq<nat>): Log {
    l.(chain := l.chain + spare)
  }

  /** The pages after the chain has been extended behind page end. */
  function Joined(pages: Pages, end: nat, spare: seq<nat>): Pages
    requires end in pages && spare != []
  {
    pages[end := pages[end].(next := spare[0])]
  }

  lemma ChainAt(pages: Pages, chain: seq<nat>, k: nat)
    requires ChainOk(pages, chain) && k < |chain|
    ensures chain[k] != 0 && chain[k] in pages && LinkTo(pages, chain, k)
    ensures k < |chain| - 1 ==> chain[k] != chain[|chain| - 1]
  {
  }

  lemma SpareAt(pages: Pages, spare: seq<nat>, k: nat)
    requires FreshPages(pages, spare) && k < |spare|
    ensures spare[k] != 0 && spare[k] !in pages && spare[k] in Linked(pages, spare)
    ensures Linked(pages, spare)[spare[k]] == Blank(NextOf(spare, k))
  {
    LinkedIs(pages, spare);
  }

  lemma ExtendedLink(pages: Pages, chain: seq<nat>, spare: seq<nat>, k: nat)
    requires ChainOk(pages, chain) && |chain| > 0 && FreshPages(pages, spare) && spare != [] && k < |chain + spare|
    ensures chain[|chain| - 1] in Linked(pages, spare)
    ensures
      var pages', z := Joined(Linked(pages, spare), chain[|chain| - 1], spare), chain + spare;
      z[k] != 0 && z[k] in pages' && LinkTo(pages', z, k)
  {
    hide Linked, ChainOk, FreshPages;
    var n, z := |chain|, chain + spare;
    LinkedIs(pages, spare);
    ChainAt(pages, chain, n - 1);
    if k >= n {
      SpareAt(pages, spare, k - n);
      assert z[k] == spare[k - n];
    } else {
      ChainAt(pages, chain, k);
      assert z[k] == chain[k];
    }
  }

  lemma ExtendedChain(pages: Pages, chain: seq<nat>, spare: seq<nat>)
    requires ChainOk(pages, chain) && |chain| > 0 && FreshPages(pages, spare) && spare != []
    ensures chain[|chain| - 1] in Linked(pages, spare)
    ensures ChainOk(Joined(Linked(pages, spare), chain[|chain| - 1], spare), chain + spare)
  {
    hide Linked, LinkTo, Joined;
    LinkedIs(pages, spare);
    DistinctConcat(chain, spare);
    hide Distinct;
    var z := chain + spare;
    var pages' := Joined(Linked(pages, spare), chain[|chain| - 1], spare);
    forall k | 0 <= k < |z| ensures z[k] != 0 && z[k] in pages' && LinkTo(pages', z, k) {
      ExtendedLink(pages, chain, spare, k);
    }
  }

  lemma ExtendKeeps(pages: Pages, l: Log, spare: seq<nat>)
    requires LogOk(pages, l) && FreshPages(pages, spare) && spare != [] && Rank(l, |l.path|) == |l.chain| - 1
    ensures
      var end := At(l, |l.path|).page;
      end in Linked(pages, spare) && LogOk(Joined(Linked(pages, spare), end, spare), Extended(l, spare))
  {
    hide Distinct, EntryOk, Linked, At, Joined, ChainOk, FreshPages, SameBefore;
    EndIsOnItsPage(pages, l, |l.path|);
    ExtendedChain(pages, l.chain, spare);
    var end := At(l, |l.path|).page;
    var pages', l' := Joined(Linked(pages, spare), end, spare), Extended(l, spare);
    assert LogSized(l');
    ExtendedAlike(pages, l, spare);
    forall i | 0 <= i < |l.path| ensures EntryOk(pages', l', i) { EntryFrame(pages, pages', l, l', i); }
  }

  lemma ExtendedAlike(pages: Pages, l: Log, spare: seq<nat>)
    requires LogOk(pages, l) && FreshPages(pages, spare) && spare != [] && Rank(l, |l.path|) == |l.chain| - 1
    ensures
      var end := At(l, |l.path|).page;
      end in Linked(pages, spare) && SameBefore(pages, Joined(Linked(pages, spare), end, spare), l)
  {
    hide Linked, EntryOk, Distinct;
    EndIsOnItsPage(pages, l, |l.path|);
    LinkedIs(pages, spare);
  }

  lemma FlagKeepsCounters(pages: Pages, l: Log, p: Pos)
    requires CountersOk(pages, l) && p.page in pages
    ensures CountersOk(Flagged(pages, p), l)
  {
    SameCounters(pages, Flagged(pages, p), l);
  }

  /** New pages have no entries, and their counters are zero. */
  lemma ExtendKeepsCounters(pages: Pages, l: Log, spare: seq<nat>, end: nat)
    requires CountersOk(pages, l) && FreshPages(pages, spare) && spare != [] && end in pages
    ensures end in Linked(pages, spare) && CountersOk(Joined(Linked(pages, spare), end, spare), Extended(l, spare))
  {
    hide Linked, Tally;
    LinkedIs(pages, spare);
    var pages', l' := Joined(Linked(pages, spare), end, spare), Extended(l, spare);
    forall r | 0 <= r < |l'.chain| ensures CounterOk(pages', l', r) {
      if r < |l.chain| {
        assert CounterOk(pages, l, r);
      } else {
        TallyNone(l.at, l.recs, r, true);
        TallyNone(l.at, l.recs, r, false);
        assert l'.chain[r] == spare[r - |l.chain|];
      }
    }
  }

  /** Where the next entry goes: at the end, or at the start of the next page. */
  ghost predicate MayStore(pages: Pages, l: Log, p: Pos, size: nat)
    requires LogSized(l) && At(l, |l.path|).page in pages
  {
    var end, r := At(l, |l.path|), Rank(l, |l.path|);
    LegalSize(size) && if IsLastEntry(end, size)
      then GotoNext(pages, end) && r + 1 < |l.chain| && p == Pos(l.chain[r + 1], 0) else p == end
  }

  function Appended(l: Log, p: Pos, rec: Rec): Log
    requires LogSized(l) && |l.path| <= |l.at|
  {
    var r := Rank(l, |l.path|);
    l.(path := l.path + [p], recs := l.recs + [rec],
       at := l.at + [if IsLastEntry(At(l, |l.path|), rec.size) && r + 1 < |l.chain| then r + 1 else r])
  }

  lemma StoredNew(pages: Pages, l: Log, p: Pos, rec: Rec)
    requires LogOk(pages, l) && At(l, |l.path|).page in pages && MayStore(pages, l, p, rec.size)
    ensures p.page in pages && LogSized(Appended(l, p, rec))
    ensures EntryOk(Stored(pages, p, rec), Appended(l, p, rec), |l.path|)
  {
    var n := |l.path|;
    EndIsOnItsPage(pages, l, n);
    var l' := Appended(l, p, rec);
    assert Rank(l', n) == Rank(l, n) && At(l', n) == At(l, n);
  }

  lemma StoredBefore(pages: Pages, l: Log, p: Pos, rec: Rec)
    requires LogOk(pages, l) && At(l, |l.path|).page in pages && MayStore(pages, l, p, rec.size)
    ensures p.page in pages && SameBefore(pages, Stored(pages, p, rec), l)
    ensures ChainOk(Stored(pages, p, rec), l.chain)
  {
    EndIsOnItsPage(pages, l, |l.path|);
    var pages' := Stored(pages, p, rec);
    forall k | 0 <= k < |l.chain| ensures LinkTo(pages', l.chain, k) { assert LinkTo(pages, l.chain, k); }
  }

  lemma StoreKeeps(pages: Pages, l: Log, p: Pos, rec: Rec)
    requires LogOk(pages, l) && At(l, |l.path|).page in pages && MayStore(pages, l, p, rec.size)
    ensures p.page in pages && LogOk(Stored(pages, p, rec), Appended(l, p, rec))
  {
    StoredNew(pages, l, p, rec);
    StoredBefore(pages, l, p, rec);
    var pages', l' := Stored(pages, p, rec), Appended(l, p, rec);
    assert forall i :: 0 <= i < |l.path| ==> l'.path[i] == l.path[i] && l'.at[i] == l.at[i] && l'.recs[i] == l.recs[i];
    hide EntryOk, ChainOk, SameBefore, Stored, MayStore;
    forall i | 0 <= i < |l'.path| ensures EntryOk(pages', l', i) {
      if i < |l.path| {
        EntryFrame(pages, pages', l, l', i);
      }
    }
  }

  /** The new entry is counted on its page; the others keep their counters, or invalid_entries
      gets less. */
  lemma StoreKeepsCounters(pages: Pages, l: Log, p: Pos, rec: Rec)
    requires LogOk(pages, l) && At(l, |l.path|).page in pages && MayStore(pages, l, p, rec.size) && CountersOk(pages, l)
    ensures p.page in pages && CountersOk(Stored(pages, p, rec), Appended(l, p, rec))
  {
    hide EntryOk, Tally;
    StoredNew(pages, l, p, rec);
    EndIsOnItsPage(pages, l, |l.path|);
    var pages', l' := Stored(pages, p, rec), Appended(l, p, rec);
    var x := l'.at[|l.at|];
    assert l'.at == l.at + [x] && p.page == l.chain[x];
    forall r | 0 <= r < |l'.chain| ensures CounterOk(pages', l', r) {
      assert CounterOk(pages, l, r);
      TallyOneMore(l.at, l.recs, x, rec, r, true);
      TallyOneMore(l.at, l.recs, x, rec, r, false);
      assert r != x ==> l.chain[r] != l.chain[x];
      hide FileBooks.Dead;
    }
  }

  lemma TallyOneMore(at: seq<nat>, recs: seq<Rec>, x: nat, rec: Rec, r: nat, dead: bool)
    requires |at| == |recs|
    ensures Tally(at + [x], recs + [rec], r, dead) == Tally(at, recs, r, dead) + if x == r
            && (dead ==> FileBooks.Dead(rec.e)) then 1 else 0
  {
    assert (at + [x])[..|at|] == at && (recs + [rec])[..|at|] == recs;
  }

  /** The log without the entries from c on, as after a failed operation or a crash. */
  function Prefix(l: Log, c: nat): Log
    requires LogSized(l) && c <= |l.path|
  {
    l.(path := l.path[..c], at := l.at[..c], recs := l.recs[..c])
  }

  lemma PrefixKeeps(pages: Pages, l: Log, c: nat)
    requires LogOk(pages, l) && c <= |l.path|
    ensures LogSized(Prefix(l, c)) && LogOk(pages, Prefix(l, c)) && At(Prefix(l, c), c) == At(l, c)
  {
    var p := Prefix(l, c);
    forall i | 0 <= i < c ensures EntryOk(pages, p, i) {
      assert EntryOk(pages, l, i);
      assert Rank(p, i) == Rank(l, i) && At(p, i) == At(l, i);
    }
  }

  /** Entries that were never committed stay counted in num_entries; none of them is dead. */
  lemma PrefixKeepsCounters(pages: Pages, l: Log, c: nat)
    requires CountersOk(pages, l) && c <= |l.path| && forall i :: c <= i < |l.path| ==> !FileBooks.Dead(l.recs[i].e)
    ensures CountersOk(pages, Prefix(l, c))
  {
    forall r | 0 <= r < |l.chain| ensures CounterOk(pages, Prefix(l, c), r) {
      assert CounterOk(pages, l, r);
      assert l.at == l.at[..c] + l.at[c..] && l.recs == l.recs[..c] + l.recs[c..];
      TallyConcat(l.at[..c], l.recs[..c], l.at[c..], l.recs[c..], r, true);
      TallyConcat(l.at[..c], l.recs[..c], l.at[c..], l.recs[c..], r, false);
      NoneDead(l.at[c..], l.recs[c..], r);
    }
  }

  lemma {:induction false} NoneDead(at: seq<nat>, recs: seq<Rec>, r: nat)
    requires |at| == |recs| && forall i :: 0 <= i < |recs| ==> !FileBooks.Dead(recs[i].e)
    ensures Tally(at, recs, r, true) == 0
  {
    if at != [] {
      NoneDead(at[..|at| - 1], recs[..|at| - 1], r);
    }
  }

  // ---------------------------------------------------------------- invalidating

  /** What nova_execute_invalidate_reassign_logentry makes of an entry. */
  function Superseded(e: Entry, reassign: bool, numFree: nat): Entry {
    match e
    case Write(_, _, _, _, invalidPages, reassigned) =>
      e.(reassigned := reassigned || reassign, invalidPages := invalidPages + numFree)
    case SetAttr(_, _, _, _) => e.(invalid := true)
    case Other(_) => Other(true)
  }

  /** An entry changes in place, and is counted as invalid if it is dead now. */
  function Changed(pages: Pages, p: Pos, rec: Rec): Pages
    requires p.page in pages
  {
    var page := pages[p.page];
    var dead := if FileBooks.Dead(rec.e) then 1 else 0;
    pages[p.page := page.(cells := page.cells[p.loc := Data(rec)], invalid := page.invalid + dead)]
  }

  function ChangedLog(l: Log, i: nat, e: Entry): Log
    requires i < |l.recs|
  {
    l.(recs := l.recs[i := l.recs[i].(e := e)])
  }

  ghost predicate MayBecome(l: Log, es: seq<Entry>) {
    |es| == |l.recs| && forall i :: 0 <= i < |es| ==> es[i] == l.recs[i].e || !FileBooks.Dead(l.recs[i].e)
  }

  function WithEntries(l: Log, es: seq<Entry>): Log
    requires |es| == |l.recs|
  {
    l.(recs := seq(|es|, i requires 0 <= i < |es| => l.recs[i].(e := es[i])))
  }

  /** The first n entries have changed. */
  ghost predicate SoFar(l: Log, z: Log, es: seq<Entry>, n: nat) {
    && z == l.(recs := z.recs) && |z.recs| == |l.recs| == |es| && n <= |es|
    && forall i :: 0 <= i < |es| ==> z.recs[i] == if i < n then l.recs[i].(e := es[i]) else l.recs[i]
  }

  /** Entries lie at different places. */
  lemma PlacesDiffer(pages: Pages, l: Log, i: nat, j: nat)
    requires LogOk(pages, l) && i < j < |l.path|
    ensures l.path[i] != l.path[j]
  {
    assert EntryOk(pages, l, i) && EntryOk(pages, l, j);
    EndsIncrease(pages, l, i, j);
  }

  /** A reader that goes on to the next page does so at no entry. */
  lemma MarksAreNoEntries(pages: Pages, l: Log, i: nat, j: nat)
    requires LogOk(pages, l) && i < |l.path| && j < |l.path| && l.at[j] != Rank(l, j)
    ensures l.path[i] != At(l, j)
  {
    EndIsOnItsPage(pages, l, j);
    assert EntryOk(pages, l, i) && EntryOk(pages, l, j);
    if i < j {
      EndsIncrease(pages, l, i, j);
    } else {
      EndsIncrease(pages, l, j, i + 1);
    }
  }

  lemma ChangeKeepsEntry(pages: Pages, l: Log, i: nat, e: Entry, j: nat)
    requires LogOk(pages, l) && i < |l.path| && j < |l.path| && l.path[i].page in pages
    ensures EntryOk(Changed(pages, l.path[i], l.recs[i].(e := e)), ChangedLog(l, i, e), j)
  {
    var pages', l' := Changed(pages, l.path[i], l.recs[i].(e := e)), ChangedLog(l, i, e);
    assert EntryOk(pages, l, j);
    assert Rank(l', j) == Rank(l, j) && At(l', j) == At(l, j);
    if i < j { PlacesDiffer(pages, l, i, j); }
    if j < i { PlacesDiffer(pages, l, j, i); }
    if l.at[j] != Rank(l, j) { MarksAreNoEntries(pages, l, i, j); }
  }

  lemma ChangeKeeps(pages: Pages, l: Log, i: nat, e: Entry)
    requires LogOk(pages, l) && i < |l.path|
    ensures l.path[i].page in pages && LogOk(Changed(pages, l.path[i], l.recs[i].(e := e)), ChangedLog(l, i, e))
  {
    hide EntryOk, Distinct, FileBooks.Dead;
    EntryIsThere(pages, l, i);
    var pages', l' := Changed(pages, l.path[i], l.recs[i].(e := e)), ChangedLog(l, i, e);
    forall k | 0 <= k < |l.chain|
      ensures l.chain[k] in pages' && LinkTo(pages', l.chain, k)
    {
      assert LinkTo(pages, l.chain, k);
    }
    forall j | 0 <= j < |l.path| ensures EntryOk(pages', l', j) { ChangeKeepsEntry(pages, l, i, e, j); }
  }

  lemma EntryIsThere(pages: Pages, l: Log, i: nat)
    requires LogOk(pages, l) && i < |l.path|
    ensures l.path[i].page in pages && l.path[i].page == l.chain[l.at[i]]
    ensures l.path[i].loc in pages[l.path[i].page].cells
    ensures pages[l.path[i].page].cells[l.path[i].loc] == Data(l.recs[i])
  {
    assert EntryOk(pages, l, i);
  }

  /** A live entry that dies is counted once more; one that stays alive is not counted. */
  lemma ChangeKeepsCounters(pages: Pages, l: Log, i: nat, e: Entry)
    requires LogOk(pages, l) && i < |l.path| && CountersOk(pages, l) && !FileBooks.Dead(l.recs[i].e)
    ensures l.path[i].page in pages && CountersOk(Changed(pages, l.path[i], l.recs[i].(e := e)), ChangedLog(l, i, e))
  {
    hide EntryOk, Tally, FileBooks.Dead;
    EntryIsThere(pages, l, i);
    var rec := l.recs[i].(e := e);
    forall r | 0 <= r < |l.chain| ensures CounterOk(Changed(pages, l.path[i], rec), ChangedLog(l, i, e), r) {
      assert CounterOk(pages, l, r);
      TallyUpdate(l.at, l.recs, i, rec, r, true);
      TallyUpdate(l.at, l.recs, i, rec, r, false);
      assert r != l.at[i] ==> l.chain[r] != l.chain[l.at[i]];
    }
  }

  /** The end page has a successor exactly if the chain goes on. */
  lemma EndHasNext(pages: Pages, l: Log)
    requires LogOk(pages, l)
    ensures var end := At(l, |l.path|).page; end in pages && pages[end].next == NextOf(l.chain, Rank(l, |l.path|))
    ensures NextOf(l.chain, Rank(l, |l.path|)) == 0 <==> Rank(l, |l.path|) == |l.chain| - 1
  {
    EndIsOnItsPage(pages, l, |l.path|);
    assert LinkTo(pages, l.chain, Rank(l, |l.path|));
  }

  /** Pages that do not belong to the log are left alone. */
  ghost predicate OnlyChain(pages: Pages, pages': Pages, chain: seq<nat>) {
    forall q :: q in pages && q !in chain ==> q in pages' && pages'[q] == pages[q]
  }

  /** The counters of a page; one that is not there has not counted anything. */
  function NumOf(pages: Pages, q: nat): nat {
    if q in pages then pages[q].num else 0
  }

  function InvalidOf(pages: Pages, q: nat): nat {
    if q in pages then pages[q].invalid else 0
  }

  ghost predicate CountsKept(pages: Pages, pages': Pages) {
    forall q :: NumOf(pages', q) == NumOf(pages, q) && InvalidOf(pages', q) == InvalidOf(pages, q)
  }

  /** There is no room behind the log for an entry of this size, and no next page. */
  predicate LogIsFull(l: Log, size: nat)
    requires LogSized(l)
  {
    IsLastEntry(At(l, |l.path|), size) && Rank(l, |l.path|) == |l.chain| - 1
  }

  lemma FlagAndLinkCount(pages: Pages, p: Pos, spare: seq<nat>)
    requires p.page in pages && FreshPages(Flagged(pages, p), spare)
    ensures CountsKept(pages, Flagged(pages, p))
    ensures p.page in Linked(Flagged(pages, p), spare) && CountsKept(pages, Linked(Flagged(pages, p), spare))
    ensures spare != [] ==> CountsKept(pages, Joined(Linked(Flagged(pages, p), spare), p.page, spare))
  {
    LinkedIs(Flagged(pages, p), spare);
    var z := Linked(Flagged(pages, p), spare);
    forall q ensures NumOf(z, q) == NumOf(pages, q) && InvalidOf(z, q) == InvalidOf(pages, q) {
      if q in spare {
        var k :| 0 <= k < |spare| && spare[k] == q;
      }
    }
  }

  lemma CountedAlike(pages: Pages, pages': Pages, pages'': Pages)
    ensures CountsKept(pages, pages)
    ensures CountsKept(pages, pages') && CountsKept(pages', pages'') ==> CountsKept(pages, pages'')
  {
  }

  /** The entry that has been stored at p is counted on its page, and nothing else is; but if it ends where the
      tail of the page begins, a zero is written to the first byte of invalid_entries. */
  ghost predicate Counted(pages: Pages, pages': Pages, p: Pos, size: nat) {
    forall q ::
      && NumOf(pages', q) == NumOf(pages, q) + (if q == p.page then 1 else 0)
      && InvalidOf(pages', q) == if q == p.page then Ended(InvalidOf(pages, q), p.loc + size) else InvalidOf(pages, q)
  }

  lemma StoredIsCounted(pages: Pages, now: Pages, p: Pos, rec: Rec)
    requires CountsKept(pages, now) && p.page in now
    ensures Counted(pages, Stored(now, p, rec), p, rec.size)
  {
  }

  /** How many of the first n entries lie on page q and are dead in es but were not before. */
  function NewlyDead(l: Log, es: seq<Entry>, q: nat, n: nat): nat
    requires LogSized(l) && n <= |es| == |l.recs|
  {
    if n == 0 then 0 else
    NewlyDead(l, es, q, n - 1) +
    if l.path[n - 1].page == q && FileBooks.Dead(es[n - 1]) && !FileBooks.Dead(l.recs[n - 1].e) then 1 else 0
  }

  class LogArea {
    var pages: Pages

    constructor (pages: Pages)
      ensures this.pages == pages
    {
      this.pages := pages;
    }

    method SetNextPageFlag(p: Pos)
      requires p.page in pages
      modifies this
      ensures pages == Flagged(old(pages), p)
    {
      if p.loc < LOG_BLOCK_TAIL {
        pages := pages[p.page := pages[p.page].(cells := pages[p.page].cells[p.loc := NextPage])];
      }
    }

    /** nova_extend_inode_log, for a log that exists: the granted pages are linked behind the
        page of curr.  No pages means that the allocator has failed. */
    method ExtendInodeLog(curr: nat, spare: seq<nat>) returns (ok: bool)
      requires curr in pages && FreshPages(pages, spare)
      modifies this
      ensures ok <==> spare != []
      ensures ok ==> curr in Linked(old(pages), spare) && pages == Joined(Linked(old(pages), spare), curr, spare)
      ensures !ok ==> pages == old(pages)
    {
      if spare == [] {
        return false;
      }
      LinkedIs(pages, spare);
      pages := Linked(pages, spare);
      pages := pages[curr := pages[curr].(next := spare[0])];
      ok := true;
    }

    /** The log has no page left: its end is marked, and more pages are linked behind it. */
    method MakeRoom(tail: Pos, spare: seq<nat>, ghost l: Log) returns (ok: bool, ghost l': Log)
      requires LogOk(pages, l) && tail == At(l, |l.path|) && FreshPages(pages, spare)
      requires Rank(l, |l.path|) == |l.chain| - 1
      modifies this
      ensures ok <==> spare != []
      ensures l' == (if ok then Extended(l, spare) else l) && LogOk(pages, l')
      ensures At(l', |l.path|) == tail && Rank(l', |l.path|) == Rank(l, |l.path|)
      ensures tail.page in pages && GotoNext(pages, tail)
      ensures OnlyChain(old(pages), pages, l.chain)
      ensures forall q :: q in pages ==> q in old(pages) || q in l'.chain
      ensures old(CountersOk(pages, l)) ==> CountersOk(pages, l')
      ensures CountsKept(old(pages), pages)
    {
      hide EntryOk, Distinct, Linked, CountersOk, CountsKept;
      FlagKeeps(pages, l);
      EndIsOnItsPage(pages, l, |l.path|);
      if CountersOk(pages, l) { FlagKeepsCounters(pages, l, tail); }
      FlagAndLinkCount(pages, tail, spare);
      SetNextPageFlag(tail);
      LinkedIs(pages, spare);
      ExtendKeepsIf(pages, l, spare);
      if CountersOk(pages, l) && spare != [] { ExtendKeepsCounters(pages, l, spare, tail.page); }
      ok := ExtendInodeLog(tail.page, spare);
      l' := if ok then Extended(l, spare) else l;
    }

    /** nova_get_append_head: where an entry of the given size goes. */
    method GetAppendHead(tail: Pos, size: nat, spare: seq<nat>, thoroughGc: bool, ghost l: Log)
      returns (ok: bool, p: Pos, ghost l': Log)
      requires LogOk(pages, l) && tail == At(l, |l.path|) && LegalSize(size) && FreshPages(pages, spare)
      modifies this
      ensures ok <==> spare != [] || !LogIsFull(l, size)
      ensures l' == if LogIsFull(l, size) && ok then Extended(l, spare) else l
      ensures LogOk(pages, l') && At(l', |l.path|) == tail && CountsKept(old(pages), pages)
      ensures tail.page in pages && (ok ==> MayStore(pages, l', p, size))
      ensures OnlyChain(old(pages), pages, l.chain)
      ensures forall q :: q in pages ==> q in old(pages) || q in l'.chain
      ensures old(CountersOk(pages, l)) ==> CountersOk(pages, l')
    {
      hide EntryOk, Distinct, Linked, CountersOk, CountsKept;
      l', p, ok := l, tail, true;
      CountedAlike(pages, pages, pages);
      EndHasNext(pages, l);
      EndIsOnItsPage(pages, l, |l.path|);
      if IsLastEntry(tail, size) && pages[tail.page].next == 0 {
        ok, l' := MakeRoom(tail, spare, l);
        assert LogIsFull(l, size);
        if !ok {
          return;
        }
        EndHasNext(pages, l');
        if !thoroughGc {
          p := Pos(spare[0], 0);
        }
      }
      if IsLastEntry(p, size) {
        FlagKeeps(pages, l');
        if CountersOk(pages, l') { FlagKeepsCounters(pages, l', p); }
        FlagAndLinkCount(pages, p, []);
        CountedAlike(old(pages), pages, Flagged(pages, p));
        SetNextPageFlag(p);
        EndHasNext(pages, l');
        p := Pos(pages[p.page].next, 0);
      }
    }

    /** nova_append_log_entry: the entry is stored behind tail, and counted on its page. */
    method AppendLogEntry(tail: Pos, rec: Rec, spare: seq<nat>, thoroughGc: bool, ghost l: Log)
      returns (ok: bool, p: Pos, ghost l': Log)
      requires LogOk(pages, l) && tail == At(l, |l.path|) && LegalSize(rec.size) && FreshPages(pages, spare)
      modifies this
      ensures LogOk(pages, l')
      ensures ok <==> spare != [] || !LogIsFull(l, rec.size)
      ensures l'.chain == if LogIsFull(l, rec.size) && ok then l.chain + spare else l.chain
      ensures if ok then l'.recs == l.recs + [rec] && l'.path == l.path + [p]
              && At(l', |l'.path|) == Pos(p.page, p.loc + rec.size)
              else l' == l
      ensures ok ==> p == if IsLastEntry(tail, rec.size) then Pos(l'.chain[Rank(l', |l'.path|)], 0) else tail
      ensures ok ==> Counted(old(pages), pages, p, rec.size)
      ensures !ok ==> CountsKept(old(pages), pages)
      ensures OnlyChain(old(pages), pages, l.chain)
      ensures forall q :: q in pages ==> q in old(pages) || q in l'.chain
      ensures old(CountersOk(pages, l)) ==> CountersOk(pages, l')
    {
      hide EntryOk, Distinct, Linked, CountersOk, CountsKept, Counted;
      ok, p, l' := GetAppendHead(tail, rec.size, spare, thoroughGc, l);
      if ok {
        StoreKeeps(pages, l', p, rec);
        PlaceIsMine(pages, l', p, rec.size, l.chain, old(pages), spare);
        if CountersOk(pages, l') { StoreKeepsCounters(pages, l', p, rec); }
        StoredIsCounted(old(pages), pages, p, rec);
        pages := Stored(pages, p, rec);
        l' := Appended(l', p, rec);
      }
    }

    /** The first operation after a crash, or after one that failed: the entries behind the
        committed tail are overwritten, as if they had never been there. */
    method AppendAfterCrash(tail: Pos, rec: Rec, spare: seq<nat>, ghost l: Log, ghost c: nat)
      returns (ok: bool, p: Pos, ghost l': Log)
      requires LogOk(pages, l) && c <= |l.path| && tail == At(l, c) && LegalSize(rec.size) && FreshPages(pages, spare)
      modifies this
      ensures LogOk(pages, l') && l'.recs == if ok then l.recs[..c] + [rec] else l.recs[..c]
      ensures LogSized(Prefix(l, c)) && (ok <==> spare != [] || !LogIsFull(Prefix(l, c), rec.size))
      ensures ok ==> l'.path == l.path[..c] + [p]
      ensures ok ==> p == if IsLastEntry(tail, rec.size) then Pos(l'.chain[Rank(l', |l'.path|)], 0) else tail
      ensures old(CountersOk(pages, l)) && (forall i :: c <= i < |l.path| ==> !FileBooks.Dead(l.recs[i].e)) ==>
              CountersOk(pages, l')
    {
      hide EntryOk, Distinct, CountersOk;
      PrefixKeeps(pages, l, c);
      if CountersOk(pages, l) && (forall i :: c <= i < |l.path| ==> !FileBooks.Dead(l.recs[i].e)) {
        PrefixKeepsCounters(pages, l, c);
      }
      ok, p, l' := AppendLogEntry(tail, rec, spare, false, Prefix(l, c));
    }

    /** nova_execute_invalidate_reassign_logentry, for an entry that has not been counted as
        invalid before: it is superseded in part or as a whole, and counted in the latter case. */
    method InvalidateReassign(p: Pos, reassign: bool, numFree: nat, ghost l: Log, ghost i: nat) returns (ghost l': Log)
      requires LogOk(pages, l) && i < |l.path| && p == l.path[i] && !FileBooks.Dead(l.recs[i].e)
      modifies this
      ensures LogOk(pages, l') && l' == ChangedLog(l, i, Superseded(l.recs[i].e, reassign, numFree))
      ensures old(CountersOk(pages, l)) ==> CountersOk(pages, l')
      ensures pages.Keys == old(pages).Keys && p.page in old(pages)
      ensures pages[p.page].invalid == old(pages)[p.page].invalid + if FileBooks.Dead(l'.recs[i].e) then 1 else 0
    {
      hide EntryOk, Distinct, CountersOk;
      EntryIsThere(pages, l, i);
      var rec := pages[p.page].cells[p.loc].rec;
      var e := Superseded(rec.e, reassign, numFree);
      ChangeKeeps(pages, l, i, e);
      if CountersOk(pages, l) { ChangeKeepsCounters(pages, l, i, e); }
      l' := ChangedLog(l, i, e);
      var page := pages[p.page];
      page := page.(cells := page.cells[p.loc := Data(rec.(e := e))]);
      if FileBooks.Dead(e) {
        page := page.(invalid := page.invalid + 1);
      }
      pages := pages[p.page := page];
    }

    /** What the operations of a file have done to entries that lie on the pages: an entry that was not
        dead yet may change, and is counted as invalid if it is dead then. */
    method StoreChanges(places: seq<Pos>, es: seq<Entry>, ghost l: Log) returns (ghost l': Log)
      requires LogOk(pages, l) && places == l.path && MayBecome(l, es)
      modifies this
      ensures LogOk(pages, l') && l' == WithEntries(l, es) && pages.Keys == old(pages).Keys
      ensures forall q :: q in pages ==>
                && pages[q].num == old(pages)[q].num
                && pages[q].invalid == old(pages)[q].invalid + NewlyDead(l, es, q, |es|)
      ensures old(CountersOk(pages, l)) ==> CountersOk(pages, l')
    {
      hide EntryOk, Distinct, CountersOk, FileBooks.Dead;
      l' := l;
      assert |l.path| == |l.recs|;
      for i := 0 to |es|
        invariant LogOk(pages, l') && SoFar(l, l', es, i) && pages.Keys == old(pages).Keys
        invariant forall q :: q in pages ==>
                    && pages[q].num == old(pages)[q].num
                    && pages[q].invalid == old(pages)[q].invalid + NewlyDead(l, es, q, i)
        invariant old(CountersOk(pages, l)) ==> CountersOk(pages, l')
      {
        EntryIsThere(pages, l', i);
        var p := places[i];
        var rec := pages[p.page].cells[p.loc].rec;
        if rec.e != es[i] {
          l' := InvalidateAs(p, es[i], l', i);
        }
      }
    }

    /** Entry i becomes e in place. */
    method InvalidateAs(p: Pos, e: Entry, ghost l: Log, ghost i: nat) returns (ghost l': Log)
      requires LogOk(pages, l) && i < |l.path| && p == l.path[i] && !FileBooks.Dead(l.recs[i].e)
      modifies this
      ensures LogOk(pages, l') && l' == ChangedLog(l, i, e) && pages.Keys == old(pages).Keys && p.page in pages
      ensures pages == Changed(old(pages), p, l.recs[i].(e := e))
      ensures old(CountersOk(pages, l)) ==> CountersOk(pages, l')
    {
      hide EntryOk, Distinct, CountersOk;
      EntryIsThere(pages, l, i);
      var rec := pages[p.page].cells[p.loc].rec;
      ChangeKeeps(pages, l, i, e);
      if CountersOk(pages, l) { ChangeKeepsCounters(pages, l, i, e); }
      l' := ChangedLog(l, i, e);
      pages := Changed(pages, p, rec.(e := e));
    }

    /** The walk of a reader from the head of the log to its committed tail, here the end of the
        first c entries: it meets exactly those, whatever lies behind them. */
    method Walk(head: Pos, tail: Pos, ghost l: Log, ghost c: nat) returns (recs: seq<Rec>)
      requires LogOk(pages, l) && c <= |l.path| && head == At(l, 0) && tail == At(l, c)
      ensures recs == l.recs[..c]
    {
      recs := [];
      var curr := head;
      while curr != tail
        invariant |recs| <= c && recs == l.recs[..|recs|] && curr == At(l, |recs|)
        decreases c - |recs|
      {
        assert |recs| < c;
        EndIsOnItsPage(pages, l, |recs|);
        assert EntryOk(pages, l, |recs|);
        if GotoNext(pages, curr) {
          curr := Pos(pages[curr.page].next, 0);
        }
        NextPlace(pages, l, |recs|);
        var rec := pages[curr.page].cells[curr.loc].rec;
        recs := recs + [rec];
        curr := Pos(curr.page, curr.loc + rec.size);
      }
      if |recs| < c {
        EndsDiffer(pages, l, |recs|, c);
      }
    }
  }

  /** A reader at the end of the first i entries finds the next one where the writer put it. */
  lemma NextPlace(pages: Pages, l: Log, i: nat)
    requires LogOk(pages, l) && i < |l.path|
    ensures At(l, i).page in pages && l.path[i].page in pages && l.path[i].loc in pages[l.path[i].page].cells
    ensures pages[l.path[i].page].cells[l.path[i].loc] == Data(l.recs[i])
    ensures l.path[i] == if GotoNext(pages, At(l, i)) then Pos(pages[At(l, i).page].next, 0) else At(l, i)
    ensures At(l, i + 1) == Pos(l.path[i].page, l.path[i].loc + l.recs[i].size)
  {
    assert EntryOk(pages, l, i);
    EndIsOnItsPage(pages, l, i);
    assert LinkTo(pages, l.chain, Rank(l, i));
  }

  /** The place of a new entry is on a page of the log. */
  lemma PlaceIsMine(pages: Pages, l: Log, p: Pos, size: nat, chain: seq<nat>, before: Pages, spare: seq<nat>)
    requires LogOk(pages, l) && At(l, |l.path|).page in pages && MayStore(pages, l, p, size)
    requires l.chain == chain || l.chain == chain + spare
    requires FreshPages(before, spare) && OnlyChain(before, pages, chain)
    ensures p.page in pages && p.page in l.chain
    ensures p.page in before ==> p.page in chain
  {
    EndIsOnItsPage(pages, l, |l.path|);
    var k :| 0 <= k < |l.chain| && l.chain[k] == p.page;
    if k >= |chain| {
      assert l.chain[k] == spare[k - |chain|];
    }
  }

  lemma ExtendKeepsIf(pages: Pages, l: Log, spare: seq<nat>)
    requires LogOk(pages, l) && FreshPages(pages, spare) && Rank(l, |l.path|) == |l.chain| - 1
    ensures spare != [] ==>
      var end := At(l, |l.path|).page;
      end in Linked(pages, spare) && LogOk(Joined(Linked(pages, spare), end, spare), Extended(l, spare))
  {
    if spare != [] {
      ExtendKeeps(pages, l, spare);
    }
  }
}
