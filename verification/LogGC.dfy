/** Garbage collection of inode logs. */
module LogGC {
  import FileBooks
  import opened FileIndex
  import opened FileLog
  import opened LogPages

  /** The entries that a collection keeps. */
  function Live(recs: seq<Rec>): (live: seq<Rec>)
    ensures |live| <= |recs|
  {
    if recs == [] then []
    else Live(recs[..|recs| - 1]) + if FileBooks.Dead(recs[|recs| - 1].e) then [] else [recs[|recs| - 1]]
  }

  lemma LiveStep(recs: seq<Rec>, i: nat)
    requires i < |recs|
    ensures Live(recs[..i + 1]) == Live(recs[..i]) + if FileBooks.Dead(recs[i].e) then [] else [recs[i]]
  {
    assert recs[..i + 1][..i] == recs[..i];
  }

  lemma {:induction false} LiveGrows(recs: seq<Rec>, i: nat, j: nat)
    requires i <= j <= |recs|
    ensures |Live(recs[..i])| <= |Live(recs[..j])|
    ensures i < j && !FileBooks.Dead(recs[i].e) ==>
            |Live(recs[..i])| < |Live(recs[..j])| && Live(recs[..j])[|Live(recs[..i])|] == recs[i]
    decreases j
  {
    if i < j {
      LiveStep(recs, j - 1);
      LiveGrows(recs, i, j - 1);
    }
  }

  // ---------------------------------------------------------------- what replay sees

  function Entries(recs: seq<Rec>): (es: seq<Entry>)
    ensures |es| == |recs| && forall i :: 0 <= i < |recs| ==> es[i] == recs[i].e
  {
    seq(|recs|, i requires 0 <= i < |recs| => recs[i].e)
  }

  /** A log without the entries [a, b). */
  function Dropped<T>(log: seq<T>, a: nat, b: nat): seq<T>
    requires a <= b <= |log|
  {
    log[..a] + log[b..]
  }

  /** Where an entry, or a place between entries, is after that. */
  function DroppedAt(k: nat, a: nat, b: nat): nat
    requires a <= b
  {
    if k <= a then k else if k < b then a else k - (b - a)
  }

  function DroppedRef(ref: map<nat, nat>, a: nat, b: nat): map<nat, nat>
    requires a <= b
  {
    map p | p in ref :: DroppedAt(ref[p], a, b)
  }

  /** Dead entries may go: a page with no entry has none, and one with a live entry keeps it. */
  lemma {:induction false} DropKeepsLast(log: seq<Entry>, a: nat, b: nat, k: nat, p: nat)
    requires AttrsOk(log) && a <= b <= |log| && k <= |log| && forall i :: a <= i < b ==> FileBooks.Dead(log[i])
    ensures DroppedAt(k, a, b) <= |Dropped(log, a, b)|
    ensures Last(log, k, p) == -1 ==> Last(Dropped(log, a, b), DroppedAt(k, a, b), p) == -1
    ensures Last(log, k, p) >= 0 && !FileBooks.Dead(log[Last(log, k, p)]) ==>
      Last(Dropped(log, a, b), DroppedAt(k, a, b), p) == DroppedAt(Last(log, k, p), a, b)
  {
    if k <= a {
      LastFrame(log, Dropped(log, a, b), k, p);
    } else {
      DropKeepsLast(log, a, b, k - 1, p);
      assert AttrOk(log, k - 1);
      if k > b {
        assert Dropped(log, a, b)[DroppedAt(k, a, b) - 1] == log[k - 1];
      }
    }
  }

  /** The index is what the log says, and so that replay finds it (see RebuildFindsIndex). */
  ghost predicate FileOk(recs: seq<Rec>, ref: map<nat, nat>) {
    && AttrsOk(Entries(recs)) && Agrees(ref, Entries(recs), |recs|)
    && LiveRefs(recs, ref)
  }

  lemma DropKeepsAgrees(log: seq<Entry>, ref: map<nat, nat>, a: nat, b: nat)
    requires AttrsOk(log) && Agrees(ref, log, |log|)
    requires a <= b <= |log| && forall i :: a <= i < b ==> FileBooks.Dead(log[i])
    requires forall p :: p in ref ==> ref[p] < |log| && !FileBooks.Dead(log[ref[p]])
    ensures Agrees(DroppedRef(ref, a, b), Dropped(log, a, b), |Dropped(log, a, b)|)
  {
    var z := Dropped(log, a, b);
    forall p: nat
      ensures Slot(DroppedRef(ref, a, b), p) == Last(z, |z|, p)
    {
      assert Slot(ref, p) == Last(log, |log|, p);
      DropKeepsLast(log, a, b, |log|, p);
    }
  }

  lemma DropKeepsAttr(log: seq<Entry>, a: nat, b: nat, i: nat)
    requires AttrsOk(log) && a <= b <= |log| && forall i :: a <= i < b ==> FileBooks.Dead(log[i])
    requires i < |Dropped(log, a, b)|
    ensures AttrOk(Dropped(log, a, b), i)
  {
    var z, k := Dropped(log, a, b), if i < a then i else i + (b - a);
    assert AttrOk(log, k) && z[i] == log[k] && DroppedAt(k, a, b) == i;
    forall p: nat | Last(log, k, p) == -1
      ensures Last(z, i, p) == -1
    {
      DropKeepsLast(log, a, b, k, p);
    }
  }

  lemma DropKeepsRefs(recs: seq<Rec>, ref: map<nat, nat>, a: nat, b: nat)
    requires LiveRefs(recs, ref) && a <= b <= |recs| && forall i :: a <= i < b ==> FileBooks.Dead(recs[i].e)
    ensures LiveRefs(Dropped(recs, a, b), DroppedRef(ref, a, b))
  {
    var z := Dropped(recs, a, b);
    forall p | p in ref
      ensures DroppedAt(ref[p], a, b) < |z| && z[DroppedAt(ref[p], a, b)] == recs[ref[p]]
    {
      assert !(a <= ref[p] < b);
    }
  }

  lemma DropKeepsFile(recs: seq<Rec>, ref: map<nat, nat>, a: nat, b: nat)
    requires FileOk(recs, ref) && a <= b <= |recs| && forall i :: a <= i < b ==> FileBooks.Dead(recs[i].e)
    ensures FileOk(Dropped(recs, a, b), DroppedRef(ref, a, b))
  {
    hide AttrOk, Agrees, Last;
    var log, z := Entries(recs), Dropped(recs, a, b);
    assert Entries(z) == Dropped(log, a, b);
    DropKeepsAgrees(log, ref, a, b);
    forall i | 0 <= i < |z|
      ensures AttrOk(Entries(z), i)
    {
      DropKeepsAttr(log, a, b, i);
    }
    DropKeepsRefs(recs, ref, a, b);
  }

  /** The first i entries have been collected. */
  function Collected(recs: seq<Rec>, i: nat): seq<Rec>
    requires i <= |recs|
  {
    Live(recs[..i]) + recs[i..]
  }

  function CollectedAt(recs: seq<Rec>, i: nat, j: nat): nat
    requires i <= |recs|
  {
    if j < i then |Live(recs[..j])| else |Live(recs[..i])| + (j - i)
  }

  function CollectedRef(recs: seq<Rec>, ref: map<nat, nat>, i: nat): map<nat, nat>
    requires i <= |recs|
  {
    map p | p in ref :: CollectedAt(recs, i, ref[p])
  }

  lemma DropMiddle<T>(x: seq<T>, y: seq<T>)
    requires y != []
    ensures Dropped(x + y, |x|, |x| + 1) == x + y[1..] && (x + y)[|x|] == y[0] && (x + [y[0]]) + y[1..] == x + y
  {
  }

  lemma CollectedSplit(recs: seq<Rec>, i: nat)
    requires i < |recs|
    ensures recs[i..] != [] && recs[i..][0] == recs[i] && recs[i..][1..] == recs[i + 1..]
  {
  }

  predicate LiveRefs(recs: seq<Rec>, ref: map<nat, nat>) {
    forall p :: p in ref ==> ref[p] < |recs| && !FileBooks.Dead(recs[ref[p]].e)
  }

  /** Collecting a dead entry is dropping it ... */
  lemma CollectDead(recs: seq<Rec>, ref: map<nat, nat>, i: nat)
    requires i < |recs| && LiveRefs(recs, ref) && FileBooks.Dead(recs[i].e)
    ensures
      var a := |Live(recs[..i])|;
      && a < |Collected(recs, i)| && Collected(recs, i)[a] == recs[i]
      && Collected(recs, i + 1) == Dropped(Collected(recs, i), a, a + 1)
      && CollectedRef(recs, ref, i + 1) == DroppedRef(CollectedRef(recs, ref, i), a, a + 1)
  {
    hide Live, FileBooks.Dead;
    LiveStep(recs, i);
    forall p | p in ref && ref[p] < i ensures |Live(recs[..ref[p]])| < |Live(recs[..i])| { LiveGrows(recs, ref[p], i); }
    CollectedSplit(recs, i);
    DropMiddle(Live(recs[..i]), recs[i..]);
  }

  /** ... and collecting a live one changes nothing. */
  lemma CollectLive(recs: seq<Rec>, ref: map<nat, nat>, i: nat)
    requires i < |recs| && LiveRefs(recs, ref) && !FileBooks.Dead(recs[i].e)
    ensures Collected(recs, i + 1) == Collected(recs, i) && CollectedRef(recs, ref, i + 1) == CollectedRef(recs, ref, i)
  {
    hide Live, FileBooks.Dead;
    LiveStep(recs, i);
    CollectedSplit(recs, i);
    DropMiddle(Live(recs[..i]), recs[i..]);
  }

  /** For every valid file, collecting dead entries keeps the index what the log says. */
  lemma {:induction false} CollectKeepsFile(recs: seq<Rec>, ref: map<nat, nat>, i: nat)
    requires FileOk(recs, ref) && i <= |recs|
    ensures FileOk(Collected(recs, i), CollectedRef(recs, ref, i))
  {
    hide Live, FileBooks.Dead, Agrees, AttrsOk;
    if i == 0 {
      NothingLive(recs);
      assert recs[..0] == [] && Collected(recs, 0) == recs && CollectedRef(recs, ref, 0) == ref;
    } else {
      CollectKeepsFile(recs, ref, i - 1);
      if !FileBooks.Dead(recs[i - 1].e) {
        CollectLive(recs, ref, i - 1);
      } else {
        CollectDead(recs, ref, i - 1);
        var a := |Live(recs[..i - 1])|;
        DropKeepsFile(Collected(recs, i - 1), CollectedRef(recs, ref, i - 1), a, a + 1);
      }
    }
  }

  /** Log y is log x after dead entries have been dropped, one range after another. */
  ghost predicate Drops(x: seq<Rec>, d: seq<(nat, nat)>, y: seq<Rec>)
    decreases |d|
  {
    if d == [] then y == x
    else MayDrop(x, d[0].0, d[0].1) && Drops(Dropped(x, d[0].0, d[0].1), d[1..], y)
  }

  ghost predicate MayDrop(x: seq<Rec>, a: nat, b: nat) {
    a <= b <= |x| && forall i :: a <= i < b ==> FileBooks.Dead(x[i].e)
  }

  ghost predicate Thinner(x: seq<Rec>, y: seq<Rec>) {
    exists d :: Drops(x, d, y)
  }

  lemma NotThinned(x: seq<Rec>)
    ensures Thinner(x, x)
  {
    assert Drops(x, [], x);
  }

  lemma {:induction false} DropsOn(x: seq<Rec>, d: seq<(nat, nat)>, y: seq<Rec>, a: nat, b: nat)
    requires Drops(x, d, y) && MayDrop(y, a, b)
    ensures Drops(x, d + [(a, b)], Dropped(y, a, b))
    decreases |d|
  {
    if d == [] {
      assert Drops(Dropped(x, a, b), [], Dropped(y, a, b));
      assert [(a, b)][1..] == [];
    } else {
      DropsOn(Dropped(x, d[0].0, d[0].1), d[1..], y, a, b);
      assert (d + [(a, b)])[1..] == d[1..] + [(a, b)];
    }
  }

  lemma ThinnerOn(x: seq<Rec>, y: seq<Rec>, a: nat, b: nat)
    requires Thinner(x, y) && MayDrop(y, a, b)
    ensures Thinner(x, Dropped(y, a, b))
  {
    var d :| Drops(x, d, y);
    DropsOn(x, d, y, a, b);
  }

  lemma {:induction false} CollectedIsThinner(recs: seq<Rec>, i: nat)
    requires i <= |recs|
    ensures Thinner(recs, Collected(recs, i))
  {
    hide Live, FileBooks.Dead, Thinner;
    if i == 0 {
      NothingLive(recs);
      NotThinned(recs);
      assert recs[..0] == [] && Collected(recs, 0) == recs;
    } else {
      CollectedIsThinner(recs, i - 1);
      if !FileBooks.Dead(recs[i - 1].e) {
        CollectLive(recs, map[], i - 1);
      } else {
        CollectDead(recs, map[], i - 1);
        var a := |Live(recs[..i - 1])|;
        ThinnerOn(recs, Collected(recs, i - 1), a, a + 1);
      }
    }
  }

  lemma NothingLive(recs: seq<Rec>)
    ensures Live(recs[..0]) == []
  {
    assert recs[..0] == [];
  }

  /** Replay of a log finds the index that it agrees with. */
  lemma FileReplays(recs: seq<Rec>, ref: map<nat, nat>, p: nat)
    requires FileOk(recs, ref)
    ensures LastReplayed(Entries(recs), |recs|, p) == Slot(ref, p)
  {
    assert Slot(ref, p) == Last(Entries(recs), |recs|, p);
    SkipIsHarmless(Entries(recs), |recs|, p);
  }

  // ---------------------------------------------------------------- index slots

  type Slots = map<nat, Pos>

  /** Every slot holds the place of a live write entry that covers its page; ref is history:
      the index of that entry. */
  ghost predicate SlotsOk(slots: Slots, l: Log, ref: map<nat, nat>) {
    slots.Keys == ref.Keys && LogSized(l) && forall p :: p in ref ==> SlotOk(slots, l, ref, p)
  }

  ghost predicate SlotOk(slots: Slots, l: Log, ref: map<nat, nat>, p: nat)
    requires p in ref && p in slots && LogSized(l)
  {
    ref[p] < |l.path| && slots[p] == l.path[ref[p]] && Covers(l.recs[ref[p]].e, p) && !FileBooks.Dead(l.recs[ref[p]].e)
  }

  /** While the first i entries have been copied to log n, the slots of those point to the copies. */
  ghost predicate Moving(slots: Slots, l: Log, n: Log, ref: map<nat, nat>, i: nat)
    requires LogSized(l) && LogSized(n) && i <= |l.path|
  {
    slots.Keys == ref.Keys && forall p :: p in ref ==> MovedTo(slots, l, n, ref, i, p)
  }

  ghost predicate MovedTo(slots: Slots, l: Log, n: Log, ref: map<nat, nat>, i: nat, p: nat)
    requires p in ref && p in slots && LogSized(l) && LogSized(n) && i <= |l.path|
  {
    ref[p] < |l.path| && Covers(l.recs[ref[p]].e, p) && !FileBooks.Dead(l.recs[ref[p]].e)
    && if ref[p] < i then |Live(l.recs[..ref[p]])| < |n.path| && slots[p] == n.path[|Live(l.recs[..ref[p]])|]
         else slots[p] == l.path[ref[p]]
  }

  /** The number of entries among the first n that lie before the page of rank r. */
  function Before(l: Log, r: nat, n: nat): (k: nat)
    requires LogSized(l) && n <= |l.path|
    ensures k <= n
    ensures k > 0 ==> l.at[k - 1] < r
    ensures forall i :: k <= i < n ==> l.at[i] >= r
  {
    if n == 0 then 0 else if l.at[n - 1] < r then n else Before(l, r, n - 1)
  }

  lemma BeforeIsBefore(pages: Pages, l: Log, r: nat, i: nat)
    requires LogOk(pages, l) && i < Before(l, r, |l.path|)
    ensures l.at[i] < r
  {
    var k := Before(l, r, |l.path|);
    if i < k - 1 {
      EndsIncrease(pages, l, i, k);
    }
  }

  // ---------------------------------------------------------------- two logs side by side

  ghost predicate ApartChains(a: seq<nat>, b: seq<nat>) {
    forall j, k :: 0 <= j < |a| && 0 <= k < |b| ==> a[j] != b[k]
  }

  /** A log is not affected by what happens on other pages. */
  lemma LogFrame(pages: Pages, pages': Pages, l: Log)
    requires LogOk(pages, l)
    requires forall k :: 0 <= k < |l.chain| ==> l.chain[k] in pages' && pages'[l.chain[k]] == pages[l.chain[k]]
    ensures LogOk(pages', l)
  {
    assert SameBefore(pages, pages', l);
    forall k | 0 <= k < |l.chain| ensures LinkTo(pages', l.chain, k) { assert LinkTo(pages, l.chain, k); }
    forall i | 0 <= i < |l.path| ensures EntryOk(pages', l, i) { EntryFrame(pages, pages', l, l, i); }
  }

  lemma ChainsDiffer(pages: Pages, l: Log, n: Log, i: nat, j: nat)
    requires LogOk(pages, l) && LogOk(pages, n) && ApartChains(l.chain, n.chain) && i < |l.path| && j < |n.path|
    ensures l.path[i] != n.path[j]
  {
    assert EntryOk(pages, l, i) && EntryOk(pages, n, j);
  }

  /** The slots of entry i are the ones that hold its place. */
  lemma OnlyItsSlots(pages: Pages, slots: Slots, l: Log, n: Log, ref: map<nat, nat>, i: nat, p: nat)
    requires LogOk(pages, l) && LogOk(pages, n) && ApartChains(l.chain, n.chain) && i < |l.path|
    requires Moving(slots, l, n, ref, i) && p in ref
    ensures slots[p] == l.path[i] <==> ref[p] == i
  {
    assert MovedTo(slots, l, n, ref, i, p);
    if ref[p] < i {
      ChainsDiffer(pages, l, n, i, |Live(l.recs[..ref[p]])|);
    } else if ref[p] > i {
      PlacesDiffer(pages, l, i, ref[p]);
    }
  }

  /** The slots after nova_gc_assign_file_entry. */
  ghost predicate Repointed(slots: Slots, slots': Slots, e: Entry, from: Pos, to: Pos) {
    slots'.Keys == slots.Keys &&
    forall p :: p in slots ==> slots'[p] == if Covers(e, p) && slots[p] == from then to else slots[p]
  }

  /** Entry i has been copied to the end of the new log, and its slots point to the copy. */
  lemma CopyMoves(pages: Pages, slots: Slots, slots': Slots, l: Log, n: Log, n': Log, ref: map<nat, nat>, i: nat)
    requires LogOk(pages, l) && LogOk(pages, n) && ApartChains(l.chain, n.chain) && i < |l.path| && LogSized(n')
    requires Moving(slots, l, n, ref, i) && n.recs == Live(l.recs[..i]) && !FileBooks.Dead(l.recs[i].e)
    requires |n'.path| == |n.path| + 1 && n'.path[..|n.path|] == n.path
    requires Repointed(slots, slots', l.recs[i].e, l.path[i], n'.path[|n.path|])
    ensures Moving(slots', l, n', ref, i + 1)
  {
    forall p | p in ref ensures MovedTo(slots', l, n', ref, i + 1, p) {
      assert MovedTo(slots, l, n, ref, i, p);
      OnlyItsSlots(pages, slots, l, n, ref, i, p);
      assert forall k :: 0 <= k < |n.path| ==> n'.path[k] == n.path[k];
    }
  }

  /** A dead entry has no slots. */
  lemma DeadMoves(slots: Slots, l: Log, n: Log, ref: map<nat, nat>, i: nat)
    requires LogSized(l) && LogSized(n) && i < |l.path| && Moving(slots, l, n, ref, i) && FileBooks.Dead(l.recs[i].e)
    ensures Moving(slots, l, n, ref, i + 1)
  {
    forall p | p in ref ensures MovedTo(slots, l, n, ref, i + 1, p) { assert MovedTo(slots, l, n, ref, i, p); }
  }

  // ---------------------------------------------------------------- the new log takes the tail page

  function PagesOf(chain: seq<nat>): set<nat> {
    set k | 0 <= k < |chain| :: chain[k]
  }

  /** The pages after the switch: the new log is marked at its end and linked to the tail page;
      the rest of its pages and the old pages before the tail page are free. */
  function Switched(pages: Pages, l: Log, n: Log): Pages
    requires LogSized(l) && LogSized(n) && At(n, |n.path|).page in pages
    requires At(n, |n.path|).page !in PagesOf(n.chain[Rank(n, |n.path|) + 1..])
  {
    Relinked(pages, l, n) - PagesOf(l.chain[..Rank(l, |l.path|)])
  }

  /** The pages before the old ones are freed. */
  function Relinked(pages: Pages, l: Log, n: Log): Pages
    requires LogSized(l) && LogSized(n) && At(n, |n.path|).page in pages
    requires At(n, |n.path|).page !in PagesOf(n.chain[Rank(n, |n.path|) + 1..])
  {
    var end, r, t := At(n, |n.path|), Rank(n, |n.path|), Rank(l, |l.path|);
    var marked := Flagged(pages - PagesOf(n.chain[r + 1..]), end);
    marked[end.page := marked[end.page].(next := l.chain[t])]
  }

  /** The log after the switch. */
  function Merged(l: Log, n: Log): Log
    requires LogSized(l) && LogSized(n)
  {
    var r, t := Rank(n, |n.path|), Rank(l, |l.path|);
    var k := Before(l, t, |l.path|);
    Log(n.chain[..r + 1] + l.chain[t..], n.path + l.path[k..],
        n.at + seq(|l.path| - k, j requires 0 <= j < |l.path| - k => if k + j < |l.at| && l.at[k + j] >= t
          then l.at[k + j] - t + r + 1 else 0),
        n.recs + l.recs[k..])
  }

  ghost predicate MaySwitch(pages: Pages, l: Log, n: Log) {
    && LogOk(pages, l) && LogOk(pages, n) && ApartChains(l.chain, n.chain) && Rank(l, |l.path|) > 0
    && At(n, |n.path|).page !in PagesOf(n.chain[Rank(n, |n.path|) + 1..]) && At(n, |n.path|).page in pages
  }

  lemma NotInPart(chain: seq<nat>, a: nat, b: nat, k: nat)
    requires Distinct(chain) && a <= b <= |chain| && k < |chain| && !(a <= k < b)
    ensures chain[k] !in PagesOf(chain[a..b])
  {
  }

  lemma NotInOther(c: seq<nat>, d: seq<nat>, a: nat, b: nat, k: nat)
    requires ApartChains(c, d) && a <= b <= |d| && k < |c|
    ensures c[k] !in PagesOf(d[a..b])
  {
  }

  lemma NotInOther2(c: seq<nat>, d: seq<nat>, a: nat, b: nat, k: nat)
    requires ApartChains(c, d) && a <= b <= |c| && k < |d|
    ensures d[k] !in PagesOf(c[a..b])
  {
  }

  /** A page of the new log before its last used one is as it was. */
  lemma SwitchedNew(pages: Pages, l: Log, n: Log, k: nat)
    requires MaySwitch(pages, l, n) && k < Rank(n, |n.path|)
    ensures n.chain[k] in Switched(pages, l, n) && Switched(pages, l, n)[n.chain[k]] == pages[n.chain[k]]
  {
    var r, t := Rank(n, |n.path|), Rank(l, |l.path|);
    EndIsOnItsPage(pages, n, |n.path|);
    NotInPart(n.chain, r + 1, |n.chain|, k);
    assert n.chain[r + 1..|n.chain|] == n.chain[r + 1..];
    NotInOther2(l.chain, n.chain, 0, t, k);
    assert l.chain[0..t] == l.chain[..t];
  }

  /** So is every page of the old log from the tail page on, and the others are gone. */
  lemma SwitchedOld(pages: Pages, l: Log, n: Log, k: nat)
    requires MaySwitch(pages, l, n) && k < |l.chain|
    ensures
      var z := Switched(pages, l, n);
      if k >= Rank(l, |l.path|) then l.chain[k] in z && z[l.chain[k]] == pages[l.chain[k]] else l.chain[k] !in z
  {
    var r, t := Rank(n, |n.path|), Rank(l, |l.path|);
    EndIsOnItsPage(pages, n, |n.path|);
    NotInOther(l.chain, n.chain, r + 1, |n.chain|, k);
    assert n.chain[r + 1..|n.chain|] == n.chain[r + 1..];
    assert l.chain[0..t] == l.chain[..t];
    if k >= t {
      NotInPart(l.chain, 0, t, k);
    } else {
      assert l.chain[..t][k] == l.chain[k];
    }
  }

  /** The last used page of the new log is marked behind its entries and leads to the tail page. */
  lemma SwitchedEnd(pages: Pages, l: Log, n: Log)
    requires MaySwitch(pages, l, n)
    ensures
      var z, end := Switched(pages, l, n), At(n, |n.path|);
      && end.page == n.chain[Rank(n, |n.path|)] && end.page in z && z[end.page].next == l.chain[Rank(l, |l.path|)]
           && GotoNext(z, end)
      && (forall o :: o != end.loc ==> SameCell(pages[end.page], z[end.page], o))
      && z[end.page].num == pages[end.page].num && z[end.page].invalid == pages[end.page].invalid
  {
    EndIsOnItsPage(pages, n, |n.path|);
    NotInOther2(l.chain, n.chain, 0, Rank(l, |l.path|), Rank(n, |n.path|));
    assert l.chain[0..Rank(l, |l.path|)] == l.chain[..Rank(l, |l.path|)];
  }

  lemma MergedDistinct(pages: Pages, l: Log, n: Log)
    requires MaySwitch(pages, l, n)
    ensures Distinct(Merged(l, n).chain)
  {
    DistinctConcat(n.chain[..Rank(n, |n.path|) + 1], l.chain[Rank(l, |l.path|)..]);
  }

  lemma MergedLink(pages: Pages, l: Log, n: Log, k: nat)
    requires MaySwitch(pages, l, n) && k < |Merged(l, n).chain|
    ensures
      var z, chain := Switched(pages, l, n), Merged(l, n).chain;
      chain[k] != 0 && chain[k] in z && LinkTo(z, chain, k)
  {
    hide Switched, EntryOk, Distinct, ApartChains;
    var chain, r, t := Merged(l, n).chain, Rank(n, |n.path|), Rank(l, |l.path|);
    if k < r {
      SwitchedNew(pages, l, n, k);
      assert LinkTo(pages, n.chain, k);
    } else if k == r {
      SwitchedEnd(pages, l, n);
      assert chain[k] == n.chain[r] && chain[r + 1] == l.chain[t];
    } else {
      var j := t + (k - r - 1);
      assert chain[k] == l.chain[j];
      SwitchedOld(pages, l, n, j);
      assert LinkTo(pages, l.chain, j);
    }
  }

  lemma MergedChain(pages: Pages, l: Log, n: Log)
    requires MaySwitch(pages, l, n)
    ensures ChainOk(Switched(pages, l, n), Merged(l, n).chain)
  {
    hide Switched, Merged, EntryOk;
    MergedDistinct(pages, l, n);
    forall k | 0 <= k < |Merged(l, n).chain|
      ensures var z, chain := Switched(pages, l, n), Merged(l, n).chain;
        chain[k] != 0 && chain[k] in z && LinkTo(z, chain, k)
    {
      MergedLink(pages, l, n, k);
    }
  }

  lemma SwitchIsAllowed(pages: Pages, l: Log, n: Log)
    requires LogOk(pages, l) && LogOk(pages, n) && ApartChains(l.chain, n.chain) && Rank(l, |l.path|) > 0
    ensures MaySwitch(pages, l, n)
  {
    EndIsOnItsPage(pages, n, |n.path|);
    NotInPart(n.chain, Rank(n, |n.path|) + 1, |n.chain|, Rank(n, |n.path|));
    assert n.chain[Rank(n, |n.path|) + 1..|n.chain|] == n.chain[Rank(n, |n.path|) + 1..];
  }

  lemma RestOfChain(pages: Pages, chain: seq<nat>, k: nat)
    requires ChainOk(pages, chain) && k <= |chain|
    ensures ChainOk(pages, chain[k..])
  {
    var rest := chain[k..];
    forall j | 0 <= j < |rest| ensures LinkTo(pages, rest, j) {
      assert LinkTo(pages, chain, k + j);
    }
  }

  /** A page of the old log is as before until it is freed. */
  lemma RelinkedOld(pages: Pages, l: Log, n: Log, k: nat)
    requires MaySwitch(pages, l, n) && k < |l.chain|
    ensures l.chain[k] in Relinked(pages, l, n) && Relinked(pages, l, n)[l.chain[k]] == pages[l.chain[k]]
  {
    EndIsOnItsPage(pages, n, |n.path|);
    NotInOther(l.chain, n.chain, Rank(n, |n.path|) + 1, |n.chain|, k);
    assert n.chain[Rank(n, |n.path|) + 1..|n.chain|] == n.chain[Rank(n, |n.path|) + 1..];
  }

  /** The copying has stopped on the page before the tail page. */
  lemma StopsBeforeTail(pages: Pages, l: Log)
    requires LogOk(pages, l) && Rank(l, |l.path|) > 0
    ensures
      var t := Rank(l, |l.path|);
      At(l, Before(l, t, |l.path|)).page == l.chain[t - 1] && At(l, |l.path|).page == l.chain[t]
  {
    var t := Rank(l, |l.path|);
    var k := Before(l, t, |l.path|);
    EndIsOnItsPage(pages, l, |l.path|);
    EndIsOnItsPage(pages, l, k);
    assert EntryOk(pages, l, k);
    EndsIncrease(pages, l, k, |l.path|);
  }

  /** Once the page before the tail page is the last, the old pages are a chain of their own. */
  lemma OldChainEnds(pages: Pages, l: Log, n: Log)
    requires MaySwitch(pages, l, n)
    ensures
      var z, t := Relinked(pages, l, n), Rank(l, |l.path|);
      var last := l.chain[t - 1];
      && last in z && z[last].next == l.chain[t]
      && ChainOk(z[last := z[last].(next := 0)], l.chain[..t])
      && z[last := z[last].(next := 0)] - PagesOf(l.chain[..t]) == Switched(pages, l, n)
  {
    var z, t := Relinked(pages, l, n), Rank(l, |l.path|);
    var last, old_ := l.chain[t - 1], l.chain[..t];
    RelinkedOld(pages, l, n, t - 1);
    assert LinkTo(pages, l.chain, t - 1);
    var z' := z[last := z[last].(next := 0)];
    forall k | 0 <= k < t ensures old_[k] != 0 && old_[k] in z' && LinkTo(z', old_, k) {
      RelinkedOld(pages, l, n, k);
      assert old_[k] == l.chain[k] && LinkTo(pages, l.chain, k);
    }
    assert old_[t - 1] == last;
    assert z' - PagesOf(old_) == z - PagesOf(old_);
  }

  /** In the merged log, what the entries of the tail page were told from their old place. */
  lemma MergedTail(pages: Pages, l: Log, n: Log, j: nat)
    requires MaySwitch(pages, l, n) && Before(l, Rank(l, |l.path|), |l.path|) <= j < |l.path|
    ensures
      var m, k := Merged(l, n), Before(l, Rank(l, |l.path|), |l.path|);
      var i := |n.path| + (j - k);
      && l.at[j] == Rank(l, |l.path|) && i < |m.path|
      && m.path[i] == l.path[j] && m.recs[i] == l.recs[j] && m.at[i] == Rank(n, |n.path|) + 1
      && m.chain[m.at[i]] == l.chain[Rank(l, |l.path|)]
  {
    EndsIncrease(pages, l, j, |l.path|);
  }

  lemma MergedSized(pages: Pages, l: Log, n: Log)
    requires MaySwitch(pages, l, n)
    ensures LogSized(Merged(l, n))
    ensures |Merged(l, n).path| == |n.path| + (|l.path| - Before(l, Rank(l, |l.path|), |l.path|))
    ensures forall i :: 0 <= i < |n.path| ==>
      Merged(l, n).path[i] == n.path[i] && Merged(l, n).at[i] == n.at[i] && Merged(l, n).recs[i] == n.recs[i]
    ensures forall k :: 0 <= k <= Rank(n, |n.path|) ==> Merged(l, n).chain[k] == n.chain[k]
  {
    var m := Merged(l, n);
    forall i | 0 <= i < |m.at| ensures m.at[i] < |m.chain| {
      if i >= |n.path| {
        MergedTail(pages, l, n, Before(l, Rank(l, |l.path|), |l.path|) + (i - |n.path|));
      } else {
        EndsIncrease(pages, n, i, |n.path|);
      }
    }
  }

  lemma MergedNewEntry(pages: Pages, l: Log, n: Log, i: nat)
    requires MaySwitch(pages, l, n) && i < |n.path|
    ensures LogSized(Merged(l, n)) && EntryOk(Switched(pages, l, n), Merged(l, n), i)
  {
    var z := Switched(pages, l, n);
    MergedSized(pages, l, n);
    SwitchedEnd(pages, l, n);
    forall k | 0 <= k < Rank(n, |n.path|) ensures n.chain[k] in z && z[n.chain[k]] == pages[n.chain[k]] {
      SwitchedNew(pages, l, n, k);
    }
    hide Switched, Merged, ApartChains;
    assert SameBefore(pages, z, n);
    EntryFrame(pages, z, n, Merged(l, n), i);
  }

  lemma MergedTailEntry(pages: Pages, l: Log, n: Log, j: nat)
    requires MaySwitch(pages, l, n) && Before(l, Rank(l, |l.path|), |l.path|) <= j < |l.path|
    ensures LogSized(Merged(l, n))
    ensures
      var i := |n.path| + (j - Before(l, Rank(l, |l.path|), |l.path|));
      i < |Merged(l, n).path| && EntryOk(Switched(pages, l, n), Merged(l, n), i)
  {
    var z, m, t, k := Switched(pages, l, n), Merged(l, n), Rank(l, |l.path|), Before(l, Rank(l, |l.path|), |l.path|);
    MergedSized(pages, l, n);
    MergedTail(pages, l, n, j);
    assert EntryOk(pages, l, j);
    SwitchedOld(pages, l, n, t);
    if j == k {
      SwitchedEnd(pages, l, n);
      if j > 0 { BeforeIsBefore(pages, l, t, j - 1); }
      assert At(m, |n.path|) == At(n, |n.path|) && Rank(m, |n.path|) == Rank(n, |n.path|);
    } else {
      MergedTail(pages, l, n, j - 1);
      assert At(m, |n.path| + (j - k)) == At(l, j);
    }
  }

  lemma MergedEntry(pages: Pages, l: Log, n: Log, i: nat)
    requires MaySwitch(pages, l, n) && i < |Merged(l, n).path|
    ensures LogSized(Merged(l, n)) && EntryOk(Switched(pages, l, n), Merged(l, n), i)
  {
    MergedSized(pages, l, n);
    if i < |n.path| {
      MergedNewEntry(pages, l, n, i);
    } else {
      MergedTailEntry(pages, l, n, Before(l, Rank(l, |l.path|), |l.path|) + (i - |n.path|));
    }
  }

  /** The merged log is a log: its entries are the copies, and those of the tail page in their
      old places. */
  lemma MergedIsLog(pages: Pages, l: Log, n: Log)
    requires MaySwitch(pages, l, n)
    ensures LogOk(Switched(pages, l, n), Merged(l, n))
  {
    MergedChain(pages, l, n);
    MergedSized(pages, l, n);
    var z, m := Switched(pages, l, n), Merged(l, n);
    hide MaySwitch, Switched, EntryOk, Merged, ChainOk, Before;
    forall i | 0 <= i < |m.path| ensures EntryOk(z, m, i) {
      MergedEntry(pages, l, n, i);
    }
  }

  /** The index of entry j in the merged log. */
  function NewIndex(l: Log, n: Log, j: nat): nat
    requires LogSized(l) && j < |l.path|
  {
    var k := Before(l, Rank(l, |l.path|), |l.path|);
    if j < k then |Live(l.recs[..j])| else |n.path| + (j - k)
  }

  function MergedRef(l: Log, n: Log, ref: map<nat, nat>): map<nat, nat>
    requires LogSized(l)
  {
    map p | p in ref :: if ref[p] < |l.path| then NewIndex(l, n, ref[p]) else 0
  }

  /** The merged log is the collected one. */
  lemma MergedRefIs(pages: Pages, l: Log, n: Log, ref: map<nat, nat>)
    requires MaySwitch(pages, l, n) && LiveRefs(l.recs, ref)
    requires n.recs == Live(l.recs[..Before(l, Rank(l, |l.path|), |l.path|)])
    requires Before(l, Rank(l, |l.path|), |l.path|) <= |l.recs|
    ensures MergedRef(l, n, ref) == CollectedRef(l.recs, ref, Before(l, Rank(l, |l.path|), |l.path|))
  {
    hide EntryOk, ChainOk, Distinct, ApartChains, Live, FileBooks.Dead, Before, Rank, Merged;
  }

  lemma MergedIsCollected(pages: Pages, l: Log, n: Log, ref: map<nat, nat>)
    requires MaySwitch(pages, l, n) && LiveRefs(l.recs, ref)
    requires n.recs == Live(l.recs[..Before(l, Rank(l, |l.path|), |l.path|)])
    ensures
      var k := Before(l, Rank(l, |l.path|), |l.path|);
      k <= |l.recs| && Merged(l, n).recs == Collected(l.recs, k) && MergedRef(l, n, ref) == CollectedRef(l.recs, ref, k)
  {
    hide EntryOk, ChainOk, Distinct, ApartChains, Live, FileBooks.Dead, MergedRef, CollectedRef;
    MergedRefIs(pages, l, n, ref);
  }

  lemma MergedFile(pages: Pages, l: Log, n: Log, ref: map<nat, nat>)
    requires MaySwitch(pages, l, n) && FileOk(l.recs, ref)
    requires n.recs == Live(l.recs[..Before(l, Rank(l, |l.path|), |l.path|)])
    ensures FileOk(Merged(l, n).recs, MergedRef(l, n, ref))
  {
    hide Merged, MergedRef, Live, Before, Rank, EntryOk, ChainOk, Distinct, LiveRefs, Agrees, AttrsOk;
    SwitchSized(pages, l, n);
    MergedIsCollected(pages, l, n, ref);
    CollectKeepsFile(l.recs, ref, Before(l, Rank(l, |l.path|), |l.path|));
  }

  lemma MergedIsThinner(pages: Pages, l: Log, n: Log)
    requires MaySwitch(pages, l, n)
    requires n.recs == Live(l.recs[..Before(l, Rank(l, |l.path|), |l.path|)])
    ensures Thinner(l.recs, Merged(l, n).recs)
  {
    hide Merged, MergedRef, Live, Before, Rank, EntryOk, ChainOk, Distinct, Thinner;
    MergedIsCollected(pages, l, n, map[]);
    CollectedIsThinner(l.recs, Before(l, Rank(l, |l.path|), |l.path|));
  }

  /** The ranks of the entries of the new log, and of those of the tail page, in the merged one. */
  lemma MergedRanks(pages: Pages, l: Log, n: Log)
    requires MaySwitch(pages, l, n)
    ensures
      var m, k, r, c := Merged(l, n), Before(l, Rank(l, |l.path|), |l.path|), Rank(n, |n.path|), |n.path|;
      && LogSized(m) && |m.at| == |m.recs| == c + (|l.path| - k) && m.at[..c] == n.at && m.recs[..c] == n.recs
           && m.recs[c..] == l.recs[k..]
      && (forall i :: 0 <= i < c ==> n.at[i] <= r) && (forall i :: 0 <= i < |l.path| - k ==> m.at[c..][i] == r + 1)
  {
    MergedSized(pages, l, n);
    forall i | 0 <= i < |n.path| ensures n.at[i] <= Rank(n, |n.path|) { EndsIncrease(pages, n, i, |n.path|); }
    var k := Before(l, Rank(l, |l.path|), |l.path|);
    forall i | 0 <= i < |l.path| - k
      ensures Merged(l, n).at[|n.path|..][i] == Rank(n, |n.path|) + 1
    {
      MergedTail(pages, l, n, k + i);
    }
    hide EntryOk, ChainOk, Distinct, ApartChains;
  }

  /** The ranks of the entries of the old log. */
  lemma OldRanks(pages: Pages, l: Log)
    requires LogOk(pages, l)
    ensures
      var t := Rank(l, |l.path|);
      var k := Before(l, t, |l.path|);
      && (forall i :: 0 <= i < k ==> l.at[i] < t) && (forall i :: k <= i < |l.path| ==> l.at[i] == t)
  {
    var t := Rank(l, |l.path|);
    forall i | 0 <= i < Before(l, t, |l.path|) ensures l.at[i] < t { BeforeIsBefore(pages, l, t, i); }
    forall i | Before(l, t, |l.path|) <= i < |l.path| ensures l.at[i] == t { EndsIncrease(pages, l, i, |l.path|); }
  }

  lemma MergedTally(pages: Pages, l: Log, n: Log, q: nat, dead: bool)
    requires MaySwitch(pages, l, n) && q < |Merged(l, n).chain|
    ensures
      var m, r, t := Merged(l, n), Rank(n, |n.path|), Rank(l, |l.path|);
      LogSized(m) && Tally(m.at, m.recs, q, dead) == if q <= r then Tally(n.at, n.recs, q, dead)
        else Tally(l.at, l.recs, t + (q - r - 1), dead)
  {
    hide Merged, Before, Rank, EntryOk, ChainOk, Distinct, ApartChains, Tally, MaySwitch, LogOk;
    SwitchSized(pages, l, n);
    var m, r, t := Merged(l, n), Rank(n, |n.path|), Rank(l, |l.path|);
    MergedRanks(pages, l, n);
    SwitchLogs(pages, l, n);
    OldRanks(pages, l);
    TwoParts(m, l, n, Before(l, t, |l.path|), r, t, q, dead);
  }

  lemma SwitchLogs(pages: Pages, l: Log, n: Log)
    requires MaySwitch(pages, l, n)
    ensures LogOk(pages, l) && LogOk(pages, n)
  {
  }

  lemma TwoParts(m: Log, l: Log, n: Log, k: nat, r: nat, t: nat, q: nat, dead: bool)
    requires |l.at| == |l.recs| && |n.at| == |n.recs| && |m.at| == |m.recs| == |n.at| + (|l.at| - k) && k <= |l.at|
    requires m.at[..|n.at|] == n.at && m.recs[..|n.at|] == n.recs && m.recs[|n.at|..] == l.recs[k..]
    requires forall i :: 0 <= i < |n.at| ==> n.at[i] <= r
    requires forall i :: 0 <= i < |l.at| - k ==> m.at[|n.at|..][i] == r + 1
    requires (forall i :: 0 <= i < k ==> l.at[i] < t) && (forall i :: k <= i < |l.at| ==> l.at[i] == t)
    ensures Tally(m.at, m.recs, q, dead) == if q <= r then Tally(n.at, n.recs, q, dead)
            else Tally(l.at, l.recs, t + (q - r - 1), dead)
  {
    hide Tally;
    var c := |n.at|;
    assert m.at == m.at[..c] + m.at[c..] && m.recs == m.recs[..c] + m.recs[c..];
    TallyConcat(n.at, n.recs, m.at[c..], l.recs[k..], q, dead);
    if q <= r {
      TallyNone(m.at[c..], l.recs[k..], q, dead);
    } else {
      var j := t + (q - r - 1);
      TallyNone(n.at, n.recs, q, dead);
      assert l.at == l.at[..k] + l.at[k..] && l.recs == l.recs[..k] + l.recs[k..];
      TallyConcat(l.at[..k], l.recs[..k], l.at[k..], l.recs[k..], j, dead);
      TallyNone(l.at[..k], l.recs[..k], j, dead);
      TallySame(m.at[c..], l.at[k..], l.recs[k..], q, j, dead);
    }
  }

  /** The counters of the copies were set when they were appended; those of the tail page stay. */
  lemma MergedCounters(pages: Pages, l: Log, n: Log)
    requires MaySwitch(pages, l, n) && CountersOk(pages, l) && CountersOk(pages, n)
    ensures CountersOk(Switched(pages, l, n), Merged(l, n))
  {
    var z, m, r, t := Switched(pages, l, n), Merged(l, n), Rank(n, |n.path|), Rank(l, |l.path|);
    MergedSized(pages, l, n);
    assert m.chain == n.chain[..r + 1] + l.chain[t..];
    hide Switched, Merged, Before, EntryOk, ChainOk, Distinct, ApartChains, Tally, FileBooks.Dead;
    forall q | 0 <= q < |m.chain| ensures CounterOk(z, m, q) {
      MergedTally(pages, l, n, q, true);
      MergedTally(pages, l, n, q, false);
      if q < r {
        SwitchedNew(pages, l, n, q);
        assert CounterOk(pages, n, q);
      } else if q == r {
        SwitchedEnd(pages, l, n);
        assert CounterOk(pages, n, q);
      } else {
        var j := t + (q - r - 1);
        SwitchedOld(pages, l, n, j);
        assert CounterOk(pages, l, j) && m.chain[q] == l.chain[j];
      }
    }
  }

  /** A copied entry is in the merged log at the place of its copy. */
  lemma MergedCopy(pages: Pages, l: Log, n: Log, j: nat)
    requires MaySwitch(pages, l, n) && n.recs == Live(l.recs[..Before(l, Rank(l, |l.path|), |l.path|)])
    requires j < Before(l, Rank(l, |l.path|), |l.path|) && !FileBooks.Dead(l.recs[j].e)
    ensures NewIndex(l, n, j) == |Live(l.recs[..j])| < |n.path| <= |Merged(l, n).path| == |Merged(l, n).recs|
    ensures Merged(l, n).recs[NewIndex(l, n, j)] == l.recs[j]
    ensures Merged(l, n).path[NewIndex(l, n, j)] == n.path[NewIndex(l, n, j)]
  {
    LiveGrows(l.recs, j, Before(l, Rank(l, |l.path|), |l.path|));
    MergedSized(pages, l, n);
    hide EntryOk, ChainOk, Distinct, ApartChains, Merged, Before, Live;
  }

  /** An entry of the tail page is in the merged log at its old place. */
  lemma MergedOld(pages: Pages, l: Log, n: Log, j: nat)
    requires MaySwitch(pages, l, n) && Before(l, Rank(l, |l.path|), |l.path|) <= j < |l.path|
    ensures NewIndex(l, n, j) < |Merged(l, n).path| == |Merged(l, n).recs|
    ensures Merged(l, n).recs[NewIndex(l, n, j)] == l.recs[j]
    ensures Merged(l, n).path[NewIndex(l, n, j)] == l.path[j]
  {
    MergedTail(pages, l, n, j);
    MergedSized(pages, l, n);
    hide EntryOk, ChainOk, Distinct, ApartChains, Merged, Before;
  }

  lemma SwitchSized(pages: Pages, l: Log, n: Log)
    requires MaySwitch(pages, l, n)
    ensures LogSized(l) && LogSized(n) && Before(l, Rank(l, |l.path|), |l.path|) <= |l.path|
  {
  }

  lemma MergedSlot(pages: Pages, slots: Slots, l: Log, n: Log, ref: map<nat, nat>, p: nat)
    requires MaySwitch(pages, l, n) && Moving(slots, l, n, ref, Before(l, Rank(l, |l.path|), |l.path|)) && p in ref
    requires n.recs == Live(l.recs[..Before(l, Rank(l, |l.path|), |l.path|)])
    ensures LogSized(Merged(l, n)) && SlotOk(slots, Merged(l, n), MergedRef(l, n, ref), p)
    ensures p in MergedRef(l, n, ref) && ref[p] < |l.recs| && MergedRef(l, n, ref)[p] < |Merged(l, n).recs|
    ensures Merged(l, n).recs[MergedRef(l, n, ref)[p]] == l.recs[ref[p]]
  {
    hide Merged, ApartChains, EntryOk, ChainOk, Distinct, MaySwitch, Before, NewIndex, Live;
    SwitchSized(pages, l, n);
    MergedSized(pages, l, n);
    var k := Before(l, Rank(l, |l.path|), |l.path|);
    assert MovedTo(slots, l, n, ref, k, p);
    if ref[p] < k {
      MergedCopy(pages, l, n, ref[p]);
    } else {
      MergedOld(pages, l, n, ref[p]);
    }
  }

  /** Every slot points to the place of the entry that it pointed to before. */
  lemma MergedSlots(pages: Pages, slots: Slots, l: Log, n: Log, ref: map<nat, nat>)
    requires MaySwitch(pages, l, n) && Moving(slots, l, n, ref, Before(l, Rank(l, |l.path|), |l.path|))
    requires n.recs == Live(l.recs[..Before(l, Rank(l, |l.path|), |l.path|)])
    ensures SlotsOk(slots, Merged(l, n), MergedRef(l, n, ref))
    ensures SameEntries(l, ref, Merged(l, n), MergedRef(l, n, ref))
  {
    hide Merged, ApartChains, EntryOk, ChainOk, Distinct, MaySwitch, Before, NewIndex, MovedTo, Live, SlotOk;
    SwitchSized(pages, l, n);
    var m, ref' := Merged(l, n), MergedRef(l, n, ref);
    MergedSized(pages, l, n);
    forall p | p in ref
      ensures SlotOk(slots, m, ref', p)
      ensures ref[p] < |l.recs| && ref'[p] < |m.recs| && m.recs[ref'[p]] == l.recs[ref[p]]
    {
      MergedSlot(pages, slots, l, n, ref, p);
    }
  }

  /** The first k entries of l have been collected: m holds the live ones of them, and then the
      others in their old places. */
  ghost predicate CollectedTo(l: Log, m: Log, k: nat) {
    && k <= |l.recs| == |l.path| && |m.path| >= |l.path| - k
    && m.recs == Live(l.recs[..k]) + l.recs[k..] && m.path[|m.path| - (|l.path| - k)..] == l.path[k..]
  }

  /** Both references lead to the same entries. */
  ghost predicate SameEntries(l: Log, ref: map<nat, nat>, m: Log, ref': map<nat, nat>) {
    ref'.Keys == ref.Keys &&
    forall p :: p in ref ==> ref[p] < |l.recs| && ref'[p] < |m.recs| && m.recs[ref'[p]] == l.recs[ref[p]]
  }

  /** The number of entries that a collection looks at: those before the tail page. */
  function Collectable(l: Log): nat
    requires LogSized(l)
  {
    Before(l, Rank(l, |l.path|), |l.path|)
  }

  lemma NothingCollectable(l: Log)
    requires LogSized(l) && Rank(l, |l.path|) == 0
    ensures Collectable(l) == 0
  {
  }

  lemma NothingCollected(slots: Slots, l: Log, ref: map<nat, nat>)
    requires SlotsOk(slots, l, ref)
    ensures SameEntries(l, ref, l, ref) && CollectedTo(l, l, 0)
  {
    assert LogSized(l) && Live(l.recs[..0]) + l.recs[0..] == l.recs && l.path[0..] == l.path;
    forall p | p in ref ensures ref[p] < |l.recs| { assert SlotOk(slots, l, ref, p); }
  }

  /** The merged log begins with the new head and ends where the old one did. */
  lemma MergedEnds(pages: Pages, l: Log, n: Log)
    requires MaySwitch(pages, l, n) && n.recs == Live(l.recs[..Before(l, Rank(l, |l.path|), |l.path|)])
    ensures LogSized(Merged(l, n)) && Merged(l, n).chain[0] == n.chain[0]
    ensures At(Merged(l, n), |Merged(l, n).path|) == At(l, |l.path|)
    ensures CollectedTo(l, Merged(l, n), Before(l, Rank(l, |l.path|), |l.path|))
    ensures forall k :: 0 <= k < Rank(l, |l.path|) ==> l.chain[k] !in Switched(pages, l, n)
  {
    hide EntryOk, ChainOk, Distinct, ApartChains, Switched, Live;
    MergedSized(pages, l, n);
    var k := Before(l, Rank(l, |l.path|), |l.path|);
    assert k < |l.path|;
    MergedTail(pages, l, n, |l.path| - 1);
    forall j | 0 <= j < Rank(l, |l.path|) ensures l.chain[j] !in Switched(pages, l, n) { SwitchedOld(pages, l, n, j); }
  }

  /** The rank of the first page that stays. */
  function First(firstNeedFree: bool): nat {
    if firstNeedFree then 1 else 0
  }

  lemma NewChain(pages: Pages, blocks: seq<nat>)
    requires FreshPages(pages, blocks)
    ensures ChainOk(Linked(pages, blocks), blocks)
  {
    LinkedIs(pages, blocks);
    forall k | 0 <= k < |blocks|
      ensures blocks[k] in Linked(pages, blocks) && LinkTo(Linked(pages, blocks), blocks, k)
    {
      assert Linked(pages, blocks)[blocks[k]] == Blank(NextOf(blocks, k));
    }
  }

  lemma OldPagesStay(pages: Pages, l: Log, blocks: seq<nat>)
    requires LogOk(pages, l) && FreshPages(pages, blocks)
    ensures LogOk(Linked(pages, blocks), l) && ApartChains(l.chain, blocks)
  {
    LinkedIs(pages, blocks);
    LogFrame(pages, Linked(pages, blocks), l);
  }

  lemma NoCounters(pages: Pages, blocks: seq<nat>)
    requires FreshPages(pages, blocks)
    ensures |blocks| > 0 ==> CountersOk(Linked(pages, blocks), Log(blocks, [], [], []))
  {
    LinkedIs(pages, blocks);
  }

  lemma AtFirst(slots: Slots, l: Log, n0: Log, ref: map<nat, nat>)
    requires SlotsOk(slots, l, ref) && LogSized(n0) && n0.path == []
    ensures Moving(slots, l, n0, ref, 0)
  {
    forall p | p in ref ensures MovedTo(slots, l, n0, ref, 0, p) { assert SlotOk(slots, l, ref, p); }
  }

  class Collector {
    const area: LogArea
    var slots: Slots
    var head: nat
    var tail: Pos

    constructor (area: LogArea, slots: Slots, head: nat, tail: Pos)
      ensures this.area == area && this.slots == slots && this.head == head && this.tail == tail
    {
      this.area, this.slots, this.head, this.tail := area, slots, head, tail;
    }

    /** nova_gc_assign_file_entry: the slots of the old entry get the new one. */
    method AssignFileEntry(e: Entry, from: Pos, to: Pos)
      requires from != to
      modifies `slots
      ensures Repointed(old(slots), slots, e, from, to)
    {
      if !e.Write? { return; }
      var i := 0;
      while i < e.num
        invariant 0 <= i <= e.num && slots.Keys == old(slots).Keys
        invariant forall p :: p in slots ==>
          slots[p] == if e.pgoff <= p < e.pgoff + i && old(slots)[p] == from then to else old(slots)[p]
      {
        var p := e.pgoff + i;
        if p in slots && slots[p] == from {
          slots := slots[p := to];
        }
        i := i + 1;
      }
    }

    /** What the copying loop of thorough collection keeps: both logs, and the slots in between. */
    ghost predicate Copying(l: Log, n: Log, ref: map<nat, nat>, i: nat)
      reads this, area
    {
      && LogOk(area.pages, l) && LogOk(area.pages, n) && ApartChains(l.chain, n.chain)
      && CountersOk(area.pages, l) && CountersOk(area.pages, n)
      && i <= |l.path| && n.recs == Live(l.recs[..i]) && Moving(slots, l, n, ref, i)
    }

    /** A live entry is appended to the new log. */
    method CopyEntry(rec: Rec, curr: Pos, newCurr: Pos, page: nat, ghost l: Log, ghost n: Log,
                     ghost ref: map<nat, nat>, ghost i: nat)
      returns (p: Pos, ghost n': Log)
      requires Copying(l, n, ref, i) && i < |l.path| && rec == l.recs[i] && curr == l.path[i] && !FileBooks.Dead(rec.e)
      requires newCurr == At(n, |n.path|) && page != 0 && page !in area.pages
      modifies `slots, area
      ensures Copying(l, n', ref, i + 1) && n'.chain[0] == n.chain[0]
      ensures Pos(p.page, p.loc + rec.size) == At(n', |n'.path|)
      ensures forall q :: q in area.pages ==> q in old(area.pages) || q == page
      ensures forall k :: 0 <= k < |n'.chain| ==> n'.chain[k] in n.chain || n'.chain[k] == page
    {
      var ok;
      ghost var pages := area.pages;
      assert FreshPages(pages, [page]);
      assert EntryOk(pages, l, i);
      ok, p, n' := area.AppendLogEntry(newCurr, rec, [page], true, n);
      StillThere(pages, area.pages, l, n, n', page);
      SameCounters(pages, area.pages, l);
      LiveStep(l.recs, i);
      ChainsDiffer(area.pages, l, n', i, |n.path|);
      AssignFileEntry(rec.e, curr, p);
      CopyMoves(pages, old(slots), slots, l, n, n', ref, i);
    }

    /** The copying loop of nova_inode_log_thorough_gc.  It stops where the walk turns to the
        tail page, which is not recycled; pool provides the pages that it adds. */
    method CopyLive(pool: seq<nat>, newHead: Pos, ghost l: Log, ghost n0: Log, ghost ref: map<nat, nat>)
      returns (oldCurr: Pos, newCurr: Pos, ghost n: Log)
      requires Copying(l, n0, ref, 0) && n0.path == [] && newHead == At(n0, 0)
      requires head == l.chain[0] && tail == At(l, |l.path|) && Rank(l, |l.path|) > 0
      requires FreshPages(area.pages, pool) && |l.path| <= |pool|
      modifies `slots, area
      ensures Copying(l, n, ref, Before(l, Rank(l, |l.path|), |l.path|)) && n.chain[0] == n0.chain[0]
      ensures newCurr == At(n, |n.path|) && oldCurr == At(l, Before(l, Rank(l, |l.path|), |l.path|))
      ensures forall k :: 0 <= k < |n.chain| ==> n.chain[k] in n0.chain || n.chain[k] in pool
      ensures forall q :: q in area.pages ==> q in old(area.pages) || q in pool
    {
      hide EntryOk, ChainOk, Moving, ApartChains, Live, CountersOk;
      ghost var i, stop := 0, Before(l, Rank(l, |l.path|), |l.path|);
      var curr, taken := Pos(head, 0), 0;
      newCurr, n, oldCurr := newHead, n0, curr;
      assert l.recs[..0] == [];
      while curr != tail
        invariant i <= stop < |l.path| && Copying(l, n, ref, i) && n.chain[0] == n0.chain[0]
        invariant curr == At(l, i) && newCurr == At(n, |n.path|)
        invariant 0 <= taken <= i && forall k :: taken <= k < |pool| ==> pool[k] !in area.pages
        invariant forall k :: 0 <= k < |n.chain| ==> n.chain[k] in n0.chain || n.chain[k] in pool
        invariant forall q :: q in area.pages ==> q in old(area.pages) || q in pool
        decreases |l.path| - i
      {
        oldCurr := curr;
        NextPlace(area.pages, l, i);
        if GotoNext(area.pages, curr) {
          curr := Pos(area.pages[curr.page].next, 0);
        }
        OnTailPage(area.pages, l, i);
        if curr.page == tail.page {
          break;
        }
        var rec := area.pages[curr.page].cells[curr.loc].rec;
        if !FileBooks.Dead(rec.e) {
          newCurr, n := CopyEntry(rec, curr, newCurr, pool[taken], l, n, ref, i);
          newCurr := Pos(newCurr.page, newCurr.loc + rec.size);
          if pool[taken] in area.pages {
            taken := taken + 1;
          }
        } else {
          LiveStep(l.recs, i);
          DeadMoves(slots, l, n, ref, i);
        }
        curr := Pos(curr.page, curr.loc + rec.size);
        i := i + 1;
      }
      EndsDiffer(area.pages, l, i, |l.path|);
    }

    /** nova_free_contiguous_log_blocks: the pages of a chain are freed one after the other. */
    method FreeLogBlocks(first: nat, ghost chain: seq<nat>)
      requires ChainOk(area.pages, chain) && first == if chain == [] then 0 else chain[0]
      modifies area
      ensures area.pages == old(area.pages) - PagesOf(chain)
    {
      ghost var k := 0;
      var curr := first;
      while curr != 0
        invariant 0 <= k <= |chain| && curr == if k < |chain| then chain[k] else 0
        invariant area.pages == old(area.pages) - PagesOf(chain[..k])
        decreases |chain| - k
      {
        NotInPart(chain, 0, k, k);
        assert chain[0..k] == chain[..k];
        assert LinkTo(old(area.pages), chain, k);
        PagesOfMore(chain, k);
        var next := area.pages[curr].next;
        area.pages := area.pages - {curr};
        curr := next;
        k := k + 1;
      }
      assert chain[..k] == chain;
    }

    /** The first pages of the new log. */
    method AllocateFirst(blocks: seq<nat>, pool: seq<nat>, ghost l: Log, ghost ref: map<nat, nat>)
      returns (ghost n0: Log)
      requires LogOk(area.pages, l) && SlotsOk(slots, l, ref) && CountersOk(area.pages, l)
      requires blocks != [] && FreshPages(area.pages, blocks + pool)
      modifies area
      ensures Copying(l, n0, ref, 0) && n0 == Log(blocks, [], [], []) && FreshPages(area.pages, pool)
    {
      ghost var pages := area.pages;
      FreshParts(pages, blocks, pool);
      LinkedIs(pages, blocks);
      NewChain(pages, blocks);
      hide EntryOk, Linked, ChainOk, Distinct;
      area.pages := Linked(area.pages, blocks);
      n0 := Log(blocks, [], [], []);
      assert l.recs[..0] == [];
      OldPagesStay(pages, l, blocks);
      SameCounters(pages, area.pages, l);
      NoCounters(pages, blocks);
      AtFirst(slots, l, n0, ref);
    }

    /** Step 1 of the collection: free the unused pages of the new log, and link the last used
        one to the tail page. */
    method LinkNewLog(newCurr: Pos, ghost l: Log, ghost n: Log)
      requires MaySwitch(area.pages, l, n) && tail == At(l, |l.path|) && newCurr == At(n, |n.path|)
      modifies area
      ensures area.pages == Relinked(old(area.pages), l, n)
    {
      ghost var pages, r := area.pages, Rank(n, |n.path|);
      EndHasNext(pages, n);
      EndIsOnItsPage(pages, l, |l.path|);
      RestOfChain(pages, n.chain, r + 1);
      hide EntryOk, ChainOk, Distinct, ApartChains;
      var next := area.pages[newCurr.page].next;
      if next > 0 {
        FreeLogBlocks(next, n.chain[r + 1..]);
      } else {
        assert n.chain[r + 1..] == [];
      }
      area.SetNextPageFlag(newCurr);
      area.pages := area.pages[newCurr.page := area.pages[newCurr.page].(next := tail.page)];
    }

    /** Step 3 and 4: the page where the copying stopped must lead to the tail page; it is
        unlinked, and the old pages are freed. */
    method FreeOldLog(oldCurr: Pos, oldHead: nat, ghost l: Log, ghost n: Log, ghost pages: Pages)
      requires MaySwitch(pages, l, n) && area.pages == Relinked(pages, l, n)
      requires oldHead == l.chain[0] && tail == At(l, |l.path|)
      requires oldCurr == At(l, Before(l, Rank(l, |l.path|), |l.path|))
      modifies area
      ensures area.pages == Switched(pages, l, n)
    {
      StopsBeforeTail(pages, l);
      OldChainEnds(pages, l, n);
      hide EntryOk, ChainOk, Distinct, ApartChains, Before, Relinked, Switched;
      assert area.pages[oldCurr.page].next == tail.page;
      area.pages := area.pages[oldCurr.page := area.pages[oldCurr.page].(next := 0)];
      FreeLogBlocks(oldHead, l.chain[..Rank(l, |l.path|)]);
    }

    /** The collection, when the log has pages before the tail page. */
    method Collect(blocks: seq<nat>, pool: seq<nat>, ghost l: Log, ghost ref: map<nat, nat>)
      returns (ghost pages: Pages, ghost n: Log)
      requires LogOk(area.pages, l) && head == l.chain[0] && tail == At(l, |l.path|) && SlotsOk(slots, l, ref)
      requires CountersOk(area.pages, l) && Rank(l, |l.path|) > 0
      requires blocks != [] && FreshPages(area.pages, blocks + pool) && |l.path| <= |pool|
      modifies this, area
      ensures MaySwitch(pages, l, n) && n.recs == Live(l.recs[..Before(l, Rank(l, |l.path|), |l.path|)])
      ensures Moving(slots, l, n, ref, Before(l, Rank(l, |l.path|), |l.path|))
      ensures area.pages == Switched(pages, l, n) && head == n.chain[0] && tail == old(tail)
      ensures CountersOk(pages, l) && CountersOk(pages, n)
    {
      hide EntryOk, ChainOk, Distinct, ApartChains, Switched, Relinked, Moving, Live, CountersOk;
      ghost var n0 := AllocateFirst(blocks, pool, l, ref);
      var oldCurr, newCurr;
      oldCurr, newCurr, n := CopyLive(pool, Pos(blocks[0], 0), l, n0, ref);
      pages := area.pages;
      SwitchIsAllowed(pages, l, n);
      LinkNewLog(newCurr, l, n);
      var oldHead := head;
      head := blocks[0];
      FreeOldLog(oldCurr, oldHead, l, n, pages);
    }

    /** nova_inode_log_thorough_gc: the live entries before the tail page are copied to new
        pages, which lead on to the tail page; the old pages are freed.  blocks are the pages
        allocated at first, pool those that the copying adds. */
    method ThoroughGC(blocks: seq<nat>, pool: seq<nat>, ghost l: Log, ghost ref: map<nat, nat>)
      returns (collected: bool, ghost m: Log, ghost ref': map<nat, nat>)
      requires Fit(area.pages, l, slots, ref) && head == l.chain[0] && tail == At(l, |l.path|)
      requires blocks != [] && FreshPages(area.pages, blocks + pool) && |l.path| <= |pool|
      modifies this, area
      ensures collected <==> Rank(l, |l.path|) > 0
      ensures Fit(area.pages, m, slots, ref') && head == m.chain[0] && tail == old(tail) && tail == At(m, |m.path|)
      ensures CollectedTo(l, m, Collectable(l)) && Thinner(l.recs, m.recs) && SameEntries(l, ref, m, ref')
      ensures collected ==> forall k :: 0 <= k < Rank(l, |l.path|) ==> l.chain[k] !in area.pages
    {
      hide EntryOk, ChainOk, Distinct, ApartChains, Switched, Moving, SlotsOk, CollectedTo, SameEntries, Before,
           Merged, MergedRef;
      hide CountersOk, FileOk, Collected, CollectedRef, Thinner;
      collected, m, ref' := false, l, ref;
      NotThinned(l.recs);
      OnFirstPage(area.pages, l);
      if head == tail.page {
        NothingCollected(slots, l, ref);
        NothingCollectable(l);
        return;
      }
      collected := true;
      ghost var pages, n;
      pages, n := Collect(blocks, pool, l, ref);
      m, ref' := Merged(l, n), MergedRef(l, n, ref);
      MergedIsLog(pages, l, n);
      MergedSlots(pages, slots, l, n, ref);
      MergedEnds(pages, l, n);
      MergedCounters(pages, l, n);
      MergedFile(pages, l, n, ref);
      MergedIsThinner(pages, l, n);
    }

    /** What the scan of fast collection keeps when it comes to the page of rank k. */
    ghost predicate Scanning(l: Log, ref: map<nat, nat>, m: Log, ref': map<nat, nat>, k: nat, curr: nat,
                             lastPage: nat, firstNeedFree: bool)
      reads this, area
    {
      && Fit(area.pages, m, slots, ref') && head == m.chain[0] && tail == At(m, |m.path|)
      && Live(m.recs) == Live(l.recs) && Thinner(l.recs, m.recs) && SameEntries(l, ref, m, ref')
      && k <= Rank(m, |m.path|) && curr == m.chain[k] && (k > 0 ==> lastPage == m.chain[k - 1])
      && (firstNeedFree ==> k > 0 && head in area.pages && area.pages[head].invalid == area.pages[head].num)
    }

    /** What the scan sees. */
    lemma ScanSees(l: Log, ref: map<nat, nat>, m: Log, ref': map<nat, nat>, k: nat, curr: nat, lastPage: nat,
                   firstNeedFree: bool)
      requires Scanning(l, ref, m, ref', k, curr, lastPage, firstNeedFree)
      ensures LogSized(m) && k <= Rank(m, |m.path|) < |m.chain| && curr == m.chain[k]
      ensures curr != 0 && curr in area.pages && (k > 0 ==> lastPage in area.pages)
      ensures curr == tail.page <==> k == Rank(m, |m.path|)
      ensures curr == head <==> k == 0
      ensures k < Rank(m, |m.path|) ==> area.pages[curr].next == m.chain[k + 1]
    {
      EndIsOnItsPage(area.pages, m, |m.path|);
      assert LinkTo(area.pages, m.chain, k);
    }

    /** The scan moves to the next page. */
    lemma ScanMoves(l: Log, ref: map<nat, nat>, m: Log, ref': map<nat, nat>, k: nat, curr: nat, lastPage: nat,
                    firstNeedFree: bool, first: bool)
      requires Scanning(l, ref, m, ref', k, curr, lastPage, firstNeedFree) && curr != tail.page
      requires first ==> curr == head && curr in area.pages && area.pages[curr].invalid == area.pages[curr].num
      ensures curr in area.pages
      ensures Scanning(l, ref, m, ref', k + 1, area.pages[curr].next, curr, firstNeedFree || first)
    {
      ScanSees(l, ref, m, ref', k, curr, lastPage, firstNeedFree);
    }

    lemma ScanStarts(l: Log, ref: map<nat, nat>)
      requires Fit(area.pages, l, slots, ref) && head == l.chain[0] && tail == At(l, |l.path|)
      ensures Scanning(l, ref, l, ref, 0, head, 0, false)
    {
      SameAtFirst(area.pages, l, slots, ref);
      NotThinned(l.recs);
      hide Thinner, SameEntries, Live;
    }

    lemma ScanEnds(l: Log, ref: map<nat, nat>, m: Log, ref': map<nat, nat>, k: nat, curr: nat, lastPage: nat,
                   firstNeedFree: bool)
      requires Scanning(l, ref, m, ref', k, curr, lastPage, firstNeedFree)
      ensures Fit(area.pages, m, slots, ref') && head == m.chain[0] && tail == At(m, |m.path|)
      ensures Live(m.recs) == Live(l.recs) && Thinner(l.recs, m.recs) && SameEntries(l, ref, m, ref')
    {
    }

    /** The page of rank k is unlinked. */
    method RemovePage(lastPage: nat, curr: nat, next: nat, ghost l: Log, ghost ref: map<nat, nat>, ghost m: Log,
                      ghost ref1: map<nat, nat>,
                      ghost k: nat, ghost firstNeedFree: bool) returns (ghost m': Log, ghost ref': map<nat, nat>)
      requires Scanning(l, ref, m, ref1, k, curr, lastPage, firstNeedFree) && 0 < k < Rank(m, |m.path|)
      requires curr in area.pages && lastPage in area.pages && next == m.chain[k + 1] && area.pages[curr].next == next
      requires area.pages[curr].invalid == area.pages[curr].num
      modifies area
      ensures Scanning(l, ref, m', ref', k, next, lastPage, firstNeedFree)
      ensures |m'.chain| == |m.chain| - 1 && m'.chain[0] == m.chain[0] && (k > 1 ==> m'.chain[1] == m.chain[1])
      ensures m'.chain == m.chain[..k] + m.chain[k + 1..] && curr == m.chain[k] && lastPage != curr
      ensures area.pages == old(area.pages)[lastPage := old(area.pages)[lastPage].(next := next)] - {curr}
    {
      hide Thinner, EntryOk, Distinct, CounterOk, FileOk;
      ghost var pages := area.pages;
      RemovedFits(pages, m, k, slots, ref1);
      RemovedEnd(pages, m, k);
      RemovedAt(pages, m, k);
      UnlinkedPage(pages, m, k, 0);
      m', ref' := Removed(m, k), RemovedRef(m, k, ref1);
      SameEntriesCompose(l, ref, m, ref1, m', ref');
      RemovedIsThinner(pages, m, k, l.recs);
      RemovedPages(pages, m, k);
      hide Fit, Removed, RemovedRef, SameEntries, Live, Before, Span;
      area.pages := area.pages[lastPage := area.pages[lastPage].(next := next)];
      area.pages := area.pages - {curr};
    }

    /** nova_inode_log_fast_gc: pages before the tail page whose counters say that all their
        entries are dead are unlinked and freed; the first page last. */
    method FastGC(ghost l: Log, ghost ref: map<nat, nat>) returns (ghost m: Log, ghost ref': map<nat, nat>)
      requires Fit(area.pages, l, slots, ref) && head == l.chain[0] && tail == At(l, |l.path|)
      modifies `head, area
      ensures Fit(area.pages, m, slots, ref') && head == m.chain[0] && tail == At(m, |m.path|)
      ensures Live(m.recs) == Live(l.recs) && Thinner(l.recs, m.recs) && SameEntries(l, ref, m, ref')
      ensures m.chain == Uneven(old(area.pages), l.chain, Rank(l, |l.path|)) + l.chain[Rank(l, |l.path|)..]
      ensures forall p :: p in area.pages <==>
                p in old(area.pages) && !(p in l.chain[..Rank(l, |l.path|)] && Even(old(area.pages)[p]))
    {
      hide Thinner, Fit, SameEntries, Live, Swept, Uneven, Scanning, Distinct, At;
      ScanStarts(l, ref);
      TailOfChain(area.pages, l, slots, ref);
      ghost var pages0, i: nat := area.pages, 0;
      StartSweep(pages0, l);
      m, ref' := l, ref;
      var curr, possibleHead, lastPage: nat, foundHead, firstNeedFree := head, 0, 0, false, false;
      ghost var k := 0;
      while curr != 0
        invariant Scanning(l, ref, m, ref', k, curr, lastPage, firstNeedFree)
        invariant k < |m.chain| && curr == m.chain[k]
        invariant if foundHead then k > First(firstNeedFree) && possibleHead == m.chain[First(firstNeedFree)]
                  else k == First(firstNeedFree)
        invariant Swept(pages0, area.pages, l.chain, m, i, k, firstNeedFree)
        decreases |m.chain| - k
      {
        ScanSees(l, ref, m, ref', k, curr, lastPage, firstNeedFree);
        SweepSees(pages0, area.pages, l.chain, m, i, k, firstNeedFree);
        if curr == tail.page {
          if !foundHead {
            possibleHead := curr;
          }
          break;
        }
        var next := area.pages[curr].next;
        if area.pages[curr].invalid == area.pages[curr].num {
          if curr == head {
            SweptFirst(pages0, area.pages, l.chain, m, i);
            ScanMoves(l, ref, m, ref', k, curr, lastPage, firstNeedFree, true);
            firstNeedFree := true;
            lastPage := curr;
            k := k + 1;
          } else {
            ghost var now, m0 := area.pages, m;
            m, ref' := RemovePage(lastPage, curr, next, l, ref, m, ref', k, firstNeedFree);
            ScanSees(l, ref, m, ref', k, next, lastPage, firstNeedFree);
            SweptDrops(pages0, now, l.chain, m0, m, i, k, firstNeedFree, lastPage, next);
          }
        } else {
          SweptKeeps(pages0, area.pages, l.chain, m, i, k, firstNeedFree);
          ScanMoves(l, ref, m, ref', k, curr, lastPage, firstNeedFree, false);
          if !foundHead {
            possibleHead := curr;
            foundHead := true;
          }
          lastPage := curr;
          k := k + 1;
        }
        curr := next;
        i := i + 1;
      }
      ScanSees(l, ref, m, ref', k, curr, lastPage, firstNeedFree);
      SweepEnds(pages0, area.pages, l, m, i, k, firstNeedFree);
      if firstNeedFree {
        m, ref' := FreeFirstPage(possibleHead, l, ref, m, ref', k, curr, lastPage);
      } else {
        ScanEnds(l, ref, m, ref', k, curr, lastPage, firstNeedFree);
        head := possibleHead;
      }
    }

    lemma FirstRemoved(l: Log, ref: map<nat, nat>, m: Log, ref1: map<nat, nat>, k: nat, curr: nat, lastPage: nat)
      returns (m': Log, ref': map<nat, nat>)
      requires Scanning(l, ref, m, ref1, k, curr, lastPage, true) && LogSized(m) && |m.chain| > 1
      ensures Fit(area.pages - {head}, m', slots, ref') && m'.chain != [] && m'.chain[0] == m.chain[1]
      ensures LogSized(m') && tail == At(m', |m'.path|) && Live(m'.recs) == Live(l.recs)
      ensures Thinner(l.recs, m'.recs) && SameEntries(l, ref, m', ref') && m'.chain == m.chain[1..]
    {
      m', ref' := Removed(m, 0), RemovedRef(m, 0, ref1);
      RemovedPages(area.pages, m, 0);
      RemovedIsThinner(area.pages, m, 0, l.recs);
      assert Unlinked(area.pages, m, 0) == area.pages - {head};
      RemovedEnd(area.pages, m, 0);
      RemovedAt(area.pages, m, 0);
      RemovedFits(area.pages, m, 0, slots, ref1);
      hide Removed, RemovedRef, SameEntries, Live, Before, Span, Unlinked, Fit;
      SameEntriesCompose(l, ref, m, ref1, m', ref');
    }

    /** The head moves to the first page that was kept, and the old first page is freed. */
    method FreeFirstPage(possibleHead: nat, ghost l: Log, ghost ref: map<nat, nat>, ghost m: Log,
                         ghost ref1: map<nat, nat>, ghost k: nat, ghost curr: nat, ghost lastPage: nat)
      returns (ghost m': Log, ghost ref': map<nat, nat>)
      requires Scanning(l, ref, m, ref1, k, curr, lastPage, true) && LogSized(m) && |m.chain| > 1
      requires possibleHead == m.chain[1]
      modifies `head, area
      ensures Fit(area.pages, m', slots, ref') && head == m'.chain[0] && tail == At(m', |m'.path|)
      ensures Live(m'.recs) == Live(l.recs) && Thinner(l.recs, m'.recs) && SameEntries(l, ref, m', ref')
      ensures m'.chain == m.chain[1..] && area.pages == old(area.pages) - {m.chain[0]}
    {
      m', ref' := FirstRemoved(l, ref, m, ref1, k, curr, lastPage);
      hide Scanning, Thinner, Fit, Removed, RemovedRef, SameEntries, Live, Before, Span;
      var oldHead := head;
      head := possibleHead;
      area.pages := area.pages - {oldHead};
    }
  }

  lemma PagesOfMore(chain: seq<nat>, k: nat)
    requires k < |chain|
    ensures PagesOf(chain[..k + 1]) == PagesOf(chain[..k]) + {chain[k]}
  {
    var a, b := chain[..k], chain[..k + 1];
    assert b[k] == chain[k];
    forall x | x in PagesOf(b) ensures x in PagesOf(a) + {chain[k]} {
      var j :| 0 <= j < |b| && b[j] == x;
      if j < k { assert a[j] == x; }
    }
    forall x | x in PagesOf(a) ensures x in PagesOf(b) {
      var j :| 0 <= j < |a| && a[j] == x;
      assert b[j] == x;
    }
  }

  lemma OnFirstPage(pages: Pages, l: Log)
    requires LogOk(pages, l)
    ensures l.chain[0] == At(l, |l.path|).page <==> Rank(l, |l.path|) == 0
  {
    EndIsOnItsPage(pages, l, |l.path|);
  }

  lemma FreshParts(pages: Pages, a: seq<nat>, b: seq<nat>)
    requires FreshPages(pages, a + b)
    ensures FreshPages(pages, a) && forall k :: 0 <= k < |b| ==> b[k] != 0 && b[k] !in pages && b[k] !in a
    ensures Distinct(b)
  {
    var c := a + b;
    assert forall k :: 0 <= k < |a| ==> c[k] == a[k];
    assert forall k :: 0 <= k < |b| ==> c[|a| + k] == b[k];
  }

  /** An entry lies on the tail page exactly if it is none of those before it. */
  lemma OnTailPage(pages: Pages, l: Log, i: nat)
    requires LogOk(pages, l) && i < |l.path|
    ensures
      var t := Rank(l, |l.path|);
      l.path[i].page == At(l, |l.path|).page <==> i >= Before(l, t, |l.path|)
  {
    var t := Rank(l, |l.path|);
    EndIsOnItsPage(pages, l, |l.path|);
    EndsIncrease(pages, l, i, |l.path|);
    assert EntryOk(pages, l, i);
    if i < Before(l, t, |l.path|) {
      BeforeIsBefore(pages, l, t, i);
    }
  }

  lemma StillThere(pages: Pages, pages': Pages, l: Log, n: Log, n': Log, page: nat)
    requires LogOk(pages, l) && LogOk(pages, n) && ApartChains(l.chain, n.chain) && page !in pages
    requires OnlyChain(pages, pages', n.chain) && (n'.chain == n.chain || n'.chain == n.chain + [page])
    ensures LogOk(pages', l) && ApartChains(l.chain, n'.chain)
    ensures forall k :: 0 <= k < |l.chain| ==>
            l.chain[k] in pages' && l.chain[k] in pages && pages'[l.chain[k]] == pages[l.chain[k]]
  {
    forall k | 0 <= k < |l.chain| ensures l.chain[k] in pages' && pages'[l.chain[k]] == pages[l.chain[k]] {
      assert l.chain[k] !in n.chain;
    }
    LogFrame(pages, pages', l);
  }

  // ---------------------------------------------------------------- fast collection

  /** The log without the page of rank r and its entries. */
  function Removed(l: Log, r: nat): Log
    requires LogSized(l) && r < |l.chain|
  {
    var a, b := Before(l, r, |l.path|), Before(l, r + 1, |l.path|);
    if a > b then l else
    Log(l.chain[..r] + l.chain[r + 1..], l.path[..a] + l.path[b..],
        l.at[..a] + seq(|l.path| - b, j requires 0 <= j < |l.path| - b => if l.at[b + j] > 0 then l.at[b + j] - 1
          else 0),
        l.recs[..a] + l.recs[b..])
  }

  /** Just this page leaves the chain. */
  lemma RemovedPages(pages: Pages, l: Log, r: nat)
    requires LogOk(pages, l) && r < Rank(l, |l.path|)
    ensures Removed(l, r).chain == l.chain[..r] + l.chain[r + 1..]
  {
    PageSpan(pages, l, r);
  }

  // ---------------------------------------------------------------- which pages the scan drops

  /** The counters of a page are equal. */
  predicate Even(p: LogPage) {
    p.invalid == p.num
  }

  /** Those of the first n pages of the chain whose counters are not equal. */
  function Uneven(pages: Pages, chain: seq<nat>, n: nat): seq<nat>
    requires n <= |chain|
  {
    if n == 0 then []
    else Uneven(pages, chain, n - 1)
         + if chain[n - 1] in pages && Even(pages[chain[n - 1]]) then [] else [chain[n - 1]]
  }

  /** What the scan has done to the chain when it has come to page i of the old one: the pages whose counters are
      equal have left the chain and are free, but for the first one. */
  ghost predicate Swept(pages: Pages, now: Pages, chain: seq<nat>, m: Log, i: nat, k: nat, firstNeedFree: bool) {
    && i <= |chain| && k <= |m.chain| && m.chain[k..] == chain[i..] && k <= i && (k == 0 ==> i == 0)
    && (firstNeedFree ==> i > 0 && chain[0] in pages && Even(pages[chain[0]]))
    && m.chain[..k] == (if firstNeedFree then [chain[0]] else []) + Uneven(pages, chain, i)
    && (forall p :: p in now ==> p in pages && now[p].invalid == pages[p].invalid && now[p].num == pages[p].num)
    && (forall p :: p in pages ==>
          (p in now <==> !(p in chain[..i] && Even(pages[p])) || (firstNeedFree && p == chain[0])))
  }

  lemma StartSweep(pages: Pages, l: Log)
    ensures Swept(pages, pages, l.chain, l, 0, 0, false)
  {
  }

  lemma SweepSees(pages: Pages, now: Pages, chain: seq<nat>, m: Log, i: nat, k: nat, firstNeedFree: bool)
    requires Swept(pages, now, chain, m, i, k, firstNeedFree) && k < |m.chain|
    ensures i < |chain| && m.chain[k] == chain[i]
    ensures firstNeedFree ==> m.chain[0] == chain[0]
    ensures k == 0 ==> i == 0 && !firstNeedFree
  {
    assert m.chain[k..][0] == chain[i..][0];
    if firstNeedFree {
      assert m.chain[..k][0] == chain[0];
    }
  }

  lemma NextOfChain(chain: seq<nat>, i: nat)
    requires i < |chain|
    ensures chain[..i + 1] == chain[..i] + [chain[i]] && chain[i + 1..] == chain[i..][1..]
  {
  }

  lemma SweptKeeps(pages: Pages, now: Pages, chain: seq<nat>, m: Log, i: nat, k: nat, firstNeedFree: bool)
    requires Swept(pages, now, chain, m, i, k, firstNeedFree) && k < |m.chain|
    requires m.chain[k] in now && !Even(now[m.chain[k]])
    ensures Swept(pages, now, chain, m, i + 1, k + 1, firstNeedFree)
  {
    SweepSees(pages, now, chain, m, i, k, firstNeedFree);
    NextOfChain(chain, i);
    NextOfChain(m.chain, k);
  }

  lemma SweptFirst(pages: Pages, now: Pages, chain: seq<nat>, m: Log, i: nat)
    requires Swept(pages, now, chain, m, i, 0, false) && i == 0 && m.chain != []
    requires m.chain[0] in now && Even(now[m.chain[0]])
    ensures Swept(pages, now, chain, m, 1, 1, true)
  {
    SweepSees(pages, now, chain, m, 0, 0, false);
    NextOfChain(chain, 0);
    NextOfChain(m.chain, 0);
  }

  lemma SweptDrops(pages: Pages, now: Pages, chain: seq<nat>, m: Log, m': Log, i: nat, k: nat, firstNeedFree: bool,
                   last: nat, next: nat)
    requires Swept(pages, now, chain, m, i, k, firstNeedFree) && 0 < k < |m.chain| && Distinct(chain)
    requires last in now && last != m.chain[k] && m.chain[k] in now && Even(now[m.chain[k]])
    requires m'.chain == m.chain[..k] + m.chain[k + 1..]
    ensures Swept(pages, now[last := now[last].(next := next)] - {m.chain[k]}, chain, m', i + 1, k, firstNeedFree)
  {
    SweepSees(pages, now, chain, m, i, k, firstNeedFree);
    NextOfChain(chain, i);
    NextOfChain(m.chain, k);
  }

  /** At the tail page. */
  lemma SweepEnds(pages: Pages, now: Pages, l: Log, m: Log, i: nat, k: nat, firstNeedFree: bool)
    requires Swept(pages, now, l.chain, m, i, k, firstNeedFree) && LogSized(l) && Distinct(l.chain) && k < |m.chain|
    requires m.chain[k] == l.chain[Rank(l, |l.path|)]
    ensures
      var r := Rank(l, |l.path|);
      && m.chain == (if firstNeedFree then [l.chain[0]] else []) + (Uneven(pages, l.chain, r) + l.chain[r..])
      && (firstNeedFree ==> m.chain[0] == l.chain[0] && m.chain[1..] == Uneven(pages, l.chain, r) + l.chain[r..])
      && forall p :: p in (if firstNeedFree then now - {l.chain[0]} else now)
           <==> p in pages && !(p in l.chain[..r] && Even(pages[p]))
  {
    SweepSees(pages, now, l.chain, m, i, k, firstNeedFree);
    assert m.chain == m.chain[..k] + m.chain[k..];
    assert firstNeedFree ==> l.chain[0] in l.chain[..i];
  }

  lemma TailOfChain(pages: Pages, l: Log, slots: Slots, ref: map<nat, nat>)
    requires Fit(pages, l, slots, ref)
    ensures LogSized(l) && Distinct(l.chain) && At(l, |l.path|).page == l.chain[Rank(l, |l.path|)]
  {
    EndIsOnItsPage(pages, l, |l.path|);
  }

  /** The entries of a page are consecutive. */
  lemma PageSpan(pages: Pages, l: Log, r: nat)
    requires LogOk(pages, l) && r < Rank(l, |l.path|)
    ensures
      var a, b := Before(l, r, |l.path|), Before(l, r + 1, |l.path|);
      && a <= b < |l.path| && (forall i :: 0 <= i < a ==> l.at[i] < r) && (forall i :: a <= i < b ==> l.at[i] == r)
      && (forall i :: b <= i < |l.path| ==> l.at[i] > r)
      && l.at[b] == r + 1 && Rank(l, b) <= r && (r > 0 ==> a < b && Rank(l, a) == r - 1 && l.at[a] == r)
  {
    var n := |l.path|;
    var a, b := Before(l, r, n), Before(l, r + 1, n);
    forall i | 0 <= i < a ensures l.at[i] < r { BeforeIsBefore(pages, l, r, i); }
    forall i | 0 <= i < b ensures l.at[i] < r + 1 { BeforeIsBefore(pages, l, r + 1, i); }
    assert l.at[n - 1] == Rank(l, n);
    assert EntryOk(pages, l, b);
    if a < n { assert EntryOk(pages, l, a); }
  }

  /** free_curr_page: the page before links past the page of rank r, which is freed. */
  function Unlinked(pages: Pages, l: Log, r: nat): Pages
    requires LogSized(l) && r < |l.chain| && l.chain[r] in pages && (r > 0 ==> l.chain[r - 1] in pages)
  {
    if r == 0 then pages - {l.chain[r]}
    else pages[l.chain[r - 1] := pages[l.chain[r - 1]].(next := pages[l.chain[r]].next)] - {l.chain[r]}
  }

  ghost predicate MayRemove(pages: Pages, l: Log, r: nat) {
    LogOk(pages, l) && r < Rank(l, |l.path|)
  }

  /** Entry j of l is entry j - d of z, on the page before. */
  predicate Shifted(l: Log, z: Log, d: nat, j: nat) {
    && d <= j < |l.path| && j < |l.recs| && j < |l.at| && j - d < |z.path| && j - d < |z.recs| && j - d < |z.at|
    && z.path[j - d] == l.path[j] && z.recs[j - d] == l.recs[j] && z.at[j - d] + 1 == l.at[j]
  }

  predicate Unmoved(l: Log, z: Log, i: nat) {
    && i < |l.path| && i < |l.recs| && i < |l.at| && i < |z.path| && i < |z.recs| && i < |z.at|
    && z.path[i] == l.path[i] && z.recs[i] == l.recs[i] && z.at[i] == l.at[i]
  }

  /** z is l without the entries [a, a + d) and without page r. */
  ghost predicate Without(l: Log, z: Log, r: nat, a: nat, d: nat) {
    && |l.path| == |l.at| == |l.recs| && a + d < |l.path| && r < |l.chain|
    && |z.path| == |z.at| == |z.recs| == |l.path| - d && |z.chain| == |l.chain| - 1
    && (forall i :: 0 <= i < a ==> Unmoved(l, z, i))
    && (forall j :: a + d <= j < |l.path| ==> Shifted(l, z, d, j))
    && (forall k :: 0 <= k < r ==> z.chain[k] == l.chain[k])
    && (forall k :: r < k < |l.chain| ==> z.chain[k - 1] == l.chain[k])
  }

  /** The number of entries on page r. */
  function Span(l: Log, r: nat): int
    requires LogSized(l)
  {
    Before(l, r + 1, |l.path|) - Before(l, r, |l.path|)
  }

  lemma RemovedAt(pages: Pages, l: Log, r: nat)
    requires MayRemove(pages, l, r)
    ensures Span(l, r) >= 0 && Without(l, Removed(l, r), r, Before(l, r, |l.path|), Span(l, r))
  {
    PageSpan(pages, l, r);
    RemovedSpan(l, r, Before(l, r, |l.path|), Before(l, r + 1, |l.path|));
  }

  lemma RemovedSpan(l: Log, r: nat, a: nat, b: nat)
    requires LogSized(l) && r < |l.chain| && a == Before(l, r, |l.path|) && b == Before(l, r + 1, |l.path|)
    requires a <= b < |l.path|
    requires forall i :: b <= i < |l.path| ==> l.at[i] > r
    ensures Without(l, Removed(l, r), r, a, b - a)
  {
    hide Before, Rank, At;
    var z, d := Removed(l, r), b - a;
    assert z.path == l.path[..a] + l.path[b..] && z.recs == l.recs[..a] + l.recs[b..]
      && z.chain == l.chain[..r] + l.chain[r + 1..];
    forall j | a + d <= j < |l.path| ensures Shifted(l, z, d, j) {
      assert l.at[j] > r && z.at[a + (j - b)] == l.at[b + (j - b)] - 1;
    }
    forall i | 0 <= i < a ensures Unmoved(l, z, i) { }
  }

  lemma RemovedSized(pages: Pages, l: Log, r: nat)
    requires MayRemove(pages, l, r)
    ensures LogSized(Removed(l, r))
  {
    RemovedAt(pages, l, r);
    PageSpan(pages, l, r);
    var z, a, d := Removed(l, r), Before(l, r, |l.path|), Span(l, r);
    hide Removed, Before, EntryOk, ChainOk, Span;
    forall i | 0 <= i < |z.at| ensures z.at[i] < |z.chain| {
      if i < a {
        assert Unmoved(l, z, i) && l.at[i] < r;
      } else {
        assert Shifted(l, z, d, i + d) && l.at[i + d] < |l.chain|;
      }
    }
  }

  lemma UnlinkedPage(pages: Pages, l: Log, r: nat, k: nat)
    requires MayRemove(pages, l, r) && k < |l.chain| && k != r
    ensures
      var z := Unlinked(pages, l, r);
      && l.chain[k] in z && z[l.chain[k]].cells == pages[l.chain[k]].cells
      && z[l.chain[k]].next == (if k + 1 == r then NextOf(l.chain, r) else NextOf(l.chain, k))
      && z[l.chain[k]].num == pages[l.chain[k]].num && z[l.chain[k]].invalid == pages[l.chain[k]].invalid
  {
    assert LinkTo(pages, l.chain, r);
    assert LinkTo(pages, l.chain, k);
    assert l.chain[k] != l.chain[r];
    if r > 0 { assert l.chain[r - 1] != l.chain[r]; }
  }

  lemma RemovedLink(pages: Pages, l: Log, r: nat, k: nat)
    requires MayRemove(pages, l, r) && k < |l.chain| && k != r
    ensures
      var z, c, i := Unlinked(pages, l, r), Removed(l, r).chain, if k < r then k else k - 1;
      i < |c| && c[i] == l.chain[k] && c[i] != 0 && c[i] in z && LinkTo(z, c, i)
  {
    RemovedAt(pages, l, r);
    UnlinkedPage(pages, l, r, k);
    hide Unlinked, Before, EntryOk, Distinct;
  }

  lemma DistinctWithout(c: seq<nat>, r: nat)
    requires Distinct(c) && r < |c|
    ensures Distinct(c[..r] + c[r + 1..])
  {
    var d := c[..r] + c[r + 1..];
    forall j, k | 0 <= j < k < |d| ensures d[j] != d[k] {
      assert c[if j < r then j else j + 1] != c[if k < r then k else k + 1];
    }
  }

  lemma RemovedDistinct(pages: Pages, l: Log, r: nat)
    requires MayRemove(pages, l, r)
    ensures Distinct(Removed(l, r).chain)
  {
    PageSpan(pages, l, r);
    DistinctWithout(l.chain, r);
  }

  lemma RemovedLinkAt(pages: Pages, l: Log, r: nat, i: nat)
    requires MayRemove(pages, l, r) && i < |Removed(l, r).chain|
    ensures Removed(l, r).chain[i] != 0 && Removed(l, r).chain[i] in Unlinked(pages, l, r)
    ensures LinkTo(Unlinked(pages, l, r), Removed(l, r).chain, i)
  {
    RemovedAt(pages, l, r);
    RemovedLink(pages, l, r, if i < r then i else i + 1);
    hide Removed, Before, EntryOk, Unlinked, Distinct;
  }

  lemma RemovedChain(pages: Pages, l: Log, r: nat)
    requires MayRemove(pages, l, r)
    ensures ChainOk(Unlinked(pages, l, r), Removed(l, r).chain)
  {
    RemovedDistinct(pages, l, r);
    var z, c := Unlinked(pages, l, r), Removed(l, r).chain;
    hide Removed, Before, EntryOk, Unlinked, Distinct, MayRemove, LogOk;
    forall i | 0 <= i < |c| ensures c[i] != 0 && c[i] in z && LinkTo(z, c, i) {
      RemovedLinkAt(pages, l, r, i);
    }
  }

  /** An entry whose page and predecessor keep their cells is right in any log that has both. */
  lemma EntryMoves(pages: Pages, l: Log, j: nat, pages': Pages, z: Log, i: nat)
    requires LogOk(pages, l) && LogSized(z) && j < |l.path| && i < |z.path|
    requires z.path[i] == l.path[j] && z.recs[i] == l.recs[j] && At(z, i) == At(l, j)
    requires z.chain[z.at[i]] == l.chain[l.at[j]] && z.at[i] - Rank(z, i) == l.at[j] - Rank(l, j)
    requires l.path[j].page in pages' && l.path[j].page in pages
    requires pages'[l.path[j].page].cells == pages[l.path[j].page].cells
    requires At(l, j).page in pages' && At(l, j).page in pages
    requires pages'[At(l, j).page].cells == pages[At(l, j).page].cells
    ensures EntryOk(pages', z, i)
  {
    assert EntryOk(pages, l, j);
  }

  lemma RemovedEntryBefore(pages: Pages, l: Log, r: nat, i: nat)
    requires MayRemove(pages, l, r) && i < Before(l, r, |l.path|)
    ensures LogSized(Removed(l, r)) && i < |Removed(l, r).path| && EntryOk(Unlinked(pages, l, r), Removed(l, r), i)
  {
    UnmovedPlace(pages, l, r, i);
    CellsKept(pages, l, r, i);
    assert l.chain[r] in pages && (r > 0 ==> l.chain[r - 1] in pages);
    hide EntryOk, Removed, Unlinked, Before, ChainOk;
    EntryMoves(pages, l, i, Unlinked(pages, l, r), Removed(l, r), i);
  }

  lemma UnmovedPlace(pages: Pages, l: Log, r: nat, i: nat)
    requires MayRemove(pages, l, r) && i < Before(l, r, |l.path|)
    ensures LogSized(Removed(l, r)) && Unmoved(l, Removed(l, r), i)
    ensures l.at[i] < r && Rank(l, i) < r && Rank(Removed(l, r), i) == Rank(l, i) && At(Removed(l, r), i) == At(l, i)
    ensures Removed(l, r).chain[l.at[i]] == l.chain[l.at[i]]
  {
    RemovedAt(pages, l, r);
    RemovedSized(pages, l, r);
    PageSpan(pages, l, r);
    hide EntryOk, Removed, Before, ChainOk;
    assert Unmoved(l, Removed(l, r), i);
    if i > 0 {
      assert Unmoved(l, Removed(l, r), i - 1);
    } else {
      assert Removed(l, r).chain[0] == l.chain[0];
    }
  }

  /** Where an entry behind the removed page is now. */
  lemma ShiftedPlace(pages: Pages, l: Log, r: nat, j: nat)
    requires MayRemove(pages, l, r) && Before(l, r + 1, |l.path|) < j < |l.path|
    ensures LogSized(Removed(l, r)) && 0 <= Span(l, r) <= j && Shifted(l, Removed(l, r), Span(l, r), j)
    ensures
      var z, i := Removed(l, r), j - Span(l, r);
      l.at[j] > r && Rank(l, j) > r && At(z, i) == At(l, j) && Rank(z, i) == Rank(l, j) - 1
        && z.chain[z.at[i]] == l.chain[l.at[j]]
  {
    hide EntryOk, Removed, ChainOk, Without;
    RemovedAt(pages, l, r);
    RemovedSized(pages, l, r);
    PageSpan(pages, l, r);
    var d := Span(l, r);
    assert Before(l, r, |l.path|) + d <= j - 1;
    assert LogSized(l);
    hide Before, Span, LogOk, MayRemove, Distinct;
    assert Shifted(l, Removed(l, r), d, j) && Shifted(l, Removed(l, r), d, j - 1);
    assert Removed(l, r).chain[l.at[j] - 1] == l.chain[l.at[j]];
  }

  lemma CellsKept(pages: Pages, l: Log, r: nat, j: nat)
    requires MayRemove(pages, l, r) && j < |l.path| && l.at[j] != r && Rank(l, j) != r
    ensures
      var z := Unlinked(pages, l, r);
      && l.path[j].page in pages && l.path[j].page in z && z[l.path[j].page].cells == pages[l.path[j].page].cells
      && At(l, j).page in pages && At(l, j).page in z && z[At(l, j).page].cells == pages[At(l, j).page].cells
  {
    EndIsOnItsPage(pages, l, j);
    assert EntryOk(pages, l, j);
    UnlinkedPage(pages, l, r, l.at[j]);
    UnlinkedPage(pages, l, r, Rank(l, j));
  }

  lemma RemovedEntryAfter(pages: Pages, l: Log, r: nat, j: nat)
    requires MayRemove(pages, l, r) && Before(l, r + 1, |l.path|) < j < |l.path|
    ensures LogSized(Removed(l, r)) && 0 <= Span(l, r) <= j && j - Span(l, r) < |Removed(l, r).path|
    ensures EntryOk(Unlinked(pages, l, r), Removed(l, r), j - Span(l, r))
  {
    ShiftedPlace(pages, l, r, j);
    CellsKept(pages, l, r, j);
    assert l.chain[r] in pages && (r > 0 ==> l.chain[r - 1] in pages);
    hide EntryOk, Removed, Unlinked, Before, ChainOk, Span;
    EntryMoves(pages, l, j, Unlinked(pages, l, r), Removed(l, r), j - Span(l, r));
  }

  /** The first entry behind the removed page: the page before it now leads there. */
  lemma RemovedEntryFirst(pages: Pages, l: Log, r: nat)
    requires MayRemove(pages, l, r)
    ensures LogSized(Removed(l, r))
    ensures
      var i := Before(l, r, |l.path|);
      i < |Removed(l, r).path| && EntryOk(Unlinked(pages, l, r), Removed(l, r), i)
  {
    var a, b := Before(l, r, |l.path|), Before(l, r + 1, |l.path|);
    FirstPlace(pages, l, r);
    assert EntryOk(pages, l, b);
    UnlinkedPage(pages, l, r, r + 1);
    if r > 0 {
      assert EntryOk(pages, l, a);
      EndIsOnItsPage(pages, l, a);
      UnlinkedPage(pages, l, r, r - 1);
    }
    hide Removed, Unlinked, Before, Distinct;
  }

  lemma FirstPlace(pages: Pages, l: Log, r: nat)
    requires MayRemove(pages, l, r)
    ensures LogSized(Removed(l, r))
    ensures
      var a, b, z := Before(l, r, |l.path|), Before(l, r + 1, |l.path|), Removed(l, r);
      && a < |z.path| && a <= b < |l.path| && z.path[a] == l.path[b] && z.recs[a] == l.recs[b] && z.at[a] == r
      && l.at[b] == r + 1 && l.path[b].loc == 0 && z.chain[r] == l.chain[r + 1]
      && (if r > 0 then a < b && l.at[a] == r && Rank(l, a) == r - 1 && Rank(z, a) == r - 1 && At(z, a) == At(l, a)
          else Rank(z, a) == 0 && At(z, a) == Pos(l.chain[1], 0))
  {
    RemovedAt(pages, l, r);
    RemovedSized(pages, l, r);
    PageSpan(pages, l, r);
    var a, b, z := Before(l, r, |l.path|), Before(l, r + 1, |l.path|), Removed(l, r);
    assert EntryOk(pages, l, b);
    assert Shifted(l, z, b - a, b);
    hide Removed, Before, ChainOk, EntryOk;
    if a > 0 {
      assert Unmoved(l, z, a - 1);
    }
  }

  lemma RemovedEnd(pages: Pages, l: Log, r: nat)
    requires MayRemove(pages, l, r)
    ensures LogSized(Removed(l, r)) && 0 <= Span(l, r) < |l.path| && |Removed(l, r).path| == |l.path| - Span(l, r)
    ensures At(Removed(l, r), |Removed(l, r).path|) == At(l, |l.path|)
    ensures Rank(Removed(l, r), |Removed(l, r).path|) == Rank(l, |l.path|) - 1
  {
    RemovedAt(pages, l, r);
    RemovedSized(pages, l, r);
    hide Removed, Before, ChainOk, EntryOk, Span;
    assert Shifted(l, Removed(l, r), Span(l, r), |l.path| - 1);
  }

  lemma RemovedEntry(pages: Pages, l: Log, r: nat, i: nat)
    requires MayRemove(pages, l, r) && i < |Removed(l, r).path|
    ensures LogSized(Removed(l, r)) && EntryOk(Unlinked(pages, l, r), Removed(l, r), i)
  {
    RemovedEnd(pages, l, r);
    assert LogSized(l);
    assert l.chain[r] in pages && (r > 0 ==> l.chain[r - 1] in pages);
    var a := Before(l, r, |l.path|);
    hide EntryOk, ChainOk, Removed, Unlinked, Before, Distinct, LogOk, MayRemove;
    if i < a {
      RemovedEntryBefore(pages, l, r, i);
    } else if i == a {
      RemovedEntryFirst(pages, l, r);
    } else {
      RemovedEntryAfter(pages, l, r, i + Span(l, r));
    }
  }

  /** Unlinking a page before the tail page leaves a log with the other entries. */
  lemma RemovedIsLog(pages: Pages, l: Log, r: nat)
    requires MayRemove(pages, l, r)
    ensures LogOk(Unlinked(pages, l, r), Removed(l, r))
    ensures At(Removed(l, r), |Removed(l, r).path|) == At(l, |l.path|)
    ensures Rank(Removed(l, r), |Removed(l, r).path|) == Rank(l, |l.path|) - 1
  {
    RemovedEnd(pages, l, r);
    RemovedChain(pages, l, r);
    var z, pages' := Removed(l, r), Unlinked(pages, l, r);
    hide EntryOk, Removed, Unlinked, Before;
    forall i | 0 <= i < |z.path| ensures EntryOk(pages', z, i) {
      RemovedEntry(pages, l, r, i);
    }
  }

  lemma {:induction false} LiveConcat(x: seq<Rec>, y: seq<Rec>)
    ensures Live(x + y) == Live(x) + Live(y)
  {
    if y == [] {
      assert x + y == x;
    } else {
      var front := y[..|y| - 1];
      assert (x + y)[..|x + y| - 1] == x + front;
      LiveConcat(x, front);
    }
  }

  lemma {:induction false} DeadLeaveNothing(x: seq<Rec>)
    requires forall i :: 0 <= i < |x| ==> FileBooks.Dead(x[i].e)
    ensures Live(x) == []
  {
    if x != [] {
      DeadLeaveNothing(x[..|x| - 1]);
    }
  }

  lemma LiveWithout(recs: seq<Rec>, a: nat, b: nat)
    requires a <= b <= |recs| && forall i :: a <= i < b ==> FileBooks.Dead(recs[i].e)
    ensures Live(recs[..a] + recs[b..]) == Live(recs)
  {
    hide Live, FileBooks.Dead;
    SliceTwice(recs, a, b);
    DropDead(recs[..a], recs[a..b], recs[b..], recs[..b]);
  }

  lemma SliceTwice<T>(s: seq<T>, a: nat, b: nat)
    requires a <= b <= |s|
    ensures s[..b] == s[..a] + s[a..b] && s == s[..b] + s[b..]
    ensures forall i :: 0 <= i < b - a ==> s[a..b][i] == s[a + i]
  {
  }

  lemma DropDead(x: seq<Rec>, y: seq<Rec>, w: seq<Rec>, xy: seq<Rec>)
    requires xy == x + y && forall i :: 0 <= i < |y| ==> FileBooks.Dead(y[i].e)
    ensures Live(x + w) == Live(xy + w)
  {
    DeadLeaveNothing(y);
    LiveConcat(x, y);
    LiveConcat(xy, w);
    LiveConcat(x, w);
    hide Live;
    assert Live(xy) == Live(x);
  }

  /** When a page with equal counters goes, the live entries stay, in their order. */
  lemma RemovedLive(pages: Pages, l: Log, r: nat)
    requires MayRemove(pages, l, r) && CountersOk(pages, l)
    requires l.chain[r] in pages && pages[l.chain[r]].invalid == pages[l.chain[r]].num
    ensures Live(Removed(l, r).recs) == Live(l.recs)
  {
    PageSpan(pages, l, r);
    var a, b, recs := Before(l, r, |l.path|), Before(l, r + 1, |l.path|), Removed(l, r).recs;
    assert recs == l.recs[..a] + l.recs[b..];
    hide Before, EntryOk, ChainOk, Removed, CountersOk, Live, Distinct;
    forall i | a <= i < b ensures FileBooks.Dead(l.recs[i].e) { EqualMeansDead(pages, l, r, i); }
    LiveWithout(l.recs, a, b);
  }

  function RemovedRef(l: Log, r: nat, ref: map<nat, nat>): map<nat, nat>
    requires LogSized(l)
  {
    map p | p in ref :: if ref[p] < Before(l, r, |l.path|) then ref[p]
      else if 0 <= Span(l, r) <= ref[p] then ref[p] - Span(l, r) else 0
  }

  lemma RemovedSlot(pages: Pages, slots: Slots, l: Log, r: nat, ref: map<nat, nat>, p: nat)
    requires MayRemove(pages, l, r) && SlotsOk(slots, l, ref) && p in ref
    requires CountersOk(pages, l) && l.chain[r] in pages && pages[l.chain[r]].invalid == pages[l.chain[r]].num
    ensures LogSized(Removed(l, r)) && SlotOk(slots, Removed(l, r), RemovedRef(l, r, ref), p)
    ensures ref[p] < |l.recs| && Removed(l, r).recs[RemovedRef(l, r, ref)[p]] == l.recs[ref[p]]
  {
    RemovedAt(pages, l, r);
    RemovedSized(pages, l, r);
    PageSpan(pages, l, r);
    assert SlotOk(slots, l, ref, p) && LogSized(l);
    var j, a := ref[p], Before(l, r, |l.path|);
    if l.at[j] == r { EqualMeansDead(pages, l, r, j); }
    hide Removed, EntryOk, ChainOk, Distinct, MayRemove, LogOk;
    assert j < a || a + Span(l, r) <= j;
    hide Before;
    if j < a {
      assert Unmoved(l, Removed(l, r), j);
    } else {
      assert Shifted(l, Removed(l, r), Span(l, r), j);
    }
  }

  lemma RemovedTally(pages: Pages, l: Log, r: nat, q: nat, dead: bool)
    requires MayRemove(pages, l, r) && q < |l.chain| - 1
    ensures
      var z := Removed(l, r);
      LogSized(z) && Tally(z.at, z.recs, q, dead) == Tally(l.at, l.recs, if q < r then q else q + 1, dead)
  {
    RemovedAt(pages, l, r);
    RemovedSized(pages, l, r);
    PageSpan(pages, l, r);
    var z, a, b := Removed(l, r), Before(l, r, |l.path|), Before(l, r + 1, |l.path|);
    assert b - a == Span(l, r);
    hide Removed, Before, Span, Rank, EntryOk, ChainOk, Distinct, Tally, MayRemove, LogOk;
    RanksWithout(l, z, r, a, b, q, dead);
  }

  lemma TallyWithout(a: seq<nat>, b: seq<nat>, c: seq<nat>, c': seq<nat>, x: seq<Rec>, y: seq<Rec>, w: seq<Rec>,
                     q: nat, k: nat, dead: bool)
    requires |a| == |x| && |b| == |y| && |c| == |c'| == |w|
    requires (forall i :: 0 <= i < |a| ==> (a[i] == q <==> a[i] == k)) && (forall i :: 0 <= i < |b| ==> b[i] != k)
    requires forall i :: 0 <= i < |c| ==> (c'[i] == q <==> c[i] == k)
    ensures Tally(a + c', x + w, q, dead) == Tally(a + b + c, x + y + w, k, dead)
  {
    hide Tally;
    TallyConcat(a, x, c', w, q, dead);
    TallyConcat(a + b, x + y, c, w, k, dead);
    TallyConcat(a, x, b, y, k, dead);
    TallyNone(b, y, k, dead);
    TallySame(a, a, x, q, k, dead);
    TallySame(c', c, w, q, k, dead);
  }

  lemma Slices<T>(s: seq<T>, a: nat, b: nat)
    requires a <= b <= |s|
    ensures s == s[..a] + s[a..b] + s[b..]
    ensures forall i :: 0 <= i < a ==> s[..a][i] == s[i]
    ensures forall i :: 0 <= i < b - a ==> s[a..b][i] == s[a + i]
    ensures forall i :: 0 <= i < |s| - b ==> s[b..][i] == s[b + i]
  {
  }

  lemma RanksWithout(l: Log, z: Log, r: nat, a: nat, b: nat, q: nat, dead: bool)
    requires a <= b && Without(l, z, r, a, b - a)
    requires (forall i :: 0 <= i < a ==> l.at[i] < r) && (forall i :: a <= i < b ==> l.at[i] == r)
    requires forall i :: b <= i < |l.at| ==> l.at[i] > r
    ensures Tally(z.at, z.recs, q, dead) == Tally(l.at, l.recs, if q < r then q else q + 1, dead)
  {
    hide Tally, Without;
    SlicesWithout(l, z, r, a, b);
    Slices(l.at, a, b);
    Slices(l.recs, a, b);
    TallyWithout(l.at[..a], l.at[a..b], l.at[b..], z.at[a..], l.recs[..a], l.recs[a..b], l.recs[b..], q,
                 if q < r then q else q + 1, dead);
  }

  lemma SlicesWithout(l: Log, z: Log, r: nat, a: nat, b: nat)
    requires a <= b && Without(l, z, r, a, b - a)
    ensures a <= b <= |l.at| == |l.recs| && |z.at| == |z.recs| == |l.at| - (b - a)
    ensures z.at == l.at[..a] + z.at[a..] && z.recs == l.recs[..a] + l.recs[b..]
    ensures forall i :: 0 <= i < |l.at| - b ==> z.at[a..][i] + 1 == l.at[b..][i]
  {
    forall i | 0 <= i < a ensures z.at[i] == l.at[i] && z.recs[i] == l.recs[i] { assert Unmoved(l, z, i); }
    forall i | 0 <= i < |l.at| - b ensures z.at[a..][i] + 1 == l.at[b..][i] && z.recs[a..][i] == l.recs[b..][i] {
      assert Shifted(l, z, b - a, b + i);
    }
    assert z.recs == z.recs[..a] + z.recs[a..];
  }

  lemma RemovedCounters(pages: Pages, l: Log, r: nat)
    requires MayRemove(pages, l, r) && CountersOk(pages, l)
    ensures CountersOk(Unlinked(pages, l, r), Removed(l, r))
  {
    RemovedAt(pages, l, r);
    RemovedSized(pages, l, r);
    var z, pages' := Removed(l, r), Unlinked(pages, l, r);
    hide Removed, Unlinked, Before, Span, EntryOk, ChainOk, Distinct, Tally, FileBooks.Dead;
    forall q | 0 <= q < |z.chain| ensures CounterOk(pages', z, q) {
      var k := if q < r then q else q + 1;
      RemovedTally(pages, l, r, q, true);
      RemovedTally(pages, l, r, q, false);
      UnlinkedPage(pages, l, r, k);
      assert CounterOk(pages, l, k);
    }
  }

  /** What a fast collection keeps: the log, its slots, its counters, and its agreement with the
      index. */
  ghost predicate Fit(pages: Pages, l: Log, slots: Slots, ref: map<nat, nat>) {
    LogOk(pages, l) && SlotsOk(slots, l, ref) && CountersOk(pages, l) && FileOk(l.recs, ref)
  }

  lemma RemovedIsThinner(pages: Pages, l: Log, r: nat, x: seq<Rec>)
    requires MayRemove(pages, l, r) && CountersOk(pages, l) && Thinner(x, l.recs)
    requires l.chain[r] in pages && pages[l.chain[r]].invalid == pages[l.chain[r]].num
    ensures Thinner(x, Removed(l, r).recs)
  {
    hide EntryOk, ChainOk, Distinct, FileBooks.Dead, CountersOk, Before, Thinner;
    PageSpan(pages, l, r);
    var a, b := Before(l, r, |l.path|), Before(l, r + 1, |l.path|);
    assert Removed(l, r).recs == Dropped(l.recs, a, b);
    forall i | a <= i < b ensures FileBooks.Dead(l.recs[i].e) { EqualMeansDead(pages, l, r, i); }
    ThinnerOn(x, l.recs, a, b);
  }

  lemma RemovedFile(pages: Pages, l: Log, r: nat, ref: map<nat, nat>)
    requires MayRemove(pages, l, r) && CountersOk(pages, l) && FileOk(l.recs, ref)
    requires l.chain[r] in pages && pages[l.chain[r]].invalid == pages[l.chain[r]].num
    ensures FileOk(Removed(l, r).recs, RemovedRef(l, r, ref))
  {
    hide EntryOk, ChainOk, Distinct, FileBooks.Dead, Agrees, AttrsOk, LiveRefs, CountersOk, Before;
    PageSpan(pages, l, r);
    var a, b := Before(l, r, |l.path|), Before(l, r + 1, |l.path|);
    assert Removed(l, r).recs == Dropped(l.recs, a, b) && b - a == Span(l, r);
    forall i | a <= i < b ensures FileBooks.Dead(l.recs[i].e) { EqualMeansDead(pages, l, r, i); }
    DropKeepsFile(l.recs, ref, a, b);
    DroppedIsRemoved(pages, l, r, ref);
  }

  lemma DroppedIsRemoved(pages: Pages, l: Log, r: nat, ref: map<nat, nat>)
    requires MayRemove(pages, l, r) && CountersOk(pages, l) && LiveRefs(l.recs, ref)
    requires l.chain[r] in pages && pages[l.chain[r]].invalid == pages[l.chain[r]].num
    requires Before(l, r, |l.path|) <= Before(l, r + 1, |l.path|)
    ensures RemovedRef(l, r, ref) == DroppedRef(ref, Before(l, r, |l.path|), Before(l, r + 1, |l.path|))
  {
    hide EntryOk, ChainOk, Distinct, FileBooks.Dead, CountersOk, Before;
    PageSpan(pages, l, r);
    var a, b := Before(l, r, |l.path|), Before(l, r + 1, |l.path|);
    forall p | p in ref ensures p in RemovedRef(l, r, ref) && RemovedRef(l, r, ref)[p] == DroppedRef(ref, a, b)[p] {
      if a <= ref[p] < b { EqualMeansDead(pages, l, r, ref[p]); }
    }
  }

  lemma RemovedFits(pages: Pages, l: Log, r: nat, slots: Slots, ref: map<nat, nat>)
    requires MayRemove(pages, l, r) && Fit(pages, l, slots, ref)
    requires l.chain[r] in pages && pages[l.chain[r]].invalid == pages[l.chain[r]].num
    ensures r > 0 ==> l.chain[r - 1] in pages
    ensures Fit(Unlinked(pages, l, r), Removed(l, r), slots, RemovedRef(l, r, ref))
    ensures Live(Removed(l, r).recs) == Live(l.recs) && SameEntries(l, ref, Removed(l, r), RemovedRef(l, r, ref))
  {
    hide EntryOk, Distinct, Live, CountersOk, FileOk;
    RemovedIsLog(pages, l, r);
    RemovedLive(pages, l, r);
    RemovedCounters(pages, l, r);
    RemovedFile(pages, l, r, ref);
    var z, z', ref' := Unlinked(pages, l, r), Removed(l, r), RemovedRef(l, r, ref);
    assert ref'.Keys == ref.Keys && slots.Keys == ref.Keys;
    hide Removed, Unlinked, RemovedRef, ChainOk, SlotOk, MayRemove;
    forall p | p in ref
      ensures SlotOk(slots, z', ref', p) && ref[p] < |l.recs| && ref'[p] < |z'.recs|
      ensures z'.recs[ref'[p]] == l.recs[ref[p]]
    {
      RemovedSlot(pages, slots, l, r, ref, p);
    }
  }

  lemma SameAtFirst(pages: Pages, l: Log, slots: Slots, ref: map<nat, nat>)
    requires Fit(pages, l, slots, ref)
    ensures LogSized(l) && SameEntries(l, ref, l, ref)
  {
    forall p | p in ref ensures ref[p] < |l.recs| { assert SlotOk(slots, l, ref, p); }
  }

  lemma SameEntriesCompose(l: Log, ref: map<nat, nat>, m: Log, ref1: map<nat, nat>, m': Log, ref': map<nat, nat>)
    requires SameEntries(l, ref, m, ref1) && SameEntries(m, ref1, m', ref')
    ensures SameEntries(l, ref, m', ref')
  {
  }

  // ---------------------------------------------------------------- files that are collected

  /** A file whose log lies in the pages, and whose slots hold the addresses of its entries. */
  ghost predicate Stands(h: Header, l: Log, slots: Slots)
    reads h
  {
    && h.Valid() && LogSized(l) && Entries(l.recs) == h.log && slots.Keys == h.tree.Keys
    && forall p :: p in h.tree ==> h.tree[p] < |l.path| && slots[p] == l.path[h.tree[p]]
  }

  /** Every valid file may be collected. */
  lemma ValidFile(h: Header, l: Log, slots: Slots)
    requires Stands(h, l, slots)
    ensures SlotsOk(slots, l, h.tree) && FileOk(l.recs, h.tree)
  {
    hide FileBooks.BooksOk;
    NotYet(h.tree, h.log, h.n);
    h.SlotsCovered();
    forall p | p in h.tree ensures SlotOk(slots, l, h.tree, p) { FileBooks.DeadHasNoSlot(h.Accounts(), p); }
    assert LiveRefs(l.recs, h.tree) by {
      forall p | p in h.tree ensures !FileBooks.Dead(l.recs[h.tree[p]].e) { assert SlotOk(slots, l, h.tree, p); }
    }
  }

  /** How often the entries on the page of rank r were counted as invalid. */
  function MarksOn(at: seq<nat>, marks: seq<nat>, r: nat): nat
    requires |at| == |marks|
  {
    if at == [] then 0
    else
      var n := |at| - 1;
      MarksOn(at[..n], marks[..n], r) + if at[n] == r then marks[n] else 0
  }

  /** What the header counts as invalid was not dead yet, as InvalidateReassign asks, and both leave
      the same entry; so an entry enters the counter of its page once. */
  lemma InvalidateMeetsLive(b: FileBooks.Books, j: nat, count: nat)
    requires FileBooks.MayCount(b, j, count)
    ensures !FileBooks.Dead(b.log[j])
    ensures Superseded(b.log[j], true, count) == FileBooks.Invalidated(b.log[j], count)
  {
    assert FileBooks.EntryOk(b, j);
  }

  /** A file counts every entry when it dies, and only then: on each page as often as there are
      dead entries. */
  lemma MarksAreDead(h: Header, l: Log, slots: Slots, r: nat)
    requires Stands(h, l, slots)
    ensures |l.at| == |h.marks| && MarksOn(l.at, h.marks, r) == Tally(l.at, l.recs, r, true)
  {
    forall j | 0 <= j < |h.marks| ensures h.marks[j] == if FileBooks.Dead(l.recs[j].e) then 1 else 0 {
      assert FileBooks.EntryOk(h.Accounts(), j);
    }
    MarksTally(l.at, l.recs, h.marks, r);
  }

  lemma {:induction false} MarksTally(at: seq<nat>, recs: seq<Rec>, marks: seq<nat>, r: nat)
    requires |at| == |recs| == |marks|
    requires forall j :: 0 <= j < |marks| ==> marks[j] == if FileBooks.Dead(recs[j].e) then 1 else 0
    ensures MarksOn(at, marks, r) == Tally(at, recs, r, true)
  {
    if at != [] {
      var n := |at| - 1;
      MarksTally(at[..n], recs[..n], marks[..n], r);
    }
  }

  /** What recovery finds after a collection: the slots hold the addresses of the entries that
      the rebuilt index ref' names, and those are the entries that they held before. */
  ghost predicate SameFile(ref: map<nat, nat>, l: Log, ref': map<nat, nat>, m: Log, slots: Slots) {
    && slots.Keys == ref'.Keys == ref.Keys
    && forall p :: p in ref ==>
        && ref'[p] < |m.path| == |m.recs| && slots[p] == m.path[ref'[p]]
        && ref[p] < |l.recs| && m.recs[ref'[p]] == l.recs[ref[p]]
  }

  lemma FitIsSame(pages: Pages, l: Log, ref: map<nat, nat>, m: Log, slots: Slots, ref': map<nat, nat>)
    requires Fit(pages, m, slots, ref') && SameEntries(l, ref, m, ref')
    ensures SameFile(ref, l, ref', m, slots)
  {
    hide EntryOk, ChainOk, CountersOk, FileOk;
    forall p | p in ref'
      ensures ref'[p] < |m.path| == |m.recs| && slots[p] == m.path[ref'[p]]
    {
      assert SlotOk(slots, m, ref', p);
    }
  }

  /** What a collection leaves of a log.  A fast one drops the pages before the tail page whose counters are equal,
      and no other; a thorough one drops all pages before the tail page, and keeps their live entries. */
  ghost predicate CollectedBy(fast: bool, pages: Pages, l: Log, pages': Pages, m: Log)
    requires LogSized(l) && LogSized(m)
  {
    var r := Rank(l, |l.path|);
    if fast then
      && Live(m.recs) == Live(l.recs) && m.chain == Uneven(pages, l.chain, r) + l.chain[r..]
      && forall p :: p in pages' <==> p in pages && !(p in l.chain[..r] && Even(pages[p]))
    else
      CollectedTo(l, m, Collectable(l)) && forall k :: 0 <= k < r ==> l.chain[k] !in pages'
  }

  /** A collection, thorough or fast. */
  method CollectFile(gc: Collector, fast: bool, blocks: seq<nat>, pool: seq<nat>, ghost l: Log,
                     ghost ref: map<nat, nat>)
    returns (ghost m: Log, ghost ref': map<nat, nat>)
    requires Fit(gc.area.pages, l, gc.slots, ref) && gc.head == l.chain[0] && gc.tail == At(l, |l.path|)
    requires blocks != [] && FreshPages(gc.area.pages, blocks + pool) && |l.path| <= |pool|
    modifies gc, gc.area
    ensures Fit(gc.area.pages, m, gc.slots, ref') && gc.head == m.chain[0] && gc.tail == At(m, |m.path|)
    ensures Thinner(l.recs, m.recs) && SameEntries(l, ref, m, ref')
    ensures LogSized(l) && LogSized(m) && CollectedBy(fast, old(gc.area.pages), l, gc.area.pages, m)
  {
    TailOfChain(gc.area.pages, l, gc.slots, ref);
    hide Fit, SameEntries, Live, Before, Thinner, Uneven, CollectedTo;
    if fast {
      m, ref' := gc.FastGC(l, ref);
    } else {
      var collected;
      collected, m, ref' := gc.ThoroughGC(blocks, pool, l, ref);
    }
    TailOfChain(gc.area.pages, m, gc.slots, ref');
  }

  /** The log is walked from its head to its tail, and the index is rebuilt from it. */
  method RecoverFile(gc: Collector, ghost m: Log, ghost ref: map<nat, nat>) returns (r: Header)
    requires Fit(gc.area.pages, m, gc.slots, ref) && gc.head == m.chain[0] && gc.tail == At(m, |m.path|)
    ensures fresh(r) && r.tree == ref
  {
    hide EntryOk, ChainOk, CountersOk, Agrees, AttrsOk, SlotOk, FileBooks.BooksOk;
    var recs := gc.area.Walk(Pos(gc.head, 0), gc.tail, m, |m.path|);
    assert recs == m.recs;
    r := Rebuild(Entries(recs));
    forall p: nat ensures Slot(r.tree, p) == Slot(ref, p) { FileReplays(m.recs, ref, p); }
    SameSlots(r.tree, ref);
  }

  /** Any valid file is collected, thoroughly or fast; then its index is rebuilt from its new
      log: it is the index that the file had. */
  method CollectAndRecover(gc: Collector, h: Header, fast: bool, blocks: seq<nat>, pool: seq<nat>, ghost l: Log)
    returns (r: Header, ghost m: Log)
    requires LogOk(gc.area.pages, l) && CountersOk(gc.area.pages, l) && Stands(h, l, gc.slots)
    requires gc.head == l.chain[0] && gc.tail == At(l, |l.path|)
    requires blocks != [] && FreshPages(gc.area.pages, blocks + pool) && |l.path| <= |pool|
    modifies gc, gc.area
    ensures LogOk(gc.area.pages, m) && CountersOk(gc.area.pages, m) && gc.head == m.chain[0]
    ensures gc.tail == At(m, |m.path|)
    ensures fresh(r) && SameFile(h.tree, l, r.tree, m, gc.slots)
    ensures CollectedBy(fast, old(gc.area.pages), l, gc.area.pages, m)
  {
    hide CollectedBy;
    hide EntryOk, ChainOk, CountersOk, FileOk, SlotsOk, FileBooks.BooksOk, Agrees, AttrsOk, SameEntries, SameFile;
    ValidFile(h, l, gc.slots);
    ghost var ref := h.tree;
    ghost var ref';
    m, ref' := CollectFile(gc, fast, blocks, pool, l, ref);
    FitIsSame(gc.area.pages, l, ref, m, gc.slots, ref');
    r := RecoverFile(gc, m, ref');
  }
}
