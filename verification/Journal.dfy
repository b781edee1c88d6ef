/** Persistent memory behind a cache, in 8-byte words that are stored as a whole. */
module Pmem {
  const CACHELINE: nat := 64

  type Mem = map<nat, nat>

  function Get(m: Mem, a: nat): nat {
    if a in m then m[a] else 0
  }

  /** What the processor reads, the older values that may still be on the medium, and the words
      whose write-back has begun but need not have ended. */
  datatype Pm = Pm(cur: Mem, dirty: map<nat, set<nat>>, flushing: set<nat>)

  function Older(pm: Pm, a: nat): set<nat> {
    {Get(pm.cur, a)} + (if a in pm.dirty then pm.dirty[a] else {})
  }

  function Stored(pm: Pm, a: nat, v: nat): Pm {
    Pm(pm.cur[a := v], pm.dirty[a := Older(pm, a)], pm.flushing - {a})
  }

  /** The address a is in a cache line that a flush of [lo, lo + len) reaches. */
  predicate Reaches(lo: nat, len: nat, a: nat) {
    lo - lo % CACHELINE <= a < lo - lo % CACHELINE + (len + lo % CACHELINE + CACHELINE - 1) / CACHELINE * CACHELINE
  }

  function Lines(pm: Pm, lo: nat, len: nat): set<nat> {
    set a | a in pm.dirty && Reaches(lo, len, a)
  }

  /** clflush writes back before any later store does; clwb may end as late as the next fence. */
  function Flushed(pm: Pm, lo: nat, len: nat, clwb: bool): Pm {
    if clwb then pm.(flushing := pm.flushing + Lines(pm, lo, len))
    else pm.(dirty := pm.dirty - Lines(pm, lo, len), flushing := pm.flushing - Lines(pm, lo, len))
  }

  function Fenced(pm: Pm): Pm {
    pm.(dirty := pm.dirty - pm.flushing, flushing := {})
  }

  function Clean(m: Mem): Pm {
    Pm(m, map[], {})
  }

  predicate Possible(pm: Pm, a: nat, v: nat) {
    v == Get(pm.cur, a) || (a in pm.dirty && v in pm.dirty[a])
  }

  /** What a crash may leave on the medium: any choice of values, word by word. */
  ghost predicate Image(pm: Pm, m: Mem) {
    forall a: nat :: Possible(pm, a, Get(m, a))
  }

  lemma ReachesItself(a: nat)
    ensures Reaches(a, CACHELINE, a)
    ensures a % CACHELINE == 0 ==> Reaches(a, CACHELINE, a + 8)
  {
  }
}

/** The undo journal of one CPU (journal.c): a page of entries used in a circle, and the pair of
    pointers to its head and tail. */
module Journal {
  import opened Common
  import opened Pmem

  const PAGE_SIZE: nat := 4096
  const ENTRY_SIZE: nat := 32
  const SLOTS: nat := 128
  const JOURNAL_INODE: nat := 1
  const JOURNAL_ENTRY: nat := 2
  const EINVAL: int := -22

  /** Where a journal lies, how the processor flushes, and the checksum. */
  datatype Config = Config(page: nat, ptr: nat, clwb: bool, crc: (nat, nat, nat) -> nat)

  predicate Sane(c: Config) {
    && c.page % PAGE_SIZE == 0 && c.ptr % CACHELINE == 0
    && (c.ptr + CACHELINE <= c.page || c.page + PAGE_SIZE <= c.ptr)
  }

  /** The word lies in the page, or in the journal at all. */
  predicate InPage(c: Config, a: nat) {
    c.page <= a < c.page + PAGE_SIZE
  }

  predicate InJournal(c: Config, a: nat) {
    InPage(c, a) || a == c.ptr || a == c.ptr + 8
  }

  function NextLiteJournal(p: nat): nat {
    if p % PAGE_SIZE + ENTRY_SIZE >= PAGE_SIZE then p - p % PAGE_SIZE else p + ENTRY_SIZE
  }

  function Slot(c: Config, i: nat): nat {
    c.page + ENTRY_SIZE * (i % SLOTS)
  }

  lemma SlotMod(c: Config, i: nat)
    requires Sane(c)
    ensures Slot(c, i) % PAGE_SIZE == ENTRY_SIZE * (i % SLOTS) && InPage(c, Slot(c, i)) && InPage(c, Slot(c, i) + 24)
  {
  }

  /** The page is a circle of 128 entries. */
  lemma NextIsSlot(c: Config, i: nat)
    requires Sane(c)
    ensures NextLiteJournal(Slot(c, i)) == Slot(c, i + 1)
  {
    SlotMod(c, i);
    assert (i + 1) % SLOTS == if i % SLOTS == SLOTS - 1 then 0 else i % SLOTS + 1;
  }

  lemma SlotsDiffer(c: Config, i: nat, j: nat)
    requires i < j < i + SLOTS
    ensures Slot(c, i) + ENTRY_SIZE <= Slot(c, j) || Slot(c, j) + ENTRY_SIZE <= Slot(c, i)
  {
    assert i % SLOTS != j % SLOTS;
  }

  lemma SlotsEqual(c: Config, h: nat, k: nat, n: nat)
    requires k <= n < SLOTS
    ensures Slot(c, h + k) == Slot(c, h + n) ==> k == n
  {
    if k < n {
      SlotsDiffer(c, h + k, h + n);
    }
  }

  // ---------------------------------------------------------------- what the journal says

  /** A captured word. */
  datatype Rec = Rec(addr: nat, val: nat)

  /** The third and fourth fields of an entry share a word: no padding, and the checksum. */
  function Seal(c: Config, kind: nat, data1: nat, data2: nat): nat {
    c.crc(kind, data1, data2) * 0x1_0000_0000
  }

  predicate Recorded(c: Config, m: Mem, p: nat, r: Rec) {
    && Get(m, p) == JOURNAL_ENTRY && Get(m, p + 8) == r.addr && Get(m, p + 16) == r.val
    && Get(m, p + 24) == Seal(c, JOURNAL_ENTRY, r.addr, r.val)
  }

  ghost predicate AllRecorded(c: Config, m: Mem, h: nat, log: seq<Rec>) {
    forall k :: 0 <= k < |log| ==> Recorded(c, m, Slot(c, h + k), log[k])
  }

  /** The journal holds the log, from head to tail. */
  ghost predicate Published(c: Config, m: Mem, h: nat, log: seq<Rec>) {
    Get(m, c.ptr) == Slot(c, h) && Get(m, c.ptr + 8) == Slot(c, h + |log|) && AllRecorded(c, m, h, log)
  }

  predicate Unpublished(c: Config, m: Mem, h: nat) {
    Get(m, c.ptr) == Slot(c, h) && Get(m, c.ptr + 8) == Slot(c, h)
  }

  /** Nothing in the journal waits for the medium. */
  ghost predicate Settled(c: Config, pm: Pm) {
    forall a: nat :: InJournal(c, a) ==> a !in pm.dirty
  }

  /** The two agree on the journal. */
  ghost predicate SameJournal(c: Config, m: Mem, m': Mem) {
    forall a: nat :: InJournal(c, a) ==> Get(m, a) == Get(m', a)
  }

  lemma SameRecorded(c: Config, m: Mem, m': Mem, i: nat, r: Rec)
    requires Sane(c) && SameJournal(c, m, m') && Recorded(c, m, Slot(c, i), r)
    ensures Recorded(c, m', Slot(c, i), r)
  {
    SlotMod(c, i);
    var p := Slot(c, i);
    assert InJournal(c, p) && InJournal(c, p + 8) && InJournal(c, p + 16) && InJournal(c, p + 24);
  }

  lemma SamePublished(c: Config, m: Mem, m': Mem, h: nat, log: seq<Rec>)
    requires Sane(c) && SameJournal(c, m, m')
    ensures Published(c, m, h, log) ==> Published(c, m', h, log)
    ensures Unpublished(c, m, h) ==> Unpublished(c, m', h)
  {
    assert InJournal(c, c.ptr) && InJournal(c, c.ptr + 8);
    if Published(c, m, h, log) {
      forall k | 0 <= k < |log| ensures Recorded(c, m', Slot(c, h + k), log[k]) {
        SameRecorded(c, m, m', h + k, log[k]);
      }
    }
  }

  /** What is settled is in every image. */
  lemma ImageOfSettled(c: Config, pm: Pm, m: Mem)
    requires Settled(c, pm) && Image(pm, m)
    ensures SameJournal(c, pm.cur, m)
  {
    forall a: nat | InJournal(c, a) ensures Get(pm.cur, a) == Get(m, a) {
      assert Possible(pm, a, Get(m, a));
    }
  }

  // ---------------------------------------------------------------- undo

  /** Two records of one word agree: they were all made before any of the words changed. */
  ghost predicate Consistent(log: seq<Rec>) {
    forall i, j :: 0 <= i < |log| && 0 <= j < |log| && log[i].addr == log[j].addr ==> log[i].val == log[j].val
  }

  ghost predicate Apart(c: Config, log: seq<Rec>) {
    forall k :: 0 <= k < |log| ==> !InJournal(c, log[k].addr)
  }

  predicate Journaled(log: seq<Rec>, a: nat) {
    exists k :: 0 <= k < |log| && log[k].addr == a
  }

  /** A transaction that may be in a journal. */
  ghost predicate Legal(c: Config, log: seq<Rec>) {
    0 < |log| < SLOTS && Consistent(log) && Apart(c, log)
  }

  /** Every journaled word has its captured value. */
  ghost predicate Restored(m: Mem, log: seq<Rec>) {
    forall k :: 0 <= k < |log| ==> Get(m, log[k].addr) == log[k].val
  }

  /** Apart from the journaled words and the journal the two agree. */
  ghost predicate OthersKept(c: Config, m: Mem, m': Mem, log: seq<Rec>) {
    forall a: nat :: !InJournal(c, a) && !Journaled(log, a) ==> Get(m, a) == Get(m', a)
  }

  /** After the first k undo steps. */
  function UndoneTo(c: Config, pm: Pm, log: seq<Rec>, k: nat): Pm
    requires k <= |log|
  {
    if k == 0 then pm
    else
      var r := log[k - 1];
      Flushed(Stored(UndoneTo(c, pm, log, k - 1), r.addr, r.val), r.addr, CACHELINE, c.clwb)
  }

  /** After the last of them, with the tail set back to the head; then flushed; then fenced. */
  function TailBack(c: Config, m: Mem, h: nat, log: seq<Rec>): Pm {
    Stored(UndoneTo(c, Clean(m), log, |log|), c.ptr + 8, Slot(c, h))
  }

  function TailFlushed(c: Config, m: Mem, h: nat, log: seq<Rec>): Pm {
    Flushed(TailBack(c, m, h, log), c.ptr, CACHELINE, c.clwb)
  }

  function Recovered(c: Config, m: Mem, h: nat, log: seq<Rec>): Pm {
    if Unpublished(c, m, h) then Clean(m) else Fenced(TailFlushed(c, m, h, log))
  }

  predicate Undoing(c: Config, m: Mem, log: seq<Rec>, s: Pm, k: nat) {
    && k <= |log|
    && (s == UndoneTo(c, Clean(m), log, k)
        || (k < |log| && s == Stored(UndoneTo(c, Clean(m), log, k), log[k].addr, log[k].val)))
  }

  ghost predicate MidUndo(c: Config, m: Mem, log: seq<Rec>, s: Pm) {
    exists k :: Undoing(c, m, log, s, k)
  }

  /** The states that recovery passes through when it finds m. */
  ghost predicate Reached(c: Config, m: Mem, h: nat, log: seq<Rec>, s: Pm) {
    if Unpublished(c, m, h) then s == Clean(m)
    else
      || MidUndo(c, m, log, s)
      || s == TailBack(c, m, h, log) || s == TailFlushed(c, m, h, log) || s == Recovered(c, m, h, log)
  }

  /** During the undo: the journal is as it was; words that are not journaled are untouched; what
      is not yet on the medium is being written back. */
  ghost predicate Underway(c: Config, m: Mem, log: seq<Rec>, s: Pm) {
    && Settled(c, s) && SameJournal(c, m, s.cur) && OthersKept(c, m, s.cur, log)
    && (forall a :: a in s.dirty ==> Journaled(log, a))
    && (!c.clwb ==> s.flushing == {})
  }

  /** Whatever waits for the medium is being written back. */
  predicate AllFlushing(s: Pm, clwb: bool) {
    forall a :: a in s.dirty ==> clwb && a in s.flushing
  }

  lemma UndoStep(c: Config, m: Mem, log: seq<Rec>, s: Pm, r: Rec)
    requires Underway(c, m, log, s) && AllFlushing(s, c.clwb) && Journaled(log, r.addr) && !InJournal(c, r.addr)
    ensures Underway(c, m, log, Stored(s, r.addr, r.val))
    ensures
      var t := Flushed(Stored(s, r.addr, r.val), r.addr, CACHELINE, c.clwb);
      Underway(c, m, log, t) && AllFlushing(t, c.clwb)
  {
    ReachesItself(r.addr);
    hide Reaches, Journaled, InJournal;
  }

  lemma {:induction false} UndoUnderway(c: Config, m: Mem, log: seq<Rec>, k: nat)
    requires Legal(c, log) && k <= |log|
    ensures
      var s := UndoneTo(c, Clean(m), log, k);
      && Underway(c, m, log, s) && AllFlushing(s, c.clwb)
      && forall j :: 0 <= j < k ==> Get(s.cur, log[j].addr) == log[j].val
  {
    if k > 0 {
      UndoUnderway(c, m, log, k - 1);
      assert Journaled(log, log[k - 1].addr);
      UndoStep(c, m, log, UndoneTo(c, Clean(m), log, k - 1), log[k - 1]);
      hide Underway, AllFlushing, Journaled, Reaches;
    }
  }

  /** What the medium may hold of a word during the undo: its value before, or the captured one. */
  lemma {:induction false} UndoValues(c: Config, m: Mem, log: seq<Rec>, k: nat, a: nat, v: nat)
    requires k <= |log| && Consistent(log)
    ensures
      var s := UndoneTo(c, Clean(m), log, k);
      && (Possible(s, a, v) ==>
            v == Get(m, a)
            || (Journaled(log, a) && forall j :: 0 <= j < |log| && log[j].addr == a ==> v == log[j].val))
      && (c.clwb ==> Possible(s, a, Get(m, a)))
  {
    if k > 0 {
      UndoValues(c, m, log, k - 1, a, v);
      var r := log[k - 1];
      assert r.addr == a ==> Journaled(log, a);
    }
  }

  /** The log is still there to be undone, or all of it is undone. */
  ghost predicate Safe(c: Config, m: Mem, h: nat, log: seq<Rec>) {
    Published(c, m, h, log) || (Unpublished(c, m, h) && Restored(m, log))
  }

  lemma PublishedIsNot(c: Config, m: Mem, h: nat, log: seq<Rec>)
    requires Published(c, m, h, log) && 0 < |log| < SLOTS
    ensures !Unpublished(c, m, h)
  {
    SlotsDiffer(c, h, h + |log|);
  }

  /** In the midst of the undo a crash loses nothing: the journal is still complete. */
  lemma UndoingIsSafe(c: Config, m: Mem, h: nat, log: seq<Rec>, s: Pm, k: nat, m': Mem)
    requires Sane(c) && Legal(c, log) && Published(c, m, h, log) && Undoing(c, m, log, s, k) && Image(s, m')
    ensures Published(c, m', h, log) && OthersKept(c, m, m', log)
  {
    UndoUnderway(c, m, log, k);
    if k < |log| {
      assert Journaled(log, log[k].addr);
      UndoStep(c, m, log, UndoneTo(c, Clean(m), log, k), log[k]);
    }
    assert Underway(c, m, log, s);
    hide UndoneTo, Undoing, Published, AllFlushing, Journaled, Legal, InJournal;
    ImageOfSettled(c, s, m');
    SamePublished(c, m, m', h, log);
    forall a: nat | !InJournal(c, a) && !Journaled(log, a) ensures Get(m, a) == Get(m', a) {
      assert Possible(s, a, Get(m', a));
    }
  }

  /** The states after the last undo step, and what a crash leaves of them. */
  ghost predicate Late(c: Config, m: Mem, h: nat, log: seq<Rec>, s: Pm) {
    Publishing(c, UndoneTo(c, Clean(m), log, |log|), Slot(c, h), s)
  }

  lemma AllUndone(c: Config, m: Mem, log: seq<Rec>)
    requires Legal(c, log)
    ensures
      var u := UndoneTo(c, Clean(m), log, |log|);
      Apart(c, log) && Settled(c, u) && SameJournal(c, m, u.cur) && OthersKept(c, m, u.cur, log) && Restored(u.cur, log)
  {
    UndoUnderway(c, m, log, |log|);
    hide UndoneTo;
  }

  lemma LateState(c: Config, m: Mem, h: nat, log: seq<Rec>, s: Pm)
    requires Sane(c) && Legal(c, log) && Published(c, m, h, log) && Late(c, m, h, log, s)
    ensures Restored(s.cur, log) && OthersKept(c, m, s.cur, log) && Unpublished(c, s.cur, h)
    ensures forall a: nat :: InJournal(c, a) && a != c.ptr + 8 ==> Get(s.cur, a) == Get(m, a)
  {
    hide Slot, UndoneTo, Publishing, Published, OthersKept, SameJournal, Settled, Restored, Apart, Consistent,
         Unpublished, Sane, InJournal;
    AllUndone(c, m, log);
    PublishingStores(c, UndoneTo(c, Clean(m), log, |log|), Slot(c, h), s);
    TailOnly(c, m, UndoneTo(c, Clean(m), log, |log|).cur, h, log, s.cur);
  }

  lemma TailOnly(c: Config, m: Mem, u: Mem, h: nat, log: seq<Rec>, z: Mem)
    requires Apart(c, log) && Published(c, m, h, log) && SameJournal(c, m, u) && OthersKept(c, m, u, log)
    requires Restored(u, log)
    requires z == u[c.ptr + 8 := Slot(c, h)]
    ensures Restored(z, log) && OthersKept(c, m, z, log) && Unpublished(c, z, h)
    ensures forall a: nat :: InJournal(c, a) && a != c.ptr + 8 ==> Get(z, a) == Get(m, a)
  {
    hide Journaled, AllRecorded, Slot;
    assert InJournal(c, c.ptr) && InJournal(c, c.ptr + 8);
    forall k | 0 <= k < |log| ensures Get(z, log[k].addr) == log[k].val { assert !InJournal(c, log[k].addr); }
  }

  lemma LateDirty(c: Config, m: Mem, h: nat, log: seq<Rec>, s: Pm)
    requires Sane(c) && Legal(c, log) && Published(c, m, h, log) && Late(c, m, h, log, s)
    ensures forall a :: a in s.dirty ==> a == c.ptr + 8 || (c.clwb && Journaled(log, a))
    ensures s == Fenced(TailFlushed(c, m, h, log)) ==> s.dirty == map[]
  {
    var u := UndoneTo(c, Clean(m), log, |log|);
    UndoUnderway(c, m, log, |log|);
    PublishingStores(c, u, Slot(c, h), s);
    ReachesItself(c.ptr);
    hide Reaches, Slot, Journaled, UndoneTo, Published, Legal, Underway, Publishing;
    assert forall a :: a in s.dirty ==> a == c.ptr + 8 || a in u.dirty;
  }

  /** The tail on the medium is the head or the old tail. */
  lemma LateTail(c: Config, m: Mem, h: nat, log: seq<Rec>, s: Pm, v: nat)
    requires Sane(c) && Legal(c, log) && Published(c, m, h, log) && Late(c, m, h, log, s) && Possible(s, c.ptr + 8, v)
    ensures v == Slot(c, h) || v == Slot(c, h + |log|)
  {
    hide Slot, UndoneTo, Publishing, AllRecorded, Legal, Sane, Settled, OthersKept, Apart, Restored, TailStored,
         Possible;
    var u := UndoneTo(c, Clean(m), log, |log|);
    AllUndone(c, m, log);
    assert InJournal(c, c.ptr + 8);
    PublishingStores(c, u, Slot(c, h), s);
    TailPossible(c, u, Slot(c, h), s, v);
  }

  lemma TailPossible(c: Config, t: Pm, tail: nat, s: Pm, v: nat)
    requires TailStored(c, t, tail, s) && Possible(s, c.ptr + 8, v)
    ensures v == tail || v == Get(t.cur, c.ptr + 8)
  {
  }

  /** With flushes that are ordered, a crash at any point of a recovery is safe. */
  lemma CrashIsSafe(c: Config, m: Mem, h: nat, log: seq<Rec>, s: Pm, m': Mem)
    requires Sane(c) && Legal(c, log) && Safe(c, m, h, log) && !c.clwb && Reached(c, m, h, log, s) && Image(s, m')
    ensures Safe(c, m', h, log) && OthersKept(c, m, m', log)
  {
    if Unpublished(c, m, h) {
      forall a: nat ensures Get(m', a) == Get(m, a) { assert Possible(s, a, Get(m', a)); }
      SamePublished(c, m, m', h, log);
      assert Published(c, m, h, log) ==> false by { if Published(c, m, h, log) { PublishedIsNot(c, m, h, log); } }
    } else if k :| Undoing(c, m, log, s, k) {
      UndoingIsSafe(c, m, h, log, s, k, m');
    } else {
      LateIsSafe(c, m, h, log, s, m');
    }
  }

  lemma LateIsSafe(c: Config, m: Mem, h: nat, log: seq<Rec>, s: Pm, m': Mem)
    requires Sane(c) && Legal(c, log) && Published(c, m, h, log) && !c.clwb && Late(c, m, h, log, s) && Image(s, m')
    ensures Safe(c, m', h, log) && OthersKept(c, m, m', log)
  {
    LateState(c, m, h, log, s);
    LateDirty(c, m, h, log, s);
    hide Late, Slot;
    forall a: nat | a != c.ptr + 8 ensures Get(m', a) == Get(s.cur, a) {
      assert Possible(s, a, Get(m', a));
    }
    assert Possible(s, c.ptr + 8, Get(m', c.ptr + 8));
    LateTail(c, m, h, log, s, Get(m', c.ptr + 8));
    if Get(m', c.ptr + 8) == Slot(c, h + |log|) {
      forall a: nat | InJournal(c, a) ensures Get(m, a) == Get(m', a) { }
      SamePublished(c, m, m', h, log);
    }
  }

  /** One mount, cut off by a crash, takes the medium from m to m'. */
  ghost predicate Attempt(c: Config, m: Mem, h: nat, log: seq<Rec>, m': Mem) {
    exists s :: Reached(c, m, h, log, s) && Image(s, m')
  }

  /** After a crash with a published transaction, however often recovery itself is cut off: at
      last every journaled word has its captured value, the journal is empty, and nothing else
      has changed. */
  lemma {:induction false} AnyNumberOfCrashes(c: Config, ms: seq<Mem>, h: nat, log: seq<Rec>)
    requires Sane(c) && Legal(c, log) && !c.clwb && ms != [] && Safe(c, ms[0], h, log)
    requires forall i :: 0 <= i < |ms| - 1 ==> Attempt(c, ms[i], h, log, ms[i + 1])
    ensures
      var z := Recovered(c, ms[|ms| - 1], h, log);
      z.dirty == map[] && Unpublished(c, z.cur, h) && Restored(z.cur, log) && OthersKept(c, ms[0], z.cur, log)
  {
    if |ms| == 1 {
      RecoveredRestores(c, ms[0], h, log);
    } else {
      assert Attempt(c, ms[0], h, log, ms[1]);
      var s :| Reached(c, ms[0], h, log, s) && Image(s, ms[1]);
      CrashIsSafe(c, ms[0], h, log, s, ms[1]);
      forall i | 0 <= i < |ms[1..]| - 1 ensures Attempt(c, ms[1..][i], h, log, ms[1..][i + 1]) {
        assert Attempt(c, ms[i + 1], h, log, ms[i + 2]);
      }
      AnyNumberOfCrashes(c, ms[1..], h, log);
    }
  }

  /** A recovery that is not cut off, on any processor. */
  lemma RecoveredRestores(c: Config, m: Mem, h: nat, log: seq<Rec>)
    requires Sane(c) && Legal(c, log) && Safe(c, m, h, log)
    ensures
      var z := Recovered(c, m, h, log);
      z.dirty == map[] && Unpublished(c, z.cur, h) && Restored(z.cur, log) && OthersKept(c, m, z.cur, log)
  {
    if Published(c, m, h, log) {
      PublishedIsNot(c, m, h, log);
      LateState(c, m, h, log, Recovered(c, m, h, log));
      LateDirty(c, m, h, log, Recovered(c, m, h, log));
    }
  }

  /** The tail is reset without a fence behind the undone words.  With clwb a crash there may
      keep the new tail and lose a word, and does so exactly if there was a word to undo. */
  lemma ClwbMayLoseTheUndo(c: Config, m: Mem, h: nat, log: seq<Rec>)
    requires Sane(c) && Legal(c, log) && Published(c, m, h, log) && c.clwb
    ensures (exists m' :: Attempt(c, m, h, log, m') && !Safe(c, m', h, log)) <==> !Restored(m, log)
  {
    PublishedIsNot(c, m, h, log);
    if Restored(m, log) {
      forall m' | Attempt(c, m, h, log, m') ensures Safe(c, m', h, log) {
        var s :| Reached(c, m, h, log, s) && Image(s, m');
        if k :| Undoing(c, m, log, s, k) {
          UndoingIsSafe(c, m, h, log, s, k, m');
        } else {
          NothingToUndo(c, m, h, log, s, m');
        }
      }
    } else {
      LostUndo(c, m, h, log);
    }
  }

  lemma LostUndo(c: Config, m: Mem, h: nat, log: seq<Rec>)
    requires Sane(c) && Legal(c, log) && Published(c, m, h, log) && c.clwb && !Restored(m, log)
    ensures exists m' :: Attempt(c, m, h, log, m') && !Safe(c, m', h, log)
  {
    var m' := m[c.ptr + 8 := Slot(c, h)];
    var s := TailBack(c, m, h, log);
    PublishedIsNot(c, m, h, log);
    assert Image(s, m') by {
      hide Published, Slot, Unpublished;
      forall a: nat ensures Possible(s, a, Get(m', a)) {
        UndoValues(c, m, log, |log|, a, 0);
      }
    }
    hide TailBack;
    forall k | 0 <= k < |log| ensures Get(m', log[k].addr) == Get(m, log[k].addr) { assert !InJournal(c, log[k].addr); }
    assert Unpublished(c, m', h);
    assert !Published(c, m', h, log) by { if Published(c, m', h, log) { PublishedIsNot(c, m', h, log); } }
    assert Reached(c, m, h, log, s);
    assert Attempt(c, m, h, log, m') && !Safe(c, m', h, log);
  }

  lemma LateValue(c: Config, m: Mem, h: nat, log: seq<Rec>, s: Pm, m': Mem, k: nat)
    requires Sane(c) && Legal(c, log) && Restored(m, log) && Late(c, m, h, log, s) && Image(s, m') && k < |log|
    ensures Get(m', log[k].addr) == log[k].val
  {
    var a := log[k].addr;
    assert !InJournal(c, a) && Possible(s, a, Get(m', a));
    hide Slot, Reaches;
    UndoValues(c, m, log, |log|, a, Get(m', a));
  }

  lemma NothingToUndo(c: Config, m: Mem, h: nat, log: seq<Rec>, s: Pm, m': Mem)
    requires Sane(c) && Legal(c, log) && Published(c, m, h, log) && Restored(m, log) && Late(c, m, h, log, s)
    requires Image(s, m')
    ensures Safe(c, m', h, log)
  {
    LateState(c, m, h, log, s);
    LateDirty(c, m, h, log, s);
    forall k | 0 <= k < |log| ensures Get(m', log[k].addr) == log[k].val {
      LateValue(c, m, h, log, s, m', k);
    }
    hide Late, Journaled, Consistent;
    forall a: nat | InJournal(c, a) && a != c.ptr + 8 ensures Get(m', a) == Get(m, a) {
      assert Possible(s, a, Get(m', a));
    }
    assert Possible(s, c.ptr + 8, Get(m', c.ptr + 8));
    LateTail(c, m, h, log, s, Get(m', c.ptr + 8));
    if Get(m', c.ptr + 8) == Slot(c, h + |log|) {
      SamePublished(c, m, m', h, log);
    }
  }

  // ---------------------------------------------------------------- the transaction itself

  datatype Op = StoreOp(a: nat, v: nat) | FlushOp(lo: nat, len: nat) | FenceOp

  function Apply(pm: Pm, op: Op, clwb: bool): Pm {
    match op
    case StoreOp(a, v) => Stored(pm, a, v)
    case FlushOp(lo, len) => Flushed(pm, lo, len, clwb)
    case FenceOp => Fenced(pm)
  }

  function ApplyAll(pm: Pm, ops: seq<Op>, clwb: bool): Pm {
    if ops == [] then pm else Apply(ApplyAll(pm, ops[..|ops| - 1], clwb), ops[|ops| - 1], clwb)
  }

  /** The file system's stores, which never touch the journal. */
  ghost predicate Elsewhere(c: Config, ops: seq<Op>) {
    forall i :: 0 <= i < |ops| && ops[i].StoreOp? ==> !InJournal(c, ops[i].a)
  }

  lemma {:induction false} OpsKeepPublished(c: Config, pm: Pm, ops: seq<Op>)
    requires Elsewhere(c, ops) && Settled(c, pm)
    ensures Settled(c, ApplyAll(pm, ops, c.clwb)) && SameJournal(c, pm.cur, ApplyAll(pm, ops, c.clwb).cur)
  {
    if ops != [] {
      OpsKeepPublished(c, pm, ops[..|ops| - 1]);
      assert ops[|ops| - 1].StoreOp? ==> !InJournal(c, ops[|ops| - 1].a);
    }
  }

  /** Once a transaction is published, whatever stores follow, whatever part of them is on the
      medium at the crash, and however often recovery is cut off: at last every journaled word
      has the value it had when it was captured. */
  lemma TransactionIsUndone(c: Config, pm: Pm, h: nat, log: seq<Rec>, ops: seq<Op>, ms: seq<Mem>)
    requires Sane(c) && Legal(c, log) && !c.clwb && Settled(c, pm) && Published(c, pm.cur, h, log) && Elsewhere(c, ops)
    requires ms != [] && Image(ApplyAll(pm, ops, c.clwb), ms[0])
    requires forall i :: 0 <= i < |ms| - 1 ==> Attempt(c, ms[i], h, log, ms[i + 1])
    ensures
      var z := Recovered(c, ms[|ms| - 1], h, log);
      z.dirty == map[] && Unpublished(c, z.cur, h) && Restored(z.cur, log) && OthersKept(c, ms[0], z.cur, log)
  {
    var s := ApplyAll(pm, ops, c.clwb);
    OpsKeepPublished(c, pm, ops);
    ImageOfSettled(c, s, ms[0]);
    SamePublished(c, pm.cur, ms[0], h, log);
    AnyNumberOfCrashes(c, ms, h, log);
  }

  // ---------------------------------------------------------------- capture

  function Aligned(field: nat): nat {
    field - field % 8
  }

  /** The undo records of some fields. */
  function Captured(m: Mem, fields: seq<nat>): (log: seq<Rec>)
    ensures |log| == |fields| && Consistent(log)
  {
    seq(|fields|, k requires 0 <= k < |fields| => Rec(Aligned(fields[k]), Get(m, Aligned(fields[k]))))
  }

  /** Some of the four words of an entry are stored. */
  function Typed(pm: Pm, p: nat): Pm {
    Stored(pm, p, JOURNAL_ENTRY)
  }

  function Addressed(pm: Pm, p: nat, r: Rec): Pm {
    Stored(Typed(pm, p), p + 8, r.addr)
  }

  function Valued(pm: Pm, p: nat, r: Rec): Pm {
    Stored(Addressed(pm, p, r), p + 16, r.val)
  }

  function Written(c: Config, pm: Pm, p: nat, r: Rec): Pm {
    Stored(Valued(pm, p, r), p + 24, Seal(c, JOURNAL_ENTRY, r.addr, r.val))
  }

  predicate Writing(c: Config, pm: Pm, p: nat, r: Rec, s: Pm) {
    s == Typed(pm, p) || s == Addressed(pm, p, r) || s == Valued(pm, p, r) || s == Written(c, pm, p, r)
  }

  predicate AtSlot(c: Config, i: nat, a: nat) {
    Slot(c, i) <= a < Slot(c, i) + ENTRY_SIZE
  }

  /** The word is in one of the first n entries of a transaction that begins in slot h. */
  predicate InSlots(c: Config, h: nat, n: nat, a: nat) {
    exists i :: h <= i < h + n && AtSlot(c, i, a)
  }

  /** Nothing has been stored to a word. */
  predicate Untouched(pm: Pm, s: Pm, a: nat) {
    Get(s.cur, a) == Get(pm.cur, a) && (a in s.dirty ==> a in pm.dirty && s.dirty[a] == pm.dirty[a])
  }

  /** Since pm only those entries have been written. */
  ghost predicate Grown(c: Config, pm: Pm, h: nat, n: nat, s: Pm) {
    forall a: nat :: !InSlots(c, h, n, a) ==> Untouched(pm, s, a)
  }

  lemma GrownByOne(c: Config, pm: Pm, h: nat, n: nat, s: Pm, r: Rec, t: Pm)
    requires Grown(c, pm, h, n, s) && (t == s || Writing(c, s, Slot(c, h + n), r, t))
    ensures Grown(c, pm, h, n + 1, t)
  {
    var p := Slot(c, h + n);
    forall a: nat | !InSlots(c, h, n + 1, a) ensures Untouched(pm, t, a) {
      assert !AtSlot(c, h + n, a);
      assert !InSlots(c, h, n, a);
      assert Untouched(pm, s, a);
    }
  }

  /** Entry q is not affected when entry p is written. */
  lemma RecordedElsewhere(c: Config, s: Pm, p: nat, r: Rec, q: nat, r': Rec)
    requires p + ENTRY_SIZE <= q || q + ENTRY_SIZE <= p
    ensures Recorded(c, s.cur, q, r') ==> Recorded(c, Written(c, s, p, r).cur, q, r')
  {
  }

  lemma RecordedHere(c: Config, s: Pm, p: nat, r: Rec)
    ensures Recorded(c, Written(c, s, p, r).cur, p, r)
  {
  }

  lemma RecordedByOne(c: Config, h: nat, s: Pm, log: seq<Rec>, r: Rec)
    requires AllRecorded(c, s.cur, h, log) && |log| < SLOTS
    ensures AllRecorded(c, Written(c, s, Slot(c, h + |log|), r).cur, h, log + [r])
  {
    var p := Slot(c, h + |log|);
    hide Written, Recorded, Slot;
    forall k | 0 <= k <= |log| ensures Recorded(c, Written(c, s, p, r).cur, Slot(c, h + k), (log + [r])[k]) {
      if k < |log| {
        SlotsDiffer(c, h + k, h + |log|);
        RecordedElsewhere(c, s, p, r, Slot(c, h + k), log[k]);
      } else {
        RecordedHere(c, s, p, r);
      }
    }
  }

  lemma InSlotsInPage(c: Config, h: nat, n: nat, a: nat)
    requires Sane(c) && InSlots(c, h, n, a)
    ensures InPage(c, a) && a != c.ptr && a != c.ptr + 8
  {
    var i :| h <= i < h + n && AtSlot(c, i, a);
    SlotMod(c, i);
  }

  /** The entries lie between head and tail, or, if they wrap, on both sides of the page's end. */
  lemma SlotsBetween(c: Config, h: nat, n: nat, a: nat)
    requires Sane(c) && 0 < n < SLOTS && InSlots(c, h, n, a)
    ensures
      var head, tail := Slot(c, h), Slot(c, h + n);
      if head < tail then head <= a < tail else head <= a < c.page + PAGE_SIZE || c.page <= a < tail
  {
    var i :| h <= i < h + n && AtSlot(c, i, a);
    SumMod(h, i - h);
    SumMod(h, n);
  }

  lemma SumMod(h: nat, k: nat)
    requires k < SLOTS
    ensures (h + k) % SLOTS == if h % SLOTS + k < SLOTS then h % SLOTS + k else h % SLOTS + k - SLOTS
  {
  }

  /** The flush covers the entries. */
  lemma SlotsReached(c: Config, h: nat, n: nat, a: nat)
    requires Sane(c) && 0 < n < SLOTS && InSlots(c, h, n, a)
    ensures
      var head, tail := Slot(c, h), Slot(c, h + n);
      if head < tail then Reaches(head, tail - head, a)
      else Reaches(head, PAGE_SIZE - head % PAGE_SIZE, a) || Reaches(tail - tail % PAGE_SIZE, tail % PAGE_SIZE, a)
  {
    SlotsBetween(c, h, n, a);
    SlotMod(c, h);
    SlotMod(c, h + n);
    var head, tail := Slot(c, h), Slot(c, h + n);
    assert head - head % PAGE_SIZE == c.page && tail - tail % PAGE_SIZE == c.page;
    hide Slot, InSlots, Sane, Reaches;
    if head < tail {
      RangeReached(head, tail - head, a);
    } else {
      RangeReached(head, PAGE_SIZE - head % PAGE_SIZE, a);
      RangeReached(tail - tail % PAGE_SIZE, tail % PAGE_SIZE, a);
    }
  }

  lemma RangeReached(lo: nat, len: nat, a: nat)
    ensures lo <= a < lo + len ==> Reaches(lo, len, a)
  {
  }

  /** The medium may still hold what it held before the transaction, outside the journal. */
  ghost predicate Prior(c: Config, pm: Pm, m: Mem) {
    forall a: nat :: !InJournal(c, a) ==> Possible(pm, a, Get(m, a))
  }

  /** A crash while a transaction is set up finds all of its log or none, and no word changed. */
  ghost predicate AllOrNone(c: Config, pm: Pm, h: nat, log: seq<Rec>, s: Pm) {
    forall m :: Image(s, m) ==> (Unpublished(c, m, h) || Published(c, m, h, log)) && Prior(c, pm, m)
  }

  /** Nothing is published while the entries are written. */
  lemma GrownIsUnpublished(c: Config, pm: Pm, h: nat, n: nat, s: Pm, log: seq<Rec>)
    requires Sane(c) && Settled(c, pm) && Unpublished(c, pm.cur, h) && Grown(c, pm, h, n, s)
    ensures AllOrNone(c, pm, h, log, s)
  {
    forall m | Image(s, m) ensures Unpublished(c, m, h) && Prior(c, pm, m) {
      forall a: nat | !InSlots(c, h, n, a) ensures Possible(pm, a, Get(m, a)) {
        assert Untouched(pm, s, a) && Possible(s, a, Get(m, a));
      }
      forall a: nat | InSlots(c, h, n, a)
        ensures InJournal(c, a) && a != c.ptr && a != c.ptr + 8
      {
        InSlotsInPage(c, h, n, a);
      }
      assert !InSlots(c, h, n, c.ptr) && !InSlots(c, h, n, c.ptr + 8);
      assert InJournal(c, c.ptr) && InJournal(c, c.ptr + 8);
    }
  }

  lemma WritingIsUnpublished(c: Config, pm: Pm, h: nat, log: seq<Rec>, i: nat, s: Pm, p: nat, r: Rec)
    requires Sane(c) && Settled(c, pm) && Unpublished(c, pm.cur, h) && Grown(c, pm, h, i, s) && p == Slot(c, h + i)
    ensures forall t :: Writing(c, s, p, r, t) ==> Grown(c, pm, h, i + 1, t) && AllOrNone(c, pm, h, log, t)
  {
    hide Grown, AllOrNone, Settled, Stored, Slot;
    forall t | Writing(c, s, p, r, t) ensures Grown(c, pm, h, i + 1, t) && AllOrNone(c, pm, h, log, t) {
      GrownByOne(c, pm, h, i, s, r, t);
      GrownIsUnpublished(c, pm, h, i + 1, t, log);
    }
  }

  /** The field has not changed since the beginning, so its record is the right one. */
  lemma AppendsRight(c: Config, pm0: Pm, h: nat, log: seq<Rec>, i: nat, field: nat, s: Pm)
    requires Sane(c) && i < |log| < SLOTS && Grown(c, pm0, h, i, s) && AllRecorded(c, s.cur, h, log[..i])
    requires !InJournal(c, Aligned(field)) && log[i] == Rec(Aligned(field), Get(pm0.cur, Aligned(field)))
    ensures log[i] == Rec(Aligned(field), Get(s.cur, Aligned(field)))
    ensures AllRecorded(c, Written(c, s, Slot(c, h + i), log[i]).cur, h, log[..i + 1])
  {
    hide AllRecorded, InSlots, InPage, Slot, Written, Sane, Aligned;
    var a := Aligned(field);
    if InSlots(c, h, i, a) { InSlotsInPage(c, h, i, a); }
    assert Untouched(pm0, s, a);
    assert log[..i + 1] == log[..i] + [log[i]];
    RecordedByOne(c, h, s, log[..i], log[i]);
  }

  /** nova_flush_journal_in_batch up to its barrier: the entries, on both sides of the page's end
      if need be. */
  function BatchBegun(c: Config, s: Pm, head: nat, tail: nat): Pm {
    Flushed(s, head, if head < tail then tail - head else PAGE_SIZE - head % PAGE_SIZE, c.clwb)
  }

  function BatchFlushed(c: Config, s: Pm, head: nat, tail: nat): Pm {
    if head < tail then BatchBegun(c, s, head, tail)
    else Flushed(BatchBegun(c, s, head, tail), tail - tail % PAGE_SIZE, tail % PAGE_SIZE, c.clwb)
  }

  lemma BatchSettles(c: Config, pm: Pm, h: nat, n: nat, s: Pm)
    requires Sane(c) && Settled(c, pm) && 0 < n < SLOTS && Grown(c, pm, h, n, s)
    ensures Settled(c, Fenced(BatchFlushed(c, s, Slot(c, h), Slot(c, h + n))))
  {
    var head, tail := Slot(c, h), Slot(c, h + n);
    var t := Fenced(BatchFlushed(c, s, head, tail));
    forall a: nat | InJournal(c, a) ensures a !in t.dirty {
      if InSlots(c, h, n, a) {
        SlotsReached(c, h, n, a);
      } else {
        assert Untouched(pm, s, a);
      }
      hide InSlots, Slot, Reaches;
    }
  }

  /** The store of the tail, its flush, and the fence. */
  predicate Publishing(c: Config, t: Pm, tail: nat, s: Pm) {
    var s1 := Stored(t, c.ptr + 8, tail);
    var s2 := Flushed(s1, c.ptr, CACHELINE, c.clwb);
    s == s1 || s == s2 || s == Fenced(s2)
  }

  /** Only the tail has been stored, and the medium has its new value or the one before. */
  ghost predicate TailStored(c: Config, t: Pm, tail: nat, s: Pm) {
    && s.cur == t.cur[c.ptr + 8 := tail]
    && (forall a: nat :: a != c.ptr + 8 && a in s.dirty ==> a in t.dirty && s.dirty[a] == t.dirty[a])
    && (c.ptr + 8 in s.dirty ==> s.dirty[c.ptr + 8] == {Get(t.cur, c.ptr + 8)})
  }

  lemma PublishingStores(c: Config, t: Pm, tail: nat, s: Pm)
    requires Sane(c) && Settled(c, t) && Publishing(c, t, tail, s)
    ensures TailStored(c, t, tail, s)
    ensures s == Fenced(Flushed(Stored(t, c.ptr + 8, tail), c.ptr, CACHELINE, c.clwb)) ==> Settled(c, s)
  {
    assert InJournal(c, c.ptr + 8);
    ReachesItself(c.ptr);
    hide Reaches;
  }

  /** The store of the tail is the moment of publication. */
  lemma TailPublishes(c: Config, pm: Pm, h: nat, log: seq<Rec>, t: Pm, s: Pm)
    requires Sane(c) && Settled(c, pm) && Unpublished(c, pm.cur, h)
    requires Grown(c, pm, h, |log|, t) && Settled(c, t) && AllRecorded(c, t.cur, h, log)
    requires Publishing(c, t, Slot(c, h + |log|), s)
    ensures AllOrNone(c, pm, h, log, s) && Published(c, s.cur, h, log)
    ensures s == Fenced(Flushed(Stored(t, c.ptr + 8, Slot(c, h + |log|)), c.ptr, CACHELINE, c.clwb)) ==> Settled(c, s)
  {
    PublishingStores(c, t, Slot(c, h + |log|), s);
    hide Publishing, Reaches;
    OutsideSlots(c, h, |log|);
    assert InJournal(c, c.ptr) && InJournal(c, c.ptr + 8);
    assert Untouched(pm, t, c.ptr) && Untouched(pm, t, c.ptr + 8);
    TailRecorded(c, t.cur, h, log, s.cur);
    hide Slot;
    forall m | Image(s, m) ensures (Unpublished(c, m, h) || Published(c, m, h, log)) && Prior(c, pm, m) {
      TailImage(c, pm, h, log, t, s, m);
    }
  }

  lemma OutsideSlots(c: Config, h: nat, n: nat)
    requires Sane(c)
    ensures forall a: nat :: InSlots(c, h, n, a) ==> InJournal(c, a) && a != c.ptr && a != c.ptr + 8
  {
    forall a: nat | InSlots(c, h, n, a)
      ensures InJournal(c, a) && a != c.ptr && a != c.ptr + 8
    {
      InSlotsInPage(c, h, n, a);
    }
  }

  lemma TailImage(c: Config, pm: Pm, h: nat, log: seq<Rec>, t: Pm, s: Pm, m: Mem)
    requires Sane(c) && Unpublished(c, t.cur, h) && Published(c, s.cur, h, log)
    requires Grown(c, pm, h, |log|, t) && Settled(c, t) && TailStored(c, t, Slot(c, h + |log|), s) && Image(s, m)
    ensures (Unpublished(c, m, h) || Published(c, m, h, log)) && Prior(c, pm, m)
  {
    OutsideSlots(c, h, |log|);
    hide Slot, InSlots, AllRecorded;
    forall a: nat | !InJournal(c, a) ensures Possible(pm, a, Get(m, a)) {
      assert Untouched(pm, t, a) && Possible(s, a, Get(m, a));
    }
    forall a: nat | InJournal(c, a) && a != c.ptr + 8 ensures Get(m, a) == Get(t.cur, a) {
      assert Possible(s, a, Get(m, a));
    }
    assert InJournal(c, c.ptr);
    assert Possible(s, c.ptr + 8, Get(m, c.ptr + 8));
    if Get(m, c.ptr + 8) == Slot(c, h + |log|) {
      SamePublished(c, s.cur, m, h, log);
    }
  }

  lemma TailRecorded(c: Config, m: Mem, h: nat, log: seq<Rec>, m': Mem)
    requires Sane(c) && AllRecorded(c, m, h, log) && m' == m[c.ptr + 8 := Slot(c, h + |log|)]
    ensures AllRecorded(c, m', h, log)
  {
    forall k | 0 <= k < |log| ensures Recorded(c, m', Slot(c, h + k), log[k]) {
      SlotMod(c, h + k);
      assert Recorded(c, m, Slot(c, h + k), log[k]);
    }
  }

  // ---------------------------------------------------------------- the code

  class LiteJournal {
    const c: Config
    var pm: Pm
    ghost var past: seq<Pm>   // every state of the memory so far

    constructor (c: Config, m: Mem)
      ensures this.c == c && pm == Clean(m) && past == []
    {
      this.c, pm, past := c, Clean(m), [];
    }

    /** The states since the call, all of which a crash may have cut off. */
    twostate predicate Since(p: Pm -> bool)
      reads this
    {
      old(past) <= past && forall i :: |old(past)| <= i < |past| ==> p(past[i])
    }

    method Store(a: nat, v: nat)
      modifies this
      ensures pm == Stored(old(pm), a, v) && past == old(past) + [pm]
    {
      pm := Stored(pm, a, v);
      past := past + [pm];
    }

    method Fence()
      modifies this
      ensures pm == Fenced(old(pm)) && past == old(past) + [pm]
    {
      pm := Fenced(pm);
      past := past + [pm];
    }

    /** nova_flush_buffer without its fence. */
    method Flush(lo: nat, len: nat)
      modifies this
      ensures pm == Flushed(old(pm), lo, len, c.clwb) && past == old(past) + [pm]
    {
      pm := Flushed(pm, lo, len, c.clwb);
      past := past + [pm];
    }

    /** nova_append_entry_journal: the word of the field goes into entry p. */
    method AppendEntryJournal(p: nat, field: nat) returns (next: nat)
      modifies this
      ensures next == NextLiteJournal(p)
      ensures
        var r := Rec(Aligned(field), Get(old(pm).cur, Aligned(field)));
        pm == Written(c, old(pm), p, r) && Since(s => Writing(c, old(pm), p, r, s))
    {
      var aligned := Aligned(field);
      var value := Get(pm.cur, aligned);
      Store(p, JOURNAL_ENTRY);
      Store(p + 8, aligned);
      Store(p + 16, value);
      Store(p + 24, Seal(c, JOURNAL_ENTRY, aligned, value));
      next := NextLiteJournal(p);
    }

    /** A transaction over some fields: the body of nova_create_inode_transaction,
        nova_create_rename_transaction and nova_create_logentry_transaction. */
    method Begin(fields: seq<nat>, ghost h: nat) returns (tail: nat)
      requires Sane(c) && Settled(c, pm) && Unpublished(c, pm.cur, h) && 0 < |fields| < SLOTS
      requires forall k :: 0 <= k < |fields| ==> !InJournal(c, Aligned(fields[k]))
      modifies this
      ensures tail == Slot(c, h + |fields|) && Settled(c, pm) && Published(c, pm.cur, h, Captured(old(pm).cur, fields))
      ensures forall a: nat :: !InJournal(c, a) ==> Get(pm.cur, a) == Get(old(pm).cur, a)
      ensures AllOrNone(c, old(pm), h, Captured(old(pm).cur, fields), pm)
      ensures Since(s => AllOrNone(c, old(pm), h, Captured(old(pm).cur, fields), s))
    {
      ghost var log := Captured(pm.cur, fields);
      var head := Get(pm.cur, c.ptr);
      var temp := head;
      for i := 0 to |fields|
        invariant temp == Slot(c, h + i) && Grown(c, old(pm), h, i, pm) && AllRecorded(c, pm.cur, h, log[..i])
        invariant Since(s => AllOrNone(c, old(pm), h, log, s))
      {
        temp := AppendOne(temp, fields[i], old(pm), h, log, i);
      }
      assert log[..|fields|] == log;
      FlushBatch(head, temp, old(pm), h, log);
      Publish(temp, old(pm), h, log);
      tail := temp;
    }

    /** An operation that the journal covers: its transaction begins, and then it stores, flushes and fences.  pm1 is
        history: the state when the transaction has begun.  In every state on the way a crash undoes it all. */
    method Perform(o: Operation, ops: seq<Op>, ghost h: nat) returns (tail: nat, ghost pm1: Pm)
      requires Sane(c) && !c.clwb && Settled(c, pm) && Unpublished(c, pm.cur, h)
      requires Placed(o) && Covered(o) && Clear(c, o) && Elsewhere(c, ops) && StoresOf(o, pm.cur, ops)
      modifies this
      ensures tail == Slot(c, h + |FieldsOf(o)|) && Begun(c, old(pm), pm1, h, o) && pm == ApplyAll(pm1, ops, c.clwb)
      ensures Since(s => Undoable(c, old(pm), h, Captured(old(pm).cur, FieldsOf(o)), s))
    {
      hide Undoable, ApplyAll, Apply, FieldsOf, Captured, AllOrNone, Published, Settled, Legal, Remembers, Journaled,
           InJournal, Unpublished, Sane, AllCaptured, Covered, Placed, Harmless;
      ghost var log, pm0 := Captured(pm.cur, FieldsOf(o)), pm;
      CapturedIsLegal(c, pm.cur, o);
      forall k | 0 <= k < |FieldsOf(o)| ensures !InJournal(c, Aligned(FieldsOf(o)[k])) {
        assert FieldsOf(o)[k] in FieldsOf(o);
      }
      tail := Begin(FieldsOf(o), h);
      pm1 := pm;
      forall s | AllOrNone(c, pm0, h, log, s) ensures Undoable(c, pm0, h, log, s) {
        AllOrNoneIsUndoable(c, pm0, h, log, s);
      }
      CapturedExactly(o);
      StoresStay(c, o, pm0.cur, pm1.cur, ops);
      StoresAreHarmless(o, pm1.cur, log, ops);
      ApplyNone(pm1, ops, c.clwb);
      for i := 0 to |ops|
        invariant pm == ApplyAll(pm1, ops[..i], c.clwb)
        invariant Since(s => Undoable(c, pm0, h, log, s))
      {
        ApplyOne(pm1, ops, i, c.clwb);
        PrefixIsHarmless(c, log, pm1.cur, ops, i + 1);
        OpenIsUndoable(c, pm0, pm1, h, log, ops[..i + 1]);
        match ops[i] {
          case StoreOp(a, v) => Store(a, v);
          case FlushOp(lo, len) => Flush(lo, len);
          case FenceOp => Fence();
        }
      }
      assert ops[..|ops|] == ops;
    }

    method AppendOne(p: nat, field: nat, ghost pm0: Pm, ghost h: nat, ghost log: seq<Rec>, ghost i: nat)
      returns (next: nat)
      requires Sane(c) && Settled(c, pm0) && Unpublished(c, pm0.cur, h) && i < |log| < SLOTS
      requires p == Slot(c, h + i) && Grown(c, pm0, h, i, pm) && AllRecorded(c, pm.cur, h, log[..i])
      requires !InJournal(c, Aligned(field)) && log[i] == Rec(Aligned(field), Get(pm0.cur, Aligned(field)))
      modifies this
      ensures next == Slot(c, h + i + 1) && Grown(c, pm0, h, i + 1, pm) && AllRecorded(c, pm.cur, h, log[..i + 1])
      ensures Since(s => AllOrNone(c, pm0, h, log, s))
    {
      AppendsRight(c, pm0, h, log, i, field, pm);
      WritingIsUnpublished(c, pm0, h, log, i, pm, p, log[i]);
      NextIsSlot(c, h + i);
      assert Writing(c, pm, p, log[i], Written(c, pm, p, log[i]));
      hide Writing, Written, Grown, AllOrNone, AllRecorded, Slot, NextLiteJournal, Sane, Settled, Unpublished,
           InJournal;
      next := AppendEntryJournal(p, field);
      assert Writing(c, old(pm), p, log[i], pm);
    }

    /** nova_flush_journal_in_batch up to its barrier. */
    method FlushJournalInBatch(head: nat, tail: nat)
      modifies this
      ensures pm == BatchFlushed(c, old(pm), head, tail)
      ensures Since(s => s == BatchBegun(c, old(pm), head, tail) || s == BatchFlushed(c, old(pm), head, tail))
    {
      if head < tail {
        Flush(head, tail - head);
      } else {
        Flush(head, PAGE_SIZE - head % PAGE_SIZE);
        Flush(tail - tail % PAGE_SIZE, tail % PAGE_SIZE);
      }
    }

    method FlushBatch(head: nat, tail: nat, ghost pm0: Pm, ghost h: nat, ghost log: seq<Rec>)
      requires Sane(c) && Settled(c, pm0) && Unpublished(c, pm0.cur, h) && 0 < |log| < SLOTS
      requires head == Slot(c, h) && tail == Slot(c, h + |log|)
      requires Grown(c, pm0, h, |log|, pm) && AllRecorded(c, pm.cur, h, log)
      modifies this
      ensures Settled(c, pm) && Grown(c, pm0, h, |log|, pm) && AllRecorded(c, pm.cur, h, log)
      ensures Since(s => AllOrNone(c, pm0, h, log, s))
    {
      BatchSettles(c, pm0, h, |log|, pm);
      BatchGrown(c, pm0, h, log, pm, head, tail);
      hide Grown, AllOrNone, AllRecorded, Settled, Slot, BatchBegun, BatchFlushed, Fenced, Unpublished, Sane;
      FlushJournalInBatch(head, tail);
      Fence();
    }

    /** The store of the tail with its flush. */
    method SetTail(tail: nat)
      modifies this
      ensures pm == Fenced(Flushed(Stored(old(pm), c.ptr + 8, tail), c.ptr, CACHELINE, c.clwb))
      ensures Since(s => Publishing(c, old(pm), tail, s))
    {
      Store(c.ptr + 8, tail);
      Flush(c.ptr, CACHELINE);
      Fence();
    }

    method Publish(tail: nat, ghost pm0: Pm, ghost h: nat, ghost log: seq<Rec>)
      requires Sane(c) && Settled(c, pm0) && Unpublished(c, pm0.cur, h) && tail == Slot(c, h + |log|)
      requires Settled(c, pm) && Grown(c, pm0, h, |log|, pm) && AllRecorded(c, pm.cur, h, log)
      modifies this
      ensures Settled(c, pm) && Published(c, pm.cur, h, log)
      ensures forall a: nat :: !InJournal(c, a) ==> Get(pm.cur, a) == Get(pm0.cur, a)
      ensures AllOrNone(c, pm0, h, log, pm)
      ensures Since(s => AllOrNone(c, pm0, h, log, s))
    {
      forall s | Publishing(c, pm, tail, s) ensures AllOrNone(c, pm0, h, log, s) {
        TailPublishes(c, pm0, h, log, pm, s);
      }
      var s := Fenced(Flushed(Stored(pm, c.ptr + 8, tail), c.ptr, CACHELINE, c.clwb));
      assert Publishing(c, pm, tail, s);
      TailPublishes(c, pm0, h, log, pm, s);
      GrownElsewhere(c, pm0, h, |log|, pm);
      assert forall a: nat :: !InJournal(c, a) ==> Get(s.cur, a) == Get(pm.cur, a);
      hide Grown, AllOrNone, AllRecorded, Settled, Slot, Published, Flushed, Fenced, Stored, Unpublished, Sane,
           Publishing, InJournal;
      SetTail(tail);
    }

    /** nova_commit_lite_transaction: the head catches up with the tail. */
    method Commit(tail: nat, ghost h: nat, ghost log: seq<Rec>)
      requires Sane(c) && Settled(c, pm) && Legal(c, log) && Published(c, pm.cur, h, log)
      requires tail == Get(pm.cur, c.ptr + 8)
      modifies this
      ensures Settled(c, pm) && Unpublished(c, pm.cur, h + |log|)
      ensures forall a: nat :: a != c.ptr ==> Get(pm.cur, a) == Get(old(pm).cur, a)
      ensures Since(s => DoneOrNot(c, h, log, s))
    {
      var s1 := Stored(pm, c.ptr, tail);
      var s2 := Flushed(s1, c.ptr, CACHELINE, c.clwb);
      HeadCommits(c, pm, h, log, s1);
      HeadCommits(c, pm, h, log, s2);
      HeadCommits(c, pm, h, log, Fenced(s2));
      hide Settled, Published, Unpublished, Slot, Flushed, Fenced, DoneOrNot, Sane;
      Store(c.ptr, tail);
      Flush(c.ptr, CACHELINE);
      Fence();
    }

    /** nova_lite_journal_soft_init for one journal, on the memory a crash has left: the entries
        are all genuine, and recovery passes through the states above. */
    method SoftInit(ghost h: nat, ghost log: seq<Rec>) returns (ret: int)
      requires Sane(c) && Legal(c, log) && pm == Clean(pm.cur) && Safe(c, pm.cur, h, log)
      modifies this
      ensures ret == 0 && pm == Recovered(c, old(pm).cur, h, log)
      ensures Since(s => Reached(c, old(pm).cur, h, log, s))
    {
      if Get(pm.cur, c.ptr) == Get(pm.cur, c.ptr + 8) {
        if Published(c, pm.cur, h, log) {
          PublishedIsNot(c, pm.cur, h, log);
        }
        return 0;
      }
      var ok := CheckJournalEntries(h, log);
      if !ok {
        return EINVAL;
      }
      PublishedIsNot(c, pm.cur, h, log);
      RecoverLiteJournal(h, log);
      ret := 0;
    }

    /** nova_check_journal_entries. */
    method CheckJournalEntries(ghost h: nat, ghost log: seq<Rec>) returns (ok: bool)
      requires Sane(c) && Legal(c, log) && Published(c, pm.cur, h, log)
      ensures ok
    {
      var temp, tail := Get(pm.cur, c.ptr), Get(pm.cur, c.ptr + 8);
      ghost var k: nat := 0;
      while temp != tail
        invariant k <= |log| && temp == Slot(c, h + k)
        decreases |log| - k
      {
        assert k < |log| && Recorded(c, pm.cur, Slot(c, h + k), log[k]);
        var type_, data1, data2 := Get(pm.cur, temp), Get(pm.cur, temp + 8), Get(pm.cur, temp + 16);
        if Get(pm.cur, temp + 24) != Seal(c, type_, data1, data2) {
          return false;
        }
        NextIsSlot(c, h + k);
        temp := NextLiteJournal(temp);
        k := k + 1;
      }
      ok := true;
    }

    /** nova_undo_lite_journal_entry; inodes have no replicas, so only one kind of entry counts. */
    method UndoEntry(p: nat)
      modifies this
      ensures Get(old(pm).cur, p) != JOURNAL_ENTRY ==> pm == old(pm) && past == old(past)
      ensures Get(old(pm).cur, p) == JOURNAL_ENTRY ==>
        pm == StoredAndFlushed(c, old(pm), Get(old(pm).cur, p + 8), Get(old(pm).cur, p + 16))
      ensures Get(old(pm).cur, p) == JOURNAL_ENTRY ==>
        past == old(past) + [Stored(old(pm), Get(old(pm).cur, p + 8), Get(old(pm).cur, p + 16)), pm]
    {
      var addr, val := Get(pm.cur, p + 8), Get(pm.cur, p + 16);
      if Get(pm.cur, p) == JOURNAL_ENTRY {
        Store(addr, val);
        Flush(addr, CACHELINE);
      }
    }

    method UndoOne(temp: nat, ghost m: Mem, ghost h: nat, ghost log: seq<Rec>, ghost k: nat) returns (next: nat)
      requires Sane(c) && Legal(c, log) && Published(c, m, h, log) && k < |log|
      requires temp == Slot(c, h + k) && pm == UndoneTo(c, Clean(m), log, k)
      modifies this
      ensures next == Slot(c, h + k + 1) && pm == UndoneTo(c, Clean(m), log, k + 1)
      ensures Since(s => MidUndo(c, m, log, s))
    {
      hide MidUndo, UndoneTo, Published, Slot, Legal, Sane, Stored, StoredAndFlushed, NextLiteJournal;
      EntryIsRecord(c, m, h, log, k);
      MidUndoStep(c, m, log, k);
      NextIsSlot(c, h + k);
      UndoEntry(temp);
      next := NextLiteJournal(temp);
    }

    method UndoAll(ghost h: nat, ghost log: seq<Rec>)
      requires Sane(c) && Legal(c, log) && pm == Clean(pm.cur) && Published(c, pm.cur, h, log)
      modifies this
      ensures pm == UndoneTo(c, Clean(old(pm).cur), log, |log|)
      ensures Since(s => MidUndo(c, old(pm).cur, log, s))
    {
      hide MidUndo, Slot, Sane, AllRecorded, Consistent, Apart, Stored, Flushed;
      ghost var m := pm.cur;
      var temp, tail := Get(pm.cur, c.ptr), Get(pm.cur, c.ptr + 8);
      ghost var k: nat := 0;
      while temp != tail
        invariant k <= |log| && temp == Slot(c, h + k) && pm == UndoneTo(c, Clean(m), log, k)
        invariant Since(s => MidUndo(c, m, log, s))
        decreases |log| - k
      {
        temp := UndoOne(temp, m, h, log, k);
        k := k + 1;
      }
      SlotsEqual(c, h, k, |log|);
    }

    /** nova_recover_lite_journal. */
    method RecoverLiteJournal(ghost h: nat, ghost log: seq<Rec>)
      requires Sane(c) && Legal(c, log) && pm == Clean(pm.cur) && Published(c, pm.cur, h, log)
      modifies this
      ensures pm == Fenced(TailFlushed(c, old(pm).cur, h, log))
      ensures Since(s => MidUndo(c, old(pm).cur, log, s) || Late(c, old(pm).cur, h, log, s))
    {
      ghost var m := pm.cur;
      var head := Get(pm.cur, c.ptr);
      assert forall s :: Publishing(c, UndoneTo(c, Clean(m), log, |log|), Slot(c, h), s) ==> Late(c, m, h, log, s);
      UndoAll(h, log);
      hide MidUndo, UndoneTo, Slot, Legal, Sane, Flushed, Stored, Published, Late, Publishing, Fenced;
      SetTail(head);
    }
  }

  function StoredAndFlushed(c: Config, pm: Pm, a: nat, v: nat): Pm {
    Flushed(Stored(pm, a, v), a, CACHELINE, c.clwb)
  }

  lemma MidUndoStep(c: Config, m: Mem, log: seq<Rec>, k: nat)
    requires k < |log|
    ensures MidUndo(c, m, log, Stored(UndoneTo(c, Clean(m), log, k), log[k].addr, log[k].val))
    ensures MidUndo(c, m, log, UndoneTo(c, Clean(m), log, k + 1))
    ensures UndoneTo(c, Clean(m), log, k + 1)
            == StoredAndFlushed(c, UndoneTo(c, Clean(m), log, k), log[k].addr, log[k].val)
  {
    var s := UndoneTo(c, Clean(m), log, k);
    assert Undoing(c, m, log, Stored(s, log[k].addr, log[k].val), k);
    assert Undoing(c, m, log, UndoneTo(c, Clean(m), log, k + 1), k + 1);
  }

  /** While the undo goes on, entry k can still be read. */
  lemma EntryIsRecord(c: Config, m: Mem, h: nat, log: seq<Rec>, k: nat)
    requires Sane(c) && Legal(c, log) && Published(c, m, h, log) && k < |log|
    ensures Recorded(c, UndoneTo(c, Clean(m), log, k).cur, Slot(c, h + k), log[k])
  {
    UndoUnderway(c, m, log, k);
    SameRecorded(c, m, UndoneTo(c, Clean(m), log, k).cur, h + k, log[k]);
  }

  /** A crash in a commit finds the transaction whole, or done. */
  ghost predicate DoneOrNot(c: Config, h: nat, log: seq<Rec>, s: Pm) {
    forall m :: Image(s, m) ==> Published(c, m, h, log) || Unpublished(c, m, h + |log|)
  }

  lemma HeadCommits(c: Config, t: Pm, h: nat, log: seq<Rec>, s: Pm)
    requires Sane(c) && Settled(c, t) && Legal(c, log) && Published(c, t.cur, h, log)
    requires
      var s1 := Stored(t, c.ptr, Slot(c, h + |log|));
      var s2 := Flushed(s1, c.ptr, CACHELINE, c.clwb);
      s == s1 || s == s2 || (s == Fenced(s2))
    ensures DoneOrNot(c, h, log, s) && Unpublished(c, s.cur, h + |log|)
    ensures s == Fenced(Flushed(Stored(t, c.ptr, Slot(c, h + |log|)), c.ptr, CACHELINE, c.clwb)) ==> Settled(c, s)
  {
    var v := Slot(c, h + |log|);
    assert InJournal(c, c.ptr) && InJournal(c, c.ptr + 8);
    ReachesItself(c.ptr);
    hide Reaches, Slot;
    assert s.cur == t.cur[c.ptr := v];
    assert forall a: nat :: InJournal(c, a) && a != c.ptr ==> a !in s.dirty;
    assert c.ptr in s.dirty ==> s.dirty[c.ptr] == {Get(t.cur, c.ptr)};
    hide Flushed, Fenced, Stored;
    forall m | Image(s, m) ensures Published(c, m, h, log) || Unpublished(c, m, h + |log|) {
      forall a: nat | InJournal(c, a) && a != c.ptr ensures Get(m, a) == Get(t.cur, a) {
        assert Possible(s, a, Get(m, a));
      }
      assert Possible(s, c.ptr, Get(m, c.ptr));
      if Get(m, c.ptr) != v {
        SamePublished(c, t.cur, m, h, log);
      }
    }
  }

  lemma GrownElsewhere(c: Config, pm: Pm, h: nat, n: nat, s: Pm)
    requires Sane(c) && Grown(c, pm, h, n, s)
    ensures forall a: nat :: !InJournal(c, a) ==> Get(s.cur, a) == Get(pm.cur, a)
  {
    forall a: nat | !InJournal(c, a) ensures Get(s.cur, a) == Get(pm.cur, a) {
      if InSlots(c, h, n, a) { InSlotsInPage(c, h, n, a); }
      assert Untouched(pm, s, a);
    }
  }

  /** Flushing changes nothing that is read, and publishes nothing. */
  lemma BatchGrown(c: Config, pm: Pm, h: nat, log: seq<Rec>, s: Pm, head: nat, tail: nat)
    requires Sane(c) && Settled(c, pm) && Unpublished(c, pm.cur, h) && Grown(c, pm, h, |log|, s)
    ensures AllOrNone(c, pm, h, log, BatchBegun(c, s, head, tail))
    ensures AllOrNone(c, pm, h, log, BatchFlushed(c, s, head, tail))
    ensures
      var t := Fenced(BatchFlushed(c, s, head, tail));
      AllOrNone(c, pm, h, log, t) && Grown(c, pm, h, |log|, t) && t.cur == s.cur
  {
    var t1, t2 := BatchBegun(c, s, head, tail), BatchFlushed(c, s, head, tail);
    hide InSlots, Reaches, AllOrNone;
    assert Grown(c, pm, h, |log|, t1) && Grown(c, pm, h, |log|, t2) && Grown(c, pm, h, |log|, Fenced(t2));
    GrownIsUnpublished(c, pm, h, |log|, t1, log);
    GrownIsUnpublished(c, pm, h, |log|, t2, log);
    GrownIsUnpublished(c, pm, h, |log|, Fenced(t2), log);
  }

  /** After a commit recovery does nothing. */
  lemma CommittedIsFinal(c: Config, pm: Pm, h: nat, log: seq<Rec>, m: Mem, s: Pm)
    requires Settled(c, pm) && Unpublished(c, pm.cur, h) && Image(pm, m) && Sane(c)
    ensures Unpublished(c, m, h) && Recovered(c, m, h, log) == Clean(m) && (Reached(c, m, h, log, s) ==> s == Clean(m))
  {
    ImageOfSettled(c, pm, m);
    SamePublished(c, pm.cur, m, h, log);
  }

  // ---------------------------------------------------------------- what is journaled

  // Where the fields are in an inode, in a directory entry and at the end of a log page.
  const VALID: nat := 1
  const LOG_HEAD: nat := 64
  const LOG_TAIL: nat := 72
  const DELETE_EPOCH_ID: nat := 104
  const INODE_SIZE: nat := 128
  const REASSIGNED: nat := 2
  const INVALID: nat := 3
  const CSUM: nat := 12
  const INO: nat := 16
  const DENTRY_HEADER: nat := 48
  const PAGE_TAIL: nat := 4064

  /** nova_append_inode_journal: fields of an inode at pi. */
  function InodeFields(pi: nat, newInode: bool, invalidate: bool, isDir: bool): seq<nat> {
    var log_tail, valid, delete_epoch_id := pi + LOG_TAIL, pi + VALID, pi + DELETE_EPOCH_ID;
    if isDir then [log_tail]
    else if newInode then [valid]
    else if invalidate then [log_tail, valid, delete_epoch_id]
    else [log_tail]
  }

  /** nova_append_dentry_journal: ino, csum, reassigned and invalid of an entry at d. */
  function DentryFields(d: nat): seq<nat> {
    [d + INO, d + CSUM, d + REASSIGNED, d + INVALID]
  }

  /** nova_create_inode_transaction. */
  function CreateFields(inode: nat, dir: nat, newInode: bool, invalidate: bool): seq<nat> {
    InodeFields(inode, newInode, invalidate, false) + InodeFields(dir, newInode, invalidate, true)
  }

  function OptionalDentry(d: Option<nat>): seq<nat> {
    if d.Some? then DentryFields(d.value) else []
  }

  /** nova_create_rename_transaction. */
  function RenameFields(oldInode: nat, oldDir: nat, newInode: Option<nat>, newDir: Option<nat>,
                        father: Option<nat>, newDentry: Option<nat>, oldDentry: Option<nat>,
                          invalidateNew: bool): seq<nat> {
    InodeFields(oldInode, false, false, false) + InodeFields(oldDir, false, false, true)
    + (if newInode.Some? then InodeFields(newInode.value, false, invalidateNew, false) else [])
    + (if newDir.Some? then InodeFields(newDir.value, false, false, true) else [])
    + OptionalDentry(father) + OptionalDentry(newDentry) + OptionalDentry(oldDentry)
  }

  /** nova_create_logentry_transaction: the words of a log entry. */
  function LogentryFields(entry: nat, size: nat): seq<nat> {
    seq(size / 8, i => entry + i * 8)
  }

  /** No transaction fills the page: at most 18 entries, and a log entry has at most 255 + 1 + 48 bytes. */
  lemma TransactionsFit(i: nat, j: nat, k: Option<nat>, l: Option<nat>, d: Option<nat>, e: Option<nat>, f: Option<nat>,
                        entry: nat, size: nat, newInode: bool, invalidate: bool)
    ensures 2 <= |CreateFields(i, j, newInode, invalidate)| <= 4
    ensures 2 <= |RenameFields(i, j, k, l, d, e, f, invalidate)| <= 18
    ensures 8 <= size <= 304 ==> 0 < |LogentryFields(entry, size)| < SLOTS
  {
  }

  // ---------------------------------------------------------------- what the operations store

  datatype EntryType = FileWrite | DirLog | SetAttr | LinkChange | MmapWrite | SnapshotInfo

  /** nova_get_log_entry_size. */
  function EntrySize(kind: EntryType): nat {
    match kind
    case FileWrite => 64
    case DirLog => DENTRY_HEADER
    case SetAttr => 56
    case LinkChange => 40
    case MmapWrite => 40
    case SnapshotInfo => 40
  }

  /** An operation under a journal, with the inodes and entries that it changes in place.  A rename stores copies
      of inodes that were made before; oldHead and newHead say whether the log entry that was appended since has
      given the copy another log_head, as it does when the log was empty. */
  datatype Operation =
    | NewInode(inode: nat, dir: nat)
    | TimeAndLink(inode: nat, dir: nat, invalidate: bool)
    | Rename(oldInode: nat, oldDir: nat, newInode: Option<nat>, newDir: Option<nat>, father: Option<nat>,
             newDentry: Option<nat>, oldDentry: Option<nat>, invalidate: bool, oldHead: bool, newHead: bool)
    | InPlace(entry: nat, kind: EntryType)

  /** A field: its first byte and its length. */
  datatype Field = Field(at: nat, len: nat)

  /** The fields that change while the transaction of an operation is open, from the code between its beginning
      and its commit. */
  function Changed(o: Operation): set<Field> {
    match o
    case NewInode(inode, dir) => {Field(inode + VALID, 1), Field(dir + LOG_TAIL, 8)}
    case TimeAndLink(inode, dir, invalidate) =>
      {Field(inode + LOG_TAIL, 8), Field(dir + LOG_TAIL, 8)}
      + if invalidate then {Field(inode + VALID, 1), Field(inode + DELETE_EPOCH_ID, 8)} else {}
    case Rename(oldInode, oldDir, newInode, newDir, father, newDentry, oldDentry, invalidate, oldHead, newHead) =>
      {Field(oldInode + LOG_TAIL, 8), Field(oldDir + LOG_TAIL, 8)}
      + (if oldHead then {Field(oldInode + LOG_HEAD, 8)} else {})
      + (if newInode.Some? then {Field(newInode.value + LOG_TAIL, 8)} else {})
      + (if newInode.Some? && invalidate
         then {Field(newInode.value + VALID, 1), Field(newInode.value + DELETE_EPOCH_ID, 8)} else {})
      + (if newInode.Some? && newHead then {Field(newInode.value + LOG_HEAD, 8)} else {})
      + (if newDir.Some? then {Field(newDir.value + LOG_TAIL, 8)} else {})
      + (if father.Some? then {Field(father.value + INO, 8)} else {})
      + (if newDentry.Some? then {Field(newDentry.value + REASSIGNED, 1)} else {})
      + (if oldDentry.Some? then {Field(oldDentry.value + REASSIGNED, 1)} else {})
    case InPlace(entry, kind) =>
      {Field(entry, EntrySize(kind))}
      // removing a directory entry in place counts it in invalid_entries of its page
      + if kind == DirLog then {Field(entry - entry % PAGE_SIZE + PAGE_TAIL, 4)} else {}
  }

  /** The operation changes some byte of the word a. */
  ghost predicate Changes(o: Operation, a: nat) {
    a % 8 == 0 && exists f :: f in Changed(o) && f.at < a + 8 && a < f.at + f.len
  }

  /** The fields that its transaction captures. */
  function FieldsOf(o: Operation): (fields: seq<nat>)
    ensures 0 < |fields| < SLOTS
  {
    match o
    case NewInode(inode, dir) => CreateFields(inode, dir, true, false)
    case TimeAndLink(inode, dir, invalidate) => CreateFields(inode, dir, false, invalidate)
    case Rename(oldInode, oldDir, newInode, newDir, father, newDentry, oldDentry, invalidate, _, _) =>
      RenameFields(oldInode, oldDir, newInode, newDir, father, newDentry, oldDentry, invalidate)
    case InPlace(entry, kind) => LogentryFields(entry, EntrySize(kind))
  }

  /** A word that the transaction captures. */
  predicate Captures(o: Operation, a: nat) {
    exists x :: x in FieldsOf(o) && Aligned(x) == a
  }

  /** Every word that changes is captured. */
  ghost predicate AllCaptured(o: Operation) {
    forall a: nat :: Changes(o, a) ==> Captures(o, a)
  }

  predicate InodeAt(pi: nat) {
    pi % INODE_SIZE == 0
  }

  /** A log entry begins at a word, and ends before the tail of its page. */
  predicate EntryAt(p: nat, size: nat) {
    p % 8 == 0 && p % PAGE_SIZE + size <= PAGE_TAIL
  }

  /** It is not where the inode is. */
  predicate OptionalEntryAt(d: Option<nat>, inodes: set<nat>) {
    d.Some? ==> (
      && EntryAt(d.value, DENTRY_HEADER)
      && forall pi :: pi in inodes ==> d.value + DENTRY_HEADER <= pi || pi + INODE_SIZE <= d.value)
  }

  /** Inodes and log entries are where they can be. */
  predicate Placed(o: Operation) {
    match o
    case NewInode(inode, dir) => InodeAt(inode) && InodeAt(dir)
    case TimeAndLink(inode, dir, _) => InodeAt(inode) && InodeAt(dir)
    case Rename(oldInode, oldDir, newInode, newDir, father, newDentry, oldDentry, _, _, _) =>
      var inodes := {oldInode} + if newInode.Some? then {newInode.value} else {};
      && InodeAt(oldInode) && InodeAt(oldDir) && (newInode.Some? ==> InodeAt(newInode.value))
      && (newDir.Some? ==> InodeAt(newDir.value))
      && OptionalEntryAt(father, inodes) && OptionalEntryAt(newDentry, inodes) && OptionalEntryAt(oldDentry, inodes)
    case InPlace(entry, kind) => EntryAt(entry, EntrySize(kind))
  }

  /** Which operations the journal covers: all, but for renames that move a log_head, and the removal of a
      directory entry in place, whose page counter is changed without being captured. */
  predicate Covered(o: Operation) {
    match o
    case NewInode(_, _) => true
    case TimeAndLink(_, _, _) => true
    case Rename(_, _, newInode, _, _, _, _, _, oldHead, newHead) => !oldHead && !(newInode.Some? && newHead)
    case InPlace(_, kind) => kind != DirLog
  }

  /** A field that does not cross a word changes one word. */
  lemma InOneWord(f: Field, a: nat)
    requires f.at % 8 + f.len <= 8 && a % 8 == 0 && f.at < a + 8 && a < f.at + f.len
    ensures a == Aligned(f.at)
  {
  }

  lemma Words(pi: nat)
    requires pi % 8 == 0
    ensures Aligned(pi + VALID) == pi && Aligned(pi + LOG_TAIL) == pi + LOG_TAIL
    ensures Aligned(pi + DELETE_EPOCH_ID) == pi + DELETE_EPOCH_ID && Aligned(pi + INO) == pi + INO
    ensures Aligned(pi + REASSIGNED) == pi && Aligned(pi + INVALID) == pi && Aligned(pi + CSUM) == pi + 8
  {
  }

  lemma EntryWords(entry: nat, size: nat, a: nat)
    requires entry % 8 == 0 && size % 8 == 0 && a % 8 == 0 && entry < a + 8 && a < entry + size
    ensures a in LogentryFields(entry, size) && Aligned(a) == a
  {
    assert LogentryFields(entry, size)[(a - entry) / 8] == a;
  }

  lemma ChangedField(o: Operation, f: Field)
    requires Placed(o) && Covered(o) && !o.InPlace? && f in Changed(o)
    ensures f.at in FieldsOf(o) && f.at % 8 + f.len <= 8
  {
    hide Changed, RenameFields, InodeAt, EntryAt;
    if o.Rename? {
      RenameChanges(o, f);
      RenameHas(o.oldInode, o.oldDir, o.newInode, o.newDir, o.father, o.newDentry, o.oldDentry, o.invalidate, f.at);
    } else {
      CreateChanges(o, f);
    }
  }

  lemma CreateChanges(o: Operation, f: Field)
    requires (o.NewInode? || o.TimeAndLink?) && Placed(o) && f in Changed(o)
    ensures f.at in FieldsOf(o) && f.at % 8 + f.len <= 8
  {
    hide InodeAt, RenameFields, LogentryFields, EntryAt;
    InodeOffsets(o.inode);
    InodeOffsets(o.dir);
  }

  lemma RenameChanges(o: Operation, f: Field)
    requires o.Rename? && Placed(o) && Covered(o) && f in Changed(o)
    ensures RenameForm(o.oldInode, o.oldDir, o.newInode, o.newDir, o.father, o.newDentry, o.oldDentry, o.invalidate,
                       f.at)
    ensures f.at % 8 + f.len <= 8
  {
    hide RenameFields, FieldsOf, InodeAt, EntryAt;
    InodeOffsets(o.oldInode);
    InodeOffsets(o.oldDir);
    if o.newInode.Some? { InodeOffsets(o.newInode.value); }
    if o.newDir.Some? { InodeOffsets(o.newDir.value); }
    if o.father.Some? { EntryOffsets(o.father.value); }
    if o.newDentry.Some? { EntryOffsets(o.newDentry.value); }
    if o.oldDentry.Some? { EntryOffsets(o.oldDentry.value); }
  }

  lemma InodeOffsets(pi: nat)
    requires InodeAt(pi)
    ensures (pi + LOG_TAIL) % 8 == 0 && (pi + VALID) % 8 == 1 && (pi + DELETE_EPOCH_ID) % 8 == 0
    ensures (pi + LOG_HEAD) % 8 == 0 && (pi + LOG_HEAD) % INODE_SIZE == LOG_HEAD
  {
  }

  lemma EntryOffsets(d: nat)
    requires EntryAt(d, DENTRY_HEADER)
    ensures (d + INO) % 8 == 0 && (d + REASSIGNED) % 8 == 2
  {
  }

  predicate RenameForm(oldInode: nat, oldDir: nat, newInode: Option<nat>, newDir: Option<nat>, father: Option<nat>,
                       newDentry: Option<nat>, oldDentry: Option<nat>, invalidate: bool, x: nat)
  {
    || x == oldInode + LOG_TAIL || x == oldDir + LOG_TAIL
    || (newInode.Some? && x == newInode.value + LOG_TAIL)
    || (newInode.Some? && invalidate && (x == newInode.value + VALID || x == newInode.value + DELETE_EPOCH_ID))
    || (newDir.Some? && x == newDir.value + LOG_TAIL)
    || (father.Some? && x == father.value + INO)
    || (newDentry.Some? && x == newDentry.value + REASSIGNED)
    || (oldDentry.Some? && x == oldDentry.value + REASSIGNED)
  }

  lemma RenameHas(oldInode: nat, oldDir: nat, newInode: Option<nat>, newDir: Option<nat>, father: Option<nat>,
                  newDentry: Option<nat>, oldDentry: Option<nat>, invalidate: bool, x: nat)
    requires RenameForm(oldInode, oldDir, newInode, newDir, father, newDentry, oldDentry, invalidate, x)
    ensures x in RenameFields(oldInode, oldDir, newInode, newDir, father, newDentry, oldDentry, invalidate)
  {
  }

  lemma CoveredIsCaptured(o: Operation, a: nat)
    requires Placed(o) && Covered(o) && Changes(o, a)
    ensures Captures(o, a)
  {
    var f :| f in Changed(o) && f.at < a + 8 && a < f.at + f.len;
    match o
    case InPlace(entry, kind) =>
      EntryWords(entry, EntrySize(kind), a);
    case _ =>
      ChangedField(o, f);
      InOneWord(f, a);
  }

  /** The journal covers an operation exactly if every word that it changes is captured. */
  lemma CapturedExactly(o: Operation)
    requires Placed(o)
    ensures AllCaptured(o) <==> Covered(o)
  {
    if Covered(o) {
      forall a: nat | Changes(o, a) ensures Captures(o, a) { CoveredIsCaptured(o, a); }
    } else {
      var a := Uncaptured(o);
    }
  }

  /** The fields of a rename are fields of inodes or of directory entries. */
  lemma RenameOnly(oldInode: nat, oldDir: nat, newInode: Option<nat>, newDir: Option<nat>, father: Option<nat>,
                   newDentry: Option<nat>, oldDentry: Option<nat>, invalidate: bool, x: nat)
    requires x in RenameFields(oldInode, oldDir, newInode, newDir, father, newDentry, oldDentry, invalidate)
    ensures
      || OfInode(oldInode, x) || OfInode(oldDir, x) || OfInode(OrZero(newInode), x) || OfInode(OrZero(newDir), x)
      || (father.Some? && x in DentryFields(father.value)) || (newDentry.Some? && x in DentryFields(newDentry.value))
      || (oldDentry.Some? && x in DentryFields(oldDentry.value))
  {
    hide DentryFields;
  }

  function OrZero(o: Option<nat>): nat {
    if o.Some? then o.value else 0
  }

  predicate OfInode(pi: nat, x: nat) {
    x == pi + LOG_TAIL || x == pi + VALID || x == pi + DELETE_EPOCH_ID
  }

  lemma OfInodeWord(pi: nat, x: nat)
    requires pi % INODE_SIZE == 0 && OfInode(pi, x)
    ensures Aligned(x) % INODE_SIZE != LOG_HEAD
  {
  }

  lemma DentryWord(d: nat, x: nat)
    requires x in DentryFields(d)
    ensures d <= x < d + DENTRY_HEADER && (d % 8 == 0 ==> d <= Aligned(x))
  {
  }

  lemma HeadUncaptured(o: Operation) returns (a: nat)
    requires o.Rename? && Placed(o) && !Covered(o)
    ensures Changes(o, a) && !Captures(o, a)
  {
    hide RenameFields, DentryFields, OfInode, InodeAt, OptionalEntryAt, LogentryFields, CreateFields, Aligned;
    var pi := if o.oldHead then o.oldInode else o.newInode.value;
    InodeOffsets(pi);
    a := pi + LOG_HEAD;
    assert Field(a, 8) in Changed(o);
    forall x | x in FieldsOf(o)
      ensures Aligned(x) != a
    {
      RenameOnly(o.oldInode, o.oldDir, o.newInode, o.newDir, o.father, o.newDentry, o.oldDentry, o.invalidate, x);
      NotHead(o, a, x);
    }
  }

  lemma NotHead(o: Operation, a: nat, x: nat)
    requires o.Rename? && Placed(o) && a % INODE_SIZE == LOG_HEAD
    requires a == o.oldInode + LOG_HEAD || (o.newInode.Some? && a == o.newInode.value + LOG_HEAD)
    requires
      || OfInode(o.oldInode, x) || OfInode(o.oldDir, x) || OfInode(OrZero(o.newInode), x)
      || OfInode(OrZero(o.newDir), x) || (o.father.Some? && x in DentryFields(o.father.value))
      || (o.newDentry.Some? && x in DentryFields(o.newDentry.value))
      || (o.oldDentry.Some? && x in DentryFields(o.oldDentry.value))
    ensures Aligned(x) != a
  {
    hide DentryFields, OfInode;
    if pi :| pi in {o.oldInode, o.oldDir, OrZero(o.newInode), OrZero(o.newDir)} && OfInode(pi, x) {
      OfInodeWord(pi, x);
    } else {
      var d := if o.father.Some? && x in DentryFields(o.father.value) then o.father.value
               else if o.newDentry.Some? && x in DentryFields(o.newDentry.value) then o.newDentry.value
               else o.oldDentry.value;
      DentryWord(d, x);
    }
  }

  lemma CounterUncaptured(o: Operation) returns (a: nat)
    requires o.InPlace? && Placed(o) && !Covered(o)
    ensures Changes(o, a) && !Captures(o, a)
  {
    hide LogentryFields, EntryAt;
    a := Counter(o.entry, DENTRY_HEADER);
    assert Field(a, 4) in Changed(o);
    forall x | x in FieldsOf(o) ensures Aligned(x) != a { LogentryRange(o.entry, DENTRY_HEADER, x); }
  }

  lemma LogentryRange(entry: nat, size: nat, x: nat)
    requires x in LogentryFields(entry, size)
    ensures entry <= x < entry + size
  {
    var k :| 0 <= k < size / 8 && x == entry + k * 8;
  }

  lemma Counter(entry: nat, size: nat) returns (a: nat)
    requires EntryAt(entry, size)
    ensures a == entry - entry % PAGE_SIZE + PAGE_TAIL && a % 8 == 0 && entry + size <= a
  {
    a := entry - entry % PAGE_SIZE + PAGE_TAIL;
    assert entry - entry % PAGE_SIZE == entry / PAGE_SIZE * PAGE_SIZE;
  }

  /** A word that changes and is not captured. */
  lemma Uncaptured(o: Operation) returns (a: nat)
    requires Placed(o) && !Covered(o)
    ensures Changes(o, a) && !Captures(o, a)
  {
    hide Changes, Captures, Placed;
    match o
    case Rename(oldInode, oldDir, newInode, newDir, father, newDentry, oldDentry, invalidate, oldHead, newHead) =>
      a := HeadUncaptured(o);
    case InPlace(entry, kind) =>
      a := CounterUncaptured(o);
  }

  /** Removing the directory entry at 4096 in place counts it in the word at 8160, and a rename of the inode at 128
      whose log was empty sets its log_head at 192; neither word is captured. */
  lemma NotCaptured()
    ensures
      var o := InPlace(4096, DirLog);
      Placed(o) && Changes(o, 8160) && !Captures(o, 8160)
    ensures
      var o := Rename(128, 256, None, None, None, None, Some(4096), false, true, false);
      Placed(o) && Changes(o, 192) && !Captures(o, 192)
  {
    var o := InPlace(4096, DirLog);
    assert Field(8160, 4) in Changed(o);
    forall x | x in FieldsOf(o) ensures Aligned(x) != 8160 { LogentryRange(4096, DENTRY_HEADER, x); }
    var r := Rename(128, 256, None, None, None, None, Some(4096), false, true, false);
    assert Field(192, 8) in Changed(r);
    assert 128 + LOG_HEAD == 192;
    forall x | x in FieldsOf(r) ensures Aligned(x) != 192 {
      RenameOnly(128, 256, None, None, None, None, Some(4096), false, x);
      NotHead(r, 192, x);
    }
  }

  // ---------------------------------------------------------------- operations are undone

  /** A recovery that is cut off again and again. */
  ghost predicate Attempts(c: Config, ms: seq<Mem>, h: nat, log: seq<Rec>) {
    ms != [] && forall i :: 0 <= i < |ms| - 1 ==> Attempt(c, ms[i], h, log, ms[i + 1])
  }

  /** If the machine crashes in state s, then however often recovery is cut off, at last every word outside the
      journal has a value that a crash in state pm0 might have left. */
  ghost predicate Undoable(c: Config, pm0: Pm, h: nat, log: seq<Rec>, s: Pm) {
    forall ms: seq<Mem> :: Attempts(c, ms, h, log) && Image(s, ms[0]) ==>
      Prior(c, pm0, Recovered(c, ms[|ms| - 1], h, log).cur)
  }

  lemma {:induction false} NoneStays(c: Config, ms: seq<Mem>, h: nat, log: seq<Rec>)
    requires Sane(c) && Attempts(c, ms, h, log) && Unpublished(c, ms[0], h)
    ensures forall a: nat :: Get(Recovered(c, ms[|ms| - 1], h, log).cur, a) == Get(ms[0], a)
  {
    if |ms| > 1 {
      assert Attempt(c, ms[0], h, log, ms[1]);
      forall a: nat ensures Get(ms[1], a) == Get(ms[0], a) { assert Possible(Clean(ms[0]), a, Get(ms[1], a)); }
      forall i | 0 <= i < |ms[1..]| - 1 ensures Attempt(c, ms[1..][i], h, log, ms[1..][i + 1]) {
        assert Attempt(c, ms[i + 1], h, log, ms[i + 2]);
      }
      NoneStays(c, ms[1..], h, log);
    }
  }

  /** The records hold what the words were. */
  ghost predicate Remembers(log: seq<Rec>, m: Mem) {
    forall k :: 0 <= k < |log| ==> log[k].val == Get(m, log[k].addr)
  }

  /** The published transaction is undone, and words that it has not captured have not changed. */
  lemma PublishedGoesBack(c: Config, pm0: Pm, ms: seq<Mem>, h: nat, log: seq<Rec>)
    requires Sane(c) && Legal(c, log) && !c.clwb && Remembers(log, pm0.cur)
    requires Attempts(c, ms, h, log) && Published(c, ms[0], h, log)
    requires forall a: nat :: !InJournal(c, a) && !Journaled(log, a) ==> Possible(pm0, a, Get(ms[0], a))
    ensures Prior(c, pm0, Recovered(c, ms[|ms| - 1], h, log).cur)
  {
    AnyNumberOfCrashes(c, ms, h, log);
    var z := Recovered(c, ms[|ms| - 1], h, log).cur;
    forall a: nat | !InJournal(c, a)
      ensures Possible(pm0, a, Get(z, a))
    {
      if k :| 0 <= k < |log| && log[k].addr == a {
        assert Get(z, log[k].addr) == log[k].val;
      } else {
        assert !Journaled(log, a) && Get(ms[0], a) == Get(z, a);
      }
    }
  }

  lemma AllOrNoneIsUndoable(c: Config, pm0: Pm, h: nat, log: seq<Rec>, s: Pm)
    requires Sane(c) && Legal(c, log) && !c.clwb && Remembers(log, pm0.cur) && AllOrNone(c, pm0, h, log, s)
    ensures Undoable(c, pm0, h, log, s)
  {
    hide Recovered, Unpublished, Published, Legal, Attempt;
    forall ms: seq<Mem> | Attempts(c, ms, h, log) && Image(s, ms[0])
      ensures Prior(c, pm0, Recovered(c, ms[|ms| - 1], h, log).cur)
    {
      if Unpublished(c, ms[0], h) {
        NoneStays(c, ms, h, log);
      } else {
        PublishedGoesBack(c, pm0, ms, h, log);
      }
    }
  }

  /** Every store goes to a captured word, or stores what was there. */
  ghost predicate Harmless(log: seq<Rec>, m: Mem, ops: seq<Op>) {
    forall i :: 0 <= i < |ops| && ops[i].StoreOp? ==> Journaled(log, ops[i].a) || ops[i].v == Get(m, ops[i].a)
  }

  lemma {:induction false} ValuesStay(pm: Pm, log: seq<Rec>, ops: seq<Op>, clwb: bool, a: nat, v: nat)
    requires Harmless(log, pm.cur, ops) && !Journaled(log, a)
    ensures Get(ApplyAll(pm, ops, clwb).cur, a) == Get(pm.cur, a)
    ensures Possible(ApplyAll(pm, ops, clwb), a, v) ==> Possible(pm, a, v)
  {
    if ops != [] {
      hide Reaches, Journaled;
      ValuesStay(pm, log, ops[..|ops| - 1], clwb, a, v);
      var op := ops[|ops| - 1];
      assert op.StoreOp? && op.a == a ==> op.v == Get(pm.cur, a);
    }
  }

  /** What a word may be when the transaction has begun it might have been before. */
  lemma BegunAsBefore(c: Config, pm0: Pm, h: nat, log: seq<Rec>, s: Pm, a: nat, v: nat)
    requires AllOrNone(c, pm0, h, log, s) && !InJournal(c, a) && Possible(s, a, v)
    ensures Possible(pm0, a, v)
  {
    var m := s.cur[a := v];
    assert Image(s, m) by { forall b: nat ensures Possible(s, b, Get(m, b)) { } }
    assert Possible(pm0, a, Get(m, a));
  }

  /** While the transaction is open. */
  lemma OpenIsUndoable(c: Config, pm0: Pm, pm1: Pm, h: nat, log: seq<Rec>, ops: seq<Op>)
    requires Sane(c) && Legal(c, log) && !c.clwb && Remembers(log, pm0.cur)
    requires Settled(c, pm1) && Published(c, pm1.cur, h, log) && AllOrNone(c, pm0, h, log, pm1)
    requires Elsewhere(c, ops) && Harmless(log, pm1.cur, ops)
    ensures Undoable(c, pm0, h, log, ApplyAll(pm1, ops, c.clwb))
  {
    var s := ApplyAll(pm1, ops, c.clwb);
    OpsKeepPublished(c, pm1, ops);
    hide ApplyAll, Recovered, Published, Legal, Attempt, AllOrNone, Possible, Remembers, Settled, SameJournal,
         Harmless, Journaled, InJournal;
    forall ms: seq<Mem> | Attempts(c, ms, h, log) && Image(s, ms[0])
      ensures Prior(c, pm0, Recovered(c, ms[|ms| - 1], h, log).cur)
    {
      ImageOfSettled(c, s, ms[0]);
      SameJournals(c, pm1.cur, s.cur, ms[0]);
      SamePublished(c, pm1.cur, ms[0], h, log);
      forall a: nat | !InJournal(c, a) && !Journaled(log, a)
        ensures Possible(pm0, a, Get(ms[0], a))
      {
        assert Possible(s, a, Get(ms[0], a));
        ValuesStay(pm1, log, ops, c.clwb, a, Get(ms[0], a));
        BegunAsBefore(c, pm0, h, log, pm1, a, Get(ms[0], a));
      }
      PublishedGoesBack(c, pm0, ms, h, log);
    }
  }

  lemma SameJournals(c: Config, m1: Mem, m2: Mem, m3: Mem)
    requires SameJournal(c, m1, m2) && SameJournal(c, m2, m3)
    ensures SameJournal(c, m1, m3)
  {
  }

  // ---------------------------------------------------------------- which operations

  /** No word that the operation changes or captures is in the journal. */
  ghost predicate Clear(c: Config, o: Operation) {
    && (forall a: nat :: Changes(o, a) ==> !InJournal(c, a))
    && (forall x :: x in FieldsOf(o) ==> !InJournal(c, Aligned(x)))
  }

  /** Every store changes a word of the operation, or stores what was there. */
  ghost predicate StoresOf(o: Operation, m: Mem, ops: seq<Op>) {
    forall i :: 0 <= i < |ops| && ops[i].StoreOp? ==> Changes(o, ops[i].a) || ops[i].v == Get(m, ops[i].a)
  }

  /** The transaction of the operation has begun in state pm0, and is published in pm1. */
  ghost predicate Begun(c: Config, pm0: Pm, pm1: Pm, h: nat, o: Operation) {
    var log := Captured(pm0.cur, FieldsOf(o));
    && Sane(c) && Clear(c, o) && Settled(c, pm1) && Published(c, pm1.cur, h, log) && AllOrNone(c, pm0, h, log, pm1)
    && forall a: nat :: !InJournal(c, a) ==> Get(pm1.cur, a) == Get(pm0.cur, a)
  }

  lemma CapturedIsLegal(c: Config, m: Mem, o: Operation)
    requires Clear(c, o)
    ensures Legal(c, Captured(m, FieldsOf(o))) && Remembers(Captured(m, FieldsOf(o)), m)
    ensures forall a: nat :: Journaled(Captured(m, FieldsOf(o)), a) <==> Captures(o, a)
  {
    hide CreateFields, RenameFields, LogentryFields;
    var fields, log := FieldsOf(o), Captured(m, FieldsOf(o));
    forall k | 0 <= k < |log| ensures !InJournal(c, log[k].addr) { assert fields[k] in fields; }
    forall a: nat ensures Journaled(log, a) <==> Captures(o, a) {
      if x :| x in fields && Aligned(x) == a {
        var k :| 0 <= k < |fields| && fields[k] == x;
        assert log[k].addr == a;
      }
      if k :| 0 <= k < |log| && log[k].addr == a {
        assert fields[k] in fields;
      }
    }
  }

  lemma StoresAreHarmless(o: Operation, m: Mem, log: seq<Rec>, ops: seq<Op>)
    requires AllCaptured(o) && StoresOf(o, m, ops) && forall a: nat :: Journaled(log, a) <==> Captures(o, a)
    ensures Harmless(log, m, ops)
  {
  }

  /** An operation is undone, whatever of its stores a crash has found, exactly if its transaction captures every
      word that it changes. */
  lemma UndoneExactly(c: Config, pm0: Pm, pm1: Pm, h: nat, o: Operation)
    requires Begun(c, pm0, pm1, h, o) && !c.clwb
    ensures AllCaptured(o) <==>
      forall ops: seq<Op> :: Elsewhere(c, ops) && StoresOf(o, pm1.cur, ops) ==>
        Undoable(c, pm0, h, Captured(pm0.cur, FieldsOf(o)), ApplyAll(pm1, ops, c.clwb))
  {
    hide Undoable, ApplyAll, FieldsOf, Captured, AllOrNone, Published, Settled, Legal, Remembers, Journaled, InJournal;
    var log := Captured(pm0.cur, FieldsOf(o));
    CapturedIsLegal(c, pm0.cur, o);
    if AllCaptured(o) {
      forall ops: seq<Op> | Elsewhere(c, ops) && StoresOf(o, pm1.cur, ops)
        ensures Undoable(c, pm0, h, log, ApplyAll(pm1, ops, c.clwb))
      {
        StoresAreHarmless(o, pm1.cur, log, ops);
        OpenIsUndoable(c, pm0, pm1, h, log, ops);
      }
    } else {
      var a: nat :| Changes(o, a) && !Captures(o, a);
      var v := Unlike(pm0, a);
      var ops := [StoreOp(a, v)];
      UncapturedIsLost(c, pm0, pm1, h, o, a, v);
      assert Elsewhere(c, ops) && StoresOf(o, pm1.cur, ops);
    }
  }

  /** A value that the word cannot have. */
  lemma Unlike(pm: Pm, a: nat) returns (v: nat)
    ensures !Possible(pm, a, v)
  {
    v := Larger(Older(pm, a));
  }

  lemma {:induction false} Larger(values: set<nat>) returns (v: nat)
    ensures forall x :: x in values ==> x < v
    decreases |values|
  {
    if values == {} {
      v := 0;
    } else {
      var x :| x in values;
      v := Larger(values - {x});
      if v <= x { v := x + 1; }
      assert forall y :: y in values ==> y == x || y in values - {x};
    }
  }

  /** A word that was stored and not captured keeps its new value through recovery. */
  lemma UncapturedIsLost(c: Config, pm0: Pm, pm1: Pm, h: nat, o: Operation, a: nat, v: nat)
    requires Begun(c, pm0, pm1, h, o) && Changes(o, a) && !Captures(o, a) && !Possible(pm0, a, v)
    ensures !Undoable(c, pm0, h, Captured(pm0.cur, FieldsOf(o)), ApplyAll(pm1, [StoreOp(a, v)], c.clwb))
  {
    hide FieldsOf, Captured, AllOrNone, Legal, Remembers, Journaled, Recovered, InJournal, Published, Settled;
    var log := Captured(pm0.cur, FieldsOf(o));
    CapturedIsLegal(c, pm0.cur, o);
    var s := Stored(pm1, a, v);
    OneStore(pm1, a, v, c.clwb);
    OpsKeepPublished(c, pm1, [StoreOp(a, v)]);
    SamePublished(c, pm1.cur, s.cur, h, log);
    KeptThroughRecovery(c, s.cur, h, log, a);
    CrashesHere(c, h, log, s);
    var ms := [s.cur];
    assert !Prior(c, pm0, Recovered(c, ms[|ms| - 1], h, log).cur) by { assert !InJournal(c, a); }
  }

  lemma OneStore(pm: Pm, a: nat, v: nat, clwb: bool)
    ensures ApplyAll(pm, [StoreOp(a, v)], clwb) == Stored(pm, a, v)
  {
    assert [StoreOp(a, v)][..0] == [];
  }

  lemma KeptThroughRecovery(c: Config, m: Mem, h: nat, log: seq<Rec>, a: nat)
    requires Sane(c) && Legal(c, log) && Published(c, m, h, log) && !InJournal(c, a) && !Journaled(log, a)
    ensures Get(Recovered(c, m, h, log).cur, a) == Get(m, a)
  {
    RecoveredRestores(c, m, h, log);
  }

  lemma CrashesHere(c: Config, h: nat, log: seq<Rec>, s: Pm)
    ensures Attempts(c, [s.cur], h, log) && Image(s, [s.cur][0])
  {
  }

  lemma ApplyNone(pm: Pm, ops: seq<Op>, clwb: bool)
    ensures ApplyAll(pm, ops[..0], clwb) == pm
  {
  }

  lemma ApplyOne(pm: Pm, ops: seq<Op>, i: nat, clwb: bool)
    requires i < |ops|
    ensures
      var t := ApplyAll(pm, ops[..i], clwb);
      ApplyAll(pm, ops[..i + 1], clwb)
      == match ops[i] {
           case StoreOp(a, v) => Stored(t, a, v)
           case FlushOp(lo, len) => Flushed(t, lo, len, clwb)
           case FenceOp => Fenced(t)
         }
  {
    assert ops[..i + 1][..i] == ops[..i];
  }

  lemma PrefixIsHarmless(c: Config, log: seq<Rec>, m: Mem, ops: seq<Op>, n: nat)
    requires n <= |ops| && Harmless(log, m, ops) && Elsewhere(c, ops)
    ensures Harmless(log, m, ops[..n]) && Elsewhere(c, ops[..n])
  {
  }

  lemma StoresStay(c: Config, o: Operation, m: Mem, m': Mem, ops: seq<Op>)
    requires StoresOf(o, m, ops) && Elsewhere(c, ops) && forall a: nat :: !InJournal(c, a) ==> Get(m', a) == Get(m, a)
    ensures StoresOf(o, m', ops)
  {
  }

  // ---------------------------------------------------------------- the target of a rename

  /** nova_update_inode with a copy: its first n words are stored. */
  function CopyOps(pi: nat, pic: seq<nat>, n: nat): seq<Op>
    requires n <= |pic|
  {
    if n == 0 then [] else CopyOps(pi, pic, n - 1) + [StoreOp(pi + 8 * (n - 1), pic[n - 1])]
  }

  lemma {:induction false} CopyStores(pm: Pm, before: seq<Op>, pi: nat, pic: seq<nat>, n: nat, clwb: bool)
    requires n <= |pic|
    ensures forall i :: 0 <= i < n ==> Get(ApplyAll(pm, before + CopyOps(pi, pic, n), clwb).cur, pi + 8 * i) == pic[i]
  {
    if n > 0 {
      CopyStores(pm, before, pi, pic, n - 1, clwb);
      var ops := before + CopyOps(pi, pic, n);
      assert ops[..|ops| - 1] == before + CopyOps(pi, pic, n - 1);
    }
  }

  /** A rename onto a file whose last name this was sets its valid and delete_epoch_id, and then stores the copy of
      its inode that was made before.  So the two have at the end what they had at the beginning: the inode is
      invalid after that exactly if it was invalid. */
  lemma RenameLeavesTheTargetValid(pm: Pm, pi: nat, pic: seq<nat>, valid: nat, epoch: nat, clwb: bool)
    requires |pic| == 15 && pic[0] == Get(pm.cur, pi)
    requires pic[DELETE_EPOCH_ID / 8] == Get(pm.cur, pi + DELETE_EPOCH_ID)
    ensures
      var ops := [StoreOp(pi, valid), StoreOp(pi + DELETE_EPOCH_ID, epoch)] + CopyOps(pi, pic, 15);
      && Get(ApplyAll(pm, ops, clwb).cur, pi) == Get(pm.cur, pi)
      && Get(ApplyAll(pm, ops, clwb).cur, pi + DELETE_EPOCH_ID) == Get(pm.cur, pi + DELETE_EPOCH_ID)
  {
    var before := [StoreOp(pi, valid), StoreOp(pi + DELETE_EPOCH_ID, epoch)];
    CopyStores(pm, before, pi, pic, 15, clwb);
    assert pi + 8 * 13 == pi + DELETE_EPOCH_ID;
  }
}
