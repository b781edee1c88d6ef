/** The log of a file as replay sees it, and the page index that must agree with it. */
module FileLog {

  const PAGE: nat := 4096

  datatype Entry =
    | Write(pgoff: nat, num: nat, blocknr: nat, epoch: nat, invalidPages: nat, reassigned: bool)
    | SetAttr(size: nat, setsize: bool, epoch: nat, invalid: bool)
    | Other(invalid: bool)

  predicate Covers(e: Entry, p: nat) {
    e.Write? && e.pgoff <= p < e.pgoff + e.num
  }

  /** The first page that a file of the given size does not reach. */
  function FirstPage(size: nat): nat {
    (size + PAGE - 1) / PAGE
  }

  /** Replay treats every attribute entry as a truncation to the size that it records. */
  predicate Cuts(e: Entry, p: nat) {
    e.SetAttr? && FirstPage(e.size) <= p
  }

  function BlockOf(e: Entry, p: nat): int
    requires e.Write?
  {
    e.blocknr + (p - e.pgoff)
  }

  /** All pages of the entry are counted as invalid, so replay skips it. */
  predicate Skipped(e: Entry) {
    e.Write? && e.invalidPages == e.num
  }

  /** The write entry among the first n that holds page p, or -1. */
  function Last(log: seq<Entry>, n: nat, p: nat): (j: int)
    requires n <= |log|
    ensures -1 <= j < n
    ensures j >= 0 ==> Covers(log[j], p)
  {
    if n == 0 then -1
    else if Covers(log[n - 1], p) then n - 1
    else if Cuts(log[n - 1], p) then -1
    else Last(log, n - 1, p)
  }

  /** The same as replay computes it. */
  function LastReplayed(log: seq<Entry>, n: nat, p: nat): (j: int)
    requires n <= |log|
    ensures -1 <= j < n
    ensures j >= 0 ==> Covers(log[j], p)
  {
    if n == 0 then -1
    else if Covers(log[n - 1], p) && !Skipped(log[n - 1]) then n - 1
    else if Cuts(log[n - 1], p) then -1
    else LastReplayed(log, n - 1, p)
  }

  type Tree = map<nat, nat>

  /** The slot of page p, or -1. */
  function Slot(tree: Tree, p: nat): int {
    if p in tree then tree[p] else -1
  }

  /** The index holds what the first n entries of the log say. */
  ghost predicate Agrees(tree: Tree, log: seq<Entry>, n: nat)
    requires n <= |log|
  {
    forall p: nat :: Slot(tree, p) == Last(log, n, p)
  }

  /** The number of pages in [lo, hi) whose slot is j. */
  function Slots(tree: Tree, j: nat, lo: nat, hi: nat): (c: nat)
    requires lo <= hi
    ensures c <= hi - lo
  {
    if lo == hi then 0 else Slots(tree, j, lo, hi - 1) + if Slot(tree, hi - 1) == j then 1 else 0
  }

  lemma {:induction false} SlotsSome(tree: Tree, j: nat, lo: nat, hi: nat, p: nat)
    requires lo <= p < hi && Slot(tree, p) == j
    ensures Slots(tree, j, lo, hi) > 0
  {
    if p < hi - 1 {
      SlotsSome(tree, j, lo, hi - 1, p);
    }
  }

  lemma {:induction false} SlotsAll(tree: Tree, j: nat, lo: nat, hi: nat)
    requires lo <= hi && forall p :: lo <= p < hi ==> Slot(tree, p) == j
    ensures Slots(tree, j, lo, hi) == hi - lo
  {
    if lo < hi {
      SlotsAll(tree, j, lo, hi - 1);
    }
  }

  /** One slot has changed. */
  lemma {:induction false} SlotsChange(tree: Tree, tree': Tree, p: nat, j: nat, lo: nat, hi: nat)
    requires lo <= hi && forall q: nat :: q != p ==> Slot(tree', q) == Slot(tree, q)
    ensures
      Slots(tree', j, lo, hi) + (if lo <= p < hi && Slot(tree, p) == j then 1 else 0)
      == Slots(tree, j, lo, hi) + (if lo <= p < hi && Slot(tree', p) == j then 1 else 0)
  {
    if lo < hi {
      SlotsChange(tree, tree', p, j, lo, hi - 1);
    }
  }

  /** Entries that say the same to replay: flags and growing counters do not matter, until all pages
      are counted as invalid. */
  predicate SameShape(e: Entry, f: Entry) {
    match e
    case Write(pgoff, num, blocknr, epoch, invalidPages, _) =>
      f.Write? && f.pgoff == pgoff && f.num == num && f.blocknr == blocknr && f.epoch == epoch
      && f.invalidPages >= invalidPages && (invalidPages == num ==> f == e)
    case SetAttr(size, setsize, epoch, _) => f.SetAttr? && f.size == size && f.setsize == setsize && f.epoch == epoch
    case Other(_) => f.Other?
  }

  lemma {:induction false} LastFrame(log: seq<Entry>, log': seq<Entry>, n: nat, p: nat)
    requires n <= |log| && n <= |log'| && forall k :: 0 <= k < n ==> SameShape(log[k], log'[k])
    ensures Last(log', n, p) == Last(log, n, p)
  {
    if n > 0 {
      LastFrame(log, log', n - 1, p);
    }
  }

  /** Skipping is harmless for a page whose last entry is not itself skipped. */
  lemma {:induction false} SkipIsHarmless(log: seq<Entry>, n: nat, p: nat)
    requires n <= |log| && (Last(log, n, p) >= 0 ==> !Skipped(log[Last(log, n, p)]))
    ensures LastReplayed(log, n, p) == Last(log, n, p)
  {
    if n > 0 && !Covers(log[n - 1], p) && !Cuts(log[n - 1], p) {
      SkipIsHarmless(log, n - 1, p);
    }
  }

  /** An attribute entry that cuts nothing may be rewritten so that it still cuts nothing. */
  lemma {:induction false} LastAfterRewrite(log: seq<Entry>, k: nat, e: Entry, n: nat, p: nat)
    requires k < |log| && n <= |log| && log[k].SetAttr? && e.SetAttr?
    requires Cuts(log[k], p) || Cuts(e, p) ==> Last(log, k, p) == -1
    ensures Last(log[k := e], n, p) == Last(log, n, p)
  {
    if n > 0 {
      LastAfterRewrite(log, k, e, n - 1, p);
      if n - 1 == k {
        assert Last(log, k, p) == Last(log, n - 1, p);
      }
    }
  }
}
