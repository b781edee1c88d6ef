/** The copy-on-write loop of a file write: new blocks are filled from the user's buffer and,
    at both ends, from the old pages, and replace the old pages in the index. */
module CowWrite {
  import opened Common
  import opened FileLog
  import opened FileBooks
  import opened FileIndex

  type byte = x: int | 0 <= x < 256
  type Page = seq<byte>

  /** Persistent memory, block by block. */
  class Pmem {
    var blocks: seq<Page>

    ghost predicate Valid()
      reads this
    {
      forall b :: 0 <= b < |blocks| ==> |blocks[b]| == PAGE
    }

    constructor (blocks: seq<Page>)
      requires forall b :: 0 <= b < |blocks| ==> |blocks[b]| == PAGE
      ensures Valid() && this.blocks == blocks
    {
      this.blocks := blocks;
    }

    /** do_nova_nvmm_write inside one block. */
    method Store(b: nat, off: nat, bytes: seq<byte>)
      requires Valid() && b < |blocks| && off + |bytes| <= PAGE
      modifies this
      ensures Valid() && blocks == old(blocks)[b := Splice(old(blocks)[b], off, bytes)]
    {
      blocks := blocks[b := Splice(blocks[b], off, bytes)];
    }
  }

  function Splice(page: Page, off: nat, bytes: seq<byte>): (r: Page)
    requires off + |bytes| <= |page|
    ensures |r| == |page|
    ensures forall k :: 0 <= k < |page| ==> r[k] == if off <= k < off + |bytes| then bytes[k - off] else page[k]
  {
    page[..off] + bytes + page[off + |bytes|..]
  }

  function Zeros(n: nat): (r: seq<byte>)
    ensures |r| == n && forall k :: 0 <= k < n ==> r[k] == 0
  {
    if n == 0 then [] else Zeros(n - 1) + [0]
  }

  /** The content of page p of a file; holes read as zeros. */
  function Content(blocks: seq<Page>, tree: Tree, log: seq<Entry>, p: nat): Page {
    var b := Place(tree, log, p);
    if 0 <= b < |blocks| then blocks[b] else Zeros(PAGE)
  }

  /** Byte k of page p after bytes [pos, pos + |buf|) of the file have been overwritten. */
  function NewByte(page: Page, pos: nat, buf: seq<byte>, p: nat, k: nat): byte
    requires k < |page|
  {
    var x := p * PAGE + k;
    if pos <= x < pos + |buf| then buf[x - pos] else page[k]
  }

  ghost predicate IsNew(new_: Page, page: Page, pos: nat, buf: seq<byte>, p: nat) {
    |new_| == PAGE == |page| && forall k :: 0 <= k < PAGE ==> new_[k] == NewByte(page, pos, buf, p, k)
  }

  /** The blocks [lo, lo + num) of the device hold no page of the file. */
  ghost predicate Separate(pm: Pmem, h: Header, lo: nat, num: nat)
    reads pm, h
  {
    && pm.Valid() && lo + num <= |pm.blocks|
    && forall p :: p in h.tree ==>
         0 <= Place(h.tree, h.log, p) < |pm.blocks| && !(lo <= Place(h.tree, h.log, p) < lo + num)
  }

  /** Only blocks in [lo, lo + num) differ. */
  ghost predicate OnlyIn(blocks: seq<Page>, blocks': seq<Page>, lo: nat, num: nat) {
    |blocks'| == |blocks| && forall b :: 0 <= b < |blocks| && !(lo <= b < lo + num) ==> blocks'[b] == blocks[b]
  }

  lemma SeparateKeepsContent(blocks: seq<Page>, blocks': seq<Page>, tree: Tree, log: seq<Entry>, lo: nat, num: nat,
                             p: nat)
    requires OnlyIn(blocks, blocks', lo, num)
    requires p in tree ==> !(lo <= Place(tree, log, p) < lo + num)
    ensures Content(blocks', tree, log, p) == Content(blocks, tree, log, p)
  {
  }

  // ---------------------------------------------------------------- geometry of a write

  function BlocksFor(pos: nat, count: nat): nat
    requires count > 0
  {
    (count + pos % PAGE - 1) / PAGE + 1
  }

  lemma Geometry(pos: nat, count: nat)
    requires count > 0
    ensures
      var num, offset, end := BlocksFor(pos, count), pos % PAGE, (pos + count) % PAGE;
      && num > 0 && pos == pos / PAGE * PAGE + offset
      && offset + count == (if end == 0 then num * PAGE else (num - 1) * PAGE + end)
  {
    var q := pos / PAGE;
    var offset := pos % PAGE;
    assert pos + count == q * PAGE + (offset + count);
    assert (pos + count) % PAGE == (offset + count) % PAGE;
  }

  // ---------------------------------------------------------------- the partial blocks

  /** nova_handle_partial_block: bytes [off, off + len) of page p are copied to block b, or
      zeros if the page is a hole. */
  method HandlePartialBlock(pm: Pmem, h: Header, p: nat, b: nat, off: nat, len: nat)
    requires pm.Valid() && b < |pm.blocks| && off + len <= PAGE
    requires p in h.tree ==> 0 <= Place(h.tree, h.log, p) < |pm.blocks|
    modifies pm
    ensures pm.Valid()
    ensures |Content(old(pm.blocks), h.tree, h.log, p)| == PAGE
    ensures pm.blocks ==
            old(pm.blocks)[b :=
              Splice(old(pm.blocks)[b], off, Content(old(pm.blocks), h.tree, h.log, p)[off..off + len])]
  {
    if p !in h.tree {
      assert Zeros(PAGE)[off..off + len] == Zeros(len);
      pm.Store(b, off, Zeros(len));
    } else {
      var ptr := pm.blocks[Place(h.tree, h.log, p)];
      pm.Store(b, off, ptr[off..off + len]);
    }
  }

  /** The head of nova_handle_head_tail_blocks: the first block is not written from its start. */
  method HandleHead(pm: Pmem, h: Header, pos: nat, ubuf: seq<byte>, blocknr: nat) returns (head: nat)
    requires Separate(pm, h, blocknr, 1) && |ubuf| > 0 && pos % PAGE != 0
    modifies pm
    ensures pm.Valid() && OnlyIn(old(pm.blocks), pm.blocks, blocknr, 1)
    ensures head == if |ubuf| > PAGE - pos % PAGE then PAGE - pos % PAGE else |ubuf|
    ensures var page := Content(old(pm.blocks), h.tree, h.log, pos / PAGE);
      |page| == PAGE &&
      forall k :: 0 <= k < PAGE && k < pos % PAGE + head ==>
        pm.blocks[blocknr][k] == NewByte(page, pos, ubuf, pos / PAGE, k)
  {
    var offset := pos % PAGE;
    head := if |ubuf| > PAGE - offset then PAGE - offset else |ubuf|;
    HandlePartialBlock(pm, h, pos / PAGE, blocknr, 0, offset);
    pm.Store(blocknr, offset, ubuf[..head]);
  }

  /** Its tail: the last block is not written up to its end.  The user's bytes may have been
      copied to it already. */
  method HandleTail(pm: Pmem, h: Header, pos: nat, ubuf: seq<byte>, blocknr: nat, copied: bool)
    requires Separate(pm, h, blocknr, 1) && |ubuf| > 0 && (pos + |ubuf|) % PAGE != 0
    requires
      var p, end := (pos + |ubuf|) / PAGE, (pos + |ubuf|) % PAGE;
      var page := Content(pm.blocks, h.tree, h.log, p);
      if copied then
        |page| == PAGE && forall k :: 0 <= k < end ==> pm.blocks[blocknr][k] == NewByte(page, pos, ubuf, p, k)
      else pos <= p * PAGE
    modifies pm
    ensures pm.Valid() && OnlyIn(old(pm.blocks), pm.blocks, blocknr, 1)
    ensures
      var p := (pos + |ubuf|) / PAGE;
      IsNew(pm.blocks[blocknr], Content(old(pm.blocks), h.tree, h.log, p), pos, ubuf, p)
  {
    var p, end := (pos + |ubuf|) / PAGE, (pos + |ubuf|) % PAGE;
    if !copied {
      pm.Store(blocknr, 0, ubuf[|ubuf| - end..]);
      SeparateKeepsContent(old(pm.blocks), pm.blocks, h.tree, h.log, blocknr, 1, p);
    }
    HandlePartialBlock(pm, h, p, blocknr, end, PAGE - end);
  }

  /** nova_handle_head_tail_blocks: of the new blocks of a chunk, the first one is completed if
      the chunk does not begin at its start, and the last one if the chunk does not end at its
      end.  The two may be the same block. */
  method HandleHeadTailBlocks(pm: Pmem, h: Header, pos: nat, ubuf: seq<byte>, blocknr: nat)
    returns (head: nat, tail: nat)
    requires |ubuf| > 0 && Separate(pm, h, blocknr, BlocksFor(pos, |ubuf|))
    modifies pm
    ensures pm.Valid() && OnlyIn(old(pm.blocks), pm.blocks, blocknr, BlocksFor(pos, |ubuf|))
    ensures head == if pos % PAGE == 0 then 0 else if |ubuf| > PAGE - pos % PAGE then PAGE - pos % PAGE else |ubuf|
    ensures tail == if head != 0 && BlocksFor(pos, |ubuf|) == 1 then 0 else (pos + |ubuf|) % PAGE
    ensures pos % PAGE != 0 ==>
      IsNew(pm.blocks[blocknr], Content(old(pm.blocks), h.tree, h.log, pos / PAGE), pos, ubuf, pos / PAGE)
    ensures (pos + |ubuf|) % PAGE != 0 ==>
      var p := (pos + |ubuf|) / PAGE;
      IsNew(pm.blocks[blocknr + BlocksFor(pos, |ubuf|) - 1], Content(old(pm.blocks), h.tree, h.log, p), pos, ubuf, p)
  {
    hide Content, NewByte, BlocksFor;
    var num, eblk := BlocksFor(pos, |ubuf|), (pos + |ubuf|) % PAGE;
    Geometry(pos, |ubuf|);
    ghost var blocks0 := pm.blocks;
    head, tail := 0, 0;
    if pos % PAGE != 0 {
      head := HandleHead(pm, h, pos, ubuf, blocknr);
    }
    ghost var blocks1 := pm.blocks;
    if eblk != 0 {
      var last := blocknr + num - 1;
      var headEqTail := num == 1;
      if !headEqTail || head == 0 {
        tail := eblk;
      }
      ghost var p := (pos + |ubuf|) / PAGE;
      if p in h.tree { assert !(blocknr <= Place(h.tree, h.log, p) < blocknr + num); }
      SeparateKeepsContent(blocks0, blocks1, h.tree, h.log, blocknr, num, p);
      HandleTail(pm, h, pos, ubuf, last, headEqTail && head != 0);
    }
  }

  /** Block blocknr + i holds the new content of page pos / PAGE + i. */
  ghost predicate Filled(blocks: seq<Page>, blocks': seq<Page>, tree: Tree, log: seq<Entry>, pos: nat,
                         ubuf: seq<byte>, blocknr: nat, i: nat)
  {
    blocknr + i < |blocks'| &&
    IsNew(blocks'[blocknr + i], Content(blocks, tree, log, pos / PAGE + i), pos, ubuf, pos / PAGE + i)
  }

  /** A whole page of the user's buffer. */
  lemma AlignedIsNew(blocks: seq<Page>, page: Page, pos: nat, ubuf: seq<byte>, head: nat, skip: nat, i: nat, new_: Page)
    requires |page| == PAGE && head + PAGE * i + PAGE <= |ubuf| && new_ == ubuf[head + PAGE * i..head + PAGE * i + PAGE]
    requires if pos % PAGE == 0 then head == 0 && skip == 0 else head == PAGE - pos % PAGE && skip == 1
    ensures IsNew(new_, page, pos, ubuf, pos / PAGE + skip + i)
  {
    var p := pos / PAGE + skip + i;
    assert p * PAGE == pos + head + PAGE * i;
    forall k | 0 <= k < PAGE ensures new_[k] == NewByte(page, pos, ubuf, p, k) { }
  }

  /** The blocks of the chunk outside [from, to) are filled. */
  ghost predicate FilledBut(blocks: seq<Page>, blocks': seq<Page>, tree: Tree, log: seq<Entry>, pos: nat,
                            ubuf: seq<byte>, blocknr: nat,
                            num: nat, from: nat, to: nat) {
    forall i :: 0 <= i < num && !(from <= i < to) ==> Filled(blocks, blocks', tree, log, pos, ubuf, blocknr, i)
  }

  lemma OneMoreFilled(blocks: seq<Page>, before: seq<Page>, after: seq<Page>, tree: Tree, log: seq<Entry>, pos: nat,
                      ubuf: seq<byte>,
                      blocknr: nat, from: nat, to: nat)
    requires |ubuf| > 0 && from < to
    requires FilledBut(blocks, before, tree, log, pos, ubuf, blocknr, BlocksFor(pos, |ubuf|), from, to)
    requires |after| == |before| && forall b :: 0 <= b < |before| && b != blocknr + from ==> after[b] == before[b]
    requires Filled(blocks, after, tree, log, pos, ubuf, blocknr, from)
    ensures FilledBut(blocks, after, tree, log, pos, ubuf, blocknr, BlocksFor(pos, |ubuf|), from + 1, to)
  {
    forall i | 0 <= i < BlocksFor(pos, |ubuf|) && !(from + 1 <= i < to)
      ensures Filled(blocks, after, tree, log, pos, ubuf, blocknr, i)
    {
      if i != from {
        assert Filled(blocks, before, tree, log, pos, ubuf, blocknr, i);
      }
    }
  }

  /** The aligned part of a chunk, block by block. */
  method CopyAligned(pm: Pmem, h: Header, pos: nat, ubuf: seq<byte>, blocknr: nat, head: nat, skip: nat, aligned: nat,
                     ghost blocks0: seq<Page>)
    requires |ubuf| > 0 && Separate(pm, h, blocknr, BlocksFor(pos, |ubuf|))
    requires forall b :: 0 <= b < |blocks0| ==> |blocks0[b]| == PAGE
    requires head + PAGE * aligned <= |ubuf| && skip + aligned <= BlocksFor(pos, |ubuf|)
    requires aligned > 0 ==> if pos % PAGE == 0 then head == 0 && skip == 0 else head == PAGE - pos % PAGE && skip == 1
    requires OnlyIn(blocks0, pm.blocks, blocknr, BlocksFor(pos, |ubuf|))
    requires FilledBut(blocks0, pm.blocks, h.tree, h.log, pos, ubuf, blocknr, BlocksFor(pos, |ubuf|), skip,
             skip + aligned)
    modifies pm
    ensures pm.Valid() && OnlyIn(blocks0, pm.blocks, blocknr, BlocksFor(pos, |ubuf|))
    ensures FilledBut(blocks0, pm.blocks, h.tree, h.log, pos, ubuf, blocknr, BlocksFor(pos, |ubuf|), skip + aligned,
            skip + aligned)
  {
    hide FilledBut, Content, IsNew, BlocksFor;
    var i := 0;
    while i < aligned
      invariant 0 <= i <= aligned && pm.Valid() && OnlyIn(blocks0, pm.blocks, blocknr, BlocksFor(pos, |ubuf|))
      invariant FilledBut(blocks0, pm.blocks, h.tree, h.log, pos, ubuf, blocknr, BlocksFor(pos, |ubuf|), skip + i,
                skip + aligned)
    {
      ghost var before := pm.blocks;
      ghost var page := Content(blocks0, h.tree, h.log, pos / PAGE + skip + i);
      ContentIsPage(blocks0, h.tree, h.log, pos / PAGE + skip + i);
      var part := ubuf[head + PAGE * i..head + PAGE * i + PAGE];
      pm.Store(blocknr + skip + i, 0, part);
      assert pm.blocks[blocknr + skip + i] == part;
      AlignedIsNew(blocks0, page, pos, ubuf, head, skip, i, part);
      assert Filled(blocks0, pm.blocks, h.tree, h.log, pos, ubuf, blocknr, skip + i);
      OneMoreFilled(blocks0, before, pm.blocks, h.tree, h.log, pos, ubuf, blocknr, skip + i, skip + aligned);
      i := i + 1;
    }
  }

  /** One chunk: the new blocks from blocknr on are filled for the pages from pos / PAGE on. */
  method FillChunk(pm: Pmem, h: Header, pos: nat, ubuf: seq<byte>, blocknr: nat)
    requires |ubuf| > 0 && Separate(pm, h, blocknr, BlocksFor(pos, |ubuf|))
    modifies pm
    ensures pm.Valid() && OnlyIn(old(pm.blocks), pm.blocks, blocknr, BlocksFor(pos, |ubuf|))
    ensures FilledBut(old(pm.blocks), pm.blocks, h.tree, h.log, pos, ubuf, blocknr, BlocksFor(pos, |ubuf|), 0, 0)
  {
    ghost var blocks0 := pm.blocks;
    var head, tail := 0, 0;
    if pos % PAGE != 0 || (pos + |ubuf|) % PAGE != 0 {
      head, tail := HandleHeadTailBlocks(pm, h, pos, ubuf, blocknr);
    }
    var aligned := (|ubuf| - head - tail) / PAGE;
    // the aligned blocks begin behind the head
    var skip := if head != 0 then 1 else 0;
    Parts(pos, |ubuf|, head, tail);
    EndsFilled(blocks0, pm.blocks, h.tree, h.log, pos, ubuf, blocknr, head, tail, aligned);
    CopyAligned(pm, h, pos, ubuf, blocknr, head, skip, aligned, blocks0);
  }

  lemma EndsFilled(blocks: seq<Page>, blocks': seq<Page>, tree: Tree, log: seq<Entry>, pos: nat, ubuf: seq<byte>,
                   blocknr: nat,
                   head: nat, tail: nat, aligned: nat)
    requires |ubuf| > 0 && blocknr + BlocksFor(pos, |ubuf|) <= |blocks'|
    requires head == if pos % PAGE == 0 then 0 else if |ubuf| > PAGE - pos % PAGE then PAGE - pos % PAGE else |ubuf|
    requires tail == if head != 0 && BlocksFor(pos, |ubuf|) == 1 then 0 else (pos + |ubuf|) % PAGE
    requires BlocksFor(pos, |ubuf|) == (if head != 0 then 1 else 0) + aligned + (if tail != 0 then 1 else 0)
    requires pos % PAGE != 0 ==> IsNew(blocks'[blocknr], Content(blocks, tree, log, pos / PAGE), pos, ubuf, pos / PAGE)
    requires (pos + |ubuf|) % PAGE != 0 ==>
      var p := (pos + |ubuf|) / PAGE;
      IsNew(blocks'[blocknr + BlocksFor(pos, |ubuf|) - 1], Content(blocks, tree, log, p), pos, ubuf, p)
    ensures
      var skip := if head != 0 then 1 else 0;
      FilledBut(blocks, blocks', tree, log, pos, ubuf, blocknr, BlocksFor(pos, |ubuf|), skip, skip + aligned)
  {
    var num := BlocksFor(pos, |ubuf|);
    Geometry(pos, |ubuf|);
    assert (pos + |ubuf|) % PAGE != 0 ==> (pos + |ubuf|) / PAGE == pos / PAGE + num - 1;
    hide IsNew, Content;
    var skip := if head != 0 then 1 else 0;
    forall i | 0 <= i < num && !(skip <= i < skip + aligned)
      ensures Filled(blocks, blocks', tree, log, pos, ubuf, blocknr, i)
    {
      assert (i == 0 && pos % PAGE != 0) || (i == num - 1 && (pos + |ubuf|) % PAGE != 0);
    }
  }

  lemma ContentIsPage(blocks: seq<Page>, tree: Tree, log: seq<Entry>, p: nat)
    requires forall b :: 0 <= b < |blocks| ==> |blocks[b]| == PAGE
    ensures |Content(blocks, tree, log, p)| == PAGE
  {
  }

  /** Head, aligned part and tail make up the chunk. */
  lemma Parts(pos: nat, count: nat, head: nat, tail: nat)
    requires count > 0
    requires head == if pos % PAGE == 0 then 0 else if count > PAGE - pos % PAGE then PAGE - pos % PAGE else count
    requires tail == if head != 0 && BlocksFor(pos, count) == 1 then 0 else (pos + count) % PAGE
    ensures
      var skip, aligned := if head != 0 then 1 else 0, (count - head - tail) / PAGE;
      && head + aligned * PAGE + tail == count
      && BlocksFor(pos, count) == skip + aligned + (if tail != 0 then 1 else 0)
      && (aligned > 0 && pos % PAGE != 0 ==> head == PAGE - pos % PAGE)
  {
    Geometry(pos, count);
  }

  // ---------------------------------------------------------------- the loop

  /** What the allocator answers to one request. */
  datatype Grant = Grant(blocknr: nat, num: nat)

  /** At least one block, no more than asked for, and none that is in use. */
  predicate Legal(g: Grant, used: set<nat>, device: nat, want: nat) {
    1 <= g.num <= want && g.blocknr + g.num <= device && Range(g.blocknr, g.num) !! used
  }

  ghost predicate OnDevice(used: set<nat>, device: nat) {
    forall b :: b in used ==> b < device
  }

  /** Pages below front have their new content, the others still the old one. */
  ghost predicate WrittenTo(blocks0: seq<Page>, tree0: Tree, log0: seq<Entry>, blocks: seq<Page>, tree: Tree,
                            log: seq<Entry>,
                            pos: nat, buf: seq<byte>, front: nat) {
    forall q: nat :: PageWritten(blocks0, tree0, log0, blocks, tree, log, pos, buf, front, q)
  }

  ghost predicate PageWritten(blocks0: seq<Page>, tree0: Tree, log0: seq<Entry>, blocks: seq<Page>, tree: Tree,
                              log: seq<Entry>,
                              pos: nat, buf: seq<byte>, front: nat, q: nat) {
    var was, now := Content(blocks0, tree0, log0, q), Content(blocks, tree, log, q);
    if q < front then IsNew(now, was, pos, buf, q) else now == was
  }

  /** A fresh range holds no page of the file. */
  lemma FreshIsSeparate(pm: Pmem, h: Header, g: Grant, want: nat)
    requires pm.Valid() && h.Steady() && OnDevice(h.used, |pm.blocks|) && Legal(g, h.used, |pm.blocks|, want)
    ensures Separate(pm, h, g.blocknr, g.num)
    ensures forall p :: p in h.tree ==> h.tree[p] < |h.log|
  {
    NotYet(h.tree, h.log, h.n);
    forall p | p in h.tree
      ensures 0 <= Place(h.tree, h.log, p) < |pm.blocks| && !(g.blocknr <= Place(h.tree, h.log, p) < g.blocknr + g.num)
    {
      assert SlotOk(h.Accounts(), p);
      assert Place(h.tree, h.log, p) in h.used;
    }
  }

  /** A write that reaches byte end may extend the file. */
  function NewSize(end: nat, size: nat): nat {
    if end > size then end else size
  }

  /** The size of a chunk: what the granted blocks hold, or all that is left. */
  function ChunkSize(cur: nat, left: nat, num: nat): nat
    requires num > 0
  {
    if PAGE * num - cur % PAGE > left then left else PAGE * num - cur % PAGE
  }

  lemma ChunkFits(cur: nat, left: nat, num: nat)
    requires left > 0 && 1 <= num <= BlocksFor(cur, left)
    ensures
      var bytes := ChunkSize(cur, left, num);
      && 0 < bytes <= left && BlocksFor(cur, bytes) == num
      && (bytes < left ==>
            cur + bytes == (cur / PAGE + num) * PAGE
            && BlocksFor(cur + bytes, left - bytes) == BlocksFor(cur, left) - num)
      && (bytes == left ==> num == BlocksFor(cur, left))
  {
    var bytes := ChunkSize(cur, left, num);
    Geometry(cur, left);
    Geometry(cur, bytes);
    if bytes < left {
      assert cur + bytes == (cur / PAGE + num) * PAGE;
      Geometry(cur + bytes, left - bytes);
    }
  }

  /** Inside its own pages a chunk is the whole write. */
  lemma ChunkIsWhole(new_: Page, page: Page, pos: nat, buf: seq<byte>, done: nat, bytes: nat, num: nat, q: nat)
    requires 0 < bytes && done + bytes <= |buf| && IsNew(new_, page, pos + done, buf[done..done + bytes], q)
    requires (pos + done) / PAGE <= q < (pos + done) / PAGE + num
    requires done > 0 ==> (pos + done) % PAGE == 0
    requires done + bytes < |buf| ==> pos + done + bytes == ((pos + done) / PAGE + num) * PAGE
    ensures IsNew(new_, page, pos, buf, q)
  {
    forall k | 0 <= k < PAGE ensures new_[k] == NewByte(page, pos, buf, q, k) { }
  }

  /** Where the pages of the file are after an entry has been appended and indexed. */
  lemma PlacesAfter(tree: Tree, tree': Tree, log: seq<Entry>, log': seq<Entry>, e: Entry, q: nat)
    requires e.Write? && SameShapes(log + [e], log') && Overlaid(tree, tree', e.pgoff, e.pgoff + e.num, |log|)
    requires forall p :: p in tree ==> tree[p] < |log|
    ensures Place(tree', log', q) == if Covers(e, q) then BlockOf(e, q) else Place(tree, log, q)
  {
    assert Slot(tree', q) == if e.pgoff <= q < e.pgoff + e.num then |log| else Slot(tree, q);
    assert SameShape((log + [e])[|log|], log'[|log|]);
    if q in tree {
      assert SameShape((log + [e])[tree[q]], log'[tree[q]]);
    }
  }

  /** One more page: it is in the chunk, or it is as before. */
  lemma ChunkWritten(blocks0: seq<Page>, tree0: Tree, log0: seq<Entry>, blocks: seq<Page>, tree: Tree, log: seq<Entry>,
                     blocks': seq<Page>, tree': Tree, log': seq<Entry>, e: Entry,
                     pos: nat, buf: seq<byte>, done: nat, bytes: nat, q: nat)
    requires e.Write? && 0 < bytes && done + bytes <= |buf| && e.pgoff == (pos + done) / PAGE
    requires e.num == BlocksFor(pos + done, bytes)
    requires PageWritten(blocks0, tree0, log0, blocks, tree, log, pos, buf, e.pgoff, q)
    requires forall p :: p in tree ==> tree[p] < |log|
    requires SameShapes(log + [e], log') && Overlaid(tree, tree', e.pgoff, e.pgoff + e.num, |log|)
    requires OnlyIn(blocks, blocks', e.blocknr, e.num) && e.blocknr + e.num <= |blocks|
    requires q in tree ==> !(e.blocknr <= Place(tree, log, q) < e.blocknr + e.num)
    requires FilledBut(blocks, blocks', tree, log, pos + done, buf[done..done + bytes], e.blocknr, e.num, 0, 0)
    requires done > 0 ==> (pos + done) % PAGE == 0
    requires done + bytes < |buf| ==> pos + done + bytes == (e.pgoff + e.num) * PAGE
    ensures PageWritten(blocks0, tree0, log0, blocks', tree', log', pos, buf, e.pgoff + e.num, q)
  {
    PlacesAfter(tree, tree', log, log', e, q);
    if Covers(e, q) {
      var i := q - e.pgoff;
      assert Filled(blocks, blocks', tree, log, pos + done, buf[done..done + bytes], e.blocknr, i);
      ChunkIsWhole(blocks'[e.blocknr + i], Content(blocks, tree, log, q), pos, buf, done, bytes, e.num, q);
    } else {
      SeparateKeepsContent(blocks, blocks', tree, log, e.blocknr, e.num, q);
    }
  }

  /** What holds at the head of the loop, when the pages below front have been written. */
  ghost predicate Writing(h: Header, pm: Pmem, pos: nat, buf: seq<byte>, front: nat, blocks0: seq<Page>, tree0: Tree,
                          log0: seq<Entry>)
    reads h, pm
  {
    && h.Steady() && h.n == |h.log| && pm.Valid() && OnDevice(h.used, |pm.blocks|)
    && InFile(h.tree, NewSize(pos + |buf|, h.size))
    && WrittenTo(blocks0, tree0, log0, pm.blocks, h.tree, h.log, pos, buf, front)
  }

  // ---------------------------------------------------------------- the grants of a write

  /** The number of blocks that the first k grants bring. */
  function Sum(grants: seq<Grant>, k: nat): nat
    requires k <= |grants|
  {
    if k == 0 then 0 else Sum(grants, k - 1) + grants[k - 1].num
  }

  /** A file on a device, and its blocks that wait to be freed, before a write of so many pages from page on. */
  datatype Before = Before(tree: Tree, log: seq<Entry>, used: set<nat>, waiting: set<nat>, device: nat,
                           page: nat, pages: nat)

  /** The blocks that wait to be freed after k rounds: those whose pages the last round took over. */
  ghost function Waiting(f: Before, grants: seq<Grant>, k: nat): set<nat>
    requires k <= |grants|
  {
    if k == 0 then f.waiting
    else Places(f.tree, f.log, f.page + Sum(grants, k - 1), f.page + Sum(grants, k))
  }

  /** The blocks in use after k rounds: each adds its grant, and frees what waited. */
  ghost function InUse(f: Before, grants: seq<Grant>, k: nat): set<nat>
    requires k <= |grants|
  {
    if k == 0 then f.used
    else InUse(f, grants, k - 1) + Range(grants[k - 1].blocknr, grants[k - 1].num) - Waiting(f, grants, k - 1)
  }

  /** The entry that is logged for grant k. */
  function EntryFor(f: Before, grants: seq<Grant>, epoch: nat, k: nat): Entry
    requires k < |grants|
  {
    Write(f.page + Sum(grants, k), grants[k].num, grants[k].blocknr, epoch, 0, false)
  }

  /** The entries that k rounds log. */
  function EntriesFor(f: Before, grants: seq<Grant>, epoch: nat, k: nat): seq<Entry>
    requires k <= |grants|
  {
    if k == 0 then [] else EntriesFor(f, grants, epoch, k - 1) + [EntryFor(f, grants, epoch, k - 1)]
  }

  /** The entries have been appended to the log; others may have been marked as reassigned. */
  ghost predicate Logged(log: seq<Entry>, es: seq<Entry>, log': seq<Entry>) {
    SameShapes(log + es, log') && Alike(log + es, log')
  }

  lemma LoggedNext(log: seq<Entry>, es: seq<Entry>, log': seq<Entry>, e: Entry, log'': seq<Entry>)
    requires Logged(log, es, log') && Logged(log', [e], log'')
    ensures Logged(log, es + [e], log'')
  {
    assert log + es + [e] == log + (es + [e]);
    ShapesCompose(log + es + [e], log' + [e], log'');
  }

  lemma LoggedNone(log: seq<Entry>)
    ensures Logged(log, [], log)
  {
    assert log + [] == log;
  }

  /** Pages are missing when grant k has its turn, and it is one that the allocator may answer with then. */
  ghost predicate Usable(f: Before, grants: seq<Grant>, k: nat) {
    k < |grants| && Sum(grants, k) < f.pages
    && Legal(grants[k], InUse(f, grants, k), f.device, f.pages - Sum(grants, k))
  }

  /** The first k grants are usable, each at its turn, and bring all the pages. */
  ghost predicate Suffices(f: Before, grants: seq<Grant>, k: nat) {
    k <= |grants| && Sum(grants, k) == f.pages && forall i :: 0 <= i < k ==> Usable(f, grants, i)
  }

  /** The write ends after step grants: these were usable, and either they suffice or the next one is not usable. */
  ghost predicate EndsAt(f: Before, grants: seq<Grant>, step: nat, want: nat) {
    && step <= |grants| && Sum(grants, step) + want == f.pages
    && (forall i :: 0 <= i < step ==> Usable(f, grants, i))
    && (want > 0 ==> !Usable(f, grants, step))
  }

  /** Where a write ends is decided by the grants, and whether it succeeds. */
  lemma GrantsDecide(f: Before, grants: seq<Grant>, step: nat, want: nat)
    requires EndsAt(f, grants, step, want)
    ensures want == 0 <==> exists k :: Suffices(f, grants, k)
    ensures forall step': nat, want': nat :: EndsAt(f, grants, step', want') ==> step' == step && want' == want
  {
    if want == 0 {
      assert Suffices(f, grants, step);
    }
    forall k: nat | Suffices(f, grants, k) ensures k == step { SameEnd(f, grants, step, want, k, 0); }
    forall step': nat, want': nat | EndsAt(f, grants, step', want')
      ensures step' == step && want' == want
    {
      SameEnd(f, grants, step, want, step', want');
    }
  }

  lemma SameEnd(f: Before, grants: seq<Grant>, step: nat, want: nat, step': nat, want': nat)
    requires EndsAt(f, grants, step, want) && step' <= |grants| && Sum(grants, step') + want' == f.pages
    requires (forall i :: 0 <= i < step' ==> Usable(f, grants, i)) && (want' > 0 ==> !Usable(f, grants, step'))
    ensures step' == step
  {
    var first := if step < step' then step else step';
    assert Usable(f, grants, first) || !Usable(f, grants, first);
  }

  /** The pages from front on are where they were. */
  ghost predicate Ahead(tree0: Tree, log0: seq<Entry>, tree: Tree, log: seq<Entry>, front: nat) {
    forall q: nat :: front <= q ==> Place(tree, log, q) == Place(tree0, log0, q)
  }

  lemma StillAhead(tree0: Tree, log0: seq<Entry>, tree: Tree, log: seq<Entry>, tree': Tree, log': seq<Entry>, e: Entry)
    requires e.Write? && Ahead(tree0, log0, tree, log, e.pgoff)
    requires SameShapes(log + [e], log') && Overlaid(tree, tree', e.pgoff, e.pgoff + e.num, |log|)
    requires forall p :: p in tree ==> tree[p] < |log|
    ensures Ahead(tree0, log0, tree', log', e.pgoff + e.num)
    ensures Places(tree, log, e.pgoff, e.pgoff + e.num) == Places(tree0, log0, e.pgoff, e.pgoff + e.num)
  {
    forall q: nat | e.pgoff + e.num <= q ensures Place(tree', log', q) == Place(tree0, log0, q) {
      PlacesAfter(tree, tree', log, log', e, q);
    }
  }

  /** One round of do_nova_cow_file_write. */
  method WriteChunk(h: Header, pm: Pmem, pos: nat, buf: seq<byte>, done: nat, g: Grant, epoch: nat, live: set<nat>,
                    ghost blocks0: seq<Page>, ghost tree0: Tree, ghost log0: seq<Entry>) returns (bytes: nat)
    requires Writing(h, pm, pos, buf, (pos + done) / PAGE, blocks0, tree0, log0)
    requires done < |buf| && Legal(g, h.used, |pm.blocks|, BlocksFor(pos + done, |buf| - done))
    requires done > 0 ==> (pos + done) % PAGE == 0
    requires Ahead(tree0, log0, h.tree, h.log, (pos + done) / PAGE)
    modifies h, pm
    ensures h.size == old(h.size) && |pm.blocks| == old(|pm.blocks|) && h.parked == old(h.parked)
    ensures bytes == ChunkSize(pos + done, |buf| - done, g.num)
    ensures Ahead(tree0, log0, h.tree, h.log, (pos + done) / PAGE + g.num)
    ensures h.used == old(h.used) + Range(g.blocknr, g.num) - old(PendingBlocks(h.Accounts()))
    ensures Logged(old(h.log), [Write((pos + done) / PAGE, g.num, g.blocknr, epoch, 0, false)], h.log)
    ensures PendingBlocks(h.Accounts()) == Places(tree0, log0, (pos + done) / PAGE, (pos + done) / PAGE + g.num)
    ensures Writing(h, pm, pos, buf, (pos + done) / PAGE + g.num, blocks0, tree0, log0)
  {
    hide Header.Steady, BooksOk, FilledBut, WrittenTo, Place, InFile, SameShapes, Overlaid, PendingBlocks, Ahead,
         Places, Alike;
    var cur := pos + done;
    FreshIsSeparate(pm, h, g, BlocksFor(cur, |buf| - done));
    bytes := ChunkSize(cur, |buf| - done, g.num);
    ChunkFits(cur, |buf| - done, g.num);
    ghost var blocks, tree, log := pm.blocks, h.tree, h.log;
    FillChunk(pm, h, cur, buf[done..done + bytes], g.blocknr);
    var e := Write(cur / PAGE, g.num, g.blocknr, epoch, 0, false);
    h.AppendFileWriteEntry(e, live);
    StillAhead(tree0, log0, tree, log, h.tree, h.log, e);
    WrittenOn(blocks0, tree0, log0, blocks, tree, log, pm.blocks, h.tree, h.log, e, pos, buf, done, bytes);
    LastPage(cur, bytes, NewSize(pos + |buf|, h.size));
    OverlayInFile(tree, h.tree, e.pgoff, e.pgoff + e.num, |log|, NewSize(pos + |buf|, h.size));
  }

  lemma LastPage(cur: nat, bytes: nat, size: nat)
    requires 0 < bytes && cur + bytes <= size
    ensures cur / PAGE + BlocksFor(cur, bytes) <= FirstPage(size)
  {
    Geometry(cur, bytes);
  }

  lemma WrittenOn(blocks0: seq<Page>, tree0: Tree, log0: seq<Entry>, blocks: seq<Page>, tree: Tree, log: seq<Entry>,
                  blocks': seq<Page>, tree': Tree, log': seq<Entry>, e: Entry, pos: nat, buf: seq<byte>, done: nat,
                    bytes: nat)
    requires e.Write? && 0 < bytes && done + bytes <= |buf| && e.pgoff == (pos + done) / PAGE
    requires e.num == BlocksFor(pos + done, bytes)
    requires WrittenTo(blocks0, tree0, log0, blocks, tree, log, pos, buf, e.pgoff)
    requires forall p :: p in tree ==> tree[p] < |log|
    requires SameShapes(log + [e], log') && Overlaid(tree, tree', e.pgoff, e.pgoff + e.num, |log|)
    requires OnlyIn(blocks, blocks', e.blocknr, e.num) && e.blocknr + e.num <= |blocks|
    requires forall q :: q in tree ==> !(e.blocknr <= Place(tree, log, q) < e.blocknr + e.num)
    requires FilledBut(blocks, blocks', tree, log, pos + done, buf[done..done + bytes], e.blocknr, e.num, 0, 0)
    requires done > 0 ==> (pos + done) % PAGE == 0
    requires done + bytes < |buf| ==> pos + done + bytes == (e.pgoff + e.num) * PAGE
    ensures WrittenTo(blocks0, tree0, log0, blocks', tree', log', pos, buf, e.pgoff + e.num)
  {
    var front := e.pgoff + e.num;
    forall q: nat
      ensures PageWritten(blocks0, tree0, log0, blocks', tree', log', pos, buf, front, q)
    {
      assert PageWritten(blocks0, tree0, log0, blocks, tree, log, pos, buf, e.pgoff, q);
      ChunkWritten(blocks0, tree0, log0, blocks, tree, log, blocks', tree', log', e, pos, buf, done, bytes, q);
    }
  }

  /** The loop of do_nova_cow_file_write. */
  method WriteLoop(h: Header, pm: Pmem, pos: nat, buf: seq<byte>, grants: seq<Grant>, epoch: nat, live: set<nat>)
    returns (ok: bool, step: nat, want: nat)
    requires |buf| > 0 && Writing(h, pm, pos, buf, Front(pos, |buf|, 0), pm.blocks, h.tree, h.log)
    modifies h, pm
    ensures |pm.blocks| == old(|pm.blocks|) && h.size == old(h.size) && h.parked == old(h.parked)
    ensures EndsAt(old(BeforeWrite(h, pm, pos, buf)), grants, step, want) && (ok <==> want == 0)
    ensures h.used == InUse(old(BeforeWrite(h, pm, pos, buf)), grants, step)
    ensures Logged(old(h.log), EntriesFor(old(BeforeWrite(h, pm, pos, buf)), grants, epoch, step), h.log)
    ensures Writing(h, pm, pos, buf, pos / PAGE + Sum(grants, step), old(pm.blocks), old(h.tree), old(h.log))
  {
    hide Writing, BlocksFor, ChunkSize, Front, InUse, Waiting, Legal, Ahead, PendingBlocks, Places, Logged;
    ghost var blocks0, f := pm.blocks, BeforeWrite(h, pm, pos, buf);
    var done: nat := 0;
    ok, step, want := true, 0, BlocksFor(pos, |buf|);
    FirstRound(f, grants, pos, |buf|);
    LoggedNone(f.log);
    while want > 0
      invariant h.size == old(h.size) && h.parked == old(h.parked) && |pm.blocks| == old(|pm.blocks|)
      invariant 0 <= done <= |buf| && step <= |grants| && Sum(grants, step) + want == f.pages
      invariant want == if done == |buf| then 0 else BlocksFor(pos + done, |buf| - done)
      invariant Front(pos, |buf|, done) == f.page + Sum(grants, step)
      invariant Writing(h, pm, pos, buf, Front(pos, |buf|, done), blocks0, f.tree, f.log)
      invariant Ahead(f.tree, f.log, h.tree, h.log, Front(pos, |buf|, done))
      invariant h.used == InUse(f, grants, step) && PendingBlocks(h.Accounts()) == Waiting(f, grants, step)
      invariant Logged(f.log, EntriesFor(f, grants, epoch, step), h.log)
      invariant forall i :: 0 <= i < step ==> Usable(f, grants, i)
      invariant 0 < done < |buf| ==> (pos + done) % PAGE == 0
      decreases want
    {
      if step == |grants| || !Legal(grants[step], h.used, |pm.blocks|, want) {
        return false, step, want;
      }
      var g := grants[step];
      ghost var log1 := h.log;
      LegalIsSome(g, h.used, |pm.blocks|, want);
      FrontAfter(pos, |buf|, done, g.num);
      var bytes := WriteChunk(h, pm, pos, buf, done, g, epoch, live, blocks0, f.tree, f.log);
      NextRound(f, grants, step);
      LoggedNext(f.log, EntriesFor(f, grants, epoch, step), log1, EntryFor(f, grants, epoch, step), h.log);
      done := done + bytes;
      want := want - g.num;
      step := step + 1;
    }
    SomeLeft(pos, |buf|, done);
  }

  /** What a write finds. */
  ghost function BeforeWrite(h: Header, pm: Pmem, pos: nat, buf: seq<byte>): Before
    requires |buf| > 0
    reads h, pm
  {
    Before(h.tree, h.log, h.used, PendingBlocks(h.Accounts()), |pm.blocks|, pos / PAGE, BlocksFor(pos, |buf|))
  }

  lemma FirstRound(f: Before, grants: seq<Grant>, pos: nat, len: nat)
    requires len > 0
    ensures InUse(f, grants, 0) == f.used && Waiting(f, grants, 0) == f.waiting && Front(pos, len, 0) == pos / PAGE
    ensures Ahead(f.tree, f.log, f.tree, f.log, Front(pos, len, 0)) && BlocksFor(pos, len) > 0
  {
  }

  lemma LegalIsSome(g: Grant, used: set<nat>, device: nat, want: nat)
    requires Legal(g, used, device, want)
    ensures 1 <= g.num <= want
  {
  }

  lemma NextRound(f: Before, grants: seq<Grant>, k: nat)
    requires k < |grants|
    ensures InUse(f, grants, k + 1) ==
            InUse(f, grants, k) + Range(grants[k].blocknr, grants[k].num) - Waiting(f, grants, k)
    ensures Waiting(f, grants, k + 1) ==
            Places(f.tree, f.log, f.page + Sum(grants, k), f.page + Sum(grants, k) + grants[k].num)
  {
  }

  lemma SomeLeft(pos: nat, len: nat, done: nat)
    requires done <= len
    ensures done < len ==> BlocksFor(pos + done, len - done) > 0
  {
  }

  /** do_nova_cow_file_write, for every position, length and sequence of grants.  It succeeds exactly if
      grants that are usable at their turns bring all its pages, and uses no more of them; then every page of the
      file holds its old content (zeros for a hole) overlaid with the user's bytes.  Otherwise it stops at the first
      grant that is not usable. */
  method CowFileWrite(h: Header, pm: Pmem, pos: nat, buf: seq<byte>, grants: seq<Grant>, epoch: nat, live: set<nat>)
    returns (ok: bool, step: nat, want: nat)
    requires h.Valid() && pm.Valid() && OnDevice(h.used, |pm.blocks|) && |buf| > 0
    modifies h, pm
    ensures |pm.blocks| == old(|pm.blocks|) && h.parked == old(h.parked)
    ensures EndsAt(old(BeforeWrite(h, pm, pos, buf)), grants, step, want) && (ok <==> want == 0)
    ensures ok <==> exists k :: Suffices(old(BeforeWrite(h, pm, pos, buf)), grants, k)
    ensures h.used == InUse(old(BeforeWrite(h, pm, pos, buf)), grants, step)
    ensures Logged(old(h.log), EntriesFor(old(BeforeWrite(h, pm, pos, buf)), grants, epoch, step), h.log)
    ensures ok ==> pm.Valid() && h.Valid() && h.size == NewSize(pos + |buf|, old(h.size))
    ensures ok ==> forall p: nat ::
      IsNew(Content(pm.blocks, h.tree, h.log, p), old(Content(pm.blocks, h.tree, h.log, p)), pos, buf, p)
    ensures !ok ==> h.size == old(h.size)
    ensures !ok ==>
      Writing(h, pm, pos, buf, pos / PAGE + Sum(grants, step), old(pm.blocks), old(h.tree), old(h.log))
  {
    hide Writing, IsNew, Header.Valid, BlocksFor, InUse, Usable, Suffices;
    WritingAtFirst(h, pm, pos, buf);
    ghost var blocks0, f := pm.blocks, BeforeWrite(h, pm, pos, buf);
    assert pm.Valid();
    ok, step, want := WriteLoop(h, pm, pos, buf, grants, epoch, live);
    GrantsDecide(f, grants, step, want);
    if ok {
      WritingAtLast(h, pm, pos, buf, blocks0, f.tree, f.log);
      h.ExtendSize(pos + |buf|);
    }
  }

  /** The first page that has not been written yet. */
  function Front(pos: nat, len: nat, done: nat): nat
    requires len > 0 && done <= len
  {
    if done == len then pos / PAGE + BlocksFor(pos, len) else (pos + done) / PAGE
  }

  lemma FrontAfter(pos: nat, len: nat, done: nat, num: nat)
    requires done < len && 1 <= num <= BlocksFor(pos + done, len - done) && (done > 0 ==> (pos + done) % PAGE == 0)
    ensures
      var done' := done + ChunkSize(pos + done, len - done, num);
      && done < done' <= len && Front(pos, len, done) == (pos + done) / PAGE
      && Front(pos, len, done') == (pos + done) / PAGE + num
      && BlocksFor(pos + done, len - done) - num == (if done' == len then 0 else BlocksFor(pos + done', len - done'))
      && (done' < len ==> (pos + done') % PAGE == 0)
  {
    ChunkFits(pos + done, len - done, num);
    Geometry(pos, len);
    Geometry(pos + done, len - done);
  }

  lemma WritingAtFirst(h: Header, pm: Pmem, pos: nat, buf: seq<byte>)
    requires h.Valid() && pm.Valid() && OnDevice(h.used, |pm.blocks|) && |buf| > 0
    ensures Writing(h, pm, pos, buf, Front(pos, |buf|, 0), pm.blocks, h.tree, h.log)
  {
    hide Header.Steady;
    PagesGrow(h.size, NewSize(pos + |buf|, h.size));
    WrittenAtFirst(pm.blocks, h.tree, h.log, pos, buf);
  }

  lemma WritingAtLast(h: Header, pm: Pmem, pos: nat, buf: seq<byte>, blocks0: seq<Page>, tree0: Tree, log0: seq<Entry>)
    requires |buf| > 0 && Writing(h, pm, pos, buf, Front(pos, |buf|, |buf|), blocks0, tree0, log0)
    requires forall b :: 0 <= b < |blocks0| ==> |blocks0[b]| == PAGE
    ensures h.Steady() && h.n == |h.log| && InFile(h.tree, NewSize(pos + |buf|, h.size)) && pm.Valid()
    ensures forall p: nat :: IsNew(Content(pm.blocks, h.tree, h.log, p), Content(blocks0, tree0, log0, p), pos, buf, p)
  {
    hide Header.Steady;
    forall p: nat
      ensures IsNew(Content(pm.blocks, h.tree, h.log, p), Content(blocks0, tree0, log0, p), pos, buf, p)
    {
      BehindTheWrite(blocks0, tree0, log0, pm.blocks, h.tree, h.log, pos, buf, p);
    }
  }

  lemma WrittenAtFirst(blocks: seq<Page>, tree: Tree, log: seq<Entry>, pos: nat, buf: seq<byte>)
    requires |buf| > 0 && forall b :: 0 <= b < |blocks| ==> |blocks[b]| == PAGE
    ensures WrittenTo(blocks, tree, log, blocks, tree, log, pos, buf, pos / PAGE)
  {
    var front := pos / PAGE;
    forall q: nat
      ensures PageWritten(blocks, tree, log, blocks, tree, log, pos, buf, front, q)
    {
      ContentIsPage(blocks, tree, log, q);
    }
  }

  /** Pages behind the write keep their content, which is what overlaying them says too. */
  lemma BehindTheWrite(blocks0: seq<Page>, tree0: Tree, log0: seq<Entry>, blocks: seq<Page>, tree: Tree,
                       log: seq<Entry>,
                       pos: nat, buf: seq<byte>, p: nat)
    requires |buf| > 0
    requires WrittenTo(blocks0, tree0, log0, blocks, tree, log, pos, buf, pos / PAGE + BlocksFor(pos, |buf|))
    requires forall b :: 0 <= b < |blocks0| ==> |blocks0[b]| == PAGE
    ensures IsNew(Content(blocks, tree, log, p), Content(blocks0, tree0, log0, p), pos, buf, p)
  {
    assert PageWritten(blocks0, tree0, log0, blocks, tree, log, pos, buf, pos / PAGE + BlocksFor(pos, |buf|), p);
    ContentIsPage(blocks0, tree0, log0, p);
    Geometry(pos, |buf|);
  }
}
