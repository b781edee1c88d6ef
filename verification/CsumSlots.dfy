/** Where the checksums of data blocks are (nova.h, balloc.c): each CPU reserves the first blocks
    of its share of the metadata for the checksums of its share of the data. */
module CsumSlots {
  import opened Common

  const PAGE: nat := 4096
  const STRIPE: nat := 512
  const CSUM_LEN: nat := 4
  const STRIPES_PER_BLOCK: nat := 8
  const HEAD_RESERVED: nat := 64
  const TAIL_RESERVED: nat := 2

  /** The device: blocks for metadata and for data, shared out evenly. */
  datatype Device = Device(metaBlocks: nat, dataBlocks: nat, cpus: nat)

  datatype MetaList = MetaList(csumStart: nat, blockStart: nat, blockEnd: int)

  function PerData(d: Device): nat
    requires d.cpus > 0
  {
    d.dataBlocks / d.cpus
  }

  function PerMeta(d: Device): nat
    requires d.cpus > 0
  {
    d.metaBlocks / d.cpus
  }

  /** Blocks that each CPU reserves (nova_data_csum_init_free_list). */
  function CsumBlocks(d: Device): nat
    requires d.cpus > 0
  {
    var size := (d.metaBlocks + d.dataBlocks) * PAGE;
    var blocks := size / STRIPE * CSUM_LEN / PAGE;
    if blocks % d.cpus != 0 then blocks / d.cpus + 1 else blocks / d.cpus
  }

  /** nova_init_free_list, the metadata part. */
  function InitMetaList(d: Device, index: nat): MetaList
    requires index < d.cpus
  {
    var start := PerMeta(d) * index + if index == 0 then HEAD_RESERVED else 0;
    var end := PerMeta(d) * index + PerMeta(d) - 1 - if index == d.cpus - 1 then TAIL_RESERVED else 0;
    MetaList(start, start + CsumBlocks(d), end)
  }

  /** The reserved areas fit: something is left for every CPU. */
  ghost predicate Fits(d: Device) {
    d.cpus > 0 && forall i :: 0 <= i < d.cpus ==> InitMetaList(d, i).blockStart <= InitMetaList(d, i).blockEnd
  }

  /** The CPU of a data block, and the block's number among the data of that CPU. */
  function Cpu(d: Device, blocknr: nat): nat
    requires d.cpus > 0 && PerData(d) > 0
  {
    blocknr / PerData(d)
  }

  function Index(d: Device, blocknr: nat): nat
    requires d.cpus > 0 && PerData(d) > 0
  {
    blocknr % PerData(d)
  }

  /** Checksums of 128 blocks fill a page. */
  function Row(i: nat): nat {
    i / 128
  }

  function Column(i: nat): (c: nat)
    ensures c < 128
  {
    i % 128
  }

  datatype Slot = Slot(block: nat, offset: nat)

  /** nova_get_data_csum_addr: the metadata block, and the place in it, of the checksums of the
      stripes of a data block. */
  function CsumAddr(d: Device, blocknr: nat): Option<Slot>
    requires d.cpus > 0 && PerData(d) > 0
  {
    var cpu := blocknr / PerData(d);
    if cpu >= d.cpus then None
    else
      var stripe := (blocknr - cpu * PerData(d)) * STRIPES_PER_BLOCK;
      Some(Slot(InitMetaList(d, cpu).csumStart + stripe * CSUM_LEN / PAGE, stripe * CSUM_LEN % PAGE))
  }

  /** The bytes of a slot on the device. */
  predicate Covers(s: Slot, a: nat) {
    s.block * PAGE + s.offset <= a < s.block * PAGE + s.offset + STRIPES_PER_BLOCK * CSUM_LEN
  }

  lemma DivBounds(a: nat, b: nat)
    requires b > 0
    ensures a / b * b <= a < a / b * b + b
  {
  }

  /** The blocks a CPU reserves are enough for its data: one for every 128 data blocks. */
  predicate Enough(d: Device)
    requires d.cpus > 0
  {
    PerData(d) <= 128 * CsumBlocks(d)
  }

  lemma EnoughBlocks(d: Device)
    requires d.cpus > 0 && d.metaBlocks >= 128
    ensures Enough(d)
  {
    var total := d.metaBlocks + d.dataBlocks;
    var blocks := total * PAGE / STRIPE * CSUM_LEN / PAGE;
    assert blocks == total / 128;
    var num := CsumBlocks(d);
    DivBounds(blocks, d.cpus);
    assert num * d.cpus >= blocks by {
      if blocks % d.cpus != 0 {
        assert (blocks / d.cpus + 1) * d.cpus == blocks / d.cpus * d.cpus + d.cpus;
      }
    }
    assert 128 * (num * d.cpus) >= 128 * blocks > d.dataBlocks;
    DivBounds(d.dataBlocks, d.cpus);
    MulOrder(PerData(d), 128 * num, d.cpus);
  }

  lemma MulOrder(a: nat, b: nat, c: nat)
    requires a * c < b * c
    ensures a < b
  {
    assert a >= b ==> a * c >= b * c;
  }

  lemma ListBounds(d: Device, i: nat)
    requires Fits(d) && i < d.cpus
    ensures
      var l := InitMetaList(d, i);
      && PerMeta(d) * i <= l.csumStart && l.blockStart == l.csumStart + CsumBlocks(d)
      && l.blockStart <= l.blockEnd < PerMeta(d) * i + PerMeta(d)
  {
    hide CsumBlocks, PerMeta;
  }

  /** The slot's place among those of its CPU. */
  lemma SlotNumber(d: Device, blocknr: nat)
    requires d.cpus > 0 && PerData(d) > 0 && blocknr < PerData(d) * d.cpus
    ensures Cpu(d, blocknr) < d.cpus
    ensures CsumAddr(d, blocknr) ==
      Some(Slot(InitMetaList(d, Cpu(d, blocknr)).csumStart + Row(Index(d, blocknr)), Column(Index(d, blocknr)) * 32))
  {
    hide InitMetaList, PerMeta, CsumBlocks;
    var n := PerData(d);
    DivBounds(blocknr, n);
    MulOrder(blocknr / n, d.cpus, n);
    var x := blocknr % n;
    assert blocknr - blocknr / n * n == x;
    assert x * STRIPES_PER_BLOCK * CSUM_LEN == x * 32;
  }

  lemma RowFits(d: Device, blocknr: nat)
    requires d.cpus > 0 && Enough(d) && PerData(d) > 0
    ensures Row(Index(d, blocknr)) < CsumBlocks(d)
  {
    hide CsumBlocks, PerData;
    var i := Index(d, blocknr);
    assert i < PerData(d);
  }

  /** Every data block has a slot, on one page, in the reserved blocks of its CPU: in front of all
      blocks that may be allocated there, and inside the share of the CPU. */
  lemma SlotIsReserved(d: Device, blocknr: nat)
    requires Fits(d) && Enough(d) && PerData(d) > 0 && blocknr < PerData(d) * d.cpus
    ensures Cpu(d, blocknr) < d.cpus && CsumAddr(d, blocknr).Some?
    ensures
      var cpu, s := Cpu(d, blocknr), CsumAddr(d, blocknr).value;
      var l := InitMetaList(d, cpu);
      && s.offset + STRIPES_PER_BLOCK * CSUM_LEN <= PAGE
      && l.csumStart <= s.block < l.blockStart && PerMeta(d) * cpu <= s.block < PerMeta(d) * cpu + PerMeta(d)
  {
    hide CsumAddr, InitMetaList, PerMeta, Fits, PerData, CsumBlocks, Cpu, Index, Row, Column, Enough;
    SlotNumber(d, blocknr);
    ListBounds(d, Cpu(d, blocknr));
    RowFits(d, blocknr);
  }

  /** No byte belongs to the slots of two data blocks. */
  lemma SlotsAreDisjoint(d: Device, x: nat, y: nat, a: nat)
    requires Fits(d) && Enough(d) && PerData(d) > 0 && x < PerData(d) * d.cpus && y < PerData(d) * d.cpus
    requires CsumAddr(d, x).Some? && CsumAddr(d, y).Some? && Covers(CsumAddr(d, x).value, a)
    requires Covers(CsumAddr(d, y).value, a)
    ensures x == y
  {
    hide CsumAddr, InitMetaList, PerMeta, Fits, PerData, CsumBlocks, Enough, Covers, Cpu, Index, Row, Column;
    SlotIsReserved(d, x);
    SlotIsReserved(d, y);
    SlotNumber(d, x);
    SlotNumber(d, y);
    var s, t := CsumAddr(d, x).value, CsumAddr(d, y).value;
    OneSlotAt(s, t, Column(Index(d, x)), Column(Index(d, y)), a);
    SameShare(PerMeta(d), Cpu(d, x), Cpu(d, y), s.block);
    SameBlock(d, x, y);
  }

  lemma OneSlotAt(s: Slot, t: Slot, i: nat, j: nat, a: nat)
    requires Covers(s, a) && Covers(t, a) && s.offset == i * 32 && t.offset == j * 32 && i < 128 && j < 128
    ensures s.block == t.block && i == j
  {
  }

  lemma SameBlock(d: Device, x: nat, y: nat)
    requires d.cpus > 0 && PerData(d) > 0 && Cpu(d, x) == Cpu(d, y)
    requires Row(Index(d, x)) == Row(Index(d, y)) && Column(Index(d, x)) == Column(Index(d, y))
    ensures x == y
  {
    hide PerData;
    assert Index(d, x) == Index(d, y);
    var n := PerData(d);
    assert x == x / n * n + x % n && y == y / n * n + y % n;
  }

  /** Otherwise the slot of the last data block of the first CPU is behind the reserved blocks. */
  lemma NotEnoughIsTooLittle(d: Device)
    requires d.cpus > 0 && PerData(d) > 0 && !Enough(d)
    ensures CsumAddr(d, PerData(d) - 1).Some?
    ensures CsumAddr(d, PerData(d) - 1).value.block >= InitMetaList(d, 0).blockStart
  {
    hide CsumAddr, PerMeta, CsumBlocks, PerData;
    var n := PerData(d);
    assert n * 1 <= n * d.cpus;
    SlotNumber(d, n - 1);
    SmallModulo(n);
  }

  lemma SmallModulo(n: nat)
    requires n > 0
    ensures (n - 1) / n == 0 && (n - 1) % n == n - 1
  {
  }

  lemma SameShare(n: nat, c: nat, e: nat, b: nat)
    requires n * c <= b < n * c + n && n * e <= b < n * e + n
    ensures c == e
  {
    assert c < e ==> n * e >= n * (c + 1);
    assert e < c ==> n * c >= n * (e + 1);
  }

  /** With 126 metadata blocks the reserved blocks can be too few. */
  lemma SmallMetadataIsTooSmall()
    ensures !Enough(Device(126, 1, 1)) && PerData(Device(126, 1, 1)) > 0
  {
    var d := Device(126, 1, 1);
    assert PerData(d) == 1 && (126 + 1) * PAGE / STRIPE * CSUM_LEN / PAGE == 0;
  }
}
