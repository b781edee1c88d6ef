/** Snapshot lists (snapshot.c): blocks and inodes that were replaced while a snapshot still sees
    them are parked on a list of that snapshot. */
module Snapshots {
  import opened Common
  import opened Epochs

  /** Entries of 32 bytes in a page, before its tail. */
  const PER_PAGE: nat := 127

  datatype Item = Inode(ino: nat) | Blocks(nvmm: nat, num: nat)

  /** An entry; its id stands for its address, and for the item it is about. */
  datatype Entry = Entry(id: nat, item: Item, deleteEpoch: nat, deleted: bool)

  /** A page belongs to the snapshot that allocated it, whatever list it is on later. */
  datatype Page = Page(epoch: nat, entries: seq<Entry>)

  type List = seq<Page>

  /** A snapshot with one list for each CPU. */
  datatype Info = Info(epoch: nat, lists: seq<List>)

  // ---------------------------------------------------------------- what waits to be freed

  function Sum<T>(xs: seq<T>, f: T -> multiset<nat>): multiset<nat> {
    if xs == [] then multiset{} else Sum(xs[..|xs| - 1], f) + f(xs[|xs| - 1])
  }

  lemma {:induction false} SumConcat<T>(xs: seq<T>, ys: seq<T>, f: T -> multiset<nat>)
    ensures Sum(xs + ys, f) == Sum(xs, f) + Sum(ys, f)
  {
    if ys == [] {
      assert xs + ys == xs;
    } else {
      assert (xs + ys)[..|xs + ys| - 1] == xs + ys[..|ys| - 1];
      SumConcat(xs, ys[..|ys| - 1], f);
    }
  }

  lemma SumOne<T>(x: T, f: T -> multiset<nat>)
    ensures Sum([x], f) == f(x)
  {
    assert [x][..0] == [];
  }

  lemma SumAt<T>(xs: seq<T>, k: nat, f: T -> multiset<nat>)
    requires k < |xs|
    ensures Sum(xs, f) == Sum(xs[..k], f) + f(xs[k]) + Sum(xs[k + 1..], f)
  {
    assert xs == xs[..k] + [xs[k]] + xs[k + 1..];
    SumConcat(xs[..k] + [xs[k]], xs[k + 1..], f);
    SumConcat(xs[..k], [xs[k]], f);
    SumOne(xs[k], f);
  }

  lemma SumUpdate<T>(xs: seq<T>, k: nat, x: T, f: T -> multiset<nat>)
    requires k < |xs|
    ensures Sum(xs[k := x], f) + f(xs[k]) == Sum(xs, f) + f(x)
  {
    SumAt(xs, k, f);
    SumAt(xs[k := x], k, f);
    assert xs[k := x][..k] == xs[..k] && xs[k := x][k + 1..] == xs[k + 1..];
  }

  function EntryPending(e: Entry): multiset<nat> {
    if e.deleted then multiset{} else multiset{e.id}
  }

  function PagePending(p: Page): multiset<nat> {
    Sum(p.entries, EntryPending)
  }

  function ListPending(l: List): multiset<nat> {
    Sum(l, PagePending)
  }

  function InfoPending(i: Info): multiset<nat> {
    Sum(i.lists, ListPending)
  }

  /** The ids of all entries that are not deleted. */
  function AllPending(infos: seq<Info>): multiset<nat> {
    Sum(infos, InfoPending)
  }

  /** Every id below n, once. */
  function Upto(n: nat): (m: multiset<nat>)
    ensures forall id: nat :: m[id] == if id < n then 1 else 0
  {
    if n == 0 then multiset{} else Upto(n - 1) + multiset{n - 1}
  }

  // ---------------------------------------------------------------- where an entry may be

  function Live(infos: seq<Info>): (live: set<nat>)
    ensures forall j :: 0 <= j < |infos| ==> infos[j].epoch in live
    ensures forall s :: s in live ==> exists j :: 0 <= j < |infos| && infos[j].epoch == s
  {
    set j | 0 <= j < |infos| :: infos[j].epoch
  }

  /** The items, when they came to life and when they were replaced. */
  datatype Times = Times(born: map<nat, nat>, died: map<nat, nat>, what: map<nat, Item>)

  /** Snapshot e is the first that could see the item. */
  predicate FirstToSee(live: set<nat>, e: nat, born: nat) {
    born <= e && forall s :: s in live && born <= s ==> e <= s
  }

  predicate EntryOk(live: set<nat>, t: Times, e: nat, page: nat, x: Entry) {
    && x.id in t.born && x.id in t.died && t.died[x.id] == x.deleteEpoch
    && x.id in t.what && t.what[x.id] == x.item
    && FirstToSee(live, e, t.born[x.id])
    && (page == e ==> e < x.deleteEpoch)
  }

  predicate PageOk(live: set<nat>, t: Times, e: nat, p: Page) {
    && p.epoch <= e && |p.entries| <= PER_PAGE
    && forall k :: 0 <= k < |p.entries| ==> EntryOk(live, t, e, p.epoch, p.entries[k])
  }

  /** Pages of deleted snapshots come in front of those of snapshot e itself. */
  predicate ForeignFirst(l: List, e: nat) {
    forall p, q :: 0 <= p < q < |l| && l[q].epoch < e ==> l[p].epoch < e
  }

  predicate ListOk(live: set<nat>, t: Times, e: nat, l: List) {
    && l != [] && l[|l| - 1].epoch == e
    && (forall p :: 0 <= p < |l| ==> PageOk(live, t, e, l[p]))
    && ForeignFirst(l, e)
  }

  predicate InfoOk(live: set<nat>, t: Times, cpus: nat, i: Info) {
    |i.lists| == cpus && forall c :: 0 <= c < cpus ==> ListOk(live, t, i.epoch, i.lists[c])
  }

  predicate Ascending(infos: seq<Info>) {
    forall i, j :: 0 <= i < j < |infos| ==> infos[i].epoch < infos[j].epoch
  }

  /** The definition of safety: what a live snapshot sees has not been freed. */
  predicate Protected(live: set<nat>, t: Times, freed: multiset<nat>) {
    forall id, s :: id in t.born && id in t.died && s in live && Sees(s, t.born[id], t.died[id]) ==> id !in freed
  }

  class SnapshotTable {
    const cpus: nat
    var epoch: nat                 // s_epoch_id
    var infos: seq<Info>           // snapshot_info_tree, in order
    var cleaning: Option<nat>      // curr_clean_snapshot_info, by its epoch
    var taking: Option<nat>        // the snapshot that nova_create_snapshot is taking
    var nextId: nat
    ghost var times: Times
    ghost var freed: multiset<nat>

    ghost predicate Shape()
      reads this
    {
      && cpus > 0 && Ascending(infos)
      && (forall j :: 0 <= j < |infos| ==> infos[j].epoch < epoch && InfoOk(Live(infos), times, cpus, infos[j]))
      && (forall id: nat :: id in times.born <==> id < nextId) && (forall id: nat :: id in times.died <==> id < nextId)
      && (forall id: nat :: id in times.what <==> id < nextId)
      && (forall id: nat :: id < nextId ==> times.born[id] <= times.died[id] <= epoch)
      && (taking.Some? ==> taking.value + 1 == epoch && forall j :: 0 <= j < |infos| ==> infos[j].epoch < taking.value)
    }

    /** Everything that was ever retired is either parked, once, or freed, once; and nothing that
        a live snapshot sees is freed. */
    ghost predicate Valid()
      reads this
    {
      && Shape() && Protected(Live(infos), times, freed)
      && AllPending(infos) + freed == Upto(nextId)
    }

    constructor (cpus: nat)
      requires cpus > 0
      ensures Valid() && infos == [] && this.cpus == cpus && epoch == 0 && taking == None && nextId == 0
    {
      this.cpus, epoch, infos, cleaning, taking, nextId := cpus, 0, [], None, None, 0;
      times, freed := Times(map[], map[], map[]), multiset{};
    }

    /** Nothing is freed that a snapshot sees, and nothing twice: what a reader may rely on. */
    lemma FreedOnce(id: nat)
      requires Valid()
      ensures freed[id] <= 1
      ensures id in freed ==>
                id in times.born && id in times.died
                && Deleteable(Live(infos), times.born[id], times.died[id])
      ensures id in freed ==> id !in AllPending(infos)
    {
      assert (AllPending(infos) + freed)[id] <= 1;
      assert id in freed ==> id < nextId;
    }

    /** nova_find_target_snapshot_info: the first snapshot at or behind an epoch. */
    method FindTarget(from: nat) returns (j: nat)
      requires Ascending(infos)
      ensures j <= |infos| && (forall i :: 0 <= i < j ==> infos[i].epoch < from)
      ensures forall i :: j <= i < |infos| ==> infos[i].epoch >= from
    {
      j := 0;
      while j < |infos| && infos[j].epoch < from
        invariant j <= |infos| && forall i :: 0 <= i < j ==> infos[i].epoch < from
      {
        j := j + 1;
      }
    }

    /** nova_old_entry_deleteable: whether no snapshot sees an item; or else the first that does. */
    method OldEntryDeleteable(create: nat, delete: nat) returns (yes: bool, j: nat)
      requires Ascending(infos) && create <= delete
      ensures yes <==> Deleteable(Live(infos), create, delete)
      ensures !yes ==>
                j < |infos| && Sees(infos[j].epoch, create, delete)
                && FirstToSee(Live(infos), infos[j].epoch, create)
    {
      j := 0;
      if create == delete {
        return true, 0;
      }
      j := FindTarget(create);
      if j == |infos| {
        return true, j;
      }
      if infos[j].epoch >= delete {
        return true, j;
      }
      yes := false;
    }

    // -------------------------------------------------------------- retiring

    /** nova_append_snapshot_list_entry for the list of one CPU; pages are there when wanted. */
    method AppendSnapshotListEntry(j: nat, cpuid: nat, x: Entry)
      requires Shape() && j < |infos| && cpuid < cpus && EntryOk(Live(infos), times, infos[j].epoch, infos[j].epoch, x)
      modifies this`infos
      ensures Shape() && Live(infos) == old(Live(infos))
      ensures AllPending(infos) == old(AllPending(infos)) + EntryPending(x)
      ensures ParkedAt(old(infos), infos, j, cpuid, x) && infos[j].epoch == old(infos[j].epoch)
      ensures |infos| == old(|infos|)
    {
      hide EntryOk, ListOk, PageOk, ListPending, InfoPending, EntryPending, AllPending, Live, InfoOk, AppendedTo;
      ghost var live := Live(infos);
      var info := infos[j];
      assert InfoOk(live, times, cpus, info);
      InfoAppended(live, times, cpus, info, cpuid, x);
      var list := info.lists[cpuid];
      var list' := AppendToList(list, info.epoch, x);
      var info' := info.(lists := info.lists[cpuid := list']);
      ReplaceInfo(infos, j, info');
      Cancel(AllPending(infos[j := info']), AllPending(infos), InfoPending(info), EntryPending(x));
      infos := infos[j := info'];
    }

    /** The entry goes behind the last one, in a new page if the last page is full. */
    static method AppendToList(list: List, epoch: nat, x: Entry) returns (l: List)
      requires list != []
      ensures l == AppendedTo(list, epoch, x)
    {
      l := list;
      if |l[|l| - 1].entries| == PER_PAGE {
        l := l + [Page(epoch, [])];
      }
      var last := |l| - 1;
      l := l[last := l[last].(entries := l[last].entries + [x])];
      assert [] + [x] == [x];
      assert l == AppendedTo(list, epoch, x);
    }

    /** The item gets the next id. */
    method Name(item: Item, create: nat, delete: nat) returns (id: nat)
      requires Valid() && create <= delete <= epoch
      modifies `nextId, `times
      ensures Shape() && id == old(nextId) && nextId == id + 1 && id !in freed
      ensures times == Times(old(times).born[id := create], old(times).died[id := delete], old(times).what[id := item])
      ensures (AllPending(infos) + multiset{id}) + freed == Upto(nextId)
      ensures AllPending(infos) + (freed + multiset{id}) == Upto(nextId)
      ensures Protected(Live(infos), times, freed)
      ensures Deleteable(Live(infos), create, delete) ==> Protected(Live(infos), times, freed + multiset{id})
    {
      hide Sees, Deleteable, InfoOk, Live, AllPending, Upto, Protected, Ascending;
      id := nextId;
      GrowTimes(Live(infos), times, id, create, delete, item, infos, cpus);
      UptoNext(AllPending(infos), freed, nextId);
      StillProtected(Live(infos), times, freed, id, create, delete, item);
      times := Times(times.born[id := create], times.died[id := delete], times.what[id := item]);
      nextId := nextId + 1;
    }

    /** The end of an item, at an epoch that is not later than now (nova_append_data_to_snapshot
        and nova_append_inode_to_snapshot with what their callers do next): it is freed, or it is
        parked on the first snapshot that sees it. */
    method Retire(item: Item, create: nat, delete: nat, cpuid: nat) returns (freedNow: bool)
      requires Valid() && create <= delete <= epoch && cpuid < cpus
      modifies `infos, `nextId, `times, `freed
      ensures Valid() && Live(infos) == old(Live(infos)) && epoch == old(epoch) && cleaning == old(cleaning)
      ensures nextId == old(nextId) + 1
      ensures times == Times(old(times).born[old(nextId) := create], old(times).died[old(nextId) := delete],
                             old(times).what[old(nextId) := item])
      ensures freedNow <==> Deleteable(Live(infos), create, delete)
      ensures taking.Some? && create < delete == epoch ==>
                (freedNow <==> Unseen(Live(infos), create))
      ensures freed == if freedNow then old(freed) + multiset{old(nextId)} else old(freed)
      ensures freedNow ==> infos == old(infos)
      ensures !freedNow ==>
        exists j: nat :: j < |infos| && Sees(infos[j].epoch, create, delete)
          && FirstToSee(Live(infos), infos[j].epoch, create)
          && ParkedAt(old(infos), infos, j, cpuid, Entry(old(nextId), item, delete, false))
    {
      hide Sees, Deleteable, InfoOk, EntryOk, FirstToSee, Live, AllPending, Upto, Protected, ParkedAt, Unseen,
        Ascending, EntryPending;
      var yes, j := OldEntryDeleteable(create, delete);
      var id := Name(item, create, delete);
      if yes {
        freed := freed + multiset{id};
      } else {
        var x := Entry(id, item, delete, false);
        NewEntry(Live(infos), times, infos[j].epoch, x);
        AppendSnapshotListEntry(j, cpuid, x);
        assert ParkedAt(old(infos), infos, j, cpuid, x);
      }
      freedNow := yes;
      WindowDecides(create);
    }

    lemma WindowDecides(create: nat)
      requires Shape()
      ensures taking.Some? && create < epoch ==>
                (Deleteable(Live(infos), create, epoch) <==> Unseen(Live(infos), create))
    {
      if taking.Some? && create < epoch {
        EarlierThan(infos, taking.value);
        ReplacedInWindow(Live(infos), taking.value, create);
      }
    }

    // -------------------------------------------------------------- taking a snapshot

    /** nova_initialize_snapshot_info_pages: one empty page for each CPU. */
    method InitializePages(id: nat) returns (lists: seq<List>)
      ensures |lists| == cpus && (forall c :: 0 <= c < cpus ==> lists[c] == [Page(id, [])])
      ensures Sum(lists, ListPending) == multiset{}
    {
      lists := [];
      SumOne(Page(id, []), PagePending);
      while |lists| < cpus
        invariant |lists| <= cpus && forall c :: 0 <= c < |lists| ==> lists[c] == [Page(id, [])]
        invariant Sum(lists, ListPending) == multiset{}
      {
        SumConcat(lists, [[Page(id, [])]], ListPending);
        SumOne([Page(id, [])], ListPending);
        lists := lists + [[Page(id, [])]];
      }
    }

    /** The first step of nova_create_snapshot: the epoch ends, and the snapshot is named by it.
        Until the snapshot is inserted the others do not see it, and go on. */
    method BeginSnapshot()
      requires Valid() && taking.None?
      modifies `epoch, `taking
      ensures Valid() && epoch == old(epoch) + 1 && taking == Some(old(epoch))
      ensures forall id: nat :: id in times.died ==> times.died[id] < epoch
    {
      hide InfoOk, Live, Upto, Protected, AllPending;
      taking := Some(epoch);
      epoch := epoch + 1;
    }

    /** No memory, or no log space: the epoch has ended all the same. */
    method AbandonSnapshot()
      requires Valid() && taking.Some?
      modifies `taking
      ensures Valid() && taking.None?
    {
      hide InfoOk, Live, Upto, Protected, AllPending;
      taking := None;
    }

    /** An item that the snapshot being taken sees was replaced since the epoch ended, and no other
        snapshot sees it, so that nothing has kept it. */
    ghost predicate Exposed(id: nat)
      reads this
    {
      && taking.Some? && id in times.born && id in times.died
      && times.born[id] <= taking.value < times.died[id] && Unseen(Live(infos), times.born[id])
    }

    /** The last step of nova_create_snapshot.  The table is right afterwards if and only if no item
        was replaced in between that the new snapshot sees and no older one. */
    method InsertSnapshot()
      requires Valid() && taking.Some?
      modifies `infos, `taking
      ensures taking.None? && Live(infos) == old(Live(infos)) + {old(taking.value)}
      ensures Shape() && AllPending(infos) + freed == Upto(nextId)
      ensures Valid() <==> forall id: nat :: !old(Exposed(id))
    {
      hide InfoOk, Live, Upto, Protected, AllPending, ListPending, Sum, Exposed;
      var id := taking.value;
      ExposedIsFreed(id);
      var lists := InitializePages(id);
      var info := Info(id, lists);
      AddInfo(infos, info, cpus, times);
      AddPending(infos, info);
      infos := infos + [info];
      taking := None;
    }

    /** Just the items that nothing has kept are freed although the new snapshot sees them. */
    lemma ExposedIsFreed(s: nat)
      requires Valid() && taking == Some(s)
      ensures Protected(Live(infos) + {s}, times, freed) <==> forall id: nat :: !Exposed(id)
    {
      hide InfoOk, Live, Upto, AllPending;
      EarlierThan(infos, s);
      forall id: nat
        ensures Exposed(id) <==>
                id in times.born && id in times.died && Sees(s, times.born[id], times.died[id]) && id in freed
      {
        if id in times.born && id in times.died && Sees(s, times.born[id], times.died[id]) {
          KeptOrFreed(id);
        }
      }
    }

    /** An item is freed, or a live snapshot is there that could see it. */
    lemma KeptOrFreed(id: nat)
      requires Valid() && id < nextId
      ensures id in freed || !Unseen(Live(infos), times.born[id])
    {
      hide Protected, Live, InfoPending;
      assert (AllPending(infos) + freed)[id] == 1;
      if id !in freed {
        assert id in AllPending(infos);
        var j := SumHas(infos, InfoPending, id);
        assert InfoOk(Live(infos), times, cpus, infos[j]);
        PendingIsOk(Live(infos), times, cpus, infos[j], id);
      }
    }

    /** nova_create_snapshot when nothing is replaced in between. */
    method CreateSnapshot()
      requires Valid() && taking.None?
      modifies `epoch, `taking, `infos
      ensures Valid() && taking.None? && epoch == old(epoch) + 1 && Live(infos) == old(Live(infos)) + {old(epoch)}
    {
      hide InfoOk, Live, Upto, Protected, AllPending, Sees;
      BeginSnapshot();
      InsertSnapshot();
    }

    // -------------------------------------------------------------- freeing

    /** An item is freed, as it was when it was retired; no live snapshot may see it. */
    method FreeItem(id: nat, item: Item)
      requires Protected(Live(infos), times, freed) && id in times.born && id in times.died
      requires Deleteable(Live(infos), times.born[id], times.died[id]) && id in times.what && times.what[id] == item
      modifies this`freed
      ensures Protected(Live(infos), times, freed) && freed == old(freed) + multiset{id}
    {
      freed := freed + multiset{id};
    }

    /** The entries of a page are freed, all of them (nova_delete_snapshot_list_entries) or those
        that were replaced no later than epoch e (nova_background_clean_write_entry,
        nova_background_clean_inode_entry). */
    method FreePage(p: Page, e: nat, all: bool) returns (p': Page)
      requires Protected(Live(infos), times, freed) && MayFree(Live(infos), times, p, e, all)
      modifies this`freed
      ensures Protected(Live(infos), times, freed) && PageFreed(p, p', e, all)
      ensures PagePending(p') + freed == PagePending(p) + old(freed) && old(freed) <= freed
    {
      hide Deleteable, Protected, Live, EntryPending, Sum;
      p' := p;
      for k := 0 to |p.entries|
        invariant Protected(Live(infos), times, freed) && p'.epoch == p.epoch && |p'.entries| == |p.entries|
        invariant forall i :: 0 <= i < |p.entries| ==>
                  p'.entries[i] == if i < k then Freed(p.entries[i], e, all) else p.entries[i]
        invariant PagePending(p') + freed == PagePending(p) + old(freed) && old(freed) <= freed
      {
        var x := p.entries[k];
        if !x.deleted && (all || x.deleteEpoch <= e) {
          EntryFreed(x, e, all);
          SumUpdate(p'.entries, k, x.(deleted := true), EntryPending);
          Moved(Sum(p'.entries[k := x.(deleted := true)], EntryPending), PagePending(p'), freed, multiset{x.id});
          FreeItem(x.id, x.item);
          p' := p'.(entries := p'.entries[k := x.(deleted := true)]);
        }
      }
    }

    /** The entries of a list are freed, all of them, or, on the pages of snapshots before e,
        those that were replaced no later than e (nova_background_clean_snapshot_list). */
    method FreeList(l: List, e: nat, all: bool) returns (l': List)
      requires Protected(Live(infos), times, freed) && ForeignFirst(l, e)
      requires forall p :: 0 <= p < |l| && (all || l[p].epoch < e) ==> MayFree(Live(infos), times, l[p], e, all)
      modifies this`freed
      ensures Protected(Live(infos), times, freed) && ListFreed(l, l', e, all)
      ensures ListPending(l') + freed == ListPending(l) + old(freed) && old(freed) <= freed
    {
      hide Protected, Live, PagePending, Sum, MayFree, PageFreed;
      l' := l;
      var p := 0;
      while p < |l| && (all || l[p].epoch < e)
        invariant p <= |l| == |l'| && Protected(Live(infos), times, freed)
        invariant forall q :: 0 <= q < p ==> (all || l[q].epoch < e) && PageFreed(l[q], l'[q], e, all)
        invariant forall q :: p <= q < |l| ==> l'[q] == l[q]
        invariant ListPending(l') + freed == ListPending(l) + old(freed) && old(freed) <= freed
      {
        ghost var f := freed;
        var page := FreePage(l[p], e, all);
        SumUpdate(l', p, page, PagePending);
        Exchanged(Sum(l'[p := page], PagePending), ListPending(l'), PagePending(l[p]), PagePending(page), f, freed);
        l' := l'[p := page];
        p := p + 1;
      }
    }

    /** The same for all lists of a snapshot. */
    method FreeInfo(i: Info, e: nat, all: bool) returns (i': Info)
      requires |i.lists| == cpus && Protected(Live(infos), times, freed)
      requires forall c :: 0 <= c < cpus ==> ListMayBeFreed(Live(infos), times, i.lists[c], e, all)
      modifies this`freed
      ensures Protected(Live(infos), times, freed) && i'.epoch == i.epoch && |i'.lists| == cpus
      ensures forall c :: 0 <= c < cpus ==> ListFreed(i.lists[c], i'.lists[c], e, all)
      ensures InfoPending(i') + freed == InfoPending(i) + old(freed) && old(freed) <= freed
    {
      hide Protected, Live, ListPending, Sum, MayFree, ListFreed;
      i' := i;
      for c := 0 to cpus
        invariant |i'.lists| == cpus && i'.epoch == i.epoch && Protected(Live(infos), times, freed)
        invariant forall d :: 0 <= d < c ==> ListFreed(i.lists[d], i'.lists[d], e, all)
        invariant forall d :: c <= d < cpus ==> i'.lists[d] == i.lists[d]
        invariant InfoPending(i') + freed == InfoPending(i) + old(freed) && old(freed) <= freed
      {
        ghost var f := freed;
        assert ListMayBeFreed(Live(infos), times, i.lists[c], e, all);
        var list := FreeList(i.lists[c], e, all);
        SumUpdate(i'.lists, c, list, ListPending);
        Exchanged(Sum(i'.lists[c := list], ListPending), InfoPending(i'), ListPending(i.lists[c]), ListPending(list),
                  f, freed);
        i' := i'.(lists := i'.lists[c := list]);
      }
    }

    /** nova_clean_snapshot: of the lists that a snapshot has taken over, what it does not see
        itself is freed.  The snapshot must still be there. */
    method CleanSnapshot()
      requires Valid() && Cleanable(cleaning, infos)
      modifies `infos, `cleaning, `freed
      ensures Valid() && cleaning == None && Live(infos) == old(Live(infos))
      ensures times == old(times) && epoch == old(epoch) && nextId == old(nextId) && old(freed) <= freed
      ensures forall j :: 0 <= j < |infos| && old(cleaning) == Some(infos[j].epoch) ==> Tight(times, infos[j])
    {
      hide Live, InfoOk, Protected, ListMayBeFreed, ListFreed, Upto, InfoPending, AllPending, Tight, Sum;
      if cleaning == None {
        return;
      }
      var e := cleaning.value;
      var j := FindTarget(e);
      LiveAt(infos, j, e);
      var info := infos[j];
      MayClean(Live(infos), times, cpus, info);
      var info' := FreeInfo(info, e, false);
      CleanedOk(Live(infos), times, cpus, info, info');
      ReplaceInfo(infos, j, info');
      StaysInShape(infos, j, info', cpus, times);
      Exchanged(AllPending(infos[j := info']), AllPending(infos), InfoPending(info), InfoPending(info'), old(freed),
                freed);
      infos := infos[j := info'];
      cleaning := None;
    }

    /** nova_link_to_next_snapshot, and the snapshot is gone: its lists go in front of those of
        the next one, which is to be cleaned. */
    method LinkToNext(j: nat)
      requires Valid() && j + 1 < |infos|
      modifies `infos, `cleaning
      ensures Valid() && Live(infos) == old(Live(infos)) - {old(infos[j].epoch)}
      ensures times == old(times) && epoch == old(epoch) && nextId == old(nextId) && freed == old(freed)
      ensures cleaning == Some(old(infos[j + 1].epoch)) && old(infos[j + 1].epoch) in Live(infos)
    {
      hide Live, InfoOk, Protected, Upto, InfoPending, AllPending, Linked;
      var prev, next := infos[j], infos[j + 1];
      assert InfoOk(Live(infos), times, cpus, prev) && InfoOk(Live(infos), times, cpus, next);
      SameLists(Live(infos), times, cpus, prev, next);
      var next' := next;
      for c := 0 to cpus
        invariant |next'.lists| == cpus && next'.epoch == next.epoch
        invariant forall d :: 0 <= d < cpus ==>
                  next'.lists[d] == if d < c then prev.lists[d] + next.lists[d] else next.lists[d]
      {
        next' := next'.(lists := next'.lists[c := prev.lists[c] + next'.lists[c]]);
      }
      IsLinked(prev, next, next');
      LinkRuns(infos, j, next', cpus, times, freed);
      infos := infos[j + 1 := next'];
      cleaning := Some(next.epoch);
      infos := Without(infos, j);
    }

    /** The last snapshot goes, and everything on its lists is freed. */
    method DeleteLast(j: nat)
      requires Valid() && j + 1 == |infos|
      modifies `infos, `freed
      ensures Valid() && Live(infos) == old(Live(infos)) - {old(infos[j].epoch)} && cleaning == old(cleaning)
      ensures times == old(times) && epoch == old(epoch) && nextId == old(nextId)
      ensures freed == old(freed) + InfoPending(old(infos[j]))
    {
      hide Live, InfoOk, Protected, Upto, InfoPending, AllPending, ListMayBeFreed, ListFreed;
      var info := infos[j];
      LastRuns(infos, j, cpus, times, freed);
      ghost var before := freed;
      infos := Without(infos, j);
      var info' := FreeInfo(info, 0, true);
      NothingLeft(info, info');
      assert multiset{} + freed == freed && InfoPending(info) + before == before + InfoPending(info);
    }

    /** nova_delete_snapshot: the lists go to the next snapshot, those of the last one are freed.
        If the last one is still to be cleaned, the cleaner will find it gone. */
    method DeleteSnapshot(id: nat)
      requires Valid()
      modifies `infos, `cleaning, `freed
      ensures Valid() && times == old(times) && epoch == old(epoch) && nextId == old(nextId)
      ensures Live(infos) == old(Live(infos)) - {id}
      ensures id !in old(Live(infos)) || Later(Live(infos), id) ==> freed == old(freed)
      ensures id in old(Live(infos)) && Later(Live(infos), id) ==>
              cleaning.Some? && cleaning.value > id && cleaning.value in Live(infos)
      ensures old(Cleanable(cleaning, infos)) ==>
        (Cleanable(cleaning, infos) <==> !(old(cleaning) == Some(id) && !Later(Live(infos), id)))
    {
      hide InfoOk, Protected, Upto, InfoPending, AllPending;
      var j := FindTarget(id);
      LiveAt(infos, j, id);
      hide Live;
      if j == |infos| || infos[j].epoch != id {
        return;
      }
      LiveRemove(infos, j);
      if j + 1 < |infos| {
        LinkToNext(j);
      } else {
        DeleteLast(j);
      }
    }
  }

  /** A run after which the cleaner finds its snapshot gone. */
  method CleanerLosesItsSnapshot(cpus: nat) returns (t: SnapshotTable)
    requires cpus > 0
    ensures t.Valid() && !Cleanable(t.cleaning, t.infos)
  {
    hide SnapshotTable.Valid;
    t := new SnapshotTable(cpus);
    assert Live(t.infos) == {};
    t.CreateSnapshot();
    assert Live(t.infos) == {0};
    t.CreateSnapshot();
    assert Live(t.infos) == {0, 1} && Live(t.infos) - {0} == {1};
    assert 1 in {1};
    assert Later(Live(t.infos) - {0}, 0);
    t.DeleteSnapshot(0);
    assert t.cleaning == Some(1);
    t.DeleteSnapshot(1);
  }

  /** An item of epoch 0 is replaced in epoch 1, while snapshot 0 is being taken.  No older
      snapshot sees it, so it is freed at once; and then snapshot 0 sees it. */
  method SnapshotLosesItsItem(cpus: nat, item: Item) returns (t: SnapshotTable, id: nat)
    requires cpus > 0
    ensures t.Shape() && !t.Valid() && 0 in Live(t.infos)
    ensures id in t.times.born && id in t.times.died && Sees(0, t.times.born[id], t.times.died[id]) && id in t.freed
  {
    hide AllPending, Upto, InfoOk, Protected;
    t := new SnapshotTable(cpus);
    id := t.nextId;
    t.BeginSnapshot();
    assert Live(t.infos) == {};
    var freedNow := t.Retire(item, 0, 1, 0);
    assert freedNow && t.Exposed(id);
    t.InsertSnapshot();
  }

  /** No live snapshot could see an item of this epoch, however late it is replaced. */
  predicate Unseen(live: set<nat>, born: nat) {
    forall s :: s in live ==> s < born
  }

  /** What is replaced in the epoch in which snapshot e is being taken is freed at once if and only
      if no older snapshot could see it. */
  lemma ReplacedInWindow(live: set<nat>, e: nat, create: nat)
    requires create <= e && forall s :: s in live ==> s < e
    ensures Deleteable(live, create, e + 1) <==> Unseen(live, create)
  {
    if Deleteable(live, create, e + 1) {
      forall s | s in live ensures s < create { assert !Sees(s, create, e + 1); }
    }
  }

  lemma EarlierThan(infos: seq<Info>, e: nat)
    requires forall j :: 0 <= j < |infos| ==> infos[j].epoch < e
    ensures forall s :: s in Live(infos) ==> s < e
  {
  }

  lemma {:induction false} SumHas<T>(xs: seq<T>, f: T -> multiset<nat>, id: nat) returns (k: nat)
    requires id in Sum(xs, f)
    ensures k < |xs| && id in f(xs[k])
  {
    k := |xs| - 1;
    if id !in f(xs[k]) {
      k := SumHas(xs[..k], f, id);
    }
  }

  /** What a snapshot keeps is something that it could see. */
  lemma PendingIsOk(live: set<nat>, t: Times, cpus: nat, i: Info, id: nat)
    requires InfoOk(live, t, cpus, i) && i.epoch in live && id in InfoPending(i)
    ensures id in t.born && !Unseen(live, t.born[id])
  {
    hide Sum;
    var c := SumHas(i.lists, ListPending, id);
    assert ListOk(live, t, i.epoch, i.lists[c]);
    var p := SumHas(i.lists[c], PagePending, id);
    assert PageOk(live, t, i.epoch, i.lists[c][p]);
    var k := SumHas(i.lists[c][p].entries, EntryPending, id);
    assert EntryOk(live, t, i.epoch, i.lists[c][p].epoch, i.lists[c][p].entries[k]);
  }

  /** A snapshot taken later than this one is live. */
  predicate Later(live: set<nat>, id: nat) {
    exists s :: s in live && s > id
  }

  /** The snapshot to be cleaned, if there is one, is still there. */
  predicate Cleanable(cleaning: Option<nat>, infos: seq<Info>) {
    cleaning.Some? ==> cleaning.value in Live(infos)
  }

  lemma LiveAt(infos: seq<Info>, j: nat, id: nat)
    requires Ascending(infos) && j <= |infos| && (forall i :: 0 <= i < j ==> infos[i].epoch < id)
    requires forall i :: j <= i < |infos| ==> infos[i].epoch >= id
    ensures id in Live(infos) <==> j < |infos| && infos[j].epoch == id
    ensures j + 1 < |infos| && infos[j].epoch == id ==> infos[j + 1].epoch in Live(infos) && infos[j + 1].epoch > id
  {
  }

  /** What becomes of an entry. */
  function Freed(x: Entry, e: nat, all: bool): Entry {
    if !x.deleted && (all || x.deleteEpoch <= e) then x.(deleted := true) else x
  }

  lemma EntryFreed(x: Entry, e: nat, all: bool)
    ensures !x.deleted && (all || x.deleteEpoch <= e) ==>
            EntryPending(x) == multiset{x.id} && EntryPending(x.(deleted := true)) == multiset{}
  {
  }

  lemma Moved(a: multiset<nat>, b: multiset<nat>, f: multiset<nat>, d: multiset<nat>)
    requires a + d == b + multiset{}
    ensures a + (f + d) == b + f
  {
    forall id: nat ensures (a + (f + d))[id] == (b + f)[id] {
      assert (a + d)[id] == (b + multiset{})[id];
    }
  }

  predicate PageFreed(p: Page, p': Page, e: nat, all: bool) {
    && p'.epoch == p.epoch && |p'.entries| == |p.entries|
    && forall k :: 0 <= k < |p.entries| ==> p'.entries[k] == Freed(p.entries[k], e, all)
  }

  predicate ListFreed(l: List, l': List, e: nat, all: bool) {
    && |l'| == |l|
    && forall p :: 0 <= p < |l| ==> if all || l[p].epoch < e then PageFreed(l[p], l'[p], e, all) else l'[p] == l[p]
  }

  predicate ListMayBeFreed(live: set<nat>, t: Times, l: List, e: nat, all: bool) {
    && ForeignFirst(l, e)
    && (forall p :: 0 <= p < |l| && (all || l[p].epoch < e) ==> MayFree(live, t, l[p], e, all))
  }

  lemma Exchanged(a: multiset<nat>, b: multiset<nat>, x: multiset<nat>, y: multiset<nat>, f: multiset<nat>,
                  g: multiset<nat>)
    requires a + x == b + y && y + g == x + f
    ensures a + g == b + f
  {
    forall id: nat ensures (a + g)[id] == (b + f)[id] {
      assert (a + x)[id] == (b + y)[id] && (y + g)[id] == (x + f)[id];
    }
  }

  /** Every entry left on the list is one that snapshot e sees. */
  predicate ListTight(t: Times, e: nat, l: List) {
    forall p, k :: 0 <= p < |l| && 0 <= k < |l[p].entries| && !l[p].entries[k].deleted ==> SeenBy(t, e, l[p].entries[k])
  }

  predicate SeenBy(t: Times, e: nat, x: Entry) {
    x.id in t.born && x.id in t.died && Sees(e, t.born[x.id], t.died[x.id])
  }

  predicate Tight(t: Times, i: Info) {
    forall c :: 0 <= c < |i.lists| ==> ListTight(t, i.epoch, i.lists[c])
  }

  /** What the snapshot itself does not see, no other live snapshot does. */
  lemma MayClean(live: set<nat>, t: Times, cpus: nat, i: Info)
    requires InfoOk(live, t, cpus, i)
    ensures |i.lists| == cpus && forall c :: 0 <= c < cpus ==> ListMayBeFreed(live, t, i.lists[c], i.epoch, false)
  {
    forall c | 0 <= c < cpus ensures ListMayBeFreed(live, t, i.lists[c], i.epoch, false) {
      var l := i.lists[c];
      assert ListOk(live, t, i.epoch, l);
      forall p | 0 <= p < |l| ensures MayFree(live, t, l[p], i.epoch, false) {
        assert PageOk(live, t, i.epoch, l[p]);
        forall k | 0 <= k < |l[p].entries| ensures EntryOk(live, t, i.epoch, l[p].epoch, l[p].entries[k]) { }
      }
    }
  }

  lemma PageCleaned(live: set<nat>, t: Times, e: nat, p: Page, p': Page)
    requires PageOk(live, t, e, p) && if p.epoch < e then PageFreed(p, p', e, false) else p' == p
    ensures PageOk(live, t, e, p') && p'.epoch == p.epoch
    ensures forall k :: 0 <= k < |p'.entries| && !p'.entries[k].deleted ==> SeenBy(t, e, p'.entries[k])
  {
    forall k | 0 <= k < |p'.entries|
      ensures EntryOk(live, t, e, p'.epoch, p'.entries[k]) && (!p'.entries[k].deleted ==> SeenBy(t, e, p'.entries[k]))
    {
      assert EntryOk(live, t, e, p.epoch, p.entries[k]);
    }
  }

  lemma CleanedOk(live: set<nat>, t: Times, cpus: nat, i: Info, i': Info)
    requires InfoOk(live, t, cpus, i) && i'.epoch == i.epoch && |i'.lists| == cpus
    requires forall c :: 0 <= c < cpus ==> ListFreed(i.lists[c], i'.lists[c], i.epoch, false)
    ensures InfoOk(live, t, cpus, i') && Tight(t, i')
  {
    hide PageOk, PageFreed, SeenBy;
    forall c | 0 <= c < cpus ensures ListOk(live, t, i.epoch, i'.lists[c]) && ListTight(t, i.epoch, i'.lists[c]) {
      var l, l' := i.lists[c], i'.lists[c];
      assert ListOk(live, t, i.epoch, l) && ListFreed(l, l', i.epoch, false);
      forall p | 0 <= p < |l|
        ensures PageOk(live, t, i.epoch, l'[p]) && l'[p].epoch == l[p].epoch
        ensures forall k :: 0 <= k < |l'[p].entries| && !l'[p].entries[k].deleted ==>
                SeenBy(t, i.epoch, l'[p].entries[k])
      {
        PageCleaned(live, t, i.epoch, l[p], l'[p]);
      }
    }
  }

  // ---------------------------------------------------------------- deleting a snapshot

  function Without(infos: seq<Info>, j: nat): seq<Info>
    requires j < |infos|
  {
    infos[..j] + infos[j + 1..]
  }

  lemma WithoutAt(infos: seq<Info>, j: nat)
    requires j < |infos|
    ensures |Without(infos, j)| == |infos| - 1
    ensures forall k :: 0 <= k < |infos| - 1 ==> Without(infos, j)[k] == infos[if k < j then k else k + 1]
  {
  }

  lemma LiveRemove(infos: seq<Info>, j: nat)
    requires Ascending(infos) && j < |infos|
    ensures Live(Without(infos, j)) == Live(infos) - {infos[j].epoch} && Ascending(Without(infos, j))
  {
    hide Live, Without;
    var z := Without(infos, j);
    WithoutAt(infos, j);
    forall s | s in Live(z) ensures s in Live(infos) && s != infos[j].epoch {
      var k :| 0 <= k < |z| && z[k].epoch == s;
      assert infos[if k < j then k else k + 1].epoch == s;
    }
    forall s | s in Live(infos) && s != infos[j].epoch ensures s in Live(z) {
      var k :| 0 <= k < |infos| && infos[k].epoch == s;
      assert z[if k < j then k else k - 1].epoch == s;
    }
  }

  lemma NextIsLeast(infos: seq<Info>, j: nat, s: nat)
    requires Ascending(infos) && j < |infos| && s in Live(infos) && s > infos[j].epoch
    ensures j + 1 < |infos| && infos[j + 1].epoch <= s
  {
    var k :| 0 <= k < |infos| && infos[k].epoch == s;
    assert forall i :: 0 <= i <= j ==> infos[i].epoch <= infos[j].epoch;
  }

  lemma PendingRemove(infos: seq<Info>, j: nat)
    requires j < |infos|
    ensures AllPending(infos) == AllPending(Without(infos, j)) + InfoPending(infos[j])
  {
    SumAt(infos, j, InfoPending);
    SumConcat(infos[..j], infos[j + 1..], InfoPending);
  }

  /** With fewer snapshots every entry stays where it is. */
  lemma FewerSnapshots(live: set<nat>, live': set<nat>, t: Times, cpus: nat, i: Info)
    requires InfoOk(live, t, cpus, i) && live' <= live
    ensures InfoOk(live', t, cpus, i)
  {
    Carried(live, t, live', t, cpus, i);
  }

  /** The lists of a deleted snapshot go in front of those of the next one. */
  function Linked(prev: Info, next: Info): Info
    requires |prev.lists| == |next.lists|
  {
    next.(lists := seq(|next.lists|, c requires 0 <= c < |next.lists| => prev.lists[c] + next.lists[c]))
  }

  lemma LinkedOk(live: set<nat>, t: Times, cpus: nat, prev: Info, next: Info)
    requires InfoOk(live, t, cpus, prev) && InfoOk(live, t, cpus, next) && prev.epoch < next.epoch
    requires forall s :: s in live && s > prev.epoch ==> next.epoch <= s
    ensures InfoOk(live - {prev.epoch}, t, cpus, Linked(prev, next))
  {
    var live' := live - {prev.epoch};
    var e := next.epoch;
    forall c | 0 <= c < cpus ensures ListOk(live', t, e, prev.lists[c] + next.lists[c]) {
      var a, b := prev.lists[c], next.lists[c];
      assert ListOk(live, t, prev.epoch, a) && ListOk(live, t, e, b);
      forall p | 0 <= p < |a + b| ensures PageOk(live', t, e, (a + b)[p]) {
        if p < |a| {
          PageMoves(live, t, prev.epoch, e, a[p]);
        } else {
          PageStays(live, t, prev.epoch, e, b[p - |a|]);
        }
      }
      assert forall p :: 0 <= p < |a| ==> PageOk(live, t, prev.epoch, a[p]);
    }
  }

  lemma {:induction false} LinkedPending(a: seq<List>, b: seq<List>, z: seq<List>)
    requires |a| == |b| == |z| && forall c :: 0 <= c < |z| ==> z[c] == a[c] + b[c]
    ensures Sum(z, ListPending) == Sum(a, ListPending) + Sum(b, ListPending)
  {
    hide PagePending;
    var n := |z|;
    if n > 0 {
      LinkedPending(a[..n - 1], b[..n - 1], z[..n - 1]);
      SumConcat(a[n - 1], b[n - 1], PagePending);
    }
  }

  lemma IsLinked(prev: Info, next: Info, next': Info)
    requires |prev.lists| == |next.lists| == |next'.lists| && next'.epoch == next.epoch
    requires forall d :: 0 <= d < |next.lists| ==> next'.lists[d] == prev.lists[d] + next.lists[d]
    ensures next' == Linked(prev, next) && InfoPending(next') == InfoPending(prev) + InfoPending(next)
  {
    assert next'.lists == Linked(prev, next).lists;
    LinkedPending(prev.lists, next.lists, next'.lists);
  }

  lemma SameLists(live: set<nat>, t: Times, cpus: nat, prev: Info, next: Info)
    requires InfoOk(live, t, cpus, prev) && InfoOk(live, t, cpus, next)
    ensures |prev.lists| == |next.lists| == cpus
  {
  }

  lemma FewerProtected(live: set<nat>, live': set<nat>, t: Times, freed: multiset<nat>)
    requires Protected(live, t, freed) && live' <= live
    ensures Protected(live', t, freed)
  {
  }

  lemma LinkRuns(infos: seq<Info>, j: nat, next': Info, cpus: nat, t: Times, freed: multiset<nat>)
    requires Ascending(infos) && j + 1 < |infos| && Protected(Live(infos), t, freed)
    requires forall k :: 0 <= k < |infos| ==> InfoOk(Live(infos), t, cpus, infos[k])
    requires |infos[j].lists| == |infos[j + 1].lists| && next' == Linked(infos[j], infos[j + 1])
    requires InfoPending(next') == InfoPending(infos[j]) + InfoPending(infos[j + 1])
    ensures
      var u := infos[j + 1 := next'];
      var z := Without(u, j);
      && Ascending(z) && Live(z) == Live(infos) - {infos[j].epoch} && next'.epoch in Live(z)
           && Protected(Live(z), t, freed)
      && AllPending(z) == AllPending(infos) && (forall k :: 0 <= k < |z| ==> InfoOk(Live(z), t, cpus, z[k]))
  {
    hide InfoOk, Live, Protected, InfoPending, Linked, AllPending;
    LinkedEpoch(infos[j], infos[j + 1]);
    LinkLive(infos, j, next');
    LinkPending(infos, j, next');
    LinkOk(infos, j, next', cpus, t);
    FewerProtected(Live(infos), Live(infos) - {infos[j].epoch}, t, freed);
  }

  lemma LinkLive(infos: seq<Info>, j: nat, next': Info)
    requires Ascending(infos) && j + 1 < |infos| && next'.epoch == infos[j + 1].epoch
    ensures
      var z := Without(infos[j + 1 := next'], j);
      Ascending(z) && Live(z) == Live(infos) - {infos[j].epoch} && next'.epoch in Live(z) && |z| == |infos| - 1
        && z[j] == next'
  {
    hide Live;
    var u := infos[j + 1 := next'];
    ReplaceInfo(infos, j + 1, next');
    assert Ascending(u);
    LiveRemove(u, j);
    assert Without(u, j)[j] == next';
  }

  lemma LinkPending(infos: seq<Info>, j: nat, next': Info)
    requires j + 1 < |infos| && next'.epoch == infos[j + 1].epoch
    requires InfoPending(next') == InfoPending(infos[j]) + InfoPending(infos[j + 1])
    ensures AllPending(Without(infos[j + 1 := next'], j)) == AllPending(infos)
  {
    hide Live, InfoPending, AllPending;
    var u := infos[j + 1 := next'];
    ReplaceInfo(infos, j + 1, next');
    PendingRemove(u, j);
    LinkCounts(AllPending(Without(u, j)), AllPending(u), AllPending(infos), InfoPending(infos[j]),
               InfoPending(infos[j + 1]), InfoPending(next'));
  }

  lemma LinkOk(infos: seq<Info>, j: nat, next': Info, cpus: nat, t: Times)
    requires Ascending(infos) && j + 1 < |infos| && next'.epoch == infos[j + 1].epoch
    requires forall k :: 0 <= k < |infos| ==> InfoOk(Live(infos), t, cpus, infos[k])
    requires |infos[j].lists| == |infos[j + 1].lists| && next' == Linked(infos[j], infos[j + 1])
    ensures
      var z := Without(infos[j + 1 := next'], j);
      forall k :: 0 <= k < |z| ==> InfoOk(Live(infos) - {infos[j].epoch}, t, cpus, z[k])
  {
    hide Live, InfoOk, Linked;
    var z := Without(infos[j + 1 := next'], j);
    forall s | s in Live(infos) && s > infos[j].epoch ensures infos[j + 1].epoch <= s { NextIsLeast(infos, j, s); }
    LinkedOk(Live(infos), t, cpus, infos[j], infos[j + 1]);
    forall k | 0 <= k < |z| ensures InfoOk(Live(infos) - {infos[j].epoch}, t, cpus, z[k]) {
      if k != j {
        FewerSnapshots(Live(infos), Live(infos) - {infos[j].epoch}, t, cpus, infos[if k < j then k else k + 1]);
      }
    }
  }

  lemma LinkedEpoch(prev: Info, next: Info)
    requires |prev.lists| == |next.lists|
    ensures Linked(prev, next).epoch == next.epoch
  {
  }

  lemma LinkCounts(z: multiset<nat>, u: multiset<nat>, all: multiset<nat>, p: multiset<nat>, n: multiset<nat>,
                   n': multiset<nat>)
    requires u == z + p && u + n == all + n' && n' == p + n
    ensures z == all
  {
    forall id: nat ensures z[id] == all[id] {
      assert (u + n)[id] == (all + n')[id] && u[id] == (z + p)[id] && n'[id] == (p + n)[id];
    }
  }

  lemma LastRuns(infos: seq<Info>, j: nat, cpus: nat, t: Times, freed: multiset<nat>)
    requires Ascending(infos) && j + 1 == |infos| && Protected(Live(infos), t, freed)
    requires forall k :: 0 <= k < |infos| ==> InfoOk(Live(infos), t, cpus, infos[k])
    ensures
      var z := Without(infos, j);
      && Ascending(z) && Live(z) == Live(infos) - {infos[j].epoch} && Protected(Live(z), t, freed)
      && AllPending(infos) == AllPending(z) + InfoPending(infos[j])
           && (forall k :: 0 <= k < |z| ==> InfoOk(Live(z), t, cpus, z[k]))
      && |infos[j].lists| == cpus
      && (forall c :: 0 <= c < cpus ==> ListMayBeFreed(Live(z), t, infos[j].lists[c], 0, true))
  {
    hide InfoOk, Live, Protected, InfoPending, ListMayBeFreed;
    var z := Without(infos, j);
    LiveRemove(infos, j);
    PendingRemove(infos, j);
    FewerProtected(Live(infos), Live(z), t, freed);
    forall k | 0 <= k < |z| ensures InfoOk(Live(z), t, cpus, z[k]) {
      FewerSnapshots(Live(infos), Live(z), t, cpus, infos[k]);
    }
    forall s | s in Live(infos) ensures s <= infos[j].epoch { if s > infos[j].epoch { NextIsLeast(infos, j, s); } }
    AllMayBeFreed(Live(infos), t, cpus, infos[j]);
  }

  /** No snapshot but this one sees what is parked on the last one's lists. */
  lemma AllMayBeFreed(live: set<nat>, t: Times, cpus: nat, i: Info)
    requires InfoOk(live, t, cpus, i) && forall s :: s in live ==> s <= i.epoch
    ensures |i.lists| == cpus && forall c :: 0 <= c < cpus ==> ListMayBeFreed(live - {i.epoch}, t, i.lists[c], 0, true)
  {
    forall c | 0 <= c < cpus ensures ListMayBeFreed(live - {i.epoch}, t, i.lists[c], 0, true) {
      var l := i.lists[c];
      assert ListOk(live, t, i.epoch, l);
      forall p | 0 <= p < |l| ensures MayFree(live - {i.epoch}, t, l[p], 0, true) {
        assert PageOk(live, t, i.epoch, l[p]);
        forall k | 0 <= k < |l[p].entries| ensures EntryOk(live, t, i.epoch, l[p].epoch, l[p].entries[k]) { }
      }
    }
  }

  lemma NothingLeft(i: Info, i': Info)
    requires |i'.lists| == |i.lists| && forall c :: 0 <= c < |i.lists| ==> ListFreed(i.lists[c], i'.lists[c], 0, true)
    ensures InfoPending(i') == multiset{}
  {
    forall c | 0 <= c < |i.lists| ensures ListPending(i'.lists[c]) == multiset{} {
      var l, l' := i.lists[c], i'.lists[c];
      forall p | 0 <= p < |l| ensures PagePending(l'[p]) == multiset{} {
        assert PageFreed(l[p], l'[p], 0, true);
        SumOfNothing(l'[p].entries, EntryPending);
      }
      SumOfNothing(l', PagePending);
    }
    SumOfNothing(i'.lists, ListPending);
  }

  lemma {:induction false} SumOfNothing<T>(xs: seq<T>, f: T -> multiset<nat>)
    requires forall k :: 0 <= k < |xs| ==> f(xs[k]) == multiset{}
    ensures Sum(xs, f) == multiset{}
  {
    if xs != [] {
      SumOfNothing(xs[..|xs| - 1], f);
    }
  }

  lemma PageMoves(live: set<nat>, t: Times, prev: nat, e: nat, p: Page)
    requires PageOk(live, t, prev, p) && prev < e && forall s :: s in live && s > prev ==> e <= s
    ensures PageOk(live - {prev}, t, e, p)
  {
    forall k | 0 <= k < |p.entries| ensures EntryOk(live - {prev}, t, e, p.epoch, p.entries[k]) {
      assert EntryOk(live, t, prev, p.epoch, p.entries[k]);
    }
  }

  lemma PageStays(live: set<nat>, t: Times, prev: nat, e: nat, p: Page)
    requires PageOk(live, t, e, p)
    ensures PageOk(live - {prev}, t, e, p)
  {
    forall k | 0 <= k < |p.entries| ensures EntryOk(live - {prev}, t, e, p.epoch, p.entries[k]) {
      assert EntryOk(live, t, e, p.epoch, p.entries[k]);
    }
  }

  /** No live snapshot sees what is about to be freed. */
  predicate MayFree(live: set<nat>, t: Times, p: Page, e: nat, all: bool) {
    forall k :: 0 <= k < |p.entries| && (all || p.entries[k].deleteEpoch <= e) ==>
      var x := p.entries[k];
      && x.id in t.born && x.id in t.died && Deleteable(live, t.born[x.id], t.died[x.id])
      && x.id in t.what && t.what[x.id] == x.item
  }

  /** A new snapshot is behind all others: what they park stays where it is. */
  lemma AddInfo(infos: seq<Info>, i: Info, cpus: nat, t: Times)
    requires forall j :: 0 <= j < |infos| ==> infos[j].epoch < i.epoch && InfoOk(Live(infos), t, cpus, infos[j])
    requires |i.lists| == cpus && forall c :: 0 <= c < cpus ==> i.lists[c] == [Page(i.epoch, [])]
    ensures Live(infos + [i]) == Live(infos) + {i.epoch}
    ensures forall j :: 0 <= j <= |infos| ==> InfoOk(Live(infos + [i]), t, cpus, (infos + [i])[j])
  {
    var z := infos + [i];
    LiveConcat(infos, i);
    forall j | 0 <= j <= |infos| ensures InfoOk(Live(z), t, cpus, z[j]) {
      if j < |infos| {
        Carried(Live(infos), t, Live(z), t, cpus, infos[j]);
      } else {
        hide EntryOk, Live;
        forall c | 0 <= c < cpus ensures ListOk(Live(z), t, i.epoch, i.lists[c]) {
          assert PageOk(Live(z), t, i.epoch, Page(i.epoch, []));
        }
      }
    }
  }

  lemma AddPending(infos: seq<Info>, i: Info)
    requires Sum(i.lists, ListPending) == multiset{}
    ensures AllPending(infos + [i]) == AllPending(infos)
  {
    SumConcat(infos, [i], InfoPending);
    SumOne(i, InfoPending);
  }

  lemma LiveConcat(infos: seq<Info>, i: Info)
    ensures Live(infos + [i]) == Live(infos) + {i.epoch}
  {
    var z := infos + [i];
    forall s ensures s in Live(z) <==> s in Live(infos) || s == i.epoch {
      if s in Live(z) { var k :| 0 <= k < |z| && z[k].epoch == s; assert k < |infos| ==> infos[k].epoch == s; }
      if s in Live(infos) { var k :| 0 <= k < |infos| && infos[k].epoch == s; assert z[k].epoch == s; }
      assert z[|infos|].epoch == i.epoch;
    }
  }

  /** Only the list of one CPU of snapshot j has changed: the entry is behind the others. */
  ghost predicate ParkedAt(infos: seq<Info>, infos': seq<Info>, j: nat, c: nat, x: Entry) {
    && j < |infos| && c < |infos[j].lists| && infos[j].lists[c] != []
    && infos' == infos[j := infos[j].(lists := infos[j].lists[c := AppendedTo(infos[j].lists[c], infos[j].epoch, x)])]
  }

  function AppendedTo(l: List, e: nat, x: Entry): List
    requires l != []
  {
    var last := l[|l| - 1];
    if |last.entries| == PER_PAGE then l + [Page(e, [x])] else l[..|l| - 1] + [last.(entries := last.entries + [x])]
  }

  lemma Appended(live: set<nat>, t: Times, e: nat, l: List, x: Entry)
    requires ListOk(live, t, e, l) && EntryOk(live, t, e, e, x)
    ensures ListOk(live, t, e, AppendedTo(l, e, x))
    ensures ListPending(AppendedTo(l, e, x)) == ListPending(l) + EntryPending(x)
  {
    hide EntryOk, EntryPending;
    var n, last := |l| - 1, l[|l| - 1];
    assert PageOk(live, t, e, last);
    assert |last.entries| == PER_PAGE ==> PageOk(live, t, e, Page(e, [x]));
    assert |last.entries| != PER_PAGE ==> PageOk(live, t, e, last.(entries := last.entries + [x]));
    hide PageOk;
    AppendedPending(l, e, x);
  }

  lemma AppendedPending(l: List, e: nat, x: Entry)
    requires l != []
    ensures ListPending(AppendedTo(l, e, x)) == ListPending(l) + EntryPending(x)
  {
    var n, last := |l| - 1, l[|l| - 1];
    SumOne(x, EntryPending);
    if |last.entries| == PER_PAGE {
      SumConcat(l, [Page(e, [x])], PagePending);
      SumOne(Page(e, [x]), PagePending);
    } else {
      var p := last.(entries := last.entries + [x]);
      SumConcat(last.entries, [x], EntryPending);
      SumConcat(l[..n], [p], PagePending);
      SumOne(p, PagePending);
    }
  }

  lemma InfoAppended(live: set<nat>, t: Times, cpus: nat, i: Info, c: nat, x: Entry)
    requires InfoOk(live, t, cpus, i) && c < cpus && EntryOk(live, t, i.epoch, i.epoch, x)
    ensures |i.lists| == cpus && i.lists[c] != []
    ensures
      var i' := i.(lists := i.lists[c := AppendedTo(i.lists[c], i.epoch, x)]);
      InfoOk(live, t, cpus, i') && InfoPending(i') == InfoPending(i) + EntryPending(x)
  {
    hide EntryOk, EntryPending, ListPending, AppendedTo;
    var l := i.lists[c];
    assert ListOk(live, t, i.epoch, l);
    assert l != [];
    hide ListOk;
    Appended(live, t, i.epoch, l, x);
    var l' := AppendedTo(l, i.epoch, x);
    SumUpdate(i.lists, c, l', ListPending);
    Cancel(Sum(i.lists[c := l'], ListPending), Sum(i.lists, ListPending), ListPending(l), EntryPending(x));
  }

  lemma Cancel(a: multiset<nat>, b: multiset<nat>, c: multiset<nat>, d: multiset<nat>)
    requires a + c == b + (c + d)
    ensures a == b + d
  {
    forall id: nat ensures a[id] == (b + d)[id] {
      assert (a + c)[id] == (b + (c + d))[id];
    }
  }

  /** One snapshot's lists change, its epoch does not. */
  lemma ReplaceInfo(infos: seq<Info>, j: nat, i: Info)
    requires j < |infos| && i.epoch == infos[j].epoch
    ensures Live(infos[j := i]) == Live(infos)
    ensures AllPending(infos[j := i]) + InfoPending(infos[j]) == AllPending(infos) + InfoPending(i)
  {
    SumUpdate(infos, j, i, InfoPending);
    var z := infos[j := i];
    forall s ensures s in Live(z) <==> s in Live(infos) {
      if s in Live(z) { var k :| 0 <= k < |z| && z[k].epoch == s; assert infos[k].epoch == s; }
      if s in Live(infos) { var k :| 0 <= k < |infos| && infos[k].epoch == s; assert z[k].epoch == s; }
    }
  }

  lemma StaysInShape(infos: seq<Info>, j: nat, i: Info, cpus: nat, t: Times)
    requires j < |infos| && i.epoch == infos[j].epoch && Ascending(infos) && InfoOk(Live(infos), t, cpus, i)
    requires forall k :: 0 <= k < |infos| ==> InfoOk(Live(infos), t, cpus, infos[k])
    ensures
      var z := infos[j := i];
      && Ascending(z) && Live(z) == Live(infos)
      && forall k :: 0 <= k < |z| ==> z[k].epoch == infos[k].epoch && InfoOk(Live(z), t, cpus, z[k])
  {
    hide InfoOk, Live, Sum, AllPending, InfoPending;
    ReplaceInfo(infos, j, i);
    var z := infos[j := i];
    forall k | 0 <= k < |z| ensures z[k].epoch == infos[k].epoch && InfoOk(Live(z), t, cpus, z[k]) {
      assert k != j ==> z[k] == infos[k];
    }
  }

  /** What is true of the entries of a snapshot's lists carries over to other circumstances if it
      does so entry by entry. */
  lemma Carried(live: set<nat>, t: Times, live': set<nat>, t': Times, cpus: nat, i: Info)
    requires InfoOk(live, t, cpus, i)
    requires forall page: nat, x: Entry :: EntryOk(live, t, i.epoch, page, x) ==> EntryOk(live', t', i.epoch, page, x)
    ensures InfoOk(live', t', cpus, i)
  {
    hide EntryOk;
    forall c | 0 <= c < cpus ensures ListOk(live', t', i.epoch, i.lists[c]) {
      var l := i.lists[c];
      assert ListOk(live, t, i.epoch, l);
      forall p | 0 <= p < |l| ensures PageOk(live', t', i.epoch, l[p]) {
        assert PageOk(live, t, i.epoch, l[p]);
      }
    }
  }

  lemma NewEntry(live: set<nat>, t: Times, e: nat, x: Entry)
    requires x.id in t.born && x.id in t.died && t.died[x.id] == x.deleteEpoch && !x.deleted
    requires x.id in t.what && t.what[x.id] == x.item
    requires FirstToSee(live, e, t.born[x.id]) && Sees(e, t.born[x.id], t.died[x.id])
    ensures EntryOk(live, t, e, e, x) && EntryPending(x) == multiset{x.id}
  {
  }

  lemma UptoNext(pending: multiset<nat>, freed: multiset<nat>, n: nat)
    requires pending + freed == Upto(n)
    ensures (pending + multiset{n}) + freed == Upto(n + 1) && pending + (freed + multiset{n}) == Upto(n + 1)
    ensures n !in freed
  {
    assert (pending + freed)[n] == 0;
  }

  /** A new item changes nothing for the others; and it may be freed if no snapshot sees it. */
  lemma StillProtected(live: set<nat>, t: Times, freed: multiset<nat>, id: nat, create: nat, delete: nat, item: Item)
    requires Protected(live, t, freed) && id !in t.born && id !in t.died && id !in freed
    ensures
      var t' := Times(t.born[id := create], t.died[id := delete], t.what[id := item]);
      Protected(live, t', freed) && (Deleteable(live, create, delete) ==> Protected(live, t', freed + multiset{id}))
  {
  }

  lemma GrowTimes(live: set<nat>, t: Times, id: nat, create: nat, delete: nat, item: Item, infos: seq<Info>, cpus: nat)
    requires id !in t.born && id !in t.died && id !in t.what
    requires forall j :: 0 <= j < |infos| ==> InfoOk(live, t, cpus, infos[j])
    ensures
      var t' := Times(t.born[id := create], t.died[id := delete], t.what[id := item]);
      forall j :: 0 <= j < |infos| ==> InfoOk(live, t', cpus, infos[j])
  {
    var t' := Times(t.born[id := create], t.died[id := delete], t.what[id := item]);
    forall j | 0 <= j < |infos| ensures InfoOk(live, t', cpus, infos[j]) {
      Carried(live, t, live, t', cpus, infos[j]);
    }
  }
}
