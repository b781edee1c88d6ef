/** Directories (dir.c): a log of name entries, and the tree of names that must agree with it. */
module Directory {
  import opened Common

  const EINVAL: int := -22
  const WORD: nat := 0x1_0000_0000_0000_0000

  /** Names are strings of signed characters. */
  type Name = seq<int>

  /** A name entry adds a name (ino > 0) or removes one; other entries do not concern the names. */
  datatype Entry = Dentry(name: Name, ino: nat, epoch: nat, invalid: bool, reassigned: bool) | Other

  /** The tree of names: the log position of the entry for a hash. */
  type Tree = map<nat, nat>

  /** In 64 bits. */
  function BKDRHash(name: Name): nat {
    if name == [] then 0 else (BKDRHash(name[..|name| - 1]) * 131 + name[|name| - 1]) % WORD
  }

  // ---------------------------------------------------------------- replay

  /** Entry e at position k is replayed (nova_rebuild_handle_dentry); adding a hash twice, or an
      empty name, is an error. */
  function Step(t: Tree, e: Entry, k: nat): Option<Tree> {
    if e.Other? || e.invalid then Some(t)
    else if e.ino > 0 then
      if e.name == [] || BKDRHash(e.name) in t then None else Some(t[BKDRHash(e.name) := k])
    else Some(t - {BKDRHash(e.name)})
  }

  function Replay(log: seq<Entry>): Option<Tree> {
    if log == [] then Some(map[])
    else
      match Replay(log[..|log| - 1])
      case None => None
      case Some(t) => Step(t, log[|log| - 1], |log| - 1)
  }

  lemma ReplayNext(log: seq<Entry>, k: nat)
    requires k < |log|
    ensures Replay(log[..k + 1]) == match Replay(log[..k]) case None => None case Some(t) => Step(t, log[k], k)
  {
    assert log[..k + 1][..k] == log[..k];
  }

  lemma ReplayAppend(log: seq<Entry>, e: Entry)
    ensures Replay(log + [e]) == match Replay(log) case None => None case Some(t) => Step(t, e, |log|)
  {
    assert (log + [e])[..|log|] == log;
  }

  /** If the whole log can be replayed, so can its beginning. */
  lemma {:induction false} ReplayPrefix(log: seq<Entry>, k: nat)
    requires k <= |log| && Replay(log).Some?
    ensures Replay(log[..k]).Some?
    decreases |log| - k
  {
    if k < |log| {
      ReplayPrefix(log, k + 1);
      ReplayNext(log, k);
    } else {
      assert log[..k] == log;
    }
  }

  /** An entry that replay looks at, about a name with the hash. */
  predicate Concerns(e: Entry, hash: nat) {
    e.Dentry? && !e.invalid && BKDRHash(e.name) == hash
  }

  predicate Adds(e: Entry, hash: nat) {
    Concerns(e, hash) && e.ino > 0 && e.name != []
  }

  /** No entry in [from, end) is about the hash. */
  predicate Quiet(log: seq<Entry>, hash: nat, from: nat, end: nat)
    requires end <= |log|
  {
    forall k :: from <= k < end ==> !Concerns(log[k], hash)
  }

  lemma {:induction false} QuietKeeps(log: seq<Entry>, hash: nat, from: nat, end: nat)
    requires from <= end <= |log| && Quiet(log, hash, from, end) && Replay(log[..end]).Some?
    ensures Replay(log[..from]).Some?
    ensures hash in Replay(log[..end]).value <==> hash in Replay(log[..from]).value
    ensures hash in Replay(log[..end]).value ==> Replay(log[..end]).value[hash] == Replay(log[..from]).value[hash]
    decreases end
  {
    if from < end {
      ReplayNext(log, end - 1);
      QuietKeeps(log, hash, from, end - 1);
    }
  }

  /** What the tree says of a hash: its last entry in the log adds a name with this hash. */
  lemma {:induction false} TreeIsLastEntry(log: seq<Entry>, hash: nat)
    requires Replay(log).Some?
    ensures hash in Replay(log).value ==>
      var k := Replay(log).value[hash];
      k < |log| && Adds(log[k], hash) && Quiet(log, hash, k + 1, |log|) && Replay(log[..k]).Some?
        && hash !in Replay(log[..k]).value
    ensures hash !in Replay(log).value ==>
            forall k :: 0 <= k < |log| && Adds(log[k], hash) ==> !Quiet(log, hash, k + 1, |log|)
    decreases |log|
  {
    if log != [] {
      var n := |log| - 1;
      ReplayPrefix(log, n);
      TreeIsLastEntry(log[..n], hash);
      var t := Replay(log[..n]).value;
      if hash in Replay(log).value {
        var k := Replay(log).value[hash];
        assert k < n ==> log[..n][..k] == log[..k] && log[..n][k] == log[k];
      } else {
        forall k | 0 <= k < |log| && Adds(log[k], hash) ensures !Quiet(log, hash, k + 1, |log|) {
          if !Concerns(log[n], hash) {
            assert k < n && log[..n][k] == log[k];
            var i :| k < i < n && Concerns(log[..n][i], hash);
            assert Concerns(log[i], hash);
          }
        }
      }
    }
  }

  // ---------------------------------------------------------------- entries that are invalidated

  /** If the replays of two logs agree up to n, and the logs do behind it, the replays agree. */
  lemma {:induction false} SameFrom(log: seq<Entry>, log': seq<Entry>, n: nat, m: nat)
    requires |log| == |log'| && n <= m <= |log| && Replay(log[..n]) == Replay(log'[..n])
    requires forall k :: n <= k < |log| ==> log[k] == log'[k]
    ensures Replay(log[..m]) == Replay(log'[..m])
    decreases m
  {
    hide Replay, Step;
    if n < m {
      SameFrom(log, log', n, m - 1);
      ReplayNext(log, m - 1);
      ReplayNext(log', m - 1);
    }
  }

  /** Without the entry that added it, the hash is missing as long as no other entry is about it. */
  lemma {:induction false} WithoutAdd(log: seq<Entry>, k: nat, e: Entry, hash: nat, n: nat)
    requires k < n <= |log| && Replay(log[..n]).Some? && Adds(log[k], hash) && e.Dentry? && e.invalid
    requires Quiet(log, hash, k + 1, n)
    ensures Replay(log[k := e][..n]) == Some(Replay(log[..n]).value - {hash})
    ensures Replay(log[..k]).Some? && hash !in Replay(log[..k]).value
    decreases n
  {
    var log' := log[k := e];
    ReplayNext(log, n - 1);
    ReplayNext(log', n - 1);
    if n == k + 1 {
      assert log'[..k] == log[..k];
      var t := Replay(log[..k]).value;
      assert t[hash := k] - {hash} == t;
    } else {
      WithoutAdd(log, k, e, hash, n - 1);
      var t := Replay(log[..n - 1]).value;
      assert log'[n - 1] == log[n - 1] && !Concerns(log[n - 1], hash);
      StepWithout(t, log[n - 1], n - 1, hash);
    }
  }

  lemma StepWithout(t: Tree, e: Entry, k: nat, hash: nat)
    requires !Concerns(e, hash) && Step(t, e, k).Some?
    ensures Step(t - {hash}, e, k) == Some(Step(t, e, k).value - {hash})
  {
    hide BKDRHash;
    var u, v := Step(t, e, k).value, Step(t - {hash}, e, k);
    if e.Dentry? && !e.invalid {
      if e.ino > 0 {
        assert v == Some((t - {hash})[BKDRHash(e.name) := k]);
        assert (t - {hash})[BKDRHash(e.name) := k] == u - {hash};
      } else {
        assert t - {hash} - {BKDRHash(e.name)} == u - {hash};
      }
    }
  }

  /** The entry that added a name is invalidated in place: the name is gone. */
  lemma RemovedInPlace(log: seq<Entry>, hash: nat, e: Entry)
    requires Replay(log).Some? && hash in Replay(log).value && e.Dentry? && e.invalid
    ensures Replay(log).value[hash] < |log|
    ensures Replay(log[Replay(log).value[hash] := e]) == Some(Replay(log).value - {hash})
  {
    hide BKDRHash;
    TreeIsLastEntry(log, hash);
    var k := Replay(log).value[hash];
    assert log[..|log|] == log && log[k := e][..|log|] == log[k := e];
    WithoutAdd(log, k, e, hash, |log|);
  }

  /** The last entry about a hash, if it adds a name, is in the tree. */
  lemma LastEntryIsInTree(log: seq<Entry>, hash: nat, k: nat)
    requires Replay(log).Some? && k < |log| && Adds(log[k], hash) && Quiet(log, hash, k + 1, |log|)
    ensures hash in Replay(log).value && Replay(log).value[hash] == k
  {
    TreeIsLastEntry(log, hash);
    assert Concerns(log[k], hash);
    assert forall j :: k < j < |log| ==> !Concerns(log[j], hash);
  }

  lemma LastAdded(log: seq<Entry>, hash: nat)
    requires Replay(log).Some?
    ensures hash in Replay(log).value ==>
      var k := Replay(log).value[hash];
      k < |log| && log[k].Dentry? && Adds(log[k], hash) && Quiet(log, hash, k + 1, |log|)
  {
    TreeIsLastEntry(log, hash);
  }

  /** The name in entry k. */
  function NameAt(log: seq<Entry>, k: nat): Option<Name> {
    if k < |log| && log[k].Dentry? then Some(log[k].name) else None
  }

  function EpochAt(log: seq<Entry>, k: nat): Option<nat> {
    if k < |log| && log[k].Dentry? then Some(log[k].epoch) else None
  }

  /** An entry is invalidated in place, in the log or behind its committed part. */
  lemma InPlace(log: seq<Entry>, pending: seq<Entry>, hash: nat, k: nat, e: Entry)
    requires Replay(log).Some? && Replay(log + pending).Some? && hash in Replay(log + pending).value
    requires k == Replay(log + pending).value[hash] && e.Dentry? && e.invalid
    ensures k < |log + pending| && Replay((log + pending)[k := e]) == Some(Replay(log + pending).value - {hash})
    ensures k < |log| ==> Replay(log[k := e]) == Some(Replay(log).value - {hash})
  {
    hide BKDRHash;
    var full := log + pending;
    TreeIsLastEntry(full, hash);
    RemovedInPlace(full, hash, e);
    if k < |log| {
      assert full[k] == log[k] && forall i :: 0 <= i < |log| ==> log[i] == full[i];
      LastEntryIsInTree(log, hash, k);
      RemovedInPlace(log, hash, e);
    }
  }

  /** Entry c adds a name, entry d removes it, and nothing between them is about it. */
  predicate Paired(log: seq<Entry>, c: nat, d: nat) {
    && c < d < |log| && log[c].Dentry? && Adds(log[c], BKDRHash(log[c].name))
    && Concerns(log[d], BKDRHash(log[c].name)) && log[d].ino == 0
    && Quiet(log, BKDRHash(log[c].name), c + 1, d)
  }

  function Invalidated(e: Entry): Entry
    requires e.Dentry?
  {
    e.(invalid := true)
  }

  function Reassigned(e: Entry): Entry
    requires e.Dentry?
  {
    e.(reassigned := true)
  }

  /** The create entry alone may be invalidated ... */
  lemma CreateFirst(log: seq<Entry>, c: nat, d: nat, e: Entry)
    requires Replay(log).Some? && Paired(log, c, d) && e.Dentry? && e.invalid
    ensures Replay(log[c := e]) == Replay(log)
    ensures Replay(log[c := e][..d]).Some? && BKDRHash(log[c].name) !in Replay(log[c := e][..d]).value
  {
    hide BKDRHash;
    var hash := BKDRHash(log[c].name);
    var log' := log[c := e];
    ReplayPrefix(log, d);
    WithoutAdd(log, c, e, hash, d);
    ReplayNext(log, d);
    ReplayNext(log', d);
    assert Replay(log[..d]).value - {hash} - {hash} == Replay(log[..d]).value - {hash};
    SameFrom(log, log', d + 1, |log|);
    assert log[..|log|] == log && log'[..|log|] == log';
  }

  /** ... and then the delete entry, which has nothing left to remove. */
  lemma DeleteSecond(log: seq<Entry>, d: nat, e: Entry)
    requires Replay(log).Some? && d < |log| && log[d].Dentry? && !log[d].invalid && log[d].ino == 0 && e.Dentry?
    requires e.invalid
    requires Replay(log[..d]).Some? && BKDRHash(log[d].name) !in Replay(log[..d]).value
    ensures Replay(log[d := e]) == Replay(log)
  {
    hide BKDRHash;
    var log' := log[d := e];
    ReplayNext(log, d);
    ReplayNext(log', d);
    assert log'[..d] == log[..d];
    assert Replay(log[..d]).value - {BKDRHash(log[d].name)} == Replay(log[..d]).value;
    SameFrom(log, log', d + 1, |log|);
    assert log[..|log|] == log && log'[..|log|] == log';
  }

  /** The other way round, a crash between the two would bring the name back. */
  lemma DeleteFirstBringsNameBack(log: seq<Entry>, c: nat, d: nat)
    requires Replay(log).Some? && Paired(log, c, d) && Quiet(log, BKDRHash(log[c].name), d + 1, |log|)
    ensures BKDRHash(log[c].name) !in Replay(log).value
    ensures Replay(log[d := Invalidated(log[d])]) == Some(Replay(log).value[BKDRHash(log[c].name) := c])
  {
    hide BKDRHash;
    var hash := BKDRHash(log[c].name);
    var log' := log[d := Invalidated(log[d])];
    assert log[..|log|] == log && log'[..|log|] == log';
    ReplayPrefix(log, d + 1);
    ReplayPrefix(log, c + 1);
    ReplayNext(log, c);
    ReplayPrefix(log, d);
    QuietKeeps(log, hash, c + 1, d);
    ReplayNext(log, d);
    ReplayNext(log', d);
    assert log'[..d] == log[..d];
    var t := Replay(log[..d]).value;
    assert t == (t - {hash})[hash := c];
    BackFrom(log, log', hash, c, d + 1, |log|);
  }

  lemma {:induction false} BackFrom(log: seq<Entry>, log': seq<Entry>, hash: nat, c: nat, n: nat, m: nat)
    requires |log| == |log'| && n <= m <= |log| && Replay(log[..m]).Some? && Replay(log[..n]).Some?
    requires hash !in Replay(log[..n]).value
    requires Replay(log'[..n]) == Some(Replay(log[..n]).value[hash := c])
    requires Quiet(log, hash, n, |log|) && forall k :: n <= k < |log| ==> log[k] == log'[k]
    ensures hash !in Replay(log[..m]).value && Replay(log'[..m]) == Some(Replay(log[..m]).value[hash := c])
    decreases m
  {
    hide Replay, Step, Concerns;
    if n < m {
      ReplayNext(log, m - 1);
      ReplayNext(log', m - 1);
      BackFrom(log, log', hash, c, n, m - 1);
      StepWith(Replay(log[..m - 1]).value, log[m - 1], m - 1, hash, c);
    }
  }

  lemma StepWith(t: Tree, e: Entry, k: nat, hash: nat, c: nat)
    requires !Concerns(e, hash) && Step(t, e, k).Some? && hash !in t
    ensures hash !in Step(t, e, k).value && Step(t[hash := c], e, k) == Some(Step(t, e, k).value[hash := c])
  {
    hide BKDRHash;
    if e.Dentry? && !e.invalid {
      if e.ino > 0 {
        assert t[hash := c][BKDRHash(e.name) := k] == t[BKDRHash(e.name) := k][hash := c];
      } else {
        assert t[hash := c] - {BKDRHash(e.name)} == (t - {BKDRHash(e.name)})[hash := c];
      }
    }
  }

  // ---------------------------------------------------------------- the directory

  class Dir {
    var log: seq<Entry>        // up to the committed tail
    var pending: seq<Entry>    // appended behind it
    var tree: Tree
    ghost var durable: Tree

    /** The tree is the replay of all entries, and was the replay of the log at the last commit. */
    ghost predicate Valid()
      reads this
    {
      Replay(log) == Some(durable) && Replay(log + pending) == Some(tree)
    }

    /** A new directory (nova_append_dir_init_entries): itself and its parent. */
    constructor (self: nat, parent: nat, epoch: nat)
      requires self > 0 && parent > 0
      ensures Valid() && pending == [] && durable == tree
      ensures tree == map[BKDRHash([46]) := 0, BKDRHash([46, 46]) := 1]
    {
      var dot, dotdot := Dentry([46], self, epoch, false, false), Dentry([46, 46], parent, epoch, false, false);
      log, pending := [dot, dotdot], [];
      DotsDiffer();
      tree := map[BKDRHash([46]) := 0, BKDRHash([46, 46]) := 1];
      durable := map[BKDRHash([46]) := 0, BKDRHash([46, 46]) := 1];
      new;
      ReplayAppend([], dot);
      ReplayAppend([dot], dotdot);
      assert [] + [dot] == [dot] && [dot] + [dotdot] == [dot, dotdot];
      assert log + pending == log;
    }

    /** nova_find_dentry. */
    method FindDentry(name: Name) returns (k: Option<nat>)
      requires Valid()
      ensures k.None? ==> forall i :: 0 <= i < |log + pending| && Adds((log + pending)[i], BKDRHash(name)) ==>
              !Quiet(log + pending, BKDRHash(name), i + 1, |log + pending|)
      ensures k.Some? ==>
                k.value < |log + pending| && Adds((log + pending)[k.value], BKDRHash(name))
                && Quiet(log + pending, BKDRHash(name), k.value + 1, |log + pending|)
    {
      TreeIsLastEntry(log + pending, BKDRHash(name));
      if BKDRHash(name) in tree {
        return Some(tree[BKDRHash(name)]);
      }
      k := None;
    }

    /** nova_insert_dir_tree. */
    method InsertDirTree(name: Name, k: nat) returns (ret: int)
      modifies this`tree
      ensures ret == if BKDRHash(name) in old(tree) then EINVAL else 0
      ensures tree == if ret == 0 then old(tree)[BKDRHash(name) := k] else old(tree)
    {
      if BKDRHash(name) in tree {
        return EINVAL;
      }
      tree := tree[BKDRHash(name) := k];
      ret := 0;
    }

    /** nova_remove_dir_tree; a node whose entry has another name is gone as well. */
    method RemoveDirTree(name: Name) returns (ret: int, k: nat)
      requires Valid()
      modifies this`tree
      ensures BKDRHash(name) !in old(tree) ==> ret == EINVAL && tree == old(tree)
      ensures BKDRHash(name) in old(tree) ==>
        && k == old(tree)[BKDRHash(name)] && tree == old(tree) - {BKDRHash(name)}
        && k < |log + pending| && (log + pending)[k].Dentry? && Adds((log + pending)[k], BKDRHash(name))
        && ret == if (log + pending)[k].name == name then 0 else EINVAL
    {
      k := 0;
      TreeIsLastEntry(log + pending, BKDRHash(name));
      if BKDRHash(name) !in tree {
        return EINVAL, 0;
      }
      k := tree[BKDRHash(name)];
      tree := tree - {BKDRHash(name)};
      var entry := (log + pending)[k];
      if entry.ino == 0 || entry.invalid || entry.name != name {
        return EINVAL, k;
      }
      ret := 0;
    }

    /** nova_add_dentry.  If it fails its entry is not kept. */
    method AddDentry(name: Name, ino: nat, epoch: nat) returns (ret: int)
      requires Valid() && ino > 0
      modifies this
      ensures Valid() && log == old(log) && durable == old(durable)
      ensures ret == if name == [] || BKDRHash(name) in old(tree) then EINVAL else 0
      ensures pending == if ret == 0 then old(pending) + [Dentry(name, ino, epoch, false, false)] else old(pending)
      ensures tree == if ret == 0 then old(tree)[BKDRHash(name) := |old(log + pending)|] else old(tree)
    {
      hide BKDRHash;
      if name == [] {
        return EINVAL;
      }
      var e := Dentry(name, ino, epoch, false, false);
      ReplayAppend(log + pending, e);
      assert log + (pending + [e]) == (log + pending) + [e];
      ret := InsertDirTree(name, |log + pending|);
      if ret == 0 {
        pending := pending + [e];
      }
    }

    /** Entry k changes in place. */
    method Store(k: nat, e: Entry)
      requires k < |log + pending|
      modifies this`log, this`pending
      ensures log + pending == old(log + pending)[k := e] && |log| == |old(log)|
      ensures log == if k < |old(log)| then old(log)[k := e] else old(log)
    {
      if k < |log| {
        log := log[k := e];
      } else {
        pending := pending[k - |log| := e];
      }
      assert log + pending == old(log + pending)[k := e];
    }

    /** nova_inplace_update_dentry with nova_update_old_dentry. */
    method RemoveInPlace(name: Name, k: nat, epoch: nat)
      requires Replay(log) == Some(durable) && Replay(log + pending).Some?
      requires BKDRHash(name) in Replay(log + pending).value
      requires k == Replay(log + pending).value[BKDRHash(name)] && k < |log + pending| && (log + pending)[k].Dentry?
      requires tree == Replay(log + pending).value - {BKDRHash(name)}
      modifies this`log, this`pending, this`durable
      ensures Valid()
      ensures log + pending ==
              old(log + pending)[k := old((log + pending)[k]).(ino := 0, epoch := epoch, invalid := true)]
    {
      hide BKDRHash, Replay;
      var e := (log + pending)[k].(ino := 0, epoch := epoch, invalid := true);
      InPlace(log, pending, BKDRHash(name), k, e);
      if k < |log| {
        durable := durable - {BKDRHash(name)};
      }
      Store(k, e);
    }

    /** nova_append_dentry with inode number 0. */
    method RemoveByEntry(name: Name, k: nat, epoch: nat) returns (d: nat)
      requires Replay(log) == Some(durable) && Replay(log + pending).Some?
      requires tree == Replay(log + pending).value - {BKDRHash(name)}
      requires k < |log + pending| && Adds((log + pending)[k], BKDRHash(name))
      requires Quiet(log + pending, BKDRHash(name), k + 1, |log + pending|)
      modifies this`pending
      ensures Valid() && Paired(log + pending, k, d) && old(log + pending) <= log + pending && d == |old(log + pending)|
      ensures log + pending == old(log + pending) + [Dentry(name, 0, epoch, false, false)]
    {
      hide BKDRHash;
      var e := Dentry(name, 0, epoch, false, false);
      ghost var full := log + pending;
      ReplayAppend(full, e);
      assert log + (pending + [e]) == full + [e];
      d := |log| + |pending|;
      pending := pending + [e];
      assert forall i :: 0 <= i < |full| ==> (full + [e])[i] == full[i];
    }

    /** nova_remove_dentry: in place if the entry is of this epoch, or by a delete entry, which
        is to be invalidated later together with the create entry.  If the hash belongs to
        another name, that name is lost from the tree. */
    method RemoveDentry(name: Name, epoch: nat, rename: bool) returns (ret: int, update: Option<(nat, nat)>)
      requires Valid()
      modifies this
      ensures Valid() <==>
                name == [] || BKDRHash(name) !in old(tree)
                || NameAt(old(log + pending), old(tree)[BKDRHash(name)]) == Some(name)
      ensures ret == 0 <==>
                name != [] && BKDRHash(name) in old(tree)
                && NameAt(old(log + pending), old(tree)[BKDRHash(name)]) == Some(name)
      ensures tree == if name == [] then old(tree) else old(tree) - {BKDRHash(name)}
      ensures ret != 0 ==> log == old(log) && pending == old(pending) && durable == old(durable)
      ensures update.Some? ==>
                Paired(log + pending, update.value.0, update.value.1)
                && old(log + pending) <= log + pending && durable == old(durable)
      ensures update.Some? ==>
                BKDRHash(name) in old(tree)
                && update.value == (old(tree)[BKDRHash(name)], |old(log + pending)|)
      ensures ret == 0 ==>
                (update.None? <==>
                   !rename && EpochAt(old(log + pending), old(tree)[BKDRHash(name)]) == Some(epoch))
      ensures ret == 0 ==> update.None? ==>
                exists k: nat, e :: k < old(|log + pending|) && k == old(tree)[BKDRHash(name)]
                  && old(log + pending)[k] == e && e.Dentry?
                  && log + pending == old(log + pending)[k := e.(ino := 0, epoch := epoch, invalid := true)]
      ensures update.Some? ==> log + pending == old(log + pending) + [Dentry(name, 0, epoch, false, false)]
      ensures ret != 0 ==> update.None?
    {
      hide BKDRHash, Replay, Paired, Quiet;
      update := None;
      if name == [] {
        return EINVAL, None;
      }
      LastAdded(log + pending, BKDRHash(name));
      var k;
      ret, k := RemoveDirTree(name);
      if ret != 0 {
        return ret, None;
      }
      if !rename && (log + pending)[k].epoch == epoch {
        RemoveInPlace(name, k, epoch);
      } else {
        var d := RemoveByEntry(name, k, epoch);
        update := Some((k, d));
      }
    }

    /** The new tail of the log is stored. */
    method Commit()
      requires Valid()
      modifies this
      ensures Valid() && log == old(log + pending) && pending == [] && tree == old(tree) && durable == tree
    {
      log := log + pending;
      pending := [];
      durable := tree;
      assert log + pending == log;
    }

    /** nova_invalidate_dentries, once the log is committed.  In every state it passes through,
        the replay of the log is the tree. */
    method InvalidateDentries(create: nat, delete: nat, epoch: nat) returns (ghost passed: seq<seq<Entry>>)
      requires Valid() && pending == [] && Paired(log, create, delete)
      modifies this`log
      ensures Valid() && forall i :: 0 <= i < |passed| ==> Replay(passed[i]) == Some(tree)
      ensures |passed| == (if old(log[create].epoch) == epoch then 3 else 1) && passed[|passed| - 1] == log
      ensures log == PairInvalidated(old(log), create, delete, epoch)
    {
      hide BKDRHash;
      assert log + pending == log;
      ghost var hash := BKDRHash(log[create].name);
      ReassignIsHarmless(log, create);
      CreateFirst(log, create, delete, Invalidated(Reassigned(log[create])));
      log := log[create := Reassigned(log[create])];
      passed := [log];
      if log[create].epoch != epoch {
        assert log + pending == log;
        return;
      }
      ghost var was := old(log);
      log := log[create := Invalidated(log[create])];
      assert log == was[create := Invalidated(Reassigned(was[create]))];
      passed := passed + [log];
      DeleteSecond(log, delete, Invalidated(log[delete]));
      log := log[delete := Invalidated(log[delete])];
      passed := passed + [log];
      assert log + pending == log;
    }

    /** nova_rename inside one directory: a target is removed first, then the new name is added
        and the old one removed; after the commit the entries are invalidated in pairs. */
    method Rename(oldName: Name, newName: Name, ino: nat, epoch: nat, target: bool)
      requires Valid() && pending == [] && ino > 0 && oldName != [] && newName != []
      requires BKDRHash(oldName) != BKDRHash(newName)
      requires BKDRHash(oldName) in tree && NameAt(log, tree[BKDRHash(oldName)]) == Some(oldName)
      requires target <==> BKDRHash(newName) in tree
      requires target ==> NameAt(log, tree[BKDRHash(newName)]) == Some(newName)
      modifies this
      ensures Valid() && pending == [] && durable == tree
      ensures BKDRHash(newName) in tree
      ensures tree - {BKDRHash(newName)} == old(tree) - {BKDRHash(oldName), BKDRHash(newName)}
      ensures
        var k := tree[BKDRHash(newName)];
        k < |log| && log[k] == Dentry(newName, ino, epoch, false, false)
      ensures
        Renamed(old(log), old(tree)[BKDRHash(oldName)],
                if target then Some(old(tree)[BKDRHash(newName)]) else None, oldName, newName, ino, epoch, log)
    {
      hide BKDRHash, Replay, Paired, PairInvalidated;
      assert log + pending == log;
      var update1, update2, ret;
      if target {
        ret, update1 := RemoveDentry(newName, epoch, true);
      } else {
        update1 := None;
      }
      ghost var full := log + pending;
      assert old(log) <= full;
      ret := AddDentry(newName, ino, epoch);
      assert log + pending == full + [Dentry(newName, ino, epoch, false, false)];
      assert NameAt(log + pending, tree[BKDRHash(oldName)]) == Some(oldName);
      ret, update2 := RemoveDentry(oldName, epoch, true);
      Commit();
      ghost var a := |full|;
      ghost var all, mid := log, log;
      assert log[a] == Dentry(newName, ino, epoch, false, false);
      PairElsewhere(log, update2.value.0, update2.value.1, epoch, a);
      if target {
        assert log == old(log) + [Dentry(newName, 0, epoch, false, false), Dentry(newName, ino, epoch, false, false),
                                  Dentry(oldName, 0, epoch, false, false)];
        PairedGrows(full, log, update1.value.0, update1.value.1);
        PairElsewhere(log, update1.value.0, update1.value.1, epoch, a);
        PairedTwice(log, update1.value.0, update1.value.1, update2.value.0, update2.value.1, epoch);
        var _ := InvalidateDentries(update1.value.0, update1.value.1, epoch);
        mid := log;
        PairElsewhere(log, update2.value.0, update2.value.1, epoch, a);
      }
      var _ := InvalidateDentries(update2.value.0, update2.value.1, epoch);
      if target {
        assert PairDone(all, update1.value.0, update1.value.1, epoch, mid);
        assert PairDone(mid, update2.value.0, update2.value.1, epoch, log);
      } else {
        assert all == old(log) + [Dentry(newName, ino, epoch, false, false), Dentry(oldName, 0, epoch, false, false)];
        assert PairDone(all, update2.value.0, update2.value.1, epoch, log);
      }
    }

    /** nova_rebuild_dir_inode_tree after a crash: what was not committed is gone, and the tree is
        that of the last commit. */
    method Rebuild() returns (ret: int)
      requires Replay(log) == Some(durable)
      modifies this
      ensures ret == 0 && Valid() && log == old(log) && pending == [] && tree == old(durable)
    {
      pending, tree := [], map[];
      assert log[..0] == [];
      for k := 0 to |log|
        invariant log == old(log) && pending == [] && durable == old(durable) && Replay(log[..k]) == Some(tree)
      {
        ReplayPrefix(log, k + 1);
        ReplayNext(log, k);
        ret := HandleDentry(log[k], k);
        if ret != 0 {
          return;
        }
      }
      assert log[..|log|] == log && log + pending == log;
      ret := 0;
    }

    /** nova_rebuild_handle_dentry. */
    method HandleDentry(e: Entry, k: nat) returns (ret: int)
      modifies this`tree
      ensures ret == if Step(old(tree), e, k).Some? then 0 else EINVAL
      ensures ret == 0 ==> Some(tree) == Step(old(tree), e, k)
    {
      ret := 0;
      if e.Dentry? && !e.invalid {
        if e.ino > 0 {
          if e.name == [] {
            return EINVAL;
          }
          ret := InsertDirTree(e.name, k);
        } else {
          tree := tree - {BKDRHash(e.name)};
        }
      }
    }
  }

  lemma PairedGrows(log: seq<Entry>, log': seq<Entry>, c: nat, d: nat)
    requires Paired(log, c, d) && log <= log'
    ensures Paired(log', c, d) && c < d < |log|
  {
    hide BKDRHash;
    assert forall i :: 0 <= i < |log| ==> log'[i] == log[i];
  }

  /** What nova_invalidate_dentries makes of a pair. */
  function PairInvalidated(log: seq<Entry>, c: nat, d: nat, epoch: nat): seq<Entry>
    requires c < |log| && d < |log| && log[c].Dentry? && log[d].Dentry?
  {
    if log[c].epoch == epoch then log[c := Invalidated(Reassigned(log[c]))][d := Invalidated(log[d])]
    else log[c := Reassigned(log[c])]
  }

  ghost predicate PairDone(log: seq<Entry>, c: nat, d: nat, epoch: nat, log': seq<Entry>) {
    && c < |log| && d < |log| && log[c].Dentry? && log[d].Dentry?
    && log' == PairInvalidated(log, c, d, epoch)
  }

  /** The log of a directory after a rename in it: k is the entry that made the old name, and target the one that
      made the new name, if there was one. */
  ghost predicate Renamed(log: seq<Entry>, k: nat, target: Option<nat>, oldName: Name, newName: Name, ino: nat,
                          epoch: nat, log': seq<Entry>)
  {
    var made, gone := Dentry(newName, ino, epoch, false, false), Dentry(oldName, 0, epoch, false, false);
    if target.None? then PairDone(log + [made, gone], k, |log| + 1, epoch, log')
    else
      exists mid ::
        && PairDone(log + [Dentry(newName, 0, epoch, false, false), made, gone], target.value, |log|, epoch, mid)
        && PairDone(mid, k, |log| + 2, epoch, log')
  }

  lemma PairElsewhere(log: seq<Entry>, c: nat, d: nat, epoch: nat, a: nat)
    requires Paired(log, c, d) && a < |log| && a != c && a != d
    ensures log[c].Dentry? && log[d].Dentry?
    ensures |PairInvalidated(log, c, d, epoch)| == |log| && PairInvalidated(log, c, d, epoch)[a] == log[a]
  {
    hide BKDRHash, Quiet;
  }

  /** One pair is not concerned when another is invalidated. */
  lemma PairedTwice(log: seq<Entry>, c: nat, d: nat, c': nat, d': nat, epoch: nat)
    requires Paired(log, c, d) && Paired(log, c', d') && c != c' && d != d'
    ensures log[c].Dentry? && log[d].Dentry?
    ensures Paired(PairInvalidated(log, c, d, epoch), c', d')
  {
    hide BKDRHash;
    var z := PairInvalidated(log, c, d, epoch);
    assert forall i :: 0 <= i < |log| && i != c && i != d ==> z[i] == log[i];
  }

  lemma ReassignIsHarmless(log: seq<Entry>, c: nat)
    requires c < |log| && log[c].Dentry? && Replay(log).Some?
    ensures Replay(log[c := Reassigned(log[c])]) == Replay(log)
  {
    hide BKDRHash;
    var log' := log[c := Reassigned(log[c])];
    assert log'[..c] == log[..c];
    ReplayNext(log, c);
    ReplayNext(log', c);
    SameFrom(log, log', c + 1, |log|);
    assert log[..|log|] == log && log'[..|log|] == log';
  }

  lemma DotsDiffer()
    ensures BKDRHash([46]) == 46 && BKDRHash([46, 46]) == 6072
  {
    assert [46][..0] == [] && [46, 46][..1] == [46];
  }

  /** Two names with the same hash: the letter A and the digit 2, and the letter B and byte 175. */
  const ONE_NAME: Name := [65, 50]
  const OTHER_NAME: Name := [66, -81]

  lemma NamesCollide()
    ensures BKDRHash(ONE_NAME) == 8565 == BKDRHash(OTHER_NAME) && ONE_NAME != OTHER_NAME
  {
    assert ONE_NAME[..1] == [65] && OTHER_NAME[..1] == [66] && [65][..0] == [] && [66][..0] == [];
  }

  /** One name is made, and the other one is removed: that fails, but the tree has lost the one. */
  method CollisionLosesAName(self: nat, parent: nat, ino: nat) returns (d: Dir, ret: int)
    requires self > 0 && parent > 0 && ino > 0
    ensures !d.Valid() && ret != 0 && BKDRHash(ONE_NAME) !in d.tree
    ensures Replay(d.log + d.pending).Some? && BKDRHash(ONE_NAME) in Replay(d.log + d.pending).value
  {
    d := new Dir(self, parent, 0);
    NamesCollide();
    DotsDiffer();
    hide BKDRHash, Replay;
    ghost var k := |d.log + d.pending|;
    ret := d.AddDentry(ONE_NAME, ino, 0);
    assert d.tree[BKDRHash(ONE_NAME)] == k && (d.log + d.pending)[k].name == ONE_NAME;
    ghost var was := d.log + d.pending;
    ghost var tree := d.tree;
    assert Replay(was) == Some(tree) && BKDRHash(ONE_NAME) in tree;
    var update;
    ret, update := d.RemoveDentry(OTHER_NAME, 0, false);
    assert d.log + d.pending == was;
  }
}
