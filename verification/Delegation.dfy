/** Delegation: callers hand copies to agents on the sockets, and wait until all are done
    (delegation.c, agent.c).  Each agent has a ring of requests, in the order they were put. */
module Delegation {

  datatype Req = Req(caller: nat, socket: nat)

  /** Where a request is. */
  datatype Place = Sending | Queued(ring: nat) | Serving(ring: nat, copied: bool) | Done

  datatype Phase = Running | Issuing(id: nat) | Waiting(socket: nat) | Returned

  /** A caller with the requests it has issued on each socket, and the counters that the agents
      increment, of 32 bits. */
  datatype Caller = Caller(phase: Phase, issued: seq<nat>, cnt: seq<int>)

  datatype Agent = Idle | Copying(id: nat) | Copied(id: nat)

  datatype Ring = Ring(socket: nat, queue: seq<nat>, agent: Agent)

  /** The requests ever issued, by number, where they are, and how often they were performed. */
  datatype State = State(callers: seq<Caller>, rings: seq<Ring>, reqs: seq<Req>, place: seq<Place>, performed: seq<nat>)

  datatype Step =
    | Issue(c: nat, socket: nat)
    | Send(c: nat, ring: nat)
    | Receive(r: nat)
    | Copy(r: nat)
    | Notify(r: nat)
    | BeginWait(c: nat)
    | Check(c: nat)

  /** A counter of 32 bits, as a signed number. */
  function Signed(n: nat): int {
    if n % 0x1_0000_0000 < 0x8000_0000 then n % 0x1_0000_0000 else n % 0x1_0000_0000 - 0x1_0000_0000
  }

  function Increment(x: int): int {
    if x == 0x7fff_ffff then -0x8000_0000 else x + 1
  }

  lemma IncrementCounts(n: nat)
    ensures Increment(Signed(n)) == Signed(n + 1)
  {
  }

  // ---------------------------------------------------------------- steps

  predicate Enabled(st: State, step: Step, room: nat) {
    match step
    case Issue(c, s) => c < |st.callers| && st.callers[c].phase == Running && s < |st.callers[c].issued|
    case Send(c, r) =>
      && c < |st.callers| && st.callers[c].phase.Issuing? && st.callers[c].phase.id < |st.reqs| && r < |st.rings|
      && st.rings[r].socket == st.reqs[st.callers[c].phase.id].socket && |st.rings[r].queue| < room
    case Receive(r) => r < |st.rings| && st.rings[r].agent == Idle && st.rings[r].queue != []
    case Copy(r) => r < |st.rings| && st.rings[r].agent.Copying?
    case Notify(r) => r < |st.rings| && st.rings[r].agent.Copied?
    case BeginWait(c) => c < |st.callers| && st.callers[c].phase == Running
    case Check(c) => c < |st.callers| && st.callers[c].phase.Waiting?
  }

  function SetCaller(st: State, c: nat, x: Caller): State
    requires c < |st.callers|
  {
    st.(callers := st.callers[c := x])
  }

  function SetRing(st: State, r: nat, x: Ring): State
    requires r < |st.rings|
  {
    st.(rings := st.rings[r := x])
  }

  function SetPlace(st: State, id: nat, p: Place): State {
    if id < |st.place| then st.(place := st.place[id := p]) else st
  }

  /** What a step does; an agent's steps refer to the request it holds. */
  function After(st: State, step: Step, room: nat): State
    requires Enabled(st, step, room)
  {
    match step
    case Issue(c, s) =>
      var x, id := st.callers[c], |st.reqs|;
      State(st.callers[c := x.(phase := Issuing(id), issued := x.issued[s := x.issued[s] + 1])], st.rings,
            st.reqs + [Req(c, s)], st.place + [Sending], st.performed + [0])
    case Send(c, r) =>
      var x, ring := st.callers[c], st.rings[r];
      SetPlace(SetRing(SetCaller(st, c, x.(phase := Running)), r, ring.(queue := ring.queue + [x.phase.id])),
        x.phase.id, Queued(r))
    case Receive(r) =>
      var ring := st.rings[r];
      SetPlace(SetRing(st, r, ring.(queue := ring.queue[1..], agent := Copying(ring.queue[0]))), ring.queue[0],
        Serving(r, false))
    case Copy(r) =>
      var ring := st.rings[r];
      var id := ring.agent.id;
      var st' := SetPlace(SetRing(st, r, ring.(agent := Copied(id))), id, Serving(r, true));
      if id < |st.performed| then st'.(performed := st.performed[id := st.performed[id] + 1]) else st'
    case Notify(r) =>
      var ring := st.rings[r];
      var id := ring.agent.id;
      var st' := SetPlace(SetRing(st, r, ring.(agent := Idle)), id, Done);
      if id < |st.reqs| && st.reqs[id].caller < |st.callers|
        && st.reqs[id].socket < |st.callers[st.reqs[id].caller].cnt| then
        var c, s := st.reqs[id].caller, st.reqs[id].socket;
        SetCaller(st', c, st.callers[c].(cnt := st.callers[c].cnt[s := Increment(st.callers[c].cnt[s])]))
      else st'
    case BeginWait(c) => SetCaller(st, c, st.callers[c].(phase := Waiting(0)))
    case Check(c) =>
      var x := st.callers[c];
      var i := x.phase.socket;
      if i >= |x.issued| then SetCaller(st, c, x.(phase := Returned))
      else if i < |x.cnt| && x.issued[i] == x.cnt[i] then SetCaller(st, c, x.(phase := Waiting(i + 1)))
      else st
  }

  // ---------------------------------------------------------------- counting

  predicate From(q: Req, c: nat, s: nat) {
    q.caller == c && q.socket == s
  }

  /** The requests of a caller on a socket, and those of them that are done. */
  function IssuedBy(reqs: seq<Req>, c: nat, s: nat): nat {
    if reqs == [] then 0
    else IssuedBy(reqs[..|reqs| - 1], c, s) + if From(reqs[|reqs| - 1], c, s) then 1 else 0
  }

  function DoneBy(reqs: seq<Req>, place: seq<Place>, c: nat, s: nat): nat
    requires |place| == |reqs|
  {
    if reqs == [] then 0
    else
      var n := |reqs| - 1;
      DoneBy(reqs[..n], place[..n], c, s) + if From(reqs[n], c, s) && place[n].Done? then 1 else 0
  }

  lemma {:induction false} DoneIsLess(reqs: seq<Req>, place: seq<Place>, c: nat, s: nat)
    requires |place| == |reqs|
    ensures DoneBy(reqs, place, c, s) <= IssuedBy(reqs, c, s)
    ensures DoneBy(reqs, place, c, s) == IssuedBy(reqs, c, s)
            <==> forall id :: 0 <= id < |reqs| && From(reqs[id], c, s) ==> place[id].Done?
  {
    if reqs != [] {
      var n := |reqs| - 1;
      DoneIsLess(reqs[..n], place[..n], c, s);
      assert forall id :: 0 <= id < n ==> reqs[..n][id] == reqs[id] && place[..n][id] == place[id];
    }
  }

  /** One request moves. */
  lemma {:induction false} MoveCounts(reqs: seq<Req>, place: seq<Place>, id: nat, p: Place, c: nat, s: nat)
    requires |place| == |reqs| && id < |reqs| && !place[id].Done?
    ensures DoneBy(reqs, place[id := p], c, s) ==
              DoneBy(reqs, place, c, s) + if From(reqs[id], c, s) && p.Done? then 1 else 0
    decreases |reqs|
  {
    var n := |reqs| - 1;
    if id < n {
      MoveCounts(reqs[..n], place[..n], id, p, c, s);
      assert place[id := p][..n] == place[..n][id := p];
    } else {
      assert place[id := p][..n] == place[..n];
    }
  }

  lemma NewCounts(reqs: seq<Req>, place: seq<Place>, q: Req, c: nat, s: nat)
    requires |place| == |reqs|
    ensures IssuedBy(reqs + [q], c, s) == IssuedBy(reqs, c, s) + if From(q, c, s) then 1 else 0
    ensures DoneBy(reqs + [q], place + [Sending], c, s) == DoneBy(reqs, place, c, s)
  {
    assert (reqs + [q])[..|reqs|] == reqs && (place + [Sending])[..|reqs|] == place;
  }

  // ---------------------------------------------------------------- the invariant

  /** A ring holds the requests that are queued on it, once, and its agent the one in service. */
  ghost predicate RingOk(st: State, r: nat)
    requires |st.place| == |st.reqs| && r < |st.rings|
  {
    var ring := st.rings[r];
    && (forall k :: 0 <= k < |ring.queue| ==> ring.queue[k] < |st.place| && st.place[ring.queue[k]] == Queued(r))
    && (forall j, k :: 0 <= j < k < |ring.queue| ==> ring.queue[j] != ring.queue[k])
    && (forall id :: 0 <= id < |st.place| && st.place[id] == Queued(r) ==> id in ring.queue)
    && (forall id :: 0 <= id < |st.place| && st.place[id].Serving? && st.place[id].ring == r ==>
          ring.agent == if st.place[id].copied then Copied(id) else Copying(id))
    && (!ring.agent.Idle? ==> ring.agent.id < |st.place| && st.place[ring.agent.id] == Serving(r, ring.agent.Copied?))
  }

  ghost predicate CallerOk(st: State, c: nat, sockets: nat)
    requires |st.place| == |st.reqs| && c < |st.callers|
  {
    var x := st.callers[c];
    && |x.issued| == |x.cnt| == sockets
    && (forall s :: 0 <= s < sockets ==>
         x.issued[s] == IssuedBy(st.reqs, c, s) && x.cnt[s] == Signed(DoneBy(st.reqs, st.place, c, s)))
    && (x.phase.Issuing? ==>
          x.phase.id < |st.reqs| && st.reqs[x.phase.id].caller == c
          && st.place[x.phase.id] == Sending)
    && (forall id :: 0 <= id < |st.reqs| && st.place[id] == Sending && st.reqs[id].caller == c ==>
         x.phase == Issuing(id))
    && (forall id :: 0 <= id < |st.reqs| && st.reqs[id].caller == c && Passed(x.phase, st.reqs[id].socket) ==>
         st.place[id].Done?)
  }

  /** The caller has seen the counter of the socket reach its count. */
  predicate Passed(p: Phase, s: nat) {
    p == Returned || (p.Waiting? && s < p.socket)
  }

  predicate ReqOk(st: State, id: nat, sockets: nat)
    requires |st.place| == |st.reqs| == |st.performed| && id < |st.reqs|
  {
    && st.reqs[id].caller < |st.callers| && st.reqs[id].socket < sockets
    && (st.place[id].Queued? || st.place[id].Serving? ==> st.place[id].ring < |st.rings|)
    && st.performed[id] == if st.place[id].Done? || (st.place[id].Serving? && st.place[id].copied) then 1 else 0
  }

  ghost predicate Inv(st: State, sockets: nat) {
    && |st.place| == |st.reqs| == |st.performed|
    && (forall r :: 0 <= r < |st.rings| ==> RingOk(st, r))
    && (forall c :: 0 <= c < |st.callers| ==> CallerOk(st, c, sockets))
    && (forall id :: 0 <= id < |st.reqs| ==> ReqOk(st, id, sockets))
  }

  // ---------------------------------------------------------------- every step keeps it

  lemma IssueKeeps(st: State, c: nat, s: nat, sockets: nat, room: nat)
    requires Inv(st, sockets) && Enabled(st, Issue(c, s), room)
    ensures Inv(After(st, Issue(c, s), room), sockets)
  {
    var st' := After(st, Issue(c, s), room);
    var n := |st.reqs|;
    forall r | 0 <= r < |st'.rings| ensures RingOk(st', r) {
      assert RingOk(st, r);
    }
    forall d | 0 <= d < |st'.callers| ensures CallerOk(st', d, sockets) {
      assert CallerOk(st, d, sockets) && CallerOk(st, c, sockets);
      forall u | 0 <= u < sockets
        ensures IssuedBy(st'.reqs, d, u) == IssuedBy(st.reqs, d, u) + if d == c && u == s then 1 else 0
        ensures DoneBy(st'.reqs, st'.place, d, u) == DoneBy(st.reqs, st.place, d, u)
      {
        NewCounts(st.reqs, st.place, Req(c, s), d, u);
      }
    }
    forall id | 0 <= id < |st'.reqs| ensures ReqOk(st', id, sockets) {
      assert CallerOk(st, c, sockets);
      assert id < n ==> ReqOk(st, id, sockets);
    }
  }

  lemma SendKeeps(st: State, c: nat, r: nat, sockets: nat, room: nat)
    requires Inv(st, sockets) && Enabled(st, Send(c, r), room)
    ensures Inv(After(st, Send(c, r), room), sockets)
  {
    hide RingOk, DoneBy, IssuedBy;
    var st' := After(st, Send(c, r), room);
    assert CallerOk(st, c, sockets);
    var id := st.callers[c].phase.id;
    SendRings(st, c, r, id, room);
    forall d | 0 <= d < |st'.callers| ensures CallerOk(st', d, sockets) {
      assert CallerOk(st, d, sockets);
      MovedCounts(st, id, Queued(r), d, sockets);
    }
    forall i | 0 <= i < |st'.reqs| ensures ReqOk(st', i, sockets) { assert ReqOk(st, i, sockets); }
  }

  lemma SendRings(st: State, c: nat, r: nat, id: nat, room: nat)
    requires |st.place| == |st.reqs| && forall q :: 0 <= q < |st.rings| ==> RingOk(st, q)
    requires Enabled(st, Send(c, r), room) && id == st.callers[c].phase.id && st.place[id] == Sending
    ensures
      var st' := After(st, Send(c, r), room);
      |st'.place| == |st'.reqs| && |st'.rings| == |st.rings| && forall q :: 0 <= q < |st'.rings| ==> RingOk(st', q)
  {
    var st' := After(st, Send(c, r), room);
    forall q | 0 <= q < |st'.rings| ensures RingOk(st', q) {
      assert RingOk(st, q);
      assert id !in st.rings[q].queue;
      if q == r {
        assert st'.rings[r].queue[|st.rings[r].queue|] == id;
        forall i | 0 <= i < |st'.place| && st'.place[i] == Queued(r) ensures i in st'.rings[r].queue { }
      }
    }
  }

  /** The request at the head of a ring, or in the hands of an agent. */
  lemma RingHolds(st: State, r: nat)
    requires |st.place| == |st.reqs| && r < |st.rings| && RingOk(st, r)
    ensures st.rings[r].queue != [] ==> st.rings[r].queue[0] < |st.place| && st.place[st.rings[r].queue[0]] == Queued(r)
    ensures st.rings[r].agent.Copying? ==>
            st.rings[r].agent.id < |st.place| && st.place[st.rings[r].agent.id] == Serving(r, false)
    ensures st.rings[r].agent.Copied? ==>
            st.rings[r].agent.id < |st.place| && st.place[st.rings[r].agent.id] == Serving(r, true)
  {
  }

  lemma MovedCounts(st: State, id: nat, p: Place, d: nat, sockets: nat)
    requires |st.place| == |st.reqs| && id < |st.reqs| && !st.place[id].Done? && !p.Done?
    ensures forall u :: 0 <= u < sockets ==> DoneBy(st.reqs, st.place[id := p], d, u) == DoneBy(st.reqs, st.place, d, u)
  {
    forall u | 0 <= u < sockets ensures DoneBy(st.reqs, st.place[id := p], d, u) == DoneBy(st.reqs, st.place, d, u) {
      MoveCounts(st.reqs, st.place, id, p, d, u);
    }
  }

  lemma ReceiveRings(st: State, r: nat, room: nat)
    requires |st.place| == |st.reqs| && (forall q :: 0 <= q < |st.rings| ==> RingOk(st, q))
    requires Enabled(st, Receive(r), room)
    ensures
      var st' := After(st, Receive(r), room);
      |st'.place| == |st'.reqs| && |st'.rings| == |st.rings| && forall q :: 0 <= q < |st'.rings| ==> RingOk(st', q)
  {
    var st' := After(st, Receive(r), room);
    assert RingOk(st, r);
    var queue := st.rings[r].queue;
    forall q | 0 <= q < |st'.rings| ensures RingOk(st', q) {
      assert RingOk(st, q);
      if q == r {
        forall i | 0 <= i < |st'.place| && st'.place[i] == Queued(r) ensures i in queue[1..] {
          var k :| 0 <= k < |queue| && queue[k] == i;
          assert queue[1..][k - 1] == i;
        }
      }
    }
  }

  lemma ReceiveKeeps(st: State, r: nat, sockets: nat, room: nat)
    requires Inv(st, sockets) && Enabled(st, Receive(r), room)
    ensures Inv(After(st, Receive(r), room), sockets)
  {
    hide RingOk, DoneBy, IssuedBy;
    var st' := After(st, Receive(r), room);
    RingHolds(st, r);
    var id := st.rings[r].queue[0];
    ReceiveRings(st, r, room);
    forall d | 0 <= d < |st'.callers| ensures CallerOk(st', d, sockets) {
      assert CallerOk(st, d, sockets);
      MovedCounts(st, id, Serving(r, false), d, sockets);
    }
    forall i | 0 <= i < |st'.reqs| ensures ReqOk(st', i, sockets) { assert ReqOk(st, i, sockets); }
  }

  lemma ServeRings(st: State, step: Step, room: nat)
    requires |st.place| == |st.reqs| && (forall q :: 0 <= q < |st.rings| ==> RingOk(st, q))
    requires Enabled(st, step, room) && (step.Copy? || step.Notify?)
    ensures
      var st' := After(st, step, room);
      |st'.place| == |st'.reqs| && |st'.rings| == |st.rings| && forall q :: 0 <= q < |st'.rings| ==> RingOk(st', q)
  {
    var st' := After(st, step, room);
    var r := step.r;
    var id := st.rings[r].agent.id;
    RingHolds(st, r);
    assert st'.place == st.place[id := if step.Copy? then Serving(r, true) else Done];
    assert st'.rings == st.rings[r := st.rings[r].(agent := if step.Copy? then Copied(id) else Idle)];
    hide RingOk, After;
    forall q | 0 <= q < |st'.rings| ensures RingOk(st', q) {
      ServeRing(st, st', r, id, q);
    }
  }

  lemma ServeRing(st: State, st': State, r: nat, id: nat, q: nat)
    requires |st.place| == |st.reqs| && |st'.place| == |st'.reqs| && r < |st.rings| && q < |st.rings| && RingOk(st, q)
    requires id < |st.place| && st.place[id].Serving? && st.place[id].ring == r
    requires RingOk(st, r) && !st.rings[r].agent.Idle? && st.rings[r].agent.id == id
    requires (st'.place == st.place[id := Serving(r, true)]
             && st'.rings == st.rings[r := st.rings[r].(agent := Copied(id))])
             || (st'.place == st.place[id := Done] && st'.rings == st.rings[r := st.rings[r].(agent := Idle)])
    ensures RingOk(st', q)
  {
  }

  lemma CopyKeeps(st: State, r: nat, sockets: nat, room: nat)
    requires Inv(st, sockets) && Enabled(st, Copy(r), room)
    ensures Inv(After(st, Copy(r), room), sockets)
  {
    hide RingOk, DoneBy, IssuedBy;
    var st' := After(st, Copy(r), room);
    RingHolds(st, r);
    var id := st.rings[r].agent.id;
    ServeRings(st, Copy(r), room);
    forall d | 0 <= d < |st'.callers| ensures CallerOk(st', d, sockets) {
      assert CallerOk(st, d, sockets);
      MovedCounts(st, id, Serving(r, true), d, sockets);
    }
    forall i | 0 <= i < |st'.reqs| ensures ReqOk(st', i, sockets) { assert ReqOk(st, i, sockets); }
  }

  lemma NotifyKeeps(st: State, r: nat, sockets: nat, room: nat)
    requires Inv(st, sockets) && Enabled(st, Notify(r), room)
    ensures Inv(After(st, Notify(r), room), sockets)
  {
    hide RingOk, DoneBy, IssuedBy, CallerOk;
    var st' := After(st, Notify(r), room);
    RingHolds(st, r);
    var id := st.rings[r].agent.id;
    assert ReqOk(st, id, sockets);
    ServeRings(st, Notify(r), room);
    forall d | 0 <= d < |st.callers| ensures CallerOk(st', d, sockets) {
      NotifyCaller(st, r, d, sockets, room);
    }
    NotifyShape(st, r, sockets, room);
    forall i | 0 <= i < |st'.reqs| ensures ReqOk(st', i, sockets) { assert ReqOk(st, i, sockets); }
  }

  lemma NotifyShape(st: State, r: nat, sockets: nat, room: nat)
    requires Enabled(st, Notify(r), room)
    ensures
      var st' := After(st, Notify(r), room);
      |st'.callers| == |st.callers| && st'.reqs == st.reqs && st'.performed == st.performed && |st'.place| == |st.place|
  {
  }

  lemma NotifyCaller(st: State, r: nat, d: nat, sockets: nat, room: nat)
    requires Inv(st, sockets) && Enabled(st, Notify(r), room) && d < |st.callers|
    ensures |After(st, Notify(r), room).place| == |After(st, Notify(r), room).reqs|
    ensures |After(st, Notify(r), room).callers| == |st.callers|
    ensures CallerOk(After(st, Notify(r), room), d, sockets)
  {
    hide RingOk, DoneBy, IssuedBy, Signed;
    RingHolds(st, r);
    var id := st.rings[r].agent.id;
    assert ReqOk(st, id, sockets);
    var c, s := st.reqs[id].caller, st.reqs[id].socket;
    assert CallerOk(st, c, sockets) && CallerOk(st, d, sockets);
    forall u | 0 <= u < sockets
      ensures DoneBy(st.reqs, st.place[id := Done], d, u) ==
                DoneBy(st.reqs, st.place, d, u) + if d == c && u == s then 1 else 0
    {
      MoveCounts(st.reqs, st.place, id, Done, d, u);
    }
    IncrementCounts(DoneBy(st.reqs, st.place, c, s));
  }

  lemma WaitKeeps(st: State, step: Step, sockets: nat, room: nat)
    requires Inv(st, sockets) && Enabled(st, step, room) && (step.BeginWait? || step.Check?)
    ensures Inv(After(st, step, room), sockets)
  {
    var st' := After(st, step, room);
    forall q | 0 <= q < |st'.rings| ensures RingOk(st', q) { assert RingOk(st, q); }
    forall d | 0 <= d < |st'.callers| ensures CallerOk(st', d, sockets) {
      assert CallerOk(st, d, sockets);
      if step.Check? && d == step.c {
        CheckSeesAll(st, d, sockets);
      }
    }
    forall i | 0 <= i < |st'.reqs| ensures ReqOk(st', i, sockets) { assert ReqOk(st, i, sockets); }
  }

  /** When the counter has reached the number issued, all requests on the socket are done, even
      if the counter could have wrapped. */
  lemma CheckSeesAll(st: State, c: nat, sockets: nat)
    requires Inv(st, sockets) && c < |st.callers| && st.callers[c].phase.Waiting?
    ensures |st.callers[c].issued| == |st.callers[c].cnt| == sockets
    ensures
      var x := st.callers[c];
      var i := x.phase.socket;
      (i < sockets && x.issued[i] == x.cnt[i] ==>
        forall id :: 0 <= id < |st.reqs| && From(st.reqs[id], c, i) ==> st.place[id].Done?)
      && forall id :: 0 <= id < |st.reqs| ==> st.reqs[id].socket < sockets
  {
    assert CallerOk(st, c, sockets);
    var i := st.callers[c].phase.socket;
    if i < sockets {
      DoneIsLess(st.reqs, st.place, c, i);
    }
    forall id | 0 <= id < |st.reqs| ensures st.reqs[id].socket < sockets { assert ReqOk(st, id, sockets); }
  }

  lemma StepKeeps(st: State, step: Step, sockets: nat, room: nat)
    requires Inv(st, sockets) && Enabled(st, step, room)
    ensures Inv(After(st, step, room), sockets)
  {
    match step
    case Issue(c, s) => IssueKeeps(st, c, s, sockets, room);
    case Send(c, r) => SendKeeps(st, c, r, sockets, room);
    case Receive(r) => ReceiveKeeps(st, r, sockets, room);
    case Copy(r) => CopyKeeps(st, r, sockets, room);
    case Notify(r) => NotifyKeeps(st, r, sockets, room);
    case BeginWait(_) => WaitKeeps(st, step, sockets, room);
    case Check(_) => WaitKeeps(st, step, sockets, room);
  }

  // ---------------------------------------------------------------- whole runs

  ghost predicate Start(st: State, sockets: nat) {
    && st.reqs == [] && st.place == [] && st.performed == []
    && (forall r :: 0 <= r < |st.rings| ==> st.rings[r].queue == [] && st.rings[r].agent == Idle)
    && (forall c :: 0 <= c < |st.callers| ==>
          st.callers[c].phase == Running && |st.callers[c].issued| == |st.callers[c].cnt| == sockets
          && forall s :: 0 <= s < sockets ==> st.callers[c].issued[s] == 0 && st.callers[c].cnt[s] == 0)
  }

  ghost predicate Run(states: seq<State>, steps: seq<Step>, sockets: nat, room: nat) {
    && |states| == |steps| + 1 && Start(states[0], sockets)
    && forall i :: 0 <= i < |steps| ==>
         Enabled(states[i], steps[i], room) && states[i + 1] == After(states[i], steps[i], room)
  }

  lemma {:induction false} RunKeepsInv(states: seq<State>, steps: seq<Step>, sockets: nat, room: nat)
    requires Run(states, steps, sockets, room)
    ensures Inv(states[|steps|], sockets)
    decreases |steps|
  {
    if steps != [] {
      var n := |steps| - 1;
      assert Run(states[..n + 1], steps[..n], sockets, room);
      RunKeepsInv(states[..n + 1], steps[..n], sockets, room);
      StepKeeps(states[n], steps[n], sockets, room);
    } else {
      assert Start(states[0], sockets);
    }
  }

  predicate IsQueued(p: Place) {
    p.Queued?
  }

  predicate IsServing(p: Place) {
    p.Serving?
  }

  predicate IsSending(p: Place) {
    p.Sending?
  }

  /** How many requests of a caller on a socket are in a place. */
  function CountIn(reqs: seq<Req>, place: seq<Place>, c: nat, s: nat, kind: Place -> bool): nat
    requires |place| == |reqs|
  {
    if reqs == [] then 0
    else
      var n := |reqs| - 1;
      CountIn(reqs[..n], place[..n], c, s, kind) + if From(reqs[n], c, s) && kind(place[n]) then 1 else 0
  }

  lemma {:induction false} PlacesCount(reqs: seq<Req>, place: seq<Place>, c: nat, s: nat)
    requires |place| == |reqs|
    ensures IssuedBy(reqs, c, s) ==
      DoneBy(reqs, place, c, s) + CountIn(reqs, place, c, s, IsQueued)
      + CountIn(reqs, place, c, s, IsServing) + CountIn(reqs, place, c, s, IsSending)
  {
    if reqs != [] {
      PlacesCount(reqs[..|reqs| - 1], place[..|reqs| - 1], c, s);
    }
  }

  /** What every state of every run satisfies. */
  ghost predicate Safe(st: State, sockets: nat) {
    && |st.place| == |st.reqs| == |st.performed|
    && (forall c, s :: 0 <= c < |st.callers| && 0 <= s < sockets ==> Balanced(st, c, s))
    && (forall id :: 0 <= id < |st.reqs| ==> st.performed[id] <= 1)
    && (forall id :: 0 <= id < |st.reqs| ==>
          st.reqs[id].caller < |st.callers|
            && (Passed(st.callers[st.reqs[id].caller].phase, st.reqs[id].socket) ==> st.performed[id] == 1))
  }

  /** Issued is completed, queued, in service, or just being sent by a caller that does not wait. */
  ghost predicate Balanced(st: State, c: nat, s: nat)
    requires |st.place| == |st.reqs| && c < |st.callers|
  {
    var x := st.callers[c];
    var sending := CountIn(st.reqs, st.place, c, s, IsSending);
    && s < |x.issued| && s < |x.cnt|
    && x.issued[s] == DoneBy(st.reqs, st.place, c, s) + CountIn(st.reqs, st.place, c, s, IsQueued)
                      + CountIn(st.reqs, st.place, c, s, IsServing) + sending
    && x.cnt[s] == Signed(DoneBy(st.reqs, st.place, c, s))
    && (!x.phase.Issuing? ==> sending == 0)
  }

  lemma {:induction false} NoneSending(reqs: seq<Req>, place: seq<Place>, c: nat, s: nat)
    requires |place| == |reqs| && forall id :: 0 <= id < |reqs| && reqs[id].caller == c ==> !place[id].Sending?
    ensures CountIn(reqs, place, c, s, IsSending) == 0
  {
    if reqs != [] {
      var n := |reqs| - 1;
      assert forall id :: 0 <= id < n ==> reqs[..n][id] == reqs[id] && place[..n][id] == place[id];
      NoneSending(reqs[..n], place[..n], c, s);
    }
  }

  /** In every run: the counts balance, no copy is performed twice, and a caller that has passed
      a socket, or returned, finds each of its copies there performed exactly once. */
  lemma EveryRunIsSafe(states: seq<State>, steps: seq<Step>, sockets: nat, room: nat)
    requires Run(states, steps, sockets, room)
    ensures Safe(states[|steps|], sockets)
  {
    var st := states[|steps|];
    RunKeepsInv(states, steps, sockets, room);
    forall c, s | 0 <= c < |st.callers| && 0 <= s < sockets ensures Balanced(st, c, s) {
      assert CallerOk(st, c, sockets);
      PlacesCount(st.reqs, st.place, c, s);
      if !st.callers[c].phase.Issuing? {
        NoneSending(st.reqs, st.place, c, s);
      }
    }
    forall id | 0 <= id < |st.reqs|
      ensures st.performed[id] <= 1 && st.reqs[id].caller < |st.callers|
      ensures Passed(st.callers[st.reqs[id].caller].phase, st.reqs[id].socket) ==> st.performed[id] == 1
    {
      assert ReqOk(st, id, sockets);
      assert CallerOk(st, st.reqs[id].caller, sockets);
    }
  }

  // ---------------------------------------------------------------- in which order, and where

  /** The request that a step puts on ring r, if it does. */
  function NewlySent(st: State, step: Step, r: nat): seq<nat> {
    if step.Send? && step.ring == r && step.c < |st.callers| && st.callers[step.c].phase.Issuing?
    then [st.callers[step.c].phase.id] else []
  }

  /** The request that the agent of ring r has in its hands after a step that gave it to it. */
  function NewlyTaken(step: Step, z: State, r: nat): seq<nat> {
    if step == Receive(r) && r < |z.rings| && z.rings[r].agent.Copying? then [z.rings[r].agent.id] else []
  }

  /** The requests that a run has put on ring r, in order, and those that its agent has taken. */
  ghost function SentTo(states: seq<State>, steps: seq<Step>, r: nat): seq<nat>
    requires |states| == |steps| + 1
  {
    if steps == [] then []
    else
      var n := |steps| - 1;
      SentTo(states[..n + 1], steps[..n], r) + NewlySent(states[n], steps[n], r)
  }

  ghost function TakenBy(states: seq<State>, steps: seq<Step>, r: nat): seq<nat>
    requires |states| == |steps| + 1
  {
    if steps == [] then []
    else
      var n := |steps| - 1;
      TakenBy(states[..n + 1], steps[..n], r) + NewlyTaken(steps[n], states[n + 1], r)
  }

  /** An agent takes the requests of its ring in the order in which they were put there, and those that are left
      are in the ring. */
  lemma {:induction false} FirstInFirstOut(states: seq<State>, steps: seq<Step>, sockets: nat, room: nat, r: nat)
    requires Run(states, steps, sockets, room) && r < |states[0].rings|
    ensures |states[|steps|].rings| == |states[0].rings|
    ensures SentTo(states, steps, r) == TakenBy(states, steps, r) + states[|steps|].rings[r].queue
    decreases |steps|
  {
    hide After, Enabled, NewlySent, NewlyTaken;
    if steps == [] {
      assert Start(states[0], sockets);
    } else {
      var n := |steps| - 1;
      assert Run(states[..n + 1], steps[..n], sockets, room);
      FirstInFirstOut(states[..n + 1], steps[..n], sockets, room, r);
      QueueMoves(states[n], steps[n], room, r);
      var sent, taken := SentTo(states[..n + 1], steps[..n], r), TakenBy(states[..n + 1], steps[..n], r);
      assert sent + NewlySent(states[n], steps[n], r)
          == taken + (states[n].rings[r].queue + NewlySent(states[n], steps[n], r));
    }
  }

  /** What one step does to a ring. */
  lemma QueueMoves(st: State, step: Step, room: nat, r: nat)
    requires Enabled(st, step, room) && r < |st.rings|
    ensures
      var z := After(st, step, room);
      && |z.rings| == |st.rings|
      && st.rings[r].queue + NewlySent(st, step, r) == NewlyTaken(step, z, r) + z.rings[r].queue
  {
  }

  /** Every request on a ring, or in the hands of its agent, is one for the socket of the ring. */
  ghost predicate AtItsSocket(st: State, id: nat)
    requires |st.place| == |st.reqs| && id < |st.reqs|
  {
    st.place[id].Queued? || st.place[id].Serving? ==>
      st.place[id].ring < |st.rings| && st.rings[st.place[id].ring].socket == st.reqs[id].socket
  }

  ghost predicate AllAtTheirSockets(st: State) {
    |st.place| == |st.reqs| && forall id :: 0 <= id < |st.reqs| ==> AtItsSocket(st, id)
  }

  lemma {:induction false} CopiedOnItsSocket(states: seq<State>, steps: seq<Step>, sockets: nat, room: nat)
    requires Run(states, steps, sockets, room)
    ensures AllAtTheirSockets(states[|steps|])
    decreases |steps|
  {
    RunKeepsInv(states, steps, sockets, room);
    if steps == [] {
      assert Start(states[0], sockets);
    } else {
      var n := |steps| - 1;
      assert Run(states[..n + 1], steps[..n], sockets, room);
      CopiedOnItsSocket(states[..n + 1], steps[..n], sockets, room);
      RunKeepsInv(states[..n + 1], steps[..n], sockets, room);
      var z := states[n + 1];
      forall id | 0 <= id < |z.reqs|
        ensures AtItsSocket(z, id)
      {
        SocketStays(states[n], steps[n], sockets, room, id);
      }
    }
  }

  lemma SocketStays(st: State, step: Step, sockets: nat, room: nat, id: nat)
    requires Inv(st, sockets) && Enabled(st, step, room) && id < |After(st, step, room).reqs| && AllAtTheirSockets(st)
    ensures |After(st, step, room).place| == |After(st, step, room).reqs| && AtItsSocket(After(st, step, room), id)
  {
    if id < |st.reqs| { assert AtItsSocket(st, id); }
    if step.Receive? || step.Copy? || step.Notify? {
      RingHolds(st, step.r);
    }
    if step.Send? {
      assert CallerOk(st, step.c, sockets);
    }
  }

  // ---------------------------------------------------------------- nobody waits for ever

  /** As long as a request is queued or in service, some agent can go on. */
  lemma SomeAgentMoves(st: State, id: nat, sockets: nat, room: nat)
    requires Inv(st, sockets) && id < |st.reqs| && (st.place[id].Queued? || st.place[id].Serving?)
    ensures
      var r := st.place[id].ring;
      Enabled(st, Receive(r), room) || Enabled(st, Copy(r), room) || Enabled(st, Notify(r), room)
  {
    assert ReqOk(st, id, sockets);
    assert RingOk(st, st.place[id].ring);
  }

  /** How many agent steps a request still needs. */
  function Work(p: Place): nat {
    match p
    case Sending => 3
    case Queued(_) => 3
    case Serving(_, copied) => if copied then 1 else 2
    case Done => 0
  }

  function AllWork(place: seq<Place>): nat {
    if place == [] then 0 else AllWork(place[..|place| - 1]) + Work(place[|place| - 1])
  }

  lemma {:induction false} WorkMoves(place: seq<Place>, id: nat, p: Place)
    requires id < |place|
    ensures AllWork(place[id := p]) == AllWork(place) - Work(place[id]) + Work(p)
    decreases |place|
  {
    var n := |place| - 1;
    if id < n {
      WorkMoves(place[..n], id, p);
      assert place[id := p][..n] == place[..n][id := p];
    } else {
      assert place[id := p][..n] == place[..n];
    }
  }

  /** Every agent step brings some request nearer to its end. */
  lemma AgentsFinish(st: State, step: Step, sockets: nat, room: nat)
    requires Inv(st, sockets) && Enabled(st, step, room) && (step.Receive? || step.Copy? || step.Notify?)
    ensures AllWork(After(st, step, room).place) == AllWork(st.place) - 1
  {
    assert RingOk(st, step.r);
    var ring := st.rings[step.r];
    if step.Receive? {
      WorkMoves(st.place, ring.queue[0], Serving(step.r, false));
    } else if step.Copy? {
      WorkMoves(st.place, ring.agent.id, Serving(step.r, true));
    } else {
      WorkMoves(st.place, ring.agent.id, Done);
    }
  }

  /** When nothing is queued or in service, a caller that waits on a socket passes it if and only if
      it has issued fewer than 2^31 requests there: the completion counter is signed and wraps, and
      a larger count never equals it. */
  lemma QuietMeansPassed(st: State, c: nat, sockets: nat, room: nat)
    requires Inv(st, sockets) && Enabled(st, Check(c), room) && st.callers[c].phase.socket < sockets
    requires forall id :: 0 <= id < |st.reqs| ==> !st.place[id].Queued? && !st.place[id].Serving?
    ensures st.callers[c].phase.socket < |st.callers[c].issued|
    ensures After(st, Check(c), room).callers[c].phase == Waiting(st.callers[c].phase.socket + 1)
            <==> st.callers[c].issued[st.callers[c].phase.socket] < 0x8000_0000
  {
    assert CallerOk(st, c, sockets);
    var i := st.callers[c].phase.socket;
    DoneIsLess(st.reqs, st.place, c, i);
    forall id | 0 <= id < |st.reqs| && From(st.reqs[id], c, i)
      ensures st.place[id].Done?
    {
      assert st.place[id] != Sending;
    }
  }

  /** The step changes something, and is not a new request. */
  predicate Moves(st: State, step: Step, room: nat) {
    !step.Issue? && Enabled(st, step, room) && After(st, step, room) != st
  }

  /** How many steps a caller still needs. */
  function Weight(x: Caller, sockets: nat): nat {
    match x.phase
    case Issuing(_) => sockets + 3
    case Running => sockets + 2
    case Waiting(i) => if i < sockets then sockets - i + 1 else 1
    case Returned => 0
  }

  function AllWeight(callers: seq<Caller>, sockets: nat): nat {
    if callers == [] then 0
    else AllWeight(callers[..|callers| - 1], sockets) + Weight(callers[|callers| - 1], sockets)
  }

  lemma {:induction false} WeightMoves(callers: seq<Caller>, c: nat, x: Caller, sockets: nat)
    requires c < |callers|
    ensures AllWeight(callers[c := x], sockets) ==
              AllWeight(callers, sockets) - Weight(callers[c], sockets) + Weight(x, sockets)
    decreases |callers|
  {
    var n := |callers| - 1;
    if c < n {
      WeightMoves(callers[..n], c, x, sockets);
      assert callers[c := x][..n] == callers[..n][c := x];
    } else {
      assert callers[c := x][..n] == callers[..n];
    }
  }

  /** What is left to do if no new request is issued. */
  function Left(st: State, sockets: nat): nat {
    AllWork(st.place) + AllWeight(st.callers, sockets)
  }

  lemma AgentsLower(st: State, step: Step, sockets: nat, room: nat)
    requires Inv(st, sockets) && Enabled(st, step, room) && (step.Receive? || step.Copy? || step.Notify?)
    ensures Left(After(st, step, room), sockets) < Left(st, sockets)
  {
    AgentsFinish(st, step, sockets, room);
    assert RingOk(st, step.r);
    if step.Notify? {
      var id := st.rings[step.r].agent.id;
      assert ReqOk(st, id, sockets);
      var c, s := st.reqs[id].caller, st.reqs[id].socket;
      assert CallerOk(st, c, sockets);
      WeightMoves(st.callers, c, After(st, step, room).callers[c], sockets);
    }
  }

  lemma CallersLower(st: State, step: Step, sockets: nat, room: nat)
    requires Inv(st, sockets) && Moves(st, step, room) && (step.Send? || step.BeginWait? || step.Check?)
    ensures Left(After(st, step, room), sockets) < Left(st, sockets)
  {
    assert CallerOk(st, step.c, sockets);
    WeightMoves(st.callers, step.c, After(st, step, room).callers[step.c], sockets);
    if step.Send? {
      var id := st.callers[step.c].phase.id;
      WorkMoves(st.place, id, Queued(step.ring));
    }
  }

  lemma MovesLower(st: State, step: Step, sockets: nat, room: nat)
    requires Inv(st, sockets) && Moves(st, step, room)
    ensures Inv(After(st, step, room), sockets) && Left(After(st, step, room), sockets) < Left(st, sockets)
  {
    StepKeeps(st, step, sockets, room);
    if step.Receive? || step.Copy? || step.Notify? {
      AgentsLower(st, step, sockets, room);
    } else {
      CallersLower(st, step, sockets, room);
    }
  }

  /** Every socket has a ring. */
  ghost predicate Served(st: State, sockets: nat) {
    forall s: nat :: s < sockets ==> HasRing(st, s)
  }

  ghost predicate HasRing(st: State, s: nat) {
    exists r :: 0 <= r < |st.rings| && st.rings[r].socket == s
  }

  lemma StillServed(st: State, step: Step, sockets: nat, room: nat)
    requires Enabled(st, step, room) && Served(st, sockets)
    ensures Served(After(st, step, room), sockets)
  {
    var z := After(st, step, room);
    forall s: nat | s < sockets
      ensures HasRing(z, s)
    {
      assert HasRing(st, s);
      var r :| 0 <= r < |st.rings| && st.rings[r].socket == s;
      assert z.rings[r].socket == s;
    }
  }

  ghost predicate Quiet(st: State, room: nat) {
    forall step :: !Moves(st, step, room)
  }

  /** Nothing is queued or in service, and then nothing is being sent. */
  lemma QuietMeansDone(st: State, id: nat, sockets: nat, room: nat)
    requires Inv(st, sockets) && Served(st, sockets) && room > 0 && Quiet(st, room) && id < |st.reqs|
    ensures st.place[id].Done? && st.performed[id] == 1
  {
    assert ReqOk(st, id, sockets);
    forall i | 0 <= i < |st.reqs|
      ensures !st.place[i].Queued? && !st.place[i].Serving?
    {
      if st.place[i].Queued? || st.place[i].Serving? {
        var r := st.place[i].ring;
        SomeAgentMoves(st, i, sockets, room);
        var step := if Enabled(st, Receive(r), room) then Receive(r)
                    else if Enabled(st, Copy(r), room) then Copy(r) else Notify(r);
        AgentsLower(st, step, sockets, room);
        assert Moves(st, step, room);
      }
    }
    if st.place[id].Sending? {
      SendMoves(st, id, sockets, room);
    }
  }

  lemma FirstIsQueued(st: State, r: nat)
    requires |st.place| == |st.reqs| && r < |st.rings| && RingOk(st, r)
    ensures st.rings[r].queue != [] ==>
              st.rings[r].queue[0] < |st.place| && st.place[st.rings[r].queue[0]] == Queued(r)
  {
  }

  lemma SendMoves(st: State, id: nat, sockets: nat, room: nat)
    requires Inv(st, sockets) && Served(st, sockets) && room > 0 && id < |st.reqs| && st.place[id].Sending?
    requires forall i :: 0 <= i < |st.reqs| ==> !st.place[i].Queued?
    ensures !Quiet(st, room)
  {
    assert ReqOk(st, id, sockets);
    var c, s := st.reqs[id].caller, st.reqs[id].socket;
    assert CallerOk(st, c, sockets);
    assert HasRing(st, s);
    var r :| 0 <= r < |st.rings| && st.rings[r].socket == s;
    assert RingOk(st, r);
    FirstIsQueued(st, r);
    assert After(st, Send(c, r), room).callers[c].phase == Running;
    assert Moves(st, Send(c, r), room);
  }

  /** Then the callers that have not returned are those that wait for too many requests. */
  lemma QuietMeansReturned(st: State, c: nat, sockets: nat, room: nat)
    requires Inv(st, sockets) && Served(st, sockets) && room > 0 && Quiet(st, room) && c < |st.callers|
    ensures st.callers[c].phase == Returned || TooMany(st.callers[c])
  {
    assert CallerOk(st, c, sockets);
    forall id | 0 <= id < |st.reqs|
      ensures st.place[id].Done?
    {
      QuietMeansDone(st, id, sockets, room);
    }
    var x := st.callers[c];
    match x.phase
    case Running =>
      assert After(st, BeginWait(c), room).callers[c].phase == Waiting(0);
      assert Moves(st, BeginWait(c), room);
    case Issuing(_) =>
    case Waiting(i) =>
      if i < sockets {
        QuietMeansPassed(st, c, sockets, room);
      } else {
        assert After(st, Check(c), room).callers[c].phase == Returned;
      }
      assert !Moves(st, Check(c), room);
    case Returned =>
  }

  /** The caller waits on a socket on which it has issued more requests than the counter counts. */
  predicate TooMany(x: Caller) {
    x.phase.Waiting? && x.phase.socket < |x.issued| && x.issued[x.phase.socket] >= 0x8000_0000
  }

  /** Steps that each change something, without a new request. */
  ghost predicate Going(states: seq<State>, steps: seq<Step>, room: nat) {
    && |states| == |steps| + 1
    && forall i :: 0 <= i < |steps| ==>
         Moves(states[i], steps[i], room) && states[i + 1] == After(states[i], steps[i], room)
  }

  lemma {:induction false} StepsAreFinite(states: seq<State>, steps: seq<Step>, sockets: nat, room: nat)
    requires Going(states, steps, room) && Inv(states[0], sockets) && Served(states[0], sockets)
    ensures |steps| + Left(states[|steps|], sockets) <= Left(states[0], sockets)
    ensures Inv(states[|steps|], sockets) && Served(states[|steps|], sockets)
    decreases |steps|
  {
    if steps != [] {
      var n := |steps| - 1;
      assert Going(states[..n + 1], steps[..n], room);
      StepsAreFinite(states[..n + 1], steps[..n], sockets, room);
      MovesLower(states[n], steps[n], sockets, room);
      StillServed(states[n], steps[n], sockets, room);
    }
  }

  /** Nobody waits for ever: from every state that a run reaches, once no new request is issued,
      every schedule of steps that change something is bounded, and when it cannot be continued every
      copy has been performed exactly once, and every caller has returned but for those that wait on
      a socket on which they have issued 2^31 requests or more. */
  lemma EveryCallerReturns(before: seq<State>, first: seq<Step>, states: seq<State>, steps: seq<Step>,
                           sockets: nat, room: nat)
    requires room > 0 && Run(before, first, sockets, room) && Going(states, steps, room)
    requires states[0] == before[|first|] && Served(states[0], sockets)
    ensures |steps| <= Left(states[0], sockets)
    ensures
      var z := states[|steps|];
      || !Quiet(z, room)
      || (&& |z.performed| == |z.reqs| && (forall id :: 0 <= id < |z.reqs| ==> z.performed[id] == 1)
          && forall c :: 0 <= c < |z.callers| ==> z.callers[c].phase == Returned || TooMany(z.callers[c]))
  {
    RunKeepsInv(before, first, sockets, room);
    StepsAreFinite(states, steps, sockets, room);
    var z := states[|steps|];
    if Quiet(z, room) {
      forall id | 0 <= id < |z.reqs|
        ensures z.performed[id] == 1
      {
        QuietMeansDone(z, id, sockets, room);
      }
      forall c | 0 <= c < |z.callers|
        ensures z.callers[c].phase == Returned || TooMany(z.callers[c])
      {
        QuietMeansReturned(z, c, sockets, room);
      }
    }
  }

  // ---------------------------------------------------------------- a caller that waits for ever

  function Same<T>(n: nat, x: T): (xs: seq<T>)
    ensures |xs| == n && forall i :: 0 <= i < n ==> xs[i] == x
  {
    if n == 0 then [] else Same(n - 1, x) + [x]
  }

  /** One caller, one socket and one ring; n requests are done. */
  function Resting(n: nat): State {
    State([Caller(Running, [n], [Signed(n)])], [Ring(0, [], Idle)], Same(n, Req(0, 0)), Same(n, Done), Same(n, 1))
  }

  /** And one more is on its way. */
  function Busy(n: nat, phase: Phase, ring: Ring, place: Place, performed: nat): State {
    State([Caller(phase, [n + 1], [Signed(n)])], [ring],
          Same(n, Req(0, 0)) + [Req(0, 0)], Same(n, Done) + [place], Same(n, 1) + [performed])
  }

  lemma LastBecomes<T>(xs: seq<T>, x: T, y: T)
    ensures (xs + [x])[|xs| := y] == xs + [y]
  {
  }

  lemma Issued(n: nat, room: nat)
    ensures After(Resting(n), Issue(0, 0), room) == Busy(n, Issuing(n), Ring(0, [], Idle), Sending, 0)
  {
    var z := After(Resting(n), Issue(0, 0), room);
    assert [n][0 := n + 1] == [n + 1];
    assert z.callers == [Caller(Issuing(n), [n + 1], [Signed(n)])];
  }

  lemma Sent(n: nat, room: nat)
    requires room > 0
    ensures Enabled(Busy(n, Issuing(n), Ring(0, [], Idle), Sending, 0), Send(0, 0), room)
    ensures After(Busy(n, Issuing(n), Ring(0, [], Idle), Sending, 0), Send(0, 0), room)
            == Busy(n, Running, Ring(0, [n], Idle), Queued(0), 0)
  {
    var z := After(Busy(n, Issuing(n), Ring(0, [], Idle), Sending, 0), Send(0, 0), room);
    assert [] + [n] == [n];
    assert z.callers == [Caller(Running, [n + 1], [Signed(n)])] && z.rings == [Ring(0, [n], Idle)];
    LastBecomes(Same(n, Done), Sending, Queued(0));
  }

  lemma Received(n: nat, room: nat)
    ensures After(Busy(n, Running, Ring(0, [n], Idle), Queued(0), 0), Receive(0), room)
            == Busy(n, Running, Ring(0, [], Copying(n)), Serving(0, false), 0)
  {
    var z := After(Busy(n, Running, Ring(0, [n], Idle), Queued(0), 0), Receive(0), room);
    assert [n][1..] == [] && z.rings == [Ring(0, [], Copying(n))];
    LastBecomes(Same(n, Done), Queued(0), Serving(0, false));
  }

  lemma Performed(n: nat, room: nat)
    ensures After(Busy(n, Running, Ring(0, [], Copying(n)), Serving(0, false), 0), Copy(0), room)
            == Busy(n, Running, Ring(0, [], Copied(n)), Serving(0, true), 1)
  {
    var z := After(Busy(n, Running, Ring(0, [], Copying(n)), Serving(0, false), 0), Copy(0), room);
    assert z.rings == [Ring(0, [], Copied(n))];
    LastBecomes(Same(n, Done), Serving(0, false), Serving(0, true));
    LastBecomes(Same(n, 1), 0, 1);
  }

  lemma Reported(n: nat, room: nat)
    ensures After(Busy(n, Running, Ring(0, [], Copied(n)), Serving(0, true), 1), Notify(0), room) == Resting(n + 1)
  {
    var z := After(Busy(n, Running, Ring(0, [], Copied(n)), Serving(0, true), 1), Notify(0), room);
    IncrementCounts(n);
    assert [Signed(n)][0 := Signed(n + 1)] == [Signed(n + 1)];
    assert z.callers == [Caller(Running, [n + 1], [Signed(n + 1)])] && z.rings == [Ring(0, [], Idle)];
    LastBecomes(Same(n, Done), Serving(0, true), Done);
  }

  lemma Extend(states: seq<State>, steps: seq<Step>, step: Step, z: State, sockets: nat, room: nat)
    returns (states': seq<State>, steps': seq<Step>)
    requires Run(states, steps, sockets, room) && |states| == |steps| + 1
    requires Enabled(states[|steps|], step, room) && After(states[|steps|], step, room) == z
    ensures Run(states', steps', sockets, room) && |states'| == |steps'| + 1 && states'[|steps'|] == z
  {
    states', steps' := states + [z], steps + [step];
  }

  /** A request is issued, sent, received, performed and reported. */
  lemma OneMore(states: seq<State>, steps: seq<Step>, n: nat, room: nat)
    returns (states': seq<State>, steps': seq<Step>)
    requires Run(states, steps, 1, room) && |states| == |steps| + 1 && states[|steps|] == Resting(n) && room > 0
    ensures Run(states', steps', 1, room) && |states'| == |steps'| + 1 && states'[|steps'|] == Resting(n + 1)
  {
    hide Run, After;
    Issued(n, room);
    Sent(n, room);
    Received(n, room);
    Performed(n, room);
    Reported(n, room);
    states', steps' := Extend(states, steps, Issue(0, 0), Busy(n, Issuing(n), Ring(0, [], Idle), Sending, 0), 1, room);
    states', steps' :=
      Extend(states', steps', Send(0, 0), Busy(n, Running, Ring(0, [n], Idle), Queued(0), 0), 1, room);
    states', steps' :=
      Extend(states', steps', Receive(0), Busy(n, Running, Ring(0, [], Copying(n)), Serving(0, false), 0), 1, room);
    states', steps' :=
      Extend(states', steps', Copy(0), Busy(n, Running, Ring(0, [], Copied(n)), Serving(0, true), 1), 1, room);
    states', steps' := Extend(states', steps', Notify(0), Resting(n + 1), 1, room);
  }

  lemma {:induction false} ManyMore(n: nat, room: nat) returns (states: seq<State>, steps: seq<Step>)
    requires room > 0
    ensures Run(states, steps, 1, room) && |states| == |steps| + 1 && states[|steps|] == Resting(n)
  {
    if n == 0 {
      states, steps := [Resting(0)], [];
    } else {
      states, steps := ManyMore(n - 1, room);
      states, steps := OneMore(states, steps, n - 1, room);
    }
  }

  /** A caller that waits for 2^31 requests or more on one socket, all of them done. */
  function Stuck(n: nat): State {
    State([Caller(Waiting(0), [n], [Signed(n)])], [Ring(0, [], Idle)], Same(n, Req(0, 0)), Same(n, Done), Same(n, 1))
  }

  lemma StuckIsQuiet(n: nat, room: nat)
    requires n >= 0x8000_0000
    ensures Quiet(Stuck(n), room)
  {
    hide Same;
    assert Signed(n) != n;
  }

  /** After 2^31 requests on one socket a caller begins to wait: all are done, nothing can move any
      more, and the caller has not returned. */
  lemma SomeoneWaitsForEver(room: nat) returns (states: seq<State>, steps: seq<Step>)
    requires room > 0
    ensures Run(states, steps, 1, room) && |states| == |steps| + 1 && Quiet(states[|steps|], room)
    ensures |states[|steps|].callers| == 1 && states[|steps|].callers[0].phase == Waiting(0)
  {
    hide Run, Quiet, Same;
    var n := 0x8000_0000;
    states, steps := ManyMore(n, room);
    assert After(Resting(n), BeginWait(0), room).callers == Stuck(n).callers;
    states, steps := Extend(states, steps, BeginWait(0), Stuck(n), 1, room);
    StuckIsQuiet(n, room);
  }
}
