/** The combining request queue of the delegation ring buffer, as a step machine.

    Callers append a request to a linked list by swapping the shared tail pointer.
    The caller that finds the list empty becomes the combiner and executes the
    operations of the others, at most MAX_COMBINING of them, before it hands its
    role to the next waiter.  Every shared-memory access of ask_request,
    wait_until_done and ring_buffer_op is one atomic step, and a schedule is an
    arbitrary interleaving of the steps of all callers.

    A request (and the thread that waits for it) is named by the rank of its tail
    swap: when n requests have arrived, the names in use are 0..n.
 */
module CombiningQueue {
  import opened Common

  const MAX_COMBINING: nat := 128

  /** What a thread does next.  `left` is the counter of the combining loop. */
  datatype Pc =
    | Linking(prev: nat)                     // write prev.next
    | Waiting                                // poll the DONE and COMBINER flags of the own request
    | Exec(cur: nat, left: nat)              // execute the operation of cur
    | Check(cur: nat, left: nat)             // read cur.next
    | Swing(cur: nat, left: nat)             // compare-and-swap the tail from cur to null
    | Spin(cur: nat, left: nat)              // re-read cur.next until it is set
    | Release(cur: nat, left: nat, nxt: nat) // set DONE of cur and go on with nxt
    | ReleaseLast(cur: nat)                  // set DONE of cur and return
    | HandOver(cur: nat)                     // set COMBINER of cur and return
    | Returned
  {
    /** The thread holds the combiner role. */
    predicate Combines() {
      Exec? || Check? || Swing? || Spin? || Release? || HandOver?
    }

    /** The thread has executed cur but has not yet unlinked it. */
    predicate HasExecuted() {
      Check? || Swing? || Spin? || Release?
    }
  }

  /** The last five fields are history: no step reads them. */
  datatype State = State(
    tail: Option<nat>,
    next: seq<Option<nat>>,
    done: seq<bool>,
    combiner: seq<bool>,
    pc: seq<Pc>,
    log: seq<nat>,       // requests in the order in which they were executed
    retired: nat,        // how many requests have left the list
    role: Option<nat>,   // the thread that combines, if any
    served: seq<nat>,    // how many requests each thread has executed
    releaser: seq<nat>)  // who sets, or has set, the DONE flag of a retired request

  const INIT := State(None, [], [], [], [], [], 0, None, [], [])

  datatype Event = Arrive | Run(thread: nat)

  /** Every request has its own next pointer, flags and thread. */
  predicate WellSized(s: State) {
    && |s.next| == |s.done| == |s.combiner| == |s.served| == |s.releaser| == |s.pc|
    && forall t :: 0 <= t < |s.pc| ==>
         match s.pc[t]
         case Linking(o) => o < |s.pc|
         case Exec(c, _) => c < |s.pc|
         case Check(c, _) => c < |s.pc|
         case Swing(c, _) => c < |s.pc|
         case Spin(c, _) => c < |s.pc|
         case Release(c, _, n) => c < |s.pc| && n < |s.pc|
         case ReleaseLast(c) => c < |s.pc|
         case HandOver(c) => c < |s.pc|
         case _ => true
  }

  /** A new caller swaps its request into the tail. */
  function DoArrive(s: State): State {
    var t := |s.pc|;
    s.(tail := Some(t),
       next := s.next + [None],
       done := s.done + [false],
       combiner := s.combiner + [false],
       pc := s.pc + [if s.tail.None? then Exec(t, MAX_COMBINING - 1) else Linking(s.tail.value)],
       role := if s.tail.None? then Some(t) else s.role,
       served := s.served + [0],
       releaser := s.releaser + [0])
  }

  /** One step of thread t; a thread that waits in vain or has returned does not move. */
  function DoRun(s: State, t: nat): State
    requires WellSized(s) && t < |s.pc|
  {
    match s.pc[t]
    case Linking(o) =>
      s.(next := s.next[o := Some(t)], pc := s.pc[t := Waiting])
    case Waiting =>
      if s.done[t] then s.(pc := s.pc[t := Returned])
      else if s.combiner[t] then s.(pc := s.pc[t := Exec(t, MAX_COMBINING - 1)], role := Some(t))
      else s
    case Exec(c, left) =>
      s.(log := s.log + [c], served := s.served[t := s.served[t] + 1], pc := s.pc[t := Check(c, left)])
    case Check(c, left) =>
      s.(pc := s.pc[t := if s.next[c].Some? then Release(c, left, s.next[c].value) else Swing(c, left)])
    case Swing(c, left) =>
      if s.tail == Some(c)
      then s.(tail := None, pc := s.pc[t := ReleaseLast(c)], retired := s.retired + 1, role := None,
              releaser := s.releaser[c := t])
      else s.(pc := s.pc[t := Spin(c, left)])
    case Spin(c, left) =>
      if s.next[c].Some? then s.(pc := s.pc[t := Release(c, left, s.next[c].value)]) else s
    case Release(c, left, n) =>
      s.(done := s.done[c := true],
         pc := s.pc[t := if left > 0 then Exec(n, left - 1) else HandOver(n)],
         retired := s.retired + 1,
         releaser := s.releaser[c := t])
    case ReleaseLast(c) =>
      s.(done := s.done[c := true], pc := s.pc[t := Returned])
    case HandOver(c) =>
      s.(combiner := s.combiner[c := true], pc := s.pc[t := Returned], role := None)
    case Returned => s
  }

  // ---------------------------------------------------------------- the invariant

  /** Requests 0..n in that order: the order of the tail swaps. */
  function UpTo(n: nat): (r: seq<nat>)
    ensures |r| == n && forall i :: 0 <= i < n ==> r[i] == i
  {
    seq(n, i => i)
  }

  /** Request c is linked behind its predecessor. */
  predicate Linked(s: State, c: nat)
    requires WellSized(s)
  {
    0 < c < |s.pc| && s.next[c - 1] == Some(c)
  }

  /** What holds of request t and of the thread that waits for it. */
  ghost predicate Ok(s: State, t: nat)
    requires WellSized(s) && t < |s.pc|
  {
    && (s.done[t] ==> t < s.retired)
    && (t < s.retired && !s.done[t] ==> s.releaser[t] < |s.pc| && s.pc[s.releaser[t]] == ReleaseLast(t))
    && (t == |s.pc| - 1 && t >= s.retired ==> s.next[t].None?)
    && (t == s.retired ==> s.pc[t].Waiting? || s.role == Some(t))
    && (t > s.retired ==> s.pc[t].Waiting? || s.pc[t].Linking?)
    && (s.pc[t].Linking? ==> t > s.retired && s.pc[t].prev == t - 1 && s.next[t - 1].None? && !s.combiner[t])
    && (s.pc[t].Waiting? ==>
          if t > s.retired then Linked(s, t) && !s.combiner[t]
          else s.combiner[t] == (t == s.retired && s.role.None?))
    && (s.pc[t].ReleaseLast? ==>
          var c := s.pc[t].cur;
          c < s.retired && !s.done[c] && s.releaser[c] == t && (t == c || s.done[t]))
    && (s.pc[t].Returned? ==> s.done[t])
    && (s.pc[t].Combines() ==>
          && s.role == Some(t)
          && s.retired < |s.pc|
          && s.pc[t].cur == s.retired
          && (s.done[t] || (t == s.retired && !s.pc[t].HandOver?))
          && s.served[t] + (if s.pc[t].HandOver? then 0 else s.pc[t].left)
               == (if s.pc[t].Exec? then MAX_COMBINING - 1 else MAX_COMBINING))
    && (s.pc[t].Linking? || s.pc[t].Waiting? ==> s.served[t] == 0)
    && s.served[t] <= MAX_COMBINING
    && (s.pc[t].Spin? ==> s.retired + 1 < |s.pc|)
    && (s.pc[t].Release? ==> s.pc[t].nxt == s.retired + 1 && s.retired + 1 < |s.pc| && Linked(s, s.retired + 1))
  }

  /** The list is retired..n, the combiner works on its first member, and requests are
      executed in the order of the tail swaps. */
  ghost predicate Spine(s: State) {
    && s.retired <= |s.pc|
    && s.tail == (if s.retired == |s.pc| then None else Some(|s.pc| - 1))
    && (s.role.Some? ==> s.role.value < |s.pc| && s.pc[s.role.value].Combines())
    && s.log == UpTo(s.retired + if s.role.Some? && s.pc[s.role.value].HasExecuted() then 1 else 0)
  }

  ghost predicate AllOk(s: State)
    requires WellSized(s)
  {
    forall t :: 0 <= t < |s.pc| ==> Ok(s, t)
  }

  ghost predicate Inv(s: State) {
    WellSized(s) && Spine(s) && AllOk(s)
  }

  /** What a step of thread t relies on for request u. */
  ghost predicate Around(s: State, t: nat, u: nat) {
    && t < |s.pc| && u < |s.pc| && WellSized(s) && Spine(s) && Ok(s, t) && Ok(s, u)
    && (s.retired < |s.pc| ==> Ok(s, s.retired))
    && (s.retired + 1 < |s.pc| ==> Ok(s, s.retired + 1))
  }

  lemma ArriveKeepsOk(s: State, t: nat)
    requires Inv(s) && t <= |s.pc|
    ensures WellSized(DoArrive(s)) && Ok(DoArrive(s), t)
  {
    if t < |s.pc| {
      assert Ok(s, t);
    }
    if 0 < |s.pc| {
      assert Ok(s, |s.pc| - 1);
    }
  }

  lemma ArriveKeepsInv(s: State)
    requires Inv(s)
    ensures Inv(DoArrive(s))
  {
    ArriveKeepsOk(s, |s.pc|);
    forall t | 0 <= t < |s.pc|
      ensures Ok(DoArrive(s), t)
    {
      ArriveKeepsOk(s, t);
    }
    if s.role.Some? {
      assert Ok(s, s.role.value);
    }
  }

  /** A new request is linked. */
  lemma LinkKeepsOk(s: State, t: nat, u: nat)
    requires Around(s, t, u)
    requires s.pc[t].Linking?
    ensures WellSized(DoRun(s, t)) && Ok(DoRun(s, t), u)
  {
    hide UpTo;
  }

  /** A waiter polls its flags. */
  lemma PollKeepsOk(s: State, t: nat, u: nat)
    requires Around(s, t, u)
    requires s.pc[t].Waiting?
    ensures WellSized(DoRun(s, t)) && Ok(DoRun(s, t), u)
  {
    hide UpTo;
    if u != t {
      assert DoRun(s, t).pc[u] == s.pc[u];
    }
  }

  /** A former combiner sets the last DONE flag. */
  lemma LeaverKeepsOk(s: State, t: nat, u: nat)
    requires Around(s, t, u)
    requires s.pc[t].ReleaseLast? || s.pc[t].Returned?
    ensures WellSized(DoRun(s, t)) && Ok(DoRun(s, t), u)
  {
    hide UpTo;
  }

  /** The combiner executes, or looks for the next request. */
  lemma LookKeepsOk(s: State, t: nat, u: nat)
    requires Around(s, t, u)
    requires s.pc[t].Exec? || s.pc[t].Check? || s.pc[t].Spin?
    ensures WellSized(DoRun(s, t)) && Ok(DoRun(s, t), u)
  {
    hide UpTo;
  }

  /** The combiner takes the last request off the list, or passes its role on. */
  lemma UnlinkKeepsOk(s: State, t: nat, u: nat)
    requires Around(s, t, u)
    requires s.pc[t].Swing? || s.pc[t].HandOver?
    ensures WellSized(DoRun(s, t)) && Ok(DoRun(s, t), u)
  {
    hide UpTo;
  }

  /** The combiner lets a waiter go. */
  lemma ReleaseKeepsOk(s: State, t: nat, u: nat)
    requires Around(s, t, u)
    requires s.pc[t].Release?
    ensures WellSized(DoRun(s, t)) && Ok(DoRun(s, t), u)
  {
    hide UpTo;
  }

  lemma RunKeepsOk(s: State, t: nat, u: nat)
    requires Inv(s) && t < |s.pc| && u < |s.pc|
    ensures WellSized(DoRun(s, t)) && Ok(DoRun(s, t), u)
  {
    hide Ok, Spine;
    assert Around(s, t, u);
    if s.pc[t].Linking? {
      LinkKeepsOk(s, t, u);
    } else if s.pc[t].Waiting? {
      PollKeepsOk(s, t, u);
    } else if s.pc[t].ReleaseLast? || s.pc[t].Returned? {
      LeaverKeepsOk(s, t, u);
    } else if s.pc[t].Exec? || s.pc[t].Check? || s.pc[t].Spin? {
      LookKeepsOk(s, t, u);
    } else if s.pc[t].Release? {
      ReleaseKeepsOk(s, t, u);
    } else {
      UnlinkKeepsOk(s, t, u);
    }
  }

  lemma RunKeepsLog(s: State, t: nat)
    requires Around(s, t, t)
    requires s.role.Some? && s.role.value < |s.pc| ==> Ok(s, s.role.value)
    ensures
      var z := DoRun(s, t);
      var busy := z.role.Some? && z.role.value < |z.pc| && z.pc[z.role.value].HasExecuted();
      var count := z.retired + if busy then 1 else 0;
      |z.log| == count && forall i :: 0 <= i < count ==> z.log[i] == i
  {
  }

  lemma RunKeepsSpine(s: State, t: nat)
    requires Around(s, t, t)
    requires s.role.Some? && s.role.value < |s.pc| ==> Ok(s, s.role.value)
    ensures Spine(DoRun(s, t))
  {
    hide Linked;
    RunKeepsLog(s, t);
  }

  /** Every step of every thread keeps the invariant. */
  lemma RunKeepsInv(s: State, t: nat)
    requires Inv(s) && t < |s.pc|
    ensures Inv(DoRun(s, t))
  {
    hide Ok, Spine;
    RunKeepsOk(s, t, t);
    forall u | 0 <= u < |DoRun(s, t).pc|
      ensures Ok(DoRun(s, t), u)
    {
      RunMovesOnlyItself(s, t);
      RunKeepsOk(s, t, u);
    }
    RunKeepsSpine(s, t);
  }

  lemma RunMovesOnlyItself(s: State, t: nat)
    requires WellSized(s) && t < |s.pc|
    ensures |DoRun(s, t).pc| == |s.pc| && DoRun(s, t).pc == s.pc[t := DoRun(s, t).pc[t]]
  {
  }

  // ---------------------------------------------------------------- safety over whole runs

  /** The state after a schedule; every reachable state satisfies the invariant. */
  function After(s: State, schedule: seq<Event>): (r: State)
    requires Inv(s)
    ensures Inv(r)
  {
    if schedule == [] then s else
    var p := After(s, schedule[..|schedule| - 1]);
    var e := schedule[|schedule| - 1];
    match e
    case Arrive => ArriveKeepsInv(p); DoArrive(p)
    case Run(t) => if t < |p.pc| then RunKeepsInv(p, t); DoRun(p, t) else p
  }

  /** The requests that the next step of thread t reads or writes. */
  function Touched(s: State, t: nat): set<nat>
    requires t < |s.pc|
  {
    match s.pc[t]
    case Linking(p) => {p}
    case Exec(c, _) => {c}
    case Check(c, _) => {c}
    case Spin(c, _) => {c}
    case Release(c, _, _) => {c}
    case ReleaseLast(c) => {c}
    case HandOver(c) => {c}
    case _ => {}
  }

  /** In every interleaving there is at most one combiner, requests are executed in the
      order of the tail swaps and none twice, no thread executes more than MAX_COMBINING
      of them or returns before its own was executed, and nobody touches a request whose DONE
      flag is set: its owner may have returned and its memory may be gone. */
  lemma EveryRunIsSafe(schedule: seq<Event>)
    ensures
      var s := After(INIT, schedule);
      && (forall t, u :: 0 <= t < |s.pc| && 0 <= u < |s.pc| && s.pc[t].Combines() && s.pc[u].Combines() ==> t == u)
      && s.log == UpTo(|s.log|) && |s.log| <= |s.pc|
      && (forall t :: 0 <= t < |s.pc| && s.pc[t].Returned? ==> t < |s.log|)
      // a thread executes 128 requests at most, and hands its role over only after the last of these
      && (forall t :: 0 <= t < |s.pc| ==> s.served[t] <= 128 && (s.pc[t].HandOver? ==> s.served[t] == 128))
      && (forall t, x :: 0 <= t < |s.pc| && x in Touched(s, t) ==>
            x < |s.pc| && !s.done[x] && !s.pc[x].Returned?)
  {
    var s := After(INIT, schedule);
    forall t | 0 <= t < |s.pc|
      ensures s.pc[t].Combines() ==> s.role == Some(t) && s.retired < |s.pc|
      ensures s.pc[t].Returned? ==> t < |s.log|
      ensures s.served[t] <= 128 && (s.pc[t].HandOver? ==> s.served[t] == 128)
      ensures forall x :: x in Touched(s, t) ==> x < |s.pc| && !s.done[x] && !s.pc[x].Returned?
    {
      assert Ok(s, t);
      if s.pc[t].Linking? {
        assert Ok(s, s.pc[t].prev);
      }
      if s.pc[t].ReleaseLast? {
        assert Ok(s, s.pc[t].cur);
      }
      if s.retired < |s.pc| {
        assert Ok(s, s.retired);
      }
    }
  }

  // ---------------------------------------------------------------- progress

  /** The step changes something: the thread does not wait in vain. */
  predicate Moves(s: State, t: nat)
    requires WellSized(s) && t < |s.pc|
  {
    DoRun(s, t) != s
  }

  /** How many steps are left to the thread that has the role. */
  function RoleSteps(s: State): nat
    requires Inv(s)
  {
    if s.role.None? then (if s.retired < |s.pc| then 6 else 0) else
    match s.pc[s.role.value]
    case HandOver(_) => 7
    case Exec(_, _) => 5
    case Check(_, _) => 4
    case Swing(_, _) => 3
    case Spin(_, _) => 2
    case _ => 1
  }

  function Weight(p: Pc): nat {
    if p.Returned? then 0 else if p.Linking? then 2 else 1
  }

  function TotalWeight(pc: seq<Pc>): (w: nat)
    ensures w <= 2 * |pc|
  {
    if pc == [] then 0 else TotalWeight(pc[..|pc| - 1]) + Weight(pc[|pc| - 1])
  }

  lemma {:induction false} WeightUpdate(pc: seq<Pc>, t: nat, p: Pc)
    requires t < |pc|
    ensures TotalWeight(pc[t := p]) == TotalWeight(pc) - Weight(pc[t]) + Weight(p)
  {
    var n := |pc| - 1;
    if t == n {
      assert pc[t := p][..n] == pc[..n];
    } else {
      assert pc[t := p][..n] == pc[..n][t := p];
      WeightUpdate(pc[..n], t, p);
    }
  }

  /** More than all weights of n threads can make up for. */
  function Scaled(l: nat, n: nat): nat {
    l * (2 * n + 1)
  }

  /** An upper bound on the steps that move, until a new request arrives. */
  function Work(s: State): nat
    requires Inv(s)
  {
    Scaled(ListSteps(s), |s.pc|) + TotalWeight(s.pc)
  }

  /** How far the list and the combiner are from the end of the list. */
  function ListSteps(s: State): nat
    requires Inv(s)
  {
    8 * (|s.pc| - s.retired) + RoleSteps(s)
  }

  /** Either the list gets shorter, or the combiner gets closer to that, or a thread gets
      closer to its return. */
  lemma MovesLessSteps(s: State, t: nat)
    requires Inv(s) && t < |s.pc| && Moves(s, t) && Inv(DoRun(s, t))
    ensures
      var z := DoRun(s, t);
      ListSteps(z) < ListSteps(s) || (ListSteps(z) == ListSteps(s) && Weight(z.pc[t]) < Weight(s.pc[t]))
  {
    assert Ok(s, t);
    if s.role.Some? {
      assert Ok(s, s.role.value);
    }
  }

  lemma {:induction false} SmallerProduct(b: nat, a: nat, n: nat)
    requires b < a
    ensures b * n + n <= a * n
  {
    if b + 1 < a {
      SmallerProduct(b, a - 1, n);
    }
    assert (a - 1) * n + n == a * n;
  }

  lemma WorkCompares(l: nat, w: nat, l': nat, w': nat, n: nat)
    requires w' <= 2 * n
    requires l' < l || (l' == l && w' < w)
    ensures Scaled(l', n) + w' < Scaled(l, n) + w
  {
    if l' < l {
      SmallerProduct(l', l, 2 * n + 1);
    }
  }

  lemma MovesLessWork(s: State, t: nat)
    requires Inv(s) && t < |s.pc| && Moves(s, t)
    ensures Inv(DoRun(s, t)) && Work(DoRun(s, t)) < Work(s)
  {
    RunKeepsInv(s, t);
    MovesLessSteps(s, t);
    RunMovesOnlyItself(s, t);
    var z := DoRun(s, t);
    WeightUpdate(s.pc, t, z.pc[t]);
    WorkCompares(ListSteps(s), TotalWeight(s.pc), ListSteps(z), TotalWeight(z.pc), |s.pc|);
  }

  /** No request is lost: while some thread has not returned, some thread can move. */
  lemma SomeoneMoves(s: State)
    requires Inv(s)
    requires exists t :: 0 <= t < |s.pc| && !s.pc[t].Returned?
    ensures exists t :: 0 <= t < |s.pc| && Moves(s, t)
  {
    if s.role.Some? {
      var t := s.role.value;
      assert Ok(s, t);
      if s.pc[t].Spin? && s.next[s.retired].None? {
        assert Ok(s, s.retired + 1);
        assert Moves(s, s.retired + 1);
      } else {
        assert Moves(s, t);
      }
    } else if s.retired < |s.pc| {
      assert Ok(s, s.retired);
      assert Moves(s, s.retired);
    } else {
      var t :| 0 <= t < |s.pc| && !s.pc[t].Returned?;
      assert Ok(s, t);
      if s.pc[t].Waiting? && !s.done[t] {
        assert Moves(s, s.releaser[t]);
      } else {
        assert Moves(s, t);
      }
    }
  }

  /** When nobody can move, everybody has returned and every request has been executed. */
  lemma QuietMeansServed(s: State)
    requires Inv(s) && forall t :: 0 <= t < |s.pc| ==> !Moves(s, t)
    ensures forall t :: 0 <= t < |s.pc| ==> s.pc[t].Returned? && s.done[t]
    ensures s.tail.None? && s.log == UpTo(|s.pc|)
  {
    if exists t :: 0 <= t < |s.pc| && !s.pc[t].Returned? {
      SomeoneMoves(s);
    }
    forall t | 0 <= t < |s.pc|
      ensures s.pc[t].Returned? && s.done[t] && t < s.retired
    {
      assert Ok(s, t);
    }
    if |s.pc| > 0 {
      assert s.pc[|s.pc| - 1].Returned?;
    }
  }

  /** Every step of the schedule moves its thread. */
  ghost predicate AllMove(s: State, threads: seq<nat>)
    requires Inv(s)
    decreases |threads|
  {
    threads != [] ==>
      && threads[0] < |s.pc| && Moves(s, threads[0])
      && Inv(DoRun(s, threads[0])) && AllMove(DoRun(s, threads[0]), threads[1..])
  }

  /** The state after these steps. */
  function AfterThreads(s: State, threads: seq<nat>): (z: State)
    requires Inv(s) && AllMove(s, threads)
    ensures Inv(z)
    decreases |threads|
  {
    if threads == [] then s else AfterThreads(DoRun(s, threads[0]), threads[1..])
  }

  /** From every state and under every scheduler, only finitely many steps are left. */
  lemma {:induction false} StepsAreFinite(s: State, threads: seq<nat>)
    requires Inv(s) && AllMove(s, threads)
    ensures |threads| <= Work(s)
    decreases |threads|
  {
    if threads != [] {
      MovesLessWork(s, threads[0]);
      StepsAreFinite(DoRun(s, threads[0]), threads[1..]);
    }
  }

  /** No request is lost and no caller waits for ever: from every reachable state, once no new
      request arrives, every schedule of moving steps has at most Work steps, and when it cannot be
      continued every caller has returned and every request has been executed, in order. */
  lemma EveryCallerReturns(schedule: seq<Event>, threads: seq<nat>)
    requires AllMove(After(INIT, schedule), threads)
    ensures |threads| <= Work(After(INIT, schedule))
    ensures
      var z := AfterThreads(After(INIT, schedule), threads);
      || (exists t :: 0 <= t < |z.pc| && Moves(z, t))
      || ((forall t :: 0 <= t < |z.pc| ==> z.pc[t].Returned? && z.done[t]) && z.tail.None? && z.log == UpTo(|z.pc|))
  {
    hide Ok, Moves;
    var z := AfterThreads(After(INIT, schedule), threads);
    StepsAreFinite(After(INIT, schedule), threads);
    if forall t :: 0 <= t < |z.pc| ==> !Moves(z, t) {
      QuietMeansServed(z);
    }
  }
}
