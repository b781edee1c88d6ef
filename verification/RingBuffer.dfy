/** Positions on a circle: remainders of numbers less than one lap apart. */
module Laps {

  lemma {:induction false} AtLeast(d: nat, n: nat)
    requires 1 <= d
    ensures d * n >= n
  {
    if d > 1 {
      AtLeast(d - 1, n);
      assert d * n == (d - 1) * n + n;
    }
  }

  lemma ModUnique(n: nat, q: int, r: nat, q': int, r': nat)
    requires r < n && r' < n && q * n + r == q' * n + r'
    ensures r == r'
  {
    if q' > q {
      var d := q' - q;
      assert d * n == q' * n - q * n;
      AtLeast(d, n);
    } else if q > q' {
      var d := q - q';
      assert d * n == q * n - q' * n;
      AtLeast(d, n);
    }
  }

  lemma ModDrops(n: nat, a: nat)
    requires 0 < n <= a
    ensures a % n == (a - n) % n
  {
    var q, r, q', r' := a / n, a % n, (a - n) / n, (a - n) % n;
    assert a == q * n + r;
    assert a - n == q' * n + r';
    assert (q' + 1) * n == q' * n + n;
    ModUnique(n, q, r, q' + 1, r');
  }

  lemma Small(n: nat, x: nat)
    requires x < n
    ensures x % n == x
  {
  }

  lemma {:induction false} Advance(n: nat, a: nat, l: nat)
    requires n > 0
    ensures (a % n + l) % n == (a + l) % n
    decreases a
  {
    if a >= n {
      ModDrops(n, a);
      ModDrops(n, a + l);
      Advance(n, a - n, l);
    } else {
      Small(n, a);
    }
  }

  /** The remainder again, in a form that the proofs can keep folded. */
  function Wrap(n: nat, a: nat): (r: nat)
    requires n > 0
    ensures r < n
    decreases a
  {
    if a < n then a else Wrap(n, a - n)
  }

  lemma {:induction false} WrapIsMod(n: nat, a: nat)
    requires n > 0
    ensures Wrap(n, a) == a % n
    decreases a
  {
    if a >= n {
      ModDrops(n, a);
      WrapIsMod(n, a - n);
    } else {
      Small(n, a);
    }
  }

  lemma WrapAdvances(n: nat, a: nat, l: nat)
    requires n > 0
    ensures (Wrap(n, a) + l) % n == Wrap(n, a + l)
  {
    WrapIsMod(n, a);
    WrapIsMod(n, a + l);
    Advance(n, a, l);
  }

  /** For positions less than one lap apart the remainders tell the distance. */
  lemma Gap(n: nat, a: nat, b: nat)
    requires a <= b < a + n
    ensures Wrap(n, a) <= Wrap(n, b) ==> b - a == Wrap(n, b) - Wrap(n, a)
    ensures Wrap(n, a) > Wrap(n, b) ==> b - a == n - (Wrap(n, a) - Wrap(n, b))
  {
    var d, r := b - a, Wrap(n, a);
    WrapAdvances(n, a, d);
    if r + d >= n {
      ModDrops(n, r + d);
      Small(n, r + d - n);
    } else {
      Small(n, r + d);
    }
  }
}

/** The variable-size ring buffer of the delegation queues, as a step machine.

    One put combiner and one get combiner (see CombiningQueue) work on the buffer at
    the same time as the users that fill, and later give back, their elements.  Every
    shared load and store of __ring_buffer_put, __ring_buffer_get, the two reapers,
    elm_set_ready and elm_set_done is one atomic step.  The configuration is the one
    that is built: no double mapping, no shadow buffer, no reap callback.
 */
module RingBuffer {
  import opened Laps

  const ALIGN: nat := 64
  const HEADER: nat := 8
  const PAGE: nat := 4096
  const WORD: nat := 0x1_0000_0000_0000_0000

  /** An element header. */
  datatype Elm = Elm(len: nat, padding: nat, init: bool, ready: bool, done: bool, tomb: bool, owner: bool)

  /** History: where an element is in its life. */
  datatype Stage = Filling | Ready | Taken | Done | Tomb | TombDone
  {
    predicate Dead() { Done? || TombDone? }
    predicate Past() { Taken? || Done? || TombDone? }
    predicate IsTomb() { Tomb? || TombDone? }
  }

  /** History of one element: its total length, the length asked for, the offset handed to
      its producer and to its consumer, and whether it still carries TOMBSTONE_OWNER. */
  datatype Rec = Rec(len: nat, user: nat, stage: Stage, own: bool, off: nat, taken: nat)
  {
    /** The header that the buffer must show. */
    function Image(): Elm
      requires user <= len
    {
      match stage
      case Filling => Elm(len, len - user, true, false, false, false, own)
      case Ready => Elm(len, len - user, true, true, false, false, own)
      case Taken => Elm(len, len - user, true, true, false, false, own)
      case Done => Elm(len, len - user, false, false, true, false, false)
      case Tomb => Elm(len, len - user, false, true, false, true, false)
      case TombDone => Elm(len, len - user, false, true, true, true, false)
    }
  }

  /** The local variables of a reaping loop.  sk and ck are history: the rank of tail when snap
      was loaded from it, or later the rank at which cur met snap, and the rank of cur. */
  datatype Job = Job(snap: nat, cur: nat, n: nat, limit: int, changed: bool, passed: bool, sk: nat, ck: nat)

  /** The request of the running put: its length, the length asked for, and whether an
      element placed now owns a tombstone. */
  datatype Req = Req(len: nat, user: nat, own: bool)

  datatype PutPc =
    | PIdle
    | PBegin(req: Req)                             // start the reaper: load tail
    | PLoad(req: Req, aggressive: bool, job: Job)  // load the header at cur
    | PTest(req: Req, aggressive: bool, job: Job, elm: Elm)
    | PTail2(req: Req, aggressive: bool, job: Job) // store tail2
    | PAgain(req: Req, limit: int)                 // start the aggressive reaper: load tail
    | PCheck(req: Req, job: Job)                   // compare tail with snap
    | PCas(req: Req, job: Job)                     // compare-and-swap tail from snap to cur
    | PPlace(req: Req)                             // check the free space and store the header
    | PHead(req: Req, newHead: nat)                // store head

  datatype GetPc =
    | GIdle
    | GStart                                       // compare head with tail
    | GLoad                                        // load the header at tail
    | GMark(off: nat, newTail: nat)                // mark a tombstone reclaimable
    | GSkip(newTail: nat, rank: nat)               // store tail behind the tombstone
    | GDisown(off: nat, newTail: nat, elm: Elm)    // clear TOMBSTONE_OWNER
    | GTake(off: nat, newTail: nat, elm: Elm)      // store tail and return the element

  /** What a get returns: the offset of the element and the size of its data. */
  datatype Got = Got(off: nat, user: int)

  /** The shared words, and as history the logical positions and the elements in put order,
      the ranks of tail and tail2, and what the gets have returned. */
  datatype Ring = Ring(
    size: nat, buf: seq<Elm>, head: nat, tail: nat, tail2: nat,
    pos: seq<nat>, recs: seq<Rec>, t: nat, t2: nat, taken: seq<Got>)

  datatype State = State(r: Ring, put: PutPc, get: GetPc)

  // ---------------------------------------------------------------- steps

  /** Offsets lie in the buffer and ranks name elements. */
  predicate Sized(r: Ring) {
    match r
    case Ring(size, buf, head, tail, tail2, pos, recs, t, t2, _) =>
      && |buf| == size && head < size && tail < size && tail2 < size
      && |pos| == |recs| + 1 && t <= |recs| && t2 <= |recs|
      && (forall i :: 0 <= i < |recs| ==> recs[i].user <= recs[i].len)
  }

  predicate PutSized(r: Ring, put: PutPc) {
    && (!put.PIdle? ==> put.req.user <= put.req.len)
    && match put
       case PLoad(_, _, job) => JobSized(r, job)
       case PTest(_, _, job, _) => JobSized(r, job)
       case PTail2(_, _, job) => JobSized(r, job)
       case PCheck(_, job) => JobSized(r, job)
       case PCas(_, job) => JobSized(r, job)
       case PHead(_, newHead) => newHead < r.size
       case _ => true
  }

  predicate JobSized(r: Ring, job: Job) {
    job.cur < r.size
  }

  predicate GetSized(r: Ring, get: GetPc) {
    match get
    case GLoad => r.t < |r.recs|
    case GMark(off, newTail) => off < r.size && newTail < r.size && r.t < |r.recs|
    case GSkip(newTail, rank) => newTail < r.size && rank < |r.recs|
    case GDisown(off, newTail, _) => off < r.size && newTail < r.size && r.t < |r.recs|
    case GTake(off, newTail, _) => off < r.size && newTail < r.size && r.t < |r.recs|
    case _ => true
  }

  predicate WellSized(s: State) {
    match s
    case State(r, put, get) => Sized(r) && PutSized(r, put) && GetSized(r, get)
  }

  /** free_space_size; the subtraction is done in 64 bits. */
  function FreeSpace(r: Ring): nat
    requires r.size > 0
  {
    if r.tail2 == (r.head + 1) % r.size then 0 else (RawSpace(r) - HEADER - 1) % WORD
  }

  /** The bytes from head up to tail2, or all of them when the two meet. */
  function RawSpace(r: Ring): int {
    if r.tail2 < r.head then r.size - (r.head - r.tail2)
    else if r.tail2 > r.head then r.tail2 - r.head
    else r.size
  }

  /** The size of an element for a request of the given size. */
  function Aligned(user: nat): nat {
    (user + HEADER + ALIGN - 1) / ALIGN * ALIGN
  }

  lemma AlignedIsEnough(user: nat)
    ensures Aligned(user) >= user + HEADER && Aligned(user) % ALIGN == 0
  {
  }

  /** A put combiner starts on the next request; one that is larger than the buffer is refused. */
  function PutStart(s: State, user: nat): State {
    if s.put.PIdle? && Aligned(user) <= s.r.size
    then s.(put := PBegin(Req(Aligned(user), user, false)))
    else s
  }

  /** Load tail and start a reaping loop, unless there is room for everything. */
  function Reap(r: Ring, req: Req, aggressive: bool, limit: int): PutPc
    requires r.size > 0
  {
    if FreeSpace(r) < r.size
    then PLoad(req, aggressive, Job(r.tail, r.tail2, 0, limit, false, false, r.t, r.t2))
    else PPlace(req)
  }

  /** How much both reapers are asked for: twice what is missing to an empty buffer. */
  function ReapSize(r: Ring): int
    requires r.size > 0
  {
    2 * (r.size - FreeSpace(r))
  }

  /** Leave a reaping loop. */
  function Finish(req: Req, aggressive: bool, job: Job): PutPc {
    if job.changed then PTail2(req, aggressive, job) else if aggressive then PPlace(req) else PAgain(req, job.limit)
  }

  /** The loop of the aggressive reaper notes that it ran, and whether it has met tail. */
  function Noted(aggressive: bool, job: Job): Job {
    if !aggressive then job else
    job.(changed := true, passed := job.passed || job.snap == job.cur,
         sk := if job.snap == job.cur then job.ck else job.sk)
  }

  /** The loop moves over a dead element. */
  function Advanced(r: Ring, job: Job, elm: Elm): Job
    requires r.size > 0
  {
    job.(changed := true, cur := (job.cur + elm.len) % r.size, n := job.n + elm.len, ck := job.ck + 1)
  }

  /** One test of the loop guard and of the loaded header. */
  function Test(r: Ring, req: Req, aggressive: bool, job: Job, elm: Elm): PutPc
    requires r.size > 0
  {
    if job.cur == (if aggressive then r.head else job.snap) then Finish(req, aggressive, job) else
    var job := Noted(aggressive, job);
    if !elm.done then Finish(req, aggressive, job) else
    var job := Advanced(r, job, elm);
    if job.n >= job.limit then Finish(req, aggressive, job) else PLoad(req, aggressive, job)
  }

  /** A header that wraps around the end of the buffer becomes a tombstone. */
  function NewHeader(r: Ring, req: Req, newHead: nat): Elm
    requires req.user <= req.len
  {
    if newHead < r.head
    then Elm(req.len, req.len - req.user, false, true, false, true, false)
    else Elm(req.len, req.len - req.user, true, false, false, false, req.own)
  }

  function NewRec(r: Ring, req: Req, newHead: nat): Rec {
    if newHead < r.head
    then Rec(req.len, req.user, Tomb, false, r.head, 0)
    else Rec(req.len, req.user, Filling, req.own, r.head, 0)
  }

  function StoreHead(r: Ring, req: Req, newHead: nat): Ring
    requires Sized(r)
  {
    r.(head := newHead, recs := r.recs + [NewRec(r, req, newHead)], pos := r.pos + [r.pos[|r.recs|] + req.len])
  }

  function PutStep(s: State): State
    requires WellSized(s)
  {
    var r := s.r;
    match s.put
    case PIdle => s
    case PBegin(req) => s.(put := Reap(r, req, false, ReapSize(r)))
    case PAgain(req, limit) => s.(put := Reap(r, req, true, limit))
    case PLoad(req, aggressive, job) => s.(put := PTest(req, aggressive, job, r.buf[job.cur]))
    case PTest(req, aggressive, job, elm) => s.(put := Test(r, req, aggressive, job, elm))
    case PTail2(req, aggressive, job) =>
      s.(r := r.(tail2 := job.cur, t2 := job.ck),
         put := if !aggressive then PAgain(req, job.limit) else if job.passed then PCheck(req, job) else PPlace(req))
    case PCheck(req, job) => s.(put := if r.tail == job.snap then PCas(req, job) else PPlace(req))
    case PCas(req, job) =>
      s.(r := if r.tail == job.snap then r.(tail := job.cur, t := job.ck) else r, put := PPlace(req))
    case PPlace(req) =>
      if FreeSpace(r) < req.len then s.(put := PIdle) else
      var newHead := (r.head + req.len) % r.size;
      s.(r := r.(buf := r.buf[r.head := NewHeader(r, req, newHead)]), put := PHead(req, newHead))
    case PHead(req, newHead) =>
      // after a tombstone, try again at the start of the buffer
      s.(r := StoreHead(r, req, newHead), put := if newHead < r.head then PBegin(req.(own := true)) else PIdle)
  }

  /** A get combiner starts on the next request. */
  function GetStart(s: State): State {
    if s.get.GIdle? then s.(get := GStart) else s
  }

  /** Look at the header at tail. */
  function Look(r: Ring): GetPc
    requires Sized(r)
  {
    var elm := r.buf[r.tail];
    var newTail := (r.tail + elm.len) % r.size;
    if !elm.ready then GIdle
    else if elm.tomb then GMark(r.tail, newTail)
    else if elm.owner then GDisown(r.tail, newTail, elm)
    else GTake(r.tail, newTail, elm)
  }

  function Reclaimable(elm: Elm): Elm {
    elm.(init := false, ready := true, done := true, tomb := true, owner := false)
  }

  function GetStep(s: State): State
    requires WellSized(s)
  {
    var r := s.r;
    match s.get
    case GIdle => s
    case GStart => s.(get := if r.head == r.tail then GIdle else GLoad)
    case GLoad => s.(get := Look(r))
    case GMark(off, newTail) =>
      s.(r := r.(buf := r.buf[off := Reclaimable(r.buf[off])], recs := r.recs[r.t := r.recs[r.t].(stage := TombDone)]),
         get := GSkip(newTail, r.t))
    case GSkip(newTail, rank) =>
      s.(r := r.(tail := newTail, t := rank + 1), get := GStart)
    case GDisown(off, newTail, elm) =>
      s.(r := r.(buf := r.buf[off := r.buf[off].(owner := false)], recs := r.recs[r.t := r.recs[r.t].(own := false)]),
         get := GTake(off, newTail, elm))
    case GTake(off, newTail, elm) =>
      s.(r := r.(tail := newTail, t := r.t + 1, taken := r.taken + [Got(off, elm.len - elm.padding)],
                 recs := r.recs[r.t := r.recs[r.t].(stage := Taken, taken := off)]),
         get := GIdle)
  }

  /** The producer of element i has filled it. */
  function SetReady(r: Ring, i: nat): Ring
    requires Sized(r) && i < |r.recs|
  {
    var off := r.recs[i].off;
    if r.recs[i].stage.Filling? && off < r.size
    then r.(buf := r.buf[off := r.buf[off].(ready := true)], recs := r.recs[i := r.recs[i].(stage := Ready)])
    else r
  }

  /** The consumer of element i gives it back.  An element that still owns a tombstone marks
      the tombstone, which ends where the buffer ends. */
  function SetDone(r: Ring, i: nat): Ring
    requires Sized(r) && i < |r.recs|
  {
    var off := r.recs[i].taken;
    if !r.recs[i].stage.Taken? || off >= r.size then r else
    var elm := r.buf[off];
    var tomb := off - elm.len + r.size;
    var buf := if elm.owner && 0 <= tomb < r.size then r.buf[tomb := Reclaimable(r.buf[tomb])] else r.buf;
    r.(buf := buf[off := elm.(init := false, ready := false, done := true, tomb := false, owner := false)],
       recs := r.recs[i := r.recs[i].(stage := Done)])
  }

  /** The producer of element i writes its data; k counts aligned words, where a later
      element could have its header. */
  function Scribble(r: Ring, i: nat, k: nat, elm: Elm): Ring
    requires Sized(r) && i < |r.recs|
  {
    var at := r.recs[i].off + ALIGN * k;
    if r.recs[i].stage.Filling? && 0 < k && ALIGN * k < r.recs[i].len && at < r.size
    then r.(buf := r.buf[at := elm])
    else r
  }

  datatype Event =
    | Put(user: nat)
    | PutMove
    | Get
    | GetMove
    | MakeReady(i: nat)
    | GiveBack(i: nat)
    | Write(i: nat, k: nat, elm: Elm)

  /** One step of one thread.  Nothing happens once an offset has left the buffer. */
  function Step(s: State, e: Event): State {
    if !WellSized(s) then s else
    match e
    case Put(user) => PutStart(s, user)
    case PutMove => PutStep(s)
    case Get => GetStart(s)
    case GetMove => GetStep(s)
    case MakeReady(i) => if i < |s.r.recs| then s.(r := SetReady(s.r, i)) else s
    case GiveBack(i) => if i < |s.r.recs| then s.(r := SetDone(s.r, i)) else s
    case Write(i, k, elm) => if i < |s.r.recs| then s.(r := Scribble(s.r, i, k, elm)) else s
  }

  function After(s: State, events: seq<Event>): State {
    if events == [] then s else Step(After(s, events[..|events| - 1]), events[|events| - 1])
  }

  /** An empty buffer; the first offset depends on the cache colour. */
  predicate Initial(s: State) {
    && s.r.size % PAGE == 0 && s.r.size < WORD && |s.r.buf| == s.r.size
    && s.r.head < s.r.size && s.r.head % ALIGN == ALIGN - HEADER
    && s.r.tail == s.r.head && s.r.tail2 == s.r.head
    && s.r.pos == [s.r.head] && s.r.recs == [] && s.r.t == 0 && s.r.t2 == 0 && s.r.taken == []
    && s.put.PIdle? && s.get.GIdle?
  }

  /** get has marked a tombstone that has already been reaped, and has not stored tail yet. */
  predicate Stale(s: State) {
    s.get.GSkip? && s.r.tail2 == s.get.newTail && s.r.tail != s.get.newTail
  }

  /** Where the header of element i is; behind the last element, head. */
  function Offset(r: Ring, i: nat): nat {
    if i < |r.recs| then r.recs[i].off else r.head
  }

  /** A plain reaper that loads tail now ends at head at the latest: what it takes for a header
      there is not done, or a header from tail2 up to head is where tail points. */
  ghost predicate Stops(r: Ring)
    requires Sized(r)
  {
    !r.buf[r.head].done || exists i :: r.t2 <= i <= |r.recs| && Offset(r, i) == r.tail
  }

  /** If the plain reaper is about to load a stale tail, its loop stops all the same. */
  ghost predicate Calm(s: State) {
    WellSized(s) && s.put.PBegin? && Stale(s) ==> Stops(s.r)
  }

  /** In every state of the run in which a put loads tail for the plain reaper. */
  ghost predicate CalmRun(s: State, events: seq<Event>) {
    forall n :: 0 <= n < |events| && events[n].PutMove? ==> Calm(After(s, events[..n]))
  }

  // ---------------------------------------------------------------- the invariant

  /** The physical offset of logical position p. */
  function Phys(r: Ring, p: nat): (o: nat)
    requires r.size > 0
    ensures o < r.size
  {
    Wrap(r.size, p)
  }

  /** What holds of element i. */
  ghost predicate Ok(r: Ring, i: nat)
    requires Sized(r) && i < |r.recs|
  {
    match r.recs[i]
    case Rec(len, _, stage, own, off, taken) =>
      && r.pos[i + 1] == r.pos[i] + len
      && len % ALIGN == 0 && ALIGN <= len < r.size
      && off == Phys(r, r.pos[i])
      && (if i >= r.t2 then r.buf[off] == r.recs[i].Image() else stage.Dead())
      && (stage.IsTomb() <==> off + len >= r.size)
      && (i < r.t ==> stage.Past() && !own)
      && (i == r.t ==> !stage.Past() || stage.TombDone?)
      && (i > r.t ==> !stage.Past())
      && (stage.Taken? ==> taken == off)
      && (stage.IsTomb() ==> !own)
  }

  ghost predicate AllOk(r: Ring)
    requires Sized(r)
  {
    forall i :: 0 <= i < |r.recs| ==> Ok(r, i)
  }

  /** Positions increase, and each leaves room for a header before the next aligned word. */
  ghost predicate Ascending(pos: seq<nat>) {
    && (forall i, j :: 0 <= i < j < |pos| ==> pos[i] < pos[j])
    && (forall i :: 0 <= i < |pos| ==> pos[i] % ALIGN == ALIGN - HEADER)
  }

  /** The tombstone at tail has been marked, but tail has not been stored yet. */
  predicate Marked(r: Ring)
  {
    r.t < |r.recs| && r.recs[r.t].stage.TombDone?
  }

  /** head, tail and tail2 are the physical images of logical positions less than one lap apart. */
  ghost predicate Pointers(r: Ring)
    requires Sized(r)
  {
    match r
    case Ring(size, _, head, tail, tail2, pos, recs, t, t2, _) =>
      && size % ALIGN == 0 && size < WORD
      && Ascending(pos)
      && pos[|recs|] - pos[t2] < size
      && head == Phys(r, pos[|recs|])
      && tail == Phys(r, pos[t])
      && tail2 == Phys(r, pos[t2])
      && (t2 <= t || (t2 == t + 1 && Marked(r)))
  }

  /** The offsets and sizes of the first n elements in put order, without the tombstones. */
  function PutOrder(recs: seq<Rec>, n: nat): seq<Got>
    requires n <= |recs|
  {
    if n == 0 then [] else
    PutOrder(recs, n - 1) + if recs[n - 1].stage.IsTomb() then [] else [Got(recs[n - 1].off, recs[n - 1].user)]
  }

  ghost predicate RingOk(r: Ring) {
    Sized(r) && Pointers(r) && AllOk(r) && r.taken == PutOrder(r.recs, r.t)
  }

  /** The reaping loop has passed dead elements only, and stays within its bound. */
  ghost predicate JobOk(r: Ring, aggressive: bool, job: Job)
    requires Sized(r) && JobSized(r, job)
  {
    match job
    case Job(snap, cur, _, _, _, passed, sk, ck) =>
      && r.t2 <= ck <= |r.recs| && sk <= |r.recs|
      && cur == Phys(r, r.pos[ck])
      && (forall i :: r.t2 <= i < ck ==> r.recs[i].stage.Dead())
      && if aggressive then passed ==> snap == Phys(r, r.pos[sk]) && r.t2 <= sk <= ck && sk <= r.t + 1
         else if r.t2 <= sk then snap == Phys(r, r.pos[sk]) && ck <= sk <= r.t
         else StopsAt(r, snap, ck)
  }

  /** The plain reaper at cursor ck will not pass head. */
  ghost predicate StopsAt(r: Ring, snap: nat, ck: nat)
    requires Sized(r) && r.head < r.size
  {
    !r.buf[r.head].done || exists i :: ck <= i <= |r.recs| && Phys(r, r.pos[i]) == snap
  }

  /** The loaded header tells the truth about an element that it calls dead, or is what is at head. */
  ghost predicate LoadedOk(r: Ring, job: Job, elm: Elm)
    requires Sized(r) && JobSized(r, job)
  {
    && (elm.done && job.ck < |r.recs| ==> r.recs[job.ck].stage.Dead() && r.recs[job.ck].len == elm.len)
    && (job.ck == |r.recs| ==> elm == r.buf[r.head])
  }

  /** tail2 has been stored, and tail may have to catch up. */
  ghost predicate CasOk(r: Ring, job: Job)
    requires Sized(r) && JobSized(r, job)
  {
    match job
    case Job(snap, cur, _, _, _, _, sk, ck) =>
      && sk <= r.t + 1 && sk <= ck == r.t2
      && snap == Phys(r, r.pos[sk])
      && cur == r.tail2
      && r.pos[|r.recs|] - r.pos[sk] < r.size
  }

  ghost predicate PutOk(r: Ring, put: PutPc)
    requires Sized(r) && PutSized(r, put)
  {
    && (!put.PIdle? ==> put.req.len % ALIGN == 0 && ALIGN <= put.req.len <= r.size)
    && match put
       case PLoad(req, aggressive, job) => JobOk(r, aggressive, job)
       case PTest(req, aggressive, job, elm) => JobOk(r, aggressive, job) && LoadedOk(r, job, elm)
       case PTail2(req, aggressive, job) => JobOk(r, aggressive, job)
       case PCheck(req, job) => CasOk(r, job)
       case PCas(req, job) => CasOk(r, job)
       case PHead(req, newHead) =>
         && newHead == Phys(r, r.pos[|r.recs|] + req.len)
         && r.pos[|r.recs|] + req.len - r.pos[r.t2] < r.size
         && r.buf[r.head] == NewHeader(r, req, newHead)
       case _ => true
  }

  ghost predicate GetOk(r: Ring, get: GetPc)
    requires Sized(r) && GetSized(r, get)
  {
    && (Marked(r) ==> get.GSkip? && get.rank == r.t)
    && match get
       case GMark(off, newTail) => r.recs[r.t].stage.Tomb? && off == r.tail && newTail == Phys(r, r.pos[r.t + 1])
       case GSkip(newTail, rank) =>
         newTail == Phys(r, r.pos[rank + 1]) && (if r.t == rank then Marked(r) else r.t == rank + 1)
       case GDisown(off, newTail, elm) =>
         && r.recs[r.t].stage.Ready? && off == r.tail && newTail == Phys(r, r.pos[r.t + 1])
         && elm.len - elm.padding == r.recs[r.t].user
       case GTake(off, newTail, elm) =>
         && r.recs[r.t].stage.Ready? && off == r.tail && newTail == Phys(r, r.pos[r.t + 1])
         && elm.len - elm.padding == r.recs[r.t].user && !r.recs[r.t].own
       case _ => true
  }

  ghost predicate Inv(s: State) {
    match s
    case State(r, put, get) =>
      RingOk(r) && PutSized(r, put) && GetSized(r, get) && PutOk(r, put) && GetOk(r, get)
  }

  // ---------------------------------------------------------------- the reapers

  /** Elements of one lap have different headers. */
  lemma HeadersDiffer(r: Ring, i: nat, j: nat)
    requires Sized(r) && Pointers(r)
    requires r.t2 <= i < j < |r.pos|
    ensures Phys(r, r.pos[i]) != Phys(r, r.pos[j])
  {
    assert r.pos[r.t2] <= r.pos[i] < r.pos[j] <= r.pos[|r.recs|];
    Gap(r.size, r.pos[i], r.pos[j]);
  }

  lemma Increasing(r: Ring, i: nat, j: nat)
    requires Sized(r) && Pointers(r) && i <= j < |r.pos|
    ensures r.pos[i] <= r.pos[j]
  {
  }

  lemma Differ(n: nat, a: nat, b: nat)
    requires a < b < a + n
    ensures Wrap(n, a) != Wrap(n, b)
  {
    Gap(n, a, b);
  }

  lemma LoadKeeps(r: Ring, aggressive: bool, job: Job)
    requires RingOk(r) && JobSized(r, job) && JobOk(r, aggressive, job)
    ensures LoadedOk(r, job, r.buf[job.cur])
  {
    if job.ck < |r.recs| {
      assert Ok(r, job.ck);
    }
  }

  lemma CursorMoves(r: Ring, job: Job, elm: Elm)
    requires RingOk(r) && JobSized(r, job) && LoadedOk(r, job, elm) && elm.done
    requires job.ck < |r.recs| && job.cur == Phys(r, r.pos[job.ck])
    ensures (job.cur + elm.len) % r.size == Phys(r, r.pos[job.ck + 1])
  {
    assert Ok(r, job.ck);
    WrapAdvances(r.size, r.pos[job.ck], r.recs[job.ck].len);
  }

  /** The elements in front of a cursor are dead, so a get has passed them, or is about to. */
  lemma CursorIsClose(r: Ring, aggressive: bool, job: Job)
    requires RingOk(r) && JobSized(r, job) && JobOk(r, aggressive, job)
    ensures job.ck <= r.t + 1
  {
    if r.t + 1 < |r.recs| {
      assert Ok(r, r.t + 1);
    }
  }

  /** A loop that is not at its bound and sees a dead header is not at head. */
  lemma NotAtHead(r: Ring, aggressive: bool, job: Job, elm: Elm)
    requires RingOk(r) && JobSized(r, job) && JobOk(r, aggressive, job) && LoadedOk(r, job, elm)
    requires elm.done && job.cur != (if aggressive then r.head else job.snap)
    ensures job.ck < |r.recs|
  {
  }

  /** A loop that is not at its bound and sees a dead header may move on. */
  lemma AdvanceKeeps(r: Ring, aggressive: bool, job: Job, elm: Elm)
    requires RingOk(r) && JobSized(r, job) && JobOk(r, aggressive, job) && LoadedOk(r, job, elm)
    requires elm.done && job.cur != (if aggressive then r.head else job.snap)
    ensures
      var next := Advanced(r, Noted(aggressive, job), elm);
      JobSized(r, next) && JobOk(r, aggressive, next)
  {
    NotAtHead(r, aggressive, job, elm);
    CursorMoves(r, job, elm);
    NotedKeeps(r, aggressive, job);
  }

  lemma NotedKeeps(r: Ring, aggressive: bool, job: Job)
    requires RingOk(r) && JobSized(r, job) && JobOk(r, aggressive, job)
    ensures JobSized(r, Noted(aggressive, job)) && JobOk(r, aggressive, Noted(aggressive, job))
  {
    CursorIsClose(r, aggressive, job);
  }

  lemma FinishKeeps(r: Ring, req: Req, aggressive: bool, job: Job)
    requires RingOk(r) && JobSized(r, job) && JobOk(r, aggressive, job)
    requires req.user <= req.len && req.len % ALIGN == 0 && ALIGN <= req.len <= r.size
    ensures PutSized(r, Finish(req, aggressive, job)) && PutOk(r, Finish(req, aggressive, job))
  {
  }

  lemma TestKeeps(r: Ring, req: Req, aggressive: bool, job: Job, elm: Elm)
    requires RingOk(r) && PutSized(r, PTest(req, aggressive, job, elm)) && PutOk(r, PTest(req, aggressive, job, elm))
    ensures PutSized(r, Test(r, req, aggressive, job, elm)) && PutOk(r, Test(r, req, aggressive, job, elm))
  {
    if job.cur == (if aggressive then r.head else job.snap) {
      FinishKeeps(r, req, aggressive, job);
    } else {
      NotedKeeps(r, aggressive, job);
      FinishKeeps(r, req, aggressive, Noted(aggressive, job));
      if elm.done {
        AdvanceKeeps(r, aggressive, job, elm);
        FinishKeeps(r, req, aggressive, Advanced(r, Noted(aggressive, job), elm));
      }
    }
  }

  // ---------------------------------------------------------------- the other steps of a put

  lemma StoreTail2Keeps(r: Ring, aggressive: bool, job: Job)
    requires RingOk(r) && JobSized(r, job) && JobOk(r, aggressive, job)
    ensures RingOk(r.(tail2 := job.cur, t2 := job.ck))
  {
    var z := r.(tail2 := job.cur, t2 := job.ck);
    forall i | 0 <= i < |r.recs|
      ensures Ok(z, i)
    {
      assert Ok(r, i);
    }
    assert r.t2 < job.ck ==> r.pos[r.t2] < r.pos[job.ck];
    if r.t < |r.recs| {
      assert Ok(r, r.t);
    }
    if r.t + 1 < |r.recs| {
      assert Ok(r, r.t + 1);
    }
  }

  lemma StoreTail2Passes(r: Ring, job: Job)
    requires RingOk(r) && JobSized(r, job) && JobOk(r, true, job) && job.passed
    ensures CasOk(r.(tail2 := job.cur, t2 := job.ck), job)
  {
    assert r.t2 < job.sk ==> r.pos[r.t2] < r.pos[job.sk];
  }

  /** A tail that looks the same is the same, since less than a lap lies in between. */
  lemma CasMeansSame(r: Ring, job: Job)
    requires RingOk(r) && JobSized(r, job) && CasOk(r, job) && r.tail == job.snap
    ensures job.sk == r.t
  {
    if job.sk < r.t {
      Increasing(r, job.sk, r.t);
      Increasing(r, r.t, |r.recs|);
      Differ(r.size, r.pos[job.sk], r.pos[r.t]);
    } else if job.sk > r.t {
      assert Ok(r, r.t);
      Differ(r.size, r.pos[r.t], r.pos[job.sk]);
    }
  }

  lemma CasTailKeepsRing(r: Ring, job: Job)
    requires RingOk(r) && JobSized(r, job) && CasOk(r, job) && job.sk == r.t
    requires job.ck > r.t ==> Marked(r)
    ensures RingOk(r.(tail := job.cur, t := job.ck))
  {
    forall i | 0 <= i < |r.recs|
      ensures Ok(r.(tail := job.cur, t := job.ck), i)
    {
      assert Ok(r, i);
    }
  }

  /** The compare-and-swap moves tail over a tombstone that get has marked, or not at all. */
  lemma CasTailKeeps(r: Ring, get: GetPc, job: Job)
    requires RingOk(r) && JobSized(r, job) && CasOk(r, job) && GetSized(r, get) && GetOk(r, get)
    requires r.tail == job.snap
    ensures
      var z := r.(tail := job.cur, t := job.ck);
      RingOk(z) && GetSized(z, get) && GetOk(z, get)
  {
    CasMeansSame(r, job);
    CasTailKeepsRing(r, job);
    if job.ck < |r.recs| {
      assert Ok(r, job.ck);
    }
  }

  lemma RawSpaceIsExact(r: Ring)
    requires Sized(r) && Pointers(r)
    ensures RawSpace(r) == r.size - (r.pos[|r.recs|] - r.pos[r.t2])
    ensures RawSpace(r) % ALIGN == 0 && RawSpace(r) >= ALIGN
  {
    var h := |r.recs|;
    assert r.pos[r.t2] <= r.pos[h];
    Gap(r.size, r.pos[r.t2], r.pos[h]);
    Multiple(r.size, r.pos[h], r.pos[r.t2]);
  }

  lemma Multiple(n: nat, a: nat, b: nat)
    requires n % ALIGN == 0 && a % ALIGN == b % ALIGN && b <= a < b + n
    ensures (n - (a - b)) % ALIGN == 0 && n - (a - b) >= ALIGN
  {
  }

  /** The guard against a full buffer in free_space_size never fires. */
  lemma NeverFull(r: Ring)
    requires Sized(r) && Pointers(r)
    ensures r.tail2 != (r.head + 1) % r.size
  {
    RawSpaceIsExact(r);
    if r.head + 1 < r.size {
      Small(r.size, r.head + 1);
    } else {
      ModDrops(r.size, r.head + 1);
      Small(r.size, 0);
    }
  }

  /** The free space is exact: it never underflows, and what fits in it stays within one lap. */
  lemma FreeSpaceIsExact(r: Ring)
    requires Sized(r) && Pointers(r)
    ensures FreeSpace(r) == r.size - (r.pos[|r.recs|] - r.pos[r.t2]) - HEADER - 1
  {
    RawSpaceIsExact(r);
    NeverFull(r);
    assert RawSpace(r) <= r.size;
    Small(WORD, RawSpace(r) - HEADER - 1);
  }

  lemma PlaceKeeps(r: Ring, req: Req)
    requires RingOk(r) && req.user <= req.len <= FreeSpace(r) && req.len % ALIGN == 0 && ALIGN <= req.len
    ensures
      var newHead := (r.head + req.len) % r.size;
      var z := r.(buf := r.buf[r.head := NewHeader(r, req, newHead)]);
      RingOk(z) && PutSized(z, PHead(req, newHead)) && PutOk(z, PHead(req, newHead))
  {
    var h := |r.recs|;
    var newHead := (r.head + req.len) % r.size;
    var z := r.(buf := r.buf[r.head := NewHeader(r, req, newHead)]);
    WrapAdvances(r.size, r.pos[h], req.len);
    FreeSpaceIsExact(r);
    forall i | 0 <= i < h
      ensures Ok(z, i)
    {
      assert Ok(r, i);
      if i >= r.t2 {
        HeadersDiffer(r, i, h);
      }
    }
  }

  lemma AscendingGrows(pos: seq<nat>, len: nat)
    requires Ascending(pos) && |pos| > 0 && len % ALIGN == 0 && len > 0
    ensures Ascending(pos + [pos[|pos| - 1] + len])
  {
    var z := pos + [pos[|pos| - 1] + len];
    assert (pos[|pos| - 1] + len) % ALIGN == pos[|pos| - 1] % ALIGN;
    forall i, j | 0 <= i < j < |z|
      ensures z[i] < z[j]
    {
      if j == |pos| && i < |pos| - 1 {
        assert pos[i] < pos[|pos| - 1];
      }
    }
  }

  lemma TombstonesWrap(r: Ring, req: Req, newHead: nat)
    requires RingOk(r) && PutSized(r, PHead(req, newHead)) && PutOk(r, PHead(req, newHead))
    ensures newHead < r.head <==> r.head + req.len >= r.size
    ensures req.len < r.size
  {
    var h := |r.recs|;
    Increasing(r, r.t2, h);
    Gap(r.size, r.pos[h], r.pos[h] + req.len);
  }

  /** The stored header is the one that the new element must show. */
  lemma NewElementOk(r: Ring, req: Req, newHead: nat)
    requires RingOk(r) && PutSized(r, PHead(req, newHead)) && PutOk(r, PHead(req, newHead))
    ensures Ok(StoreHead(r, req, newHead), |r.recs|)
  {
    TombstonesWrap(r, req, newHead);
  }

  lemma OldElementsOk(r: Ring, req: Req, newHead: nat)
    requires RingOk(r) && PutSized(r, PHead(req, newHead))
    ensures Sized(StoreHead(r, req, newHead))
    ensures forall i :: 0 <= i < |r.recs| ==> Ok(StoreHead(r, req, newHead), i)
  {
    var z := StoreHead(r, req, newHead);
    forall i | 0 <= i < |r.recs|
      ensures Ok(z, i)
    {
      assert Ok(r, i);
      assert z.recs[i] == r.recs[i] && z.pos[i] == r.pos[i] && z.pos[i + 1] == r.pos[i + 1];
    }
  }

  lemma StoreHeadPoints(r: Ring, req: Req, newHead: nat)
    requires RingOk(r) && PutSized(r, PHead(req, newHead)) && PutOk(r, PHead(req, newHead))
    ensures Pointers(StoreHead(r, req, newHead))
  {
    AscendingGrows(r.pos, req.len);
    var z := StoreHead(r, req, newHead);
    assert z.pos[r.t] == r.pos[r.t] && z.pos[r.t2] == r.pos[r.t2];
  }

  lemma StoreHeadKeeps(r: Ring, req: Req, newHead: nat)
    requires RingOk(r) && PutSized(r, PHead(req, newHead)) && PutOk(r, PHead(req, newHead))
    ensures RingOk(StoreHead(r, req, newHead))
  {
    var z := StoreHead(r, req, newHead);
    OldElementsOk(r, req, newHead);
    NewElementOk(r, req, newHead);
    StoreHeadPoints(r, req, newHead);
    PutOrderFrame(r.recs, z.recs, r.t);
  }

  /** Only the length of the data, the offset and the kind of an element enter the put order. */
  lemma {:induction false} PutOrderFrame(recs: seq<Rec>, recs': seq<Rec>, n: nat)
    requires n <= |recs| && n <= |recs'|
    requires forall i :: 0 <= i < n ==>
               recs[i].off == recs'[i].off && recs[i].user == recs'[i].user
                 && recs[i].stage.IsTomb() == recs'[i].stage.IsTomb()
    ensures PutOrder(recs, n) == PutOrder(recs', n)
  {
    if n > 0 {
      PutOrderFrame(recs, recs', n - 1);
    }
  }

  // ---------------------------------------------------------------- what a step leaves alone

  /** What a running put relies on while others move. */
  ghost predicate SameForPut(r: Ring, z: Ring)
    requires Sized(r)
  {
    && Sized(z)
    && z.size == r.size && z.head == r.head && z.tail2 == r.tail2 && z.t2 == r.t2 && z.pos == r.pos
    && r.t <= z.t && |z.recs| == |r.recs| && z.buf[r.head] == r.buf[r.head]
    && (forall i :: 0 <= i < |r.recs| ==> z.recs[i].len == r.recs[i].len)
    && (forall i :: 0 <= i < |r.recs| && r.recs[i].stage.Dead() ==> z.recs[i].stage.Dead())
  }

  lemma PutFrame(r: Ring, z: Ring, put: PutPc)
    requires Sized(r) && PutSized(r, put) && PutOk(r, put) && SameForPut(r, z)
    ensures PutSized(z, put) && PutOk(z, put)
  {
  }

  /** What a running get relies on while others move. */
  ghost predicate SameForGet(r: Ring, z: Ring)
    requires Sized(r)
  {
    && Sized(z)
    && z.size == r.size && z.tail == r.tail && z.t == r.t
    && |r.recs| <= |z.recs| && |r.pos| <= |z.pos|
    && (forall i :: 0 <= i < |r.pos| ==> z.pos[i] == r.pos[i])
    && (r.t < |r.recs| && !r.recs[r.t].stage.Filling? ==> z.recs[r.t] == r.recs[r.t])
    && (Marked(z) ==> Marked(r))
  }

  lemma GetFrame(r: Ring, z: Ring, get: GetPc)
    requires Sized(r) && GetSized(r, get) && GetOk(r, get) && SameForGet(r, z)
    ensures GetSized(z, get) && GetOk(z, get)
  {
  }

  // ---------------------------------------------------------------- the steps of a put, together

  lemma ReapKeeps(r: Ring, req: Req, aggressive: bool, limit: int)
    requires RingOk(r) && (!aggressive && r.t2 > r.t ==> StopsAt(r, r.tail, r.t2))
    requires req.user <= req.len && req.len % ALIGN == 0 && ALIGN <= req.len <= r.size
    ensures PutSized(r, Reap(r, req, aggressive, limit)) && PutOk(r, Reap(r, req, aggressive, limit))
  {
  }

  /** What Stale says about the words that get and put use is that tail2 is ahead of tail. */
  lemma StaleMeansAhead(s: State)
    requires Inv(s)
    ensures Stale(s) <==> s.r.t2 > s.r.t
  {
    var r := s.r;
    if s.get.GSkip? && r.t == s.get.rank {
      Increasing(r, r.t, r.t + 1);
      assert Ok(r, r.t);
      Differ(r.size, r.pos[r.t], r.pos[r.t + 1]);
      if r.t2 <= r.t {
        HeadersDiffer(r, r.t2, r.t + 1);
      }
    }
  }

  lemma StopsMeansStopsAt(r: Ring)
    requires RingOk(r)
    ensures Stops(r) <==> StopsAt(r, r.tail, r.t2)
  {
    forall i | r.t2 <= i <= |r.recs|
      ensures Offset(r, i) == Phys(r, r.pos[i])
    {
      if i < |r.recs| {
        assert Ok(r, i);
      }
    }
    if i :| r.t2 <= i <= |r.recs| && Offset(r, i) == r.tail {
      assert Phys(r, r.pos[i]) == r.tail;
    }
    if i :| r.t2 <= i <= |r.recs| && Phys(r, r.pos[i]) == r.tail {
      assert Offset(r, i) == r.tail;
    }
  }

  lemma BeginKeeps(s: State)
    requires Inv(s) && s.put.PBegin? && Calm(s)
    ensures Inv(PutStep(s))
  {
    StaleMeansAhead(s);
    StopsMeansStopsAt(s.r);
    ReapKeeps(s.r, s.put.req, false, ReapSize(s.r));
  }

  lemma Tail2StepKeeps(s: State)
    requires Inv(s) && s.put.PTail2?
    ensures Inv(PutStep(s))
  {
    match s.put
    case PTail2(req, aggressive, job) =>
      StoreTail2Keeps(s.r, aggressive, job);
      if aggressive && job.passed {
        StoreTail2Passes(s.r, job);
      }
      GetFrame(s.r, PutStep(s).r, s.get);
  }

  lemma CasStepKeeps(s: State)
    requires Inv(s) && s.put.PCas?
    ensures Inv(PutStep(s))
  {
    match s.put
    case PCas(req, job) =>
      if s.r.tail == job.snap {
        CasTailKeeps(s.r, s.get, job);
      }
  }

  lemma PlaceStepKeeps(s: State)
    requires Inv(s) && s.put.PPlace?
    ensures Inv(PutStep(s))
  {
    match s.put
    case PPlace(req) =>
      if FreeSpace(s.r) >= req.len {
        PlaceKeeps(s.r, req);
        GetFrame(s.r, PutStep(s).r, s.get);
      }
  }

  lemma HeadStepKeeps(s: State)
    requires Inv(s) && s.put.PHead?
    ensures Inv(PutStep(s))
  {
    match s.put
    case PHead(req, newHead) =>
      StoreHeadKeeps(s.r, req, newHead);
      GetFrame(s.r, PutStep(s).r, s.get);
  }

  lemma PutStepKeeps(s: State)
    requires Inv(s) && Calm(s)
    ensures Inv(PutStep(s))
  {
    match s.put
    case PIdle =>
    case PBegin(req) => BeginKeeps(s);
    case PAgain(req, limit) => ReapKeeps(s.r, req, true, limit);
    case PLoad(req, aggressive, job) => LoadKeeps(s.r, aggressive, job);
    case PTest(req, aggressive, job, elm) => TestKeeps(s.r, req, aggressive, job, elm);
    case PTail2(req, aggressive, job) => Tail2StepKeeps(s);
    case PCheck(req, job) =>
    case PCas(req, job) => CasStepKeeps(s);
    case PPlace(req) => PlaceStepKeeps(s);
    case PHead(req, newHead) => HeadStepKeeps(s);
  }

  lemma PutStartKeeps(s: State, user: nat)
    requires Inv(s)
    ensures Inv(PutStart(s, user))
  {
    AlignedIsEnough(user);
  }

  // ---------------------------------------------------------------- the steps of a get

  /** tail reads the image of the next element. */
  lemma LookKeeps(r: Ring)
    requires RingOk(r) && r.t < |r.recs| && !Marked(r)
    ensures GetSized(r, Look(r)) && GetOk(r, Look(r))
  {
    assert Ok(r, r.t);
    WrapAdvances(r.size, r.pos[r.t], r.recs[r.t].len);
  }

  /** The header of element i, and so of no other, has been written. */
  lemma WriteKeepsOthers(r: Ring, z: Ring, i: nat)
    requires RingOk(r) && r.t2 <= i < |r.recs| && Ok(r, i)
    requires Sized(z) && z == r.(buf := z.buf, recs := z.recs)
    requires |z.recs| == |r.recs| && z.buf == r.buf[r.recs[i].off := z.buf[r.recs[i].off]]
    requires forall j :: 0 <= j < |r.recs| && j != i ==> z.recs[j] == r.recs[j]
    ensures forall j :: 0 <= j < |r.recs| && j != i ==> Ok(z, j)
    ensures z.buf[r.head] == r.buf[r.head]
  {
    forall j | 0 <= j < |r.recs| && j != i
      ensures Ok(z, j)
    {
      assert Ok(r, j);
      if r.t2 <= j {
        if i < j {
          HeadersDiffer(r, i, j);
        } else {
          HeadersDiffer(r, j, i);
        }
      }
    }
    HeadersDiffer(r, i, |r.recs|);
  }

  lemma MarkKeeps(s: State)
    requires Inv(s) && s.get.GMark?
    ensures Inv(GetStep(s)) && SameForPut(s.r, GetStep(s).r)
  {
    var r, z := s.r, GetStep(s).r;
    assert Ok(r, r.t);
    WriteKeepsOthers(r, z, r.t);
    assert Ok(z, r.t);
    PutOrderFrame(r.recs, z.recs, r.t);
    PutFrame(r, z, s.put);
  }

  lemma SkipKeepsRing(s: State)
    requires Inv(s) && s.get.GSkip?
    ensures RingOk(GetStep(s).r)
  {
    forall i | 0 <= i < |s.r.recs|
      ensures Ok(GetStep(s).r, i)
    {
      assert Ok(s.r, i);
    }
  }

  lemma SkipKeeps(s: State)
    requires Inv(s) && s.get.GSkip?
    ensures Inv(GetStep(s)) && SameForPut(s.r, GetStep(s).r)
  {
    var r, z := s.r, GetStep(s).r;
    SkipKeepsRing(s);
    PutFrame(r, z, s.put);
    if z.t < |r.recs| {
      assert Ok(r, z.t);
    }
  }

  lemma DisownKeeps(s: State)
    requires Inv(s) && s.get.GDisown?
    ensures Inv(GetStep(s)) && SameForPut(s.r, GetStep(s).r)
  {
    var r, z := s.r, GetStep(s).r;
    assert Ok(r, r.t);
    WriteKeepsOthers(r, z, r.t);
    assert Ok(z, r.t);
    PutOrderFrame(r.recs, z.recs, r.t);
    PutFrame(r, z, s.put);
  }

  lemma TakeKeepsElements(s: State, i: nat)
    requires Inv(s) && s.get.GTake? && i < |s.r.recs|
    ensures Sized(GetStep(s).r) && Ok(GetStep(s).r, i)
  {
    assert Ok(s.r, i);
  }

  /** What a get takes is a READY element, the next one in put order. */
  lemma TakeReturnsNext(s: State)
    requires Inv(s) && s.get.GTake?
    ensures s.r.t < |s.r.recs| && s.r.recs[s.r.t].stage.Ready?
    ensures GetStep(s).r.taken == s.r.taken + [Got(s.r.recs[s.r.t].off, s.r.recs[s.r.t].user)]
    ensures GetStep(s).r.taken == PutOrder(GetStep(s).r.recs, s.r.t + 1)
  {
    assert Ok(s.r, s.r.t);
    PutOrderFrame(s.r.recs, GetStep(s).r.recs, s.r.t);
  }

  lemma TakeKeepsRing(s: State)
    requires Inv(s) && s.get.GTake?
    ensures RingOk(GetStep(s).r)
  {
    forall i | 0 <= i < |s.r.recs|
      ensures Ok(GetStep(s).r, i)
    {
      TakeKeepsElements(s, i);
    }
    TakeReturnsNext(s);
  }

  lemma TakeKeeps(s: State)
    requires Inv(s) && s.get.GTake?
    ensures Inv(GetStep(s)) && SameForPut(s.r, GetStep(s).r)
  {
    var r, z := s.r, GetStep(s).r;
    TakeKeepsRing(s);
    PutFrame(r, z, s.put);
    if z.t < |z.recs| {
      assert Ok(r, z.t);
    }
  }

  lemma EmptyForGet(r: Ring)
    requires Sized(r) && Pointers(r) && r.t2 <= r.t
    ensures r.head == r.tail <==> r.t == |r.recs|
  {
    if r.t < |r.recs| {
      HeadersDiffer(r, r.t, |r.recs|);
    }
  }

  lemma GetStepKeeps(s: State)
    requires Inv(s)
    ensures Inv(GetStep(s)) && SameForPut(s.r, GetStep(s).r)
  {
    match s.get
    case GIdle =>
    case GStart => EmptyForGet(s.r);
    case GLoad => LookKeeps(s.r);
    case GMark(off, newTail) => MarkKeeps(s);
    case GSkip(newTail, rank) => SkipKeeps(s);
    case GDisown(off, newTail, elm) => DisownKeeps(s);
    case GTake(off, newTail, elm) => TakeKeeps(s);
  }

  // ---------------------------------------------------------------- the users of the elements

  lemma SetReadyKeepsRing(s: State, i: nat)
    requires Inv(s) && i < |s.r.recs|
    ensures RingOk(SetReady(s.r, i)) && SameForPut(s.r, SetReady(s.r, i)) && SameForGet(s.r, SetReady(s.r, i))
  {
    hide JobOk, CasOk, LoadedOk;
    var r, z := s.r, SetReady(s.r, i);
    assert Ok(r, i);
    if r.recs[i].stage.Filling? {
      WriteKeepsOthers(r, z, i);
      assert Ok(z, i);
      PutOrderFrame(r.recs, z.recs, r.t);
    }
  }

  lemma SetReadyKeeps(s: State, i: nat)
    requires Inv(s) && i < |s.r.recs|
    ensures Inv(s.(r := SetReady(s.r, i))) && SameForPut(s.r, SetReady(s.r, i))
  {
    hide AllOk, Pointers, PutOk, GetOk, SameForPut, SameForGet;
    SetReadyKeepsRing(s, i);
    PutFrame(s.r, SetReady(s.r, i), s.put);
    GetFrame(s.r, SetReady(s.r, i), s.get);
  }

  /** An element that its consumer gives back no longer owns a tombstone, so the branch of
      elm_set_done that would mark one, perhaps long reused, is never taken. */
  lemma SetDoneMeetsNoOwner(s: State, i: nat)
    requires Inv(s) && i < |s.r.recs| && s.r.recs[i].stage.Taken?
    ensures s.r.recs[i].taken < s.r.size && !s.r.buf[s.r.recs[i].taken].owner
    ensures SetDone(s.r, i).buf == s.r.buf[s.r.recs[i].taken := SetDone(s.r, i).buf[s.r.recs[i].taken]]
  {
    assert Ok(s.r, i);
  }

  lemma SetDoneKeepsRing(s: State, i: nat)
    requires Inv(s) && i < |s.r.recs|
    ensures RingOk(SetDone(s.r, i)) && SameForPut(s.r, SetDone(s.r, i)) && SameForGet(s.r, SetDone(s.r, i))
  {
    hide JobOk, CasOk, LoadedOk;
    var r, z := s.r, SetDone(s.r, i);
    assert Ok(r, i);
    if r.recs[i].stage.Taken? {
      SetDoneMeetsNoOwner(s, i);
      WriteKeepsOthers(r, z, i);
      assert Ok(z, i);
      PutOrderFrame(r.recs, z.recs, r.t);
    }
  }

  lemma SetDoneKeeps(s: State, i: nat)
    requires Inv(s) && i < |s.r.recs|
    ensures Inv(s.(r := SetDone(s.r, i))) && SameForPut(s.r, SetDone(s.r, i))
  {
    hide AllOk, Pointers, PutOk, GetOk, SameForPut, SameForGet;
    SetDoneKeepsRing(s, i);
    PutFrame(s.r, SetDone(s.r, i), s.put);
    GetFrame(s.r, SetDone(s.r, i), s.get);
  }

  lemma InsideIsAhead(r: Ring, i: nat, x: nat)
    requires RingOk(r) && i < |r.recs| && Ok(r, i) && x < r.recs[i].len && !r.recs[i].stage.IsTomb()
    ensures r.recs[i].off + x < r.size && Phys(r, r.pos[i] + x) == r.recs[i].off + x
  {
    WrapAdvances(r.size, r.pos[i], x);
    Small(r.size, r.recs[i].off + x);
  }

  lemma InsideIsNoPosition(r: Ring, i: nat, x: nat, j: nat)
    requires Sized(r) && Pointers(r) && r.t2 <= i < |r.recs| && r.t2 <= j <= |r.recs|
    requires r.pos[i] < r.pos[i] + x < r.pos[i + 1]
    ensures Phys(r, r.pos[j]) != Phys(r, r.pos[i] + x)
  {
    Increasing(r, r.t2, j);
    Increasing(r, r.t2, i);
    Increasing(r, j, |r.recs|);
    Increasing(r, i + 1, |r.recs|);
    if j <= i {
      Increasing(r, j, i);
      Differ(r.size, r.pos[j], r.pos[i] + x);
    } else {
      Increasing(r, i + 1, j);
      Differ(r.size, r.pos[i] + x, r.pos[j]);
    }
  }

  /** A word inside element i is the header of no element, and not the word at head. */
  lemma InsideIsNoHeader(r: Ring, i: nat, x: nat, j: nat)
    requires RingOk(r) && r.t2 <= i < |r.recs| && Ok(r, i) && r.t2 <= j <= |r.recs|
    requires 0 < x < r.recs[i].len && !r.recs[i].stage.IsTomb()
    ensures r.recs[i].off + x < r.size && Phys(r, r.pos[j]) != r.recs[i].off + x
  {
    InsideIsAhead(r, i, x);
    InsideIsNoPosition(r, i, x, j);
  }

  lemma ScribbleKeepsElement(s: State, i: nat, k: nat, elm: Elm, j: nat)
    requires Inv(s) && i < |s.r.recs| && j < |s.r.recs|
    ensures Sized(Scribble(s.r, i, k, elm)) && Ok(Scribble(s.r, i, k, elm), j)
  {
    hide JobOk, CasOk, LoadedOk, PutOk, GetOk, Pointers;
    var r, z := s.r, Scribble(s.r, i, k, elm);
    assert Ok(r, i) && Ok(r, j);
    if z != r && r.t2 <= j {
      InsideIsNoHeader(r, i, ALIGN * k, j);
    }
  }

  lemma ScribbleKeepsRing(s: State, i: nat, k: nat, elm: Elm)
    requires Inv(s) && i < |s.r.recs|
    ensures RingOk(Scribble(s.r, i, k, elm))
    ensures SameForPut(s.r, Scribble(s.r, i, k, elm)) && SameForGet(s.r, Scribble(s.r, i, k, elm))
  {
    hide JobOk, CasOk, LoadedOk, PutOk, GetOk;
    var r, z := s.r, Scribble(s.r, i, k, elm);
    forall j | 0 <= j < |r.recs|
      ensures Sized(z) && Ok(z, j)
    {
      ScribbleKeepsElement(s, i, k, elm, j);
    }
    assert Ok(r, i);
    if z != r {
      InsideIsNoHeader(r, i, ALIGN * k, |r.recs|);
    }
  }

  lemma ScribbleKeeps(s: State, i: nat, k: nat, elm: Elm)
    requires Inv(s) && i < |s.r.recs|
    ensures Inv(s.(r := Scribble(s.r, i, k, elm)))
  {
    hide AllOk, Pointers, PutOk, GetOk, SameForPut, SameForGet;
    ScribbleKeepsRing(s, i, k, elm);
    PutFrame(s.r, Scribble(s.r, i, k, elm), s.put);
    GetFrame(s.r, Scribble(s.r, i, k, elm), s.get);
  }

  // ---------------------------------------------------------------- every run

  lemma StepKeeps(s: State, e: Event)
    requires Inv(s) && (e.PutMove? ==> Calm(s))
    ensures Inv(Step(s, e))
  {
    match e
    case Put(user) => PutStartKeeps(s, user);
    case PutMove => PutStepKeeps(s);
    case Get =>
    case GetMove => GetStepKeeps(s);
    case MakeReady(i) => if i < |s.r.recs| { SetReadyKeeps(s, i); }
    case GiveBack(i) => if i < |s.r.recs| { SetDoneKeeps(s, i); }
    case Write(i, k, elm) => if i < |s.r.recs| { ScribbleKeeps(s, i, k, elm); }
  }

  lemma InitialInv(s: State)
    requires Initial(s)
    ensures Inv(s)
  {
  }

  lemma {:induction false} RunKeepsInv(s: State, events: seq<Event>)
    requires Initial(s) && CalmRun(s, events)
    ensures Inv(After(s, events))
  {
    if events == [] {
      InitialInv(s);
    } else {
      var n := |events| - 1;
      var front := events[..n];
      forall m | 0 <= m < n && front[m].PutMove?
        ensures Calm(After(s, front[..m]))
      {
        assert front[..m] == events[..m];
      }
      RunKeepsInv(s, front);
      StepKeeps(After(s, front), events[n]);
    }
  }

  /** Byte x of element i. */
  function Byte(r: Ring, i: nat, x: nat): nat
    requires r.size > 0 && i < |r.recs|
  {
    (r.recs[i].off + x) % r.size
  }

  /** No two elements that are still in use share a byte. */
  ghost predicate Apart(r: Ring, i: nat, j: nat)
    requires Sized(r) && i < |r.recs| && j < |r.recs|
  {
    r.size > 0 && forall x, y :: 0 <= x < r.recs[i].len && 0 <= y < r.recs[j].len ==> Byte(r, i, x) != Byte(r, j, y)
  }

  lemma ByteIs(r: Ring, i: nat, x: nat)
    requires Sized(r) && r.size > 0 && i < |r.recs| && Ok(r, i)
    ensures Byte(r, i, x) == Phys(r, r.pos[i] + x)
  {
    WrapAdvances(r.size, r.pos[i], x);
  }

  lemma LiveBytesDiffer(r: Ring, i: nat, j: nat, x: nat, y: nat)
    requires RingOk(r) && i < j < |r.recs| && r.t2 <= i && Ok(r, i) && Ok(r, j)
    requires x < r.recs[i].len && y < r.recs[j].len
    ensures Byte(r, i, x) != Byte(r, j, y)
  {
    ByteIs(r, i, x);
    ByteIs(r, j, y);
    Increasing(r, r.t2, i);
    Increasing(r, i + 1, j);
    Increasing(r, j + 1, |r.recs|);
    Differ(r.size, r.pos[i] + x, r.pos[j] + y);
  }

  lemma LiveElementsAreApart(r: Ring, i: nat, j: nat)
    requires RingOk(r) && i < j < |r.recs|
    requires !r.recs[i].stage.Dead() && !r.recs[j].stage.Dead()
    ensures Apart(r, i, j)
  {
    assert Ok(r, i) && Ok(r, j);
    forall x, y | 0 <= x < r.recs[i].len && 0 <= y < r.recs[j].len
      ensures Byte(r, i, x) != Byte(r, j, y)
    {
      LiveBytesDiffer(r, i, j, x, y);
    }
  }

  /** What holds of element i for its users. */
  predicate Served(r: Ring, i: nat)
    requires Sized(r) && i < |r.recs|
  {
    match r.recs[i]
    case Rec(len, _, stage, _, off, _) =>
      // taken if tail has passed it, and not before it was READY
      && (i < r.t ==> stage.Past())
      && (i >= r.t && !stage.IsTomb() ==> stage.Filling? || stage.Ready?)
      // given back if tail2 has passed it
      && (i < r.t2 ==> stage.Dead())
      // exactly the tombstones reach the end of the buffer
      && (stage.IsTomb() <==> off + len >= r.size)
      // until then its header shows its length, and once it is taken no ownership of a tombstone
      && (i >= r.t2 ==> off < r.size && r.buf[off].len == len && (i < r.t ==> !r.buf[off].owner))
  }

  /** The reapers have walked over elements only, not over what is at head. */
  predicate Within(s: State) {
    match s.put
    case PLoad(_, _, job) => job.ck <= |s.r.recs|
    case PTest(_, _, job, _) => job.ck <= |s.r.recs|
    case PTail2(_, _, job) => job.ck <= |s.r.recs|
    case PCheck(_, job) => job.ck <= |s.r.recs|
    case PCas(_, job) => job.ck <= |s.r.recs|
    case _ => true
  }

  /** What the ring buffer promises its users. */
  ghost predicate Safe(s: State) {
    Within(s) && Promised(s.r)
  }

  ghost predicate Promised(r: Ring) {
    && Sized(r)
    // the gets have returned the elements in put order, each once
    && r.taken == PutOrder(r.recs, r.t)
    && (forall i :: 0 <= i < |r.recs| ==> Served(r, i))
    // elements in use do not overlap
    && (forall i, j :: 0 <= i < j < |r.recs| && !r.recs[i].stage.Dead() && !r.recs[j].stage.Dead() ==> Apart(r, i, j))
    // head and tail2 meet exactly when every element has been given back and reaped
    && (r.head == r.tail2 <==> r.t2 == |r.recs|)
  }

  lemma InvIsSafe(s: State)
    requires Inv(s)
    ensures Safe(s)
  {
    var r := s.r;
    forall i | 0 <= i < |r.recs|
      ensures Served(r, i)
    {
      assert Ok(r, i);
    }
    forall i, j | 0 <= i < j < |r.recs| && !r.recs[i].stage.Dead() && !r.recs[j].stage.Dead()
      ensures Apart(r, i, j)
    {
      LiveElementsAreApart(r, i, j);
    }
    if r.t2 < |r.recs| {
      HeadersDiffer(r, r.t2, |r.recs|);
    }
  }

  lemma EveryCalmRunIsSafe(s: State, events: seq<Event>)
    requires Initial(s) && CalmRun(s, events)
    ensures Safe(After(s, events))
    ensures var r := After(s, events).r;
            |r.pos| == |r.recs| + 1 && r.t2 <= |r.recs| && r.size > 0 &&
            FreeSpace(r) + HEADER + 1 + r.pos[|r.recs|] == r.size + r.pos[r.t2]
  {
    RunKeepsInv(s, events);
    InvIsSafe(After(s, events));
    FreeSpaceIsExact(After(s, events).r);
  }

  // ---------------------------------------------------------------- when a put succeeds

  /** What lies from tail2 up to head, a header and one byte do not leave room for the request. */
  predicate Lacks(r: Ring, len: nat)
    requires Sized(r)
  {
    r.size + r.pos[r.t2] < len + HEADER + 1 + r.pos[|r.recs|]
  }

  /** A put that is refused changes nothing, and one that goes on only stores a header. */
  ghost predicate Places(x: State, y: State)
    requires x.put.PPlace? && Sized(x.r)
  {
    && (Lacks(x.r, x.put.req.len) <==> y.put.PIdle?)
    && (if Lacks(x.r, x.put.req.len) then y == x.(put := PIdle)
        else y.put.PHead? && y.put.req == x.put.req && y == State(x.r.(buf := y.r.buf), y.put, x.get))
  }

  lemma PlaceDecides(x: State)
    requires Inv(x) && x.put.PPlace?
    ensures Places(x, Step(x, PutMove))
  {
    hide AllOk, GetOk;
    FreeSpaceIsExact(x.r);
  }

  /** The element of the request is appended at head: as asked for if it ends in front of the end of the buffer, and
      as a tombstone if not, after which the put begins again as the owner of a tombstone. */
  ghost predicate Appends(x: State, y: State)
    requires x.put.PHead? && Sized(x.r) && x.r.size > 0
  {
    var r, req := x.r, x.put.req;
    var p := r.pos[|r.recs|] + req.len;
    && y.r == r.(head := Phys(r, p), pos := r.pos + [p], recs := y.r.recs)
    && y.r.recs == r.recs + [if r.head + req.len < r.size then Rec(req.len, req.user, Filling, req.own, r.head, 0)
                             else Rec(req.len, req.user, Tomb, false, r.head, 0)]
    && y.put == if r.head + req.len < r.size then PIdle else PBegin(Req(req.len, req.user, true))
  }

  lemma HeadAppends(x: State)
    requires Inv(x) && x.put.PHead?
    ensures x.r.size > 0 && Appends(x, Step(x, PutMove))
  {
    TombstonesWrap(x.r, x.put.req, x.put.newHead);
    hide AllOk, GetOk, Ascending, NewHeader;
  }

  /** After the reapers a put is refused exactly if there is no room; then nothing changes. */
  lemma PutIsRefusedExactly(s: State, events: seq<Event>)
    requires Initial(s) && CalmRun(s, events) && After(s, events).put.PPlace?
    ensures Sized(After(s, events).r) && Places(After(s, events), Step(After(s, events), PutMove))
  {
    hide After, CalmRun, Places, Step, AllOk, Pointers, PutOk, GetOk;
    RunKeepsInv(s, events);
    PlaceDecides(After(s, events));
  }

  /** And otherwise its element is appended. */
  lemma PutAppends(s: State, events: seq<Event>)
    requires Initial(s) && CalmRun(s, events) && After(s, events).put.PHead?
    ensures Sized(After(s, events).r) && After(s, events).r.size > 0
    ensures Appends(After(s, events), Step(After(s, events), PutMove))
  {
    hide After, CalmRun, Appends, Step, AllOk, Pointers, PutOk, GetOk;
    RunKeepsInv(s, events);
    HeadAppends(After(s, events));
  }

  /** A get that has begun finds the buffer empty exactly if every element has been taken; a get that has looked at
      tail ends exactly if the element there has not been filled, and goes on with what is there. */
  ghost predicate Looks(x: State, y: State)
    requires Sized(x.r)
  {
    var r := x.r;
    && (x.get.GStart? ==> y == x.(get := if r.t == |r.recs| then GIdle else GLoad))
    && (x.get.GLoad? ==>
          && r.t < |r.recs| && y == x.(get := y.get)
          && (y.get.GIdle? <==> r.recs[r.t].stage.Filling?)
          && (y.get.GMark? <==> r.recs[r.t].stage.Tomb?)
          && (y.get.GDisown? || y.get.GTake? <==> r.recs[r.t].stage.Ready?))
  }

  lemma LookDecides(x: State)
    requires Inv(x)
    ensures Looks(x, Step(x, GetMove))
  {
    if x.get.GStart? {
      EmptyForGet(x.r);
    }
    if x.get.GLoad? {
      assert Ok(x.r, x.r.t);
    }
    hide AllOk, PutOk, Ascending;
  }

  lemma GetIsRefusedExactly(s: State, events: seq<Event>)
    requires Initial(s) && CalmRun(s, events)
    ensures Sized(After(s, events).r) && Looks(After(s, events), Step(After(s, events), GetMove))
  {
    hide After, CalmRun, Looks, Step, AllOk, Pointers, PutOk, GetOk;
    RunKeepsInv(s, events);
    LookDecides(After(s, events));
  }

  /** n steps of the put while everybody else stands still. */
  function Solo(s: State, n: nat): State {
    if n == 0 then s else Step(Solo(s, n - 1), PutMove)
  }

  ghost predicate Leads(s: State, z: State) {
    exists n: nat :: Solo(s, n) == z
  }

  lemma GoesOn(s: State, y: State, z: State)
    requires Leads(s, y) && Step(y, PutMove) == z
    ensures Leads(s, z)
  {
    var n: nat :| Solo(s, n) == y;
    assert Solo(s, n + 1) == z;
  }

  lemma {:induction false} SoloKeeps(s: State, n: nat)
    requires Inv(s) && s.get.GIdle?
    ensures Inv(Solo(s, n)) && Solo(s, n).get.GIdle?
  {
    if n > 0 {
      SoloKeeps(s, n - 1);
      PutStepKeeps(Solo(s, n - 1));
    }
  }

  lemma LeadsKeeps(s: State, z: State)
    requires Inv(s) && s.get.GIdle? && Leads(s, z)
    ensures Inv(z) && z.get.GIdle?
  {
    var n: nat :| Solo(s, n) == z;
    SoloKeeps(s, n);
  }

  /** Every element has been given back, and no get is running. */
  ghost predicate AllBack(s: State) {
    Inv(s) && s.get.GIdle? && DeadUpTo(s.r, |s.r.recs|)
  }

  lemma AllBackMeansTaken(s: State)
    requires AllBack(s)
    ensures s.r.t == |s.r.recs| && s.r.tail == s.r.head
  {
    if s.r.t < |s.r.recs| {
      DeadAtTail(s.r);
    }
  }

  lemma DeadAtTail(r: Ring)
    requires Sized(r) && AllOk(r) && r.t < |r.recs| && r.recs[r.t].stage.Dead()
    ensures Marked(r)
  {
    assert Ok(r, r.t);
  }

  /** The ring with everything reaped. */
  function Reaped(r: Ring): Ring {
    r.(tail2 := r.head, t2 := |r.recs|)
  }

  /** The plain reaper is at element job.ck, and nothing will stop it in front of head. */
  ghost predicate Sweeping(z: State, req: Req, job: Job) {
    && AllBack(z) && z.put == PLoad(req, false, job) && job.snap == z.r.head && job.ck <= |z.r.recs|
    && job.n == z.r.pos[job.ck] - z.r.pos[z.r.t2] && job.limit > z.r.pos[|z.r.recs|] - z.r.pos[z.r.t2]
    && (job.changed <==> job.ck > z.r.t2)
  }

  lemma SweepStep(s: State, z: State, req: Req, job: Job)
    requires Leads(s, z) && Inv(s) && s.get.GIdle? && Sweeping(z, req, job) && job.ck < |z.r.recs|
    ensures
      var job' := Advanced(z.r, job, z.r.buf[job.cur]);
      job'.ck == job.ck + 1 && Leads(s, z.(put := PLoad(req, false, job')))
      && Sweeping(z.(put := PLoad(req, false, job')), req, job')
  {
    hide Inv, DeadUpTo, Leads, WellSized;
    SweepSees(z, req, job);
    SweepMoves(s, z, req, job);
    LeadsKeeps(s, z.(put := PLoad(req, false, Advanced(z.r, job, z.r.buf[job.cur]))));
  }

  lemma SweepMoves(s: State, z: State, req: Req, job: Job)
    requires Leads(s, z) && WellSized(z) && z.put == PLoad(req, false, job) && job.cur < z.r.size
    requires job.cur != job.snap && z.r.buf[job.cur].done && job.n + z.r.buf[job.cur].len < job.limit
    ensures Leads(s, z.(put := PLoad(req, false, Advanced(z.r, job, z.r.buf[job.cur]))))
  {
    hide Leads;
    var y := z.(put := PTest(req, false, job, z.r.buf[job.cur]));
    GoesOn(s, z, y);
    GoesOn(s, y, z.(put := PLoad(req, false, Advanced(z.r, job, z.r.buf[job.cur]))));
  }

  lemma SweepSees(z: State, req: Req, job: Job)
    requires Sweeping(z, req, job) && job.ck < |z.r.recs|
    ensures WellSized(z) && Sized(z.r) && job.cur < z.r.size && job.cur != z.r.head && z.r.buf[job.cur].done
    ensures z.r.buf[job.cur].len == z.r.pos[job.ck + 1] - z.r.pos[job.ck]
    ensures z.r.t2 <= job.ck && z.r.pos[job.ck + 1] <= z.r.pos[|z.r.recs|]
  {
    var r := z.r;
    assert Ok(r, job.ck);
    HeadersDiffer(r, job.ck, |r.recs|);
    Increasing(r, job.ck + 1, |r.recs|);
    hide AllOk, GetOk;
  }

  /** It reaps everything. */
  lemma {:induction false} SweepsAll(s: State, z: State, req: Req, job: Job)
    requires Leads(s, z) && Inv(s) && s.get.GIdle? && Sweeping(z, req, job)
    ensures Leads(s, State(Reaped(z.r), PAgain(req, job.limit), GIdle))
    decreases |z.r.recs| - job.ck
  {
    hide Leads, DeadUpTo, WellSized;
    if job.ck < |z.r.recs| {
      SweepStep(s, z, req, job);
      var job' := Advanced(z.r, job, z.r.buf[job.cur]);
      SweepsAll(s, z.(put := PLoad(req, false, job')), req, job');
    } else {
      SweepAtEnd(z, req, job);
      SweepEnds(s, z, req, job);
    }
  }

  lemma SweepAtEnd(z: State, req: Req, job: Job)
    requires Sweeping(z, req, job) && job.ck == |z.r.recs|
    ensures WellSized(z) && Sized(z.r) && job.cur == job.snap == z.r.head
    ensures !job.changed ==> z.r.tail2 == z.r.head && z.r.t2 == |z.r.recs|
  {
  }

  lemma SweepEnds(s: State, z: State, req: Req, job: Job)
    requires Leads(s, z) && WellSized(z) && z.get.GIdle? && z.put == PLoad(req, false, job)
    requires job.cur == job.snap == z.r.head && job.ck == |z.r.recs|
    requires !job.changed ==> z.r.tail2 == z.r.head && z.r.t2 == |z.r.recs|
    ensures Leads(s, State(Reaped(z.r), PAgain(req, job.limit), GIdle))
  {
    hide Leads;
    var y := z.(put := PTest(req, false, job, z.r.buf[job.cur]));
    GoesOn(s, z, y);
    if job.changed {
      GoesOn(s, y, z.(put := PTail2(req, false, job)));
      GoesOn(s, z.(put := PTail2(req, false, job)), State(Reaped(z.r), PAgain(req, job.limit), GIdle));
    } else {
      assert Reaped(z.r) == z.r;
      GoesOn(s, y, State(Reaped(z.r), PAgain(req, job.limit), GIdle));
    }
  }

  lemma BeginSweeps(s: State, z: State, req: Req)
    requires Leads(s, z) && Inv(s) && s.get.GIdle? && AllBack(z) && z.put == PBegin(req)
    ensures Leads(s, State(Reaped(z.r), PAgain(req, ReapSize(z.r)), GIdle))
  {
    var r := z.r;
    var job := Job(r.tail, r.tail2, 0, ReapSize(r), false, false, r.t, r.t2);
    AllBackMeansTaken(z);
    FreeSpaceIsExact(r);
    Increasing(r, r.t2, |r.recs|);
    GoesOn(s, z, z.(put := PLoad(req, false, job)));
    LeadsKeeps(s, z.(put := PLoad(req, false, job)));
    SweepsAll(s, z.(put := PLoad(req, false, job)), req, job);
  }

  /** The aggressive reaper finds nothing that is not reaped. */
  lemma NothingLeft(s: State, z: State, req: Req, limit: int)
    requires Leads(s, z) && Inv(s) && s.get.GIdle? && z.put == PAgain(req, limit) && z.get.GIdle?
    requires Inv(z) && z.r.tail2 == z.r.head
    ensures Leads(s, z.(put := PPlace(req)))
  {
    var r := z.r;
    FreeSpaceIsExact(r);
    Increasing(r, r.t2, |r.recs|);
    var job := Job(r.tail, r.tail2, 0, limit, false, false, r.t, r.t2);
    GoesOn(s, z, z.(put := PLoad(req, true, job)));
    GoesOn(s, z.(put := PLoad(req, true, job)), z.(put := PTest(req, true, job, r.buf[job.cur])));
    GoesOn(s, z.(put := PTest(req, true, job, r.buf[job.cur])), z.(put := PPlace(req)));
  }

  /** The last element is a tombstone, and all others are reaped. */
  ghost predicate OnlyTomb(z: State) {
    && Inv(z) && z.get.GIdle? && z.r.recs != [] && z.r.t == z.r.t2 == |z.r.recs| - 1
    && z.r.recs[z.r.t].stage.Tomb?
  }

  /** What the reapers see of it. */
  lemma TombSeen(r: Ring, z: State)
    requires OnlyTomb(z) && r == z.r
    ensures Sized(r) && r.tail == r.tail2 == r.recs[r.t].off && r.tail2 != r.head && FreeSpace(r) < r.size
    ensures !r.buf[r.tail2].done && r.buf[r.tail2] == r.recs[r.t].Image()
    ensures r.recs[r.t].off + r.recs[r.t].len == r.size + r.head
  {
    assert Ok(r, r.t);
    HeadersDiffer(r, r.t, |r.recs|);
    FreeSpaceIsExact(r);
    Increasing(r, r.t2, |r.recs|);
    WrapAdvances(r.size, r.pos[r.t], r.recs[r.t].len);
    ModDrops(r.size, r.recs[r.t].off + r.recs[r.t].len);
    Small(r.size, r.recs[r.t].off + r.recs[r.t].len - r.size);
  }

  /** No reaper moves over it. */
  lemma TombStays(s: State, z: State, req: Req)
    requires Leads(s, z) && Inv(s) && s.get.GIdle? && OnlyTomb(z) && z.put == PBegin(req)
    ensures Leads(s, z.(put := PPlace(req)))
  {
    hide AllOk, Pointers, PutOk, GetOk, Leads, Rec.Image;
    var r, limit := z.r, ReapSize(z.r);
    TombSeen(r, z);
    hide FreeSpace, ReapSize;
    var job := Job(r.tail, r.tail2, 0, limit, false, false, r.t, r.t2);
    var elm := r.buf[job.cur];
    GoesOn(s, z, z.(put := PLoad(req, false, job)));
    GoesOn(s, z.(put := PLoad(req, false, job)), z.(put := PTest(req, false, job, elm)));
    GoesOn(s, z.(put := PTest(req, false, job, elm)), z.(put := PAgain(req, limit)));
    TombStaysAgain(s, z, req, job, elm);
  }

  lemma TombStaysAgain(s: State, z: State, req: Req, job: Job, elm: Elm)
    requires WellSized(z) && z.r.size > 0 && FreeSpace(z.r) < z.r.size && z.r.tail == z.r.tail2 != z.r.head
    requires req.user <= req.len && elm == z.r.buf[z.r.tail2] && !elm.done
    requires job.snap == z.r.tail && job.cur == z.r.tail2 && job.n == 0 && !job.changed && !job.passed
    requires job.sk == z.r.t == job.ck == z.r.t2
    requires Leads(s, z.(put := PAgain(req, job.limit)))
    ensures Leads(s, z.(put := PPlace(req)))
  {
    hide FreeSpace, ReapSize, Leads;
    var r := z.r;
    GoesOn(s, z.(put := PAgain(req, job.limit)), z.(put := PLoad(req, true, job)));
    GoesOn(s, z.(put := PLoad(req, true, job)), z.(put := PTest(req, true, job, elm)));
    var noted := Noted(true, job);
    GoesOn(s, z.(put := PTest(req, true, job, elm)), z.(put := PTail2(req, true, noted)));
    assert r.(tail2 := noted.cur, t2 := noted.ck) == r;
    GoesOn(s, z.(put := PTail2(req, true, noted)), z.(put := PCheck(req, noted)));
    GoesOn(s, z.(put := PCheck(req, noted)), z.(put := PCas(req, noted)));
    assert r.(tail := noted.cur, t := noted.ck) == r;
    GoesOn(s, z.(put := PCas(req, noted)), z.(put := PPlace(req)));
  }

  /** The element of the request has been appended, perhaps behind a tombstone; recs are those from before. */
  predicate Accepted(recs: seq<Rec>, z: State, user: nat) {
    var n := |z.r.recs|;
    && z.put.PIdle? && n > |recs| && z.r.recs[..|recs|] == recs
    && z.r.recs[n - 1].user == user && z.r.recs[n - 1].len == Aligned(user) && z.r.recs[n - 1].stage.Filling?
  }

  /** The request fits in an empty buffer, and if it would run over the end of the buffer, it also fits behind
      a tombstone of its own length. */
  predicate Fits(r: Ring, len: nat) {
    len + HEADER + 1 <= r.size && (r.head + len < r.size || 2 * len + HEADER + 1 <= r.size)
  }

  /** The put has stored its element where it was, and y is what it has come to. */
  ghost predicate Stored(r: Ring, req: Req, y: State)
    requires Sized(r) && r.size > 0
  {
    var n := |r.recs|;
    && y.get.GIdle? && y.r.size == r.size && y.r.t == r.t && y.r.t2 == r.t2
    && |y.r.recs| == n + 1 && r.recs <= y.r.recs
    && y.r.recs[n].user == req.user && y.r.recs[n].len == req.len && y.r.recs[n].off == r.head
    && y.r.recs[n].stage == (if r.head + req.len < r.size then Filling else Tomb)
    && y.put == if r.head + req.len < r.size then PIdle else PBegin(Req(req.len, req.user, true))
  }

  lemma PlacesHere(s: State, z: State, req: Req) returns (y: State)
    requires Leads(s, z) && Inv(s) && s.get.GIdle? && Inv(z) && z.put == PPlace(req) && !Lacks(z.r, req.len)
    requires z.get.GIdle? && z.r.size > 0
    ensures Leads(s, y) && Inv(y) && Stored(z.r, req, y)
  {
    hide AllOk, Pointers, PutOk, GetOk, Leads, Step;
    PlaceDecides(z);
    var x := Step(z, PutMove);
    GoesOn(s, z, x);
    LeadsKeeps(s, x);
    HeadAppends(x);
    y := Step(x, PutMove);
    GoesOn(s, x, y);
    LeadsKeeps(s, y);
    StepOfPut(x);
  }

  lemma StepOfPut(x: State)
    requires WellSized(x)
    ensures Step(x, PutMove).get == x.get
  {
  }

  lemma RefusedHere(s: State, z: State, req: Req)
    requires Leads(s, z) && Inv(z) && z.put == PPlace(req) && Lacks(z.r, req.len)
    ensures Leads(s, z.(put := PIdle))
  {
    PlaceDecides(z);
    GoesOn(s, z, z.(put := PIdle));
  }

  lemma TombLacks(z: State)
    requires OnlyTomb(z)
    ensures Sized(z.r)
    ensures
      var len := z.r.recs[z.r.t].len;
      && (Lacks(z.r, len) <==> 2 * len + HEADER + 1 > z.r.size)
      && (2 * len + HEADER + 1 <= z.r.size ==> z.r.head + len < z.r.size)
  {
    TombSeen(z.r, z);
    assert Ok(z.r, z.r.t);
  }

  /** Behind a tombstone of its own length there is room exactly if two of them fit. */
  lemma BehindTomb(s: State, z: State, req: Req) returns (y: State)
    requires Leads(s, z) && Inv(s) && s.get.GIdle? && OnlyTomb(z) && z.put == PBegin(req)
    requires z.r.recs[z.r.t].len == req.len && z.r.size > 0
    ensures Leads(s, y) && y.put.PIdle?
    ensures 2 * req.len + HEADER + 1 > z.r.size ==> y.r == z.r
    ensures 2 * req.len + HEADER + 1 <= z.r.size ==> Stored(z.r, req, y)
  {
    hide Inv, OnlyTomb, Ok, Leads, Rec.Image;
    TombStays(s, z, req);
    TombLacks(z);
    var p := z.(put := PPlace(req));
    LeadsKeeps(s, p);
    if Lacks(z.r, req.len) {
      RefusedHere(s, p, req);
      y := z.(put := PIdle);
    } else {
      y := PlacesHere(s, p, req);
    }
  }

  /** Once every element has been given back, and while no get is running: a put that runs on its own ends, and it
      succeeds exactly if the request fits. */
  lemma EmptyBufferServes(s: State, user: nat) returns (y: State)
    requires AllBack(s) && s.put.PIdle? && Aligned(user) <= s.r.size
    ensures Leads(PutStart(s, user), y) && y.put.PIdle?
    ensures Accepted(s.r.recs, y, user) <==> Fits(s.r, Aligned(user))
  {
    var req := Req(Aligned(user), user, false);
    var p := ComesToPlace(s, user);
    var b := PutStart(s, user);
    PutStartKeeps(s, user);
    hide Inv, AllBack, Leads, PutStart;
    if Lacks(p.r, req.len) {
      RefusedHere(b, p, req);
      y := p.(put := PIdle);
    } else {
      var x := PlacesHere(b, p, req);
      if s.r.head + req.len < s.r.size {
        y := x;
      } else {
        FirstIsTomb(p, req, x);
        y := BehindTomb(b, x, req.(own := true));
        StoredFirst(p, req, x, y);
      }
    }
  }

  /** So it is after every calm run that has come to rest with every element given back. */
  lemma GivenBackBufferServes(s: State, events: seq<Event>, user: nat) returns (y: State)
    requires Initial(s) && CalmRun(s, events) && Aligned(user) <= After(s, events).r.size
    requires var x := After(s, events); x.put.PIdle? && x.get.GIdle? && DeadUpTo(x.r, |x.r.recs|)
    ensures Leads(PutStart(After(s, events), user), y) && y.put.PIdle?
    ensures Accepted(After(s, events).r.recs, y, user) <==> Fits(After(s, events).r, Aligned(user))
  {
    hide After, CalmRun, Inv, Leads, PutStart, Accepted, Fits;
    RunKeepsInv(s, events);
    y := EmptyBufferServes(After(s, events), user);
  }

  /** In an empty ring of 4096 bytes whose head is at 120, a request for 4000 bytes is refused, although the buffer
      has room for it: its tombstone takes the room. */
  lemma EmptyBufferRefuses(s: State) returns (y: State)
    requires Initial(s) && s.r.size == 4096 && s.r.head == 120
    ensures Aligned(4000) + HEADER + 1 <= s.r.size
    ensures Leads(PutStart(s, 4000), y) && y.put.PIdle? && !Accepted(s.r.recs, y, 4000)
  {
    InitialInv(s);
    y := EmptyBufferServes(s, 4000);
  }

  /** Both reapers have run, and everything is reaped. */
  lemma ComesToPlace(s: State, user: nat) returns (p: State)
    requires AllBack(s) && s.put.PIdle? && Aligned(user) <= s.r.size
    ensures PutStart(s, user).get.GIdle? && Leads(PutStart(s, user), p) && Inv(p)
    ensures p == State(Reaped(s.r), PPlace(Req(Aligned(user), user, false)), GIdle)
    ensures p.r.t == |p.r.recs| && (Lacks(p.r, Aligned(user)) <==> Aligned(user) + HEADER + 1 > p.r.size)
  {
    var req := Req(Aligned(user), user, false);
    var b := PutStart(s, user);
    PutStartKeeps(s, user);
    assert Solo(b, 0) == b;
    AllBackMeansTaken(s);
    BeginSweeps(b, b, req);
    var a := State(Reaped(s.r), PAgain(req, ReapSize(s.r)), GIdle);
    LeadsKeeps(b, a);
    NothingLeft(b, a, req, ReapSize(s.r));
    p := a.(put := PPlace(req));
    LeadsKeeps(b, p);
  }

  lemma FirstIsTomb(p: State, req: Req, x: State)
    requires Sized(p.r) && p.r.size > 0 && Stored(p.r, req, x) && Inv(x) && p.r.t == p.r.t2 == |p.r.recs|
    requires p.r.head + req.len >= p.r.size
    ensures OnlyTomb(x) && x.r.recs[x.r.t].len == req.len
  {
    hide Inv;
  }

  lemma StoredFirst(p: State, req: Req, x: State, y: State)
    requires Sized(p.r) && p.r.size > 0 && Stored(p.r, req, x) && p.r.head + req.len >= p.r.size && Sized(x.r)
    requires req.len == Aligned(req.user) && req.len + HEADER + 1 <= p.r.size && y.put.PIdle?
    requires 2 * req.len + HEADER + 1 > x.r.size ==> y.r == x.r
    requires 2 * req.len + HEADER + 1 <= x.r.size ==> Stored(x.r, req.(own := true), y)
    ensures Accepted(p.r.recs, y, req.user) <==> Fits(p.r, req.len)
  {
    assert y.r.recs[..|p.r.recs|] == x.r.recs[..|p.r.recs|];
  }

  // ---------------------------------------------------------------- calm is exact

  /** One step of a get or of a user, while the put stands still. */
  predicate Other(e: Event) {
    e.Get? || e.GetMove? || e.MakeReady? || e.GiveBack?
  }

  lemma OthersLeavePut(s: State, e: Event)
    requires Inv(s) && Other(e)
    ensures SameForPut(s.r, Step(s, e).r)
  {
    match e
    case GetMove => GetStepKeeps(s);
    case MakeReady(i) => if i < |s.r.recs| { SetReadyKeeps(s, i); }
    case GiveBack(i) => if i < |s.r.recs| { SetDoneKeeps(s, i); }
    case _ =>
  }

  /** No put loads tail for the plain reaper after state y. */
  ghost predicate OneReap(y: State, events: seq<Event>) {
    forall n :: 0 <= n <= |events| ==> !After(y, events[..n]).put.PBegin?
  }

  ghost predicate CanReach(y: State, z: State) {
    exists events :: After(y, events) == z && OneReap(y, events)
  }

  lemma GoOn(y: State, z: State, e: Event)
    requires CanReach(y, z) && !Step(z, e).put.PBegin?
    ensures CanReach(y, Step(z, e))
  {
    var events :| After(y, events) == z && OneReap(y, events);
    var longer := events + [e];
    assert longer[..|events|] == events;
    forall n | 0 <= n <= |longer|
      ensures !After(y, longer[..n]).put.PBegin?
    {
      if n <= |events| {
        assert longer[..n] == events[..n];
      } else {
        assert longer[..n] == longer;
      }
    }
    assert After(y, longer) == Step(z, e);
  }

  /** State z, but with the put still at p, can be reached from y, and z has the ring of r0
      up to what the put relies on. */
  ghost predicate Parked(y: State, p: PutPc, r0: Ring, z: State)
    requires Sized(r0)
  {
    && Inv(z) && z.put.PIdle? && SameForPut(r0, z.r)
    && PutSized(z.r, p) && !p.PBegin? && CanReach(y, z.(put := p))
  }

  lemma ParkedStep(y: State, p: PutPc, r0: Ring, z: State, e: Event)
    requires Sized(r0) && Parked(y, p, r0, z) && Other(e)
    ensures Parked(y, p, r0, Step(z, e))
  {
    hide JobOk, CasOk, Ok, Pointers, LoadedOk;
    StepKeeps(z, e);
    OthersLeavePut(z, e);
    assert Step(z.(put := p), e) == Step(z, e).(put := p);
    GoOn(y, z.(put := p), e);
  }

  predicate Unfilled(r: Ring)
    requires Sized(r)
  {
    r.t < |r.recs| && r.recs[r.t].stage.Filling?
  }

  /** How many moves of get are left before it has passed the next element. */
  function Moves(z: State): nat {
    match z.get
    case GIdle => 6
    case GStart => 5
    case GLoad => 4
    case GMark(_, _) => 3
    case GDisown(_, _, _) => 3
    case GSkip(_, rank) => if z.r.t == rank then 2 else 7 // the put has moved tail already
    case GTake(_, _, _) => 2
  }

  /** What brings get to the next element. */
  function Onward(z: State): Event
    requires Sized(z.r)
  {
    if Unfilled(z.r) then MakeReady(z.r.t) else if z.get.GIdle? then Get else GetMove
  }

  lemma OnwardGains(z: State)
    requires Inv(z) && z.r.t < |z.r.recs| && Sized(Step(z, Onward(z)).r)
    ensures
      var z' := Step(z, Onward(z));
      || z'.r.t > z.r.t
      || (z'.r.t == z.r.t && Unfilled(z.r) && !Unfilled(z'.r))
      || (z'.r.t == z.r.t && Unfilled(z.r) == Unfilled(z'.r) && Moves(z') < Moves(z))
  {
    assert Ok(z.r, z.r.t);
    if z.get.GStart? {
      EmptyForGet(z.r);
    }
  }

  /** The gets can pass every element. */
  lemma {:induction false} DrainGets(y: State, p: PutPc, r0: Ring, z: State) returns (z': State)
    requires Sized(r0) && Parked(y, p, r0, z)
    ensures Parked(y, p, r0, z') && z'.r.t == |z'.r.recs|
    decreases |r0.recs| - z.r.t, Unfilled(z.r), Moves(z)
  {
    z' := z;
    if z.r.t < |z.r.recs| {
      ParkedStep(y, p, r0, z, Onward(z));
      OnwardGains(z);
      z' := DrainGets(y, p, r0, Step(z, Onward(z)));
    }
  }

  ghost predicate DeadUpTo(r: Ring, n: nat)
    requires n <= |r.recs|
  {
    forall i :: 0 <= i < n ==> r.recs[i].stage.Dead()
  }

  lemma GiveOneBack(z: State, i: nat)
    requires Inv(z) && i < |z.r.recs| == z.r.t && DeadUpTo(z.r, i)
    ensures Sized(Step(z, GiveBack(i)).r) && Step(z, GiveBack(i)).r.t == z.r.t
    ensures |Step(z, GiveBack(i)).r.recs| == |z.r.recs| && DeadUpTo(Step(z, GiveBack(i)).r, i + 1)
  {
    assert Ok(z.r, i);
  }

  /** And their users can give them all back. */
  lemma {:induction false} GiveAllBack(y: State, p: PutPc, r0: Ring, z: State, n: nat) returns (z': State)
    requires Sized(r0) && Parked(y, p, r0, z) && n <= |z.r.recs| == z.r.t && DeadUpTo(z.r, n)
    ensures Parked(y, p, r0, z') && DeadUpTo(z'.r, |z'.r.recs|)
    decreases |z.r.recs| - n
  {
    z' := z;
    if n < |z.r.recs| {
      ParkedStep(y, p, r0, z, GiveBack(n));
      GiveOneBack(z, n);
      z' := GiveAllBack(y, p, r0, Step(z, GiveBack(n)), n + 1);
    }
  }

  /** The plain reaper is on its way to head, where it will find a header that is done. */
  ghost predicate Walking(z: State, req: Req, job: Job) {
    && RingOk(z.r) && DeadUpTo(z.r, |z.r.recs|) && GetSized(z.r, z.get)
    && req.user <= req.len && z.put == PLoad(req, false, job)
    && z.r.t2 <= job.ck <= |z.r.recs| && job.cur == Phys(z.r, z.r.pos[job.ck])
    && job.n == z.r.pos[job.ck] - z.r.pos[z.r.t2] && job.limit > z.r.pos[|z.r.recs|] - z.r.pos[z.r.t2]
    && (forall i :: z.r.t2 <= i <= |z.r.recs| ==> Phys(z.r, z.r.pos[i]) != job.snap)
    && z.r.buf[z.r.head].done
  }

  lemma WalkStep(z: State, req: Req, job: Job)
    requires Walking(z, req, job) && job.ck < |z.r.recs|
    ensures
      var y := Step(z, PutMove);
      y.put.PTest? && Step(y, PutMove) == z.(put := PLoad(req, false, Advanced(z.r, job, z.r.buf[job.cur])))
    ensures
      var next := Advanced(z.r, job, z.r.buf[job.cur]);
      next.ck == job.ck + 1 && Walking(z.(put := PLoad(req, false, next)), req, next)
  {
    var r := z.r;
    assert Ok(r, job.ck);
    assert r.recs[job.ck].stage.Dead();
    CursorMoves(r, job, r.buf[job.cur]);
    Increasing(r, job.ck + 1, |r.recs|);
  }

  /** At head it takes one header too many. */
  lemma LastStep(z: State, req: Req, job: Job)
    requires Walking(z, req, job) && job.ck == |z.r.recs|
    ensures var y := Step(z, PutMove);
            y.put.PTest? && !Step(y, PutMove).put.PBegin? && !Within(Step(y, PutMove))
  {
  }

  lemma {:induction false} WalksOverHead(y: State, z: State, req: Req, job: Job) returns (z': State)
    requires Walking(z, req, job) && CanReach(y, z)
    ensures CanReach(y, z') && !Within(z')
    decreases |z.r.recs| - job.ck
  {
    if job.ck < |z.r.recs| {
      WalkStep(z, req, job);
    } else {
      LastStep(z, req, job);
    }
    GoOn(y, z, PutMove);
    z' := Step(Step(z, PutMove), PutMove);
    GoOn(y, Step(z, PutMove), PutMove);
    if job.ck < |z.r.recs| {
      z' := WalksOverHead(y, z', req, Advanced(z.r, job, z.r.buf[job.cur]));
    }
  }

  /** The other threads have left the reaper alone, and everything before head is dead. */
  lemma StartsWalking(s: State, z: State)
    requires Inv(s) && s.put.PBegin? && !Calm(s)
    requires Inv(z) && SameForPut(s.r, z.r) && DeadUpTo(z.r, |z.r.recs|)
    requires PutStep(s).put.PLoad?
    ensures Walking(z.(put := PutStep(s).put), s.put.req, PutStep(s).put.job)
  {
    StopsMeansStopsAt(s.r);
    FreeSpaceIsExact(s.r);
  }

  lemma BeginLoads(s: State)
    requires Inv(s) && s.put.PBegin?
    ensures PutStep(s).put.PLoad? && PutSized(s.r, PutStep(s).put) && PutStep(s).r == s.r
  {
    FreeSpaceIsExact(s.r);
    Increasing(s.r, s.r.t2, |s.r.recs|);
  }

  /** When the condition fails the other threads can make this very reaper pass head. */
  lemma NotCalmBreaks(s: State) returns (z: State)
    requires Inv(s) && s.put.PBegin? && !Calm(s)
    ensures CanReach(PutStep(s), z) && !Safe(z)
  {
    var y, z0 := PutStep(s), s.(put := PIdle);
    BeginLoads(s);
    assert After(y, []) == y && OneReap(y, []);
    assert z0.(put := y.put) == y;
    var z1 := DrainGets(y, y.put, s.r, z0);
    z1 := GiveAllBack(y, y.put, s.r, z1, 0);
    StartsWalking(s, z1);
    z := WalksOverHead(y, z1.(put := y.put), s.put.req, y.put.job);
  }

  lemma {:induction false} OneReapKeepsInv(y: State, events: seq<Event>)
    requires Inv(y) && OneReap(y, events)
    ensures Inv(After(y, events))
  {
    if events != [] {
      var n := |events| - 1;
      var front := events[..n];
      forall m | 0 <= m <= n
        ensures !After(y, front[..m]).put.PBegin?
      {
        assert front[..m] == events[..m];
      }
      OneReapKeepsInv(y, front);
      assert front == events[..n];
      StepKeeps(After(y, front), events[n]);
    }
  }

  /** The promises hold whatever the threads do after y, until a plain reaper starts again. */
  ghost predicate ReapIsSafe(y: State) {
    forall events :: OneReap(y, events) ==> Safe(After(y, events))
  }

  lemma CalmDecides(s: State)
    requires Inv(s) && s.put.PBegin?
    ensures Calm(s) <==> ReapIsSafe(PutStep(s))
  {
    if Calm(s) {
      BeginKeeps(s);
      forall events | OneReap(PutStep(s), events)
        ensures Safe(After(PutStep(s), events))
      {
        OneReapKeepsInv(PutStep(s), events);
        InvIsSafe(After(PutStep(s), events));
      }
    } else {
      var z := NotCalmBreaks(s);
      var events :| After(PutStep(s), events) == z && OneReap(PutStep(s), events);
    }
  }

  /** The condition is exact.  In every state that a calm run reaches, a plain reaper that loads
      tail now is safe, whatever the other threads do, if and only if it is calm. */
  lemma CalmIsExact(s: State, events: seq<Event>)
    requires Initial(s) && CalmRun(s, events) && After(s, events).put.PBegin?
    ensures Calm(After(s, events)) <==> ReapIsSafe(Step(After(s, events), PutMove))
  {
    hide ReapIsSafe, Calm, CalmRun, After, AllOk, Pointers, PutOk, GetOk;
    RunKeepsInv(s, events);
    CalmDecides(After(s, events));
  }

  // ---------------------------------------------------------------- a run that is not calm

  ghost predicate Reaches(s: State, z: State) {
    exists events :: After(s, events) == z
  }

  lemma Move(s: State, y: State, e: Event, z: State)
    requires Reaches(s, y) && Step(y, e) == z
    ensures Reaches(s, z)
  {
    var events :| After(s, events) == y;
    var longer := events + [e];
    assert longer[..|longer| - 1] == events;
    assert After(s, longer) == z;
  }

  lemma Circle()
    ensures 1 % 4096 == 1 && 57 % 4096 == 57 && 121 % 4096 == 121 && 4088 % 4096 == 4088 && 4089 % 4096 == 4089
    ensures 4152 % 4096 == 56
  {
  }

  lemma FreeIs(r: Ring, next: nat, n: nat)
    requires 0 < r.size && (r.head + 1) % r.size == next && r.tail2 != next && RawSpace(r) == n + HEADER + 1 && n < WORD
    ensures FreeSpace(r) == n
  {
    Small(WORD, n);
  }

  /** The plain reaper does nothing when tail2 has caught up with tail. */
  lemma NothingToReap(s: State, r: Ring, q: Req, get: GetPc)
    requires Sized(r) && GetSized(r, get) && q.user <= q.len && r.size > 0 && r.tail == r.tail2
    requires Reaches(s, State(r, PBegin(q), get)) && FreeSpace(r) < r.size
    ensures Reaches(s, State(r, PAgain(q, ReapSize(r)), get))
  {
    var job := Job(r.tail, r.tail2, 0, ReapSize(r), false, false, r.t, r.t2);
    Move(s, State(r, PBegin(q), get), PutMove, State(r, PLoad(q, false, job), get));
    Move(s, State(r, PLoad(q, false, job), get), PutMove, State(r, PTest(q, false, job, r.buf[job.cur]), get));
    Move(s, State(r, PTest(q, false, job, r.buf[job.cur]), get), PutMove, State(r, PAgain(q, ReapSize(r)), get));
  }

  const REQ := Req(64, 48, false)
  const OWNING := Req(64, 48, true)
  const FIRST := Req(3968, 3952, false)
  const FIRST_FRESH := Elm(3968, 16, true, false, false, false, false)
  const FIRST_READY := Elm(3968, 16, true, true, false, false, false)
  const FIRST_DONE := Elm(3968, 16, false, false, true, false, false)
  const OWNER_READY := Elm(64, 16, true, true, false, false, true)
  const DONE := Elm(64, 16, false, false, true, false, false)
  const TOMB := Elm(64, 16, false, true, false, true, false)
  const TOMB_DONE := Elm(64, 16, false, true, true, true, false)

  /** The aggressive reaper of the second put has loaded tail. */
  const WAITING := PLoad(OWNING, true, Job(120, 120, 0, 8082, false, false, 0, 0))
  /** It has reaped up to head. */
  const STORING := PTail2(OWNING, true, Job(120, 56, 4032, 8082, true, true, 0, 2))
  /** The plain reaper of the third put has loaded tail while tail2 is ahead of it. */
  const STALE := PLoad(REQ, false, Job(4088, 56, 0, 146, false, false, 1, 2))

  /** It has walked over element 2. */
  const AT_HEAD := PLoad(REQ, false, Job(4088, 120, 64, 146, true, false, 1, 3))

  // The rings of the run, for any first contents b of an empty buffer of 4096 bytes.

  function Ring0(b: seq<Elm>): Ring {
    Ring(4096, b, 120, 120, 120, [120], [], 0, 0, [])
  }

  /** The first put has placed element 0. */
  function Ring1(b: seq<Elm>): Ring
    requires |b| == 4096
  {
    Ring(4096, b[120 := FIRST_FRESH], 4088, 120, 120,
         [120, 4088], [Rec(3968, 3952, Filling, false, 120, 0)], 0, 0, [])
  }

  /** The second put has placed tombstone 1. */
  function Ring2(b: seq<Elm>): Ring
    requires |b| == 4096
  {
    Ring(4096, b[120 := FIRST_FRESH][4088 := TOMB],
         56, 120, 120, [120, 4088, 4152],
         [Rec(3968, 3952, Filling, false, 120, 0), Rec(64, 48, Tomb, false, 4088, 0)], 0, 0, [])
  }

  /** Element 0 has been taken and given back, and get has marked tombstone 1. */
  function Ring3(b: seq<Elm>): Ring
    requires |b| == 4096
  {
    Ring(4096, b[120 := FIRST_DONE][4088 := TOMB_DONE],
         56, 4088, 120, [120, 4088, 4152],
         [Rec(3968, 3952, Done, false, 120, 120), Rec(64, 48, TombDone, false, 4088, 0)], 1, 0, [Got(120, 3952)])
  }

  /** The second put has reaped both and has placed element 2. */
  function Ring4(b: seq<Elm>): Ring
    requires |b| == 4096
  {
    Ring(4096, b[120 := FIRST_DONE][4088 := TOMB_DONE]
               [56 := Elm(64, 16, true, false, false, false, true)],
         120, 4088, 56, [120, 4088, 4152, 4216],
         [Rec(3968, 3952, Done, false, 120, 120), Rec(64, 48, TombDone, false, 4088, 0),
           Rec(64, 48, Filling, true, 56, 0)],
         1, 2, [Got(120, 3952)])
  }

  /** Element 2 has been taken and given back. */
  function Ring5(b: seq<Elm>): Ring
    requires |b| == 4096
  {
    Ring(4096, b[120 := FIRST_DONE][4088 := TOMB_DONE]
               [56 := DONE],
         120, 120, 56, [120, 4088, 4152, 4216],
         [Rec(3968, 3952, Done, false, 120, 120), Rec(64, 48, TombDone, false, 4088, 0),
           Rec(64, 48, Done, false, 56, 56)],
         3, 2, [Got(120, 3952), Got(56, 48)])
  }

  /** The first put reaps nothing. */
  lemma FirstReap(s: State, b: seq<Elm>)
    requires |b| == 4096
    requires Reaches(s, State(Ring0(b), PIdle, GIdle))
    ensures Reaches(s, State(Ring0(b), PPlace(FIRST), GIdle))
  {
    var r, q, job := Ring0(b), FIRST, Job(120, 120, 0, 18, false, false, 0, 0);
    Move(s, State(Ring0(b), PIdle, GIdle), Put(3952), State(r, PBegin(q), GIdle));
    Circle();
    FreeIs(r, 121, 4087);
    NothingToReap(s, r, q, GIdle);
    Move(s, State(r, PAgain(q, 18), GIdle), PutMove, State(r, PLoad(q, true, job), GIdle));
    Move(s, State(r, PLoad(q, true, job), GIdle), PutMove, State(r, PTest(q, true, job, b[120]), GIdle));
    Move(s, State(r, PTest(q, true, job, b[120]), GIdle), PutMove, State(Ring0(b), PPlace(FIRST), GIdle));
  }

  /** It fits. */
  lemma FirstPlace(s: State, b: seq<Elm>)
    requires |b| == 4096
    requires Reaches(s, State(Ring0(b), PPlace(FIRST), GIdle))
    ensures Reaches(s, State(Ring1(b), PIdle, GIdle))
  {
    var r, q := Ring0(b), FIRST;
    assert r.pos + [4088] == [120, 4088];
    Circle();
    FreeIs(r, 121, 4087);
    assert NewHeader(r, q, 4088) == Ring1(b).buf[120];
    Move(s, State(Ring0(b), PPlace(FIRST), GIdle), PutMove, State(r.(buf := Ring1(b).buf), PHead(q, 4088), GIdle));
    Move(s, State(r.(buf := Ring1(b).buf), PHead(q, 4088), GIdle), PutMove, State(Ring1(b), PIdle, GIdle));
  }

  /** The second put reaps nothing. */
  lemma SecondReap(s: State, b: seq<Elm>)
    requires |b| == 4096
    requires Reaches(s, State(Ring1(b), PIdle, GIdle))
    ensures Reaches(s, State(Ring1(b), PTail2(REQ, true, Job(120, 120, 0, 7954, true, true, 0, 0)), GIdle))
  {
    var r, q, job := Ring1(b), REQ, Job(120, 120, 0, 7954, false, false, 0, 0);
    Move(s, State(Ring1(b), PIdle, GIdle), Put(48), State(r, PBegin(q), GIdle));
    Circle();
    FreeIs(r, 4089, 119);
    NothingToReap(s, r, q, GIdle);
    Move(s, State(r, PAgain(q, 7954), GIdle), PutMove, State(r, PLoad(q, true, job), GIdle));
    Move(s, State(r, PLoad(q, true, job), GIdle), PutMove, State(r, PTest(q, true, job, r.buf[120]), GIdle));
    Move(s, State(r, PTest(q, true, job, r.buf[120]), GIdle), PutMove,
         State(Ring1(b), PTail2(REQ, true, Job(120, 120, 0, 7954, true, true, 0, 0)), GIdle));
  }

  lemma SecondCas(s: State, b: seq<Elm>)
    requires |b| == 4096
    requires Reaches(s, State(Ring1(b), PTail2(REQ, true, Job(120, 120, 0, 7954, true, true, 0, 0)), GIdle))
    ensures Reaches(s, State(Ring1(b), PPlace(REQ), GIdle))
  {
    var r, q, job := Ring1(b), REQ, Job(120, 120, 0, 7954, true, true, 0, 0);
    Move(s, State(Ring1(b), PTail2(REQ, true, Job(120, 120, 0, 7954, true, true, 0, 0)), GIdle), PutMove,
         State(r, PCheck(q, job), GIdle));
    Move(s, State(r, PCheck(q, job), GIdle), PutMove, State(r, PCas(q, job), GIdle));
    Move(s, State(r, PCas(q, job), GIdle), PutMove, State(Ring1(b), PPlace(REQ), GIdle));
  }

  /** Its element would wrap, so it places a tombstone and starts again. */
  lemma Tombstone(s: State, b: seq<Elm>)
    requires |b| == 4096
    requires Reaches(s, State(Ring1(b), PPlace(REQ), GIdle))
    ensures Reaches(s, State(Ring2(b), PBegin(OWNING), GIdle))
  {
    var r, r', q := Ring1(b), Ring2(b), REQ;
    assert r.pos + [4152] == r'.pos && r.recs + [Rec(64, 48, Tomb, false, 4088, 0)] == r'.recs;
    Circle();
    FreeIs(r, 4089, 119);
    assert NewHeader(r, q, 56) == r'.buf[4088];
    Move(s, State(Ring1(b), PPlace(REQ), GIdle), PutMove, State(r.(buf := r'.buf), PHead(q, 56), GIdle));
    Move(s, State(r.(buf := r'.buf), PHead(q, 56), GIdle), PutMove, State(Ring2(b), PBegin(OWNING), GIdle));
  }

  /** Its aggressive reaper loads tail. */
  lemma ThirdReap(s: State, b: seq<Elm>)
    requires |b| == 4096
    requires Reaches(s, State(Ring2(b), PBegin(OWNING), GIdle))
    ensures Reaches(s, State(Ring2(b), WAITING, GIdle))
  {
    var r, q := Ring2(b), OWNING;
    Circle();
    FreeIs(r, 57, 55);
    NothingToReap(s, r, q, GIdle);
    Move(s, State(r, PAgain(q, 8082), GIdle), PutMove, State(Ring2(b), WAITING, GIdle));
  }

  /** Then element 0 is filled. */
  function Ring2Ready(b: seq<Elm>): Ring
    requires |b| == 4096
  {
    Ring2(b).(buf := b[120 := FIRST_READY][4088 := TOMB],
              recs := [Rec(3968, 3952, Ready, false, 120, 0), Rec(64, 48, Tomb, false, 4088, 0)])
  }

  /** And taken and given back. */
  function Ring2Taken(b: seq<Elm>): Ring
    requires |b| == 4096
  {
    Ring2(b).(buf := b[120 := FIRST_DONE][4088 := TOMB],
              tail := 4088, t := 1, taken := [Got(120, 3952)],
              recs := [Rec(3968, 3952, Done, false, 120, 120), Rec(64, 48, Tomb, false, 4088, 0)])
  }

  lemma GetLooks(s: State, b: seq<Elm>)
    requires |b| == 4096
    requires Reaches(s, State(Ring2(b), WAITING, GIdle))
    ensures Reaches(s, State(Ring2Ready(b), WAITING, GTake(120, 4088, FIRST_READY)))
  {
    var r, p, e := Ring2Ready(b), WAITING, FIRST_READY;
    assert Ring2(b).recs[0 := r.recs[0]] == r.recs && Ring2(b).buf[120 := e] == r.buf;
    Move(s, State(Ring2(b), WAITING, GIdle), MakeReady(0), State(r, p, GIdle));
    Move(s, State(r, p, GIdle), Get, State(r, p, GStart));
    Move(s, State(r, p, GStart), GetMove, State(r, p, GLoad));
    Circle();
    Move(s, State(r, p, GLoad), GetMove, State(Ring2Ready(b), WAITING, GTake(120, 4088, FIRST_READY)));
  }

  lemma GetTakes(s: State, b: seq<Elm>)
    requires |b| == 4096
    requires Reaches(s, State(Ring2Ready(b), WAITING, GTake(120, 4088, FIRST_READY)))
    ensures Reaches(s, State(Ring2Taken(b), WAITING, GIdle))
  {
    var r, p := Ring2Ready(b), WAITING;
    var r' := r.(tail := 4088, t := 1, taken := [Got(120, 3952)],
                     recs := [Rec(3968, 3952, Taken, false, 120, 120), r.recs[1]]);
    assert r.recs[0 := r'.recs[0]] == r'.recs && r'.recs[0 := Ring2Taken(b).recs[0]] == Ring2Taken(b).recs;
    assert r.taken + [Got(120, 3952)] == r'.taken && r'.buf[120 := Ring2Taken(b).buf[120]] == Ring2Taken(b).buf;
    Move(s, State(Ring2Ready(b), WAITING, GTake(120, 4088, FIRST_READY)), GetMove, State(r', p, GIdle));
    Move(s, State(r', p, GIdle), GiveBack(0), State(Ring2Taken(b), WAITING, GIdle));
  }

  /** And get marks the tombstone. */
  lemma GetMarks(s: State, b: seq<Elm>)
    requires |b| == 4096
    requires Reaches(s, State(Ring2Taken(b), WAITING, GIdle))
    ensures Reaches(s, State(Ring3(b), WAITING, GSkip(56, 1)))
  {
    var r, p := Ring2Taken(b), WAITING;
    assert r.recs[1 := Ring3(b).recs[1]] == Ring3(b).recs;
    assert r.buf[4088 := Ring3(b).buf[4088]] == Ring3(b).buf;
    Move(s, State(Ring2Taken(b), WAITING, GIdle), Get, State(r, p, GStart));
    Move(s, State(r, p, GStart), GetMove, State(r, p, GLoad));
    assert r.buf[4088] == TOMB; Circle();
    Move(s, State(r, p, GLoad), GetMove, State(r, p, GMark(4088, 56)));
    assert Reclaimable(r.buf[4088]) == Ring3(b).buf[4088];
    Move(s, State(r, p, GMark(4088, 56)), GetMove, State(Ring3(b), WAITING, GSkip(56, 1)));
  }

  /** The aggressive reaper goes up to head, past tail. */
  lemma PutReapsAhead(s: State, b: seq<Elm>)
    requires |b| == 4096
    requires Reaches(s, State(Ring3(b), WAITING, GSkip(56, 1)))
    ensures Reaches(s, State(Ring3(b), STORING, GSkip(56, 1)))
  {
    var r, q, g := Ring3(b), OWNING, GSkip(56, 1);
    var job, job1, job2 := Job(120, 120, 0, 8082, false, false, 0, 0), Job(120, 4088, 3968, 8082, true, true, 0, 1),
      Job(120, 56, 4032, 8082, true, true, 0, 2);
    assert r.buf[120] == FIRST_DONE && r.buf[4088] == TOMB_DONE;
    assert (120 + 3968) % 4096 == 4088; Circle();
    Move(s, State(Ring3(b), WAITING, GSkip(56, 1)), PutMove, State(r, PTest(q, true, job, r.buf[120]), g));
    Move(s, State(r, PTest(q, true, job, r.buf[120]), g), PutMove, State(r, PLoad(q, true, job1), g));
    Move(s, State(r, PLoad(q, true, job1), g), PutMove, State(r, PTest(q, true, job1, r.buf[4088]), g));
    Move(s, State(r, PTest(q, true, job1, r.buf[4088]), g), PutMove, State(r, PLoad(q, true, job2), g));
    Move(s, State(r, PLoad(q, true, job2), g), PutMove, State(r, PTest(q, true, job2, r.buf[56]), g));
    Move(s, State(r, PTest(q, true, job2, r.buf[56]), g), PutMove, State(Ring3(b), STORING, GSkip(56, 1)));
  }

  /** As tail has moved since, it is left alone, and the put places its element. */
  lemma PutPlaces(s: State, b: seq<Elm>)
    requires |b| == 4096
    requires Reaches(s, State(Ring3(b), STORING, GSkip(56, 1)))
    ensures Reaches(s, State(Ring3(b).(tail2 := 56, t2 := 2, buf := Ring4(b).buf), PHead(OWNING, 120), GSkip(56, 1)))
  {
    var r, q, g, job := Ring3(b).(tail2 := 56, t2 := 2), OWNING, GSkip(56, 1),
      Job(120, 56, 4032, 8082, true, true, 0, 2);
    Move(s, State(Ring3(b), STORING, GSkip(56, 1)), PutMove, State(r, PCheck(q, job), g));
    Move(s, State(r, PCheck(q, job), g), PutMove, State(r, PPlace(q), g));
    Circle();
    FreeIs(r, 57, 4087);
    assert NewHeader(r, q, 120) == Ring4(b).buf[56];
    Move(s, State(r, PPlace(q), g), PutMove,
         State(Ring3(b).(tail2 := 56, t2 := 2, buf := Ring4(b).buf), PHead(OWNING, 120), GSkip(56, 1)));
  }

  lemma PutReturns(s: State, b: seq<Elm>)
    requires |b| == 4096
    requires Reaches(s, State(Ring3(b).(tail2 := 56, t2 := 2, buf := Ring4(b).buf), PHead(OWNING, 120), GSkip(56, 1)))
    ensures Reaches(s, State(Ring4(b), PIdle, GSkip(56, 1)))
  {
    assert Ring3(b).pos + [4216] == Ring4(b).pos
      && Ring3(b).recs + [Rec(64, 48, Filling, true, 56, 0)] == Ring4(b).recs;
    Move(s, State(Ring3(b).(tail2 := 56, t2 := 2, buf := Ring4(b).buf), PHead(OWNING, 120), GSkip(56, 1)), PutMove,
         State(Ring4(b), PIdle, GSkip(56, 1)));
  }

  /** The third put loads tail, and then get stores tail. */
  lemma GetSkips(s: State, b: seq<Elm>)
    requires |b| == 4096
    requires Reaches(s, State(Ring4(b), PIdle, GSkip(56, 1)))
    ensures Reaches(s, State(Ring4(b).(tail := 56, t := 2), STALE, GStart))
  {
    var r, q, g := Ring4(b), REQ, GSkip(56, 1);
    Move(s, State(Ring4(b), PIdle, GSkip(56, 1)), Put(48), State(r, PBegin(q), g));
    Move(s, State(r, PBegin(q), g), PutMove, State(r, STALE, g));
    Move(s, State(r, STALE, g), GetMove, State(Ring4(b).(tail := 56, t := 2), STALE, GStart));
  }

  /** Element 2 is filled, and get disowns it. */
  function Ring4Ready(b: seq<Elm>, owner: bool): Ring
    requires |b| == 4096
  {
    Ring4(b).(tail := 56, t := 2,
              buf := b[120 := FIRST_DONE][4088 := TOMB_DONE]
                      [56 := Elm(64, 16, true, true, false, false, owner)],
              recs := [Rec(3968, 3952, Done, false, 120, 120), Rec(64, 48, TombDone, false, 4088, 0),
                Rec(64, 48, Ready, owner, 56, 0)])
  }

  lemma LastIsFilled(s: State, b: seq<Elm>)
    requires |b| == 4096
    requires Reaches(s, State(Ring4(b).(tail := 56, t := 2), STALE, GStart))
    ensures Reaches(s, State(Ring4Ready(b, true), STALE, GStart))
  {
    var r, p, e := Ring4(b).(tail := 56, t := 2), STALE, OWNER_READY;
    var r1 := Ring4Ready(b, true);
    assert r.recs[2 := r1.recs[2]] == r1.recs && r.buf[56 := e] == r1.buf;
    Move(s, State(Ring4(b).(tail := 56, t := 2), STALE, GStart), MakeReady(2),
         State(Ring4Ready(b, true), STALE, GStart));
  }

  lemma GetLooksAgain(s: State, b: seq<Elm>)
    requires |b| == 4096
    requires Reaches(s, State(Ring4Ready(b, true), STALE, GStart))
    ensures Reaches(s, State(Ring4Ready(b, true), STALE, GDisown(56, 120, OWNER_READY)))
  {
    var r, p := Ring4Ready(b, true), STALE;
    Circle();
    assert r.buf[56] == OWNER_READY;
    Move(s, State(Ring4Ready(b, true), STALE, GStart), GetMove, State(r, p, GLoad));
    Move(s, State(r, p, GLoad), GetMove, State(Ring4Ready(b, true), STALE, GDisown(56, 120, OWNER_READY)));
  }

  lemma GetDisowns(s: State, b: seq<Elm>)
    requires |b| == 4096
    requires Reaches(s, State(Ring4Ready(b, true), STALE, GDisown(56, 120, OWNER_READY)))
    ensures Reaches(s, State(Ring4Ready(b, false), STALE, GTake(56, 120, OWNER_READY)))
  {
    var r, r' := Ring4Ready(b, true), Ring4Ready(b, false);
    assert r.recs[2 := r'.recs[2]] == r'.recs && r.buf[56 := r'.buf[56]] == r'.buf;
    Move(s, State(Ring4Ready(b, true), STALE, GDisown(56, 120, OWNER_READY)), GetMove,
         State(Ring4Ready(b, false), STALE, GTake(56, 120, OWNER_READY)));
  }

  /** It is taken and given back, which leaves the buffer empty. */
  lemma GetEmpties(s: State, b: seq<Elm>)
    requires |b| == 4096
    requires Reaches(s, State(Ring4Ready(b, false), STALE, GTake(56, 120, OWNER_READY)))
    ensures Reaches(s, State(Ring5(b), STALE, GIdle))
  {
    var r, p := Ring4Ready(b, false), STALE;
    var r' := r.(tail := 120, t := 3, taken := Ring5(b).taken,
                     recs := [r.recs[0], r.recs[1], Rec(64, 48, Taken, false, 56, 56)]);
    assert r.recs[2 := r'.recs[2]] == r'.recs && r.taken + [Got(56, 48)] == r'.taken;
    assert r'.recs[2 := Ring5(b).recs[2]] == Ring5(b).recs && r'.buf[56 := Ring5(b).buf[56]] == Ring5(b).buf;
    Move(s, State(Ring4Ready(b, false), STALE, GTake(56, 120, OWNER_READY)), GetMove, State(r', p, GIdle));
    Move(s, State(r', p, GIdle), GiveBack(2), State(Ring5(b), STALE, GIdle));
  }

  /** The plain reaper reaches head. */
  lemma PutMeetsHead(s: State, b: seq<Elm>)
    requires |b| == 4096
    requires Reaches(s, State(Ring5(b), STALE, GIdle))
    ensures Reaches(s, State(Ring5(b), AT_HEAD, GIdle))
  {
    var q, r, job := REQ, Ring5(b), Job(4088, 56, 0, 146, false, false, 1, 2);
    Circle();
    assert r.buf[56] == DONE;
    Move(s, State(Ring5(b), STALE, GIdle), PutMove, State(r, PTest(q, false, job, DONE), GIdle));
    Move(s, State(r, PTest(q, false, job, DONE), GIdle), PutMove, State(Ring5(b), AT_HEAD, GIdle));
  }

  /** There it finds the stale header of element 0. */
  lemma PutPassesHead(s: State, b: seq<Elm>)
    requires |b| == 4096
    requires Reaches(s, State(Ring5(b), AT_HEAD, GIdle))
    ensures Reaches(s, State(Ring5(b).(tail2 := 4088, t2 := 4), PAgain(REQ, 146), GIdle))
  {
    var q, r, job := REQ, Ring5(b), Job(4088, 120, 64, 146, true, false, 1, 3);
    var job2 := Job(4088, 4088, 4032, 146, true, false, 1, 4);
    Circle();
    assert r.buf[120] == FIRST_DONE;
    Move(s, State(Ring5(b), AT_HEAD, GIdle), PutMove, State(r, PTest(q, false, job, FIRST_DONE), GIdle));
    Move(s, State(r, PTest(q, false, job, FIRST_DONE), GIdle), PutMove, State(r, PTail2(q, false, job2), GIdle));
    Move(s, State(r, PTail2(q, false, job2), GIdle), PutMove,
         State(Ring5(b).(tail2 := 4088, t2 := 4), PAgain(REQ, 146), GIdle));
  }

  lemma TheRun(s: State, b: seq<Elm>)
    requires |b| == 4096 && s == State(Ring0(b), PIdle, GIdle)
    ensures Reaches(s, State(Ring5(b).(tail2 := 4088, t2 := 4), PAgain(REQ, 146), GIdle))
  {
    assert After(s, []) == s;
    FirstReap(s, b);
    FirstPlace(s, b);
    SecondReap(s, b);
    SecondCas(s, b);
    Tombstone(s, b);
    ThirdReap(s, b);
    GetLooks(s, b);
    GetTakes(s, b);
    GetMarks(s, b);
    PutReapsAhead(s, b);
    PutPlaces(s, b);
    PutReturns(s, b);
    GetSkips(s, b);
    LastIsFilled(s, b);
    GetLooksAgain(s, b);
    GetDisowns(s, b);
    GetEmpties(s, b);
    PutMeetsHead(s, b);
    PutPassesHead(s, b);
  }

  predicate Broken(s: State) {
    s.r.head == 120 && s.r.tail == 120 && s.r.tail2 == 4088 && s.r.size == 4096 && FreeSpace(s.r) == 3959
      && s.r.taken == [Got(120, 3952), Got(56, 48)]
  }

  /** Without calm the promise breaks, whatever the buffer holds at first: a get stays between
      marking a tombstone and storing tail while a put finishes and the next one loads tail.
      The plain reaper of that put then walks over head into the headers of the previous lap.
      The buffer is empty, but tail2 has left head, and 128 bytes of free space are gone. */
  lemma StaleTailBreaksTheRing(s: State)
    requires Initial(s) && s.r.size == 4096 && s.r.head == 120
    ensures exists events :: Broken(After(s, events)) && !Safe(After(s, events)) && !CalmRun(s, events)
  {
    var z := State(Ring5(s.r.buf).(tail2 := 4088, t2 := 4), PAgain(REQ, 146), GIdle);
    TheRun(s, s.r.buf);
    var events :| After(s, events) == z;
    Circle();
    FreeIs(z.r, 121, 3959);
    assert Broken(z) && !Safe(z);
    if CalmRun(s, events) {
      EveryCalmRunIsSafe(s, events);
    }
  }
}
