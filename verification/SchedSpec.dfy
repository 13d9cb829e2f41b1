/** The scheduling protocol of kernel/src/sched.rs as a transition system: round-robin choice,
    blocking with an atomic check, wake-ups, signals, stop, exit, fork, wait and the disk slot
    pool (frame/io_scheduler.frs).

    One step is one stretch of kernel code that runs with interrupts off, so a timer tick, a
    device wake-up or a signal can fall between any two steps. `at` records where in the kernel a
    process will continue when it is next chosen. */
module SchedSpec {
  const MAX_THREADS := 8
  const N_SLOTS := 8
  const SIGKILL := 9
  const SIGCHLD := 17
  const SIGCONT := 18

  datatype RunState = Free | Runnable | Blocked | Stopped | Dead

  /** Where a process continues: in user code, in the sleep of `do_wait_loop`, behind that sleep with
      interrupts still on, in `acquire_disk`, between `acquire_disk` and `release_disk`, or in some
      other `block_current_until` (inside a disk transaction or not). */
  datatype Point =
    | User
    | InWait(target: nat)
    | Woken(target: nat)
    | InAcquire
    | Holding
    | Poll(holding: bool)

  /** The points at which a process may be put to sleep. */
  predicate CanSleep(at: Point) { at.InWait? || at.InAcquire? || at.Poll? }

  datatype Tcb = Tcb(state: RunState, pid: nat, parent: nat, at: Point, pending: set<nat>)

  const TCB_INIT := Tcb(Free, 0, 0, User, {})

  /** The slot-pool supervisor: free slots, owners by pid, and the requesters queued. */
  datatype Pool = Pool(free: seq<nat>, owners: map<nat, nat>, queue: seq<nat>)

  /** `live` is the count the Frame Scheduler keeps; `born` and `reaped` record, for the statements
      below only, which pid was created by whom and which were reaped. */
  datatype Sys = Sys(
    t: seq<Tcb>, n: nat, cur: nat, live: nat, nextPid: nat, io: Pool, born: map<nat, nat>, reaped: set<nat>)

  function SetState(p: Tcb, st: RunState): (r: Tcb) { Tcb(st, p.pid, p.parent, p.at, p.pending) }
  function SetAt(p: Tcb, at: Point): (r: Tcb) { Tcb(p.state, p.pid, p.parent, at, p.pending) }

  function WithT(s: Sys, t: seq<Tcb>): (r: Sys) { Sys(t, s.n, s.cur, s.live, s.nextPid, s.io, s.born, s.reaped) }

  // --- the slot scans -------------------------------------------------------------------

  /** The tests of the loops over TCB slots. */
  datatype Query =
    | FreeSlot
    | OfPid(pid: nat)
    | BlockedPid(pid: nat)
    | ChildOf(parent: nat, target: nat)
    | DeadChild(parent: nat, target: nat)
    | StoppedChild(parent: nat, target: nat)

  predicate IsChild(p: Tcb, parent: nat, target: nat) { p.parent == parent && (target == 0 || p.pid == target) }

  predicate Hit(q: Query, p: Tcb) {
    match q
    case FreeSlot => p.state == Free
    case OfPid(pid) => p.pid == pid && p.state != Free
    case BlockedPid(pid) => p.pid == pid && p.state == Blocked
    case ChildOf(parent, target) => IsChild(p, parent, target) && p.state != Free
    case DeadChild(parent, target) => IsChild(p, parent, target) && p.state == Dead
    case StoppedChild(parent, target) => IsChild(p, parent, target) && p.state == Stopped
  }

  /** The first slot in `[lo, hi)` that passes the test, `hi` if none. */
  function Find(t: seq<Tcb>, q: Query, lo: nat, hi: nat): (r: nat)
    requires lo <= hi <= |t|
    ensures lo <= r <= hi && (r < hi ==> Hit(q, t[r])) && forall i :: lo <= i < r ==> !Hit(q, t[i])
    decreases hi - lo
  {
    if lo == hi then hi else if Hit(q, t[lo]) then lo else Find(t, q, lo + 1, hi)
  }

  /** `wait`'s predicate: a matching child is dead or stopped, or there is none. */
  predicate WaitReady(t: seq<Tcb>, n: nat, me: nat, target: nat)
    requires 1 <= n <= |t|
  {
    || Find(t, DeadChild(me, target), 1, n) < n
    || Find(t, StoppedChild(me, target), 1, n) < n
    || Find(t, ChildOf(me, target), 1, n) == n
  }

  // --- counting ---------------------------------------------------------------------------

  predicate Alive(p: Tcb) { p.state == Runnable || p.state == Blocked || p.state == Stopped }

  function LiveCount(t: seq<Tcb>): (r: nat) {
    if t == [] then 0 else (if Alive(t[0]) then 1 else 0) + LiveCount(t[1..])
  }

  lemma {:induction false} LiveCountUpdate(t: seq<Tcb>, i: nat, p: Tcb)
    requires i < |t|
    ensures LiveCount(t[i := p]) == LiveCount(t) - (if Alive(t[i]) then 1 else 0) + (if Alive(p) then 1 else 0)
  {
    if i == 0 {
      assert t[0 := p][1..] == t[1..];
    } else {
      assert t[i := p][1..] == t[1..][i - 1 := p];
      LiveCountUpdate(t[1..], i - 1, p);
    }
  }

  lemma {:induction false} LiveCountZero(t: seq<Tcb>)
    ensures LiveCount(t) == 0 <==> forall i :: 0 <= i < |t| ==> !Alive(t[i])
  {
    if t != [] {
      LiveCountZero(t[1..]);
      assert forall i :: 0 <= i < |t| ==> i == 0 || t[i] == t[1..][i - 1];
    }
  }

  // --- the invariant ------------------------------------------------------------------------

  /** Table shape: slot 0 is the boot context, slots from `n` on were never used, free slots are blank. */
  ghost predicate TableOk(s: Sys) {
    && |s.t| == MAX_THREADS && 1 <= s.n < MAX_THREADS && s.cur < s.n
    && s.t[0].state == Runnable && s.t[0].pid == 0 && s.t[0].parent == 0 && s.t[0].at == User
    && s.t[s.cur].state != Free
    && (forall i :: s.n <= i < MAX_THREADS ==> s.t[i].state == Free)
    && (forall i :: 0 <= i < MAX_THREADS && s.t[i].state == Free ==> s.t[i] == TCB_INIT)
  }

  /** Pids are unique, belong to a recorded parent and are not yet reaped; only processes are ever
      inside the kernel's waiting points. */
  ghost predicate PidsOk(s: Sys)
    requires |s.t| == MAX_THREADS
  {
    && (forall i, j :: 0 <= i < j < MAX_THREADS && s.t[i].pid == s.t[j].pid ==> s.t[i].pid == 0)
    && (forall i :: 0 <= i < MAX_THREADS && s.t[i].pid != 0 ==>
         s.t[i].pid in s.born && s.born[s.t[i].pid] == s.t[i].parent && s.t[i].pid !in s.reaped)
    && (forall p :: p in s.born ==> 0 < p < s.nextPid)
    && (forall p :: p in s.reaped ==> p in s.born)
    && (forall i :: 0 <= i < MAX_THREADS && s.t[i].pid == 0 ==>
         s.t[i].parent == 0 && s.t[i].at == User && s.t[i].state != Stopped)
    && (forall i :: 0 <= i < MAX_THREADS && s.t[i].state == Blocked ==> CanSleep(s.t[i].at))
    && (forall i :: 0 <= i < MAX_THREADS && (s.t[i].state == Stopped || s.t[i].state == Dead) ==> s.t[i].at == User)
    && s.nextPid > 0
  }

  /** No lost wake-up in `wait`: whoever sleeps there has no dead or stopped matching child, and has
      a matching child to wait for. */
  ghost predicate WaitsOk(s: Sys)
    requires |s.t| == MAX_THREADS
  {
    forall i :: 0 <= i < MAX_THREADS && s.t[i].state == Blocked && s.t[i].at.InWait? ==>
      NotReady(s.t, s.t[i].pid, s.t[i].at.target)
  }

  predicate Busy(p: Tcb) { p.state == Runnable || p.state == Blocked }

  /** Every matching child is running or blocked, and there is one. */
  ghost predicate NotReady(t: seq<Tcb>, me: nat, target: nat) {
    && (forall i :: 0 <= i < |t| && IsChild(t[i], me, target) ==> Busy(t[i]))
    && (exists i :: 0 <= i < |t| && IsChild(t[i], me, target))
  }

  /** For a process this is the negation of the predicate `wait` blocks on. */
  lemma NotReadyIsNegation(s: Sys, me: nat, target: nat)
    requires TableOk(s) && me != 0
    ensures NotReady(s.t, me, target) <==> !WaitReady(s.t, s.n, me, target)
  {
  }

  /** The slot pool: every slot is free or owned, never both and never twice; requesters queue only
      when no slot is free. */
  ghost predicate PoolOk(io: Pool) {
    && Distinct(io.free) && Exclusive(io.owners) && Apart(io.free, io.owners)
    && |io.free| + |io.owners| == N_SLOTS
    && (io.queue != [] ==> io.free == [])
    && Distinct(io.queue) && Requesters(io.queue, io.owners)
  }

  ghost predicate Distinct(q: seq<nat>) { forall i, j :: 0 <= i < j < |q| ==> q[i] != q[j] }

  /** Owners hold different slots of the pool; pid 0 never enters it. */
  ghost predicate Exclusive(owners: map<nat, nat>) {
    && (forall p :: p in owners ==> p != 0 && owners[p] < N_SLOTS)
    && (forall p, q :: p in owners && q in owners && owners[p] == owners[q] ==> p == q)
  }

  ghost predicate Apart(free: seq<nat>, owners: map<nat, nat>) {
    forall i :: 0 <= i < |free| ==> free[i] < N_SLOTS && forall p :: p in owners ==> owners[p] != free[i]
  }

  ghost predicate Requesters(queue: seq<nat>, owners: map<nat, nat>) {
    forall i :: 0 <= i < |queue| ==> queue[i] !in owners && queue[i] != 0
  }

  /** A process is inside a disk transaction exactly when it owns a slot or queues for one, and it
      does not sleep in `acquire_disk` once it has been granted its slot. */
  ghost predicate PointOk(io: Pool, p: Tcb) {
    && (p.pid != 0 && p.pid in io.owners ==> p.at == Holding || p.at == Poll(true) || p.at == InAcquire)
    && (p.at == Holding || p.at == Poll(true) ==> p.pid in io.owners)
    && (p.at == InAcquire && p.pid !in io.owners ==> p.pid in io.queue)
    && (p.pid != 0 && p.pid in io.queue ==> p.at == InAcquire)
    && (p.state == Blocked && p.at == InAcquire ==> p.pid !in io.owners)
  }

  ghost predicate DiskOk(s: Sys)
    requires |s.t| == MAX_THREADS
  {
    && PoolOk(s.io)
    && (forall i :: 0 <= i < MAX_THREADS ==> PointOk(s.io, s.t[i]))
    && (forall p :: p in s.io.owners ==> p in s.born)
    && (forall p :: p in s.io.queue ==> p in s.born)
  }

  ghost predicate Inv(s: Sys) {
    && TableOk(s) && PidsOk(s) && WaitsOk(s) && DiskOk(s)
    && s.live == LiveCount(s.t[1..])
  }

  // --- the steps ------------------------------------------------------------------------------

  /** The running context is a process or thread that may execute. */
  predicate Acting(s: Sys) { 0 < s.cur < |s.t| && s.t[s.cur].state == Runnable }

  predicate ActingAt(s: Sys, at: Point) { Acting(s) && s.t[s.cur].at == at && s.t[s.cur].pid != 0 }

  function Me(s: Sys): (pid: nat)
    requires s.cur < |s.t|
  {
    s.t[s.cur].pid
  }

  function MoveTo(s: Sys, st: RunState, at: Point): (r: Sys)
    requires s.cur < |s.t|
  {
    var p := s.t[s.cur];
    WithT(s, s.t[s.cur := Tcb(st, p.pid, p.parent, at, p.pending)])
  }

  /** `schedule`'s choice: the next runnable worker after `cur` in cyclic order, else the boot context. */
  function PickFrom(t: seq<Tcb>, n: nat, cur: nat, step: nat): (next: nat)
    requires 1 <= n <= |t| && 1 <= step <= n + 1
    decreases n + 1 - step
  {
    if step > n then 0
    else if (cur + step) % n != 0 && t[(cur + step) % n].state == Runnable then (cur + step) % n
    else PickFrom(t, n, cur, step + 1)
  }

  function Pick(t: seq<Tcb>, n: nat, cur: nat): (next: nat)
    requires 1 <= n <= |t|
  {
    PickFrom(t, n, cur, 1)
  }

  /** `wake_pid` */
  function WakeT(t: seq<Tcb>, n: nat, pid: nat): (r: seq<Tcb>)
    requires n <= |t|
  {
    var i := Find(t, BlockedPid(pid), 0, n);
    if i < n then t[i := SetState(t[i], Runnable)] else t
  }

  /** `send_signal`: the pending bit, and a wake-up of a blocked target or, for SIGCONT and SIGKILL,
      of a stopped one. */
  function SignalT(t: seq<Tcb>, n: nat, pid: nat, sig: nat): (r: seq<Tcb>)
    requires n <= |t|
  {
    if sig == 0 || sig >= 32 then t
    else
      var i := Find(t, OfPid(pid), 0, n);
      if i == n then t else t[i := Signalled(t[i], sig)]
  }

  function Signalled(p: Tcb, sig: nat): (r: Tcb) {
    var wakes := p.state == Blocked || (p.state == Stopped && (sig == SIGCONT || sig == SIGKILL));
    Tcb(if wakes then Runnable else p.state, p.pid, p.parent, p.at, p.pending + {sig})
  }

  /** Stop of the running process (`do_stop_current`, and `deliver_on_preempt` in the timer): tell the
      parent, then mark it Stopped. */
  function StopT(t: seq<Tcb>, n: nat, cur: nat): (r: seq<Tcb>)
    requires cur < n <= |t|
  {
    var i := Find(t, OfPid(t[cur].pid), 0, n);
    var parent := if i < n then t[i].parent else 0;
    var t1 := if parent != 0 then SignalT(t, n, parent, SIGCHLD) else t;
    t1[cur := SetState(t1[cur], Stopped)]
  }

  /** `exit_current`: dead, and the parent woken if it sleeps. */
  function ExitT(t: seq<Tcb>, n: nat, cur: nat): (r: seq<Tcb>)
    requires cur < n <= |t|
  {
    var t1 := t[cur := SetState(t[cur], Dead)];
    if t[cur].parent != 0 then WakeT(t1, n, t[cur].parent) else t1
  }

  /** `alloc_slot`: the lowest free slot below `n`, else slot `n`; the kernel panics past the table. */
  predicate HasSlot(t: seq<Tcb>, n: nat)
    requires 1 <= n <= |t|
  {
    Find(t, FreeSlot, 1, n) < n || n + 1 < MAX_THREADS
  }

  function Spawned(s: Sys, pid: nat, parent: nat): (r: Sys)
    requires 1 <= s.n && s.n + 1 <= |s.t| && HasSlot(s.t, s.n)
  {
    var i := Find(s.t, FreeSlot, 1, s.n);
    Sys(s.t[i := Tcb(Runnable, pid, parent, User, {})], if i < s.n then s.n else s.n + 1, s.cur, s.live + 1,
        if pid == s.nextPid then s.nextPid + 1 else s.nextPid, s.io,
        if pid == 0 then s.born else s.born[pid := parent], s.reaped)
  }

  /** Frees the slot of a dead child. */
  function Reap(s: Sys, i: nat): (r: Sys)
    requires i < |s.t|
  {
    Sys(s.t[i := TCB_INIT], s.n, s.cur, s.live, s.nextPid, s.io, s.born, s.reaped + {s.t[i].pid})
  }

  datatype WaitResult = Reaped(pid: nat) | ChildStopped | NoChild

  /** What `do_wait_loop` returns: it looks again once its predicate has held. */
  function WaitOutcome(s: Sys, me: nat, target: nat): (r: WaitResult)
    requires 1 <= s.n <= |s.t|
  {
    var d := Find(s.t, DeadChild(me, target), 1, s.n);
    if d < s.n then Reaped(s.t[d].pid)
    else if Find(s.t, StoppedChild(me, target), 1, s.n) < s.n then ChildStopped
    else NoChild
  }

  function FinishWait(s: Sys, me: nat, target: nat): (r: Sys)
    requires 1 <= s.n <= |s.t| && s.cur < |s.t|
  {
    var d := Find(s.t, DeadChild(me, target), 1, s.n);
    var s1 := MoveTo(s, Runnable, User);
    if d < s.n then Reap(s1, d) else s1
  }

  function WithIo(s: Sys, io: Pool): (r: Sys) { Sys(s.t, s.n, s.cur, s.live, s.nextPid, io, s.born, s.reaped) }

  /** `acquire`: grants the first free slot or queues the requester. */
  function AcquirePool(io: Pool, pid: nat): (r: Pool) {
    if io.free == [] then Pool(io.free, io.owners, io.queue + [pid])
    else Pool(io.free[1..], io.owners[pid := io.free[0]], io.queue)
  }

  /** `release`: hands the slot to the first queued requester, or back to the pool. */
  function ReleasePool(io: Pool, pid: nat): (r: Pool) {
    if pid !in io.owners then io
    else if io.queue == [] then Pool(io.free + [io.owners[pid]], io.owners - {pid}, io.queue)
    else Pool(io.free, (io.owners - {pid})[io.queue[0] := io.owners[pid]], io.queue[1..])
  }

  function ReleaseNext(io: Pool, pid: nat): (next: nat) {
    if pid !in io.owners || io.queue == [] then 0 else io.queue[0]
  }

  datatype Event =
    | Tick(stop: bool)
    | SpawnThread
    | SpawnFirst
    | Fork
    | Exit
    | Stop
    | BeginWait(target: nat)
    | CheckWait
    | Collect
    | ReapOne(target: nat)
    | Signal(pid: nat, sig: nat)
    | Wake(pid: nat)
    | Acquire
    | CheckAcquire
    | Release
    | BeginPoll
    | CheckPoll(ready: bool)

  /** When an event can happen: timer, device and signal events at any time, the others when the
      running process is at that point of the kernel. */
  predicate Enabled(s: Sys, e: Event)
    requires 1 <= s.n < |s.t| && s.cur < |s.t|
  {
    match e
    case Tick(stop) => stop ==> ActingAt(s, User)
    case SpawnThread => s.cur == 0 && HasSlot(s.t, s.n)
    case SpawnFirst => s.cur == 0 && HasSlot(s.t, s.n)
    case Fork => ActingAt(s, User) && HasSlot(s.t, s.n)
    case Exit => Acting(s) && s.t[s.cur].at == User
    case Stop => ActingAt(s, User)
    case BeginWait(target) => ActingAt(s, User)
    case CheckWait => Acting(s) && s.t[s.cur].at.InWait? && Me(s) != 0
    case Collect => Acting(s) && s.t[s.cur].at.Woken? && Me(s) != 0
    case ReapOne(target) => ActingAt(s, User) && Find(s.t, DeadChild(Me(s), target), 1, s.n) < s.n
    case Signal(pid, sig) => true
    case Wake(pid) => true
    case Acquire => ActingAt(s, User)
    case CheckAcquire => ActingAt(s, InAcquire)
    case Release => ActingAt(s, Holding)
    case BeginPoll => ActingAt(s, User) || ActingAt(s, Holding)
    case CheckPoll(ready) => Acting(s) && s.t[s.cur].at.Poll? && Me(s) != 0
  }

  /** The step itself. A system call enters with interrupts off, so the first look of `wait` and what it
      returns are one step. After a sleep interrupts are on, and they stay on between the look that
      ends the sleep (`CheckWait`) and the second look that decides the result (`Collect`). */
  function Apply(s: Sys, e: Event): (r: Sys)
    requires 1 <= s.n < |s.t| && s.cur < s.n && Enabled(s, e)
  {
    match e
    case Tick(stop) =>
      var t := if stop then StopT(s.t, s.n, s.cur) else s.t;
      Sys(t, s.n, Pick(t, s.n, s.cur), s.live, s.nextPid, s.io, s.born, s.reaped)
    case SpawnThread => Spawned(s, 0, 0)
    case SpawnFirst => Spawned(s, s.nextPid, 0)
    case Fork => Spawned(s, s.nextPid, Me(s))
    case Exit =>
      Sys(ExitT(s.t, s.n, s.cur), s.n, s.cur, if s.live > 0 then s.live - 1 else 0, s.nextPid, s.io, s.born, s.reaped)
    case Stop => WithT(s, StopT(s.t, s.n, s.cur))
    case BeginWait(target) =>
      if WaitReady(s.t, s.n, Me(s), target) then FinishWait(s, Me(s), target) else MoveTo(s, Blocked, InWait(target))
    case CheckWait =>
      var target := s.t[s.cur].at.target;
      if WaitReady(s.t, s.n, Me(s), target) then MoveTo(s, Runnable, Woken(target))
      else MoveTo(s, Blocked, InWait(target))
    case Collect => FinishWait(s, Me(s), s.t[s.cur].at.target)
    case ReapOne(target) => Reap(s, Find(s.t, DeadChild(Me(s), target), 1, s.n))
    case Signal(pid, sig) => WithT(s, SignalT(s.t, s.n, pid, sig))
    case Wake(pid) => WithT(s, WakeT(s.t, s.n, pid))
    case Acquire =>
      MoveTo(WithIo(s, AcquirePool(s.io, Me(s))), Runnable, if s.io.free == [] then InAcquire else Holding)
    case CheckAcquire =>
      if Me(s) in s.io.owners then MoveTo(s, Runnable, Holding) else MoveTo(s, Blocked, InAcquire)
    case Release =>
      var s1 := MoveTo(WithIo(s, ReleasePool(s.io, Me(s))), Runnable, User);
      var next := ReleaseNext(s.io, Me(s));
      if next != 0 then WithT(s1, WakeT(s1.t, s1.n, next)) else s1
    case BeginPoll => MoveTo(s, Runnable, Poll(s.t[s.cur].at == Holding))
    case CheckPoll(ready) =>
      var holding := s.t[s.cur].at.holding;
      if ready then MoveTo(s, Runnable, if holding then Holding else User) else MoveTo(s, Blocked, Poll(holding))
  }
}
