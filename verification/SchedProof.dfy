/** Every step of the scheduling protocol keeps the invariant, and what follows for whole runs:
    no lost wake-up, every dead child reaped once and by its parent, quiescence exactly when
    nothing is alive, and bounded waiting of runnable workers. */
module SchedProof {
  import opened SchedSpec

  // --- one slot changes ---------------------------------------------------------------------

  /** The record kept in slot `i` is replaced by one of the same process. */
  ghost predicate SameProcess(s: Sys, i: nat, p: Tcb)
    requires |s.t| == MAX_THREADS
  {
    && i < MAX_THREADS && s.t[i].state != Free && p.state != Free
    && p.pid == s.t[i].pid && p.parent == s.t[i].parent
    && (i == 0 ==> p.state == Runnable && p.at == User)
    && (p.pid == 0 ==> p.at == User && p.state != Stopped)
    && (p.state == Blocked ==> CanSleep(p.at))
    && (p.state == Stopped || p.state == Dead ==> p.at == User)
  }

  lemma UpdateTable(s: Sys, i: nat, p: Tcb)
    requires TableOk(s) && PidsOk(s) && SameProcess(s, i, p)
    ensures TableOk(WithT(s, s.t[i := p])) && PidsOk(WithT(s, s.t[i := p]))
  {
  }

  lemma UpdateLive(t: seq<Tcb>, i: nat, p: Tcb)
    requires 0 < |t| && i < |t| && (i == 0 || Alive(p) == Alive(t[i]))
    ensures LiveCount(t[i := p][1..]) == LiveCount(t[1..])
  {
    if i == 0 {
      assert t[0 := p][1..] == t[1..];
    } else {
      assert t[i := p][1..] == t[1..][i - 1 := p];
      LiveCountUpdate(t[1..], i - 1, p);
    }
  }

  /** Waiters stay asleep rightly if the new record is not ready itself, and no sleeping parent
      misses a child that stops being busy. */
  lemma UpdateWaits(s: Sys, i: nat, p: Tcb)
    requires |s.t| == MAX_THREADS && WaitsOk(s) && SameProcess(s, i, p)
    requires p.state == Blocked && p.at.InWait? ==> NotReady(s.t, p.pid, p.at.target) && (Busy(s.t[i]) ==> Busy(p))
    requires Busy(s.t[i]) && !Busy(p) ==>
               forall w :: 0 <= w < MAX_THREADS && s.t[w].state == Blocked && s.t[w].at.InWait? ==>
                 !IsChild(s.t[i], s.t[w].pid, s.t[w].at.target)
    ensures WaitsOk(WithT(s, s.t[i := p]))
  {
    var t' := s.t[i := p];
    forall w | 0 <= w < MAX_THREADS && t'[w].state == Blocked && t'[w].at.InWait?
      ensures NotReady(t', t'[w].pid, t'[w].at.target)
    {
      NotReadyUpdate(s.t, i, p, t'[w].pid, t'[w].at.target);
    }
  }

  lemma NotReadyUpdate(t: seq<Tcb>, i: nat, p: Tcb, me: nat, target: nat)
    requires i < |t| && p.pid == t[i].pid && p.parent == t[i].parent && NotReady(t, me, target)
    requires IsChild(t[i], me, target) ==> Busy(p)
    ensures NotReady(t[i := p], me, target)
  {
    var c :| 0 <= c < |t| && IsChild(t[c], me, target);
    assert IsChild(t[i := p][c], me, target);
  }

  lemma UpdateDisk(s: Sys, i: nat, p: Tcb)
    requires |s.t| == MAX_THREADS && DiskOk(s) && i < MAX_THREADS && PointOk(s.io, p)
    ensures DiskOk(WithT(s, s.t[i := p]))
  {
  }

  /** Same process, still alive, consistent point: the invariant is kept. */
  lemma Update(s: Sys, i: nat, p: Tcb)
    requires Inv(s) && SameProcess(s, i, p) && PointOk(s.io, p) && (i == 0 || Alive(p) == Alive(s.t[i]))
    requires p.state == Blocked && p.at.InWait? ==> NotReady(s.t, p.pid, p.at.target)
    requires Busy(s.t[i]) ==> Busy(p)
    ensures Inv(WithT(s, s.t[i := p]))
  {
    UpdateTable(s, i, p);
    UpdateLive(s.t, i, p);
    UpdateWaits(s, i, p);
    UpdateDisk(s, i, p);
  }

  // --- the steps -----------------------------------------------------------------------------

  lemma {:induction false} PickFromLaw(t: seq<Tcb>, n: nat, cur: nat, step: nat)
    requires 1 <= n <= |t| && 1 <= step <= n + 1
    ensures PickFrom(t, n, cur, step) < n
    ensures PickFrom(t, n, cur, step) != 0 ==> t[PickFrom(t, n, cur, step)].state == Runnable
    decreases n + 1 - step
  {
    if step <= n {
      PickFromLaw(t, n, cur, step + 1);
    }
  }

  lemma TickInv(s: Sys)
    requires Inv(s)
    ensures Inv(Apply(s, Tick(false)))
  {
    PickFromLaw(s.t, s.n, s.cur, 1);
  }

  /** The slot found by pid is the only one with that pid. */
  lemma FindPid(s: Sys, q: Query, w: nat)
    requires TableOk(s) && PidsOk(s) && w < MAX_THREADS && s.t[w].pid != 0
    requires q == OfPid(s.t[w].pid) || (q == BlockedPid(s.t[w].pid) && s.t[w].state == Blocked)
    ensures w < s.n && Find(s.t, q, 0, s.n) == w
  {
  }

  lemma WakeInv(s: Sys, pid: nat)
    requires Inv(s)
    ensures Inv(WithT(s, WakeT(s.t, s.n, pid)))
  {
    var i := Find(s.t, BlockedPid(pid), 0, s.n);
    if i < s.n {
      Update(s, i, SetState(s.t[i], Runnable));
    }
  }

  lemma SignalInv(s: Sys, pid: nat, sig: nat)
    requires Inv(s)
    ensures Inv(WithT(s, SignalT(s.t, s.n, pid, sig)))
  {
    var i := Find(s.t, OfPid(pid), 0, s.n);
    if i < s.n {
      SignalledInv(s, i, sig);
    }
  }

  lemma SignalledInv(s: Sys, i: nat, sig: nat)
    requires Inv(s) && i < MAX_THREADS && s.t[i].state != Free
    ensures Inv(WithT(s, s.t[i := Signalled(s.t[i], sig)]))
  {
    var p := Signalled(s.t[i], sig);
    assert SameProcess(s, i, p);
    assert PointOk(s.io, s.t[i]);
    Update(s, i, p);
  }

  /** After a wake-up of its pid, nobody with that pid sleeps. */
  ghost predicate Awake(t: seq<Tcb>, pid: nat) { forall w :: 0 <= w < |t| && t[w].pid == pid ==> t[w].state != Blocked }

  lemma SignalAwake(s: Sys, pid: nat, sig: nat)
    requires TableOk(s) && PidsOk(s) && pid != 0 && 0 < sig < 32
    ensures Awake(SignalT(s.t, s.n, pid, sig), pid)
  {
  }

  lemma WakeAwake(s: Sys, pid: nat)
    requires TableOk(s) && PidsOk(s) && pid != 0
    ensures Awake(WakeT(s.t, s.n, pid), pid)
  {
  }

  function WithLive(s: Sys, live: nat): (r: Sys) { Sys(s.t, s.n, s.cur, live, s.nextPid, s.io, s.born, s.reaped) }

  /** The running process stops being busy once its parent is awake. */
  lemma LeaveInv(s: Sys, i: nat, p: Tcb)
    requires Inv(s) && SameProcess(s, i, p) && PointOk(s.io, p) && 0 < i && Alive(s.t[i])
    requires s.t[i].parent != 0 ==> Awake(s.t, s.t[i].parent)
    requires p.state != Blocked
    ensures 0 < s.live && Inv(WithLive(WithT(s, s.t[i := p]), if Alive(p) then s.live else s.live - 1))
  {
    UpdateTable(s, i, p);
    UpdateDisk(s, i, p);
    UpdateWaits(s, i, p);
    LeaveLive(s.t, i, p);
  }

  lemma LeaveLive(t: seq<Tcb>, i: nat, p: Tcb)
    requires 0 < i < |t| && Alive(t[i])
    ensures 0 < LiveCount(t[1..])
    ensures LiveCount(t[i := p][1..]) == if Alive(p) then LiveCount(t[1..]) else LiveCount(t[1..]) - 1
  {
    assert t[i := p][1..] == t[1..][i - 1 := p];
    LiveCountUpdate(t[1..], i - 1, p);
    LiveCountUpdate(t[1..], i - 1, TCB_INIT);
  }

  lemma StopInv(s: Sys)
    requires Inv(s) && ActingAt(s, User)
    ensures Inv(WithT(s, StopT(s.t, s.n, s.cur)))
  {
    FindPid(s, OfPid(Me(s)), s.cur);
    var parent := s.t[s.cur].parent;
    if parent != 0 {
      SignalInv(s, parent, SIGCHLD);
      SignalAwake(s, parent, SIGCHLD);
      var s1 := WithT(s, SignalT(s.t, s.n, parent, SIGCHLD));
      LeaveInv(s1, s.cur, SetState(s1.t[s.cur], Stopped));
    } else {
      LeaveInv(s, s.cur, SetState(s.t[s.cur], Stopped));
    }
  }

  /** A scan does not notice a change in a slot that fails its test before and after. */
  lemma {:induction false} FindSame(t: seq<Tcb>, q: Query, lo: nat, hi: nat, i: nat, p: Tcb)
    requires lo <= hi <= |t| && i < |t| && !Hit(q, t[i]) && !Hit(q, p)
    ensures Find(t[i := p], q, lo, hi) == Find(t, q, lo, hi)
    decreases hi - lo
  {
    if lo < hi {
      FindSame(t, q, lo + 1, hi, i, p);
    }
  }

  /** Waking somebody else commutes with a change of the running process. */
  lemma WakeCommutes(t: seq<Tcb>, n: nat, pid: nat, i: nat, p: Tcb)
    requires i < |t| && n <= |t| && t[i].state != Blocked && p.state != Blocked
    ensures WakeT(t[i := p], n, pid) == WakeT(t, n, pid)[i := p]
    ensures WakeT(t, n, pid)[i] == t[i]
  {
    FindSame(t, BlockedPid(pid), 0, n, i, p);
    var w := Find(t, BlockedPid(pid), 0, n);
    if w < n {
      assert w != i && t[i := p][w] == t[w];
      var x := SetState(t[w], Runnable);
      assert t[i := p][w := x] == t[w := x][i := p];
    }
  }

  lemma ExitInv(s: Sys)
    requires Inv(s) && Acting(s) && s.t[s.cur].at == User
    ensures Inv(Apply(s, Exit))
  {
    var p := SetState(s.t[s.cur], Dead);
    var parent := s.t[s.cur].parent;
    if parent != 0 {
      WakeInv(s, parent);
      WakeAwake(s, parent);
      WakeCommutes(s.t, s.n, parent, s.cur, p);
      LeaveInv(WithT(s, WakeT(s.t, s.n, parent)), s.cur, p);
    } else {
      LeaveInv(s, s.cur, p);
    }
  }

  // --- processes come and go ----------------------------------------------------------------

  /** A process is created in a free slot. */
  lemma SpawnInv(s: Sys, pid: nat, parent: nat)
    requires Inv(s) && HasSlot(s.t, s.n) && (pid == s.nextPid || (pid == 0 && parent == 0))
    ensures Inv(Spawned(s, pid, parent))
  {
    var i := Find(s.t, FreeSlot, 1, s.n);
    var p := Tcb(Runnable, pid, parent, User, {});
    var s' := Spawned(s, pid, parent);
    assert s.t[i] == TCB_INIT;
    SpawnPids(s, i, pid, parent);
    assert s'.t[1..] == s.t[1..][i - 1 := p];
    LiveCountUpdate(s.t[1..], i - 1, p);
    UpdateDisk(s, i, p);
  }

  lemma SpawnPids(s: Sys, i: nat, pid: nat, parent: nat)
    requires Inv(s) && HasSlot(s.t, s.n) && (pid == s.nextPid || (pid == 0 && parent == 0))
    requires i == Find(s.t, FreeSlot, 1, s.n) && s.t[i] == TCB_INIT
    ensures TableOk(Spawned(s, pid, parent)) && PidsOk(Spawned(s, pid, parent)) && WaitsOk(Spawned(s, pid, parent))
  {
    SpawnTable(s, i, pid, parent);
    SpawnUnique(s, i, pid, parent);
    SleepersKept(s, i, Tcb(Runnable, pid, parent, User, {}));
  }

  lemma SpawnTable(s: Sys, i: nat, pid: nat, parent: nat)
    requires TableOk(s) && HasSlot(s.t, s.n) && i == Find(s.t, FreeSlot, 1, s.n)
    ensures TableOk(Spawned(s, pid, parent))
  {
  }

  lemma SpawnUnique(s: Sys, i: nat, pid: nat, parent: nat)
    requires TableOk(s) && PidsOk(s) && HasSlot(s.t, s.n) && i == Find(s.t, FreeSlot, 1, s.n)
    requires pid == s.nextPid || (pid == 0 && parent == 0)
    ensures PidsOk(Spawned(s, pid, parent))
  {
    assert s.t[i] == TCB_INIT;
  }

  /** A slot that no sleeping parent was counting on may be replaced by a busy process or a free
      slot. */
  lemma SleepersKept(s: Sys, i: nat, p: Tcb)
    requires |s.t| == MAX_THREADS && WaitsOk(s) && i < MAX_THREADS && p.state != Blocked && (Busy(p) || p.parent == 0)
    requires forall w :: 0 <= w < MAX_THREADS && s.t[w].state == Blocked && s.t[w].at.InWait? ==>
               s.t[w].pid != 0 && s.t[w].pid != s.t[i].parent
    ensures WaitsOk(WithT(s, s.t[i := p]))
  {
    var t' := s.t[i := p];
    forall w | 0 <= w < MAX_THREADS && t'[w].state == Blocked && t'[w].at.InWait?
      ensures NotReady(t', t'[w].pid, t'[w].at.target)
    {
      var c :| 0 <= c < MAX_THREADS && IsChild(s.t[c], s.t[w].pid, s.t[w].at.target);
      assert IsChild(t'[c], s.t[w].pid, s.t[w].at.target);
    }
  }

  /** The slot of a dead child of the running process is freed. */
  lemma ReapInv(s: Sys, d: nat)
    requires Inv(s) && Acting(s) && Me(s) != 0 && 1 <= d < s.n && s.t[d].parent == Me(s) && s.t[d].state == Dead
    ensures Inv(Reap(s, d))
  {
    ReapTable(s, d);
    assert Reap(s, d).t[1..] == s.t[1..][d - 1 := TCB_INIT];
    LiveCountUpdate(s.t[1..], d - 1, TCB_INIT);
    UpdateDisk(s, d, TCB_INIT);
  }

  lemma ReapTable(s: Sys, d: nat)
    requires TableOk(s) && PidsOk(s) && WaitsOk(s) && Acting(s) && Me(s) != 0
    requires 1 <= d < s.n && s.t[d].parent == Me(s) && s.t[d].state == Dead
    ensures TableOk(Reap(s, d)) && PidsOk(Reap(s, d)) && WaitsOk(Reap(s, d)) && s.t[d].pid != 0 && s.t[d].at == User
  {
    SleepersKept(s, d, TCB_INIT);
  }

  lemma BeginWaitInv(s: Sys, target: nat)
    requires Inv(s) && ActingAt(s, User)
    ensures Inv(Apply(s, BeginWait(target)))
  {
    if WaitReady(s.t, s.n, Me(s), target) {
      WaitReturns(s, target);
    } else {
      WaitSleeps(s, target);
    }
  }

  lemma CheckWaitInv(s: Sys)
    requires Inv(s) && Acting(s) && s.t[s.cur].at.InWait? && Me(s) != 0
    ensures Inv(Apply(s, CheckWait))
  {
    var target := s.t[s.cur].at.target;
    if WaitReady(s.t, s.n, Me(s), target) {
      Update(s, s.cur, SetAt(s.t[s.cur], Woken(target)));
    } else {
      WaitSleeps(s, target);
    }
  }

  lemma WaitSleeps(s: Sys, target: nat)
    requires Inv(s) && Acting(s) && (s.t[s.cur].at == User || s.t[s.cur].at.InWait?) && Me(s) != 0
    requires !WaitReady(s.t, s.n, Me(s), target)
    ensures Inv(MoveTo(s, Blocked, InWait(target)))
  {
    NotReadyIsNegation(s, Me(s), target);
    Update(s, s.cur, SetAt(SetState(s.t[s.cur], Blocked), InWait(target)));
  }

  lemma WaitReturns(s: Sys, target: nat)
    requires Inv(s) && Acting(s) && (s.t[s.cur].at == User || s.t[s.cur].at.Woken?) && Me(s) != 0
    ensures Inv(FinishWait(s, Me(s), target))
  {
    var d := Find(s.t, DeadChild(Me(s), target), 1, s.n);
    Update(s, s.cur, SetAt(s.t[s.cur], User));
    if d < s.n {
      ReapInv(MoveTo(s, Runnable, User), d);
    }
  }

  // --- the disk slots ----------------------------------------------------------------------

  lemma DistinctAppend(q: seq<nat>, x: nat)
    requires Distinct(q) && x !in q
    ensures Distinct(q + [x])
  {
  }

  lemma DistinctTail(q: seq<nat>)
    requires Distinct(q) && q != []
    ensures Distinct(q[1..]) && q[0] !in q[1..]
  {
  }

  lemma AcquirePoolOk(io: Pool, pid: nat)
    requires PoolOk(io) && pid != 0 && pid !in io.owners && pid !in io.queue
    ensures PoolOk(AcquirePool(io, pid))
  {
  }

  lemma AcquireInv(s: Sys)
    requires Inv(s) && ActingAt(s, User)
    ensures Inv(Apply(s, Acquire))
  {
    var io' := AcquirePool(s.io, Me(s));
    var p := SetAt(s.t[s.cur], if s.io.free == [] then InAcquire else Holding);
    AcquirePoolOk(s.io, Me(s));
    UpdateTable(s, s.cur, p);
    UpdateLive(s.t, s.cur, p);
    UpdateWaits(s, s.cur, p);
    AcquireDisk(s, p);
  }

  lemma AcquireDisk(s: Sys, p: Tcb)
    requires |s.t| == MAX_THREADS && PidsOk(s) && DiskOk(s) && ActingAt(s, User) && PoolOk(AcquirePool(s.io, Me(s)))
    requires p == SetAt(s.t[s.cur], if s.io.free == [] then InAcquire else Holding)
    ensures DiskOk(WithIo(WithT(s, s.t[s.cur := p]), AcquirePool(s.io, Me(s))))
  {
  }

  lemma ReleasePoolOk(io: Pool, pid: nat)
    requires PoolOk(io) && pid in io.owners
    ensures PoolOk(ReleasePool(io, pid))
  {
    SizeWithout(io.owners, pid);
    if io.queue == [] {
      FreedPoolOk(io, pid);
    } else {
      HandedPoolOk(io, pid);
    }
  }

  lemma SizeWithout(m: map<nat, nat>, k: nat)
    requires k in m
    ensures |m - {k}| == |m| - 1
  {
  }

  lemma FreedPoolOk(io: Pool, pid: nat)
    requires PoolOk(io) && pid in io.owners && io.queue == [] && |io.owners - {pid}| == |io.owners| - 1
    ensures PoolOk(Pool(io.free + [io.owners[pid]], io.owners - {pid}, []))
  {
    FreeSlotAgain(io.free, io.owners, pid);
    DistinctAppend(io.free, io.owners[pid]);
  }

  lemma FreeSlotAgain(free: seq<nat>, owners: map<nat, nat>, pid: nat)
    requires Exclusive(owners) && Apart(free, owners) && pid in owners
    ensures Exclusive(owners - {pid}) && Apart(free + [owners[pid]], owners - {pid}) && owners[pid] !in free
  {
  }

  lemma HandOver(queue: seq<nat>, owners: map<nat, nat>, pid: nat)
    requires Exclusive(owners) && Distinct(queue) && Requesters(queue, owners) && queue != [] && pid in owners
    ensures Exclusive((owners - {pid})[queue[0] := owners[pid]])
    ensures Requesters(queue[1..], (owners - {pid})[queue[0] := owners[pid]])
  {
  }

  lemma HandedPoolOk(io: Pool, pid: nat)
    requires PoolOk(io) && pid in io.owners && io.queue != [] && |io.owners - {pid}| == |io.owners| - 1
    ensures PoolOk(Pool(io.free, (io.owners - {pid})[io.queue[0] := io.owners[pid]], io.queue[1..]))
  {
    HandOver(io.queue, io.owners, pid);
    DistinctTail(io.queue);
    assert io.queue[0] !in io.owners - {pid};
  }

  /** Other processes do not notice a `release`, except the next owner, which must be awake. */
  lemma ReleaseOthers(io: Pool, pid: nat, q: Tcb)
    requires PointOk(io, q) && q.pid != pid && PoolOk(io)
    requires io.queue != [] && q.pid == io.queue[0] ==> q.state != Blocked
    ensures PointOk(ReleasePool(io, pid), q)
  {
  }

  lemma ReleaseInv(s: Sys)
    requires Inv(s) && ActingAt(s, Holding)
    ensures Inv(Apply(s, Release))
  {
    var next := ReleaseNext(s.io, Me(s));
    var p := SetAt(s.t[s.cur], User);
    ReleasePoolOk(s.io, Me(s));
    if next != 0 {
      NextOwnerAwake(s, next, p);
      var woken := WithT(s, WakeT(s.t, s.n, next));
      ReleaseTo(woken, p);
      assert Apply(s, Release) == WithIo(WithT(woken, woken.t[s.cur := p]), ReleasePool(s.io, Me(s)));
    } else {
      ReleaseTo(s, p);
    }
  }

  lemma NextOwnerAwake(s: Sys, next: nat, p: Tcb)
    requires Inv(s) && ActingAt(s, Holding) && next != 0 && p == SetAt(s.t[s.cur], User)
    ensures var t := WakeT(s.t, s.n, next);
            && Inv(WithT(s, t)) && Awake(t, next) && t[s.cur] == s.t[s.cur]
            && WakeT(s.t[s.cur := p], s.n, next) == t[s.cur := p]
  {
    WakeInv(s, next);
    WakeAwake(s, next);
    WakeCommutes(s.t, s.n, next, s.cur, p);
  }

  /** Release once the next owner, if any, is awake. */
  lemma ReleaseTo(s: Sys, p: Tcb)
    requires Inv(s) && ActingAt(s, Holding) && PoolOk(ReleasePool(s.io, Me(s))) && p == SetAt(s.t[s.cur], User)
    requires s.io.queue != [] ==> Awake(s.t, s.io.queue[0])
    ensures Inv(WithIo(WithT(s, s.t[s.cur := p]), ReleasePool(s.io, Me(s))))
  {
    UpdateTable(s, s.cur, p);
    UpdateLive(s.t, s.cur, p);
    UpdateWaits(s, s.cur, p);
    ReleaseDisk(s, p);
  }

  lemma ReleaseDisk(s: Sys, p: Tcb)
    requires |s.t| == MAX_THREADS && PidsOk(s) && DiskOk(s) && ActingAt(s, Holding) && PoolOk(ReleasePool(s.io, Me(s)))
    requires p == SetAt(s.t[s.cur], User) && (s.io.queue != [] ==> Awake(s.t, s.io.queue[0]))
    ensures DiskOk(WithIo(WithT(s, s.t[s.cur := p]), ReleasePool(s.io, Me(s))))
  {
    var io' := ReleasePool(s.io, Me(s));
    var t' := s.t[s.cur := p];
    forall i | 0 <= i < MAX_THREADS ensures PointOk(io', t'[i]) {
      if i != s.cur {
        ReleaseOthers(s.io, Me(s), s.t[i]);
      }
    }
  }

  // --- whole runs ----------------------------------------------------------------------------

  /** Every step keeps the invariant. */
  lemma StepInv(s: Sys, e: Event)
    requires Inv(s) && Enabled(s, e)
    ensures Inv(Apply(s, e))
  {
    match e
    case Tick(stop) =>
      if stop {
        StopInv(s);
        var s1 := WithT(s, StopT(s.t, s.n, s.cur));
        TickInv(s1);
      } else {
        TickInv(s);
      }
    case SpawnThread => SpawnInv(s, 0, 0);
    case SpawnFirst => SpawnInv(s, s.nextPid, 0);
    case Fork => SpawnInv(s, s.nextPid, Me(s));
    case Exit => ExitInv(s);
    case Stop => StopInv(s);
    case BeginWait(target) => BeginWaitInv(s, target);
    case CheckWait => CheckWaitInv(s);
    case Collect => WaitReturns(s, s.t[s.cur].at.target);
    case ReapOne(target) => ReapInv(s, Find(s.t, DeadChild(Me(s), target), 1, s.n));
    case Signal(pid, sig) => SignalInv(s, pid, sig);
    case Wake(pid) => WakeInv(s, pid);
    case Acquire => AcquireInv(s);
    case CheckAcquire => CheckAcquireInv(s);
    case Release => ReleaseInv(s);
    case BeginPoll => Update(s, s.cur, SetAt(s.t[s.cur], Poll(s.t[s.cur].at == Holding)));
    case CheckPoll(ready) => CheckPollInv(s, ready);
  }

  lemma CheckAcquireInv(s: Sys)
    requires Inv(s) && ActingAt(s, InAcquire)
    ensures Inv(Apply(s, CheckAcquire))
  {
    if Me(s) in s.io.owners {
      Update(s, s.cur, SetAt(s.t[s.cur], Holding));
    } else {
      Update(s, s.cur, SetState(s.t[s.cur], Blocked));
    }
  }

  lemma CheckPollInv(s: Sys, ready: bool)
    requires Inv(s) && Acting(s) && s.t[s.cur].at.Poll? && Me(s) != 0
    ensures Inv(Apply(s, CheckPoll(ready)))
  {
    CheckPollIs(s, ready);
    if ready {
      PollReturns(s);
    } else {
      PollSleeps(s);
    }
  }

  lemma CheckPollIs(s: Sys, ready: bool)
    requires 1 <= s.n < |s.t| && s.cur < s.n && Acting(s) && s.t[s.cur].at.Poll? && Me(s) != 0
    ensures Apply(s, CheckPoll(ready)) ==
            if ready then MoveTo(s, Runnable, if s.t[s.cur].at.holding then Holding else User)
            else MoveTo(s, Blocked, s.t[s.cur].at)
  {
  }

  lemma PollReturns(s: Sys)
    requires Inv(s) && Acting(s) && s.t[s.cur].at.Poll? && Me(s) != 0
    ensures Inv(MoveTo(s, Runnable, if s.t[s.cur].at.holding then Holding else User))
  {
    Update(s, s.cur, SetAt(s.t[s.cur], if s.t[s.cur].at.holding then Holding else User));
  }

  lemma PollSleeps(s: Sys)
    requires Inv(s) && Acting(s) && s.t[s.cur].at.Poll? && Me(s) != 0
    ensures Inv(MoveTo(s, Blocked, s.t[s.cur].at))
  {
    Update(s, s.cur, SetState(s.t[s.cur], Blocked));
  }

  /** The state `init` leaves. */
  function Start(): (s: Sys) {
    Sys([Tcb(Runnable, 0, 0, User, {})] + seq(MAX_THREADS - 1, _ => TCB_INIT), 1, 0, 0, 1,
        Pool([0, 1, 2, 3, 4, 5, 6, 7], map[], []), map[], {})
  }

  lemma StartInv()
    ensures Inv(Start())
  {
    LiveCountZero(Start().t[1..]);
    StartPool();
    StartTable();
  }

  lemma StartTable()
    ensures TableOk(Start()) && PidsOk(Start()) && WaitsOk(Start())
    ensures forall i :: 0 <= i < MAX_THREADS ==> PointOk(Start().io, Start().t[i])
  {
    var s := Start();
    assert s.t[0] == Tcb(Runnable, 0, 0, User, {}) && forall i :: 1 <= i < MAX_THREADS ==> s.t[i] == TCB_INIT;
  }

  lemma StartPool()
    ensures PoolOk(Start().io)
  {
  }

  /** A run: enabled steps one after the other, from a state that satisfies the invariant. */
  ghost predicate IsRun(states: seq<Sys>, events: seq<Event>) {
    && |states| == |events| + 1 && Inv(states[0])
    && forall k :: 0 <= k < |events| ==> StepsTo(states[k], events[k], states[k + 1])
  }

  ghost predicate StepsTo(s: Sys, e: Event, s': Sys) {
    1 <= s.n < |s.t| && s.cur < s.n && Enabled(s, e) && s' == Apply(s, e)
  }

  lemma {:induction false} RunInv(states: seq<Sys>, events: seq<Event>, k: nat)
    requires IsRun(states, events) && k < |states|
    ensures Inv(states[k])
  {
    if k > 0 {
      RunInv(states, events, k - 1);
      assert StepsTo(states[k - 1], events[k - 1], states[k]);
      StepInv(states[k - 1], events[k - 1]);
    }
  }

  lemma NotReadyChildren(s: Sys, me: nat, target: nat)
    requires TableOk(s) && me != 0 && NotReady(s.t, me, target)
    ensures forall c :: 1 <= c < s.n && s.t[c].parent == me && (target == 0 || s.t[c].pid == target) ==>
              s.t[c].state == Runnable || s.t[c].state == Blocked
    ensures exists c :: 1 <= c < s.n && s.t[c].parent == me && (target == 0 || s.t[c].pid == target)
  {
    assert forall c :: 1 <= c < s.n && s.t[c].parent == me && (target == 0 || s.t[c].pid == target) ==>
        IsChild(s.t[c], me, target) && Busy(s.t[c]);
    var c :| 0 <= c < |s.t| && IsChild(s.t[c], me, target);
    assert 1 <= c < s.n;
  }

  /** No lost wake-up: in every state of every run, a process asleep in `wait` has no dead or stopped
      matching child, and some matching child that is running or blocked. */
  lemma NoLostWakeup(states: seq<Sys>, events: seq<Event>, k: nat, i: nat)
    requires IsRun(states, events) && k < |states| && i < MAX_THREADS <= |states[k].t|
             && 1 <= states[k].n <= |states[k].t|
    requires states[k].t[i].state == Blocked && states[k].t[i].at.InWait?
    ensures var s := states[k]; var me, target := s.t[i].pid, s.t[i].at.target;
            && !WaitReady(s.t, s.n, me, target)
            && (forall c :: 1 <= c < s.n && s.t[c].parent == me && (target == 0 || s.t[c].pid == target) ==>
                 s.t[c].state == Runnable || s.t[c].state == Blocked)
            && exists c :: 1 <= c < s.n && s.t[c].parent == me && (target == 0 || s.t[c].pid == target)
  {
    RunInv(states, events, k);
    var s := states[k];
    var me, target := s.t[i].pid, s.t[i].at.target;
    NotReadyIsNegation(s, me, target);
    NotReadyChildren(s, me, target);
  }

  /** Nobody sleeps in `acquire_disk` while a slot is free or already granted to it. */
  lemma DiskSleeper(states: seq<Sys>, events: seq<Event>, k: nat, i: nat)
    requires IsRun(states, events) && k < |states| && i < MAX_THREADS <= |states[k].t|
    requires states[k].t[i].state == Blocked && states[k].t[i].at == InAcquire
    ensures var s := states[k];
            s.t[i].pid !in s.io.owners && s.t[i].pid in s.io.queue && s.io.free == [] && |s.io.owners| == N_SLOTS
  {
    RunInv(states, events, k);
  }

  /** The Frame Scheduler reports idle exactly when no worker is runnable, blocked or stopped. */
  lemma Quiescence(states: seq<Sys>, events: seq<Event>, k: nat)
    requires IsRun(states, events) && k < |states|
    ensures var s := states[k];
            && |s.t| == MAX_THREADS
            && (s.live == 0 <==> forall i :: 1 <= i < MAX_THREADS ==> s.t[i].state == Free || s.t[i].state == Dead)
  {
    RunInv(states, events, k);
    var t := states[k].t;
    LiveCountZero(t[1..]);
    assert forall i :: 1 <= i < MAX_THREADS ==>
        t[i] == t[1..][i - 1] && (Alive(t[i]) <==> t[i].state != Free && t[i].state != Dead);
  }

  // --- reaping --------------------------------------------------------------------------------

  /** The child that a step reaps, 0 if none. */
  function ReapedBy(s: Sys, e: Event): (pid: nat)
    requires 1 <= s.n < |s.t| && s.cur < s.n && Enabled(s, e)
  {
    match e
    case BeginWait(target) =>
      var d := Find(s.t, DeadChild(Me(s), target), 1, s.n);
      if d < s.n then s.t[d].pid else 0
    case Collect =>
      var d := Find(s.t, DeadChild(Me(s), s.t[s.cur].at.target), 1, s.n);
      if d < s.n then s.t[d].pid else 0
    case ReapOne(target) => s.t[Find(s.t, DeadChild(Me(s), target), 1, s.n)].pid
    case _ => 0
  }

  /** A reaped child was created by the reaper, was dead, and had not been reaped before. */
  lemma ReapedByParent(s: Sys, e: Event)
    requires Inv(s) && Enabled(s, e) && ReapedBy(s, e) != 0
    ensures var p := ReapedBy(s, e);
            p in s.born && s.born[p] == Me(s) && p !in s.reaped && p in Apply(s, e).reaped
  {
  }

  /** The reaped pids grow by that child, and by nothing else. */
  lemma ReapedExactly(s: Sys, e: Event)
    requires TableOk(s) && PidsOk(s) && Enabled(s, e)
    ensures Apply(s, e).reaped == s.reaped + if ReapedBy(s, e) == 0 then {} else {ReapedBy(s, e)}
  {
    match e
    case BeginWait(target) => ReapedChild(s, target);
    case Collect => ReapedChild(s, s.t[s.cur].at.target);
    case ReapOne(target) => ReapedChild(s, target);
    case _ => ReapsNobody(s, e);
  }

  lemma ReapsNobody(s: Sys, e: Event)
    requires 1 <= s.n < |s.t| && s.cur < s.n && Enabled(s, e) && !e.BeginWait? && e != Collect && !e.ReapOne?
    ensures ReapedBy(s, e) == 0 && Apply(s, e).reaped == s.reaped
  {
  }

  lemma ReapedChild(s: Sys, target: nat)
    requires TableOk(s) && PidsOk(s) && Acting(s) && Me(s) != 0
    ensures var d := Find(s.t, DeadChild(Me(s), target), 1, s.n);
            d < s.n ==> s.t[d].pid != 0
    ensures WaitReady(s.t, s.n, Me(s), target) || Find(s.t, DeadChild(Me(s), target), 1, s.n) == s.n
  {
  }

  lemma ReapedGrows(s: Sys, e: Event, s': Sys)
    requires StepsTo(s, e, s')
    ensures s.reaped <= s'.reaped
  {
  }

  lemma {:induction false} ReapedStays(states: seq<Sys>, events: seq<Event>, j: nat, k: nat)
    requires IsRun(states, events) && j <= k < |states|
    ensures states[j].reaped <= states[k].reaped
    decreases k
  {
    if j < k {
      ReapedStays(states, events, j, k - 1);
      ReapedGrows(states[k - 1], events[k - 1], states[k]);
    }
  }

  /** Over a whole run no child is reaped twice, and each only by the process that created it. */
  lemma ReapedOnce(states: seq<Sys>, events: seq<Event>, j: nat, k: nat)
    requires IsRun(states, events) && j < k < |events|
    requires StepsTo(states[j], events[j], states[j + 1]) && StepsTo(states[k], events[k], states[k + 1])
    requires ReapedBy(states[j], events[j]) != 0
    ensures ReapedBy(states[j], events[j]) != ReapedBy(states[k], events[k])
  {
    RunInv(states, events, j);
    ReapedByParent(states[j], events[j]);
    ReapedStays(states, events, j + 1, k);
    if ReapedBy(states[k], events[k]) != 0 {
      RunInv(states, events, k);
      ReapedByParent(states[k], events[k]);
    }
  }

  // --- bounded waiting -------------------------------------------------------------------------

  /** How many candidates after `cur` the scan, going round, reaches slot `i`. */
  function Gap(n: nat, cur: nat, i: nat): (r: nat)
    requires cur < n && i < n
    ensures 1 <= r <= n && (cur + r == i || cur + r == i + n)
  {
    if i > cur then i - cur else i + n - cur
  }

  lemma ModOnce(x: nat, n: nat)
    requires 0 < n && x < 2 * n
    ensures x % n == if x < n then x else x - n
  {
  }

  lemma Candidate(n: nat, cur: nat, step: nat)
    requires cur < n && 1 <= step <= n
    ensures (cur + step) % n < n && Gap(n, cur, (cur + step) % n) == step
  {
    ModOnce(cur + step, n);
  }

  lemma {:induction false} PickFromFirst(t: seq<Tcb>, n: nat, cur: nat, step: nat, w: nat)
    requires 1 <= n <= |t| && cur < n && 1 <= step <= n + 1
    requires 0 < w < n && t[w].state == Runnable && step <= Gap(n, cur, w)
    ensures var next := PickFrom(t, n, cur, step);
            0 < next < n && t[next].state == Runnable && step <= Gap(n, cur, next) <= Gap(n, cur, w)
    decreases n + 1 - step
  {
    var cand := (cur + step) % n;
    Candidate(n, cur, step);
    if cand == 0 || t[cand].state != Runnable {
      PickFromFirst(t, n, cur, step + 1, w);
    }
  }

  /** The boot context runs only when no worker can. */
  lemma BootOnlyWhenIdle(t: seq<Tcb>, n: nat, cur: nat)
    requires 1 <= n <= |t| && cur < n
    ensures Pick(t, n, cur) == 0 <==> forall w :: 0 < w < n ==> t[w].state != Runnable
  {
    PickFromLaw(t, n, cur, 1);
    forall w | 0 < w < n && t[w].state == Runnable ensures Pick(t, n, cur) != 0 {
      PickFromFirst(t, n, cur, 1, w);
    }
  }

  /** A tick either chooses the runnable worker `w` or brings the scan closer to it. */
  lemma TickCloser(t: seq<Tcb>, n: nat, cur: nat, w: nat)
    requires 1 <= n <= |t| && cur < n && 0 < w < n && t[w].state == Runnable
    ensures var next := Pick(t, n, cur);
            next < n && (next == w || Gap(n, next, w) < Gap(n, cur, w))
  {
    PickFromFirst(t, n, cur, 1, w);
  }

  /** Decreases with every tick that passes `w` over, and never increases, even when the table grows. */
  function Distance(s: Sys, w: nat): (r: nat)
    requires s.cur < s.n <= MAX_THREADS && w < s.n
  {
    (MAX_THREADS - s.n) * MAX_THREADS + Gap(s.n, s.cur, w)
  }

  lemma StepCloser(s: Sys, e: Event, w: nat)
    requires Inv(s) && Enabled(s, e) && 0 < w < s.n && s.t[w].state == Runnable
    requires Apply(s, e).t[w].state == Runnable && Apply(s, e).cur != w && Apply(s, e).cur < Apply(s, e).n
    ensures s.n <= Apply(s, e).n < MAX_THREADS
    ensures Distance(Apply(s, e), w) + (if e.Tick? then 1 else 0) <= Distance(s, w)
  {
    StepInv(s, e);
    if e.Tick? {
      var t := if e.stop then StopT(s.t, s.n, s.cur) else s.t;
      TickCloser(t, s.n, s.cur, w);
    }
  }

  function Ticks(events: seq<Event>): (r: nat) {
    if events == [] then 0 else (if events[|events| - 1].Tick? then 1 else 0) + Ticks(events[..|events| - 1])
  }

  /** The number of ticks is the number of positions at which there is one. */
  lemma {:induction false} TicksCounted(events: seq<Event>)
    ensures Ticks(events) == |set k | 0 <= k < |events| && events[k].Tick?|
  {
    if events != [] {
      var n := |events| - 1;
      TicksCounted(events[..n]);
      var before := set k | 0 <= k < n && events[..n][k].Tick?;
      assert (set k | 0 <= k < |events| && events[k].Tick?) == before + if events[n].Tick? then {n} else {};
    }
  }

  lemma RunPrefix(states: seq<Sys>, events: seq<Event>)
    requires IsRun(states, events) && events != []
    ensures IsRun(states[..|events|], events[..|events| - 1])
  {
  }

  /** Bounded waiting: while worker `w` stays runnable and is not chosen, whatever the other slots do,
      fewer than n ticks pass if the table keeps its size n, and fewer than 64 in any case. */
  lemma {:induction false} BoundedWaiting(states: seq<Sys>, events: seq<Event>, w: nat)
    requires IsRun(states, events) && 0 < w < states[0].n
    requires forall k :: 0 <= k < |states| ==>
               w < |states[k].t| && states[k].t[w].state == Runnable && states[k].cur != w
    ensures var a, z := states[0], states[|events|];
            && a.cur < a.n <= z.n < MAX_THREADS && z.cur < z.n
            && Ticks(events) + Distance(z, w) <= Distance(a, w)
            && (a.n == z.n ==> Ticks(events) <= a.n - 2)
            && Ticks(events) < MAX_THREADS * MAX_THREADS
    decreases |events|
  {
    var m := |events|;
    if m > 0 {
      RunPrefix(states, events);
      BoundedWaiting(states[..m], events[..m - 1], w);
      RunInv(states, events, m - 1);
      assert StepsTo(states[m - 1], events[m - 1], states[m]);
      StepInv(states[m - 1], events[m - 1]);
      StepCloser(states[m - 1], events[m - 1], w);
    }
  }
}
