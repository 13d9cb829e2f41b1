/** kernel/src/sched.rs over its own mutable state: the TCB table, the high-water mark `n`, the
    running slot, the Frame Scheduler's count and the slot-pool supervisor. Each method is one
    interrupts-off stretch of the source and is proved to be the corresponding protocol step. */
module Sched {
  import opened Wrappers
  import opened SchedSpec
  import opened SchedProof
  import opened SchedLaws

  class Kernel {
    const tcbs: array<Tcb>
    var n: nat
    var current: nat
    var runnable: nat
    var nextPid: nat
    var io: Pool
    ghost var born: map<nat, nat>
    ghost var reaped: set<nat>

    ghost function View(): (s: Sys)
      reads this, tcbs
    {
      Sys(tcbs[..], n, current, runnable, nextPid, io, born, reaped)
    }

    ghost predicate Valid()
      reads this, tcbs
    {
      tcbs.Length == MAX_THREADS && Inv(View())
    }

    /** What the mechanics below need; `Valid` adds the protocol invariant. */
    ghost predicate Shaped()
      reads this, tcbs
    {
      tcbs.Length == MAX_THREADS && 1 <= n < MAX_THREADS && current < n
    }

    constructor ()
      ensures Valid() && View() == Start() && fresh(tcbs)
    {
      tcbs := new Tcb[MAX_THREADS](i => if i == 0 then Tcb(Runnable, 0, 0, User, {}) else TCB_INIT);
      n, current, runnable, nextPid := 1, 0, 0, 1;
      io := Pool([0, 1, 2, 3, 4, 5, 6, 7], map[], []);
      born, reaped := map[], {};
      new;
      StartInv();
      assert tcbs[..] == Start().t;
    }

    /** The loop behind `slot_of_pid`, `has_child`, `child_reapable`, `child_stopped`, `wake_pid`,
        `alloc_slot` and the two reapers. */
    method Scan(q: Query, lo: nat) returns (i: nat)
      requires tcbs.Length == MAX_THREADS && lo <= n <= MAX_THREADS
      ensures i == Find(tcbs[..], q, lo, n)
    {
      i := lo;
      while i < n
        invariant lo <= i <= n && Find(tcbs[..], q, lo, n) == Find(tcbs[..], q, i, n)
      {
        if Hit(q, tcbs[i]) {
          return;
        }
        i := i + 1;
      }
    }

    /** `wake_pid` */
    method WakePid(pid: nat)
      requires Shaped()
      modifies tcbs
      ensures View() == WithT(old(View()), WakeT(old(tcbs[..]), n, pid))
      ensures old(Valid()) ==> Valid()
    {
      if Valid() {
        StepInv(View(), Wake(pid));
      }
      var i := Scan(BlockedPid(pid), 0);
      if i < n {
        tcbs[i] := SetState(tcbs[i], Runnable);
      }
    }

    /** `send_signal`; `ok` says that such a process exists. */
    method SendSignal(pid: nat, sig: nat) returns (ok: bool)
      requires Shaped()
      modifies tcbs
      ensures View() == WithT(old(View()), SignalT(old(tcbs[..]), n, pid, sig))
      ensures old(Valid()) ==> Valid()
      ensures ok <==> exists i :: 0 <= i < n && old(tcbs[i]).pid == pid && old(tcbs[i]).state != Free
      ensures !ok || sig == 0 || sig >= 32 ==> tcbs[..] == old(tcbs[..])
      ensures 0 < sig < 32 ==> forall i: nat :: Holder(old(tcbs[..]), n, pid, i) ==>
                OnlySlot(old(tcbs[..]), tcbs[..], i) && GetsSignal(old(tcbs[..])[i], tcbs[..][i], sig)
    {
      if Valid() {
        StepInv(View(), Signal(pid, sig));
      }
      var i := Scan(OfPid(pid), 0);
      ok := i < n;
      assert ok ==> Hit(OfPid(pid), tcbs[i]);
      assert !ok ==> forall k :: 0 <= k < n ==> !Hit(OfPid(pid), tcbs[..][k]);
      ghost var t := tcbs[..];
      if ok && 0 < sig < 32 {
        SignalLaw(t, n, pid, sig, i);
        tcbs[i] := Signalled(tcbs[i], sig);
        assert tcbs[..] == SignalT(t, n, pid, sig);
      }
      assert forall k: nat :: Holder(t, n, pid, k) ==> k == i;
    }

    /** The signal to the parent and the Stopped mark, shared by `do_stop_current` and
        `deliver_on_preempt`. */
    method MarkStopped()
      requires Shaped()
      modifies tcbs
      ensures View() == WithT(old(View()), StopT(old(tcbs[..]), n, current))
    {
      ghost var t := tcbs[..];
      var i := Scan(OfPid(tcbs[current].pid), 0);
      var parent := if i < n then tcbs[i].parent else 0;
      if parent != 0 {
        var _ := SendSignal(parent, SIGCHLD);
      }
      tcbs[current] := SetState(tcbs[current], Stopped);
    }

    /** `do_stop_current` */
    method StopCurrent()
      requires Valid() && Enabled(View(), Stop)
      modifies tcbs
      ensures Valid() && View() == Apply(old(View()), Stop)
    {
      StepInv(View(), Stop);
      MarkStopped();
    }

    /** The round-robin choice of `schedule`. */
    method Choose()
      requires Shaped()
      modifies this`current
      ensures current == Pick(tcbs[..], n, old(current))
    {
      var next, step := 0, 1;
      while step <= n
        invariant 1 <= step <= n + 1 && next == 0
        invariant PickFrom(tcbs[..], n, current, 1) == PickFrom(tcbs[..], n, current, step)
      {
        var cand := (current + step) % n;
        if cand != 0 && tcbs[cand].state == Runnable {
          next := cand;
          break;
        }
        step := step + 1;
      }
      current := next;
    }

    /** `schedule`: a pending stop is delivered to the preempted process, then the next slot is chosen. */
    method Schedule(stop: bool)
      requires Valid() && Enabled(View(), Tick(stop))
      modifies tcbs, this`current
      ensures Valid() && View() == Apply(old(View()), Tick(stop))
    {
      StepInv(View(), Tick(stop));
      if stop {
        MarkStopped();
      }
      Choose();
    }

    /** `alloc_slot` and the shared part of the spawn paths, with `task_ready`. */
    method Admit(pid: nat, parent: nat)
      requires Shaped() && HasSlot(tcbs[..], n)
      modifies tcbs, this`n, this`runnable, this`nextPid, this`born
      ensures View() == Spawned(old(View()), pid, parent)
    {
      var i := Scan(FreeSlot, 1);
      if i == n {
        n := n + 1;
      }
      tcbs[i] := Tcb(Runnable, pid, parent, User, {});
      runnable := runnable + 1;
      if pid == nextPid {
        nextPid := nextPid + 1;
      }
      born := if pid == 0 then born else born[pid := parent];
    }

    /** `spawn`, `spawn_user` and `spawn_user_from_frame`: kernel threads have pid 0, processes the
        next pid and 0 or the forking process as parent. */
    method Spawn(pid: nat, parent: nat)
      requires Valid() && HasSlot(View().t, n) && (pid == nextPid || (pid == 0 && parent == 0))
      modifies tcbs, this`n, this`runnable, this`nextPid, this`born
      ensures Valid() && View() == Spawned(old(View()), pid, parent)
    {
      SpawnInv(View(), pid, parent);
      Admit(pid, parent);
    }

    /** `exit_current`: dead, counted out and the sleeping parent woken in one critical section. */
    method ExitCurrent()
      requires Valid() && Enabled(View(), Exit)
      modifies tcbs, this`runnable
      ensures Valid() && View() == Apply(old(View()), Exit)
    {
      StepInv(View(), Exit);
      ghost var t := tcbs[..];
      tcbs[current] := SetState(tcbs[current], Dead);
      if runnable > 0 {
        runnable := runnable - 1;
      }
      var parent := tcbs[current].parent;
      assert tcbs[..] == t[current := SetState(t[current], Dead)];
      if parent != 0 {
        WakePid(parent);
      }
    }

    /** Moves the running process to another point of the kernel. */
    method Move(st: RunState, at: Point)
      requires Shaped()
      modifies tcbs
      ensures View() == MoveTo(old(View()), st, at)
    {
      var p := tcbs[current];
      tcbs[current] := Tcb(st, p.pid, p.parent, at, p.pending);
    }

    /** `child_reapable || child_stopped || !exists`. */
    method Ready(me: nat, target: nat) returns (ready: bool)
      requires Shaped()
      ensures ready == WaitReady(View().t, n, me, target)
    {
      var dead := Scan(DeadChild(me, target), 1);
      var stopped := Scan(StoppedChild(me, target), 1);
      var any := Scan(ChildOf(me, target), 1);
      ready := dead < n || stopped < n || any == n;
    }

    /** `do_wait_loop` up to its first sleep, or to its end if it need not sleep; interrupts are off all
        along. `None` means that the process went to sleep. */
    method WaitBegin(target: nat) returns (r: Option<WaitResult>)
      requires Valid() && Enabled(View(), BeginWait(target))
      modifies tcbs, this`reaped
      ensures Valid() && View() == Apply(old(View()), BeginWait(target))
      ensures var s := old(View());
              r == if WaitReady(s.t, s.n, Me(s), target) then Some(WaitOutcome(s, Me(s), target)) else None
      ensures r == None <==> MustWait(old(View()), target)
      ensures r == None ==> OnlyMoves(old(View()), View(), Blocked, InWait(target))
      ensures r.Some? ==> Answered(old(View()), View(), target, r.value)
    {
      StepInv(View(), BeginWait(target));
      WaitBeginLaw(View(), target);
      MustWaitIff(View(), target);
      var me := tcbs[current].pid;
      var ready := Ready(me, target);
      if ready {
        var out := Collect(me, target);
        r := Some(out);
      } else {
        Move(Blocked, InWait(target));
        r := None;
      }
    }

    /** A later pass of the `block_current_until` loop in `do_wait_loop`: the sleep ends exactly when the
        predicate holds, whoever caused the wake-up. */
    method WaitPass() returns (awake: bool)
      requires Valid() && Enabled(View(), CheckWait)
      modifies tcbs
      ensures Valid() && View() == Apply(old(View()), CheckWait)
      ensures var s := old(View()); awake <==> WaitReady(s.t, s.n, Me(s), s.t[s.cur].at.target)
    {
      StepInv(View(), CheckWait);
      var me, target := tcbs[current].pid, tcbs[current].at.target;
      awake := Ready(me, target);
      if awake {
        Move(Runnable, Woken(target));
      } else {
        Move(Blocked, InWait(target));
      }
    }

    /** The rest of `do_wait_loop` after a sleep. */
    method WaitCollect() returns (r: WaitResult)
      requires Valid() && Enabled(View(), Event.Collect)
      modifies tcbs, this`reaped
      ensures Valid() && View() == Apply(old(View()), Event.Collect)
      ensures var s := old(View()); r == WaitOutcome(s, Me(s), s.t[s.cur].at.target)
      ensures var s := old(View()); Answered(s, View(), s.t[s.cur].at.target, r)
    {
      StepInv(View(), Event.Collect);
      AnsweredLaw(View(), tcbs[current].at.target);
      r := Collect(tcbs[current].pid, tcbs[current].at.target);
    }

    /** The second look: reports a stopped child, reaps a dead one, or gives up. */
    method Collect(me: nat, target: nat) returns (r: WaitResult)
      requires Shaped()
      modifies tcbs, this`reaped
      ensures View() == FinishWait(old(View()), me, target) && r == WaitOutcome(old(View()), me, target)
    {
      var d := Scan(DeadChild(me, target), 1);
      var stopped := Scan(StoppedChild(me, target), 1);
      var pid := if d < n then tcbs[d].pid else 0;
      Move(Runnable, User);
      if d < n {
        tcbs[d] := TCB_INIT;
        reaped := reaped + {pid};
        r := Reaped(pid);
      } else if stopped < n {
        r := ChildStopped;
      } else {
        r := NoChild;
      }
    }

    /** One pass of the `block_current_until` loop in `acquire_disk`: granted, or asleep. */
    method AcquirePass() returns (granted: bool)
      requires Valid() && Enabled(View(), CheckAcquire)
      modifies tcbs
      ensures Valid() && View() == Apply(old(View()), CheckAcquire)
      ensures granted <==> tcbs[current].pid in io.owners
    {
      StepInv(View(), CheckAcquire);
      granted := tcbs[current].pid in io.owners;
      if granted {
        Move(Runnable, Holding);
      } else {
        Move(Blocked, InAcquire);
      }
    }

    /** `reap_dead_child` */
    method ReapDeadChild(target: nat) returns (pid: nat)
      requires Valid() && Enabled(View(), ReapOne(target))
      modifies tcbs, this`reaped
      ensures Valid() && View() == Apply(old(View()), ReapOne(target))
      ensures pid == ReapedBy(old(View()), ReapOne(target))
      ensures ActingAt(View(), User) && Me(View()) == old(Me(View()))
      ensures var d := Find(old(tcbs[..]), DeadChild(Me(View()), target), 1, n);
              d < n && pid == old(tcbs[..])[d].pid && tcbs[..] == old(tcbs[..])[d := TCB_INIT]
    {
      StepInv(View(), ReapOne(target));
      var d := Scan(DeadChild(tcbs[current].pid, target), 1);
      pid := tcbs[d].pid;
      tcbs[d] := TCB_INIT;
      reaped := reaped + {pid};
    }

    /** `acquire_disk` up to the grant or the queue. */
    method AcquireDisk()
      requires Valid() && Enabled(View(), Acquire)
      modifies tcbs, this`io
      ensures Valid() && View() == Apply(old(View()), Acquire)
    {
      StepInv(View(), Acquire);
      ghost var s := View();
      var pid := tcbs[current].pid;
      if io.free == [] {
        Move(Runnable, InAcquire);
        io := Pool(io.free, io.owners, io.queue + [pid]);
      } else {
        Move(Runnable, Holding);
        io := Pool(io.free[1..], io.owners[pid := io.free[0]], io.queue);
      }
    }

    /** `release_disk`: the slot goes to the next queued process, which is woken, or back to the pool. */
    method ReleaseDisk()
      requires Valid() && Enabled(View(), Release)
      modifies tcbs, this`io
      ensures Valid() && View() == Apply(old(View()), Release)
    {
      StepInv(View(), Release);
      assert tcbs[current].pid in io.owners && (io.queue != [] ==> io.queue[0] != 0);
      HandBack();
    }

    method HandBack()
      requires Shaped() && tcbs[current].pid in io.owners
      modifies tcbs, this`io
      ensures var s := old(View());
              var s1 := MoveTo(WithIo(s, ReleasePool(s.io, Me(s))), Runnable, User);
              View() == if s.io.queue == [] then s1 else WithT(s1, WakeT(s1.t, s1.n, s.io.queue[0]))
    {
      var pid := tcbs[current].pid;
      var slot := io.owners[pid];
      Move(Runnable, User);
      if io.queue == [] {
        io := Pool(io.free + [slot], io.owners - {pid}, io.queue);
      } else {
        var next := io.queue[0];
        io := Pool(io.free, (io.owners - {pid})[next := slot], io.queue[1..]);
        WakePid(next);
      }
    }

    /** `sys_reap_nohang`: returns a matching dead child if there is one, 0 otherwise. On the way to a
        specific child it also reaps every dead child in a lower slot. (The source's check after each
        unrelated child that the wanted one is still there always succeeds.) */
    method ReapNohang(target: nat) returns (r: nat)
      requires Valid() && ActingAt(View(), User)
      modifies tcbs, this`reaped
      ensures Valid()
      ensures r == 0 ==> NoMatch(old(View()), target, Dead, n) && tcbs[..] == old(tcbs[..])
      ensures r != 0 ==> exists d: nat :: FirstDead(old(View()), target, r, d) &&
                                     Drained(old(tcbs[..]), tcbs[..], old(Me(View())), d + 1)
    {
      ghost var s := View();
      var me := tcbs[current].pid;
      var d := Scan(DeadChild(me, target), 1);
      NoMatchFind(s, target, Dead, d);
      r := 0;
      if d < n {
        assert FirstDead(s, target, s.t[d].pid, d);
        r := Drain(me, target, d);
      }
    }

    /** The loop of `sys_reap_nohang`. */
    method Drain(me: nat, target: nat, ghost d: nat) returns (r: nat)
      requires Valid() && ActingAt(View(), User) && Me(View()) == me
      requires d == Find(tcbs[..], DeadChild(me, target), 1, n) < n
      modifies tcbs, this`reaped
      ensures Valid() && r == old(tcbs[..])[d].pid && Drained(old(tcbs[..]), tcbs[..], me, d + 1)
    {
      ghost var t0 := tcbs[..];
      ghost var pass := 1;
      r := 0;
      var more := true;
      while more
        invariant Valid() && ActingAt(View(), User) && Me(View()) == me
        invariant 1 <= pass <= d + 1 && (more <==> pass <= d) && (!more ==> r == t0[d].pid)
        invariant Drained(t0, tcbs[..], me, pass)
        decreases d + 1 - pass
      {
        var pid;
        pid, pass := DrainOne(t0, me, target, d, pass);
        if target == 0 || pid == target {
          r := pid;
          more := false;
        }
      }
    }

    /** One round of that loop. */
    method DrainOne(ghost t0: seq<Tcb>, me: nat, target: nat, ghost d: nat, ghost pass: nat)
      returns (pid: nat, ghost pass': nat)
      requires Valid() && ActingAt(View(), User) && Me(View()) == me && Drained(t0, tcbs[..], me, pass)
      requires 1 <= pass <= d < n && d == Find(t0, DeadChild(me, target), 1, n)
      modifies tcbs, this`reaped
      ensures Valid() && ActingAt(View(), User) && Me(View()) == me && Drained(t0, tcbs[..], me, pass')
      ensures pass < pass' <= d + 1 && (pass' == d + 1 <==> target == 0 || pid == target)
      ensures pass' == d + 1 ==> pid == t0[d].pid
    {
      DrainNext(t0, tcbs[..], me, target, n, d, pass);
      ghost var i := Find(tcbs[..], DeadChild(me, 0), 1, n);
      pass' := i + 1;
      pid := ReapDeadChild(0);
    }
  }

  /** The dead children of `me` in slots below `pass` are gone, the rest of the table is as it was. */
  ghost predicate Drained(t0: seq<Tcb>, t: seq<Tcb>, me: nat, pass: nat) {
    && |t| == |t0|
    && forall i :: 0 <= i < |t| ==>
         t[i] == if i < pass && t0[i].parent == me && t0[i].state == Dead then Tcb(Free, 0, 0, User, {}) else t0[i]
  }

  lemma DrainNext(t0: seq<Tcb>, t: seq<Tcb>, me: nat, target: nat, n: nat, d: nat, pass: nat)
    requires Drained(t0, t, me, pass) && me != 0 && 1 <= n <= |t| && 1 <= pass <= d < n
    requires d == Find(t0, DeadChild(me, target), 1, n)
    ensures var i := Find(t, DeadChild(me, 0), 1, n);
            && pass <= i <= d && t[i] == t0[i] && Drained(t0, t[i := TCB_INIT], me, i + 1)
            && (i == d <==> target == 0 || t[i].pid == target)
  {
  }
}
