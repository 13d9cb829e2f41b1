/** The steps of the scheduler told on the state before and the state after, field by field: which slot
    changes, what it becomes, and that no other does. */
module SchedLaws {
  import opened SchedSpec
  import opened SchedProof

  // --- frames ---------------------------------------------------------------------------------

  ghost predicate OnlySlot(t: seq<Tcb>, t': seq<Tcb>, i: nat) {
    |t'| == |t| && forall j :: 0 <= j < |t| && j != i ==> t'[j] == t[j]
  }

  ghost predicate SameIds(p: Tcb, p': Tcb) { p'.pid == p.pid && p'.parent == p.parent && p'.at == p.at }

  /** Only the table differs. */
  ghost predicate TableOnly(s: Sys, s': Sys) {
    |s'.t| == |s.t| && s' == Sys(s'.t, s.n, s.cur, s.live, s.nextPid, s.io, s.born, s.reaped)
  }

  /** The running process is now at `at`, runnable or not, and otherwise as it was. */
  ghost predicate NowAt(s: Sys, s': Sys, st: RunState, at: Point)
    requires s.cur < |s.t| == |s'.t|
  {
    s'.t[s.cur] == Tcb(st, s.t[s.cur].pid, s.t[s.cur].parent, at, s.t[s.cur].pending)
  }

  /** That, and nothing else. */
  ghost predicate OnlyMoves(s: Sys, s': Sys, st: RunState, at: Point)
    requires s.cur < |s.t| == |s'.t|
  {
    TableOnly(s, s') && OnlySlot(s.t, s'.t, s.cur) && NowAt(s, s', st, at)
  }

  // --- wake-up and signal ---------------------------------------------------------------------

  /** The first blocked slot of the process becomes runnable. */
  lemma WakeLaw(t: seq<Tcb>, n: nat, pid: nat, i: nat)
    requires i < n <= |t| && t[i].pid == pid && t[i].state == Blocked
    requires forall j :: 0 <= j < i ==> t[j].pid != pid || t[j].state != Blocked
    ensures OnlySlot(t, WakeT(t, n, pid), i)
    ensures WakeT(t, n, pid)[i] == Tcb(Runnable, t[i].pid, t[i].parent, t[i].at, t[i].pending)
  {
    assert Hit(BlockedPid(pid), t[i]);
  }

  lemma WakeNobody(t: seq<Tcb>, n: nat, pid: nat)
    requires n <= |t| && forall j :: 0 <= j < n ==> t[j].pid != pid || t[j].state != Blocked
    ensures WakeT(t, n, pid) == t
  {
  }

  /** Slot `i` is the one `send_signal` finds for `pid`. */
  ghost predicate Holder(t: seq<Tcb>, n: nat, pid: nat, i: nat) {
    && i < n <= |t| && t[i].pid == pid && t[i].state != Free
    && forall j :: 0 <= j < i ==> t[j].pid != pid || t[j].state == Free
  }

  /** The pending set gains the signal. The target ends up runnable exactly if it was, or was blocked, or
      was stopped and the signal is SIGCONT or SIGKILL; otherwise its state stays. */
  ghost predicate GetsSignal(p: Tcb, p': Tcb, sig: nat) {
    && SameIds(p, p') && p'.pending == p.pending + {sig}
    && (p'.state == Runnable <==>
         p.state == Runnable || p.state == Blocked || (p.state == Stopped && (sig == 18 || sig == 9)))
    && (p'.state != Runnable ==> p'.state == p.state)
  }

  lemma SignalLaw(t: seq<Tcb>, n: nat, pid: nat, sig: nat, i: nat)
    requires Holder(t, n, pid, i) && 0 < sig < 32
    ensures OnlySlot(t, SignalT(t, n, pid, sig), i) && GetsSignal(t[i], SignalT(t, n, pid, sig)[i], sig)
  {
    assert Hit(OfPid(pid), t[i]);
  }

  lemma SignalNobody(t: seq<Tcb>, n: nat, pid: nat, sig: nat)
    requires n <= |t|
    requires sig == 0 || sig >= 32 || forall j :: 0 <= j < n ==> t[j].pid != pid || t[j].state == Free
    ensures SignalT(t, n, pid, sig) == t
  {
  }

  // --- stop and exit --------------------------------------------------------------------------

  /** Is slot `j` the parent of the running process? */
  predicate IsParent(s: Sys, j: nat)
    requires s.cur < |s.t| && j < |s.t|
  {
    s.t[s.cur].parent != 0 && s.t[j].pid == s.t[s.cur].parent && s.t[j].state != Free
  }

  /** After a stop: the stopped process is Stopped, its parent has SIGCHLD pending and is awake if it was
      blocked, everyone else is as before. */
  ghost predicate StopTold(s: Sys, p': Tcb, j: nat)
    requires s.cur < |s.t| && j < |s.t|
  {
    && SameIds(s.t[j], p')
    && p'.pending == s.t[j].pending + (if IsParent(s, j) then {17} else {})
    && p'.state == if j == s.cur then Stopped
                   else if IsParent(s, j) && s.t[j].state == Blocked then Runnable
                   else s.t[j].state
  }

  lemma StopLaw(s: Sys, j: nat)
    requires Inv(s) && Enabled(s, Stop) && j < MAX_THREADS
    ensures TableOnly(s, Apply(s, Stop)) && StopTold(s, Apply(s, Stop).t[j], j)
  {
    var i := Find(s.t, OfPid(Me(s)), 0, s.n);
    assert Hit(OfPid(Me(s)), s.t[s.cur]) && i == s.cur;
    var parent := s.t[s.cur].parent;
    if parent != 0 && Find(s.t, OfPid(parent), 0, s.n) < s.n {
      SignalLaw(s.t, s.n, parent, SIGCHLD, Find(s.t, OfPid(parent), 0, s.n));
    } else {
      assert j < s.n ==> !IsParent(s, j);
    }
  }

  /** After an exit: the process is Dead, its parent awake if it was blocked, everyone else as before. */
  ghost predicate ExitTold(s: Sys, p': Tcb, j: nat)
    requires s.cur < |s.t| && j < |s.t|
  {
    && SameIds(s.t[j], p') && p'.pending == s.t[j].pending
    && p'.state == if j == s.cur then Dead
                   else if IsParent(s, j) && s.t[j].state == Blocked then Runnable
                   else s.t[j].state
  }

  lemma ExitLaw(s: Sys, j: nat)
    requires Inv(s) && Enabled(s, Exit) && j < MAX_THREADS
    ensures var s' := Apply(s, Exit);
            && |s'.t| == |s.t| && ExitTold(s, s'.t[j], j) && s.live > 0
            && s' == Sys(s'.t, s.n, s.cur, s.live - 1, s.nextPid, s.io, s.born, s.reaped)
  {
    var t1 := s.t[s.cur := SetState(s.t[s.cur], Dead)];
    var parent := s.t[s.cur].parent;
    LiveCountUpdate(s.t[1..], s.cur - 1, SetState(s.t[s.cur], Dead));
    if parent != 0 && Find(t1, BlockedPid(parent), 0, s.n) < s.n {
      WakeLaw(t1, s.n, parent, Find(t1, BlockedPid(parent), 0, s.n));
    } else {
      assert j < s.n && j != s.cur && IsParent(s, j) ==> t1[j] == s.t[j] && !Hit(BlockedPid(parent), t1[j]);
    }
  }

  // --- spawn ----------------------------------------------------------------------------------

  /** A slot can be had exactly if one of 1 to 6 is free; slot 7 would lack a kernel stack. */
  lemma HasSlotIff(s: Sys)
    requires TableOk(s)
    ensures HasSlot(s.t, s.n) <==> exists i :: 1 <= i < 7 && s.t[i].state == Free
  {
    if HasSlot(s.t, s.n) {
      assert s.t[Find(s.t, FreeSlot, 1, s.n)].state == Free;
    }
    forall i | 1 <= i < 7 && s.t[i].state == Free ensures HasSlot(s.t, s.n) {
      assert i < s.n ==> Hit(FreeSlot, s.t[i]);
    }
  }

  /** The lowest free slot holds the new, runnable process, with no signal pending; the table has grown to
      that slot; the process is counted, and a process pid used once is not used again. */
  ghost predicate Admits(s: Sys, s': Sys, pid: nat, parent: nat, i: nat) {
    && 1 <= i < |s.t| && s.t[i].state == Free && (forall j :: 1 <= j < i ==> s.t[j].state != Free)
    && OnlySlot(s.t, s'.t, i) && s'.t[i] == Tcb(Runnable, pid, parent, User, {})
    && s'.n == (if i < s.n then s.n else i + 1) && s'.live == s.live + 1
    && s'.nextPid == (if pid == 0 then s.nextPid else pid + 1)
    && s'.born == (if pid == 0 then s.born else s.born[pid := parent])
    && s'.cur == s.cur && s'.io == s.io && s'.reaped == s.reaped
  }

  lemma SpawnLaw(s: Sys, pid: nat, parent: nat) returns (i: nat)
    requires TableOk(s) && HasSlot(s.t, s.n) && 0 < s.nextPid && (pid == s.nextPid || pid == 0)
    ensures Admits(s, Spawned(s, pid, parent), pid, parent, i)
  {
    i := Find(s.t, FreeSlot, 1, s.n);
    assert forall j :: 1 <= j < i ==> !Hit(FreeSlot, s.t[j]);
  }

  /** What each of the three spawn paths admits. */
  lemma SpawnSteps(s: Sys, e: Event) returns (i: nat)
    requires Inv(s) && Enabled(s, e) && (e == SpawnThread || e == SpawnFirst || e == Fork)
    ensures Admits(s, Apply(s, e), if e == SpawnThread then 0 else s.nextPid, if e == Fork then Me(s) else 0, i)
  {
    i := SpawnLaw(s, if e == SpawnThread then 0 else s.nextPid, if e == Fork then Me(s) else 0);
  }

  // --- wait -----------------------------------------------------------------------------------

  /** The caller is back in user code; slots other than its own and `d` are as before. */
  ghost predicate BackInUser(s: Sys, s': Sys, d: nat)
    requires s.cur < |s.t| == |s'.t|
  {
    && s' == Sys(s'.t, s.n, s.cur, s.live, s.nextPid, s.io, s.born, s'.reaped) && NowAt(s, s', Runnable, User)
    && forall j :: 0 <= j < |s.t| && j != d && j != s.cur ==> s'.t[j] == s.t[j]
  }

  ghost predicate NoMatch(s: Sys, target: nat, st: RunState, hi: nat)
    requires s.cur < |s.t| && hi <= |s.t|
  {
    forall j :: 1 <= j < hi && s.t[j].parent == s.t[s.cur].pid && (target == 0 || s.t[j].pid == target) ==>
      s.t[j].state != st
  }

  /** `d` is the first slot with a dead child of the caller that matches, and `p` is its pid. */
  ghost predicate FirstDead(s: Sys, target: nat, p: nat, d: nat)
    requires s.cur < |s.t|
  {
    && 1 <= d < s.n <= |s.t| && d != s.cur && p != 0
    && s.t[d].state == Dead && s.t[d].parent == s.t[s.cur].pid && s.t[d].pid == p
    && (target == 0 || p == target) && NoMatch(s, target, Dead, d)
  }

  /** That slot is blank afterwards, and its pid, never reaped before, is reaped now. */
  ghost predicate Harvests(s: Sys, s': Sys, target: nat, p: nat, d: nat)
    requires s.cur < |s.t| == |s'.t|
  {
    && FirstDead(s, target, p, d)
    && s'.t[d] == Tcb(Free, 0, 0, User, {}) && p !in s.reaped && s'.reaped == s.reaped + {p}
  }

  /** What a `wait` that does not sleep answers, and what it leaves. */
  ghost predicate Answered(s: Sys, s': Sys, target: nat, r: WaitResult)
    requires s.cur < |s.t| == |s'.t| && s.n <= |s.t|
  {
    match r
    case Reaped(p) => exists d :: Harvests(s, s', target, p, d) && BackInUser(s, s', d)
    case ChildStopped =>
      && BackInUser(s, s', s.cur) && s'.reaped == s.reaped && NoMatch(s, target, Dead, s.n)
      && !NoMatch(s, target, Stopped, s.n)
    case NoChild =>
      && BackInUser(s, s', s.cur) && s'.reaped == s.reaped && NoMatch(s, target, Dead, s.n)
      && NoMatch(s, target, Stopped, s.n)
  }

  lemma AnsweredLaw(s: Sys, target: nat)
    requires Inv(s) && Acting(s) && Me(s) != 0
    ensures |FinishWait(s, Me(s), target).t| == |s.t|
    ensures Answered(s, FinishWait(s, Me(s), target), target, WaitOutcome(s, Me(s), target))
  {
    var s', me := FinishWait(s, Me(s), target), Me(s);
    var d := Find(s.t, DeadChild(me, target), 1, s.n);
    NoMatchFind(s, target, Dead, d);
    if d < s.n {
      HarvestLaw(s, target, d);
    } else {
      var c := Find(s.t, StoppedChild(me, target), 1, s.n);
      NoMatchFind(s, target, Stopped, c);
      assert c < s.n ==> Hit(StoppedChild(me, target), s.t[c]);
    }
  }

  lemma HarvestLaw(s: Sys, target: nat, d: nat)
    requires TableOk(s) && PidsOk(s) && Acting(s) && Me(s) != 0 && d < s.n
    requires d == Find(s.t, DeadChild(Me(s), target), 1, s.n)
    ensures Harvests(s, Reap(s, d), target, s.t[d].pid, d)
    ensures Harvests(s, Reap(MoveTo(s, Runnable, User), d), target, s.t[d].pid, d)
    ensures BackInUser(s, Reap(MoveTo(s, Runnable, User), d), d)
  {
    NoMatchFind(s, target, Dead, d);
    assert Hit(DeadChild(Me(s), target), s.t[d]);
    assert s.t[d].pid != 0 && d != s.cur;
  }

  lemma NoMatchFind(s: Sys, target: nat, st: RunState, d: nat)
    requires s.cur < |s.t| && 1 <= s.n <= |s.t| && (st == Dead || st == Stopped)
    requires d == Find(s.t, if st == Dead then DeadChild(Me(s), target) else StoppedChild(Me(s), target), 1, s.n)
    ensures NoMatch(s, target, st, d)
  {
    var q := if st == Dead then DeadChild(Me(s), target) else StoppedChild(Me(s), target);
    assert forall j :: 1 <= j < d ==> !Hit(q, s.t[j]);
  }

  /** There is something to wait for, and nothing to report yet. */
  ghost predicate MustWait(s: Sys, target: nat)
    requires s.cur < |s.t| && s.n <= |s.t|
  {
    && NoMatch(s, target, Dead, s.n) && NoMatch(s, target, Stopped, s.n)
    && exists c :: 1 <= c < s.n && s.t[c].parent == s.t[s.cur].pid && s.t[c].state != Free
                   && (target == 0 || s.t[c].pid == target)
  }

  lemma MustWaitIff(s: Sys, target: nat)
    requires s.cur < |s.t| && 1 <= s.n <= |s.t|
    ensures WaitReady(s.t, s.n, Me(s), target) <==> !MustWait(s, target)
  {
    var me := Me(s);
    var d := Find(s.t, DeadChild(me, target), 1, s.n);
    var c := Find(s.t, StoppedChild(me, target), 1, s.n);
    var a := Find(s.t, ChildOf(me, target), 1, s.n);
    NoMatchFind(s, target, Dead, d);
    NoMatchFind(s, target, Stopped, c);
    assert d < s.n ==> Hit(DeadChild(me, target), s.t[d]);
    assert c < s.n ==> Hit(StoppedChild(me, target), s.t[c]);
    assert a < s.n ==> Hit(ChildOf(me, target), s.t[a]);
    assert forall j :: 1 <= j < a ==> !Hit(ChildOf(me, target), s.t[j]);
  }

  /** The first look: asleep in `wait` if and only if it must, answered otherwise. */
  lemma WaitBeginLaw(s: Sys, target: nat)
    requires Inv(s) && Enabled(s, BeginWait(target))
    ensures var s' := Apply(s, BeginWait(target));
            && |s'.t| == |s.t|
            && (MustWait(s, target) ==> OnlyMoves(s, s', Blocked, InWait(target)))
            && (!MustWait(s, target) ==> Answered(s, s', target, WaitOutcome(s, Me(s), target)))
  {
    MustWaitIff(s, target);
    AnsweredLaw(s, target);
  }

  /** A pass of the sleeping loop: on to the second look if and only if there is something to report. */
  lemma WaitPassLaw(s: Sys)
    requires 1 <= s.n < |s.t| && s.cur < s.n && Enabled(s, CheckWait)
    ensures var s', target := Apply(s, CheckWait), s.t[s.cur].at.target;
            && |s'.t| == |s.t|
            && (MustWait(s, target) ==> OnlyMoves(s, s', Blocked, InWait(target)))
            && (!MustWait(s, target) ==> OnlyMoves(s, s', Runnable, Woken(target)))
  {
    MustWaitIff(s, s.t[s.cur].at.target);
  }

  /** `reap_dead_child` and `reap_dead_pid`. */
  lemma ReapLaw(s: Sys, target: nat)
    requires Inv(s) && Enabled(s, ReapOne(target))
    ensures var s', d := Apply(s, ReapOne(target)), Find(s.t, DeadChild(Me(s), target), 1, s.n);
            && OnlySlot(s.t, s'.t, d)
            && s' == Sys(s'.t, s.n, s.cur, s.live, s.nextPid, s.io, s.born, s'.reaped)
            && Harvests(s, s', target, s.t[d].pid, d)
  {
    var d := Find(s.t, DeadChild(Me(s), target), 1, s.n);
    HarvestLaw(s, target, d);
  }

  // --- the disk slots -------------------------------------------------------------------------

  /** The first free slot is granted; all other owners keep theirs. */
  ghost predicate Grants(io: Pool, io': Pool, me: nat) {
    && io'.owners.Keys == io.owners.Keys + {me} && io.free == [io'.owners[me]] + io'.free
    && (forall p :: p in io.owners ==> io'.owners[p] == io.owners[p]) && io'.queue == io.queue
  }

  lemma GrantLaw(io: Pool, me: nat)
    requires me !in io.owners && io.free != []
    ensures Grants(io, AcquirePool(io, me), me)
  {
    assert io.free == [io.free[0]] + io.free[1..];
  }

  /** A free slot is granted at once, the one that was freed first; else the requester queues last. */
  lemma AcquireLaw(s: Sys)
    requires Inv(s) && Enabled(s, Acquire)
    ensures var s', me := Apply(s, Acquire), Me(s);
            && OnlySlot(s.t, s'.t, s.cur)
            && s' == Sys(s'.t, s.n, s.cur, s.live, s.nextPid, s'.io, s.born, s.reaped)
            && (s.io.free != [] ==> Grants(s.io, s'.io, me) && NowAt(s, s', Runnable, Holding))
            && (s.io.free == [] ==>
                 s'.io == Pool([], s.io.owners, s.io.queue + [me]) && NowAt(s, s', Runnable, InAcquire))
  {
    assert PointOk(s.io, s.t[s.cur]);
    if s.io.free != [] {
      GrantLaw(s.io, Me(s));
    }
    AcquireMoves(s);
  }

  lemma AcquireMoves(s: Sys)
    requires s.cur < s.n < |s.t| && Enabled(s, Acquire)
    ensures var s' := Apply(s, Acquire);
            && OnlySlot(s.t, s'.t, s.cur)
            && s' == Sys(s'.t, s.n, s.cur, s.live, s.nextPid, AcquirePool(s.io, Me(s)), s.born, s.reaped)
            && NowAt(s, s', Runnable, if s.io.free == [] then InAcquire else Holding)
  {
  }

  /** A pass of the sleeping loop in `acquire_disk`. */
  lemma AcquirePassLaw(s: Sys)
    requires 1 <= s.n < |s.t| && s.cur < s.n && Enabled(s, CheckAcquire)
    ensures var s' := Apply(s, CheckAcquire);
            && |s'.t| == |s.t|
            && (Me(s) in s.io.owners ==> OnlyMoves(s, s', Runnable, Holding))
            && (Me(s) !in s.io.owners ==> OnlyMoves(s, s', Blocked, InAcquire))
  {
  }

  /** The slot of `me` is owned by the first in the queue, or last in the free list; all other owners keep
      theirs. */
  ghost predicate Returns(io: Pool, io': Pool, me: nat)
    requires me in io.owners
  {
    && me !in io'.owners
    && (forall p :: p in io.owners && p != me ==> p in io'.owners && io'.owners[p] == io.owners[p])
    && (io.queue == [] ==>
         && io'.owners.Keys == io.owners.Keys - {me} && io'.queue == [] && io'.free == io.free + [io.owners[me]])
    && (io.queue != [] ==>
         && io'.owners.Keys == io.owners.Keys - {me} + {io.queue[0]} && io'.owners[io.queue[0]] == io.owners[me]
         && io.queue == [io.queue[0]] + io'.queue && io'.free == io.free)
  }

  lemma ReturnLaw(io: Pool, me: nat)
    requires me in io.owners && (io.queue != [] ==> io.queue[0] !in io.owners)
    ensures Returns(io, ReleasePool(io, me), me)
  {
    if io.queue != [] {
      assert io.queue == [io.queue[0]] + io.queue[1..];
    }
  }

  /** The very slot passes to whoever queued first, who is awake afterwards; with nobody queued it goes to
      the end of the free list. The releaser owns nothing, all other owners keep their slots. */
  lemma ReleaseLaw(s: Sys)
    requires Inv(s) && Enabled(s, Release)
    ensures Me(s) in s.io.owners
    ensures var s', me := Apply(s, Release), Me(s);
            && |s'.t| == |s.t| && s' == Sys(s'.t, s.n, s.cur, s.live, s.nextPid, s'.io, s.born, s.reaped)
            && NowAt(s, s', Runnable, User) && Returns(s.io, s'.io, me)
            && (s.io.queue == [] ==> OnlySlot(s.t, s'.t, s.cur))
            && (s.io.queue != [] ==>
                 forall j :: 0 <= j < |s.t| && j != s.cur ==> WokenIf(s.t[j], s'.t[j], s.io.queue[0]))
  {
    ReleaseFrom(s);
    ReturnLaw(s.io, Me(s));
    ReleaseTable(s);
  }

  lemma ReleaseFrom(s: Sys)
    requires Inv(s) && Enabled(s, Release)
    ensures Me(s) in s.io.owners
    ensures s.io.queue != [] ==> s.io.queue[0] !in s.io.owners && s.io.queue[0] != 0
  {
    assert PointOk(s.io, s.t[s.cur]);
  }

  lemma ReleaseTable(s: Sys)
    requires TableOk(s) && PidsOk(s) && Enabled(s, Release) && Me(s) in s.io.owners
    requires s.io.queue != [] ==> s.io.queue[0] !in s.io.owners && s.io.queue[0] != 0
    ensures var s' := Apply(s, Release);
            && |s'.t| == |s.t|
            && s' == Sys(s'.t, s.n, s.cur, s.live, s.nextPid, ReleasePool(s.io, Me(s)), s.born, s.reaped)
            && NowAt(s, s', Runnable, User)
            && (s.io.queue == [] ==> OnlySlot(s.t, s'.t, s.cur))
            && (s.io.queue != [] ==>
                 forall j :: 0 <= j < |s.t| && j != s.cur ==> WokenIf(s.t[j], s'.t[j], s.io.queue[0]))
  {
    if s.io.queue != [] {
      var next := s.io.queue[0];
      var s1 := MoveTo(WithIo(s, ReleasePool(s.io, Me(s))), Runnable, User);
      forall j | 0 <= j < |s.t| ensures WokenIf(s1.t[j], WakeT(s1.t, s1.n, next)[j], next) {
        WakeOne(s1.t, s1.n, next, j);
      }
    }
  }

  /** Runnable if it is the blocked process `pid`, else as it was. */
  predicate WokenIf(p: Tcb, p': Tcb, pid: nat) {
    p' == if p.pid == pid && p.state == Blocked then Tcb(Runnable, p.pid, p.parent, p.at, p.pending) else p
  }

  lemma WakeOne(t: seq<Tcb>, n: nat, pid: nat, j: nat)
    requires n <= |t| && j < |t| && pid != 0
    requires forall i, k :: 0 <= i < k < |t| && t[i].pid == t[k].pid ==> t[i].pid == 0
    requires n <= j ==> t[j].state == Free
    ensures |WakeT(t, n, pid)| == |t| && WokenIf(t[j], WakeT(t, n, pid)[j], pid)
  {
    var i := Find(t, BlockedPid(pid), 0, n);
    if i < n {
      WakeLaw(t, n, pid, i);
    } else {
      assert j < n ==> !Hit(BlockedPid(pid), t[j]);
    }
  }

  // --- polling and the tick -------------------------------------------------------------------

  /** Any other `block_current_until`: the caller remembers whether it holds a disk slot. */
  lemma PollLaw(s: Sys, e: Event)
    requires 1 <= s.n < |s.t| && s.cur < s.n && Enabled(s, e) && (e == BeginPoll || e.CheckPoll?)
    ensures var s', at := Apply(s, e), s.t[s.cur].at;
            && |s'.t| == |s.t|
            && (e == BeginPoll && at == Holding ==> OnlyMoves(s, s', Runnable, Poll(true)))
            && (e == BeginPoll && at == User ==> OnlyMoves(s, s', Runnable, Poll(false)))
            && (e == CheckPoll(true) && at == Poll(true) ==> OnlyMoves(s, s', Runnable, Holding))
            && (e == CheckPoll(true) && at == Poll(false) ==> OnlyMoves(s, s', Runnable, User))
            && (e == CheckPoll(false) ==> OnlyMoves(s, s', Blocked, at))
  {
  }

  /** A tick changes the running slot alone, and a pending stop is the stop of the process being preempted.
      The slot chosen is the first runnable worker behind the current one, cyclically; the current one
      itself comes last. */
  lemma TickLaw(s: Sys, stop: bool)
    requires 1 <= s.n < |s.t| && s.cur < s.n && Enabled(s, Tick(stop))
    ensures var s', t := Apply(s, Tick(stop)), if stop then Apply(s, Stop).t else s.t;
            && s' == Sys(t, s.n, s'.cur, s.live, s.nextPid, s.io, s.born, s.reaped) && s'.cur < s.n <= |t|
            && (s'.cur != 0 ==> t[s'.cur].state == Runnable)
            && forall w :: 0 < w < s.n && t[w].state == Runnable ==>
                 s'.cur != 0 && Gap(s.n, s.cur, s'.cur) <= Gap(s.n, s.cur, w)
  {
    PickLaw(if stop then StopT(s.t, s.n, s.cur) else s.t, s.n, s.cur);
  }

  lemma PickLaw(t: seq<Tcb>, n: nat, cur: nat)
    requires 1 <= n <= |t| && cur < n
    ensures var next := Pick(t, n, cur);
            && next < n && (next != 0 ==> t[next].state == Runnable)
            && forall w :: 0 < w < n && t[w].state == Runnable ==> next != 0 && Gap(n, cur, next) <= Gap(n, cur, w)
  {
    PickFromLaw(t, n, cur, 1);
    forall w | 0 < w < n && t[w].state == Runnable
      ensures Pick(t, n, cur) != 0 && Gap(n, cur, Pick(t, n, cur)) <= Gap(n, cur, w)
    {
      PickFromFirst(t, n, cur, 1, w);
    }
  }
}
