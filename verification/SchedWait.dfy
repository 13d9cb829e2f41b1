/** What `wait` returns (kernel/src/usermode.rs, kernel/src/sched.rs). Its first look decides honestly.
    After a sleep the predicate is tested once to end the sleep and the children are looked at once
    more for the result, with interrupts on in between, so that other processes can run. */
module SchedWait {
  import opened SchedSpec
  import opened SchedProof

  /** When the first look finds the predicate true, "no child" means that there is none. */
  lemma FirstLookHonest(s: Sys, me: nat, target: nat)
    requires TableOk(s) && me != 0 && WaitReady(s.t, s.n, me, target)
    ensures WaitOutcome(s, me, target) == NoChild <==> forall c :: 1 <= c < s.n ==> !IsChild(s.t[c], me, target)
  {
  }

  /** "No child", although a matching child is there. */
  ghost predicate FalseNoChild(s: Sys, me: nat, target: nat)
    requires 1 <= s.n <= |s.t|
  {
    WaitOutcome(s, me, target) == NoChild && exists c :: 1 <= c < s.n && IsChild(s.t[c], me, target)
  }

  /** The second look gives that answer if and only if there are matching children and every one of them
      is running or blocked. */
  lemma FalseNoChildIff(s: Sys, me: nat, target: nat)
    requires TableOk(s) && me != 0
    ensures FalseNoChild(s, me, target) <==> NotReady(s.t, me, target)
  {
    if NotReady(s.t, me, target) {
      var c :| 0 <= c < |s.t| && IsChild(s.t[c], me, target);
      assert 1 <= c < s.n;
    }
  }

  // --- between the two looks -------------------------------------------------------------------

  /** The event that lets the stopped process `pid` run again. */
  predicate Continues(e: Event, pid: nat) { e.Signal? && e.pid == pid && (e.sig == SIGCONT || e.sig == SIGKILL) }

  /** The matching children are still the same processes; the dead ones are still dead, and a stopped one
      runs again only if `e` continued it. */
  ghost predicate ChildrenKept(t: seq<Tcb>, t': seq<Tcb>, e: Event, me: nat, target: nat) {
    |t'| == |t| && forall c {:trigger t'[c]} :: 0 <= c < |t| ==> ChildKept(t[c], t'[c], e, me, target)
  }

  predicate ChildKept(p: Tcb, p': Tcb, e: Event, me: nat, target: nat) {
    && (IsChild(p, me, target) <==> IsChild(p', me, target))
    && (IsChild(p, me, target) ==> p'.pid == p.pid)
    && (IsChild(p, me, target) && p.state == Dead ==> p'.state == Dead)
    && (IsChild(p, me, target) && p.state == Stopped && p'.state != Stopped ==> Continues(e, p.pid))
  }

  lemma KeptTwice(t: seq<Tcb>, t1: seq<Tcb>, t2: seq<Tcb>, e: Event, me: nat, target: nat)
    requires ChildrenKept(t, t1, e, me, target) && ChildrenKept(t1, t2, e, me, target)
    ensures ChildrenKept(t, t2, e, me, target)
  {
    forall c | 0 <= c < |t| ensures ChildKept(t[c], t2[c], e, me, target) {
      assert ChildKept(t[c], t1[c], e, me, target);
    }
  }

  /** One process changes state. */
  lemma KeptSame(t: seq<Tcb>, i: nat, p: Tcb, e: Event, me: nat, target: nat)
    requires i < |t| && p.pid == t[i].pid && p.parent == t[i].parent && (t[i].state == Dead ==> p.state == Dead)
    requires t[i].state == Stopped && p.state != Stopped ==> Continues(e, p.pid)
    ensures ChildrenKept(t, t[i := p], e, me, target)
  {
  }

  /** A slot that is not a child's before or after changes hands. */
  lemma KeptOther(t: seq<Tcb>, i: nat, p: Tcb, e: Event, me: nat, target: nat)
    requires i < |t| && t[i].parent != me && p.parent != me
    ensures ChildrenKept(t, t[i := p], e, me, target)
  {
  }

  lemma KeptSignal(t: seq<Tcb>, n: nat, pid: nat, sig: nat, e: Event, me: nat, target: nat)
    requires n <= |t| && (sig == SIGCHLD || e == Signal(pid, sig))
    ensures ChildrenKept(t, SignalT(t, n, pid, sig), e, me, target)
  {
    var i := Find(t, OfPid(pid), 0, n);
    if i < n {
      KeptSame(t, i, Signalled(t[i], sig), e, me, target);
    }
  }

  lemma KeptWake(t: seq<Tcb>, n: nat, pid: nat, e: Event, me: nat, target: nat)
    requires n <= |t|
    ensures ChildrenKept(t, WakeT(t, n, pid), e, me, target)
  {
    var i := Find(t, BlockedPid(pid), 0, n);
    if i < n {
      KeptSame(t, i, SetState(t[i], Runnable), e, me, target);
    }
  }

  lemma KeptStop(t: seq<Tcb>, n: nat, cur: nat, e: Event, me: nat, target: nat)
    requires cur < n <= |t| && t[cur].state == Runnable
    ensures ChildrenKept(t, StopT(t, n, cur), e, me, target)
  {
    var i := Find(t, OfPid(t[cur].pid), 0, n);
    var parent := if i < n then t[i].parent else 0;
    var t1 := if parent != 0 then SignalT(t, n, parent, SIGCHLD) else t;
    KeptSignal(t, n, parent, SIGCHLD, e, me, target);
    KeptSame(t1, cur, SetState(t1[cur], Stopped), e, me, target);
    KeptTwice(t, t1, StopT(t, n, cur), e, me, target);
  }

  lemma KeptExit(t: seq<Tcb>, n: nat, cur: nat, e: Event, me: nat, target: nat)
    requires cur < n <= |t| && t[cur].state == Runnable
    ensures ChildrenKept(t, ExitT(t, n, cur), e, me, target)
  {
    var t1 := t[cur := SetState(t[cur], Dead)];
    KeptSame(t, cur, SetState(t[cur], Dead), e, me, target);
    if t[cur].parent != 0 {
      KeptWake(t1, n, t[cur].parent, e, me, target);
      KeptTwice(t, t1, ExitT(t, n, cur), e, me, target);
    }
  }

  lemma KeptMove(s: Sys, st: RunState, at: Point, e: Event, me: nat, target: nat)
    requires s.cur < |s.t| && s.t[s.cur].state == Runnable
    ensures ChildrenKept(s.t, MoveTo(s, st, at).t, e, me, target)
  {
    var p := s.t[s.cur];
    KeptSame(s.t, s.cur, Tcb(st, p.pid, p.parent, at, p.pending), e, me, target);
  }

  /** Another process finishes its own `wait`. */
  lemma KeptFinish(s: Sys, theirs: nat, e: Event, me: nat, target: nat)
    requires 1 <= s.n <= |s.t| && s.cur < |s.t| && s.t[s.cur].state == Runnable && Me(s) != me && me != 0
    ensures ChildrenKept(s.t, FinishWait(s, Me(s), theirs).t, e, me, target)
  {
    KeptMove(s, Runnable, User, e, me, target);
    var d := Find(s.t, DeadChild(Me(s), theirs), 1, s.n);
    var s1 := MoveTo(s, Runnable, User);
    if d < s.n {
      assert s1.t[d].parent == Me(s);
      KeptOther(s1.t, d, TCB_INIT, e, me, target);
      KeptTwice(s.t, s1.t, FinishWait(s, Me(s), theirs).t, e, me, target);
    }
  }

  lemma KeptRelease(s: Sys, e: Event, me: nat, target: nat)
    requires 1 <= s.n < |s.t| && s.cur < s.n && Enabled(s, Release)
    ensures ChildrenKept(s.t, Apply(s, Release).t, e, me, target)
  {
    KeptMove(s, Runnable, User, e, me, target);
    var s1 := MoveTo(s, Runnable, User);
    var next := ReleaseNext(s.io, Me(s));
    if next != 0 {
      KeptWake(s1.t, s1.n, next, e, me, target);
      KeptTwice(s.t, s1.t, Apply(s, Release).t, e, me, target);
    }
  }

  lemma KeptSpawn(s: Sys, pid: nat, parent: nat, e: Event, me: nat, target: nat)
    requires Inv(s) && HasSlot(s.t, s.n) && parent != me && me != 0
    ensures ChildrenKept(s.t, Spawned(s, pid, parent).t, e, me, target)
  {
    KeptOther(s.t, Find(s.t, FreeSlot, 1, s.n), Tcb(Runnable, pid, parent, User, {}), e, me, target);
  }

  /** No step of anybody else takes a child from the waiting process or gives it one. */
  lemma WindowStep(s: Sys, e: Event, me: nat, target: nat)
    requires Inv(s) && Enabled(s, e) && me != 0
    requires Me(s) == me ==> s.t[s.cur].at.Woken? && e != Collect
    ensures ChildrenKept(s.t, Apply(s, e).t, e, me, target)
  {
    match e
    case Tick(stop) => if stop { KeptStop(s.t, s.n, s.cur, e, me, target); }
    case SpawnThread => KeptSpawn(s, 0, 0, e, me, target);
    case SpawnFirst => KeptSpawn(s, s.nextPid, 0, e, me, target);
    case Fork => KeptSpawn(s, s.nextPid, Me(s), e, me, target);
    case Exit => KeptExit(s.t, s.n, s.cur, e, me, target);
    case Stop => KeptStop(s.t, s.n, s.cur, e, me, target);
    case BeginWait(theirs) => KeptFinish(s, theirs, e, me, target); KeptMove(s, Blocked, InWait(theirs), e, me, target);
    case CheckWait =>
      KeptMove(s, Runnable, Woken(s.t[s.cur].at.target), e, me, target);
      KeptMove(s, Blocked, InWait(s.t[s.cur].at.target), e, me, target);
    case Collect => KeptFinish(s, s.t[s.cur].at.target, e, me, target);
    case ReapOne(theirs) => KeptOther(s.t, Find(s.t, DeadChild(Me(s), theirs), 1, s.n), TCB_INIT, e, me, target);
    case Signal(pid, sig) => KeptSignal(s.t, s.n, pid, sig, e, me, target);
    case Wake(pid) => KeptWake(s.t, s.n, pid, e, me, target);
    case Acquire => KeptMove(s, Runnable, if s.io.free == [] then InAcquire else Holding, e, me, target);
    case CheckAcquire =>
      KeptMove(s, Runnable, Holding, e, me, target);
      KeptMove(s, Blocked, InAcquire, e, me, target);
    case Release => KeptRelease(s, e, me, target);
    case BeginPoll => KeptMove(s, Runnable, Poll(s.t[s.cur].at == Holding), e, me, target);
    case CheckPoll(ready) =>
      var holding := s.t[s.cur].at.holding;
      KeptMove(s, Runnable, if holding then Holding else User, e, me, target);
      KeptMove(s, Blocked, Poll(holding), e, me, target);
  }

  /** From state `lo` to state `hi` the process in slot `w` is between its two looks. */
  ghost predicate Between(states: seq<Sys>, events: seq<Event>, lo: nat, hi: nat, w: nat, me: nat, target: nat) {
    && IsRun(states, events) && lo <= hi < |states| && me != 0
    && forall i :: lo <= i <= hi ==> InWindow(states[i], w, me, target)
  }

  predicate InWindow(s: Sys, w: nat, me: nat, target: nat) {
    w < |s.t| && s.t[w].pid == me && s.t[w].at == Woken(target)
  }

  /** Some step from `lo` on and before `hi` continues `pid`. */
  ghost predicate Continued(events: seq<Event>, lo: nat, hi: nat, pid: nat) {
    exists i :: lo <= i < hi && i < |events| && Continues(events[i], pid)
  }

  /** Child `c` over that stretch. */
  ghost predicate ChildSince(states: seq<Sys>, events: seq<Event>, lo: nat, hi: nat, me: nat, target: nat, c: nat)
    requires lo <= hi < |states| && c < |states[lo].t| && c < |states[hi].t|
  {
    var p, p' := states[lo].t[c], states[hi].t[c];
    && (IsChild(p, me, target) <==> IsChild(p', me, target))
    && (IsChild(p, me, target) ==> p'.pid == p.pid)
    && (IsChild(p, me, target) && p.state == Dead ==> p'.state == Dead)
    && (IsChild(p, me, target) && p.state == Stopped && p'.state != Stopped ==> Continued(events, lo, hi, p.pid))
  }

  lemma WindowOneStep(states: seq<Sys>, events: seq<Event>, i: nat, w: nat, me: nat, target: nat)
    requires IsRun(states, events) && i < |events| && me != 0
    requires InWindow(states[i], w, me, target) && InWindow(states[i + 1], w, me, target)
    ensures ChildrenKept(states[i].t, states[i + 1].t, events[i], me, target)
  {
    RunInv(states, events, i);
    assert StepsTo(states[i], events[i], states[i + 1]);
    WindowStep(states[i], events[i], me, target);
  }

  lemma RunTable(states: seq<Sys>, events: seq<Event>, k: nat)
    requires IsRun(states, events) && k < |states|
    ensures TableOk(states[k])
  {
    RunInv(states, events, k);
  }

  lemma {:induction false} WindowRun(
    states: seq<Sys>, events: seq<Event>, lo: nat, hi: nat, w: nat, me: nat, target: nat, c: nat)
    requires Between(states, events, lo, hi, w, me, target) && c < MAX_THREADS
    ensures |states[lo].t| == |states[hi].t| == MAX_THREADS && ChildSince(states, events, lo, hi, me, target, c)
    decreases hi
  {
    RunTable(states, events, lo);
    RunTable(states, events, hi);
    if lo < hi {
      WindowRun(states, events, lo, hi - 1, w, me, target, c);
      assert InWindow(states[hi - 1], w, me, target) && InWindow(states[hi], w, me, target);
      WindowOneStep(states, events, hi - 1, w, me, target);
      assert ChildKept(states[hi - 1].t[c], states[hi].t[c], events[hi - 1], me, target);
      ChildSinceStep(states, events, lo, hi, me, target, c);
    }
  }

  lemma ChildSinceStep(states: seq<Sys>, events: seq<Event>, lo: nat, hi: nat, me: nat, target: nat, c: nat)
    requires lo < hi < |states| == |events| + 1
    requires c < |states[lo].t| && c < |states[hi - 1].t| && c < |states[hi].t|
    requires ChildSince(states, events, lo, hi - 1, me, target, c)
    requires ChildKept(states[hi - 1].t[c], states[hi].t[c], events[hi - 1], me, target)
    ensures ChildSince(states, events, lo, hi, me, target, c)
  {
    var pid := states[lo].t[c].pid;
    if Continued(events, lo, hi - 1, pid) {
      var i :| lo <= i < hi - 1 && i < |events| && Continues(events[i], pid);
      assert Continued(events, lo, hi, pid);
    } else if Continues(events[hi - 1], pid) {
      assert Continued(events, lo, hi, pid);
    }
  }

  /** Step `j` ends the sleep of the process in slot `w`, step `k` is its second look. */
  ghost predicate Looks(states: seq<Sys>, events: seq<Event>, j: nat, k: nat, w: nat, me: nat, target: nat) {
    && j < k < |events| && Between(states, events, j + 1, k, w, me, target)
    && events[j] == CheckWait && states[j].cur == w && w < |states[j].t| && states[j].t[w].at == InWait(target)
    && events[k] == Collect && states[k].cur == w
  }

  /** The look that ends the sleep finds the predicate true and changes no child. */
  lemma LookFindsReady(states: seq<Sys>, events: seq<Event>, j: nat, k: nat, w: nat, me: nat, target: nat)
    requires Looks(states, events, j, k, w, me, target)
    ensures TableOk(states[j]) && WaitReady(states[j].t, states[j].n, me, target)
    ensures |states[j + 1].t| == MAX_THREADS
    ensures forall c :: 0 <= c < MAX_THREADS ==> SameButPoint(states[j].t[c], states[j + 1].t[c])
  {
    RunTable(states, events, j);
    assert StepsTo(states[j], events[j], states[j + 1]);
    assert InWindow(states[j + 1], w, me, target);
  }

  predicate SameButPoint(p: Tcb, p': Tcb) { p'.state == p.state && p'.pid == p.pid && p'.parent == p.parent }

  /** A matching child at both looks. */
  lemma ChildAtLooks(states: seq<Sys>, events: seq<Event>, j: nat, k: nat, w: nat, me: nat, target: nat, c: nat)
    requires Looks(states, events, j, k, w, me, target) && c < MAX_THREADS
    ensures TableOk(states[j]) && TableOk(states[k])
    ensures var p, p' := states[j].t[c], states[k].t[c];
            && (IsChild(p, me, target) <==> IsChild(p', me, target))
            && (Hit(DeadChild(me, target), p) ==> Hit(DeadChild(me, target), p'))
            && (Hit(StoppedChild(me, target), p) && p'.state != Stopped ==> Continued(events, j + 1, k, p.pid))
  {
    LookFindsReady(states, events, j, k, w, me, target);
    RunTable(states, events, k);
    WindowRun(states, events, j + 1, k, w, me, target, c);
    assert SameButPoint(states[j].t[c], states[j + 1].t[c]);
  }

  /** A child that was dead at the first look is reaped at the second. */
  lemma DeadIsReaped(states: seq<Sys>, events: seq<Event>, j: nat, k: nat, w: nat, me: nat, target: nat, c: nat)
    requires Looks(states, events, j, k, w, me, target) && c < MAX_THREADS == |states[j].t|
    requires Hit(DeadChild(me, target), states[j].t[c])
    ensures TableOk(states[k]) && WaitOutcome(states[k], me, target).Reaped?
  {
    ChildAtLooks(states, events, j, k, w, me, target, c);
    assert Hit(DeadChild(me, target), states[k].t[c]);
  }

  /** If there was no child at the first look, the second says so. */
  lemma NoneStaysNone(states: seq<Sys>, events: seq<Event>, j: nat, k: nat, w: nat, me: nat, target: nat)
    requires Looks(states, events, j, k, w, me, target) && |states[j].t| == MAX_THREADS
    requires forall c :: 0 <= c < MAX_THREADS ==> !IsChild(states[j].t[c], me, target)
    ensures TableOk(states[k]) && WaitOutcome(states[k], me, target) == NoChild
  {
    RunTable(states, events, k);
    forall c | 0 <= c < MAX_THREADS ensures !IsChild(states[k].t[c], me, target) {
      ChildAtLooks(states, events, j, k, w, me, target, c);
    }
  }

  /** The second look says "no child" falsely only if no matching child was dead at the first, one was
      stopped, and a signal in between continued that one. */
  lemma FalseNoChildCause(states: seq<Sys>, events: seq<Event>, j: nat, k: nat, w: nat, me: nat, target: nat)
    returns (c: nat)
    requires Looks(states, events, j, k, w, me, target) && TableOk(states[k]) && FalseNoChild(states[k], me, target)
    ensures |states[j].t| == MAX_THREADS && c < MAX_THREADS && Hit(StoppedChild(me, target), states[j].t[c])
    ensures Continued(events, j + 1, k, states[j].t[c].pid)
    ensures forall d :: 0 <= d < MAX_THREADS ==> !Hit(DeadChild(me, target), states[j].t[d])
  {
    LookFindsReady(states, events, j, k, w, me, target);
    FalseNoChildIff(states[k], me, target);
    var s := states[j];
    forall d | 0 <= d < MAX_THREADS ensures !Hit(DeadChild(me, target), s.t[d]) {
      ChildAtLooks(states, events, j, k, w, me, target, d);
      assert IsChild(states[k].t[d], me, target) ==> Busy(states[k].t[d]);
    }
    c := Find(s.t, StoppedChild(me, target), 1, s.n);
    assert c < s.n by {
      var b :| 0 <= b < |states[k].t| && IsChild(states[k].t[b], me, target);
      ChildAtLooks(states, events, j, k, w, me, target, b);
      assert Hit(ChildOf(me, target), s.t[b]);
    }
    ChildAtLooks(states, events, j, k, w, me, target, c);
  }

  // --- a run in which it happens ---------------------------------------------------------------------

  /** The shell (pid 1, slot 1) and two children (slots 2 and 3). */
  function Example(p: Tcb, q: Tcb, r: Tcb, n: nat, cur: nat, live: nat, nextPid: nat, born: map<nat, nat>): (s: Sys) {
    Sys([Tcb(Runnable, 0, 0, User, {}), p, q, r, TCB_INIT, TCB_INIT, TCB_INIT, TCB_INIT], n, cur, live, nextPid,
        Start().io, born, {})
  }

  /** With all three processes there. */
  function Three(p: Tcb, q: Tcb, cur: nat): (s: Sys) {
    Example(p, q, Tcb(Runnable, 3, 1, User, {}), 4, cur, 3, 4, map[1 := 0, 2 := 1, 3 := 1])
  }

  function Shell(st: RunState, at: Point, pending: set<nat>): (p: Tcb) { Tcb(st, 1, 0, at, pending) }

  function Job(st: RunState, pending: set<nat>): (p: Tcb) { Tcb(st, 2, 1, User, pending) }

  function ExampleEvents(): (es: seq<Event>) {
    [SpawnFirst, Tick(false), Fork, Fork, BeginWait(2), Tick(false), Stop, Tick(false), Tick(false), CheckWait,
     Tick(false), Signal(2, SIGCONT), Tick(false), Collect]
  }

  function ExampleStates(): (ss: seq<Sys>) {
    var idle := Shell(Runnable, User, {});
    [Start(),
     Example(idle, TCB_INIT, TCB_INIT, 2, 0, 1, 2, map[1 := 0]),
     Example(idle, TCB_INIT, TCB_INIT, 2, 1, 1, 2, map[1 := 0]),
     Example(idle, Job(Runnable, {}), TCB_INIT, 3, 1, 2, 3, map[1 := 0, 2 := 1]),
     Three(idle, Job(Runnable, {}), 1),
     Three(Shell(Blocked, InWait(2), {}), Job(Runnable, {}), 1),
     Three(Shell(Blocked, InWait(2), {}), Job(Runnable, {}), 2),
     Three(Shell(Runnable, InWait(2), {SIGCHLD}), Job(Stopped, {}), 2),
     Three(Shell(Runnable, InWait(2), {SIGCHLD}), Job(Stopped, {}), 3),
     Three(Shell(Runnable, InWait(2), {SIGCHLD}), Job(Stopped, {}), 1),
     Three(Shell(Runnable, Woken(2), {SIGCHLD}), Job(Stopped, {}), 1),
     Three(Shell(Runnable, Woken(2), {SIGCHLD}), Job(Stopped, {}), 3),
     Three(Shell(Runnable, Woken(2), {SIGCHLD}), Job(Runnable, {SIGCONT}), 3),
     Three(Shell(Runnable, Woken(2), {SIGCHLD}), Job(Runnable, {SIGCONT}), 1),
     Three(Shell(Runnable, User, {SIGCHLD}), Job(Runnable, {SIGCONT}), 1)]
  }

  predicate Eligible(t: seq<Tcb>, n: nat, cur: nat, i: nat)
    requires 1 <= n <= |t|
  {
    (cur + i) % n != 0 && t[(cur + i) % n].state == Runnable
  }

  /** The candidate `k` places on is chosen if those before it are not eligible. */
  lemma {:induction false} PickAt(t: seq<Tcb>, n: nat, cur: nat, step: nat, k: nat)
    requires 1 <= n <= |t| && 1 <= step <= k <= n
    requires (forall i :: step <= i < k ==> !Eligible(t, n, cur, i)) && Eligible(t, n, cur, k)
    ensures PickFrom(t, n, cur, step) == (cur + k) % n
    decreases k - step
  {
    if step < k {
      assert !Eligible(t, n, cur, step);
      PickAt(t, n, cur, step + 1, k);
    } else {
      assert Eligible(t, n, cur, step);
    }
  }

  lemma ExampleTicks(p: Tcb, q: Tcb)
    requires p.pid == 1 && q.pid == 2
    ensures p.state != Runnable && q.state == Runnable ==> Apply(Three(p, q, 1), Tick(false)) == Three(p, q, 2)
    ensures q.state != Runnable ==> Apply(Three(p, q, 2), Tick(false)) == Three(p, q, 3)
    ensures p.state == Runnable ==> Apply(Three(p, q, 3), Tick(false)) == Three(p, q, 1)
    ensures q.state != Runnable ==> Apply(Three(p, q, 1), Tick(false)) == Three(p, q, 3)
  {
    var t := Three(p, q, 1).t;
    if q.state == Runnable {
      PickAt(t, 4, 1, 1, 1);
    } else {
      PickAt(t, 4, 2, 1, 1);
      PickAt(t, 4, 1, 1, 2);
    }
    if p.state == Runnable {
      PickAt(t, 4, 3, 1, 2);
    }
  }

  lemma ExampleStart(k: nat)
    requires k < 4
    ensures StepsTo(ExampleStates()[k], ExampleEvents()[k], ExampleStates()[k + 1])
  {
    var ss := ExampleStates();
    if k == 1 {
      PickAt(ss[1].t, 2, 0, 1, 1);
    }
    assert ss[0].t == [Tcb(Runnable, 0, 0, User, {})] + seq(MAX_THREADS - 1, _ => TCB_INIT);
    assert Apply(ss[k], ExampleEvents()[k]).t == ss[k + 1].t;
  }

  lemma ExampleSleep()
    ensures StepsTo(ExampleStates()[4], BeginWait(2), ExampleStates()[5])
  {
    var s := ExampleStates()[4];
    assert !WaitReady(s.t, 4, 1, 2) by {
      assert Hit(ChildOf(1, 2), s.t[2]);
    }
    assert MoveTo(s, Blocked, InWait(2)).t == ExampleStates()[5].t;
  }

  lemma ExampleStop()
    ensures StepsTo(ExampleStates()[6], Stop, ExampleStates()[7])
  {
    var s := ExampleStates()[6];
    assert Hit(OfPid(2), s.t[2]) && Hit(OfPid(1), s.t[1]);
    assert Signalled(s.t[1], SIGCHLD) == Shell(Runnable, InWait(2), {SIGCHLD}) by {
      assert {} + {SIGCHLD} == {SIGCHLD};
    }
    assert Apply(s, Stop).t == ExampleStates()[7].t;
  }

  lemma ExampleLook()
    ensures StepsTo(ExampleStates()[9], CheckWait, ExampleStates()[10])
  {
    var s := ExampleStates()[9];
    assert Hit(StoppedChild(1, 2), s.t[2]);
    assert Apply(s, CheckWait).t == ExampleStates()[10].t;
  }

  lemma ExampleContinue()
    ensures StepsTo(ExampleStates()[11], Signal(2, SIGCONT), ExampleStates()[12])
  {
    var s := ExampleStates()[11];
    assert Hit(OfPid(2), s.t[2]);
    assert Signalled(s.t[2], SIGCONT) == Job(Runnable, {SIGCONT}) by {
      assert {} + {SIGCONT} == {SIGCONT};
    }
    assert Apply(s, Signal(2, SIGCONT)).t == ExampleStates()[12].t;
  }

  lemma ExampleCollect()
    ensures StepsTo(ExampleStates()[13], Collect, ExampleStates()[14]) && FalseNoChild(ExampleStates()[13], 1, 2)
  {
    var s := ExampleStates()[13];
    assert IsChild(s.t[2], 1, 2);
    assert Apply(s, Collect).t == ExampleStates()[14].t;
  }

  lemma ExampleTick(k: nat)
    requires k in {5, 7, 8, 10, 12}
    ensures StepsTo(ExampleStates()[k], Tick(false), ExampleStates()[k + 1])
  {
    var s := ExampleStates()[k];
    ExampleTicks(s.t[1], s.t[2]);
  }

  lemma ExampleStep(k: nat)
    requires k < 14
    ensures StepsTo(ExampleStates()[k], ExampleEvents()[k], ExampleStates()[k + 1])
  {
    if k < 4 {
      ExampleStart(k);
    } else if k in {5, 7, 8, 10, 12} {
      ExampleTick(k);
    } else if k == 4 {
      ExampleSleep();
    } else if k == 6 {
      ExampleStop();
    } else if k == 9 {
      ExampleLook();
    } else if k == 11 {
      ExampleContinue();
    } else {
      ExampleCollect();
    }
  }

  lemma RunFrom(ss: seq<Sys>, es: seq<Event>, s: Sys)
    requires |ss| == |es| + 1 && ss[0] == s && Inv(s)
    requires forall k :: 0 <= k < |es| ==> StepsTo(ss[k], es[k], ss[k + 1])
    ensures IsRun(ss, es)
  {
  }

  lemma ExampleRun()
    ensures IsRun(ExampleStates(), ExampleEvents())
  {
    assert Inv(Start()) by {
      StartInv();
    }
    assert |ExampleEvents()| == 14 && |ExampleStates()| == 15 && ExampleStates()[0] == Start();
    forall k | 0 <= k < 14 ensures StepsTo(ExampleStates()[k], ExampleEvents()[k], ExampleStates()[k + 1]) {
      ExampleStep(k);
    }
    RunFrom(ExampleStates(), ExampleEvents(), Start());
  }

  /** Steps 9 and 13 are the two looks of slot 1. */
  ghost predicate TwoLooks(ss: seq<Sys>, es: seq<Event>) {
    && |es| == 14 && |ss| == 15 && es[9] == CheckWait && es[13] == Collect
    && ss[9].cur == ss[13].cur == 1 < |ss[9].t| && ss[9].t[1].at == InWait(2)
    && (forall i :: 10 <= i <= 13 ==> InWindow(ss[i], 1, 1, 2))
  }

  lemma ExampleTwoLooks()
    ensures TwoLooks(ExampleStates(), ExampleEvents())
  {
  }

  lemma LooksAt(ss: seq<Sys>, es: seq<Event>)
    requires IsRun(ss, es) && TwoLooks(ss, es)
    ensures Looks(ss, es, 9, 13, 1, 1, 2)
  {
  }

  /** The shell waits for pid 2, which stops and so ends the shell's sleep. Before the shell looks again,
      pid 3 continues pid 2. The shell is told that it has no such child, and pid 2 runs on. */
  lemma FalseNoChildExample() returns (ss: seq<Sys>, es: seq<Event>)
    ensures |ss| == 15 && ss[0] == Start() && Looks(ss, es, 9, 13, 1, 1, 2)
    ensures 1 <= ss[13].n <= |ss[13].t| && FalseNoChild(ss[13], 1, 2)
  {
    ss, es := ExampleStates(), ExampleEvents();
    ExampleRun();
    ExampleTwoLooks();
    ExampleCollect();
    LooksAt(ss, es);
  }
}
