/** The per-core scheduler as an actor (kernel/src/pcsched.rs) and its mailbox
    (kernel/src/reactor.rs). Workers only post messages; the idle loop alone drains them into the
    core's Scheduler. A timer tick can fall between popping a message and dispatching it. */
module PcSched {
  import opened Wrappers
  import Ring

  // --- reactor::Mailbox -----------------------------------------------------------------

  /** A ring buffer that is a FIFO queue of bounded length. */
  class Mailbox<T> {
    const buf: array<Option<T>>
    var head: nat
    var tail: nat
    var len: nat
    ghost var queue: seq<T>

    /** The slot `k` places behind `head` holds entry `k` of the queue. */
    ghost predicate Valid()
      reads this, buf
    {
      && head < buf.Length && len <= buf.Length && |queue| == len
      && tail == Ring.Slot(buf.Length, head, len)
      && (forall s :: 0 <= s < buf.Length && Ring.Behind(buf.Length, head, s) < len ==>
           buf[s] == Some(queue[Ring.Behind(buf.Length, head, s)]))
    }

    constructor (cap: nat)
      requires 0 < cap
      ensures Valid() && queue == [] && buf.Length == cap && fresh(buf)
    {
      buf := new Option<T>[cap](_ => None);
      head, tail, len, queue := 0, 0, 0, [];
    }

    /** `push`: appends, or refuses when full. */
    method Push(v: T) returns (ok: bool)
      requires Valid()
      modifies this, buf
      ensures Valid()
      ensures ok == (|old(queue)| < buf.Length)
      ensures queue == if ok then old(queue) + [v] else old(queue)
    {
      if len == buf.Length {
        return false;
      }
      Ring.SlotIsMod(buf.Length, tail, 1);
      buf[tail] := Some(v);
      tail := (tail + 1) % buf.Length;
      len := len + 1;
      queue := queue + [v];
      return true;
    }

    /** `pop`: removes the oldest message. */
    method Pop() returns (r: Option<T>)
      requires Valid()
      modifies this, buf
      ensures Valid()
      ensures if old(queue) == [] then r == None && queue == []
              else r == Some(old(queue)[0]) && queue == old(queue)[1..]
    {
      if len == 0 {
        return None;
      }
      Ring.SlotIsMod(buf.Length, head, 1);
      r := buf[head];
      buf[head] := None;
      head := (head + 1) % buf.Length;
      len := len - 1;
      queue := queue[1..];
    }
  }

  // --- the actor protocol -----------------------------------------------------------------

  const WORKERS := 3
  const SLOTS := 4
  const CAP := 16

  datatype RunState = Free | Runnable | Dead
  datatype Msg = Ready | Unready
  datatype Phase = Drain | Check | Done

  /** One core: its slots, the running slot, the queued messages, the message popped but not yet
      dispatched, the Scheduler's count, and where its idle loop is. */
  datatype Core = Core(t: seq<RunState>, cur: nat, mail: seq<Msg>, hand: Option<Msg>, count: nat, phase: Phase)

  /** Every worker admitted and its admit message posted. */
  function Start(): (c: Core) {
    Core([Runnable, Runnable, Runnable, Runnable], 0, [Ready, Ready, Ready], None, 0, Drain)
  }

  datatype Event = Tick(next: nat) | Exit | Pop | Dispatch | CheckIdle

  /** The timer may pick any runnable slot; a worker exits when it runs; the idle loop steps when slot
      0 runs. */
  predicate Enabled(c: Core, e: Event) {
    match e
    case Tick(next) => next < |c.t| && c.t[next] == Runnable
    case Exit => 0 < c.cur < |c.t| && c.t[c.cur] == Runnable
    case Pop => c.cur == 0 && c.phase == Drain && c.hand == None
    case Dispatch => c.cur == 0 && c.phase == Drain && c.hand.Some?
    case CheckIdle => c.cur == 0 && c.phase == Check
  }

  /** `task_ready` and `task_unready`; the latter is ignored when idle. */
  function Handled(count: nat, m: Msg): (r: nat) {
    match m
    case Ready => count + 1
    case Unready => if count == 0 then 0 else count - 1
  }

  function Apply(c: Core, e: Event): (r: Core)
    requires Enabled(c, e)
  {
    match e
    case Tick(next) => Core(c.t, next, c.mail, c.hand, c.count, c.phase)
    case Exit =>
      Core(c.t[c.cur := Dead], c.cur, if |c.mail| < CAP then c.mail + [Unready] else c.mail, c.hand, c.count, c.phase)
    case Pop =>
      if c.mail == [] then Core(c.t, c.cur, c.mail, None, c.count, Check)
      else Core(c.t, c.cur, c.mail[1..], Some(c.mail[0]), c.count, Drain)
    case Dispatch => Core(c.t, c.cur, c.mail, None, Handled(c.count, c.hand.value), Drain)
    case CheckIdle => Core(c.t, c.cur, c.mail, c.hand, c.count, if c.count == 0 then Done else Drain)
  }

  /** The messages not yet dispatched, oldest first. */
  function Pending(c: Core): (r: seq<Msg>) { (if c.hand.Some? then [c.hand.value] else []) + c.mail }

  function LiveWorkers(t: seq<RunState>): (r: nat)
    requires |t| == SLOTS
  {
    (if t[1] == Runnable then 1 else 0) + (if t[2] == Runnable then 1 else 0) + (if t[3] == Runnable then 1 else 0)
  }

  /** The pending messages are `a` admits followed by retires; count and messages add up to the live
      workers; once the idle loop has left its first drain no admit is pending. */
  ghost predicate Inv(c: Core, a: nat) {
    var p := Pending(c);
    && |c.t| == SLOTS && c.t[0] == Runnable && (forall i :: 0 <= i < SLOTS ==> c.t[i] != Free) && c.cur < SLOTS
    && a <= |p| && (forall i :: 0 <= i < a ==> p[i] == Ready) && (forall i :: a <= i < |p| ==> p[i] == Unready)
    && c.count + a == LiveWorkers(c.t) + (|p| - a)
    && |p| + LiveWorkers(c.t) <= 2 * WORKERS
    && (c.phase != Drain ==> c.hand == None && a == 0)
    && (c.phase == Done ==> LiveWorkers(c.t) == 0 && p == [])
  }

  /** Each step keeps the invariant. */
  lemma StepInv(c: Core, e: Event, a: nat) returns (a': nat)
    requires Inv(c, a) && Enabled(c, e)
    ensures Inv(Apply(c, e), a')
  {
    var p, p' := Pending(c), Pending(Apply(c, e));
    match e
    case Tick(next) => a' := a;
    case Exit =>
      assert p' == p + [Unready];
      a' := a;
    case Pop =>
      assert p' == p;
      a' := a;
    case Dispatch =>
      assert p' == p[1..] && p[0] == c.hand.value;
      a' := if a > 0 then a - 1 else 0;
    case CheckIdle => a' := a;
  }

  ghost predicate IsRun(cs: seq<Core>, es: seq<Event>) {
    && |cs| == |es| + 1 && cs[0] == Start()
    && forall k :: 0 <= k < |es| ==> Enabled(cs[k], es[k]) && cs[k + 1] == Apply(cs[k], es[k])
  }

  lemma {:induction false} RunInv(cs: seq<Core>, es: seq<Event>, k: nat) returns (a: nat)
    requires IsRun(cs, es) && k < |cs|
    ensures Inv(cs[k], a)
  {
    if k == 0 {
      a := 3;
    } else {
      a := RunInv(cs, es, k - 1);
      a := StepInv(cs[k - 1], es[k - 1], a);
    }
  }

  /** In every run the mailbox never fills up, and the core leaves its loop only with every worker
      dead and every message handled. */
  lemma LeavesOnlyWhenDead(cs: seq<Core>, es: seq<Event>, k: nat)
    requires IsRun(cs, es) && k < |cs|
    ensures |cs[k].mail| < CAP
    ensures cs[k].phase == Done ==>
              |cs[k].t| == SLOTS && cs[k].mail == [] && forall i :: 1 <= i < SLOTS ==> cs[k].t[i] == Dead
  {
    var a := RunInv(cs, es, k);
  }
}
