/** Signal frames (kernel/src/usermode.rs): `setup_signal_frame` pushes the interrupted trap frame
    below the red zone and enters the handler; returning from the handler pops the restorer's
    address, and `sigreturn` restores the frame from the stack. Handlers may be interrupted by
    further signals to any depth.

    User memory is a map from the addresses of 8-byte words, which is how the kernel writes it. */
module Signals {
  const RDI := 9
  const RIP := 15
  const RSP := 18
  const FRAME_WORDS := 20
  const FRAME_BYTES := 160
  const RED_ZONE := 128
  /** Below this stack pointer the 64-bit subtraction would wrap around. */
  const MIN_RSP := 304

  /** A trap frame: 15 general registers, then rip, cs, rflags, rsp, ss. */
  type Frame = f: seq<nat> | |f| == FRAME_WORDS witness seq(FRAME_WORDS, _ => 0)

  /** User memory by word address. */
  type Memory = int -> nat

  datatype State = State(frame: Frame, mem: Memory)

  // --- words in memory ---------------------------------------------------------------------------

  function StoreWord(mem: Memory, a: int, w: nat): (r: Memory) { b => if b == a then w else mem(b) }

  /** Consecutive words stored from `a` on. */
  function StoreWords(mem: Memory, a: int, ws: seq<nat>): (r: Memory) {
    b => if a <= b < a + 8 * |ws| && (b - a) % 8 == 0 then ws[(b - a) / 8] else mem(b)
  }

  function LoadWords(mem: Memory, a: int, n: nat): (ws: seq<nat>)
    ensures |ws| == n && forall i :: 0 <= i < n ==> ws[i] == mem(a + 8 * i)
  {
    seq(n, i requires 0 <= i < n => mem(a + 8 * i))
  }

  // --- delivery and return ---------------------------------------------------------------------

  /** The 16-aligned place for the saved frame, below the red zone. */
  function FrameSlot(rsp: nat): (r: int) {
    var x := rsp - RED_ZONE - FRAME_BYTES;
    x - x % 16
  }

  /** `setup_signal_frame` */
  function Setup(s: State, sig: nat, handler: nat, restorer: nat): (r: State)
    requires s.frame[RSP] >= MIN_RSP
  {
    var slot := FrameSlot(s.frame[RSP]);
    State(s.frame[RSP := slot - 8][RIP := handler][RDI := sig],
        StoreWord(StoreWords(s.mem, slot, s.frame), slot - 8, restorer))
  }

  /** The handler's `ret`, the restorer stub, and `sys_sigreturn`. */
  function Return(s: State): (r: State) {
    State(LoadWords(s.mem, s.frame[RSP] + 8, |s.frame|), s.mem)
  }

  /** Where the saved frame lies: aligned, wholly below the red zone; the handler starts with the stack
      pointer 8 modulo 16. Registers other than rdi, rip and rsp are as they were. */
  lemma SetupPlace(s: State, sig: nat, handler: nat, restorer: nat)
    requires s.frame[RSP] >= MIN_RSP
    ensures var f, rsp := Setup(s, sig, handler, restorer).frame, s.frame[RSP];
            && f[18] == FrameSlot(rsp) - 8 && f[18] % 16 == 8
            && f[18] + 8 + 160 <= rsp - 128 < f[18] + 8 + 160 + 16
            && f[15] == handler && f[9] == sig
            && forall i :: 0 <= i < 20 && i !in {9, 15, 18} ==> f[i] == s.frame[i]
  {
  }

  /** What is on the stack then: the restorer's address on top, the whole interrupted frame above it. */
  lemma SetupSaved(s: State, sig: nat, handler: nat, restorer: nat)
    requires s.frame[RSP] >= MIN_RSP
    ensures var m, slot := Setup(s, sig, handler, restorer).mem, FrameSlot(s.frame[RSP]);
            m(slot - 8) == restorer && LoadWords(m, slot, |s.frame|) == s.frame
  {
  }

  /** Nothing else changed. */
  lemma SetupOthers(s: State, sig: nat, handler: nat, restorer: nat, b: int)
    requires s.frame[RSP] >= MIN_RSP && (b >= FrameSlot(s.frame[RSP]) + FRAME_BYTES || b < FrameSlot(s.frame[RSP]) - 8)
    ensures Setup(s, sig, handler, restorer).mem(b) == s.mem(b)
  {
  }

  // --- well-nested behaviour -----------------------------------------------------------------------

  /** What user code does: compute, which leaves some registers and stores some words, or take a signal
      whose handler again does such things before it returns. */
  datatype Act =
    | Compute(frame: Frame, stores: map<int, nat>)
    | Handle(sig: nat, handler: nat, restorer: nat, body: Acts)

  datatype Acts = Done | Then(act: Act, rest: Acts)

  function Stored(mem: Memory, stores: map<int, nat>): (r: Memory) { b => if b in stores then stores[b] else mem(b) }

  function Exec(s: State, acts: Acts): (r: State)
    decreases acts
  {
    match acts
    case Done => s
    case Then(act, rest) => Exec(Do(s, act), rest)
  }

  function Do(s: State, act: Act): (r: State)
    decreases act
  {
    match act
    case Compute(frame, stores) => State(frame, Stored(s.mem, stores))
    case Handle(sig, handler, restorer, body) =>
      if s.frame[RSP] < MIN_RSP then s else Return(Exec(Setup(s, sig, handler, restorer), body))
  }

  /** The code keeps to its part of the stack: it stores only below `top`, its own stack pointer stays
      at or below `top`, and a handler ends with the stack pointer it was entered with. */
  predicate Proper(s: State, acts: Acts, top: int)
    decreases acts
  {
    match acts
    case Done => true
    case Then(act, rest) => ProperAct(s, act, top) && Proper(Do(s, act), rest, top)
  }

  predicate ProperAct(s: State, act: Act, top: int)
    decreases act
  {
    match act
    case Compute(frame, stores) => frame[RSP] <= top && forall b :: b in stores ==> b < top
    case Handle(sig, handler, restorer, body) =>
      && s.frame[RSP] >= MIN_RSP
      && var entry := Setup(s, sig, handler, restorer);
         Proper(entry, body, entry.frame[RSP]) && Exec(entry, body).frame[RSP] == entry.frame[RSP]
  }

  /** Nothing at or above `top` changes, at any depth of nesting. */
  lemma {:induction false} Kept(s: State, acts: Acts, top: int)
    requires Proper(s, acts, top) && s.frame[RSP] <= top
    ensures forall b :: b >= top ==> Exec(s, acts).mem(b) == s.mem(b)
    ensures Exec(s, acts).frame[RSP] <= top
    decreases acts, 0
  {
    match acts
    case Done =>
    case Then(act, rest) =>
      KeptAct(s, act, top);
      Kept(Do(s, act), rest, top);
  }

  lemma {:induction false} KeptAct(s: State, act: Act, top: int)
    requires ProperAct(s, act, top) && s.frame[RSP] <= top
    ensures forall b :: b >= top ==> Do(s, act).mem(b) == s.mem(b)
    ensures Do(s, act).frame[RSP] <= top
    decreases act, 0
  {
    match act
    case Compute(frame, stores) =>
    case Handle(sig, handler, restorer, body) => Interrupted(s, sig, handler, restorer, body);
  }

  /** Nested signals: when a handler returns, however many signals interrupted it on the way, the whole
      interrupted trap frame is back, and the 128-byte red zone below the interrupted stack pointer and
      everything above it are as they were. */
  lemma {:induction false} Interrupted(s: State, sig: nat, handler: nat, restorer: nat, body: Acts)
    requires ProperAct(s, Handle(sig, handler, restorer, body), s.frame[RSP])
    ensures var s' := Do(s, Handle(sig, handler, restorer, body));
            && s'.frame == s.frame
            && forall b :: b >= FrameSlot(s.frame[RSP]) + 160 ==> s'.mem(b) == s.mem(b)
    ensures FrameSlot(s.frame[RSP]) + 160 <= s.frame[18] - 128
    decreases body, 1
  {
    var entry := Setup(s, sig, handler, restorer);
    SetupPlace(s, sig, handler, restorer);
    Kept(entry, body, entry.frame[RSP]);
    var end := Exec(entry, body);
    assert KeptAbove(entry, end);
    FrameBack(s, sig, handler, restorer, end);
    forall b | b >= FrameSlot(s.frame[RSP]) + FRAME_BYTES ensures Return(end).mem(b) == s.mem(b) {
      MemoryBack(s, sig, handler, restorer, end, b);
    }
  }

  /** `end` kept everything from the handler's entry stack pointer up. */
  ghost predicate KeptAbove(entry: State, end: State) {
    end.frame[RSP] == entry.frame[RSP] && forall b :: b >= entry.frame[RSP] ==> end.mem(b) == entry.mem(b)
  }

  lemma FrameBack(s: State, sig: nat, handler: nat, restorer: nat, end: State)
    requires s.frame[RSP] >= MIN_RSP && KeptAbove(Setup(s, sig, handler, restorer), end)
    ensures Return(end).frame == s.frame
  {
  }

  lemma MemoryBack(s: State, sig: nat, handler: nat, restorer: nat, end: State, b: int)
    requires s.frame[RSP] >= MIN_RSP && KeptAbove(Setup(s, sig, handler, restorer), end)
    requires b >= FrameSlot(s.frame[RSP]) + FRAME_BYTES
    ensures Return(end).mem(b) == s.mem(b)
  {
  }

  // --- the kernel's in-place form ------------------------------------------------------------------

  class Thread {
    const frame: array<nat>
    var mem: Memory

    ghost predicate Valid()
      reads this
    {
      frame.Length == FRAME_WORDS
    }

    ghost function View(): (s: State)
      requires Valid()
      reads this, frame
    {
      State(frame[..], mem)
    }

    constructor ()
      ensures Valid() && fresh(frame)
    {
      frame := new nat[FRAME_WORDS](_ => 0);
      mem := _ => 0;
    }

    /** `setup_signal_frame` on the live trap frame. */
    method SetupSignalFrame(sig: nat, handler: nat, restorer: nat)
      requires Valid() && frame[RSP] >= MIN_RSP
      modifies this, frame
      ensures Valid() && View() == Setup(old(View()), sig, handler, restorer)
    {
      var x := frame[RSP] - RED_ZONE - FRAME_BYTES;
      var slot := x - x % 16;
      mem := StoreWords(mem, slot, frame[..]);
      mem := StoreWord(mem, slot - 8, restorer);
      frame[RSP] := slot - 8;
      frame[RIP] := handler;
      frame[RDI] := sig;
    }

    /** `sys_sigreturn`, reached through the restorer with the stack pointer at the saved frame. */
    method SigReturn()
      requires Valid()
      modifies frame
      ensures Valid() && frame[..] == LoadWords(mem, old(frame[RSP]), frame.Length)
    {
      var saved := LoadWords(mem, frame[RSP], frame.Length);
      forall i | 0 <= i < frame.Length {
        frame[i] := saved[i];
      }
    }
  }
}
