/** Rank-ordered, interrupt-safe spinlocks (kernel/src/spin.rs) for any number of cores and locks.

    `lock` is two steps, because other cores run in between: the part up to the store of HELD_RANK,
    done with interrupts off, and each attempt of the compare-exchange. Guards are dropped in
    reverse order of acquisition, and a core that holds a leaf lock (rank 0) acquires nothing. */
module Spin {
  import opened Wrappers

  /** What `lock` remembers for `drop`. */
  datatype Guard = Guard(lock: nat, irqWas: bool, saved: nat)

  /** One core: its interrupt flag, its HELD_RANK entry, its guards from oldest to newest, and the
      acquisition it is spinning in. `base` is the interrupt flag it had when it held nothing. */
  datatype Core = Core(irq: bool, held: nat, guards: seq<Guard>, spin: Option<Guard>, base: bool)

  datatype Place = Place(core: nat, pos: nat)

  /** `owner[l]` is the guard that stands for lock `l`, if any; only statements use it. */
  datatype Sys = Sys(rank: seq<nat>, locked: seq<bool>, owner: seq<Option<Place>>, cores: seq<Core>)

  // --- one core's stack of guards -----------------------------------------------------------------

  function RankOf(rank: seq<nat>, l: nat): (r: nat) { if l < |rank| then rank[l] else 0 }

  /** The highest rank held, 0 if none: the newest ranked guard has it. */
  function TopRank(rank: seq<nat>, gs: seq<Guard>): (r: nat) {
    if gs == [] then 0
    else
      var last := gs[|gs| - 1];
      if RankOf(rank, last.lock) != 0 then RankOf(rank, last.lock) else TopRank(rank, gs[..|gs| - 1])
  }

  /** Ranks strictly increase, each ranked guard remembers the rank below it, a leaf is on top only. */
  ghost predicate StackOk(rank: seq<nat>, gs: seq<Guard>) {
    forall i :: 0 <= i < |gs| ==>
      && gs[i].lock < |rank|
      && (rank[gs[i].lock] != 0 ==> gs[i].saved == TopRank(rank, gs[..i]) < rank[gs[i].lock])
      && (rank[gs[i].lock] == 0 ==> i == |gs| - 1)
  }

  ghost predicate CoreOk(rank: seq<nat>, c: Core) {
    && StackOk(rank, c.guards)
    && (c.spin.Some? ==>
          && c.spin.value.lock < |rank|
          && (c.guards != [] ==> rank[c.guards[|c.guards| - 1].lock] != 0)
          && (rank[c.spin.value.lock] != 0 ==>
                c.spin.value.saved == TopRank(rank, c.guards) < rank[c.spin.value.lock]))
    && c.held == (if c.spin.Some? && RankOf(rank, c.spin.value.lock) != 0 then RankOf(rank, c.spin.value.lock)
                  else TopRank(rank, c.guards))
    && c.irq == (c.guards == [] && c.spin == None && c.base)
    && IrqsOk(c.guards, c.base)
    && (c.spin.Some? ==> c.spin.value.irqWas == (c.guards == [] && c.base))
  }

  /** HELD_RANK is an upper bound of every rank on the stack. */
  lemma {:induction false} TopRankIsMax(rank: seq<nat>, gs: seq<Guard>)
    requires StackOk(rank, gs)
    ensures forall i :: 0 <= i < |gs| ==> rank[gs[i].lock] <= TopRank(rank, gs)
    decreases |gs|
  {
    if gs != [] {
      var n := |gs| - 1;
      StackInit(rank, gs);
      TopRankIsMax(rank, gs[..n]);
      forall i | 0 <= i < |gs| ensures rank[gs[i].lock] <= TopRank(rank, gs) {
        if i < n {
          assert gs[..n][i] == gs[i];
        }
      }
    }
  }

  /** It is attained. */
  lemma {:induction false} TopRankAttained(rank: seq<nat>, gs: seq<Guard>) returns (i: nat)
    requires TopRank(rank, gs) > 0
    ensures i < |gs| && RankOf(rank, gs[i].lock) == TopRank(rank, gs)
    decreases |gs|
  {
    i := |gs| - 1;
    if RankOf(rank, gs[i].lock) == 0 {
      i := TopRankAttained(rank, gs[..i]);
    }
  }

  lemma StackInit(rank: seq<nat>, gs: seq<Guard>)
    requires StackOk(rank, gs) && gs != []
    ensures StackOk(rank, gs[..|gs| - 1])
  {
  }

  lemma StackPush(rank: seq<nat>, gs: seq<Guard>, g: Guard)
    requires StackOk(rank, gs) && g.lock < |rank| && (gs != [] ==> rank[gs[|gs| - 1].lock] != 0)
    requires rank[g.lock] != 0 ==> g.saved == TopRank(rank, gs) < rank[g.lock]
    ensures StackOk(rank, gs + [g])
    ensures TopRank(rank, gs + [g]) == if rank[g.lock] != 0 then rank[g.lock] else TopRank(rank, gs)
  {
  }

  // --- the whole system ---------------------------------------------------------------------------

  /** A lock is marked locked exactly when one guard of one core stands for it. */
  ghost predicate OwnersOk(s: Sys) {
    && |s.locked| == |s.owner| == |s.rank|
    && (forall l :: 0 <= l < |s.rank| ==>
          (s.locked[l] <==> s.owner[l].Some?) && (s.owner[l].Some? ==> StandsFor(s.cores, s.owner[l].value, l)))
    && (forall c, i :: 0 <= c < |s.cores| && 0 <= i < |s.cores[c].guards| ==>
          s.cores[c].guards[i].lock < |s.rank| && s.owner[s.cores[c].guards[i].lock] == Some(Place(c, i)))
  }

  predicate StandsFor(cores: seq<Core>, p: Place, l: nat) {
    p.core < |cores| && p.pos < |cores[p.core].guards| && cores[p.core].guards[p.pos].lock == l
  }

  ghost predicate CoresOk(rank: seq<nat>, cores: seq<Core>) { forall c :: 0 <= c < |cores| ==> CoreOk(rank, cores[c]) }

  ghost predicate Inv(s: Sys) { OwnersOk(s) && CoresOk(s.rank, s.cores) }

  lemma CoreReplaced(rank: seq<nat>, cores: seq<Core>, c: nat, p: Core)
    requires CoresOk(rank, cores) && c < |cores| && CoreOk(rank, p)
    ensures CoresOk(rank, cores[c := p])
  {
  }

  datatype Event = Begin(c: nat, l: nat) | Take(c: nat) | Drop(c: nat) | SetIrq(c: nat, on: bool)

  /** `Begin` also needs the rank check to pass: `lock` panics otherwise. */
  predicate Enabled(s: Sys, e: Event) {
    match e
    case Begin(c, l) =>
      && c < |s.cores| && l < |s.rank| && s.cores[c].spin == None
      && (s.cores[c].guards != [] ==> RankOf(s.rank, s.cores[c].guards[|s.cores[c].guards| - 1].lock) != 0)
      && !Panics(s, c, l)
    case Take(c) =>
      && c < |s.cores| && s.cores[c].spin.Some?
      && s.cores[c].spin.value.lock < |s.locked| && !s.locked[s.cores[c].spin.value.lock]
    case Drop(c) => c < |s.cores| && s.cores[c].spin == None && s.cores[c].guards != []
    case SetIrq(c, on) => c < |s.cores| && s.cores[c].spin == None && s.cores[c].guards == []
  }

  /** The lock-order check. */
  predicate Panics(s: Sys, c: nat, l: nat)
    requires c < |s.cores| && l < |s.rank|
  {
    s.rank[l] != 0 && s.rank[l] <= s.cores[c].held
  }

  /** `lock` up to the spin loop. */
  function Begun(rank: seq<nat>, c: Core, l: nat): (r: Core)
    requires l < |rank|
  {
    if rank[l] != 0 then Core(false, rank[l], c.guards, Some(Guard(l, c.irq, c.held)), c.base)
    else Core(false, c.held, c.guards, Some(Guard(l, c.irq, 0)), c.base)
  }

  function Taken(c: Core): (r: Core)
    requires c.spin.Some?
  {
    Core(c.irq, c.held, c.guards + [c.spin.value], None, c.base)
  }

  /** `drop` of the newest guard. */
  function Dropped(rank: seq<nat>, c: Core): (r: Core)
    requires c.guards != []
  {
    var g := c.guards[|c.guards| - 1];
    Core(c.irq || g.irqWas, if RankOf(rank, g.lock) != 0 then g.saved else c.held,
         c.guards[..|c.guards| - 1], c.spin, c.base)
  }

  function Apply(s: Sys, e: Event): (r: Sys)
    requires Enabled(s, e) && |s.locked| == |s.owner| == |s.rank|
  {
    match e
    case Begin(c, l) => Sys(s.rank, s.locked, s.owner, s.cores[c := Begun(s.rank, s.cores[c], l)])
    case Take(c) =>
      var l := s.cores[c].spin.value.lock;
      Sys(s.rank, s.locked[l := true], s.owner[l := Some(Place(c, |s.cores[c].guards|))],
          s.cores[c := Taken(s.cores[c])])
    case Drop(c) =>
      var l := s.cores[c].guards[|s.cores[c].guards| - 1].lock;
      if l < |s.rank|
      then Sys(s.rank, s.locked[l := false], s.owner[l := None], s.cores[c := Dropped(s.rank, s.cores[c])])
      else s
    case SetIrq(c, on) =>
      Sys(s.rank, s.locked, s.owner, s.cores[c := Core(on, s.cores[c].held, [], None, on)])
  }

  lemma BegunOk(rank: seq<nat>, c: Core, l: nat)
    requires CoreOk(rank, c) && l < |rank| && c.spin == None && (rank[l] == 0 || rank[l] > c.held)
    requires c.guards != [] ==> RankOf(rank, c.guards[|c.guards| - 1].lock) != 0
    ensures CoreOk(rank, Begun(rank, c, l))
  {
  }

  lemma TakenOk(rank: seq<nat>, c: Core)
    requires CoreOk(rank, c) && c.spin.Some?
    ensures CoreOk(rank, Taken(c))
  {
    var g, gs := c.spin.value, c.guards;
    StackPush(rank, gs, g);
    assert Taken(c).guards == gs + [g];
    IrqPush(gs, g, c.base);
  }

  /** Of a stack of guards only the oldest may have found interrupts on. */
  ghost predicate IrqsOk(gs: seq<Guard>, base: bool) {
    forall i :: 0 <= i < |gs| ==> gs[i].irqWas == (i == 0 && base)
  }

  lemma IrqPush(gs: seq<Guard>, g: Guard, base: bool)
    requires IrqsOk(gs, base) && g.irqWas == (gs == [] && base)
    ensures IrqsOk(gs + [g], base)
  {
  }

  lemma DroppedOk(rank: seq<nat>, c: Core)
    requires CoreOk(rank, c) && c.spin == None && c.guards != []
    ensures CoreOk(rank, Dropped(rank, c))
  {
  }

  lemma TakeOwners(s: Sys, c: nat)
    requires OwnersOk(s) && Enabled(s, Take(c))
    ensures OwnersOk(Apply(s, Take(c)))
  {
  }

  lemma DropOwners(s: Sys, c: nat)
    requires OwnersOk(s) && Enabled(s, Drop(c))
    ensures OwnersOk(Apply(s, Drop(c)))
  {
  }

  lemma BeginOwners(s: Sys, c: nat, p: Core)
    requires OwnersOk(s) && c < |s.cores| && p.guards == s.cores[c].guards
    ensures OwnersOk(Sys(s.rank, s.locked, s.owner, s.cores[c := p]))
  {
  }

  lemma BeginInv(s: Sys, c: nat, l: nat)
    requires Inv(s) && Enabled(s, Begin(c, l))
    ensures Inv(Apply(s, Begin(c, l)))
  {
    var p := Begun(s.rank, s.cores[c], l);
    BegunOk(s.rank, s.cores[c], l);
    CoreReplaced(s.rank, s.cores, c, p);
    BeginOwners(s, c, p);
  }

  lemma TakeInv(s: Sys, c: nat)
    requires Inv(s) && Enabled(s, Take(c))
    ensures Inv(Apply(s, Take(c)))
  {
    TakenOk(s.rank, s.cores[c]);
    CoreReplaced(s.rank, s.cores, c, Taken(s.cores[c]));
    TakeOwners(s, c);
  }

  lemma DropInv(s: Sys, c: nat)
    requires Inv(s) && Enabled(s, Drop(c))
    ensures Inv(Apply(s, Drop(c)))
  {
    DroppedOk(s.rank, s.cores[c]);
    CoreReplaced(s.rank, s.cores, c, Dropped(s.rank, s.cores[c]));
    DropOwners(s, c);
  }

  lemma SetIrqInv(s: Sys, c: nat, on: bool)
    requires Inv(s) && Enabled(s, SetIrq(c, on))
    ensures Inv(Apply(s, SetIrq(c, on)))
  {
  }

  /** Every step keeps mutual exclusion and the rank bookkeeping. */
  lemma StepInv(s: Sys, e: Event)
    requires Inv(s) && Enabled(s, e)
    ensures Inv(Apply(s, e)) && Apply(s, e).rank == s.rank
  {
    match e
    case Begin(c, l) => BeginInv(s, c, l);
    case Take(c) => TakeInv(s, c);
    case Drop(c) => DropInv(s, c);
    case SetIrq(c, on) => SetIrqInv(s, c, on);
  }

  // --- whole runs ---------------------------------------------------------------------------------------

  ghost predicate IsRun(ss: seq<Sys>, es: seq<Event>) {
    && |ss| == |es| + 1 && Inv(ss[0])
    && forall k :: 0 <= k < |es| ==>
         && Enabled(ss[k], es[k]) && |ss[k].locked| == |ss[k].owner| == |ss[k].rank|
         && ss[k + 1] == Apply(ss[k], es[k])
  }

  lemma {:induction false} RunInv(ss: seq<Sys>, es: seq<Event>, k: nat)
    requires IsRun(ss, es) && k <= |es|
    ensures Inv(ss[k])
  {
    if k > 0 {
      RunInv(ss, es, k - 1);
      StepInv(ss[k - 1], es[k - 1]);
    }
  }

  /** All cores idle with every lock free is a start. */
  lemma StartInv(rank: seq<nat>, irqs: seq<bool>)
    ensures Inv(Sys(rank, seq(|rank|, _ => false), seq(|rank|, _ => None),
                    seq(|irqs|, c requires 0 <= c < |irqs| => Core(irqs[c], 0, [], None, irqs[c]))))
  {
  }

  /** Mutual exclusion: two guards for one lock are the same guard. */
  lemma MutualExclusion(ss: seq<Sys>, es: seq<Event>, k: nat, p: Place, q: Place, l: nat)
    requires IsRun(ss, es) && k <= |es| && StandsFor(ss[k].cores, p, l) && StandsFor(ss[k].cores, q, l)
    ensures p == q && l < |ss[k].locked| && ss[k].locked[l]
  {
    RunInv(ss, es, k);
    var s := ss[k];
    assert s.owner[s.cores[p.core].guards[p.pos].lock] == Some(p);
    assert s.owner[s.cores[q.core].guards[q.pos].lock] == Some(q);
  }

  /** The rank check panics exactly when the core holds a lock of the same or a higher rank. */
  lemma PanicsIffOutOfOrder(ss: seq<Sys>, es: seq<Event>, k: nat, c: nat, l: nat)
    requires IsRun(ss, es) && k <= |es| && c < |ss[k].cores| && ss[k].cores[c].spin == None && l < |ss[k].rank|
             && ss[k].rank[l] != 0
    ensures var s := ss[k];
            Panics(s, c, l) <==>
            exists i :: 0 <= i < |s.cores[c].guards| && RankOf(s.rank, s.cores[c].guards[i].lock) >= s.rank[l]
  {
    RunInv(ss, es, k);
    var s := ss[k];
    assert CoreOk(s.rank, s.cores[c]);
    TopRankIsMax(s.rank, s.cores[c].guards);
    if Panics(s, c, l) {
      var i := TopRankAttained(s.rank, s.cores[c].guards);
      assert RankOf(s.rank, s.cores[c].guards[i].lock) >= s.rank[l];
    }
  }

  /** With no guard left and no acquisition under way, the interrupt flag is what it was before the
      first acquisition; with any, interrupts are off. */
  lemma IrqRestored(ss: seq<Sys>, es: seq<Event>, k: nat, c: nat)
    requires IsRun(ss, es) && k <= |es| && c < |ss[k].cores|
    ensures var p := ss[k].cores[c];
            p.irq == (p.guards == [] && p.spin == None && p.base)
  {
    RunInv(ss, es, k);
    assert CoreOk(ss[k].rank, ss[k].cores[c]);
  }

  /** A core that can move: it takes its lock, or holds something and is not spinning. */
  predicate CanMove(s: Sys, c: nat) { Enabled(s, Take(c)) || Enabled(s, Drop(c)) }

  /** The owner of a lock that a core spins on. */
  lemma OwnerOf(s: Sys, c: nat) returns (d: nat)
    requires Inv(s) && c < |s.cores| && s.cores[c].spin.Some? && !Enabled(s, Take(c))
    ensures d < |s.cores| && (CanMove(s, d) ||
              (s.cores[d].spin.Some? && RankOf(s.rank, s.cores[c].spin.value.lock) != 0
               && TopRank(s.rank, s.cores[d].guards) >= RankOf(s.rank, s.cores[c].spin.value.lock)))
  {
    var l := s.cores[c].spin.value.lock;
    assert CoreOk(s.rank, s.cores[c]);
    var p := s.owner[l].value;
    d := p.core;
    assert StandsFor(s.cores, p, l);
    assert CoreOk(s.rank, s.cores[d]);
    HolderRank(s.rank, s.cores[d].guards, p.pos);
  }

  /** No guard is above the top rank, and none is a leaf when the newest is not. */
  lemma HolderRank(rank: seq<nat>, gs: seq<Guard>, i: nat)
    requires StackOk(rank, gs) && i < |gs|
    ensures gs[i].lock < |rank| && rank[gs[i].lock] <= TopRank(rank, gs)
    ensures RankOf(rank, gs[|gs| - 1].lock) != 0 ==> rank[gs[i].lock] != 0
  {
    TopRankIsMax(rank, gs);
  }

  /** Freedom from deadlock: whenever some core spins, some core can take its lock or release one.
      Along the chain of owners the ranks strictly increase. */
  lemma {:induction false} SomeCoreMoves(s: Sys, c: nat, top: nat) returns (m: nat)
    requires Inv(s) && c < |s.cores| && s.cores[c].spin.Some?
    requires forall l :: 0 <= l < |s.rank| ==> s.rank[l] <= top
    ensures m < |s.cores| && CanMove(s, m)
    decreases top + 1 - RankOf(s.rank, s.cores[c].spin.value.lock),
              if RankOf(s.rank, s.cores[c].spin.value.lock) == 0 then 1 else 0
  {
    if Enabled(s, Take(c)) {
      return c;
    }
    var d := OwnerOf(s, c);
    if CanMove(s, d) {
      return d;
    }
    assert CoreOk(s.rank, s.cores[c]) && CoreOk(s.rank, s.cores[d]);
    var r := RankOf(s.rank, s.cores[d].spin.value.lock);
    if r == 0 {
      // A leaf is held by a core that is not spinning.
      m := OwnerOf(s, d);
    } else {
      m := SomeCoreMoves(s, d, top);
    }
  }

  // --- guards dropped out of order -----------------------------------------------------------------------

  /** Reverse order is needed. When ranked guard `i` is dropped, HELD_RANK becomes the rank it saved;
      that is the highest rank still held if and only if no newer guard is ranked. */
  lemma DropOrderMatters(rank: seq<nat>, gs: seq<Guard>, i: nat)
    requires StackOk(rank, gs) && i < |gs| && RankOf(rank, gs[i].lock) != 0
    ensures gs[i].saved == TopRank(rank, gs[..i] + gs[i + 1..])
            <==> forall j :: i < j < |gs| ==> RankOf(rank, gs[j].lock) == 0
  {
    if j :| i < j < |gs| && RankOf(rank, gs[j].lock) != 0 {
      DropOlder(rank, gs, i, j);
    } else {
      TopRankLeaves(rank, gs[..i], gs[i + 1..]);
    }
  }

  /** The interrupt flag after dropping guard `i` out of any order. */
  predicate IrqAfter(c: Core, i: nat)
    requires i < |c.guards|
  {
    c.irq || c.guards[i].irqWas
  }

  /** The flag is restored by the guard that found interrupts on, which is the oldest. Interrupts stay off
      while a guard is left if and only if the guard dropped is not the oldest one or interrupts were off
      before it. */
  lemma DropIrqMatters(rank: seq<nat>, c: Core, i: nat)
    requires CoreOk(rank, c) && c.spin == None && i < |c.guards| && |c.guards| > 1
    ensures !IrqAfter(c, i) <==> i > 0 || !c.base
  {
    assert c.guards[i].irqWas == (i == 0 && c.base);
  }

  /** Locks of ranks 1 and 2 taken in order with interrupts on: dropping the first sets HELD_RANK to 0 and
      turns interrupts on while the lock of rank 2 is held. */
  lemma DropOrderExample()
    ensures var rank, gs := [1, 2], [Guard(0, true, 0), Guard(1, false, 1)];
            var c := Core(false, 2, gs, None, true);
            && CoreOk(rank, c) && gs[0].saved == 0 && TopRank(rank, gs[..0] + gs[1..]) == 2 && IrqAfter(c, 0)
  {
  }

  lemma DropOlder(rank: seq<nat>, gs: seq<Guard>, i: nat, j: nat)
    requires StackOk(rank, gs) && i < j < |gs| && RankOf(rank, gs[j].lock) != 0
    ensures gs[i].saved < TopRank(rank, gs[..i] + gs[i + 1..])
  {
    var left := gs[..i] + gs[i + 1..];
    assert left[j - 1] == gs[j];
    var k := TopRankAbove(rank, left, j - 1);
    assert left[k] == gs[k + 1];
    RanksIncrease(rank, gs, i, k + 1);
  }

  /** Leaves on top do not change the top rank. */
  lemma {:induction false} TopRankLeaves(rank: seq<nat>, gs: seq<Guard>, leaves: seq<Guard>)
    requires forall j :: 0 <= j < |leaves| ==> RankOf(rank, leaves[j].lock) == 0
    ensures TopRank(rank, gs + leaves) == TopRank(rank, gs)
    decreases |leaves|
  {
    if leaves == [] {
      assert gs + leaves == gs;
    } else {
      var n := |leaves| - 1;
      TopRankLeaves(rank, gs, leaves[..n]);
      assert (gs + leaves)[..|gs| + n] == gs + leaves[..n];
    }
  }

  /** The newest ranked guard gives the top rank. */
  lemma {:induction false} TopRankAbove(rank: seq<nat>, gs: seq<Guard>, j: nat) returns (k: nat)
    requires j < |gs| && RankOf(rank, gs[j].lock) != 0
    ensures j <= k < |gs| && TopRank(rank, gs) == RankOf(rank, gs[k].lock) != 0
    decreases |gs|
  {
    k := |gs| - 1;
    if RankOf(rank, gs[k].lock) == 0 {
      k := TopRankAbove(rank, gs[..k], j);
    }
  }

  lemma RanksIncrease(rank: seq<nat>, gs: seq<Guard>, i: nat, j: nat)
    requires StackOk(rank, gs) && i < j < |gs| && rank[gs[j].lock] != 0
    ensures gs[i].saved < rank[gs[i].lock] < rank[gs[j].lock]
  {
    StackPrefix(rank, gs, j);
    TopRankIsMax(rank, gs[..j]);
    assert gs[..j][i] == gs[i];
  }

  lemma {:induction false} StackPrefix(rank: seq<nat>, gs: seq<Guard>, n: nat)
    requires StackOk(rank, gs) && n <= |gs|
    ensures StackOk(rank, gs[..n])
    decreases |gs| - n
  {
  }
}
