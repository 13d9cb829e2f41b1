/** Per-process descriptor tables and pipe reference counts (kernel/src/vfs.rs, the pool of
    kernel/src/pipe.rs and frame/pipe.frs).

    The tables of all processes lie one after the other. `owed` is the multiset of references that
    a pipe counts without a descriptor: empty while nothing is half done, except for what `dup`
    leaks. `gen` numbers the allocations of a pool slot, so that a stale descriptor would show. */
module Vfs {
  import opened Wrappers

  const MAX_OPEN := 32
  const MAX_PROCS := 8
  const MAX_PIPES := 8

  datatype Slot = Closed | ConsoleIn | ConsoleOut | File(inode: nat, offset: nat, writable: bool)
                | PipeEnd(id: nat, write: bool, gen: nat)

  /** A pool slot: free, or its two counts and the $Writable/$Drained mode. */
  datatype PipeState = Free | Live(readers: int, writers: int, writable: bool, gen: nat)

  type Owed = multiset<(nat, bool)>

  // --- counting -------------------------------------------------------------------------------

  predicate RefersTo(s: Slot, id: nat, write: bool) { s.PipeEnd? && s.id == id && s.write == write }

  function Refs(s: seq<Slot>, id: nat, write: bool): (r: nat) {
    if s == [] then 0 else (if RefersTo(s[|s| - 1], id, write) then 1 else 0) + Refs(s[..|s| - 1], id, write)
  }

  lemma {:induction false} RefsUpdate(s: seq<Slot>, i: nat, x: Slot, id: nat, write: bool)
    requires i < |s|
    ensures Refs(s[i := x], id, write) ==
            Refs(s, id, write) - (if RefersTo(s[i], id, write) then 1 else 0)
            + (if RefersTo(x, id, write) then 1 else 0)
  {
    var n := |s| - 1;
    if i == n {
      assert s[i := x][..n] == s[..n];
    } else {
      assert s[i := x][..n] == s[..n][i := x];
      RefsUpdate(s[..n], i, x, id, write);
    }
  }

  lemma {:induction false} RefsNone(s: seq<Slot>, id: nat, write: bool)
    requires forall i :: 0 <= i < |s| ==> !RefersTo(s[i], id, write)
    ensures Refs(s, id, write) == 0
  {
    if s != [] {
      RefsNone(s[..|s| - 1], id, write);
    }
  }

  /** The reference a descriptor stands for. */
  function RefOf(x: Slot): (r: Owed) { if x.PipeEnd? then multiset{(x.id, x.write)} else multiset{} }

  // --- the invariant ------------------------------------------------------------------------------

  /** Descriptors name live pipes of their own generation. */
  ghost predicate NamesLive(x: Slot, pool: seq<PipeState>) {
    x.PipeEnd? ==> x.id < |pool| && pool[x.id].Live? && pool[x.id].gen == x.gen
  }

  /** The counts of pipe `id` are its descriptors plus what is owed; it is live as long as any count is
      left, and writable as long as a writer is. */
  ghost predicate PipeOk(s: seq<Slot>, p: PipeState, owed: Owed, id: nat) {
    match p
    case Free => owed[(id, false)] == 0 && owed[(id, true)] == 0
    case Live(readers, writers, writable, _) =>
      && readers == Refs(s, id, false) + owed[(id, false)]
      && writers == Refs(s, id, true) + owed[(id, true)]
      && readers + writers > 0 && (writable <==> writers > 0)
  }

  ghost predicate InPool(owed: Owed) { forall r :: r in owed ==> r.0 < MAX_PIPES }

  ghost predicate Balanced(s: seq<Slot>, pool: seq<PipeState>, owed: Owed) {
    && |pool| == MAX_PIPES && InPool(owed)
    && (forall i :: 0 <= i < |s| ==> NamesLive(s[i], pool))
    && (forall id :: 0 <= id < MAX_PIPES ==> PipeOk(s, pool[id], owed, id))
  }

  /** Writing one descriptor exchanges the reference it brings for the one it replaces. */
  lemma Swap(s: seq<Slot>, pool: seq<PipeState>, owed: Owed, i: nat, x: Slot)
    requires Balanced(s, pool, owed + RefOf(x)) && i < |s| && NamesLive(x, pool)
    ensures Balanced(s[i := x], pool, owed + RefOf(s[i]))
  {
    forall id | 0 <= id < MAX_PIPES ensures PipeOk(s[i := x], pool[id], owed + RefOf(s[i]), id) {
      assert PipeOk(s, pool[id], owed + RefOf(x), id);
      RefsUpdate(s, i, x, id, false);
      RefsUpdate(s, i, x, id, true);
      assert NamesLive(s[i], pool);
    }
  }

  /** `inc_reader`, `inc_writer` */
  function Inc(p: PipeState, write: bool): (r: PipeState) {
    match p
    case Free => Free
    case Live(readers, writers, writable, gen) =>
      if write then Live(readers, writers + 1, true, gen) else Live(readers + 1, writers, writable, gen)
  }

  /** `dec_reader`, `dec_writer` with `free_if_idle`; a writer closing in $Drained is ignored. */
  function Dec(p: PipeState, write: bool): (r: PipeState) {
    match p
    case Free => Free
    case Live(readers, writers, writable, gen) =>
      var q := if !write then Live(readers - 1, writers, writable, gen)
               else if writable then Live(readers, writers - 1, writers - 1 > 0, gen) else p;
      if q.readers <= 0 && q.writers <= 0 then Free else q
  }

  lemma IncOk(s: seq<Slot>, pool: seq<PipeState>, owed: Owed, id: nat, write: bool)
    requires Balanced(s, pool, owed) && id < MAX_PIPES && pool[id].Live?
    ensures Balanced(s, pool[id := Inc(pool[id], write)], owed + multiset{(id, write)})
  {
  }

  /** A pipe is freed only when no descriptor names it. */
  lemma DecOk(s: seq<Slot>, pool: seq<PipeState>, owed: Owed, id: nat, write: bool)
    requires Balanced(s, pool, owed + multiset{(id, write)}) && id < MAX_PIPES
    ensures pool[id].Live? && Balanced(s, pool[id := Dec(pool[id], write)], owed)
  {
    var pool' := pool[id := Dec(pool[id], write)];
    assert PipeOk(s, pool[id], owed + multiset{(id, write)}, id);
    forall k | 0 <= k < MAX_PIPES ensures PipeOk(s, pool'[k], owed, k) {
      assert PipeOk(s, pool[k], owed + multiset{(id, write)}, k);
    }
    forall i | 0 <= i < |s| ensures NamesLive(s[i], pool') {
      assert NamesLive(s[i], pool);
      if s[i].PipeEnd? && s[i].id == id {
        RefsPositive(s, i);
      }
    }
  }

  lemma {:induction false} RefsPositive(s: seq<Slot>, i: nat)
    requires i < |s| && s[i].PipeEnd?
    ensures Refs(s, s[i].id, s[i].write) > 0
  {
    if i < |s| - 1 {
      RefsPositive(s[..|s| - 1], i);
    }
  }

  /** A new pipe starts with one reader and one writer, for the two descriptors to come. */
  lemma AllocOk(s: seq<Slot>, pool: seq<PipeState>, owed: Owed, id: nat, gen: nat)
    requires Balanced(s, pool, owed) && id < MAX_PIPES && pool[id] == Free
    ensures Balanced(s, pool[id := Live(1, 1, true, gen)], owed + multiset{(id, true)} + multiset{(id, false)})
  {
    var pool' := pool[id := Live(1, 1, true, gen)];
    var owed' := owed + multiset{(id, true)} + multiset{(id, false)};
    forall i | 0 <= i < |s| ensures NamesLive(s[i], pool') && !RefersTo(s[i], id, true) && !RefersTo(s[i], id, false) {
      assert NamesLive(s[i], pool);
    }
    RefsNone(s, id, false);
    RefsNone(s, id, true);
    forall k | 0 <= k < MAX_PIPES ensures PipeOk(s, pool'[k], owed', k) {
      assert PipeOk(s, pool[k], owed, k);
    }
  }

  // --- the operations ----------------------------------------------------------------------------

  function At(p: nat, fd: nat): (i: nat)
    requires p < MAX_PROCS && fd < MAX_OPEN
    ensures i < MAX_PROCS * MAX_OPEN
  {
    p * MAX_OPEN + fd
  }

  class Descriptors {
    const fds: array<Slot>
    const pool: array<PipeState>
    var gens: nat
    ghost var owed: Owed

    ghost predicate Shaped()
      reads this
    {
      fds.Length == MAX_PROCS * MAX_OPEN && pool.Length == MAX_PIPES
    }

    ghost predicate Valid()
      reads this, fds, pool
    {
      Shaped() && Balanced(fds[..], pool[..], owed)
    }

    constructor ()
      ensures Valid() && owed == multiset{} && fresh(fds) && fresh(pool)
      ensures forall i :: 0 <= i < fds.Length ==> fds[i] == Closed
      ensures forall id :: 0 <= id < MAX_PIPES ==> pool[id] == Free
    {
      fds := new Slot[MAX_PROCS * MAX_OPEN](_ => Closed);
      pool := new PipeState[MAX_PIPES](_ => Free);
      gens, owed := 0, multiset{};
    }

    /** `pipe::alloc` */
    method AllocPipe() returns (r: Option<nat>)
      requires Valid()
      modifies this`owed, this`gens, pool
      ensures Valid()
      ensures r.None? ==> owed == old(owed) && pool[..] == old(pool[..])
      ensures r.None? ==> forall id :: 0 <= id < MAX_PIPES ==> pool[id].Live?
      ensures r.Some? ==> r.value < MAX_PIPES && old(pool[r.value]) == Free
                          && (forall k :: 0 <= k < r.value ==> old(pool[k]).Live?)
                          && pool[..] == old(pool[..])[r.value := Live(1, 1, true, old(gens))]
                          && owed == old(owed) + multiset{(r.value, true)} + multiset{(r.value, false)}
    {
      for id := 0 to MAX_PIPES
        invariant Valid() && owed == old(owed) && pool[..] == old(pool[..])
        invariant forall k :: 0 <= k < id ==> pool[k].Live?
      {
        if pool[id] == Free {
          AllocOk(fds[..], pool[..], owed, id, gens);
          pool[id] := Live(1, 1, true, gens);
          gens := gens + 1;
          owed := owed + multiset{(id, true)} + multiset{(id, false)};
          return Some(id);
        }
      }
      return None;
    }

    /** `clone_slot`: a copy of the descriptor; a pipe end is counted once more. */
    method CloneSlot(x: Slot) returns (y: Slot)
      requires Valid() && NamesLive(x, pool[..])
      modifies this`owed, pool
      ensures Valid() && y == x && NamesLive(y, pool[..]) && owed == old(owed) + RefOf(x)
    {
      y := x;
      if x.PipeEnd? {
        IncOk(fds[..], pool[..], owed, x.id, x.write);
        pool[x.id] := Inc(pool[x.id], x.write);
        owed := owed + multiset{(x.id, x.write)};
      }
    }

    /** `dec_reader` and `dec_writer`, for a reference that `s` no longer holds. */
    method DropRef(ghost s: seq<Slot>, id: nat, write: bool)
      requires Shaped() && Balanced(s, pool[..], owed + multiset{(id, write)}) && id < MAX_PIPES
      modifies pool
      ensures Shaped() && Balanced(s, pool[..], owed)
    {
      DecOk(s, pool[..], owed, id, write);
      pool[id] := Dec(pool[id], write);
    }

    /** `close` of one descriptor. */
    method CloseAt(i: nat)
      requires Valid() && i < fds.Length
      modifies fds, pool
      ensures Valid() && fds[..] == old(fds[..])[i := Closed]
    {
      ghost var s := fds[..][i := Closed];
      assert owed + RefOf(Closed) == owed;
      Swap(fds[..], pool[..], owed, i, Closed);
      var x := fds[i];
      if x.PipeEnd? {
        assert NamesLive(fds[..][i], pool[..]);
        DropRef(s, x.id, x.write);
      } else {
        assert owed + RefOf(x) == owed;
      }
      fds[i] := Closed;
      assert fds[..] == s;
    }

    method Close(p: nat, fd: nat)
      requires Valid() && p < MAX_PROCS
      modifies fds, pool
      ensures Valid() && fds[..] == if fd < MAX_OPEN then old(fds[..])[At(p, fd) := Closed] else old(fds[..])
    {
      if fd < MAX_OPEN {
        CloseAt(At(p, fd));
      }
    }

    /** The scan for the lowest closed descriptor from `from` on. */
    method FindClosed(p: nat, from: nat) returns (fd: nat)
      requires Shaped() && p < MAX_PROCS && from <= MAX_OPEN
      ensures from <= fd <= MAX_OPEN && (fd < MAX_OPEN ==> fds[At(p, fd)] == Closed)
      ensures forall k :: from <= k < fd ==> fds[At(p, k)] != Closed
    {
      fd := from;
      while fd < MAX_OPEN && fds[At(p, fd)] != Closed
        invariant from <= fd <= MAX_OPEN
        invariant forall k :: from <= k < fd ==> fds[At(p, k)] != Closed
      {
        fd := fd + 1;
      }
    }

    /** Puts an owed reference into a closed descriptor. */
    method Install(i: nat, x: Slot, ghost rest: Owed)
      requires Valid() && i < fds.Length && fds[i] == Closed && NamesLive(x, pool[..]) && owed == rest + RefOf(x)
      modifies this`owed, fds
      ensures Valid() && owed == rest && fds[..] == old(fds[..])[i := x]
    {
      Swap(fds[..], pool[..], rest, i, x);
      assert rest + RefOf(Closed) == rest;
      fds[i] := x;
      owed := rest;
      assert fds[..] == old(fds[..])[i := x];
    }

    /** `dup`: the lowest closed descriptor becomes a copy. The copy is made before the search, so when
        no descriptor is closed a pipe end stays counted once too often, and only then. */
    method Dup(p: nat, fd: nat) returns (r: Option<nat>)
      requires Valid() && p < MAX_PROCS
      modifies this`owed, fds, pool
      ensures Valid()
      ensures r.Some? <==> fd < MAX_OPEN && old(fds[At(p, fd)]) != Closed
                           && exists k :: 0 <= k < MAX_OPEN && old(fds[At(p, k)]) == Closed
      ensures r.Some? ==> r.value < MAX_OPEN && owed == old(owed)
      ensures r.Some? ==> fds[..] == old(fds[..])[At(p, r.value) := old(fds[At(p, fd)])]
      ensures r.Some? ==> old(fds[At(p, r.value)]) == Closed
      ensures r.Some? ==> forall k :: 0 <= k < r.value ==> old(fds[At(p, k)]) != Closed
      ensures r.None? ==> fds[..] == old(fds[..])
                          && owed == old(owed) + if fd < MAX_OPEN then RefOf(old(fds[At(p, fd)])) else multiset{}
    {
      r := None;
      if fd < MAX_OPEN && fds[At(p, fd)] != Closed {
        ghost var before := owed;
        assert NamesLive(fds[..][At(p, fd)], pool[..]);
        var copy := CloneSlot(fds[At(p, fd)]);
        var nfd := FindClosed(p, 0);
        if nfd < MAX_OPEN {
          Install(At(p, nfd), copy, before);
          r := Some(nfd);
        }
      } else {
        assert owed + multiset{} == owed;
      }
    }

    /** `dup2`: the copy is counted before the old target is closed, so that a pipe is not freed in
        between. */
    method Dup2(p: nat, oldfd: nat, newfd: nat) returns (r: Option<nat>)
      requires Valid() && p < MAX_PROCS
      modifies this`owed, fds, pool
      ensures Valid() && owed == old(owed)
      ensures r == if oldfd < MAX_OPEN && newfd < MAX_OPEN && old(fds[At(p, oldfd)]) != Closed then Some(newfd)
              else None
      ensures fds[..] == if r.Some? then old(fds[..])[At(p, newfd) := old(fds[At(p, oldfd)])] else old(fds[..])
    {
      r := None;
      if newfd < MAX_OPEN && oldfd < MAX_OPEN && fds[At(p, oldfd)] != Closed {
        r := Some(newfd);
        if oldfd != newfd {
          ghost var before := owed;
          assert NamesLive(fds[..][At(p, oldfd)], pool[..]);
          var copy := CloneSlot(fds[At(p, oldfd)]);
          Close(p, newfd);
          StillLive(fds[..], pool[..], before, copy);
          Install(At(p, newfd), copy, before);
        }
      }
    }

    /** `open_read` and `open_write`: a file in the lowest closed descriptor. */
    method OpenFile(p: nat, inode: nat, offset: nat, writable: bool) returns (r: Option<nat>)
      requires Valid() && p < MAX_PROCS
      modifies this`owed, fds
      ensures Valid() && owed == old(owed)
      ensures r.Some? <==> exists k :: 0 <= k < MAX_OPEN && old(fds[At(p, k)]) == Closed
      ensures r.Some? ==> r.value < MAX_OPEN && old(fds[At(p, r.value)]) == Closed
                          && forall k :: 0 <= k < r.value ==> old(fds[At(p, k)]) != Closed
      ensures fds[..] == if r.Some? then old(fds[..])[At(p, r.value) := File(inode, offset, writable)] else old(fds[..])
    {
      r := None;
      var fd := FindClosed(p, 0);
      if fd < MAX_OPEN {
        assert owed + multiset{} == owed;
        Install(At(p, fd), File(inode, offset, writable), owed);
        r := Some(fd);
      }
    }

    /** `make_pipe`: both ends in the two lowest closed descriptors, or everything undone. */
    method MakePipe(p: nat) returns (r: Option<(nat, nat)>)
      requires Valid() && p < MAX_PROCS
      modifies this`owed, this`gens, fds, pool
      ensures Valid() && owed == old(owed)
      ensures r.None? ==> fds[..] == old(fds[..])
      ensures r.None? ==> (forall id :: 0 <= id < MAX_PIPES ==> old(pool[id]).Live?)
                          || (forall j, k :: 0 <= j < k < MAX_OPEN ==>
                                old(fds[At(p, j)]) != Closed || old(fds[At(p, k)]) != Closed)
      ensures r.Some? ==> var (rd, wr) := r.value;
                && rd < wr < MAX_OPEN && old(fds[At(p, rd)]) == Closed == old(fds[At(p, wr)])
                && (forall k :: 0 <= k < wr && k != rd ==> old(fds[At(p, k)]) != Closed)
                && fds[At(p, rd)].PipeEnd? && !fds[At(p, rd)].write
                && fds[At(p, wr)] == PipeEnd(fds[At(p, rd)].id, true, fds[At(p, rd)].gen)
                && fds[At(p, rd)].id < MAX_PIPES && old(pool[..])[fds[At(p, rd)].id] == Free
                && (forall i :: 0 <= i < fds.Length && i != At(p, rd) && i != At(p, wr) ==> fds[i] == old(fds[i]))
    {
      r := None;
      ghost var o := owed;
      var got := AllocPipe();
      if got.Some? {
        var id, gen := got.value, pool[got.value].gen;
        var rd, wr := PlaceEnds(p, id, gen, o);
        if wr < MAX_OPEN {
          r := Some((rd, wr));
        } else {
          Undo(p, rd, id, gen, o);
        }
      }
    }

    /** The two ends of pipe `id` in the two lowest closed descriptors, as far as there are any. */
    method PlaceEnds(p: nat, id: nat, gen: nat, ghost o: Owed) returns (rd: nat, wr: nat)
      requires Valid() && p < MAX_PROCS && id < MAX_PIPES && pool[id].Live? && pool[id].gen == gen
      requires owed == o + multiset{(id, true)} + multiset{(id, false)}
      modifies this`owed, fds
      ensures Valid() && rd <= wr <= MAX_OPEN
      ensures forall k :: 0 <= k < wr && k != rd ==> old(fds[At(p, k)]) != Closed
      ensures rd < MAX_OPEN ==> rd < wr && old(fds[At(p, rd)]) == Closed
      ensures rd == MAX_OPEN ==> fds[..] == old(fds[..]) && owed == old(owed)
      ensures rd < MAX_OPEN == wr ==>
                fds[..] == old(fds[..])[At(p, rd) := PipeEnd(id, false, gen)] && owed == o + multiset{(id, true)}
      ensures wr < MAX_OPEN ==>
                && owed == o && old(fds[At(p, wr)]) == Closed
                && fds[..] == old(fds[..])[At(p, rd) := PipeEnd(id, false, gen)][At(p, wr) := PipeEnd(id, true, gen)]
    {
      rd := FindClosed(p, 0);
      wr := rd;
      if rd < MAX_OPEN {
        Install(At(p, rd), PipeEnd(id, false, gen), o + multiset{(id, true)});
        wr := FindClosed(p, rd + 1);
        if wr < MAX_OPEN {
          Install(At(p, wr), PipeEnd(id, true, gen), o);
        }
      }
    }

    /** The end of `make_pipe` when the second descriptor is missing: the installed read end, if any, is
        taken out and both references are dropped. */
    method Undo(p: nat, rd: nat, id: nat, gen: nat, ghost o: Owed)
      requires Valid() && p < MAX_PROCS && id < MAX_PIPES && rd <= MAX_OPEN
      requires rd < MAX_OPEN ==> fds[At(p, rd)] == PipeEnd(id, false, gen) && owed == o + multiset{(id, true)}
      requires rd == MAX_OPEN ==> owed == o + multiset{(id, true)} + multiset{(id, false)}
      modifies this`owed, fds, pool
      ensures Valid() && owed == o
      ensures fds[..] == if rd < MAX_OPEN then old(fds[..])[At(p, rd) := Closed] else old(fds[..])
    {
      if rd < MAX_OPEN {
        assert owed + RefOf(Closed) == owed;
        Swap(fds[..], pool[..], owed, At(p, rd), Closed);
        fds[At(p, rd)] := Closed;
        assert fds[..] == old(fds[..])[At(p, rd) := Closed];
        owed := owed + multiset{(id, false)};
      }
      owed := o + multiset{(id, true)};
      DropRef(fds[..], id, false);
      owed := o;
      DropRef(fds[..], id, true);
    }

    /** `clear_table` */
    method ClearTable(p: nat)
      requires Valid() && p < MAX_PROCS
      modifies fds, pool
      ensures Valid()
      ensures forall i :: 0 <= i < fds.Length ==>
                fds[i] == if At(p, 0) <= i < At(p, 0) + MAX_OPEN then Closed else old(fds[i])
    {
      for fd := 0 to MAX_OPEN
        invariant Valid()
        invariant forall i :: 0 <= i < fds.Length ==>
                    fds[i] == if At(p, 0) <= i < At(p, 0) + fd then Closed else old(fds[i])
      {
        CloseAt(At(p, fd));
      }
    }

    /** `init_console_fds` */
    method InitConsole(p: nat)
      requires Valid() && p < MAX_PROCS
      modifies this`owed, fds, pool
      ensures Valid() && owed == old(owed)
      ensures fds[At(p, 0)] == ConsoleIn && fds[At(p, 1)] == fds[At(p, 2)] == ConsoleOut
      ensures forall i :: 0 <= i < fds.Length && !(At(p, 0) <= i < At(p, 0) + 3) ==>
                fds[i] == if At(p, 0) <= i < At(p, 0) + MAX_OPEN then Closed else old(fds[i])
    {
      ClearTable(p);
      assert owed + multiset{} == owed;
      Install(At(p, 0), ConsoleIn, owed);
      Install(At(p, 1), ConsoleOut, owed);
      Install(At(p, 2), ConsoleOut, owed);
    }

    /** `clone_fds`: the child's table becomes a copy of the parent's, each pipe end counted again. */
    method CloneFds(dst: nat, src: nat)
      requires Valid() && dst < MAX_PROCS && src < MAX_PROCS && dst != src
      modifies this`owed, fds, pool
      ensures Valid() && owed == old(owed)
      ensures forall fd :: 0 <= fd < MAX_OPEN ==> fds[At(dst, fd)] == old(fds[At(src, fd)])
      ensures forall i :: 0 <= i < fds.Length && !(At(dst, 0) <= i < At(dst, 0) + MAX_OPEN) ==> fds[i] == old(fds[i])
    {
      ClearTable(dst);
      for fd := 0 to MAX_OPEN
        invariant Valid() && owed == old(owed)
        invariant forall k :: 0 <= k < fd ==> fds[At(dst, k)] == old(fds[At(src, k)])
        invariant forall k :: fd <= k < MAX_OPEN ==> fds[At(dst, k)] == Closed
        invariant forall i :: 0 <= i < fds.Length && !(At(dst, 0) <= i < At(dst, 0) + MAX_OPEN) ==>
                    fds[i] == old(fds[i])
      {
        ghost var before := owed;
        assert NamesLive(fds[..][At(src, fd)], pool[..]);
        var copy := CloneSlot(fds[At(src, fd)]);
        Install(At(dst, fd), copy, before);
      }
    }

    /** One call; `leaked` reports a `dup` of a pipe end that found no closed descriptor, which leaves one
        reference without a descriptor. Nothing else does. */
    method Step(op: Op) returns (leaked: bool)
      requires Valid() && InRange(op)
      modifies this`owed, this`gens, fds, pool
      ensures Valid() && (leaked <==> DupLeaks(op, old(fds[..]))) && Changes(op, old(fds[..]), fds[..])
      ensures if leaked then old(owed) < owed else owed == old(owed)
    {
      leaked := false;
      match op
      case DoOpen(p, inode, offset, writable) => OpenStep(p, inode, offset, writable);
      case DoPipe(p) => PipeStep(p);
      case DoDup(p, fd) => leaked := DupStep(p, fd);
      case DoDup2(p, oldfd, newfd) => var _ := Dup2(p, oldfd, newfd);
      case DoClose(p, fd) => Close(p, fd);
      case DoFork(dst, src) => CloneFds(dst, src);
      case DoReap(p) => ClearTable(p);
      case DoSpawn(p) => InitConsole(p);
    }

    method OpenStep(p: nat, inode: nat, offset: nat, writable: bool)
      requires Valid() && p < MAX_PROCS
      modifies this`owed, fds
      ensures Valid() && owed == old(owed) && Changes(DoOpen(p, inode, offset, writable), old(fds[..]), fds[..])
    {
      ghost var s := fds[..];
      var r := OpenFile(p, inode, offset, writable);
      assert Lowest(s, p, if r.Some? then r.value else MAX_OPEN);
    }

    method PipeStep(p: nat)
      requires Valid() && p < MAX_PROCS
      modifies this`owed, this`gens, fds, pool
      ensures Valid() && owed == old(owed) && Changes(DoPipe(p), old(fds[..]), fds[..])
    {
      ghost var s := fds[..];
      var r := MakePipe(p);
      if r.Some? {
        ghost var (rd, wr) := r.value;
        ghost var x := fds[At(p, rd)];
        assert Lowest(s, p, rd) && Lowest(s[At(p, rd) := x], p, wr);
        assert fds[..] == s[At(p, rd) := x][At(p, wr) := PipeEnd(x.id, true, x.gen)];
        assert x == PipeEnd(x.id, false, x.gen);
        assert NewPipe(p, s, fds[..], rd, wr, x.id, x.gen);
      }
    }

    method DupStep(p: nat, fd: nat) returns (leaked: bool)
      requires Valid() && p < MAX_PROCS
      modifies this`owed, fds, pool
      ensures Valid() && (leaked <==> DupLeaks(DoDup(p, fd), old(fds[..])))
              && Changes(DoDup(p, fd), old(fds[..]), fds[..])
      ensures if leaked then old(owed) < owed else owed == old(owed)
    {
      ghost var s := fds[..];
      var pipe := fd < MAX_OPEN && fds[At(p, fd)].PipeEnd?;
      var r := Dup(p, fd);
      leaked := pipe && r.None?;
      assert !pipe && r.None? ==> owed == old(owed);
      assert forall k :: 0 <= k < MAX_OPEN ==> old(fds[At(p, k)]) == s[At(p, k)];
      assert r.Some? ==> Lowest(s, p, r.value);
    }

    /** Any sequence of calls, by any processes. `tables` are the descriptor tables before each call and at
        the end: a reference without a descriptor is left if and only if some call was a `dup` of a pipe
        end that met a full table. */
    method Run(ops: seq<Op>) returns (leaked: bool, ghost tables: seq<seq<Slot>>)
      requires Valid() && forall i :: 0 <= i < |ops| ==> InRange(ops[i])
      modifies this`owed, this`gens, fds, pool
      ensures Valid() && Trace(tables, ops, |ops|) && tables[0] == old(fds[..]) && tables[|ops|] == fds[..]
      ensures leaked <==> SomeLeak(ops, tables, |ops|)
      ensures if leaked then old(owed) < owed else owed == old(owed)
    {
      leaked, tables := false, [fds[..]];
      for i := 0 to |ops|
        invariant Valid() && Trace(tables, ops, i) && tables[0] == old(fds[..]) && tables[i] == fds[..]
        invariant leaked <==> SomeLeak(ops, tables, i)
        invariant if leaked then old(owed) < owed else owed == old(owed)
      {
        var l := Step(ops[i]);
        SomeLeakNext(ops, tables, i, fds[..]);
        leaked, tables := leaked || l, tables + [fds[..]];
      }
    }

    /** A run in which every `dup` of a pipe end finds a closed descriptor keeps counts and descriptors
        equal: each live pipe counts exactly the descriptors that name its ends, and no descriptor names a
        freed or reused pool slot. */
    method RunKeepsCounts(ops: seq<Op>) returns (leaked: bool, ghost tables: seq<seq<Slot>>)
      requires Valid() && owed == multiset{} && forall i :: 0 <= i < |ops| ==> InRange(ops[i])
      modifies this`owed, this`gens, fds, pool
      ensures Valid() && Trace(tables, ops, |ops|) && tables[0] == old(fds[..]) && tables[|ops|] == fds[..]
      ensures !SomeLeak(ops, tables, |ops|) <==> Exact(fds[..], pool[..])
    {
      leaked, tables := Run(ops);
      ExactIff(fds[..], pool[..], owed);
    }
  }

  /** A run that leaks: process 0 makes a pipe, fills its table with copies of the read end, and asks for
      one more. The pipe then counts a reader that no descriptor stands for. */
  method LeakExample() returns (d: Descriptors)
    ensures d.Valid() && exists id :: d.owed == multiset{(id, false)}
  {
    d := new Descriptors();
    assert d.fds[At(0, 0)] == Closed && d.fds[At(0, 1)] == Closed && d.pool[0] == Free;
    var r := d.MakePipe(0);
    assert r.Some? && r.value == (0, 1);
    ghost var x := d.fds[0];
    for n := 2 to MAX_OPEN
      invariant d.Valid() && d.owed == multiset{} && fresh(d) && fresh(d.fds) && fresh(d.pool) && x.PipeEnd?
                && !x.write && d.fds[0] == x
      invariant forall k :: 0 <= k < MAX_OPEN ==> (d.fds[At(0, k)] == Closed <==> k >= n)
    {
      assert d.fds[At(0, n)] == Closed && d.fds[At(0, 0)] == x;
      var c := d.Dup(0, 0);
    }
    assert d.fds[At(0, 0)] == x;
    var c := d.Dup(0, 0);
    assert d.owed == multiset{(x.id, false)};
  }

  /** The calls that touch descriptors, with the process slot that makes them. */
  datatype Op =
    | DoOpen(p: nat, inode: nat, offset: nat, writable: bool)
    | DoPipe(p: nat)
    | DoDup(p: nat, fd: nat)
    | DoDup2(p: nat, oldfd: nat, newfd: nat)
    | DoClose(p: nat, fd: nat)
    | DoFork(dst: nat, src: nat)
    | DoReap(p: nat)
    | DoSpawn(p: nat)

  predicate InRange(op: Op) {
    match op
    case DoFork(dst, src) => dst < MAX_PROCS && src < MAX_PROCS && dst != src
    case _ => op.p < MAX_PROCS
  }

  /** A `dup` of a pipe end in a full table. */
  ghost predicate DupLeaks(op: Op, s: seq<Slot>)
    requires InRange(op) && |s| == MAX_PROCS * MAX_OPEN
  {
    && op.DoDup? && op.fd < MAX_OPEN && s[At(op.p, op.fd)].PipeEnd?
    && forall k :: 0 <= k < MAX_OPEN ==> s[At(op.p, k)] != Closed
  }

  /** `k` is the lowest closed descriptor of process `p`, or `MAX_OPEN` if none is closed. */
  ghost predicate Lowest(s: seq<Slot>, p: nat, k: nat)
    requires |s| == MAX_PROCS * MAX_OPEN && p < MAX_PROCS
  {
    && k <= MAX_OPEN && (k < MAX_OPEN ==> s[At(p, k)] == Closed)
    && forall j :: 0 <= j < k ==> s[At(p, j)] != Closed
  }

  /** The two lowest closed descriptors have become the ends of pipe `id`. */
  ghost predicate NewPipe(p: nat, s: seq<Slot>, s': seq<Slot>, rd: nat, wr: nat, id: nat, gen: nat)
    requires |s| == MAX_PROCS * MAX_OPEN && p < MAX_PROCS
  {
    && rd < wr < MAX_OPEN && Lowest(s, p, rd) && Lowest(s[At(p, rd) := PipeEnd(id, false, gen)], p, wr)
    && s' == s[At(p, rd) := PipeEnd(id, false, gen)][At(p, wr) := PipeEnd(id, true, gen)]
  }

  /** What a call does to the descriptors of all processes. */
  ghost predicate Changes(op: Op, s: seq<Slot>, s': seq<Slot>)
    requires InRange(op) && |s| == MAX_PROCS * MAX_OPEN
  {
    |s'| == |s| &&
    match op
    case DoOpen(p, inode, offset, writable) =>
      exists k: nat :: Lowest(s, p, k) && s' == if k < MAX_OPEN then s[At(p, k) := File(inode, offset, writable)] else s
    case DoPipe(p) => s' == s || exists rd, wr, id, gen :: NewPipe(p, s, s', rd, wr, id, gen)
    case DoDup(p, fd) =>
      if fd < MAX_OPEN && s[At(p, fd)] != Closed && (exists k :: 0 <= k < MAX_OPEN && s[At(p, k)] == Closed)
      then exists k: nat :: k < MAX_OPEN && Lowest(s, p, k) && s' == s[At(p, k) := s[At(p, fd)]]
      else s' == s
    case DoDup2(p, oldfd, newfd) =>
      s' == if oldfd < MAX_OPEN && newfd < MAX_OPEN && s[At(p, oldfd)] != Closed
            then s[At(p, newfd) := s[At(p, oldfd)]] else s
    case DoClose(p, fd) => s' == if fd < MAX_OPEN then s[At(p, fd) := Closed] else s
    case DoFork(dst, src) =>
      && (forall fd :: 0 <= fd < MAX_OPEN ==> s'[At(dst, fd)] == s[At(src, fd)])
      && (forall i :: 0 <= i < |s| && !InTable(dst, i) ==> s'[i] == s[i])
    case DoReap(p) => forall i :: 0 <= i < |s| ==> s'[i] == if InTable(p, i) then Closed else s[i]
    case DoSpawn(p) =>
      forall i :: 0 <= i < |s| ==>
        s'[i] == if i == At(p, 0) then ConsoleIn else if i == At(p, 1) || i == At(p, 2) then ConsoleOut
                 else if InTable(p, i) then Closed else s[i]
  }

  /** Entry `i` belongs to the table of process `p`. */
  predicate InTable(p: nat, i: nat)
    requires p < MAX_PROCS
  {
    At(p, 0) <= i < At(p, 0) + MAX_OPEN
  }

  /** `tables` records the tables before each of the first `n` calls and after the last of them. */
  ghost predicate Trace(tables: seq<seq<Slot>>, ops: seq<Op>, n: nat) {
    && n <= |ops| && |tables| == n + 1 && (forall i :: 0 <= i < |ops| ==> InRange(ops[i]))
    && (forall i :: 0 <= i <= n ==> |tables[i]| == MAX_PROCS * MAX_OPEN)
    && forall i :: 0 <= i < n ==> Changes(ops[i], tables[i], tables[i + 1])
  }

  ghost predicate SomeLeak(ops: seq<Op>, tables: seq<seq<Slot>>, n: nat)
    requires Trace(tables, ops, n)
  {
    exists i :: 0 <= i < n && DupLeaks(ops[i], tables[i])
  }

  lemma SomeLeakNext(ops: seq<Op>, tables: seq<seq<Slot>>, n: nat, s: seq<Slot>)
    requires Trace(tables, ops, n) && n < |ops| && |s| == MAX_PROCS * MAX_OPEN && Changes(ops[n], tables[n], s)
    ensures Trace(tables + [s], ops, n + 1)
    ensures SomeLeak(ops, tables + [s], n + 1) <==> SomeLeak(ops, tables, n) || DupLeaks(ops[n], tables[n])
  {
    var more := tables + [s];
    if SomeLeak(ops, tables, n) {
      var i :| 0 <= i < n && DupLeaks(ops[i], tables[i]);
      assert DupLeaks(ops[i], more[i]);
    }
    if DupLeaks(ops[n], tables[n]) {
      assert DupLeaks(ops[n], more[n]);
    }
  }

  /** A pipe to which a reference is owed is live. */
  lemma StillLive(s: seq<Slot>, pool: seq<PipeState>, owed: Owed, x: Slot)
    requires Balanced(s, pool, owed + RefOf(x)) && (x.PipeEnd? ==> x.id < MAX_PIPES)
    ensures x.PipeEnd? ==> pool[x.id].Live?
  {
  }

  /** Each live pipe's counts are the descriptors that name its ends, over all tables, and there is one; no
      descriptor names a free pool slot or one that was reused. */
  ghost predicate Exact(s: seq<Slot>, pool: seq<PipeState>) {
    && |pool| == MAX_PIPES
    && (forall id :: 0 <= id < MAX_PIPES && pool[id].Live? ==>
          && pool[id].readers == Refs(s, id, false) && pool[id].writers == Refs(s, id, true)
          && exists i :: 0 <= i < |s| && s[i].PipeEnd? && s[i].id == id)
    && (forall i :: 0 <= i < |s| ==> NamesLive(s[i], pool))
  }

  /** Counts and descriptors agree if and only if no reference is left without a descriptor. */
  lemma ExactIff(s: seq<Slot>, pool: seq<PipeState>, owed: Owed)
    requires Balanced(s, pool, owed)
    ensures Exact(s, pool) <==> owed == multiset{}
  {
    if owed == multiset{} {
      CountsAreDescriptors(s, pool);
    } else {
      var r :| r in owed;
      var (id, write) := r;
      assert PipeOk(s, pool[id], owed, id);
      assert owed[(id, write)] > 0;
    }
  }

  /** With nothing owed, each live pipe's counts are exactly the descriptors that name its ends, over
      all tables; a pipe without descriptors is free; and no descriptor names a free or reused one. */
  lemma CountsAreDescriptors(s: seq<Slot>, pool: seq<PipeState>)
    requires Balanced(s, pool, multiset{})
    ensures Exact(s, pool)
  {
    forall id | 0 <= id < MAX_PIPES && pool[id].Live?
      ensures pool[id].readers == Refs(s, id, false) && pool[id].writers == Refs(s, id, true)
      ensures exists i :: 0 <= i < |s| && s[i].PipeEnd? && s[i].id == id
    {
      assert PipeOk(s, pool[id], multiset{}, id);
      if forall i :: 0 <= i < |s| ==> !(s[i].PipeEnd? && s[i].id == id) {
        RefsNone(s, id, false);
        RefsNone(s, id, true);
      }
    }
  }
}
