/** Sequences of filesystem calls: what holds in every state of every run. */
module FsTrace {
  import opened DiskFormat
  import opened BlockStore
  import opened BlockMap
  import opened FsTree
  import opened Directory
  import opened FileSystem
  import opened FsSpec
  import opened FsEffect
  import opened FsRun

  /** The states before each of the first `n` calls and after the last of them. */
  ghost predicate IsTrace(ops: seq<Op>, ss: seq<State>, n: nat) {
    && n <= |ops| && |ss| == n + 1 && Ok(ss[0])
    && forall i :: 0 <= i < n ==> Steps(ops[i], ss[i], ss[i + 1])
  }

  lemma TraceOk(ops: seq<Op>, ss: seq<State>, n: nat, i: nat)
    requires IsTrace(ops, ss, n) && i <= n
    ensures Ok(ss[i]) && |ss[i].v.inodes| == INODE_COUNT
    ensures i < n ==> Does(ops[i], ss[i], ss[i + 1])
  {
    if i > 0 {
      assert Steps(ops[i - 1], ss[i - 1], ss[i]);
    }
    if i < n {
      assert Steps(ops[i], ss[i], ss[i + 1]);
    }
  }

  lemma TraceNext(ops: seq<Op>, ss: seq<State>, n: nat, s: State)
    requires IsTrace(ops, ss, n) && n < |ops| && Steps(ops[n], ss[n], s)
    ensures IsTrace(ops, ss + [s], n + 1)
  {
    var more := ss + [s];
    forall i | 0 <= i < n + 1 ensures Steps(ops[i], more[i], more[i + 1]) {
      assert i < n ==> Steps(ops[i], ss[i], ss[i + 1]);
    }
  }

  // --- reachability -----------------------------------------------------------------------------------------

  /** Step `i` moves a directory into itself. */
  ghost predicate DetachesAt(ops: seq<Op>, ss: seq<State>, i: nat)
    requires i < |ops| && i + 1 < |ss|
  {
    Detaches(ops[i], TreeAt(ss[i]), TreeAt(ss[i + 1]))
  }

  /** From a volume whose directories form a tree, every live inode is still reachable if and only if no call
      moved a directory into its own subtree. */
  lemma ReachableIff(ops: seq<Op>, ss: seq<State>, n: nat)
    requires IsTrace(ops, ss, n) && AllReachable(ss[0].v, ss[0].g.links)
    ensures AllReachable(ss[n].v, ss[n].g.links) <==> forall i :: 0 <= i < n ==> !DetachesAt(ops, ss, i)
  {
    var good := seq(n + 1, i requires 0 <= i <= n => AllReachable(ss[i].v, ss[i].g.links));
    var bad := seq(n, i requires 0 <= i < n => DetachesAt(ops, ss, i));
    forall i | 0 <= i < n ensures good[i + 1] <==> good[i] && !bad[i] {
      TraceOk(ops, ss, n, i);
    }
    Chain(good, bad);
    assert forall i :: 0 <= i < n ==> (bad[i] <==> DetachesAt(ops, ss, i));
  }

  /** What each step keeps unless it is bad, a run keeps unless some step is. */
  lemma {:induction false} Chain(good: seq<bool>, bad: seq<bool>)
    requires |good| == |bad| + 1 && forall i :: 0 <= i < |bad| ==> (good[i + 1] <==> good[i] && !bad[i])
    ensures good[|bad|] <==> good[0] && forall i :: 0 <= i < |bad| ==> !bad[i]
    decreases |bad|
  {
    var n := |bad|;
    if n > 0 {
      Chain(good[..n], bad[..n - 1]);
      assert forall i :: 0 <= i < n - 1 ==> bad[..n - 1][i] == bad[i];
      assert good[n] <==> good[n - 1] && !bad[n - 1];
    }
  }

  // --- lost blocks -------------------------------------------------------------------------------------------

  lemma LeakStep(op: Op, s: State, s': State)
    requires Ok(s) && LostKept(op, s, s')
    ensures Exact(s'.g.owner) <==> Exact(s.g.owner) && !Leaks(op, s)
    ensures forall b: nat :: IsLost(s.g.owner, b) ==> IsLost(s'.g.owner, b)
  {
    if Takes(op, s) {
      var lost := Forgotten(s.g.owner, NextFree(s.v));
      NothingForgotten(s.g.owner, NextFree(s.v));
      SameLostExact(lost, s'.g.owner);
    } else {
      SameLostExact(s.g.owner, s'.g.owner);
    }
  }

  lemma SameLostExact(o: Owner, o': Owner)
    requires SameLost(o, o')
    ensures Exact(o') <==> Exact(o)
  {
    if !Exact(o) {
      var b :| b in o && o[b] == LOST;
      assert IsLost(o, b);
      assert IsLost(o', b);
    }
    if !Exact(o') {
      var b :| b in o' && o'[b] == LOST;
      assert IsLost(o', b);
      assert IsLost(o, b);
    }
  }

  /** Ownership is exact at the end of a run if and only if it was at the start and no call took an inode
      number that held blocks. */
  lemma ExactIff(ops: seq<Op>, ss: seq<State>, n: nat)
    requires IsTrace(ops, ss, n)
    ensures Exact(ss[n].g.owner) <==> Exact(ss[0].g.owner) && forall i :: 0 <= i < n ==> !Leaks(ops[i], ss[i])
  {
    var good := seq(n + 1, i requires 0 <= i <= n => Exact(ss[i].g.owner));
    var bad := seq(n, i requires 0 <= i < n => Leaks(ops[i], ss[i]));
    forall i | 0 <= i < n ensures good[i + 1] <==> good[i] && !bad[i] {
      TraceOk(ops, ss, n, i);
      LeakStep(ops[i], ss[i], ss[i + 1]);
    }
    Chain(good, bad);
    assert forall i :: 0 <= i < n ==> (bad[i] <==> Leaks(ops[i], ss[i]));
  }

  /** A lost block is never found again. */
  lemma {:induction false} LostForever(ops: seq<Op>, ss: seq<State>, n: nat, i: nat, b: nat)
    requires IsTrace(ops, ss, n) && i <= n && IsLost(ss[i].g.owner, b)
    ensures IsLost(ss[n].g.owner, b)
    decreases n - i
  {
    if i < n {
      TraceOk(ops, ss, n, i);
      LeakStep(ops[i], ss[i], ss[i + 1]);
      LostForever(ops, ss, n, i + 1, b);
    }
  }

  // --- free inodes -------------------------------------------------------------------------------------------

  /** The whole invariant: ownership is exact, and free inodes are blank, so that every used block belongs to
      a live inode. */
  ghost predicate Sound(s: State) { Ok(s) && Exact(s.g.owner) && Tidy(s.v) }

  /** On a tidy volume no call leaks. */
  lemma TidyNoLeak(op: Op, s: State)
    requires Ok(s) && Tidy(s.v)
    ensures !Leaks(op, s)
  {
    if Takes(op, s) && HoldsBlocks(s.g.owner, NextFree(s.v)) {
      HoldsNotBlank(s.v, s.g.owner, NextFree(s.v));
    }
  }

  lemma SoundStep(op: Op, s: State, s': State)
    requires Sound(s) && Steps(op, s, s')
    ensures Sound(s') <==> !StoresFreed(op, s, s')
  {
    TidyNoLeak(op, s);
    LeakStep(op, s, s');
  }

  /** The whole invariant holds in every state of a run if and only if it held at the start and no write stored
      anything through the number of a free inode. */
  lemma SoundIff(ops: seq<Op>, ss: seq<State>, n: nat, m: nat)
    requires IsTrace(ops, ss, n) && m <= n
    ensures (forall i :: 0 <= i <= m ==> Sound(ss[i])) <==>
            Sound(ss[0]) && forall i :: 0 <= i < m ==> !StoresFreed(ops[i], ss[i], ss[i + 1])
  {
    forall i | 0 <= i < m ensures SoundAt(ops, ss, i) {
      assert Steps(ops[i], ss[i], ss[i + 1]);
      if Sound(ss[i]) {
        SoundStep(ops[i], ss[i], ss[i + 1]);
      }
    }
    SoundChain(ops, ss, m);
  }

  ghost predicate SoundAt(ops: seq<Op>, ss: seq<State>, i: nat)
    requires i < |ops| && i + 1 < |ss|
  {
    Sound(ss[i]) ==> (Sound(ss[i + 1]) <==> !StoresFreed(ops[i], ss[i], ss[i + 1]))
  }

  lemma SoundChain(ops: seq<Op>, ss: seq<State>, m: nat)
    requires m <= |ops| && m < |ss| && forall i :: 0 <= i < m ==> SoundAt(ops, ss, i)
    ensures (forall i :: 0 <= i <= m ==> Sound(ss[i])) <==>
            Sound(ss[0]) && forall i :: 0 <= i < m ==> !StoresFreed(ops[i], ss[i], ss[i + 1])
  {
    if Sound(ss[0]) && forall i :: 0 <= i < m ==> !StoresFreed(ops[i], ss[i], ss[i + 1]) {
      forall k | 0 <= k <= m ensures Sound(ss[k]) {
        StaysSound(ops, ss, k);
      }
    }
    if forall i :: 0 <= i <= m ==> Sound(ss[i]) {
      forall i | 0 <= i < m ensures !StoresFreed(ops[i], ss[i], ss[i + 1]) {
        assert SoundAt(ops, ss, i);
      }
    }
  }

  lemma {:induction false} StaysSound(ops: seq<Op>, ss: seq<State>, m: nat)
    requires m <= |ops| && m < |ss| && Sound(ss[0])
    requires forall i :: 0 <= i < m ==> SoundAt(ops, ss, i) && !StoresFreed(ops[i], ss[i], ss[i + 1])
    ensures Sound(ss[m])
  {
    if m > 0 {
      StaysSound(ops, ss, m - 1);
      assert SoundAt(ops, ss, m - 1);
    }
  }

  /** A leak needs an earlier write that stored something through the number of a free inode. */
  lemma LeakNeedsStore(ops: seq<Op>, ss: seq<State>, n: nat, k: nat) returns (i: nat)
    requires IsTrace(ops, ss, n) && k < n && Sound(ss[0]) && Leaks(ops[k], ss[k])
    ensures i < k && StoresFreed(ops[i], ss[i], ss[i + 1])
  {
    SoundIff(ops, ss, n, k);
    if Sound(ss[k]) {
      TidyNoLeak(ops[k], ss[k]);
    }
    i :| 0 <= i < k && StoresFreed(ops[i], ss[i], ss[i + 1]);
  }

  // --- numbers -----------------------------------------------------------------------------------------------

  predicate LiveNumber(s: State, c: nat) { c < |s.v.inodes| && s.v.inodes[c].kind != T_FREE }

  /** Step `i` frees number `c`. */
  ghost predicate FreedAt(ops: seq<Op>, ss: seq<State>, i: nat, c: nat)
    requires i < |ops| && i + 1 < |ss|
  {
    Frees(ops[i], ss[i], c) && LiveNumber(ss[i], c) && !LiveNumber(ss[i + 1], c)
  }

  /** Step `i` gives number `c` to a new file or directory. */
  ghost predicate TakenAt(ops: seq<Op>, ss: seq<State>, i: nat, c: nat)
    requires i < |ops| && i + 1 < |ss|
  {
    Takes(ops[i], ss[i]) && c == NextFree(ss[i].v) && !LiveNumber(ss[i], c) && LiveNumber(ss[i + 1], c)
  }

  lemma NumberStep(ops: seq<Op>, ss: seq<State>, n: nat, i: nat, c: nat)
    requires IsTrace(ops, ss, n) && i < n && c < INODE_COUNT
    ensures LiveNumber(ss[i], c) && !LiveNumber(ss[i + 1], c) ==> FreedAt(ops, ss, i, c)
    ensures !LiveNumber(ss[i], c) && LiveNumber(ss[i + 1], c) ==> TakenAt(ops, ss, i, c)
  {
    TraceOk(ops, ss, n, i);
    assert KindKept(ops[i], ss[i], ss[i + 1], c);
  }

  /** A number that is free at state `j` and live at state `k` was given away in between. */
  lemma {:induction false} NextTaken(ops: seq<Op>, ss: seq<State>, n: nat, j: nat, k: nat, c: nat) returns (b: nat)
    requires IsTrace(ops, ss, n) && j <= k <= n && c < INODE_COUNT && !LiveNumber(ss[j], c) && LiveNumber(ss[k], c)
    ensures j <= b < k && TakenAt(ops, ss, b, c)
    decreases k - j
  {
    assert j != k;
    NumberStep(ops, ss, n, j, c);
    b := j;
    if !LiveNumber(ss[j + 1], c) {
      b := NextTaken(ops, ss, n, j + 1, k, c);
    }
  }

  /** A descriptor that holds number `c` from state `i` on, when it was live: at a later state where the number
      is live it is still the same node, or a call has freed the number and a later one has given it to a new
      file or directory. Only then does a write through the descriptor change another path. */
  lemma {:induction false} SameNodeOrReused(ops: seq<Op>, ss: seq<State>, n: nat, i: nat, k: nat, c: nat)
    returns (a: nat, b: nat)
    requires IsTrace(ops, ss, n) && i <= k <= n && c < INODE_COUNT && LiveNumber(ss[i], c) && LiveNumber(ss[k], c)
    ensures (forall j :: i <= j <= k ==> LiveNumber(ss[j], c))
            || (i <= a < b < k && FreedAt(ops, ss, a, c) && TakenAt(ops, ss, b, c))
    decreases k - i
  {
    a, b := 0, 0;
    if i < k {
      NumberStep(ops, ss, n, i, c);
      if LiveNumber(ss[i + 1], c) {
        a, b := SameNodeOrReused(ops, ss, n, i + 1, k, c);
      } else {
        a := i;
        b := NextTaken(ops, ss, n, i + 1, k, c);
      }
    }
  }

  /** What a write through number `c` changes on the map: the path that has this number then, if it is a file's,
      and no other. */
  lemma WriteChanges(ops: seq<Op>, ss: seq<State>, n: nat, i: nat, q: seq<Name>)
    requires IsTrace(ops, ss, n) && i < n && ops[i].WriteOp? && q in TreeAt(ss[i])
    ensures q in TreeAt(ss[i + 1])
    ensures TreeAt(ss[i + 1])[q] != TreeAt(ss[i])[q] ==>
              TreeAt(ss[i])[q].ino == ops[i].ino && LiveNumber(ss[i], ops[i].ino)
  {
    TraceOk(ops, ss, n, i);
    WriteOnMap(ops[i], ss[i], ss[i + 1], q);
    LiveTree(ss[i].v, ss[i].g.links, q);
  }

  lemma WriteOnMap(op: Op, s: State, s': State, q: seq<Name>)
    requires Shape(s.v) && Shape(s'.v) && Refines(op, s, s') && op.WriteOp? && q in TreeAt(s)
    ensures q in TreeAt(s') && (TreeAt(s')[q] != TreeAt(s)[q] ==> TreeAt(s)[q].ino == op.ino)
  {
    var done: nat :| DoneOk(op, s', done)
                     && TreeAt(s') == After(op, TreeAt(s), Env(NextFree(s.v), RoomFor(op, s), done));
    AfterWrite(op, TreeAt(s), Env(NextFree(s.v), RoomFor(op, s), done), q);
  }

  lemma AfterWrite(op: Op, t: Tree, env: Env, q: seq<Name>)
    requires op.WriteOp? && q in t
    ensures q in After(op, t, env) && (After(op, t, env)[q] != t[q] ==> t[q].ino == op.ino)
  {
    WrittenElsewhere(t, op.ino, op.offset, if env.done <= |op.data| then op.data[..env.done] else op.data, q);
  }

  lemma WrittenElsewhere(t: Tree, ino: nat, offset: nat, d: seq<u8>, q: seq<Name>)
    requires q in t
    ensures q in WrittenTree(t, ino, offset, d)
    ensures WrittenTree(t, ino, offset, d)[q] != t[q] ==> t[q].ino == ino
  {
  }

  // --- runs ----------------------------------------------------------------------------------------------------

  /** However the calls go from state `s` on, none stores a name that clashes or goes by the number of a
      directory. */
  ghost predicate Clean(ops: seq<Op>, s: State) {
    forall ss, n: nat :: IsTrace(ops, ss, n) && n < |ops| && ss[0] == s ==> !Breaks(ops[n], ss[n])
  }

  /** Every clean sequence of calls keeps the volume invariant, and each call changes the map from paths to
      things, the lost blocks, the numbers in use and the free inodes as stated for it. */
  method Run(st: Store, ops: seq<Op>, ghost g: Books) returns (ghost g': Books, ghost ss: seq<State>)
    requires st.Valid() && FsOk(st.vol, g) && Clean(ops, State(st.vol, g))
    requires forall i :: 0 <= i < |ops| ==> InTable(ops[i])
    modifies st`disk, st`vol, st.cache
    ensures st.Valid() && FsOk(st.vol, g') && IsTrace(ops, ss, |ops|)
    ensures ss[0] == State(old(st.vol), g) && ss[|ops|] == State(st.vol, g')
  {
    g', ss := g, [State(st.vol, g)];
    for i := 0 to |ops|
      invariant st.Valid() && FsOk(st.vol, g') && IsTrace(ops, ss, i)
      invariant ss[0] == State(old(st.vol), g) && ss[i] == State(st.vol, g')
    {
      ghost var broke;
      assert !Breaks(ops[i], ss[i]);
      broke, g' := Step(st, ops[i], g');
      TraceNext(ops, ss, i, State(st.vol, g'));
      ss := ss + [State(st.vol, g')];
    }
  }

  lemma GoodNameKeeps(op: Op, t: Tree)
    requires StoresGoodName(op)
    ensures !StoresClash(op, t)
  {
  }

  /** Names of at most 28 bytes, with NULs at the end only, make a sequence without writes and truncations
      clean. */
  lemma GoodNamesClean(ops: seq<Op>, s: State)
    requires forall i :: 0 <= i < |ops| ==> StoresGoodName(ops[i]) && !ops[i].WriteOp? && !ops[i].TruncateOp?
    ensures Clean(ops, s)
  {
    forall ss, n: nat | IsTrace(ops, ss, n) && n < |ops| && ss[0] == s ensures !Breaks(ops[n], ss[n]) {
      GoodNameKeeps(ops[n], TreeAt(ss[n]));
    }
  }

  /** Where no call makes a directory, writes and truncations are clean too, through every number that is not
      a directory's at the start. */
  lemma FilesClean(ops: seq<Op>, s: State)
    requires forall i :: 0 <= i < |ops| ==> StoresGoodName(ops[i]) && !ops[i].MkdirOp?
    requires forall i :: 0 <= i < |ops| && (ops[i].WriteOp? || ops[i].TruncateOp?) ==> !IsDir(s.v, ops[i].ino)
    ensures Clean(ops, s)
  {
    forall ss, n: nat | IsTrace(ops, ss, n) && n < |ops| && ss[0] == s ensures !Breaks(ops[n], ss[n]) {
      GoodNameKeeps(ops[n], TreeAt(ss[n]));
      if HitsDir(ops[n], ss[n]) {
        NoNewDir(ops, ss, n, n, ops[n].ino);
      }
    }
  }

  lemma {:induction false} NoNewDir(ops: seq<Op>, ss: seq<State>, n: nat, m: nat, c: nat)
    requires IsTrace(ops, ss, n) && m <= n && IsDir(ss[m].v, c) && forall i :: 0 <= i < |ops| ==> !ops[i].MkdirOp?
    ensures IsDir(ss[0].v, c)
    decreases m
  {
    if m > 0 {
      TraceOk(ops, ss, n, m - 1);
      TraceOk(ops, ss, n, m);
      assert KindKept(ops[m - 1], ss[m - 1], ss[m], c);
      NoNewDir(ops, ss, n, m - 1, c);
    }
  }

  // --- the formatter ---------------------------------------------------------------------------------------------

  /** What the formatter leaves when it bakes in no file: a root directory with one empty block. */
  ghost predicate Formatted(v: Vol) {
    && Shape(v) && v.l.dataStart < v.l.total
    && (forall b :: v.l.dataStart <= b < v.l.total ==> (v.used[b] <==> b == v.l.dataStart) && v.data[b] == ZeroBlock())
    && v.inodes[ROOT_INODE] == FormattedRoot(v.l)
    && (forall i :: 0 <= i < INODE_COUNT && i != ROOT_INODE ==> v.inodes[i] == NewInode(T_FREE, 0))
  }

  function FormattedRoot(l: Layout): (n: Inode)
    requires l.dataStart < 0x1_0000_0000
  {
    Inode(T_DIR, 1, 0, NewInode(T_DIR, 1).direct[0 := l.dataStart], 0, 0)
  }

  ghost function FormattedBooks(v: Vol): (g: Books) {
    Books(map[v.l.dataStart := Key(ROOT_INODE, Direct(0))], map[])
  }

  /** A formatted volume satisfies the whole invariant. */
  lemma FormattedSound(v: Vol)
    requires Formatted(v)
    ensures Sound(State(v, FormattedBooks(v)))
  {
  }

  /** Its map holds the root directory and nothing else, and every live inode is reachable. */
  lemma FormattedTree(v: Vol)
    requires Formatted(v)
    ensures TreeOf(v, map[]) == imap[[] := Fresh(ROOT_INODE, T_DIR)] && AllReachable(v, map[])
  {
    forall q: seq<Name> ensures Get(TreeOf(v, map[]), q) == Get(imap[[] := Fresh(ROOT_INODE, T_DIR)], q) {
    }
    SameTree(TreeOf(v, map[]), imap[[] := Fresh(ROOT_INODE, T_DIR)]);
    assert Walk(EdgesOf(map[]), ROOT_INODE, []) == At(ROOT_INODE);
  }
}
