/** The calls of kernel/src/fs.rs as operations on the map from paths to things: what each does to the map,
    which blocks it loses, which inode numbers it frees and takes, and when it leaves an inode that no path
    reaches. Reads, writes and truncations go by inode number, as the kernel's descriptors do. */
module FsEffect {
  import opened Wrappers
  import opened DiskFormat
  import opened BlockStore
  import opened BlockMap
  import opened BlockFree
  import opened FileData
  import opened FsTree
  import opened Directory
  import opened DirUpdate
  import opened Paths
  import opened FileSystem
  import opened Rename
  import opened FsSpec

  datatype Op =
    | CreateOp(name: seq<u8>)
    | MkdirOp(path: seq<u8>)
    | UnlinkOp(path: seq<u8>)
    | RmdirOp(path: seq<u8>)
    | RenameOp(src: seq<u8>, dst: seq<u8>)
    | WriteOp(ino: nat, offset: nat, data: seq<u8>)
    | TruncateOp(ino: nat)
    | ReadOp(ino: nat, offset: nat, len: nat)

  /** The volume and its books between two calls. */
  datatype State = State(v: Vol, g: Books)

  ghost function TreeAt(s: State): (t: Tree) { TreeOf(s.v, s.g.links) }

  ghost predicate Ok(s: State) { FsOk(s.v, s.g) }

  // --- what a call does to the map --------------------------------------------------------------------

  /** What the map does not show: the number a new node gets, whether there is room for the call, and how
      many bytes a write stores. */
  datatype Env = Env(next: nat, room: bool, done: nat)

  /** `name`, stored at `q`, is not told from other names: a NUL comes before another byte, or it is cut off
      and what is left is a name there already. */
  ghost predicate Clashes(t: Tree, q: seq<Name>, name: seq<u8>) {
    !Padded(Pad(name)) || (|name| > NAME_LEN && q in t)
  }

  /** The map after the call. */
  ghost function After(op: Op, t: Tree, env: Env): (t': Tree) {
    match op
    case CreateOp(name) =>
      if [Pad(name)] !in t && env.room then t[[Pad(name)] := Fresh(env.next, T_FILE)] else t
    case MkdirOp(path) =>
      if MkdirPasses(t, path) && env.room then t[Stored(path) := Fresh(env.next, T_DIR)] else t
    case UnlinkOp(path) => if Names(t, path, T_FILE) && Base(path) != [] then t - {Stored(path)} else t
    case RmdirOp(path) => if RmdirPasses(t, path) then t - {Stored(path)} else t
    case RenameOp(src, dst) =>
      if !RenamePasses(t, src, dst) then t
      else if env.room then MovedTree(t - {Stored(dst)}, Stored(src), Stored(dst))
      else t - {Stored(dst)}
    case WriteOp(ino, offset, data) =>
      WrittenTree(t, ino, offset, if env.done <= |data| then data[..env.done] else data)
    case TruncateOp(ino) => TruncatedTree(t, ino)
    case ReadOp(_, _, _) => t
  }

  /** The directory that would hold the last component of `path` exists. */
  ghost predicate InFolder(t: Tree, path: seq<u8>) {
    var q := PadAll(ParentComps(path));
    Short(ParentComps(path)) && q in t && t[q].kind == T_DIR
  }

  ghost predicate MkdirPasses(t: Tree, path: seq<u8>) { Base(path) != [] && InFolder(t, path) && Stored(path) !in t }

  /** `path` names a directory, not the root, with nothing below it. */
  ghost predicate RmdirPasses(t: Tree, path: seq<u8>) {
    Names(t, path, T_DIR) && Base(path) != [] && forall r :: r in t ==> !(Stored(path) < r)
  }

  /** The source exists, the destination's directory too, and at the destination is another file or nothing.
      (Under a name that clashes nothing moves.) */
  ghost predicate RenamePasses(t: Tree, src: seq<u8>, dst: seq<u8>) {
    && Short(Comps(src)) && Stored(src) in t && Stored(src) != Stored(dst) && InFolder(t, dst)
    && (Stored(dst) in t ==> Names(t, dst, T_FILE)) && !Clashes(t, Stored(dst), Base(dst))
    && Base(src) != [] && Base(dst) != []
  }

  /** A rename of a directory into its own subtree. */
  ghost predicate Detaches(op: Op, t: Tree, t': Tree) {
    op.RenameOp? && Stored(op.src) < Stored(op.dst) && Stored(op.src) in t && Stored(op.src) !in t'
  }

  // --- room, numbers and blocks -------------------------------------------------------------------------

  /** There is an inode and room for a directory entry. For a rename, the blocks of the file that is dropped
      count as free. */
  ghost predicate RoomFor(op: Op, s: State)
    requires Shape(s.v)
  {
    match op
    case CreateOp(_) => NextFree(s.v) < INODE_COUNT && HasRoom(s.v, ROOT_INODE)
    case MkdirOp(path) =>
      var p := ParentDir(s.v, s.g.links, path);
      NextFree(s.v) < INODE_COUNT && p.Some? && p.value < INODE_COUNT && HasRoom(s.v, p.value)
    case RenameOp(_, dst) => DstRoom(s.v, s.g, dst)
    case _ => true
  }

  ghost predicate DstRoom(v: Vol, g: Books, dst: seq<u8>)
    requires Shape(v)
  {
    var p, r := ParentDir(v, g.links, dst), Resolve(g.links, dst);
    p.Some? && p.value < INODE_COUNT &&
    var n := v.inodes[p.value];
    && n.size / BLOCK_SIZE < NDIRECT
    && (n.direct[n.size / BLOCK_SIZE] != 0 || !Full(v) || (r.Some? && HoldsBlocks(g.owner, r.value)))
  }

  /** The call gets as far as taking an inode number. */
  ghost predicate Takes(op: Op, s: State) {
    |s.v.inodes| == INODE_COUNT && NextFree(s.v) < INODE_COUNT &&
    match op
    case CreateOp(name) => LookupIn(s.g.links, ROOT_INODE, name).None?
    case MkdirOp(path) => CanMkdir(s.v, s.g.links, path)
    case _ => false
  }

  /** The call frees inode `i`. */
  ghost predicate Frees(op: Op, s: State, i: nat) {
    match op
    case UnlinkOp(path) => Resolve(s.g.links, path) == Some(i)
    case RmdirOp(path) => Resolve(s.g.links, path) == Some(i)
    case RenameOp(_, dst) => Resolve(s.g.links, dst) == Some(i)
    case _ => false
  }

  /** Kinds change only where a number is taken or freed. */
  ghost predicate KindsKept(op: Op, s: State, s': State) {
    && |s.v.inodes| == |s'.v.inodes| == INODE_COUNT
    && forall i :: 0 <= i < INODE_COUNT ==> KindKept(op, s, s', i)
  }

  ghost predicate KindKept(op: Op, s: State, s': State, i: nat)
    requires i < |s.v.inodes| == |s'.v.inodes| == INODE_COUNT
  {
    var k, k' := s.v.inodes[i].kind, s'.v.inodes[i].kind;
    || k' == k
    || (Takes(op, s) && i == NextFree(s.v) && k == T_FREE && k' == if op.CreateOp? then T_FILE else T_DIR)
    || (Frees(op, s, i) && k' == T_FREE)
  }

  /** The number the call takes holds blocks, which are lost: nothing points to them any more, and they stay
      marked used. */
  ghost predicate Leaks(op: Op, s: State) { Takes(op, s) && HoldsBlocks(s.g.owner, NextFree(s.v)) }

  ghost predicate LostKept(op: Op, s: State, s': State) {
    SameLost(if Takes(op, s) then Forgotten(s.g.owner, NextFree(s.v)) else s.g.owner, s'.g.owner)
  }

  /** A write through the number of a free inode that changes the inode. */
  ghost predicate StoresFreed(op: Op, s: State, s': State) {
    && op.WriteOp? && op.ino < |s.v.inodes| == |s'.v.inodes|
    && s.v.inodes[op.ino].kind == T_FREE && s'.v.inodes[op.ino] != s.v.inodes[op.ino]
  }

  /** A tidy volume stays tidy unless the call stores through the number of a free inode. */
  ghost predicate TidyKept(op: Op, s: State, s': State) {
    Tidy(s.v) ==> (Tidy(s'.v) <==> !StoresFreed(op, s, s'))
  }

  /** A write is short only for lack of blocks. */
  ghost predicate DoneOk(op: Op, s': State, done: nat)
    requires Shape(s'.v)
  {
    op.WriteOp? ==>
      && done <= |op.data|
      && (done < |op.data| ==> (op.offset + done) / BLOCK_SIZE >= MAX_BLOCKS || Full(s'.v))
  }

  ghost predicate Refines(op: Op, s: State, s': State)
    requires Shape(s.v) && Shape(s'.v)
  {
    exists done :: DoneOk(op, s', done) && TreeAt(s') == After(op, TreeAt(s), Env(NextFree(s.v), RoomFor(op, s), done))
  }

  ghost predicate ReachKept(op: Op, s: State, s': State) {
    AllReachable(s'.v, s'.g.links) <==>
      AllReachable(s.v, s.g.links) && !Detaches(op, TreeAt(s), TreeAt(s'))
  }

  /** One call. */
  ghost predicate Does(op: Op, s: State, s': State) {
    && Shape(s.v) && Shape(s'.v) && Refines(op, s, s') && ReachKept(op, s, s')
    && KindsKept(op, s, s') && LostKept(op, s, s') && TidyKept(op, s, s')
  }

  // --- what a call must not meet ------------------------------------------------------------------------

  /** The name an operation stores in a directory fits the 28-byte field. */
  ghost predicate StoresGoodName(op: Op) {
    match op
    case CreateOp(name) => GoodName(name)
    case MkdirOp(path) => GoodName(Base(path))
    case RenameOp(_, dst) => GoodName(Base(dst))
    case _ => true
  }

  /** Unless the call is refused, it stores a name that clashes. */
  ghost predicate StoresClash(op: Op, t: Tree) {
    match op
    case CreateOp(name) => Clashes(t, [Pad(name)], name)
    case MkdirOp(path) => Clashes(t, Stored(path), Base(path))
    case RenameOp(src, dst) => Stored(src) != Stored(dst) && Clashes(t, Stored(dst), Base(dst))
    case _ => false
  }

  /** The call goes by the number of a directory. */
  ghost predicate HitsDir(op: Op, s: State) { (op.WriteOp? || op.TruncateOp?) && IsDir(s.v, op.ino) }

  ghost predicate Breaks(op: Op, s: State) { StoresClash(op, TreeAt(s)) || HitsDir(op, s) }

  // --- the same state ------------------------------------------------------------------------------------

  /** The volume and its books did not change, where the call has no effect. */
  lemma NothingDone(op: Op, s: State)
    requires Ok(s) && !Takes(op, s) && TreeAt(s) == After(op, TreeAt(s), Env(NextFree(s.v), RoomFor(op, s), 0))
    requires !op.WriteOp?
    ensures Does(op, s, s)
  {
    assert DoneOk(op, s, 0);
  }

  lemma DoesRefine(op: Op, s: State, s': State, done: nat)
    requires Shape(s.v) && Shape(s'.v) && DoneOk(op, s', done)
    requires TreeAt(s') == After(op, TreeAt(s), Env(NextFree(s.v), RoomFor(op, s), done))
    ensures Refines(op, s, s')
  {
  }

  // --- create and mkdir ----------------------------------------------------------------------------------

  /** Node `c` was added at `comps`. */
  ghost predicate NodeAdded(op: Op, s: State, s': State, p: nat, name: seq<u8>, kind: u16, comps: seq<seq<u8>>) {
    && Ok(s) && Takes(op, s) && Shape(s'.v) && NextFree(s.v) < 0x1_0000_0000
    && (op.CreateOp? || op.MkdirOp?) && kind == (if op.CreateOp? then T_FILE else T_DIR)
    && Added(s.v, s.g.links, s'.v, s'.g.links, p, name, kind, NextFree(s.v))
    && PathAdded(s.g.links, s'.g.links, comps, NextFree(s.v))
    && Walk(EdgesOf(s.g.links), ROOT_INODE, PadAll(comps)) == Missing
    && SameLost(Forgotten(s.g.owner, NextFree(s.v)), s'.g.owner)
  }

  lemma AddedKeeps(op: Op, s: State, s': State, p: nat, name: seq<u8>, kind: u16, comps: seq<seq<u8>>)
    requires NodeAdded(op, s, s', p, name, kind, comps)
    ensures KindsKept(op, s, s') && LostKept(op, s, s') && TidyKept(op, s, s') && ReachKept(op, s, s')
  {
    AddedReach(s.v, s.g.links, s'.v, s'.g.links, p, name, kind, NextFree(s.v), comps);
    AddedKinds(op, s, s', p);
  }

  lemma AddedKinds(op: Op, s: State, s': State, p: nat)
    requires |s.v.inodes| == |s'.v.inodes| == INODE_COUNT && Takes(op, s) && (op.CreateOp? || op.MkdirOp?)
    requires SameBut(s.v, s'.v, {NextFree(s.v), p}) && IsDir(s.v, p) && IsDir(s'.v, p)
    requires s'.v.inodes[NextFree(s.v)].kind == if op.CreateOp? then T_FILE else T_DIR
    ensures KindsKept(op, s, s') && TidyKept(op, s, s')
  {
    var c := NextFree(s.v);
    assert s.v.inodes[c].kind == T_FREE;
    forall i | 0 <= i < INODE_COUNT ensures KindKept(op, s, s', i) {
    }
    if Tidy(s.v) {
      forall i | 0 <= i < INODE_COUNT && s'.v.inodes[i].kind == T_FREE ensures Blank(s'.v, i) {
        assert i != c && i != p && Blank(s.v, i);
      }
    }
  }

  lemma CreateDoes(s: State, s': State, name: seq<u8>)
    requires NodeAdded(CreateOp(name), s, s', ROOT_INODE, name, T_FILE, [name]) && RoomFor(CreateOp(name), s)
    ensures Does(CreateOp(name), s, s')
  {
    assert PadAll([name]) == [Pad(name)];
    AddedTree(s.v, s.g.links, s'.v, s'.g.links, ROOT_INODE, name, T_FILE, NextFree(s.v), [name]);
    LiveTree(s.v, s.g.links, [Pad(name)]);
    DoesRefine(CreateOp(name), s, s', 0);
    AddedKeeps(CreateOp(name), s, s', ROOT_INODE, name, T_FILE, [name]);
  }

  lemma MkdirDoes(s: State, s': State, path: seq<u8>, p: u32)
    requires NodeAdded(MkdirOp(path), s, s', p, Base(path), T_DIR, Comps(path)) && RoomFor(MkdirOp(path), s)
    requires ParentDir(s.v, s.g.links, path) == Some(p)
    ensures Does(MkdirOp(path), s, s')
  {
    AddedTree(s.v, s.g.links, s'.v, s'.g.links, p, Base(path), T_DIR, NextFree(s.v), Comps(path));
    LiveTree(s.v, s.g.links, Stored(path));
    FolderIff(s.v, s.g.links, path);
    DoesRefine(MkdirOp(path), s, s', 0);
    AddedKeeps(MkdirOp(path), s, s', p, Base(path), T_DIR, Comps(path));
  }

  /** A create or mkdir that is refused for lack of room has no effect on the map. The blocks of the free
      inode it took for the moment are lost. */
  lemma UndoneDoes(op: Op, s: State, s': State)
    requires Ok(s) && Undone(s.v, s.g, s'.v, s'.g) && (op.CreateOp? || op.MkdirOp?) && !RoomFor(op, s)
    requires op.CreateOp? ==> LookupIn(s.g.links, ROOT_INODE, op.name).None?
    requires op.MkdirOp? ==> CanMkdir(s.v, s.g.links, op.path)
    ensures Does(op, s, s')
  {
    var c := NextFree(s.v);
    if c == INODE_COUNT {
      NothingDone(op, s);
    } else {
      UndoneOk(s.v, s.g, s'.v, s'.g);
      ReleaseOthers(s.v, s'.v, c);
      BlankedTree(s.v, s.g.links, s'.v, c);
      DoesRefine(op, s, s', 0);
      UndoneKinds(op, s, s', c);
    }
  }

  lemma UndoneKinds(op: Op, s: State, s': State, c: nat)
    requires |s.v.inodes| == INODE_COUNT && c < INODE_COUNT && s'.v == With(s.v, c, NewInode(T_FREE, 0))
    requires s.v.inodes[c].kind == T_FREE && !op.WriteOp?
    ensures KindsKept(op, s, s') && TidyKept(op, s, s')
  {
    forall i | 0 <= i < INODE_COUNT ensures KindKept(op, s, s', i) {
    }
    if Tidy(s.v) {
      UndoneTidies(s.v, s'.v, c);
    }
  }

  lemma UndoneTidies(v: Vol, v': Vol, c: nat)
    requires c < |v.inodes| && v' == With(v, c, NewInode(T_FREE, 0)) && Tidy(v)
    ensures Tidy(v')
  {
    forall i | 0 <= i < |v'.inodes| && v'.inodes[i].kind == T_FREE ensures Blank(v', i) {
      assert i != c ==> Blank(v, i);
    }
  }

  /** A change of a free inode changes no path. */
  lemma BlankedTree(v: Vol, links: Links, v': Vol, c: nat)
    requires Live(v, links) && |v'.inodes| == INODE_COUNT && c < INODE_COUNT && OthersSame(v, v', c)
    requires v.inodes[c].kind == T_FREE == v'.inodes[c].kind
    ensures TreeOf(v', links) == TreeOf(v, links) && (AllReachable(v', links) <==> AllReachable(v, links))
  {
    forall q ensures Get(TreeOf(v', links), q) == Get(TreeOf(v, links), q) {
      ChangedLook(v, links, v', c, q);
      LiveTree(v, links, q);
    }
    SameTree(TreeOf(v', links), TreeOf(v, links));
    assert forall i :: LiveNode(v', i) <==> LiveNode(v, i);
  }

  lemma FolderIff(v: Vol, links: Links, path: seq<u8>)
    requires Live(v, links)
    ensures ParentDir(v, links, path).Some? <==> InFolder(TreeOf(v, links), path)
  {
    WalkCompsIsWalk(links, ROOT_INODE, ParentComps(path));
    WalkCompsLive(v, links, ROOT_INODE, ParentComps(path));
    LiveTree(v, links, PadAll(ParentComps(path)));
  }

  // --- unlink and rmdir ----------------------------------------------------------------------------------

  lemma RemoveDoes(v: Vol, g: Books, v': Vol, g': Books, path: seq<u8>)
    requires Entries(v, g.links) && Live(v, g.links) && |v'.inodes| == INODE_COUNT
    requires Base(path) != [] && RemovedAt(v, g, v', g', path)
    ensures TreeOf(v', g'.links) == TreeOf(v, g.links) - {Stored(path)}
    ensures AllReachable(v', g'.links) <==> AllReachable(v, g.links)
  {
    RemovedIsGone(v, g, v', g', path);
    var p, ino := ParentDir(v, g.links, path).value, Resolve(g.links, path).value;
    assert !LiveNode(v', ino);
    RemovedTree(v, g.links, v', g'.links, Comps(path), p, ino);
    RemovedReach(v, g.links, v', g'.links, Comps(path), p, ino);
  }

  /** An inode was freed and blanked. */
  lemma RemovedKinds(op: Op, s: State, s': State, ino: nat)
    requires |s.v.inodes| == INODE_COUNT && ino < INODE_COUNT && Frees(op, s, ino)
    requires s'.v.inodes == s.v.inodes[ino := NewInode(T_FREE, 0)]
    ensures KindsKept(op, s, s') && TidyKept(op, s, s')
  {
    forall i | 0 <= i < INODE_COUNT ensures KindKept(op, s, s', i) {
    }
    if Tidy(s.v) {
      forall i | 0 <= i < INODE_COUNT && s'.v.inodes[i].kind == T_FREE ensures Blank(s'.v, i) {
        assert i != ino ==> Blank(s.v, i);
      }
    }
  }

  lemma RemovedKeeps(op: Op, s: State, s': State, path: seq<u8>)
    requires Entries(s.v, s.g.links) && Live(s.v, s.g.links) && |s'.v.inodes| == INODE_COUNT
    requires Base(path) != [] && RemovedAt(s.v, s.g, s'.v, s'.g, path)
    requires Frees(op, s, Resolve(s.g.links, path).value) && !op.RenameOp?
    ensures TreeAt(s') == TreeAt(s) - {Stored(path)}
    ensures KindsKept(op, s, s') && LostKept(op, s, s') && TidyKept(op, s, s') && ReachKept(op, s, s')
  {
    RemoveDoes(s.v, s.g, s'.v, s'.g, path);
    RemovedKinds(op, s, s', Resolve(s.g.links, path).value);
  }

  lemma UnlinkDoes(s: State, s': State, path: seq<u8>, ok: bool)
    requires Ok(s) && Shape(s'.v)
    requires ok <==> IsFileAt(s.v, s.g.links, path) && Base(path) != []
    requires if ok then RemovedAt(s.v, s.g, s'.v, s'.g, path) else s' == s
    ensures Does(UnlinkOp(path), s, s')
  {
    FileAtIff(s.v, s.g.links, path);
    if ok {
      RemovedKeeps(UnlinkOp(path), s, s', path);
      UnlinkedRefines(s, s', path);
    } else {
      UnlinkRefused(s, path);
    }
  }

  lemma UnlinkRefused(s: State, path: seq<u8>)
    requires Ok(s) && !(Names(TreeAt(s), path, T_FILE) && Base(path) != [])
    ensures Does(UnlinkOp(path), s, s)
  {
    NothingDone(UnlinkOp(path), s);
  }

  lemma UnlinkedRefines(s: State, s': State, path: seq<u8>)
    requires Shape(s.v) && Shape(s'.v) && Names(TreeAt(s), path, T_FILE) && Base(path) != []
    requires TreeAt(s') == TreeAt(s) - {Stored(path)}
    ensures Refines(UnlinkOp(path), s, s')
  {
    AfterUnlink(TreeAt(s), path, Env(NextFree(s.v), true, 0));
    DoesRefine(UnlinkOp(path), s, s', 0);
  }

  lemma AfterUnlink(t: Tree, path: seq<u8>, env: Env)
    requires Names(t, path, T_FILE) && Base(path) != []
    ensures After(UnlinkOp(path), t, env) == t - {Stored(path)}
  {
  }

  lemma RmdirDoes(s: State, s': State, path: seq<u8>, ok: bool)
    requires Ok(s) && Shape(s'.v)
    requires ok <==> IsEmptyDirAt(s.v, s.g.links, path) && Base(path) != []
    requires if ok then RemovedAt(s.v, s.g, s'.v, s'.g, path) else s' == s
    ensures Does(RmdirOp(path), s, s')
  {
    EmptyDirIff(s.v, s.g.links, path);
    assert ok <==> RmdirPasses(TreeAt(s), path);
    if ok {
      RemovedKeeps(RmdirOp(path), s, s', path);
      DoesRefine(RmdirOp(path), s, s', 0);
    } else {
      NothingDone(RmdirOp(path), s);
    }
  }

  // --- write and truncate --------------------------------------------------------------------------------

  /** `d` was stored at `offset` of inode `ino`, which grew if it ended before that. */
  ghost predicate WroteFile(v: Vol, v': Vol, ino: nat, offset: nat, d: seq<u8>)
    requires ino < |v.inodes| == |v'.inodes|
  {
    && Wrote(v, v', ino, offset, d) && v'.inodes[ino].kind == v.inodes[ino].kind
    && v'.inodes[ino].size == if offset + |d| > v.inodes[ino].size then U32(offset + |d|) else v.inodes[ino].size
  }

  /** Inode `ino` kept its record and its bytes. */
  ghost predicate Untouched(v: Vol, v': Vol, ino: nat)
    requires ino < |v.inodes| == |v'.inodes|
  {
    v'.inodes[ino] == v.inodes[ino] && forall pos: nat :: InoByte(v', ino, pos) == InoByte(v, ino, pos)
  }

  /** One inode changed in place; its kind, all links and all lost blocks stayed. */
  ghost predicate InPlace(s: State, s': State, ino: nat) {
    && Ok(s) && Owns(s'.v, s'.g.owner) && SameLost(s.g.owner, s'.g.owner) && s'.g.links == s.g.links
    && ino < INODE_COUNT && OthersSame(s.v, s'.v, ino) && s'.v.inodes[ino].kind == s.v.inodes[ino].kind
  }

  /** Unless it is a directory that changed, the volume invariant is kept. */
  lemma InPlaceOk(s: State, s': State, ino: nat)
    requires InPlace(s, s', ino) && (IsDir(s.v, ino) ==> Untouched(s.v, s'.v, ino))
    ensures Ok(s')
  {
    if IsDir(s.v, ino) {
      EntriesUntouched(s.v, s'.v, s.g.links, ino);
    } else {
      EntriesOther(s.v, s'.v, s.g.links, ino);
    }
    LiveKinds(s.v, s'.v, s.g.links);
  }

  lemma EntriesUntouched(v: Vol, v': Vol, links: Links, ino: nat)
    requires Entries(v, links) && |v'.inodes| == INODE_COUNT && ino < INODE_COUNT && OthersSame(v, v', ino)
    requires Untouched(v, v', ino)
    ensures Entries(v', links)
  {
    forall d, k | 0 <= d < INODE_COUNT && IsDir(v, d) && 0 <= k < Count(v.inodes[d])
      ensures k < MAX_ENTRIES && Entry(v', v'.inodes[d], k) == Entry(v, v.inodes[d], k)
    {
      EntrySame(v, v', d, k);
    }
    forall d, k | 0 <= d < INODE_COUNT && IsDir(v', d) && 0 <= k < Count(v'.inodes[d]) <= MAX_ENTRIES
      ensures LiveEntryLinked(v', links, d, k)
    {
      assert LiveEntryLinked(v, links, d, k);
    }
  }

  lemma InPlaceKinds(op: Op, s: State, s': State, ino: nat)
    requires |s.v.inodes| == |s'.v.inodes| == INODE_COUNT && ino < INODE_COUNT && OthersSame(s.v, s'.v, ino)
    requires s'.v.inodes[ino].kind == s.v.inodes[ino].kind && (op.WriteOp? || op.TruncateOp?) && op.ino == ino
    requires op.TruncateOp? ==> s'.v.inodes[ino] == s.v.inodes[ino].(size := 0)
    ensures KindsKept(op, s, s') && TidyKept(op, s, s')
  {
    forall i | 0 <= i < INODE_COUNT ensures KindKept(op, s, s', i) {
    }
    if Tidy(s.v) {
      assert s.v.inodes[ino].kind == T_FREE ==> Blank(s.v, ino);
      if !StoresFreed(op, s, s') {
        forall i | 0 <= i < INODE_COUNT && s'.v.inodes[i].kind == T_FREE ensures Blank(s'.v, i) {
          assert Blank(s.v, i);
        }
      } else {
        assert !Blank(s'.v, ino);
      }
    }
  }

  lemma InPlaceReach(s: State, s': State, ino: nat)
    requires |s.v.inodes| == |s'.v.inodes| == INODE_COUNT && ino < INODE_COUNT && OthersSame(s.v, s'.v, ino)
    requires s'.v.inodes[ino].kind == s.v.inodes[ino].kind && s'.g.links == s.g.links
    ensures AllReachable(s'.v, s'.g.links) <==> AllReachable(s.v, s.g.links)
  {
    assert forall i :: LiveNode(s'.v, i) <==> LiveNode(s.v, i);
  }

  /** A write through inode number `ino`: the file that has this number changes, wherever it is. A free
      number is in no directory, so no path changes. */
  lemma WriteDoes(s: State, s': State, ino: nat, offset: nat, data: seq<u8>, done: nat)
    requires InPlace(s, s', ino) && DoneOk(WriteOp(ino, offset, data), s', done) && done <= |data|
    requires WroteFile(s.v, s'.v, ino, offset, data[..done])
    requires IsDir(s.v, ino) ==> Untouched(s.v, s'.v, ino)
    ensures Does(WriteOp(ino, offset, data), s, s')
  {
    var op := WriteOp(ino, offset, data);
    WriteTree(s.v, s.g.links, s'.v, ino, offset, data[..done]);
    DoesRefine(op, s, s', done);
    InPlaceKinds(op, s, s', ino);
    InPlaceReach(s, s', ino);
  }

  lemma WriteTree(v: Vol, links: Links, v': Vol, ino: nat, offset: nat, d: seq<u8>)
    requires Live(v, links) && |v'.inodes| == INODE_COUNT && ino < INODE_COUNT && OthersSame(v, v', ino)
    requires WroteFile(v, v', ino, offset, d) && (IsDir(v, ino) ==> Untouched(v, v', ino))
    ensures TreeOf(v', links) == WrittenTree(TreeOf(v, links), ino, offset, d)
  {
    var t, t' := WrittenTree(TreeOf(v, links), ino, offset, d), TreeOf(v', links);
    ChangedThing(v, v', ino, offset, d);
    forall q ensures Get(t', q) == Get(t, q) {
      ChangedGet(v, links, v', ino, q);
    }
    SameTree(t', t);
  }

  /** The path with number `ino` shows the changed thing. */
  lemma ChangedGet(v: Vol, links: Links, v': Vol, ino: nat, q: seq<Name>)
    requires Live(v, links) && |v'.inodes| == INODE_COUNT && ino < INODE_COUNT && OthersSame(v, v', ino)
    ensures var t := TreeOf(v, links);
            Get(TreeOf(v', links), q) ==
            if q in t && t[q].ino == ino then Some(ThingOf(v', ino)) else Get(t, q)
    ensures var t := TreeOf(v, links);
            q in t && t[q].ino == ino ==> t[q] == ThingOf(v, ino)
  {
    ChangedLook(v, links, v', ino, q);
    LiveTree(v, links, q);
  }

  lemma ChangedThing(v: Vol, v': Vol, ino: nat, offset: nat, d: seq<u8>)
    requires ino < |v.inodes| == |v'.inodes| && WroteFile(v, v', ino, offset, d)
    requires IsDir(v, ino) ==> Untouched(v, v', ino)
    ensures ThingOf(v', ino) == if IsDir(v, ino) then ThingOf(v, ino) else Written(ThingOf(v, ino), offset, d)
  {
    if !IsDir(v, ino) {
      WrittenThing(v, v', ino, offset, d);
    }
  }

  lemma TruncateDoes(s: State, s': State, ino: nat)
    requires InPlace(s, s', ino) && s'.v.inodes[ino] == s.v.inodes[ino].(size := 0)
    requires forall pos: nat :: InoByte(s'.v, ino, pos) == InoByte(s.v, ino, pos)
    ensures Does(TruncateOp(ino), s, s')
  {
    TruncateTree(s.v, s.g.links, s'.v, ino);
    DoesRefine(TruncateOp(ino), s, s', 0);
    InPlaceKinds(TruncateOp(ino), s, s', ino);
    InPlaceReach(s, s', ino);
  }

  lemma TruncateTree(v: Vol, links: Links, v': Vol, ino: nat)
    requires Live(v, links) && |v'.inodes| == INODE_COUNT && ino < INODE_COUNT && OthersSame(v, v', ino)
    requires v'.inodes[ino] == v.inodes[ino].(size := 0)
    requires forall pos: nat :: InoByte(v', ino, pos) == InoByte(v, ino, pos)
    ensures TreeOf(v', links) == TruncatedTree(TreeOf(v, links), ino)
  {
    var t, t' := TruncatedTree(TreeOf(v, links), ino), TreeOf(v', links);
    if !IsDir(v, ino) {
      TruncatedThing(v, v', ino);
    }
    forall q ensures Get(t', q) == Get(t, q) {
      ChangedGet(v, links, v', ino, q);
    }
    SameTree(t', t);
  }

  // --- rename --------------------------------------------------------------------------------------------

  /** The destination file, if there was one, has left the map. */
  lemma DropDoes(v: Vol, g: Books, v1: Vol, g1: Books, dst: seq<u8>)
    requires Entries(v, g.links) && Live(v, g.links) && |v1.inodes| == INODE_COUNT
    requires Base(dst) != [] && Dropped(v, g, v1, g1, dst)
    requires Resolve(g.links, dst).Some? || Stored(dst) !in TreeOf(v, g.links)
    ensures TreeOf(v1, g1.links) == TreeOf(v, g.links) - {Stored(dst)}
    ensures AllReachable(v1, g1.links) <==> AllReachable(v, g.links)
  {
    if Resolve(g.links, dst).Some? {
      RemoveDoes(v, g, v1, g1, dst);
    } else {
      NothingToDrop(TreeOf(v, g.links), Stored(dst));
    }
  }

  lemma NothingToDrop(t: Tree, q: seq<Name>)
    requires q !in t
    ensures t - {q} == t
  {
  }

  /** What the tests of `rename` say about the map, when the new name can be added. */
  lemma RenameTests(v: Vol, links: Links, src: seq<u8>, dst: seq<u8>)
    requires Entries(v, links) && Live(v, links) && CanRename(v, links, src, dst)
    requires Resolve(links, src) != Resolve(links, dst)
    requires Resolve(links, dst).Some? || Linkable(links, ParentDir(v, links, dst).value, Base(dst))
    ensures var t := TreeOf(v, links);
            RenamePasses(t, src, dst) && (Resolve(links, dst).Some? || Stored(dst) !in t)
  {
    FolderIff(v, links, dst);
    LookResolved(v, links, src);
    LookResolved(v, links, dst);
    FileAtIff(v, links, dst);
    ResolveLast(v, links, dst);
    CompsParts(dst);
    LinkableIff(v, links, ParentComps(dst), Base(dst), ParentDir(v, links, dst).value);
  }

  /** A rename that the tests refuse, or of an entry to itself, does not pass on the map either. */
  lemma PassesOnlyIf(v: Vol, links: Links, src: seq<u8>, dst: seq<u8>)
    requires Live(v, links) && RenamePasses(TreeOf(v, links), src, dst)
    ensures CanRename(v, links, src, dst) && Resolve(links, src) != Resolve(links, dst)
  {
    FolderIff(v, links, dst);
    LookResolved(v, links, src);
    LookResolved(v, links, dst);
    FileAtIff(v, links, dst);
    if Resolve(links, src) == Resolve(links, dst) {
      UniquePath(EdgesOf(links), ROOT_INODE, Stored(src), Stored(dst));
    }
  }

  /** Room after the destination file has been dropped. */
  lemma RoomAfterDrop(v: Vol, g: Books, v1: Vol, g1: Books, dst: seq<u8>, dp: u32)
    requires FsOk(v, g) && Owns(v1, g1.owner) && Dropped(v, g, v1, g1, dst) && dp < INODE_COUNT
    requires ParentDir(v, g.links, dst) == Some(dp) && (Resolve(g.links, dst).Some? ==> IsFileAt(v, g.links, dst))
    ensures HasRoom(v1, dp) <==> DstRoom(v, g, dst)
  {
    if Resolve(g.links, dst).Some? {
      var dino := Resolve(g.links, dst).value;
      assert v1.inodes[dp] == v.inodes[dp];
      FullWithout(v, v1, g.owner, dino);
    }
  }

  lemma MoveDoes(v1: Vol, links1: Links, v': Vol, links': Links, src: seq<u8>, dst: seq<u8>, sp: nat, dp: nat)
    requires Live(v1, links1) && |v'.inodes| == INODE_COUNT && SameBut(v1, v', {sp, dp})
    requires BothDirs(v1, sp, dp) && BothDirs(v', sp, dp) && PathMoved(links1, links', Comps(src), Comps(dst))
    requires Stored(src) in TreeOf(v1, links1) && Stored(dst) !in TreeOf(v1, links1)
    ensures TreeOf(v', links') == MovedTree(TreeOf(v1, links1), Stored(src), Stored(dst))
    ensures AllReachable(v', links') <==> AllReachable(v1, links1) && !(Stored(src) < Stored(dst))
  {
    MovedTreeIs(v1, links1, v', links', Comps(src), Comps(dst), sp, dp);
    LiveTree(v1, links1, Stored(src));
    LiveTree(v1, links1, Stored(dst));
    MovedReach(v1, links1, v', links', Comps(src), Comps(dst), sp, dp,
        Walk(EdgesOf(links1), ROOT_INODE, Stored(src)).ino);
  }

  /** The two ways a rename past its tests can end. */
  lemma RenameTree(v: Vol, links: Links, v1: Vol, links1: Links, v': Vol, links': Links, src: seq<u8>, dst: seq<u8>,
                   sp: nat, dp: nat, ok: bool, n: nat)
    requires Live(v1, links1) && RenamePasses(TreeOf(v, links), src, dst)
    requires TreeOf(v1, links1) == TreeOf(v, links) - {Stored(dst)}
    requires AllReachable(v1, links1) <==> AllReachable(v, links)
    requires if ok then MovedOn(v1, links1, v', links', src, dst, sp, dp) else v' == v1 && links' == links1
    ensures var t, t' := TreeOf(v, links), TreeOf(v', links');
            && t' == After(RenameOp(src, dst), t, Env(n, ok, 0))
            && (AllReachable(v', links') <==> AllReachable(v, links) && !Detaches(RenameOp(src, dst), t, t'))
  {
    if ok {
      MoveDoes(v1, links1, v', links', src, dst, sp, dp);
    }
    RenameOnTree(TreeOf(v, links), TreeOf(v1, links1), TreeOf(v', links'), src, dst, ok, n);
  }

  lemma RenameOnTree(t: Tree, t1: Tree, t': Tree, src: seq<u8>, dst: seq<u8>, ok: bool, n: nat)
    requires RenamePasses(t, src, dst) && t1 == t - {Stored(dst)}
    requires t' == if ok then MovedTree(t1, Stored(src), Stored(dst)) else t1
    ensures t' == After(RenameOp(src, dst), t, Env(n, ok, 0))
    ensures Detaches(RenameOp(src, dst), t, t') <==> ok && Stored(src) < Stored(dst)
  {
    if ok && Stored(src) < Stored(dst) {
      assert MovedGet(t1, Stored(src), Stored(dst), Stored(src)) == None;
    }
  }

  /** The source has moved from the volume without the destination file. */
  ghost predicate MovedOn(
    v1: Vol, links1: Links, v': Vol, links': Links, src: seq<u8>, dst: seq<u8>, sp: nat, dp: nat)
  {
    && |v1.inodes| == |v'.inodes| == INODE_COUNT && SameBut(v1, v', {sp, dp})
    && BothDirs(v1, sp, dp) && BothDirs(v', sp, dp) && PathMoved(links1, links', Comps(src), Comps(dst))
  }

  lemma RenameEnds(v: Vol, g: Books, v1: Vol, g1: Books, v': Vol, g': Books, src: seq<u8>, dst: seq<u8>, ok: bool)
    requires |v.inodes| == |v'.inodes| == INODE_COUNT && Renaming(v, g, v1, g1, v', g', src, dst, ok)
    requires Linkable(g1.links, ParentDir(v, g.links, dst).value, Base(dst))
    ensures FsOk(v1, g1) && Dropped(v, g, v1, g1, dst)
    ensures var sp, dp := ParentDir(v, g.links, src), ParentDir(v, g.links, dst);
            && sp.Some? && dp.Some? && dp.value < INODE_COUNT && (ok <==> HasRoom(v1, dp.value))
            && if ok then MovedOn(v1, g1.links, v', g'.links, src, dst, sp.value, dp.value) else v' == v1 && g' == g1
  {
  }

  /** Kinds and free inodes after a drop and a move. */
  lemma RenameKinds(op: Op, s: State, v1: Vol, s': State, sp: nat, dp: nat)
    requires op.RenameOp? && |s.v.inodes| == |v1.inodes| == |s'.v.inodes| == INODE_COUNT
    requires var r := Resolve(s.g.links, op.dst);
             if r.Some? then r.value < INODE_COUNT && v1.inodes == s.v.inodes[r.value := NewInode(T_FREE, 0)]
             else v1.inodes == s.v.inodes
    requires s'.v.inodes == v1.inodes || (SameBut(v1, s'.v, {sp, dp}) && BothDirs(v1, sp, dp) && BothDirs(s'.v, sp, dp))
    ensures KindsKept(op, s, s') && TidyKept(op, s, s')
  {
    assert forall i :: 0 <= i < INODE_COUNT ==> KeptOrDir(v1, s'.v, i);
    forall i | 0 <= i < INODE_COUNT ensures KindKept(op, s, s', i) {
      assert KeptOrDir(v1, s'.v, i);
    }
    if Tidy(s.v) {
      forall i | 0 <= i < INODE_COUNT && s'.v.inodes[i].kind == T_FREE ensures Blank(s'.v, i) {
        assert KeptOrDir(v1, s'.v, i);
        assert s.v.inodes[i].kind == T_FREE ==> Blank(s.v, i);
      }
    }
  }

  predicate KeptOrDir(v: Vol, v': Vol, i: nat)
    requires i < |v.inodes| == |v'.inodes|
  {
    v'.inodes[i] == v.inodes[i] || (IsDir(v, i) && IsDir(v', i))
  }

  lemma RenameDoes(s: State, s1: State, s': State, src: seq<u8>, dst: seq<u8>, ok: bool)
    requires Ok(s) && Shape(s'.v) && CanRename(s.v, s.g.links, src, dst) && SameLost(s.g.owner, s'.g.owner)
    requires Resolve(s.g.links, src) != Resolve(s.g.links, dst)
    requires Renaming(s.v, s.g, s1.v, s1.g, s'.v, s'.g, src, dst, ok)
    requires Linkable(s1.g.links, ParentDir(s.v, s.g.links, dst).value, Base(dst))
    ensures Does(RenameOp(src, dst), s, s')
  {
    var sp, dp := ParentDir(s.v, s.g.links, src).value, ParentDir(s.v, s.g.links, dst).value;
    RenameEnds(s.v, s.g, s1.v, s1.g, s'.v, s'.g, src, dst, ok);
    RenameTests(s.v, s.g.links, src, dst);
    DropDoes(s.v, s.g, s1.v, s1.g, dst);
    RoomAfterDrop(s.v, s.g, s1.v, s1.g, dst, dp);
    RenameDone(s, s1, s', src, dst, sp, dp, ok);
  }

  lemma RenameDone(s: State, s1: State, s': State, src: seq<u8>, dst: seq<u8>, sp: nat, dp: nat, ok: bool)
    requires Shape(s.v) && |s1.v.inodes| == INODE_COUNT && Shape(s'.v) && SameLost(s.g.owner, s'.g.owner)
    requires Live(s1.v, s1.g.links) && Dropped(s.v, s.g, s1.v, s1.g, dst) && RenamePasses(TreeAt(s), src, dst)
    requires TreeAt(s1) == TreeAt(s) - {Stored(dst)} && (ok <==> DstRoom(s.v, s.g, dst))
    requires AllReachable(s1.v, s1.g.links) <==> AllReachable(s.v, s.g.links)
    requires if ok then MovedOn(s1.v, s1.g.links, s'.v, s'.g.links, src, dst, sp, dp) else s' == s1
    ensures Does(RenameOp(src, dst), s, s')
  {
    var op := RenameOp(src, dst);
    assert RoomFor(op, s) == ok && !Takes(op, s);
    assert LostKept(op, s, s');
    assert Refines(op, s, s') && ReachKept(op, s, s') by {
      RenameTree(s.v, s.g.links, s1.v, s1.g.links, s'.v, s'.g.links, src, dst, sp, dp, ok, NextFree(s.v));
      DoesRefine(op, s, s', 0);
    }
    DropKinds(s, s1, s', src, dst, sp, dp);
  }

  lemma DropKinds(s: State, s1: State, s': State, src: seq<u8>, dst: seq<u8>, sp: nat, dp: nat)
    requires |s.v.inodes| == |s1.v.inodes| == |s'.v.inodes| == INODE_COUNT && Dropped(s.v, s.g, s1.v, s1.g, dst)
    requires s'.v == s1.v || MovedOn(s1.v, s1.g.links, s'.v, s'.g.links, src, dst, sp, dp)
    ensures KindsKept(RenameOp(src, dst), s, s') && TidyKept(RenameOp(src, dst), s, s')
  {
    RenameKinds(RenameOp(src, dst), s, s1.v, s', sp, dp);
  }

  /** How a rename under a name that cannot be added ends. */
  lemma BadEnds(v: Vol, g: Books, v1: Vol, g1: Books, v': Vol, g': Books, src: seq<u8>, dst: seq<u8>, ok: bool)
    requires |v.inodes| == |v'.inodes| == INODE_COUNT && Renaming(v, g, v1, g1, v', g', src, dst, ok)
    requires !Linkable(g1.links, ParentDir(v, g.links, dst).value, Base(dst))
    ensures v1 == v && g1 == g && Resolve(g.links, dst).None?
    ensures var sp, dp := ParentDir(v, g.links, src), ParentDir(v, g.links, dst);
            && sp.Some? && dp.Some?
            && if ok
               then MovedBadly(v, g.links, v', g'.links,
                               (sp.value as nat, Pad(Base(src))), (dp.value as nat, Pad(Base(dst))))
               else v' == v && g' == g
  {
  }

  /** It is refused, or without effect because the name is cut to the old one, or the directories are broken. */
  lemma RenameBadly(s: State, s': State, src: seq<u8>, dst: seq<u8>, sp: u32, dp: u32)
    requires Ok(s) && Shape(s'.v) && CanRename(s.v, s.g.links, src, dst) && SameLost(s.g.owner, s'.g.owner)
    requires ParentDir(s.v, s.g.links, src) == Some(sp) && ParentDir(s.v, s.g.links, dst) == Some(dp)
    requires !Linkable(s.g.links, dp, Base(dst)) && Resolve(s.g.links, dst).None?
    requires s' == s || MovedBadly(s.v, s.g.links, s'.v, s'.g.links,
                                   (sp as nat, Pad(Base(src))), (dp as nat, Pad(Base(dst))))
    ensures if s' != s && Stored(src) != Stored(dst)
            then StoresClash(RenameOp(src, dst), TreeAt(s)) && NoLinks(s'.v)
            else Entries(s'.v, s'.g.links) && Live(s'.v, s'.g.links) && Does(RenameOp(src, dst), s, s')
  {
    BadNotPassing(s.v, s.g.links, src, dst, dp);
    if s' == s {
      NothingDone(RenameOp(src, dst), s);
    } else {
      SameEntry(s.v, s.g.links, src, dst);
      if Stored(src) == Stored(dst) {
        SameNameDoes(s, s', src, dst, sp as nat);
      }
    }
  }

  lemma BadNotPassing(v: Vol, links: Links, src: seq<u8>, dst: seq<u8>, dp: u32)
    requires Entries(v, links) && Live(v, links) && Base(dst) != [] && ParentDir(v, links, dst) == Some(dp)
    requires !Linkable(links, dp, Base(dst)) && Resolve(links, dst).None?
    ensures Clashes(TreeOf(v, links), Stored(dst), Base(dst)) && !RenamePasses(TreeOf(v, links), src, dst)
  {
    CompsParts(dst);
    ResolveLast(v, links, dst);
    LinkableIff(v, links, ParentComps(dst), Base(dst), dp);
  }

  /** The entry has changed its slot in directory `p`, and that is all. */
  lemma SameNameDoes(s: State, s': State, src: seq<u8>, dst: seq<u8>, p: nat)
    requires Shape(s.v) && Shape(s'.v) && SameLost(s.g.owner, s'.g.owner) && Resolve(s.g.links, dst).None?
    requires EdgesOf(s'.g.links) == EdgesOf(s.g.links) && SameBut(s.v, s'.v, {p}) && IsDir(s.v, p) && IsDir(s'.v, p)
    requires !RenamePasses(TreeAt(s), src, dst)
    ensures Does(RenameOp(src, dst), s, s')
  {
    SameEdges(s.v, s.g.links, s'.v, s'.g.links, p);
    DoesRefine(RenameOp(src, dst), s, s', 0);
    RenameKinds(RenameOp(src, dst), s, s.v, s', p, p);
  }

  /** Two paths are stored alike exactly when they end in the same entry of the same directory. */
  lemma SameEntry(v: Vol, links: Links, src: seq<u8>, dst: seq<u8>)
    requires Live(v, links) && Base(src) != [] && Base(dst) != []
    requires ParentDir(v, links, src).Some? && ParentDir(v, links, dst).Some?
    ensures Stored(src) == Stored(dst) <==>
            ParentDir(v, links, src) == ParentDir(v, links, dst) && Pad(Base(src)) == Pad(Base(dst))
  {
    var a, b := ParentComps(src), ParentComps(dst);
    CompsParts(src);
    CompsParts(dst);
    PadAllAppend(a, Base(src));
    PadAllAppend(b, Base(dst));
    WalkCompsIsWalk(links, ROOT_INODE, a);
    WalkCompsIsWalk(links, ROOT_INODE, b);
    if Stored(src) == Stored(dst) {
      assert PadAll(a) == Stored(src)[..|a|] && PadAll(b) == Stored(dst)[..|b|];
    }
    if ParentDir(v, links, src) == ParentDir(v, links, dst) {
      UniquePath(EdgesOf(links), ROOT_INODE, PadAll(a), PadAll(b));
    }
  }

  /** The same edges, and one directory stored differently: the same map. */
  lemma SameEdges(v: Vol, links: Links, v': Vol, links': Links, p: nat)
    requires |v.inodes| == |v'.inodes| == INODE_COUNT && EdgesOf(links') == EdgesOf(links) && SameBut(v, v', {p})
    requires IsDir(v, p) && IsDir(v', p)
    ensures TreeOf(v', links') == TreeOf(v, links) && (AllReachable(v', links') <==> AllReachable(v, links))
  {
    forall q: seq<Name> ensures Get(TreeOf(v', links'), q) == Get(TreeOf(v, links), q) {
      var r := Walk(EdgesOf(links), ROOT_INODE, q);
      if r.At? && r.ino < INODE_COUNT {
        SameOutside(v, v', {p}, r.ino);
      }
    }
    SameTree(TreeOf(v', links'), TreeOf(v, links));
    assert forall i :: LiveNode(v', i) <==> LiveNode(v, i);
  }

  /** A name that a lookup misses can be added exactly when it does not clash. */
  lemma LinkableIff(v: Vol, links: Links, dir: seq<seq<u8>>, name: seq<u8>, p: u32)
    requires Live(v, links) && WalkComps(links, ROOT_INODE, dir) == Some(p)
    ensures LookupIn(links, p, name).None? ==>
              (Linkable(links, p, name) <==> !Clashes(TreeOf(v, links), PadAll(dir + [name]), name))
    ensures Linkable(links, p, name) ==> PadAll(dir + [name]) !in TreeOf(v, links)
  {
    WalkCompsIsWalk(links, ROOT_INODE, dir);
    PadAllAppend(dir, name);
    WalkAppend(EdgesOf(links), ROOT_INODE, PadAll(dir), [Pad(name)]);
    LiveTree(v, links, PadAll(dir + [name]));
  }
}
