/** Where the filesystem of kernel/src/fs.rs departs from the simple picture of a path tree over byte
    arrays: exactly when it does, and an input on which it does. */
module FsLimits {
  import opened Wrappers
  import opened DiskFormat
  import opened BlockStore
  import opened BlockMap
  import opened BlockFree
  import opened FileData
  import opened Directory
  import opened Paths
  import opened FileSystem
  import opened Rename
  import opened FsEffect
  import opened FsRun

  /** `lookup` finds what `dir_link` stored if and only if the name fits the 28-byte field: a longer
      name is stored cut off and never found again, so it can be created twice. */
  lemma LookupFindsStored(name: seq<u8>, ino: u32)
    requires ino != 0
    ensures Matches(ByName(name), Dirent(Pad(name), ino)) <==> |name| <= NAME_LEN
  {
  }

  predicate ZeroOrNone(b: Option<u8>) { b == None || b == Some(0) }

  /** `truncate` keeps the blocks, so after a truncate and a write further on, the gap before the
      write reads as zeros (or stops the read) if and only if the old contents there did. */
  lemma GapAfterTruncate(v: Vol, v1: Vol, v2: Vol, ino: nat, offset: nat, data: seq<u8>)
    requires ino < |v.inodes| == |v1.inodes| == |v2.inodes|
    requires forall pos: nat :: InoByte(v1, ino, pos) == InoByte(v, ino, pos)
    requires Wrote(v1, v2, ino, offset, data)
    ensures forall pos: nat :: pos < offset ==>
              (ZeroOrNone(InoByte(v2, ino, pos)) <==> ZeroOrNone(InoByte(v, ino, pos)))
  {
    forall pos: nat | pos < offset ensures ZeroOrNone(InoByte(v2, ino, pos)) <==> ZeroOrNone(InoByte(v, ino, pos)) {
      assert WroteAt(v1, v2, ino, offset, data, pos);
    }
  }

  /** The calls, through any inode number: the gap is zero afterwards if and only if it was before. */
  method TruncateThenWrite(st: Store, ino: u32, offset: nat, data: seq<u8>, ghost owner: Owner)
    returns (done: nat, ghost owner': Owner)
    requires st.Valid() && Owns(st.vol, owner) && ino < INODE_COUNT
    modifies st`disk, st`vol, st.cache
    ensures st.Valid() && Owns(st.vol, owner')
    ensures forall pos: nat :: pos < offset ==>
              (ZeroOrNone(InoByte(st.vol, ino, pos)) <==> ZeroOrNone(InoByte(old(st.vol), ino, pos)))
  {
    ghost var v := st.vol;
    Truncate(st, ino, owner);
    ghost var v1 := st.vol;
    done, owner' := WriteAt(st, ino, offset, data, owner);
    GapAfterTruncate(v, v1, st.vol, ino, offset, data[..done]);
  }

  /** A file whose first two bytes read as `out`, up to its size or a hole. */
  ghost predicate ReadsAs(v: Vol, ino: nat, out: seq<u8>)
    requires ino < |v.inodes|
  {
    && ReadUpToHole(v, ino, 0, 2, |out|)
    && forall i :: 0 <= i < |out| ==> InoByte(v, ino, i) == Some(out[i])
  }

  /** Write the byte 7, truncate, write the byte 9 at offset 1: the file then reads 7, 9. */
  method GapExample(st: Store, ino: u32, ghost owner: Owner) returns (out: seq<u8>)
    requires st.Valid() && Owns(st.vol, owner) && ino < INODE_COUNT && st.vol.inodes[ino] == NewInode(T_FILE, 1)
    requires !Full(st.vol)
    modifies st`disk, st`vol, st.cache
    ensures st.Valid() && out == [7, 9]
  {
    ghost var v0, o1, o2 := st.vol, owner, owner;
    var first, second;
    first, o1 := WriteAt(st, ino, 0, [7], owner);
    assert [7][..first] == [7];
    ghost var v := st.vol;
    Mapped(v0, v, ino);
    Truncate(st, ino, o1);
    ghost var v1 := st.vol;
    second, o2 := WriteAt(st, ino, 1, [9], o1);
    assert [9][..second] == [9];
    out := ReadAt(st, ino, 0, 2, o2);
    assert ReadsAs(st.vol, ino, out);
    ReadsBack(v0, v, v1, st.vol, ino, out);
  }

  lemma Mapped(v0: Vol, v: Vol, ino: nat)
    requires ino < |v0.inodes| == |v.inodes| && Wrote(v0, v, ino, 0, [7])
    ensures v.inodes[ino].direct[0] != 0
  {
    assert WroteAt(v0, v, ino, 0, [7], 0);
  }

  lemma ReadsBack(v0: Vol, v: Vol, v1: Vol, v2: Vol, ino: nat, out: seq<u8>)
    requires ino < |v0.inodes| == |v.inodes| == |v1.inodes| == |v2.inodes| && Wrote(v0, v, ino, 0, [7])
    requires (forall pos: nat :: InoByte(v1, ino, pos) == InoByte(v, ino, pos)) && Wrote(v1, v2, ino, 1, [9])
    requires v2.inodes[ino].size == 2 && ReadsAs(v2, ino, out)
    ensures out == [7, 9]
  {
    assert WroteAt(v0, v, ino, 0, [7], 0);
    assert WroteAt(v1, v2, ino, 1, [9], 0) && WroteAt(v1, v2, ino, 1, [9], 1);
  }

  /** A rename over an existing file fails, and loses that file, if and only if there is no room: the directory
      that holds `dst` has used its 28 blocks, or it needs a new block while the disk is full and the file at
      `dst` holds no block that could be given back. */
  lemma RenameLosesFile(v: Vol, g: Books, v1: Vol, g1: Books, v': Vol, g': Books, src: seq<u8>, dst: seq<u8>, ok: bool)
    requires FsOk(v, g) && |v'.inodes| == INODE_COUNT && IsFileAt(v, g.links, dst)
    requires Renaming(v, g, v1, g1, v', g', src, dst, ok)
    ensures !ok <==> !DstRoom(v, g, dst)
    ensures !ok ==> PathRemoved(g.links, g'.links, Comps(dst))
    ensures !ok ==> g'.owner == Without(g.owner, Resolve(g.links, dst).value)
  {
    RoomAfterDrop(v, g, v1, g1, dst, ParentDir(v, g.links, dst).value);
  }

  // --- a rename that loses a file ------------------------------------------------------------

  const A: seq<u8> := [97]
  const B: seq<u8> := [98]

  /** The one block of the root directory: entries "a" and "b", the other 14 slots blank. */
  function TightBlock(): (r: Block) { PutDirent(PutDirent(ZeroBlock(), 0, A, 2), DIRENT_SIZE, B, 3) }

  function TightRoot(): (n: Inode) { Inode(T_DIR, 1, BLOCK_SIZE, NewInode(T_DIR, 1).direct[0 := 34], 0, 0) }

  /** A volume of 35 blocks with one data block, which the root directory fills; "a" and "b" are empty
      files. */
  ghost predicate Tight(v: Vol) {
    && v.l == Layout(35, 1, 2, 34) && Shape(v)
    && v.used[34] && v.data[34] == TightBlock() && v.inodes[1] == TightRoot()
    && v.inodes[2] == v.inodes[3] == NewInode(T_FILE, 1)
    && forall i :: 0 <= i < INODE_COUNT && !(1 <= i <= 3) ==> v.inodes[i] == NewInode(T_FREE, 0)
  }

  function TightInodes(): (r: seq<Inode>)
    ensures |r| == INODE_COUNT && r[1] == TightRoot() && r[2] == r[3] == NewInode(T_FILE, 1)
    ensures forall i :: 0 <= i < INODE_COUNT && !(1 <= i <= 3) ==> r[i] == NewInode(T_FREE, 0)
  {
    [NewInode(T_FREE, 0), TightRoot(), NewInode(T_FILE, 1), NewInode(T_FILE, 1)]
    + seq(INODE_COUNT - 4, i => NewInode(T_FREE, 0))
  }

  function TightVol(): (v: Vol)
    ensures Tight(v)
  {
    Vol(LayoutFor(35), seq(35, b => b == 34), TightInodes(), seq(34, b => ZeroBlock()) + [TightBlock()])
  }

  function TightOwner(): (owner: Owner) { map[34 := Key(ROOT_INODE, Direct(0))] }

  function TightLinks(): (links: Links)
    ensures (1, Pad(A)) in links && links[(1, Pad(A))] == Link(0, 2)
    ensures (1, Pad(B)) in links && links[(1, Pad(B))] == Link(1, 3)
    ensures forall e :: e in links ==> e == (1, Pad(A)) || e == (1, Pad(B))
  {
    assert Pad(A)[0] != Pad(B)[0];
    map[(1, Pad(A)) := Link(0, 2), (1, Pad(B)) := Link(1, 3)]
  }

  lemma TightOwns(v: Vol)
    requires Tight(v)
    ensures Owns(v, TightOwner()) && Full(v)
  {
  }

  lemma TightEntry(k: nat)
    requires k < DIRENTS_PER_BLOCK
    ensures var e := DirentAt(TightBlock(), k * DIRENT_SIZE);
            if k == 0 then e == Dirent(Pad(A), 2) else if k == 1 then e == Dirent(Pad(B), 3) else e.ino == 0
  {
  }

  lemma TightEntries(v: Vol)
    requires Tight(v)
    ensures Entries(v, TightLinks())
  {
    assert Padded(Pad(A)) && Padded(Pad(B));
    assert DirOk(v.inodes[1]) && Count(v.inodes[1]) == DIRENTS_PER_BLOCK;
    TightSlot(v, 0);
    TightSlot(v, 1);
    forall d, k | 0 <= d < INODE_COUNT && IsDir(v, d) && 0 <= k < Count(v.inodes[d]) <= MAX_ENTRIES
      ensures LiveEntryLinked(v, TightLinks(), d, k)
    {
      TightSlot(v, k);
    }
  }

  lemma TightSlot(v: Vol, k: nat)
    requires Tight(v) && k < DIRENTS_PER_BLOCK
    ensures var e := Entry(v, v.inodes[1], k);
            if k == 0 then e == Dirent(Pad(A), 2) else if k == 1 then e == Dirent(Pad(B), 3) else e.ino == 0
  {
    TightEntry(k);
  }

  lemma TightLive(v: Vol)
    requires Tight(v)
    ensures Live(v, TightLinks())
  {
  }

  lemma TightPath(v: Vol, name: seq<u8>)
    requires Tight(v) && (name == A || name == B)
    ensures Base(name) == name && Comps(name) == [name] && ParentDir(v, TightLinks(), name) == Some(1)
    ensures Resolve(TightLinks(), name) == Some(if name == A then 2 else 3)
  {
  }

  /** Renaming "a" to "b" there drops "b" and then finds no room for the new entry: the call fails, and
      "b" is gone. */
  method RenameLossExample(st: Store) returns (ok: bool, ghost g': Books)
    requires st.Valid() && st.vol == TightVol()
    modifies st`disk, st`vol, st.cache
    ensures st.Valid() && !ok && PathRemoved(TightLinks(), g'.links, [B])
  {
    ghost var v := st.vol;
    ghost var g := Books(TightOwner(), TightLinks());
    TightState(v);
    ghost var v1, g1;
    ok, g', v1, g1 := RenamePath(st, A, B, g);
    assert Renaming(v, g, v1, g1, st.vol, g', A, B, ok);
    RenameLosesFile(v, g, v1, g1, st.vol, g', A, B, ok);
  }

  lemma TightState(v: Vol)
    requires Tight(v)
    ensures FsOk(v, Books(TightOwner(), TightLinks())) && CanRename(v, TightLinks(), A, B)
            && IsFileAt(v, TightLinks(), B) && Resolve(TightLinks(), A) != Resolve(TightLinks(), B)
    ensures Comps(B) == [B] && !DstRoom(v, Books(TightOwner(), TightLinks()), B)
  {
    assert Owns(v, TightOwner()) by {
      TightOwns(v);
    }
    assert Entries(v, TightLinks()) by {
      TightEntries(v);
    }
    assert Live(v, TightLinks()) by {
      TightLive(v);
    }
    assert !DstRoom(v, Books(TightOwner(), TightLinks()), B) by {
      TightNoRoom(v);
    }
    TightPath(v, A);
    TightPath(v, B);
  }

  lemma TightNoRoom(v: Vol)
    requires Tight(v)
    ensures !DstRoom(v, Books(TightOwner(), TightLinks()), B)
  {
    TightPath(v, B);
    assert v.inodes[1].size / BLOCK_SIZE == 1 && v.inodes[1].direct[1] == 0;
  }
}
