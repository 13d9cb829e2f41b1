/** Whole runs over a mounted volume (kernel/src/fs.rs): reads and writes through inode numbers, the absence
    of aliasing between paths, and what every sequence of calls keeps, starting from a freshly formatted
    volume. */
module FsRun {
  import opened Wrappers
  import opened DiskFormat
  import opened BlockStore
  import opened BlockMap
  import opened FileData
  import opened FsTree
  import opened Directory
  import opened DirUpdate
  import opened Paths
  import opened FileSystem
  import opened Rename
  import opened FsSpec
  import opened FsEffect

  // --- files by number ----------------------------------------------------------------------------------

  /** Byte `pos` of whatever the padded path `q` names. */
  ghost function PathByte(v: Vol, links: Links, q: seq<Name>, pos: nat): (r: Option<u8>) {
    var f := Walk(EdgesOf(links), ROOT_INODE, q);
    if f.At? && f.ino < |v.inodes| then InoByte(v, f.ino, pos) else None
  }

  /** No aliasing: changing one inode changes the bytes under the path that has its number, and that is at
      most one. */
  lemma NoAliasing(v: Vol, v': Vol, links: Links, ino: nat)
    requires Live(v, links) && |v'.inodes| == INODE_COUNT && OthersSame(v, v', ino)
    ensures forall q: seq<Name>, pos: nat :: Walk(EdgesOf(links), ROOT_INODE, q) != At(ino) ==>
              PathByte(v', links, q, pos) == PathByte(v, links, q, pos)
    ensures forall q, r :: Walk(EdgesOf(links), ROOT_INODE, q) == At(ino) == Walk(EdgesOf(links), ROOT_INODE, r) ==>
              q == r
  {
    forall q, r | Walk(EdgesOf(links), ROOT_INODE, q) == At(ino) == Walk(EdgesOf(links), ROOT_INODE, r)
      ensures q == r
    {
      UniquePath(EdgesOf(links), ROOT_INODE, q, r);
    }
  }

  /** `n` bytes from `offset` on lie inside the file, and there are fewer than `len` only at its end or at a
      hole. */
  ghost predicate ReadUpToHole(v: Vol, ino: nat, offset: nat, len: nat, n: nat)
    requires ino < |v.inodes|
  {
    && n <= len && (n > 0 ==> offset + n <= v.inodes[ino].size)
    && (n == len || offset + n >= v.inodes[ino].size || InoByte(v, ino, offset + n) == None)
  }

  /** `read_at` through any inode number: the requested range inside the inode's size, up to the first hole;
      if a path has this number, these are the bytes under it. */
  method ReadNumber(st: Store, ino: u32, offset: nat, len: nat, ghost g: Books) returns (out: seq<u8>)
    requires st.Valid() && FsOk(st.vol, g) && ino < INODE_COUNT
    modifies st`disk, st`vol, st.cache
    ensures st.Valid() && st.vol == old(st.vol) && ReadUpToHole(st.vol, ino, offset, len, |out|)
    ensures forall i :: 0 <= i < |out| ==> InoByte(st.vol, ino, offset + i) == Some(out[i])
    ensures forall q, i :: Walk(EdgesOf(g.links), ROOT_INODE, q) == At(ino) && 0 <= i < |out| ==>
              PathByte(st.vol, g.links, q, offset + i) == Some(out[i])
  {
    out := ReadAt(st, ino, offset, len, g.owner);
  }

  /** `write_at` through any inode number. Unless it is a directory that changes, the volume invariant is
      kept, and a tidy volume stays tidy if and only if the inode is not free or has not changed. */
  method WriteNumber(st: Store, ino: u32, offset: nat, data: seq<u8>, ghost g: Books)
    returns (done: nat, ghost g': Books)
    requires st.Valid() && FsOk(st.vol, g) && ino < INODE_COUNT
    modifies st`disk, st`vol, st.cache
    ensures st.Valid() && done <= |data| && InPlace(State(old(st.vol), g), State(st.vol, g'), ino)
    ensures WroteFile(old(st.vol), st.vol, ino, offset, data[..done])
    ensures done < |data| ==> (offset + done) / BLOCK_SIZE >= MAX_BLOCKS || Full(st.vol)
    ensures Fits(old(st.vol), old(st.vol).inodes[ino], offset, data) ==> done == |data|
    ensures !IsDir(old(st.vol), ino) || Untouched(old(st.vol), st.vol, ino) ==> FsOk(st.vol, g')
    ensures Tidy(old(st.vol)) ==>
              (Tidy(st.vol) <==>
               old(st.vol).inodes[ino].kind != T_FREE || st.vol.inodes[ino] == old(st.vol).inodes[ino])
    ensures old(st.vol).inodes[ino].kind == T_FREE && done > 0 ==> HoldsBlocks(g'.owner, ino)
    ensures forall q: seq<Name>, pos: nat :: Walk(EdgesOf(g.links), ROOT_INODE, q) != At(ino) ==>
              PathByte(st.vol, g.links, q, pos) == PathByte(old(st.vol), g.links, q, pos)
  {
    ghost var s := State(st.vol, g);
    ghost var owner';
    done, owner' := WriteAt(st, ino, offset, data, g.owner);
    assert |data[..done]| == done;
    g' := Books(owner', g.links);
    ghost var s' := State(st.vol, g');
    InPlaceKinds(WriteOp(ino, offset, data), s, s', ino);
    NoAliasing(s.v, s'.v, g.links, ino);
    if !IsDir(s.v, ino) || Untouched(s.v, s'.v, ino) {
      InPlaceOk(s, s', ino);
    }
    if done > 0 {
      StoredHolds(s.v, s'.v, owner', ino, offset, data[..done]);
    }
  }

  /** Bytes that were stored are in blocks of the inode. */
  lemma StoredHolds(v: Vol, v': Vol, owner': Owner, ino: nat, offset: nat, d: seq<u8>)
    requires ino < INODE_COUNT == |v.inodes| && Owns(v', owner') && Wrote(v, v', ino, offset, d) && d != []
    ensures HoldsBlocks(owner', ino)
  {
    assert WroteAt(v, v', ino, offset, d, offset);
    var k := Key(ino, DataAddr(offset / BLOCK_SIZE));
    assert KeyPtr(v', k) in owner' && owner'[KeyPtr(v', k)] == k;
  }

  /** `truncate` through any inode number. */
  method TruncateNumber(st: Store, ino: u32, ghost g: Books)
    requires st.Valid() && FsOk(st.vol, g) && ino < INODE_COUNT
    modifies st`disk, st`vol, st.cache
    ensures st.Valid() && InPlace(State(old(st.vol), g), State(st.vol, g), ino)
    ensures st.vol.inodes[ino] == old(st.vol).inodes[ino].(size := 0)
    ensures forall i, pos: nat :: 0 <= i < INODE_COUNT ==> InoByte(st.vol, i, pos) == InoByte(old(st.vol), i, pos)
    ensures !IsDir(old(st.vol), ino) || old(st.vol).inodes[ino].size == 0 ==> FsOk(st.vol, g)
    ensures Tidy(old(st.vol)) ==> Tidy(st.vol)
  {
    ghost var s := State(st.vol, g);
    Truncate(st, ino, g.owner);
    ghost var s' := State(st.vol, g);
    InPlaceKinds(TruncateOp(ino), s, s', ino);
    if !IsDir(s.v, ino) || s.v.inodes[ino].size == 0 {
      InPlaceOk(s, s', ino);
    }
  }

  /** `write_file` through any inode number that is not a directory's: truncates and writes from the start; on
      success the contents are exactly `data`. */
  method WriteFile(st: Store, ino: u32, data: seq<u8>, ghost g: Books) returns (ok: bool, ghost g': Books)
    requires st.Valid() && FsOk(st.vol, g) && ino < INODE_COUNT
    modifies st`disk, st`vol, st.cache
    ensures st.Valid() && InPlace(State(old(st.vol), g), State(st.vol, g'), ino)
    ensures !IsDir(old(st.vol), ino) ==> FsOk(st.vol, g')
    ensures ok ==> st.vol.inodes[ino].size == |data|
    ensures ok ==> forall pos: nat :: pos < |data| ==> InoByte(st.vol, ino, pos) == Some(data[pos])
    ensures !ok ==> |data| > MAX_BLOCKS * BLOCK_SIZE || Full(st.vol)
  {
    ghost var v := st.vol;
    Truncate(st, ino, g.owner);
    ghost var v1 := st.vol;
    var done;
    ghost var owner';
    done, owner' := WriteAt(st, ino, 0, data, g.owner);
    g' := Books(owner', g.links);
    ok := done == |data|;
    OthersTrans(v, v1, st.vol, ino);
    if !IsDir(v, ino) {
      InPlaceOk(State(v, g), State(st.vol, g'), ino);
    }
    if ok {
      WroteWhole(v1, st.vol, ino, data, done);
    }
  }

  lemma OthersTrans(v: Vol, v1: Vol, v2: Vol, ino: nat)
    requires |v.inodes| == |v1.inodes| == |v2.inodes| && OthersSame(v, v1, ino) && OthersSame(v1, v2, ino)
    ensures OthersSame(v, v2, ino)
  {
  }

  lemma WroteWhole(v: Vol, v': Vol, ino: nat, data: seq<u8>, done: nat)
    requires ino < |v.inodes| == |v'.inodes| && done == |data| && Wrote(v, v', ino, 0, data[..done])
    requires var size := v.inodes[ino].size;
             size == 0 && v'.inodes[ino].size == if 0 + done > size then U32(0 + done) else size
    ensures forall pos: nat :: pos < |data| ==> InoByte(v', ino, pos) == Some(data[pos])
    ensures v'.inodes[ino].size == |data|
  {
    assert data[..done] == data;
    forall pos: nat | pos < |data| ensures InoByte(v', ino, pos) == Some(data[pos]) {
      assert WroteAt(v, v', ino, 0, data, pos);
    }
    if |data| > 0 {
      assert InoByte(v', ino, |data| - 1).Some?;
      assert |data| <= MAX_BLOCKS * BLOCK_SIZE;
    }
  }

  // --- single calls ---------------------------------------------------------------------------------------

  /** One call keeps the volume invariant and acts on the map as stated. */
  ghost predicate Steps(op: Op, s: State, s': State) { Ok(s') && Does(op, s, s') }

  /** Or it stores a name that is not told from others, and leaves directories without consistent links; or it
      changes a directory through its number. */
  ghost predicate Ends(op: Op, s: State, s': State, broke: bool) {
    if !broke then Steps(op, s, s')
    else if HitsDir(op, s) then InPlace(s, s', op.ino) && !Untouched(s.v, s'.v, op.ino)
    else StoresClash(op, TreeAt(s)) && Owns(s'.v, s'.g.owner) && NoLinks(s'.v)
  }

  method CreateStep(st: Store, name: seq<u8>, ghost g: Books) returns (ghost broke: bool, ghost g': Books)
    requires st.Valid() && FsOk(st.vol, g)
    modifies st`disk, st`vol, st.cache
    ensures st.Valid() && Ends(CreateOp(name), State(old(st.vol), g), State(st.vol, g'), broke)
  {
    ghost var s := State(st.vol, g);
    var r;
    r, g' := Create(st, name, g);
    ghost var s' := State(st.vol, g');
    broke := r.Some? && !Linkable(g.links, ROOT_INODE, name);
    if LookupIn(g.links, ROOT_INODE, name).Some? {
      CreateRefused(s, name);
    } else {
      RootLinkable(s.v, g.links, name);
      if r.None? {
        UndoneDoes(CreateOp(name), s, s');
      } else if !broke {
        FreshRoot(g.links, name);
        CreateDoes(s, s', name);
      }
    }
  }

  lemma CreateRefused(s: State, name: seq<u8>)
    requires Ok(s) && LookupIn(s.g.links, ROOT_INODE, name).Some?
    ensures Does(CreateOp(name), s, s)
  {
    RootPath(s.v, s.g.links, name);
    NothingNew(s, name, NextFree(s.v), RoomFor(CreateOp(name), s));
    NothingDone(CreateOp(name), s);
  }

  lemma NothingNew(s: State, name: seq<u8>, next: nat, room: bool)
    requires [Pad(name)] in TreeAt(s)
    ensures After(CreateOp(name), TreeAt(s), Env(next, room, 0)) == TreeAt(s)
  {
  }

  lemma RootPath(v: Vol, links: Links, name: seq<u8>)
    requires Live(v, links) && LookupIn(links, ROOT_INODE, name).Some?
    ensures [Pad(name)] in TreeOf(v, links)
  {
    assert [] + [name] == [name] && PadAll([name]) == [Pad(name)];
    LinkedPath(v, links, [], name, ROOT_INODE);
  }

  /** An entry of a directory that a path names is a path. */
  lemma LinkedPath(v: Vol, links: Links, dir: seq<seq<u8>>, name: seq<u8>, p: u32)
    requires Live(v, links) && WalkComps(links, ROOT_INODE, dir) == Some(p) && LookupIn(links, p, name).Some?
    ensures PadAll(dir + [name]) in TreeOf(v, links)
  {
    WalkCompsIsWalk(links, ROOT_INODE, dir);
    PadAllAppend(dir, name);
    WalkAppend(EdgesOf(links), ROOT_INODE, PadAll(dir), [Pad(name)]);
    LiveTree(v, links, PadAll(dir + [name]));
  }

  lemma FreshRoot(links: Links, name: seq<u8>)
    requires (ROOT_INODE as nat, Pad(name)) !in links
    ensures Walk(EdgesOf(links), ROOT_INODE, PadAll([name])) == Missing
  {
    assert [] + [name] == [name];
    FreshPath(links, [], name, ROOT_INODE);
  }

  lemma RootLinkable(v: Vol, links: Links, name: seq<u8>)
    requires Live(v, links) && LookupIn(links, ROOT_INODE, name).None?
    ensures Linkable(links, ROOT_INODE, name) <==> !Clashes(TreeOf(v, links), [Pad(name)], name)
  {
    assert [] + [name] == [name] && PadAll([name]) == [Pad(name)];
    LinkableIff(v, links, [], name, ROOT_INODE);
  }

  method MkdirStep(st: Store, path: seq<u8>, ghost g: Books) returns (ghost broke: bool, ghost g': Books)
    requires st.Valid() && FsOk(st.vol, g)
    modifies st`disk, st`vol, st.cache
    ensures st.Valid() && Ends(MkdirOp(path), State(old(st.vol), g), State(st.vol, g'), broke)
  {
    ghost var s := State(st.vol, g);
    var ok;
    ghost var c;
    ok, c, g' := Mkdir(st, path, g);
    ghost var s' := State(st.vol, g');
    broke := false;
    if !CanMkdir(s.v, g.links, path) {
      MkdirRefused(s, path);
    } else if !ok {
      UndoneDoes(MkdirOp(path), s, s');
    } else {
      ghost var p := ParentDir(s.v, g.links, path).value;
      MkdirLinkable(s.v, g.links, path, p);
      broke := !Linkable(g.links, p, Base(path));
      if !broke {
        MkdirDoes(s, s', path, p);
      }
    }
  }

  lemma MkdirRefused(s: State, path: seq<u8>)
    requires Ok(s) && !CanMkdir(s.v, s.g.links, path)
    ensures Does(MkdirOp(path), s, s)
  {
    FolderIff(s.v, s.g.links, path);
    LookResolved(s.v, s.g.links, path);
    NothingDone(MkdirOp(path), s);
  }

  lemma MkdirLinkable(v: Vol, links: Links, path: seq<u8>, p: u32)
    requires Entries(v, links) && Live(v, links) && CanMkdir(v, links, path) && ParentDir(v, links, path) == Some(p)
    ensures Linkable(links, p, Base(path)) <==> !Clashes(TreeOf(v, links), Stored(path), Base(path))
    ensures Linkable(links, p, Base(path)) ==> Walk(EdgesOf(links), ROOT_INODE, Stored(path)) == Missing
  {
    ResolveLast(v, links, path);
    CompsParts(path);
    LinkableIff(v, links, ParentComps(path), Base(path), p);
    if Linkable(links, p, Base(path)) {
      FreshPath(links, ParentComps(path), Base(path), p);
    }
  }

  method UnlinkStep(st: Store, path: seq<u8>, ghost g: Books) returns (ghost g': Books)
    requires st.Valid() && FsOk(st.vol, g)
    modifies st`disk, st`vol, st.cache
    ensures st.Valid() && Steps(UnlinkOp(path), State(old(st.vol), g), State(st.vol, g'))
  {
    ghost var v := st.vol;
    var ok;
    ok, g' := Unlink(st, path, g);
    UnlinkDoes(State(v, g), State(st.vol, g'), path, ok);
  }

  method RmdirStep(st: Store, path: seq<u8>, ghost g: Books) returns (ghost g': Books)
    requires st.Valid() && FsOk(st.vol, g)
    modifies st`disk, st`vol, st.cache
    ensures st.Valid() && Steps(RmdirOp(path), State(old(st.vol), g), State(st.vol, g'))
  {
    ghost var v := st.vol;
    var ok;
    ok, g' := Rmdir(st, path, g);
    RmdirDoes(State(v, g), State(st.vol, g'), path, ok);
  }

  method RenameStep(st: Store, src: seq<u8>, dst: seq<u8>, ghost g: Books) returns (ghost broke: bool, ghost g': Books)
    requires st.Valid() && FsOk(st.vol, g)
    modifies st`disk, st`vol, st.cache
    ensures st.Valid() && Ends(RenameOp(src, dst), State(old(st.vol), g), State(st.vol, g'), broke)
  {
    ghost var s := State(st.vol, g);
    var ok;
    ghost var v1, g1;
    ok, g', v1, g1 := RenamePath(st, src, dst, g);
    ghost var s' := State(st.vol, g');
    broke := false;
    if CanRename(s.v, g.links, src, dst) && Resolve(g.links, src) != Resolve(g.links, dst) {
      assert Renaming(s.v, g, v1, g1, st.vol, g', src, dst, ok);
      broke := RenameDone(s, State(v1, g1), s', src, dst, ok);
    } else {
      RenameRefused(s, src, dst);
    }
  }

  lemma RenameDone(s: State, s1: State, s': State, src: seq<u8>, dst: seq<u8>, ok: bool) returns (broke: bool)
    requires Ok(s) && Owns(s'.v, s'.g.owner) && SameLost(s.g.owner, s'.g.owner)
    requires CanRename(s.v, s.g.links, src, dst) && Resolve(s.g.links, src) != Resolve(s.g.links, dst)
    requires Renaming(s.v, s.g, s1.v, s1.g, s'.v, s'.g, src, dst, ok)
    ensures Ends(RenameOp(src, dst), s, s', broke)
  {
    var sp, dp := ParentDir(s.v, s.g.links, src).value, ParentDir(s.v, s.g.links, dst).value;
    broke := false;
    if Linkable(s1.g.links, dp, Base(dst)) {
      LinkableOk(s, s1, s', src, dst, ok);
      RenameDoes(s, s1, s', src, dst, ok);
    } else {
      BadEnds(s.v, s.g, s1.v, s1.g, s'.v, s'.g, src, dst, ok);
      broke := s' != s && Stored(src) != Stored(dst);
      RenameBadly(s, s', src, dst, sp, dp);
    }
  }

  lemma LinkableOk(s: State, s1: State, s': State, src: seq<u8>, dst: seq<u8>, ok: bool)
    requires |s.v.inodes| == |s'.v.inodes| == INODE_COUNT
    requires Renaming(s.v, s.g, s1.v, s1.g, s'.v, s'.g, src, dst, ok)
    requires Linkable(s1.g.links, ParentDir(s.v, s.g.links, dst).value, Base(dst))
    ensures Ok(s')
  {
  }

  lemma RenameRefused(s: State, src: seq<u8>, dst: seq<u8>)
    requires Ok(s)
    requires !(CanRename(s.v, s.g.links, src, dst) && Resolve(s.g.links, src) != Resolve(s.g.links, dst))
    ensures Does(RenameOp(src, dst), s, s)
  {
    if RenamePasses(TreeAt(s), src, dst) {
      PassesOnlyIf(s.v, s.g.links, src, dst);
    }
    NothingDone(RenameOp(src, dst), s);
  }

  method WriteStep(st: Store, ino: u32, offset: nat, data: seq<u8>, ghost g: Books)
    returns (ghost broke: bool, ghost g': Books)
    requires st.Valid() && FsOk(st.vol, g) && ino < INODE_COUNT
    modifies st`disk, st`vol, st.cache
    ensures st.Valid() && Ends(WriteOp(ino, offset, data), State(old(st.vol), g), State(st.vol, g'), broke)
  {
    ghost var s := State(st.vol, g);
    var done;
    done, g' := WriteNumber(st, ino, offset, data, g);
    ghost var s' := State(st.vol, g');
    broke := IsDir(s.v, ino) && !Untouched(s.v, s'.v, ino);
    if !broke {
      WriteDoes(s, s', ino, offset, data, done);
    }
  }

  method TruncateStep(st: Store, ino: u32, ghost g: Books) returns (ghost broke: bool)
    requires st.Valid() && FsOk(st.vol, g) && ino < INODE_COUNT
    modifies st`disk, st`vol, st.cache
    ensures st.Valid() && Ends(TruncateOp(ino), State(old(st.vol), g), State(st.vol, g), broke)
  {
    ghost var s := State(st.vol, g);
    TruncateNumber(st, ino, g);
    ghost var s' := State(st.vol, g);
    broke := IsDir(s.v, ino) && !Untouched(s.v, s'.v, ino);
    if !broke {
      TruncateDoes(s, s', ino);
    }
  }

  /** Every inode number of the call is one of the table's. */
  predicate InTable(op: Op) { op.WriteOp? || op.TruncateOp? || op.ReadOp? ==> op.ino < INODE_COUNT }

  /** One call, whether it succeeds or fails, with any names and any inode numbers. */
  method Step(st: Store, op: Op, ghost g: Books) returns (ghost broke: bool, ghost g': Books)
    requires st.Valid() && FsOk(st.vol, g) && InTable(op)
    modifies st`disk, st`vol, st.cache
    ensures st.Valid() && Ends(op, State(old(st.vol), g), State(st.vol, g'), broke)
  {
    broke, g' := false, g;
    match op {
      case CreateOp(name) => broke, g' := CreateStep(st, name, g);
      case MkdirOp(path) => broke, g' := MkdirStep(st, path, g);
      case UnlinkOp(path) => g' := UnlinkStep(st, path, g);
      case RmdirOp(path) => g' := RmdirStep(st, path, g);
      case RenameOp(src, dst) => broke, g' := RenameStep(st, src, dst, g);
      case WriteOp(ino, offset, data) => broke, g' := WriteStep(st, ino, offset, data, g);
      case TruncateOp(ino) => broke := TruncateStep(st, ino, g);
      case ReadOp(ino, offset, len) =>
        ghost var s := State(st.vol, g);
        var _ := ReadNumber(st, ino, offset, len, g);
        NothingDone(op, s);
    }
  }
}
