/** `rename` of kernel/src/fs.rs: the destination file is dropped first, then the inode is linked
    under the new name and unlinked from the old one. */
module Rename {
  import opened Wrappers
  import opened DiskFormat
  import opened BlockStore
  import opened BlockMap
  import opened FileData
  import opened FsTree
  import opened Directory
  import opened DirUpdate
  import opened Paths
  import opened FileSystem

  /** The conditions `rename` checks before it changes anything. */
  ghost predicate CanRename(v: Vol, links: Links, src: seq<u8>, dst: seq<u8>)
    requires |v.inodes| == INODE_COUNT
  {
    && Base(src) != [] && Resolve(links, src).Some?
    && Base(dst) != [] && ParentDir(v, links, dst).Some?
    && (Resolve(links, dst).None? || Resolve(links, dst) == Resolve(links, src) || IsFileAt(v, links, dst))
  }

  predicate BothDirs(v: Vol, a: nat, b: nat) { IsDir(v, a) && IsDir(v, b) }

  /** Two removed and re-added names: the moved inode keeps its contents, and so does everything
      outside the two parents and the overwritten file. */
  ghost predicate MovedTo(v: Vol, g: Books, v': Vol, g': Books, s: (nat, Name), t: (nat, Name))
    requires |v.inodes| == |v'.inodes| == INODE_COUNT
  {
    && s in g.links && t !in g.links
    && EdgesOf(g'.links) == Moved(EdgesOf(g.links), s, t)
    && SameBut(v, v', {s.0, t.0}) && BothDirs(v, s.0, t.0) && BothDirs(v', s.0, t.0)
  }

  lemma MovedLive(v0: Vol, v1: Vol, v2: Vol, g: Books, g': Books, s: (nat, Name), t: (nat, Name), k: nat)
    requires Live(v0, g.links) && |v1.inodes| == |v2.inodes| == INODE_COUNT && s in g.links && t !in g.links
    requires BothDirs(v0, s.0, t.0) && IsDir(v1, t.0) && OthersSame(v0, v1, t.0)
    requires v2.inodes == v1.inodes && s.0 < INODE_COUNT && OthersSame(v1, v2, s.0)
    requires g'.links == g.links[t := Link(k, g.links[s].ino)] - {s}
    ensures Live(v2, g'.links) && MovedTo(v0, g, v2, g', s, t)
  {
    LiveMove(v0, v2, g.links, s, t, k);
    OthersTwice(v0, v1, v2, t.0, s.0);
  }

  lemma SameNameLive(v: Vol, v': Vol, links: Links, s: (nat, Name), k: nat)
    requires Live(v, links) && |v'.inodes| == INODE_COUNT && s in links && IsDir(v, s.0) && IsDir(v', s.0)
    requires SameBut(v, v', {s.0})
    ensures Live(v', links[s := Link(k, links[s].ino)])
    ensures EdgesOf(links[s := Link(k, links[s].ino)]) == EdgesOf(links)
  {
    var links' := links[s := Link(k, links[s].ino)];
    assert EdgesOf(links') == EdgesOf(links);
    forall i | 2 <= i < INODE_COUNT && v'.inodes[i].kind != T_FREE ensures Linked(links', i) {
      assert Linked(links, i);
      var e :| e in links && links[e].ino == i;
      assert e in links' && links'[e].ino == i;
    }
  }

  /** What storing entry `s` again as (`dp`, `dname`) and clearing the old slot leads to when the new name
      cannot be added: if it is cut to the old one, no path changes; otherwise the links are broken. */
  ghost predicate MovedBadly(v: Vol, links: Links, v': Vol, links': Links, s: (nat, Name), t: (nat, Name))
    requires |v.inodes| == |v'.inodes| == INODE_COUNT
  {
    if s == t
    then
      && Entries(v', links') && Live(v', links') && EdgesOf(links') == EdgesOf(links)
      && SameBut(v, v', {s.0}) && IsDir(v, s.0) && IsDir(v', s.0)
    else NoLinks(v')
  }

  /** `dir_link` under the new name, `clear_dirent` of the old one. Refused exactly when the
      destination directory has no room, and then nothing has changed. */
  method MoveEntry(st: Store, sp: u32, sname: seq<u8>, ino: u32, dp: u32, dname: seq<u8>, ghost g: Books)
    returns (ok: bool, ghost g': Books)
    requires st.Valid() && FsOk(st.vol, g) && 1 <= sp < INODE_COUNT && 1 <= dp < INODE_COUNT
    requires IsDir(st.vol, sp) && IsDir(st.vol, dp)
    requires LookupIn(g.links, sp, sname) == Some(ino) && LookupIn(g.links, dp, dname) == None
    modifies st`disk, st`vol, st.cache
    ensures st.Valid() && Owns(st.vol, g'.owner) && SameLost(g.owner, g'.owner)
    ensures ok <==> HasRoom(old(st.vol), dp)
    ensures !ok ==> st.vol == old(st.vol) && g' == g
    ensures ok && Linkable(g.links, dp, dname) ==>
              && FsOk(st.vol, g')
              && MovedTo(old(st.vol), g, st.vol, g', (sp as nat, Pad(sname)), (dp as nat, Pad(dname)))
    ensures ok && !Linkable(g.links, dp, dname) ==>
              MovedBadly(old(st.vol), g.links, st.vol, g'.links, (sp as nat, Pad(sname)), (dp as nat, Pad(dname)))
  {
    ghost var owner';
    ghost var v0 := st.vol;
    ok, owner' := DirLink(st, dp, dname, ino, g.owner, g.links);
    g' := g;
    if ok {
      assert AfterLink(v0, st.vol, g.links, dp, dname, ino);
      ok, g' := FinishMove(st, sp, sname, ino, dp, dname, v0, owner', g);
    }
  }

  /** An entry was appended to directory `dp`. */
  ghost predicate AfterLink(v: Vol, v1: Vol, links: Links, dp: nat, dname: seq<u8>, ino: u32) {
    && Entries(v, links) && |v1.inodes| == INODE_COUNT && IsDir(v, dp) && IsDir(v1, dp) && DirOk(v1.inodes[dp])
    && v.inodes[dp].size < NDIRECT * BLOCK_SIZE && v1.inodes[dp].size == v.inodes[dp].size + DIRENT_SIZE
    && StoredEntry(v, v1, dp, Count(v.inodes[dp]), dname, ino)
    && (Linkable(links, dp, dname) ==> Entries(v1, links[(dp, Pad(dname)) := Link(Count(v.inodes[dp]), ino)]))
  }

  /** `clear_dirent` of the old name. */
  method FinishMove(st: Store, sp: u32, sname: seq<u8>, ino: u32, dp: u32, dname: seq<u8>, ghost v: Vol,
      ghost owner: Owner, ghost g: Books)
    returns (ok: bool, ghost g': Books)
    requires st.Valid() && Owns(st.vol, owner) && sp < INODE_COUNT && dp < INODE_COUNT && Live(v, g.links)
    requires AfterLink(v, st.vol, g.links, dp, dname, ino) && LookupIn(g.links, sp, sname) == Some(ino)
    modifies st`disk, st`vol, st.cache
    ensures st.Valid() && ok && Owns(st.vol, g'.owner) && g'.owner == owner
    ensures Linkable(g.links, dp, dname) ==>
              Entries(st.vol, g'.links) && Live(st.vol, g'.links)
              && MovedTo(v, g, st.vol, g', (sp as nat, Pad(sname)), (dp as nat, Pad(dname)))
    ensures !Linkable(g.links, dp, dname) ==>
              MovedBadly(v, g.links, st.vol, g'.links, (sp as nat, Pad(sname)), (dp as nat, Pad(dname)))
  {
    ghost var v1, k := st.vol, Count(v.inodes[dp]);
    ghost var s, t := (sp as nat, Pad(sname)), (dp as nat, Pad(dname));
    ghost var links1 := g.links[t := Link(k, ino)];
    ghost var slot;
    ok, slot := ClearDirent(st, sp, ino, sname, owner, links1);
    g' := Books(owner, if s == t then links1 else links1 - {s});
    if Linkable(g.links, dp, dname) {
      MovedLive(v, v1, st.vol, g, g', s, t, k);
    } else {
      ClearsOld(v, v1, st.vol, g.links, sp, sname, dp, dname, ino, slot, ok);
      MoveBadly(v, v1, st.vol, g, g', s, dp, dname, slot);
    }
  }

  /** `clear_dirent` finds the old entry and clears it. */
  lemma ClearsOld(v: Vol, v1: Vol, v': Vol, links: Links, sp: nat, sname: seq<u8>, dp: nat, dname: seq<u8>,
                  ino: u32, slot: nat, found: bool)
    requires Entries(v, links) && |v1.inodes| == |v'.inodes| == INODE_COUNT && LookupIn(links, sp, sname) == Some(ino)
    requires IsDir(v, dp) && v.inodes[dp].size < NDIRECT * BLOCK_SIZE && IsDir(v1, dp) && DirOk(v1.inodes[dp])
    requires v1.inodes[dp].size == v.inodes[dp].size + DIRENT_SIZE
    requires StoredEntry(v, v1, dp, Count(v.inodes[dp]), dname, ino) && v'.inodes == v1.inodes
    requires found ==>
               && slot < Count(v1.inodes[sp]) <= MAX_ENTRIES && StoredEntry(v1, v', sp, slot, [], 0)
               && FirstMatch(v1, v1.inodes[sp], ByEntry(ino, sname), slot)
    requires !found ==> forall k :: 0 <= k < Count(v1.inodes[sp]) <= MAX_ENTRIES ==>
                         !Matches(ByEntry(ino, sname), Entry(v1, v1.inodes[sp], k))
    ensures found && Restored(v, v1, v', links, (sp, Pad(sname)), dp, dname, slot)
  {
    OldSlotThere(v, v1, links, sp, sname, dp, dname, ino);
    OldSlotFirst(v, v1, links, sp, sname, dp, dname, ino, slot);
  }

  lemma OnlyDir(v: Vol, v1: Vol, v': Vol, links: Links, s: (nat, Name), dname: seq<u8>, slot: nat)
    requires Restored(v, v1, v', links, s, s.0, dname, slot)
    ensures IsDir(v, s.0) && IsDir(v', s.0) && SameBut(v, v', {s.0})
  {
    OthersTwice(v, v1, v', s.0, s.0);
    assert {s.0, s.0} == {s.0};
  }

  lemma MoveBadly(v: Vol, v1: Vol, v': Vol, g: Books, g': Books, s: (nat, Name), dp: nat, dname: seq<u8>, slot: nat)
    requires Live(v, g.links) && Restored(v, v1, v', g.links, s, dp, dname, slot)
    requires !Linkable(g.links, dp, dname)
    requires s == (dp, Pad(dname)) ==> g'.links == g.links[s := Link(Count(v.inodes[dp]), g.links[s].ino)]
    ensures MovedBadly(v, g.links, v', g'.links, s, (dp, Pad(dname)))
  {
    if s == (dp, Pad(dname)) {
      EntriesSameName(v, v1, v', g.links, s, dname, slot);
      OnlyDir(v, v1, v', g.links, s, dname, slot);
      SameNameLive(v, v', g.links, s, Count(v.inodes[dp]));
    } else {
      EntriesMixedUp(v, v1, v', g.links, s, dp, dname, slot);
    }
  }

  // --- the paths --------------------------------------------------------------------------

  /** Removing one path leaves every other component list resolving as before. */
  lemma StillResolves(links: Links, links1: Links, gone: seq<seq<u8>>, comps: seq<seq<u8>>)
    requires PathRemoved(links, links1, gone) && WalkComps(links, ROOT_INODE, comps).Some?
    requires PadAll(comps) != PadAll(gone)
    ensures WalkComps(links1, ROOT_INODE, comps) == WalkComps(links, ROOT_INODE, comps)
  {
    WalkCompsIsWalk(links, ROOT_INODE, comps);
    WalkCompsIsWalk(links1, ROOT_INODE, comps);
  }

  /** Dropping the destination file disturbs neither parent nor the source. */
  lemma AfterClobber(v: Vol, v1: Vol, links: Links, links1: Links, src: seq<u8>, dst: seq<u8>)
    requires |v.inodes| == INODE_COUNT && IsFileAt(v, links, dst) && PathRemoved(links, links1, Comps(dst))
    requires v1.inodes == v.inodes[Resolve(links, dst).value := NewInode(T_FREE, 0)]
    requires ParentDir(v, links, src).Some? && ParentDir(v, links, dst).Some? && Base(dst) != []
    requires Resolve(links, src).Some? && Resolve(links, src) != Resolve(links, dst)
    ensures ParentDir(v1, links1, src) == ParentDir(v, links, src)
    ensures ParentDir(v1, links1, dst) == ParentDir(v, links, dst)
    ensures Resolve(links1, src) == Resolve(links, src) && Resolve(links1, dst) == None
  {
    CompsParts(dst);
    assert |PadAll(ParentComps(dst))| < |PadAll(Comps(dst))|;
    Distinct(links, ParentComps(src), Comps(dst));
    Distinct(links, Comps(src), Comps(dst));
    KeptPaths(links, links1, ParentComps(src), ParentComps(dst), Comps(src), Comps(dst));
  }

  lemma KeptPaths(links: Links, links1: Links, a: seq<seq<u8>>, b: seq<seq<u8>>, c: seq<seq<u8>>, gone: seq<seq<u8>>)
    requires PathRemoved(links, links1, gone)
    requires WalkComps(links, ROOT_INODE, a).Some? && WalkComps(links, ROOT_INODE, b).Some?
             && WalkComps(links, ROOT_INODE, c).Some?
    requires PadAll(gone) != PadAll(a) && PadAll(gone) != PadAll(b) && PadAll(gone) != PadAll(c)
    ensures WalkComps(links1, ROOT_INODE, a) == WalkComps(links, ROOT_INODE, a)
    ensures WalkComps(links1, ROOT_INODE, b) == WalkComps(links, ROOT_INODE, b)
    ensures WalkComps(links1, ROOT_INODE, c) == WalkComps(links, ROOT_INODE, c)
    ensures WalkComps(links1, ROOT_INODE, gone) == None
  {
    StillResolves(links, links1, gone, a);
    StillResolves(links, links1, gone, b);
    StillResolves(links, links1, gone, c);
    WalkCompsIsWalk(links1, ROOT_INODE, gone);
    assert Walk(EdgesOf(links1), ROOT_INODE, PadAll(gone)) == Missing;
  }

  /** Component lists that resolve to different inodes differ after padding. */
  lemma Distinct(links: Links, a: seq<seq<u8>>, b: seq<seq<u8>>)
    requires WalkComps(links, ROOT_INODE, a).Some? && WalkComps(links, ROOT_INODE, b).Some?
    requires WalkComps(links, ROOT_INODE, a) != WalkComps(links, ROOT_INODE, b)
    ensures PadAll(a) != PadAll(b)
  {
    WalkCompsIsWalk(links, ROOT_INODE, a);
    WalkCompsIsWalk(links, ROOT_INODE, b);
  }

  /** Dropping the destination and then moving is, for every path, moving. */
  lemma MovedAfterClobber(links: Links, links1: Links, links': Links, src: seq<seq<u8>>, dst: seq<seq<u8>>)
    requires PathRemoved(links, links1, dst) && PathMoved(links1, links', src, dst) && PadAll(src) != PadAll(dst)
    ensures PathMoved(links, links', src, dst)
  {
  }

  lemma EntryPaths(v: Vol, g: Books, v': Vol, g': Books, src: seq<u8>, dst: seq<u8>, sp: u32, dp: u32)
    requires FsOk(v, g) && |v'.inodes| == INODE_COUNT && Base(src) != [] && Base(dst) != []
    requires ParentDir(v, g.links, src) == Some(sp) && ParentDir(v, g.links, dst) == Some(dp)
    requires Resolve(g.links, src).Some?
    requires MovedTo(v, g, v', g', (sp as nat, Pad(Base(src))), (dp as nat, Pad(Base(dst))))
    ensures PathMoved(g.links, g'.links, Comps(src), Comps(dst))
  {
    ResolveLast(v, g.links, src);
    CompsParts(src);
    CompsParts(dst);
    MovedPaths(g.links, g'.links, ParentComps(src), Base(src), sp, ParentComps(dst), Base(dst), dp);
  }

  /** The state after the destination file, if there was one, has been dropped. */
  ghost predicate Dropped(v: Vol, g: Books, v1: Vol, g1: Books, dst: seq<u8>)
    requires |v.inodes| == |v1.inodes| == INODE_COUNT
  {
    if Resolve(g.links, dst).Some? then RemovedAt(v, g, v1, g1, dst) else v1 == v && g1 == g
  }

  /** The part of `rename` that changes the volume. */
  method DropAndMove(st: Store, src: seq<u8>, dst: seq<u8>, sp: u32, dp: u32, ino: u32, dino: Option<u32>,
      ghost g: Books)
    returns (ok: bool, ghost g': Books, ghost v1: Vol, ghost g1: Books)
    requires st.Valid() && FsOk(st.vol, g) && CanRename(st.vol, g.links, src, dst)
    requires ParentDir(st.vol, g.links, src) == Some(sp) && ParentDir(st.vol, g.links, dst) == Some(dp)
    requires 1 <= sp < INODE_COUNT && 1 <= dp < INODE_COUNT
    requires Resolve(g.links, src) == Some(ino) && Resolve(g.links, dst) == dino && dino != Some(ino)
    modifies st`disk, st`vol, st.cache
    ensures st.Valid() && Owns(st.vol, g'.owner) && SameLost(g.owner, g'.owner)
    ensures Renaming(old(st.vol), g, v1, g1, st.vol, g', src, dst, ok)
  {
    ghost var v := st.vol;
    g1 := DropTarget(st, src, dst, sp, dp, ino, dino, g);
    v1 := st.vol;
    if dino.Some? {
      ResolveLast(v, g.links, dst);
      GoodIsLinkable(g1.links, dp, Base(dst));
    }
    ok, g' := MoveEntry(st, sp, Base(src), ino, dp, Base(dst), g1);
    if HasRoom(v1, dp) && Linkable(g1.links, dp, Base(dst)) {
      EntryPaths(v1, g1, st.vol, g', src, dst, sp, dp);
      if dino.Some? {
        Distinct(g.links, Comps(src), Comps(dst));
        MovedAfterClobber(g.links, g1.links, g'.links, Comps(src), Comps(dst));
      }
    }
  }

  /** Overwriting: the old destination file, if there is one, is dropped. */
  method DropTarget(st: Store, src: seq<u8>, dst: seq<u8>, sp: u32, dp: u32, ino: u32, dino: Option<u32>,
      ghost g: Books)
    returns (ghost g1: Books)
    requires st.Valid() && FsOk(st.vol, g) && CanRename(st.vol, g.links, src, dst)
    requires ParentDir(st.vol, g.links, src) == Some(sp) && ParentDir(st.vol, g.links, dst) == Some(dp)
    requires 1 <= sp < INODE_COUNT && 1 <= dp < INODE_COUNT
    requires Resolve(g.links, src) == Some(ino) && Resolve(g.links, dst) == dino && dino != Some(ino)
    modifies st`disk, st`vol, st.cache
    ensures st.Valid() && FsOk(st.vol, g1) && Dropped(old(st.vol), g, st.vol, g1, dst) && SameLost(g.owner, g1.owner)
    ensures ParentDir(st.vol, g1.links, src) == Some(sp) && ParentDir(st.vol, g1.links, dst) == Some(dp)
    ensures Resolve(g1.links, src) == Some(ino)
    ensures LookupIn(g1.links, sp, Base(src)) == Some(ino) && LookupIn(g1.links, dp, Base(dst)) == None
  {
    ghost var v := st.vol;
    g1 := g;
    ResolveLast(v, g.links, src);
    ResolveLast(v, g.links, dst);
    if dino.Some? {
      FileHasNoChildren(v, g.links, dino.value);
      var _, cleared := RemoveAt(st, dst, dp, dino.value, g);
      g1 := cleared;
      AfterClobber(v, st.vol, g.links, g1.links, src, dst);
      ResolveLast(st.vol, g1.links, src);
      ResolveLast(st.vol, g1.links, dst);
    }
  }

  /** `rename`. Refused without effect when the source is missing, a parent is missing or the
      destination is a directory; without effect when both paths name the same entry. Otherwise a
      destination file is dropped first; then, if the destination directory has room, every path
      below `src` moves below `dst` and nothing else changes, and if it has none the call fails and
      the destination file stays lost. A new name that is not linkable is not refused: if it is cut to the
      old name of the same entry, no path changes; otherwise the directories are left inconsistent. */
  method RenamePath(st: Store, src: seq<u8>, dst: seq<u8>, ghost g: Books)
    returns (ok: bool, ghost g': Books, ghost v1: Vol, ghost g1: Books)
    requires st.Valid() && FsOk(st.vol, g)
    modifies st`disk, st`vol, st.cache
    ensures st.Valid() && Owns(st.vol, g'.owner) && SameLost(g.owner, g'.owner)
    ensures !CanRename(old(st.vol), g.links, src, dst) ==> !ok && st.vol == old(st.vol) && g' == g
    ensures CanRename(old(st.vol), g.links, src, dst) && Resolve(g.links, src) == Resolve(g.links, dst) ==>
              ok && st.vol == old(st.vol) && g' == g
    ensures CanRename(old(st.vol), g.links, src, dst) && Resolve(g.links, src) != Resolve(g.links, dst) ==>
              Renaming(old(st.vol), g, v1, g1, st.vol, g', src, dst, ok)
  {
    ghost var v := st.vol;
    ok, g', v1, g1 := false, g, v, g;
    var sp, sname := SplitParent(st, src, g);
    if sp.Some? && sname != [] {
      ResolveLast(v, g.links, src);
      var ino := DirLookup(st, sp.value, sname, g.owner, g.links);
      if ino.Some? {
        ok, g', v1, g1 := RenameInode(st, src, dst, sp.value, ino.value, g);
      }
    } else if sname != [] {
      ResolveLast(v, g.links, src);
    }
  }

  ghost predicate Renaming(
    v: Vol, g: Books, v1: Vol, g1: Books, v': Vol, g': Books, src: seq<u8>, dst: seq<u8>, ok: bool)
    requires |v.inodes| == |v'.inodes| == INODE_COUNT
  {
    var sp, dp := ParentDir(v, g.links, src), ParentDir(v, g.links, dst);
    && Shape(v1) && FsOk(v1, g1) && Dropped(v, g, v1, g1, dst)
    && sp.Some? && dp.Some? && dp.value < INODE_COUNT
    && (Resolve(g.links, dst).Some? ==> Linkable(g1.links, dp.value, Base(dst)))
    && (ok <==> HasRoom(v1, dp.value))
    && (!ok ==> v' == v1 && g' == g1)
    && (ok && !Linkable(g1.links, dp.value, Base(dst)) ==>
          MovedBadly(v1, g1.links, v', g'.links, (sp.value as nat, Pad(Base(src))), (dp.value as nat, Pad(Base(dst)))))
    && (ok && Linkable(g1.links, dp.value, Base(dst)) ==>
          && FsOk(v', g') && SameBut(v1, v', {sp.value, dp.value})
          && BothDirs(v1, sp.value, dp.value) && BothDirs(v', sp.value, dp.value)
          && PathMoved(g.links, g'.links, Comps(src), Comps(dst))
          && PathMoved(g1.links, g'.links, Comps(src), Comps(dst)))
  }

  /** `rename` once the source inode is known. */
  method RenameInode(st: Store, src: seq<u8>, dst: seq<u8>, sp: u32, ino: u32, ghost g: Books)
    returns (ok: bool, ghost g': Books, ghost v1: Vol, ghost g1: Books)
    requires st.Valid() && FsOk(st.vol, g) && Base(src) != [] && 1 <= sp < INODE_COUNT
    requires ParentDir(st.vol, g.links, src) == Some(sp) && Resolve(g.links, src) == Some(ino)
    modifies st`disk, st`vol, st.cache
    ensures st.Valid() && Owns(st.vol, g'.owner) && SameLost(g.owner, g'.owner)
    ensures !CanRename(old(st.vol), g.links, src, dst) ==> !ok && st.vol == old(st.vol) && g' == g
    ensures CanRename(old(st.vol), g.links, src, dst) && Resolve(g.links, dst) == Some(ino) ==>
              ok && st.vol == old(st.vol) && g' == g
    ensures CanRename(old(st.vol), g.links, src, dst) && Resolve(g.links, dst) != Some(ino) ==>
              Renaming(old(st.vol), g, v1, g1, st.vol, g', src, dst, ok)
  {
    ok, g', v1, g1 := false, g, st.vol, g;
    var go, same, dp, dino := Decide(st, src, dst, ino, g);
    ok := same;
    if go {
      ok, g', v1, g1 := DropAndMove(st, src, dst, sp, dp, ino, dino, g);
    }
  }

  lemma DstTests(v: Vol, links: Links, src: seq<u8>, dst: seq<u8>, ino: u32, p: u32)
    requires Entries(v, links) && Live(v, links) && Base(src) != [] && Resolve(links, src) == Some(ino)
    requires Base(dst) != [] && ParentDir(v, links, dst) == Some(p)
    ensures Resolve(links, dst) == LookupIn(links, p, Base(dst))
    ensures Resolve(links, dst).Some? ==> Resolve(links, dst).value < INODE_COUNT
    ensures CanRename(v, links, src, dst) <==>
            var r := Resolve(links, dst);
            r.None? || r.value == ino || v.inodes[r.value].kind == T_FILE
  {
    ResolveLast(v, links, dst);
  }

  /** The tests on the destination: go ahead, nothing to do because it is the same entry, or refuse. */
  method Decide(st: Store, src: seq<u8>, dst: seq<u8>, ino: u32, ghost g: Books)
    returns (go: bool, same: bool, dp: u32, dino: Option<u32>)
    requires st.Valid() && FsOk(st.vol, g) && Base(src) != [] && Resolve(g.links, src) == Some(ino)
    modifies st.cache
    ensures st.Valid()
    ensures same <==> CanRename(st.vol, g.links, src, dst) && Resolve(g.links, dst) == Some(ino)
    ensures go <==> CanRename(st.vol, g.links, src, dst) && Resolve(g.links, dst) != Some(ino)
    ensures go ==> ParentDir(st.vol, g.links, dst) == Some(dp) && 1 <= dp < INODE_COUNT && Resolve(g.links, dst) == dino
  {
    go, same, dp, dino := false, false, 0, None;
    var parent, dname := SplitParent(st, dst, g);
    if parent.Some? && dname != [] {
      DstTests(st.vol, g.links, src, dst, ino, parent.value);
      dp := parent.value;
      dino := DirLookup(st, dp, dname, g.owner, g.links);
      go := true;
      if dino.Some? {
        var dnode := st.ReadInode(dino.value);
        same := dino.value == ino;
        go := !same && dnode.kind == T_FILE;
      }
    }
  }
}
