/** Sequences of calls on a freshly formatted volume (kernel/src/fs.rs) that end where one would not expect. */
module FsExample {
  import opened Wrappers
  import opened DiskFormat
  import opened BlockStore
  import opened BlockMap
  import opened FileData
  import opened Directory
  import opened DirUpdate
  import opened Paths
  import opened FileSystem
  import opened Rename
  import opened FsSpec
  import opened FsEffect
  import opened FsRun
  import opened FsTrace

  const NAME_A: seq<u8> := [97]
  const NAME_B: seq<u8> := [98]
  const PATH_AB: seq<u8> := [97, 47, 98]

  // --- volumes on which only the root directory has blocks ----------------------------------------------------

  predicate NoPointers(n: Inode) {
    n.indirect == 0 == n.double && forall i :: 0 <= i < NDIRECT ==> n.direct[i] == 0
  }

  /** Only the root has blocks, and there are more data blocks than it can have so far. */
  ghost predicate Spacious(v: Vol, owner: Owner) {
    && Owns(v, owner) && Exact(owner) && DirOk(v.inodes[ROOT_INODE])
    && (forall i :: 0 <= i < INODE_COUNT && i != ROOT_INODE ==> NoPointers(v.inodes[i]))
    && v.l.total - v.l.dataStart > v.inodes[ROOT_INODE].size / BLOCK_SIZE + 1
  }

  lemma {:induction false} Pigeonhole(d: seq<nat>, lo: nat, hi: nat)
    requires lo <= hi && forall b :: lo <= b < hi ==> b in d
    ensures hi - lo <= |d|
    decreases hi
  {
    if lo < hi {
      assert hi - 1 in d;
      var j :| 0 <= j < |d| && d[j] == hi - 1;
      var rest := d[..j] + d[j + 1..];
      forall b | lo <= b < hi - 1 ensures b in rest {
        assert b in d;
        var k :| 0 <= k < |d| && d[k] == b;
        assert rest[if k < j then k else k - 1] == b;
      }
      Pigeonhole(rest, lo, hi - 1);
    }
  }

  lemma SpaciousNotFull(v: Vol, owner: Owner)
    requires Spacious(v, owner)
    ensures !Full(v)
  {
    if Full(v) {
      var n := v.inodes[ROOT_INODE];
      var d: seq<nat> := seq(n.size / BLOCK_SIZE + 1, i requires 0 <= i => if i < NDIRECT then n.direct[i] else 0);
      forall b | v.l.dataStart <= b < v.l.total ensures b in d {
        var i := RootBlock(v, owner, b);
        assert d[i] == b;
      }
      Pigeonhole(d, v.l.dataStart, v.l.total);
    }
  }

  /** A used block is one of the root's. */
  lemma RootBlock(v: Vol, owner: Owner, b: nat) returns (i: nat)
    requires Spacious(v, owner) && v.l.dataStart <= b < v.l.total && v.used[b]
    ensures i < NDIRECT && i <= v.inodes[ROOT_INODE].size / BLOCK_SIZE && v.inodes[ROOT_INODE].direct[i] == b
  {
    var k := owner[b];
    assert KeyPtr(v, k) == b;
    assert k.ino == ROOT_INODE && k.addr.Direct?;
    i := k.addr.i;
    assert i * BLOCK_SIZE <= v.inodes[ROOT_INODE].size;
    assert i <= v.inodes[ROOT_INODE].size / BLOCK_SIZE;
  }

  /** No file and no directory but the root; all other inodes blank. */
  ghost predicate EmptyVol(v: Vol, g: Books) {
    && FsOk(v, g) && g.links == map[] && Exact(g.owner)
    && forall i :: 0 <= i < INODE_COUNT && i != ROOT_INODE ==> v.inodes[i] == NewInode(T_FREE, 0)
  }

  lemma FormattedEmpty(v: Vol)
    requires Formatted(v)
    ensures EmptyVol(v, FormattedBooks(v)) && v.inodes[ROOT_INODE].size == 0
  {
    FormattedSound(v);
  }

  lemma EmptySpacious(v: Vol, g: Books)
    requires EmptyVol(v, g) && v.l.total - v.l.dataStart > v.inodes[ROOT_INODE].size / BLOCK_SIZE + 1
    ensures Spacious(v, g.owner) && NextFree(v) == 2
  {
  }

  // --- one file, created and unlinked ------------------------------------------------------------------------

  lemma NamesFit()
    ensures Padded(Pad(NAME_A)) && Padded(Pad(NAME_B)) && Pad(NAME_A) != Pad(NAME_B)
    ensures Base(NAME_A) == NAME_A && Comps(NAME_A) == [NAME_A] && ParentComps(NAME_A) == []
    ensures Base(NAME_B) == NAME_B && Comps(NAME_B) == [NAME_B] && ParentComps(NAME_B) == []
  {
    assert Pad(NAME_A)[0] != Pad(NAME_B)[0];
  }

  lemma RootHasRoom(v: Vol)
    requires Shape(v) && DirOk(v.inodes[ROOT_INODE]) && 0 < v.inodes[ROOT_INODE].size < BLOCK_SIZE
    ensures HasRoom(v, ROOT_INODE)
  {
    assert 0 * BLOCK_SIZE < v.inodes[ROOT_INODE].size;
  }

  /** A node that was added to an empty volume under a short name in the root. */
  lemma AddedToEmpty(v: Vol, g: Books, v1: Vol, g1: Books, name: seq<u8>, kind: u16, c: u32)
    requires EmptyVol(v, g) && FsOk(v1, g1) && |name| <= NAME_LEN && SameLost(Forgotten(g.owner, c), g1.owner)
    requires Added(v, map[], v1, g1.links, ROOT_INODE, name, kind, c) && PathAdded(map[], g1.links, [name], c)
    ensures WalkComps(g1.links, ROOT_INODE, [name]) == Some(c) && Exact(g1.owner)
    ensures forall e :: e in g1.links <==> e == (ROOT_INODE as nat, Pad(name))
    ensures forall i :: 0 <= i < INODE_COUNT && i != ROOT_INODE ==> NoPointers(v1.inodes[i])
  {
    OnlyEntry(v, g.links, v1, g1.links, name, kind, c);
    NothingLost(v, g.owner, c, g1.owner);
  }

  lemma OnlyEntry(v: Vol, links: Links, v1: Vol, links1: Links, name: seq<u8>, kind: u16, c: u32)
    requires |v.inodes| == |v1.inodes| == INODE_COUNT && links == map[] && |name| <= NAME_LEN
    requires Added(v, links, v1, links1, ROOT_INODE, name, kind, c) && PathAdded(links, links1, [name], c)
    ensures WalkComps(links1, ROOT_INODE, [name]) == Some(c)
    ensures forall e :: e in links1 <==> e == (ROOT_INODE as nat, Pad(name))
  {
    WalkCompsIsWalk(links1, ROOT_INODE, [name]);
    assert forall e :: e in links1 <==> e in EdgesOf(links1);
  }

  lemma NothingLost(v: Vol, owner: Owner, c: nat, owner1: Owner)
    requires Owns(v, owner) && Exact(owner) && c < INODE_COUNT && Blank(v, c) && SameLost(Forgotten(owner, c), owner1)
    ensures Exact(owner1)
  {
    if HoldsBlocks(owner, c) {
      HoldsNotBlank(v, owner, c);
    }
    NothingForgotten(owner, c);
    SameLostExact(Forgotten(owner, c), owner1);
  }

  /** Creates the file "a" and unlinks it again. The volume is empty as before, but the root directory has
      grown by one entry. */
  method CreateAndUnlink(st: Store, ghost g: Books) returns (c: u32, ghost g': Books)
    requires st.Valid() && EmptyVol(st.vol, g) && HasRoom(st.vol, ROOT_INODE)
    modifies st`disk, st`vol, st.cache
    ensures st.Valid() && EmptyVol(st.vol, g') && c == 2 && st.vol.l == old(st.vol).l
    ensures st.vol.inodes[ROOT_INODE].size == old(st.vol).inodes[ROOT_INODE].size + DIRENT_SIZE
  {
    ghost var v := st.vol;
    NamesFit();
    var r;
    ghost var g1;
    r, g1 := Create(st, NAME_A, g);
    c := r.value;
    ghost var v1 := st.vol;
    AddedToEmpty(v, g, v1, g1, NAME_A, T_FILE, c);
    var ok;
    ok, g' := Unlink(st, NAME_A, g1);
    Emptied(v, v1, g1, st.vol, g', c);
  }

  lemma Emptied(v: Vol, v1: Vol, g1: Books, v2: Vol, g2: Books, c: u32)
    requires |v.inodes| == |v1.inodes| == INODE_COUNT && FsOk(v2, g2) && Exact(g1.owner)
    requires forall i :: 0 <= i < INODE_COUNT && i != ROOT_INODE ==> v.inodes[i] == NewInode(T_FREE, 0)
    requires SameBut(v, v1, {c as int, ROOT_INODE}) && c < INODE_COUNT && Resolve(g1.links, NAME_A) == Some(c)
    requires forall e :: e in g1.links <==> e == (ROOT_INODE as nat, Pad(NAME_A))
    requires RemovedAt(v1, g1, v2, g2, NAME_A)
    ensures EmptyVol(v2, g2)
  {
    NamesFit();
    assert g2.links == map[];
    SameLostExact(g1.owner, g2.owner);
  }

  // --- numbers that outlive their file ------------------------------------------------------------------------

  /** A file is created and unlinked; `c` was its number. */
  method FreedNumber(st: Store) returns (c: u32, ghost g: Books)
    requires st.Valid() && Formatted(st.vol) && st.vol.l.total - st.vol.l.dataStart > 1
    modifies st`disk, st`vol, st.cache
    ensures st.Valid() && EmptyVol(st.vol, g) && c == NextFree(st.vol) == 2 && !Full(st.vol)
    ensures st.vol.inodes[ROOT_INODE].size == DIRENT_SIZE && HasRoom(st.vol, ROOT_INODE)
    ensures st.vol.l == old(st.vol).l
  {
    FormattedEmpty(st.vol);
    g := FormattedBooks(st.vol);
    c, g := CreateAndUnlink(st, g);
    EmptySpacious(st.vol, g);
    SpaciousNotFull(st.vol, g.owner);
    RootHasRoom(st.vol);
  }

  /** A file is created and unlinked, and a byte is written through its number, as a descriptor that is still
      open does. The free inode then holds a block. */
  method StaleWrite(st: Store) returns (c: u32, done: nat, ghost g: Books)
    requires st.Valid() && Formatted(st.vol) && st.vol.l.total - st.vol.l.dataStart > 1
    modifies st`disk, st`vol, st.cache
    ensures st.Valid() && FsOk(st.vol, g) && c == NextFree(st.vol) < INODE_COUNT && done == 1
    ensures HoldsBlocks(g.owner, c) && !Tidy(st.vol) && g.links == map[] && HasRoom(st.vol, ROOT_INODE)
  {
    c, g := FreedNumber(st);
    done, g := WriteNumber(st, c, 0, [7], g);
    RootHasRoom(st.vol);
    HoldsNotBlank(st.vol, g.owner, c);
    assert st.vol.inodes[c].kind == T_FREE;
  }

  /** The next file takes the number, and the block with the byte is lost: whoever accounts for the blocks of
      this volume has to count one that is used although no inode points to it. */
  method LeakExample(st: Store) returns (c: u32, done: nat, d: Option<u32>, ghost g: Books)
    requires st.Valid() && Formatted(st.vol) && st.vol.l.total - st.vol.l.dataStart > 1
    modifies st`disk, st`vol, st.cache
    ensures st.Valid() && done == 1 && d == Some(c)
    ensures FsOk(st.vol, g) && !Exact(g.owner) && forall o :: Owns(st.vol, o) ==> !Exact(o)
  {
    ghost var g0;
    c, done, g0 := StaleWrite(st);
    NamesFit();
    d, g := Create(st, NAME_B, g0);
    NothingForgotten(g0.owner, c);
    SameLostExact(Forgotten(g0.owner, c), g.owner);
    forall o | Owns(st.vol, o) ensures !Exact(o) {
      LostForAll(st.vol, g.owner, o);
    }
  }

  /** A file is created and unlinked, and a file of another name takes its number. */
  method NewFile(st: Store) returns (c: u32, d: Option<u32>, ghost g: Books)
    requires st.Valid() && Formatted(st.vol) && st.vol.l.total - st.vol.l.dataStart > 1
    modifies st`disk, st`vol, st.cache
    ensures st.Valid() && FsOk(st.vol, g) && !Full(st.vol) && d == Some(c) && c < INODE_COUNT
    ensures WalkComps(g.links, ROOT_INODE, [NAME_B]) == Some(c) && st.vol.inodes[c] == NewInode(T_FILE, 1)
  {
    c, g := FreedNumber(st);
    NamesFit();
    ghost var v, g0 := st.vol, g;
    d, g := Create(st, NAME_B, g0);
    NewIsSpacious(v, g0, st.vol, g, NAME_B, T_FILE, c);
  }

  lemma NewIsSpacious(v: Vol, g: Books, v1: Vol, g1: Books, name: seq<u8>, kind: u16, c: u32)
    requires EmptyVol(v, g) && FsOk(v1, g1) && |name| <= NAME_LEN && SameLost(Forgotten(g.owner, c), g1.owner)
    requires Added(v, map[], v1, g1.links, ROOT_INODE, name, kind, c) && PathAdded(map[], g1.links, [name], c)
    requires v1.l.total - v1.l.dataStart > v1.inodes[ROOT_INODE].size / BLOCK_SIZE + 1
    ensures WalkComps(g1.links, ROOT_INODE, [name]) == Some(c) && Spacious(v1, g1.owner) && !Full(v1)
  {
    AddedToEmpty(v, g, v1, g1, name, kind, c);
    SpaciousNotFull(v1, g1.owner);
  }

  /** The other order: a new file takes the number first, and the old descriptor writes into it. */
  method ReuseExample(st: Store) returns (c: u32, d: Option<u32>, done: nat, ghost g: Books)
    requires st.Valid() && Formatted(st.vol) && st.vol.l.total - st.vol.l.dataStart > 1
    modifies st`disk, st`vol, st.cache
    ensures st.Valid() && FsOk(st.vol, g) && d == Some(c) && done == 1
    ensures PathByte(st.vol, g.links, [Pad(NAME_B)], 0) == Some(7)
  {
    ghost var g1;
    c, d, g1 := NewFile(st);
    ghost var v1 := st.vol;
    done, g := WriteNumber(st, c, 0, [7], g1);
    SeenAtB(v1, st.vol, g1.links, c, done);
  }

  lemma SeenAtB(v1: Vol, v': Vol, links: Links, c: u32, done: nat)
    requires c < |v1.inodes| == |v'.inodes| && done == 1 && WroteFile(v1, v', c, 0, [7][..done])
    requires WalkComps(links, ROOT_INODE, [NAME_B]) == Some(c)
    ensures PathByte(v', links, [Pad(NAME_B)], 0) == Some(7)
  {
    assert WroteAt(v1, v', c, 0, [7][..done], 0);
    WalkCompsIsWalk(links, ROOT_INODE, [NAME_B]);
    assert PadAll([NAME_B]) == [Pad(NAME_B)];
  }

  method NewDir(st: Store) returns (c: u32, made: bool, ghost g: Books)
    requires st.Valid() && Formatted(st.vol) && st.vol.l.total - st.vol.l.dataStart > 1
    modifies st`disk, st`vol, st.cache
    ensures st.Valid() && FsOk(st.vol, g) && !Full(st.vol) && made && c < INODE_COUNT
    ensures st.vol.inodes[c] == NewInode(T_DIR, 1)
  {
    c, g := FreedNumber(st);
    NamesFit();
    ghost var v, g0, k := st.vol, g, 0;
    made, k, g := Mkdir(st, NAME_B, g0);
    NewIsSpacious(v, g0, st.vol, g, NAME_B, T_DIR, c);
  }

  /** If a new directory takes the number, the old descriptor writes directory entries: here two of one
      name, which leaves no consistent links. */
  method DirWriteExample(st: Store) returns (c: u32, made: bool, done: nat)
    requires st.Valid() && Formatted(st.vol) && st.vol.l.total - st.vol.l.dataStart > 1
    modifies st`disk, st`vol, st.cache
    ensures st.Valid() && made && done == 64 && NoLinks(st.vol)
  {
    ghost var g;
    c, made, g := NewDir(st);
    ghost var v1 := st.vol;
    var twice := DirentBytes(NAME_A, 1) + DirentBytes(NAME_A, 1);
    done, g := WriteNumber(st, c, 0, twice, g);
    assert twice[..done] == twice;
    TwoOfOneName(v1, st.vol, c, twice);
  }

  lemma TwoOfOneName(v1: Vol, v2: Vol, c: nat, twice: seq<u8>)
    requires c < INODE_COUNT == |v1.inodes| == |v2.inodes| && v1.inodes[c] == NewInode(T_DIR, 1) && IsDir(v2, c)
    requires twice == DirentBytes(NAME_A, 1) + DirentBytes(NAME_A, 1) && WroteFile(v1, v2, c, 0, twice)
    ensures NoLinks(v2)
  {
    forall links: Links ensures !Entries(v2, links) {
      if Entries(v2, links) {
        StoredSlot(v1, v2, c, twice, 0);
        StoredSlot(v1, v2, c, twice, 1);
        OneEntry(v2, links, c, 0, 1);
      }
    }
  }

  lemma StoredSlot(v1: Vol, v2: Vol, c: nat, twice: seq<u8>, k: nat)
    requires c < |v1.inodes| == |v2.inodes| && DirOk(v2.inodes[c]) && Count(v2.inodes[c]) == 2 && k < 2
    requires twice == DirentBytes(NAME_A, 1) + DirentBytes(NAME_A, 1) && Wrote(v1, v2, c, 0, twice)
    ensures Entry(v2, v2.inodes[c], k) == Dirent(Pad(NAME_A), 1)
  {
    forall j | 0 <= j < DIRENT_SIZE
      ensures InoByte(v2, c, k * DIRENT_SIZE + j) == Some(DirentBytes(NAME_A, 1)[j])
    {
      assert WroteAt(v1, v2, c, 0, twice, k * DIRENT_SIZE + j);
      assert twice[k * DIRENT_SIZE + j] == DirentBytes(NAME_A, 1)[j];
    }
    EntryIs(v2, c, k, NAME_A, 1);
  }

  // --- a directory that is used up ----------------------------------------------------------------------------

  /** One file created and unlinked 448 times: the root directory is empty, and refuses the next one. */
  method UsedUpExample(st: Store) returns (r: Option<u32>, ghost g: Books)
    requires st.Valid() && Formatted(st.vol) && st.vol.l.total - st.vol.l.dataStart > NDIRECT
    modifies st`disk, st`vol, st.cache
    ensures st.Valid() && EmptyVol(st.vol, g) && r == None
  {
    FormattedEmpty(st.vol);
    g := FormattedBooks(st.vol);
    for i := 0 to MAX_ENTRIES
      invariant st.Valid() && EmptyVol(st.vol, g) && st.vol.l == old(st.vol.l)
      invariant st.vol.inodes[ROOT_INODE].size == i * DIRENT_SIZE
    {
      EmptySpacious(st.vol, g);
      SpaciousNotFull(st.vol, g.owner);
      var _, g1 := CreateAndUnlink(st, g);
      g := g1;
    }
    ghost var v, g0 := st.vol, g;
    assert !HasRoom(v, ROOT_INODE);
    r, g := Create(st, NAME_A, g0);
    UndoneTidy(v, g0, st.vol, g);
  }

  // --- a directory moved into itself --------------------------------------------------------------------------

  lemma PathAb()
    ensures Base(PATH_AB) == NAME_B && Comps(PATH_AB) == [NAME_A, NAME_B] && ParentComps(PATH_AB) == [NAME_A]
  {
    assert PATH_AB == NAME_A + [SLASH] + NAME_B;
    SplitAtSlash(NAME_A, NAME_B);
    SplitNoSlash(NAME_A);
    SplitNoSlash(NAME_B);
    assert Split(PATH_AB)[..1] == [NAME_A];
    CompsSingle(NAME_A);
    CompsParts(PATH_AB);
  }

  /** The directory "a" is renamed to "a/b". The call succeeds, and no path reaches the directory any more. */
  method DetachExample(st: Store) returns (made: bool, ok: bool, ghost c: u32, ghost g: Books)
    requires st.Valid() && Formatted(st.vol) && st.vol.l.total - st.vol.l.dataStart > 1
    modifies st`disk, st`vol, st.cache
    ensures st.Valid() && FsOk(st.vol, g) && made && ok
    ensures LiveNode(st.vol, c) && !Reachable(g.links, c)
  {
    FormattedEmpty(st.vol);
    ghost var v, g0 := st.vol, FormattedBooks(st.vol);
    NamesFit();
    ghost var g1;
    made, c, g1 := Mkdir(st, NAME_A, g0);
    ghost var v1 := st.vol;
    NewIsSpacious(v, g0, v1, g1, NAME_A, T_DIR, c);
    OnlyEntry(v, g0.links, v1, g1.links, NAME_A, T_DIR, c);
    AbPasses(v1, g1.links, c);
    ghost var v2, g2;
    ok, g, v2, g2 := RenamePath(st, NAME_A, PATH_AB, g1);
    AbMoved(v1, g1, v2, g2, st.vol, g, ok, c);
  }

  /** "a" can be renamed to "a/b" when it is the only directory. */
  lemma AbPasses(v: Vol, links: Links, c: u32)
    requires |v.inodes| == INODE_COUNT && c < INODE_COUNT && IsDir(v, c)
    requires WalkComps(links, ROOT_INODE, [NAME_A]) == Some(c) && IsDir(v, ROOT_INODE) && c != ROOT_INODE
    requires forall e :: e in links <==> e == (ROOT_INODE as nat, Pad(NAME_A))
    ensures CanRename(v, links, NAME_A, PATH_AB) && Resolve(links, NAME_A) == Some(c) && Resolve(links, PATH_AB) == None
    ensures ParentDir(v, links, NAME_A) == Some(ROOT_INODE) && ParentDir(v, links, PATH_AB) == Some(c)
    ensures Linkable(links, c, NAME_B)
  {
    NamesFit();
    PathAb();
    ResolveParts(links, PATH_AB);
  }

  lemma AbMoved(v1: Vol, g1: Books, v2: Vol, g2: Books, v': Vol, g': Books, ok: bool, c: u32)
    requires FsOk(v1, g1) && Shape(v') && c < INODE_COUNT && IsDir(v1, c) && v1.inodes[c] == NewInode(T_DIR, 1)
    requires !Full(v1) && Renaming(v1, g1, v2, g2, v', g', NAME_A, PATH_AB, ok)
    requires Resolve(g1.links, NAME_A) == Some(c) && Resolve(g1.links, PATH_AB) == None
    requires ParentDir(v1, g1.links, NAME_A) == Some(ROOT_INODE) && ParentDir(v1, g1.links, PATH_AB) == Some(c)
    requires Linkable(g1.links, c, NAME_B)
    ensures ok && FsOk(v', g') && LiveNode(v', c) && !Reachable(g'.links, c)
  {
    NamesFit();
    PathAb();
    assert HasRoom(v1, c);
    assert PathMoved(g1.links, g'.links, [NAME_A], [NAME_A, NAME_B]);
    WalkCompsIsWalk(g1.links, ROOT_INODE, [NAME_A]);
    MovedIntoItself(g1.links, g'.links, [NAME_A], [NAME_A, NAME_B], c);
  }

  // --- names that are cut off ----------------------------------------------------------------------------------

  /** A name of 29 letters `a`: `create` succeeds twice, and the directory then holds two entries of one
      stored name. */
  method LongNameExample(st: Store) returns (a: Option<u32>, b: Option<u32>)
    requires st.Valid() && Formatted(st.vol)
    modifies st`disk, st`vol, st.cache
    ensures st.Valid() && a.Some? && b.Some? && a != b && NoLinks(st.vol)
  {
    ghost var v, g := st.vol, FormattedBooks(st.vol);
    var name := seq(29, _ => 97);
    FormattedEmpty(v);
    assert Linkable(map[], ROOT_INODE, name);
    a, g := Create(st, name, g);
    SecondName(v, st.vol, g.links, name, a.value);
    b, g := Create(st, name, g);
  }

  lemma ThirdIsNext(v: Vol)
    requires |v.inodes| == INODE_COUNT && v.inodes[2].kind != T_FREE && v.inodes[3].kind == T_FREE
    ensures NextFree(v) == 3
  {
    assert NextFrom(v, 2) == NextFrom(v, 3);
  }

  lemma SecondName(v: Vol, v1: Vol, links1: Links, name: seq<u8>, c: u32)
    requires Formatted(v) && Shape(v1) && Entries(v1, links1) && |name| == 29 && c == 2
    requires Added(v, map[], v1, links1, ROOT_INODE, name, T_FILE, c)
    ensures NextFree(v1) == 3 && HasRoom(v1, ROOT_INODE) && !Linkable(links1, ROOT_INODE, name)
    ensures LookupIn(links1, ROOT_INODE, name) == None
  {
    assert (ROOT_INODE as nat, Pad(name)) in EdgesOf(links1);
    assert v1.inodes[3] == NewInode(T_FREE, 0) && v1.inodes[2].kind == T_FILE;
    ThirdIsNext(v1);
    assert DirOk(v1.inodes[ROOT_INODE]);
    RootHasRoom(v1);
  }
}
