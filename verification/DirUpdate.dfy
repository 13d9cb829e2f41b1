/** `dir_link` and `clear_dirent` (kernel/src/fs.rs): one 32-byte entry is stored, which adds or
    removes exactly one link. Both are proved through the byte-level file contents. */
module DirUpdate {
  import opened Wrappers
  import opened DiskFormat
  import opened BlockStore
  import opened BlockMap
  import opened FileData
  import opened Directory

  /** The bytes of entry `k` as file bytes of the directory. */
  lemma EntryBytes(v: Vol, d: nat, k: nat, j: nat)
    requires d < |v.inodes| && DirOk(v.inodes[d]) && k < Count(v.inodes[d]) && j < DIRENT_SIZE
    ensures k < MAX_ENTRIES
    ensures InoByte(v, d, k * DIRENT_SIZE + j) ==
            Some(BlockAt(v, v.inodes[d].direct[k / DIRENTS_PER_BLOCK])[k % DIRENTS_PER_BLOCK * DIRENT_SIZE + j])
  {
  }

  /** Equal file bytes are equal entries. */
  lemma EntrySame(v: Vol, v': Vol, d: nat, k: nat)
    requires d < |v.inodes| == |v'.inodes|
    requires DirOk(v.inodes[d]) && k < Count(v.inodes[d]) && DirOk(v'.inodes[d]) && k < Count(v'.inodes[d])
    requires forall pos: nat :: k * DIRENT_SIZE <= pos < (k + 1) * DIRENT_SIZE ==>
               InoByte(v', d, pos) == InoByte(v, d, pos)
    ensures k < MAX_ENTRIES && Entry(v', v'.inodes[d], k) == Entry(v, v.inodes[d], k)
  {
    CountBlocks(v.inodes[d], k);
    var a := BlockAt(v, v.inodes[d].direct[k / DIRENTS_PER_BLOCK]);
    var b := BlockAt(v', v'.inodes[d].direct[k / DIRENTS_PER_BLOCK]);
    var off := k % DIRENTS_PER_BLOCK * DIRENT_SIZE;
    forall i | off <= i < off + DIRENT_SIZE ensures b[i] == a[i] {
      EntryBytes(v, d, k, i - off);
      EntryBytes(v', d, k, i - off);
    }
    DirentAtFrame(b, a, off);
  }

  lemma EntryIs(v: Vol, d: nat, k: nat, name: seq<u8>, ino: u32)
    requires d < |v.inodes| && DirOk(v.inodes[d]) && k < Count(v.inodes[d])
    requires forall j :: 0 <= j < DIRENT_SIZE ==> InoByte(v, d, k * DIRENT_SIZE + j) == Some(DirentBytes(name, ino)[j])
    ensures k < MAX_ENTRIES && Entry(v, v.inodes[d], k) == Dirent(Pad(name), ino)
  {
    CountBlocks(v.inodes[d], k);
    var b := BlockAt(v, v.inodes[d].direct[k / DIRENTS_PER_BLOCK]);
    var off := k % DIRENTS_PER_BLOCK * DIRENT_SIZE;
    forall j | 0 <= j < DIRENT_SIZE ensures b[off + j] == DirentBytes(name, ino)[j] {
      EntryBytes(v, d, k, j);
    }
    DirentFromBytes(b, off, name, ino);
  }

  /** A store of one entry at slot `k` of directory `p`, everything else unchanged. */
  ghost predicate StoredEntry(v: Vol, v': Vol, p: nat, k: nat, name: seq<u8>, ino: u32)
    requires p < |v.inodes| == |v'.inodes|
  {
    OthersSame(v, v', p) && Wrote(v, v', p, k * DIRENT_SIZE, DirentBytes(name, ino))
  }

  /** The other slots of `p`, and every slot of other directories, keep their entries. */
  lemma StoredOthers(v: Vol, v': Vol, p: nat, k: nat, name: seq<u8>, ino: u32, d: nat, i: nat)
    requires p < |v.inodes| == |v'.inodes| && d < |v.inodes| && StoredEntry(v, v', p, k, name, ino)
    requires d != p || i != k
    requires DirOk(v.inodes[d]) && i < Count(v.inodes[d]) && DirOk(v'.inodes[d]) && i < Count(v'.inodes[d])
    ensures i < MAX_ENTRIES && Entry(v', v'.inodes[d], i) == Entry(v, v.inodes[d], i)
  {
    forall pos: nat | i * DIRENT_SIZE <= pos < (i + 1) * DIRENT_SIZE
      ensures InoByte(v', d, pos) == InoByte(v, d, pos)
    {
      if d == p {
        assert WroteAt(v, v', p, k * DIRENT_SIZE, DirentBytes(name, ino), pos);
        EntryBytes(v, d, i, pos - i * DIRENT_SIZE);
      }
    }
    EntrySame(v, v', d, i);
  }

  lemma StoredNew(v: Vol, v': Vol, p: nat, k: nat, name: seq<u8>, ino: u32)
    requires p < |v.inodes| == |v'.inodes| && StoredEntry(v, v', p, k, name, ino)
    requires DirOk(v'.inodes[p]) && k < Count(v'.inodes[p])
    ensures k < MAX_ENTRIES && Entry(v', v'.inodes[p], k) == Dirent(Pad(name), ino)
  {
    forall j | 0 <= j < DIRENT_SIZE
      ensures InoByte(v', p, k * DIRENT_SIZE + j) == Some(DirentBytes(name, ino)[j])
    {
      assert WroteAt(v, v', p, k * DIRENT_SIZE, DirentBytes(name, ino), k * DIRENT_SIZE + j);
    }
    EntryIs(v', p, k, name, ino);
  }

  /** A direct pointer is set exactly when the first byte of its block is mapped. */
  lemma DirectMapped(v: Vol, d: nat, i: nat)
    requires d < |v.inodes| && i < NDIRECT
    ensures v.inodes[d].direct[i] != 0 <==> InoByte(v, d, i * BLOCK_SIZE).Some?
  {
  }

  /** Appending an entry keeps the directory's blocks contiguous. */
  lemma AppendDirOk(v: Vol, v': Vol, p: nat, name: seq<u8>, ino: u32)
    requires p < |v.inodes| == |v'.inodes| && DirOk(v.inodes[p]) && v.inodes[p].size < NDIRECT * BLOCK_SIZE
    requires StoredEntry(v, v', p, Count(v.inodes[p]), name, ino)
    requires v'.inodes[p].size == v.inodes[p].size + DIRENT_SIZE
    requires v'.inodes[p].indirect == v.inodes[p].indirect && v'.inodes[p].double == v.inodes[p].double
    ensures DirOk(v'.inodes[p])
  {
    var size := v.inodes[p].size;
    forall i | 0 <= i < NDIRECT
      ensures v'.inodes[p].direct[i] != 0 <==> v.inodes[p].direct[i] != 0 || i == size / BLOCK_SIZE
    {
      AppendMaps(v, v', p, name, ino, i);
    }
    var bi := size / BLOCK_SIZE;
    assert bi * BLOCK_SIZE <= size < (bi + 1) * BLOCK_SIZE && size + DIRENT_SIZE <= (bi + 1) * BLOCK_SIZE;
  }

  lemma AppendMaps(v: Vol, v': Vol, p: nat, name: seq<u8>, ino: u32, i: nat)
    requires p < |v.inodes| == |v'.inodes| && DirOk(v.inodes[p]) && i < NDIRECT
    requires StoredEntry(v, v', p, Count(v.inodes[p]), name, ino)
    ensures v'.inodes[p].direct[i] != 0 <==> v.inodes[p].direct[i] != 0 || i == v.inodes[p].size / BLOCK_SIZE
  {
    var size := v.inodes[p].size;
    DirectMapped(v, p, i);
    DirectMapped(v', p, i);
    assert WroteAt(v, v', p, size, DirentBytes(name, ino), i * BLOCK_SIZE);
    assert Touched(i * BLOCK_SIZE, size, size + DIRENT_SIZE) <==> i == size / BLOCK_SIZE;
  }

  /** An entry for `name` can be added to directory `p`: what will be stored, the first 28 bytes, has no
      NUL before another byte and is not the name of an entry already. For a name without NULs of at most
      28 bytes this is what a failed lookup says. */
  ghost predicate Linkable(links: Links, p: nat, name: seq<u8>) { Padded(Pad(name)) && (p, Pad(name)) !in links }

  /** The directories have no consistent set of links any more. */
  ghost predicate NoLinks(v: Vol) { forall links: Links :: !Entries(v, links) }

  /** The new link set after appending. */
  lemma EntriesAppend(v: Vol, v': Vol, links: Links, p: nat, name: seq<u8>, ino: u32)
    requires Entries(v, links) && |v'.inodes| == INODE_COUNT && IsDir(v, p) && v.inodes[p].size < NDIRECT * BLOCK_SIZE
    requires StoredEntry(v, v', p, Count(v.inodes[p]), name, ino)
    requires v'.inodes[p].size == v.inodes[p].size + DIRENT_SIZE && IsDir(v', p) && DirOk(v'.inodes[p])
    requires Linkable(links, p, name) && ino != 0
    ensures Entries(v', links[(p, Pad(name)) := Link(Count(v.inodes[p]), ino)])
  {
    var last := Count(v.inodes[p]);
    var links' := links[(p, Pad(name)) := Link(last, ino)];
    StoredNew(v, v', p, last, name, ino);
    forall e | e in links'
      ensures IsDir(v', e.0) && Padded(e.1) && links'[e].ino != 0
      ensures links'[e].k < Count(v'.inodes[e.0]) <= MAX_ENTRIES
      ensures Entry(v', v'.inodes[e.0], links'[e].k) == Dirent(e.1, links'[e].ino)
    {
      if e != (p, Pad(name)) {
        StoredOthers(v, v', p, last, name, ino, e.0, links[e].k);
      }
    }
    forall d, k | 0 <= d < INODE_COUNT && IsDir(v', d) && 0 <= k < Count(v'.inodes[d]) <= MAX_ENTRIES
      ensures LiveEntryLinked(v', links', d, k)
    {
      if d != p || k != last {
        StoredOthers(v, v', p, last, name, ino, d, k);
        assert LiveEntryLinked(v, links, d, k);
      }
    }
  }

  /** Appending any other name leaves a directory with two entries of one name, or with a stored name that
      shorter names match as well. */
  lemma EntriesBroken(v: Vol, v': Vol, links: Links, p: nat, name: seq<u8>, ino: u32)
    requires Entries(v, links) && |v'.inodes| == INODE_COUNT && IsDir(v, p) && v.inodes[p].size < NDIRECT * BLOCK_SIZE
    requires StoredEntry(v, v', p, Count(v.inodes[p]), name, ino)
    requires v'.inodes[p].size == v.inodes[p].size + DIRENT_SIZE && IsDir(v', p) && DirOk(v'.inodes[p])
    requires !Linkable(links, p, name) && ino != 0
    ensures NoLinks(v')
  {
    var last := Count(v.inodes[p]);
    StoredNew(v, v', p, last, name, ino);
    forall links': Links ensures !Entries(v', links') {
      if Entries(v', links') {
        assert LiveEntryLinked(v', links', p, last);
        if Padded(Pad(name)) {
          var k := links[(p, Pad(name))].k;
          StoredOthers(v, v', p, last, name, ino, p, k);
          OneEntry(v', links', p, k, last);
        }
      }
    }
  }

  /** Live entries of one directory have different names. */
  lemma OneEntry(v: Vol, links: Links, d: nat, a: nat, b: nat)
    requires Entries(v, links) && IsDir(v, d) && a < Count(v.inodes[d]) && b < Count(v.inodes[d]) <= MAX_ENTRIES
    requires Entry(v, v.inodes[d], a).ino != 0 && Entry(v, v.inodes[d], b).ino != 0
    requires Entry(v, v.inodes[d], a).name == Entry(v, v.inodes[d], b).name
    ensures a == b
  {
    assert LiveEntryLinked(v, links, d, a) && LiveEntryLinked(v, links, d, b);
  }

  /** A name that fits the field and is not found can be added. */
  lemma GoodIsLinkable(links: Links, p: nat, name: seq<u8>)
    requires GoodName(name) && LookupIn(links, p, name) == None
    ensures Linkable(links, p, name)
  {
  }

  /** The link set after clearing the slot of one link. */
  lemma EntriesClear(v: Vol, v': Vol, links: Links, e0: (nat, Name))
    requires Entries(v, links) && |v'.inodes| == INODE_COUNT && e0 in links
    requires StoredEntry(v, v', e0.0, links[e0].k, [], 0) && v'.inodes[e0.0] == v.inodes[e0.0]
    ensures Entries(v', links - {e0})
  {
    var p, k0 := e0.0, links[e0].k;
    var links' := links - {e0};
    StoredNew(v, v', p, k0, [], 0);
    forall e | e in links'
      ensures IsDir(v', e.0) && Entry(v', v'.inodes[e.0], links[e].k) == Dirent(e.1, links[e].ino)
    {
      assert e.0 != p || links[e].k != k0;
      StoredOthers(v, v', p, k0, [], 0, e.0, links[e].k);
    }
    forall d, k | 0 <= d < INODE_COUNT && IsDir(v', d) && 0 <= k < Count(v'.inodes[d]) <= MAX_ENTRIES
      ensures LiveEntryLinked(v', links', d, k)
    {
      if d != p || k != k0 {
        StoredOthers(v, v', p, k0, [], 0, d, k);
        assert LiveEntryLinked(v, links, d, k);
      }
    }
  }

  // --- an entry moves: stored under its new name, then cleared under the old one ----------------------

  /** Entry `s` of `links` was stored again as (`dp`, `name`), giving `v1`; then the slot of the first
      match for `s` was cleared. */
  ghost predicate Restored(v: Vol, v1: Vol, v': Vol, links: Links, s: (nat, Name), dp: nat, name: seq<u8>, slot: nat) {
    && Entries(v, links) && |v1.inodes| == |v'.inodes| == INODE_COUNT && s in links && IsDir(v, dp)
    && v.inodes[dp].size < NDIRECT * BLOCK_SIZE && v1.inodes[dp].size == v.inodes[dp].size + DIRENT_SIZE
    && IsDir(v1, dp) && DirOk(v1.inodes[dp]) && StoredEntry(v, v1, dp, Count(v.inodes[dp]), name, links[s].ino)
    && v'.inodes == v1.inodes && StoredEntry(v1, v', s.0, slot, [], 0) && slot < Count(v1.inodes[s.0]) <= MAX_ENTRIES
    && slot == links[s].k
  }

  /** The old entry is still there to be found. */
  lemma OldSlotThere(v: Vol, v1: Vol, links: Links, p: nat, name: seq<u8>, dp: nat, dname: seq<u8>, ino: u32)
    requires Entries(v, links) && |v1.inodes| == INODE_COUNT && LookupIn(links, p, name) == Some(ino)
    requires IsDir(v, dp) && DirOk(v1.inodes[p]) && StoredEntry(v, v1, dp, Count(v.inodes[dp]), dname, ino)
    requires Count(v.inodes[p]) <= Count(v1.inodes[p]) <= MAX_ENTRIES
    ensures var k := links[(p, Pad(name))].k;
            k < Count(v1.inodes[p]) && Matches(ByEntry(ino, name), Entry(v1, v1.inodes[p], k))
  {
    var k := links[(p, Pad(name))].k;
    StoredOthers(v, v1, dp, Count(v.inodes[dp]), dname, ino, p, k);
    NameEqIsPad(Pad(name), name);
  }

  /** The clearing hits the old entry, even when the new one has the same name: it comes first. */
  lemma OldSlotFirst(v: Vol, v1: Vol, links: Links, p: nat, name: seq<u8>, dp: nat, dname: seq<u8>, ino: u32, slot: nat)
    requires Entries(v, links) && |v1.inodes| == INODE_COUNT && LookupIn(links, p, name) == Some(ino)
    requires IsDir(v, dp) && DirOk(v1.inodes[p]) && StoredEntry(v, v1, dp, Count(v.inodes[dp]), dname, ino)
    requires Count(v.inodes[p]) <= Count(v1.inodes[p]) && slot < Count(v1.inodes[p]) <= MAX_ENTRIES
    requires FirstMatch(v1, v1.inodes[p], ByEntry(ino, name), slot)
    ensures slot == links[(p, Pad(name))].k
  {
    var k := links[(p, Pad(name))].k;
    StoredOthers(v, v1, dp, Count(v.inodes[dp]), dname, ino, p, k);
    NameEqIsPad(Pad(name), name);
    if slot < k {
      StoredOthers(v, v1, dp, Count(v.inodes[dp]), dname, ino, p, slot);
      FoundIsLinked(v, links, p, slot, name);
    }
  }

  /** Slots other than the two keep their entries. */
  lemma RestoredOther(v: Vol, v1: Vol, v': Vol, links: Links, s: (nat, Name), dp: nat, name: seq<u8>, slot: nat,
                      d: nat, k: nat)
    requires Restored(v, v1, v', links, s, dp, name, slot)
    requires d < INODE_COUNT && DirOk(v.inodes[d]) && k < Count(v.inodes[d]) && (d != s.0 || k != slot)
    requires DirOk(v1.inodes[d]) && k < Count(v1.inodes[d])
    ensures k < MAX_ENTRIES && Entry(v', v'.inodes[d], k) == Entry(v, v.inodes[d], k)
  {
    StoredOthers(v, v1, dp, Count(v.inodes[dp]), name, links[s].ino, d, k);
    StoredOthers(v1, v', s.0, slot, [], 0, d, k);
  }

  /** The new entry is there, and the old slot is blank. */
  lemma RestoredSlots(v: Vol, v1: Vol, v': Vol, links: Links, s: (nat, Name), dp: nat, name: seq<u8>, slot: nat)
    requires Restored(v, v1, v', links, s, dp, name, slot)
    ensures DirOk(v1.inodes[dp]) && Count(v1.inodes[dp]) == Count(v.inodes[dp]) + 1 <= MAX_ENTRIES
    ensures Entry(v', v'.inodes[dp], Count(v.inodes[dp])) == Dirent(Pad(name), links[s].ino)
    ensures Entry(v', v'.inodes[s.0], slot).ino == 0
  {
    var last := Count(v.inodes[dp]);
    StoredNew(v, v1, dp, last, name, links[s].ino);
    StoredOthers(v1, v', s.0, slot, [], 0, dp, last);
    StoredNew(v1, v', s.0, slot, [], 0);
  }

  /** Under a name that is cut to the old one the entry changes its slot and nothing else. */
  lemma EntriesSameName(v: Vol, v1: Vol, v': Vol, links: Links, s: (nat, Name), name: seq<u8>, slot: nat)
    requires Restored(v, v1, v', links, s, s.0, name, slot) && s.1 == Pad(name)
    ensures Entries(v', links[s := Link(Count(v.inodes[s.0]), links[s].ino)])
  {
    var links' := links[s := Link(Count(v.inodes[s.0]), links[s].ino)];
    RestoredDirs(v, v1, v', links, s, s.0, name, slot);
    forall e | e in links' ensures LinkStored(v', links', e) {
      SameNameStored(v, v1, v', links, s, name, slot, e);
    }
    forall d, k | 0 <= d < INODE_COUNT && IsDir(v', d) && 0 <= k < Count(v'.inodes[d]) <= MAX_ENTRIES
      ensures LiveEntryLinked(v', links', d, k)
    {
      SameNameLinked(v, v1, v', links, s, name, slot, d, k);
    }
    AllStored(v', links');
  }

  lemma RestoredDirs(v: Vol, v1: Vol, v': Vol, links: Links, s: (nat, Name), dp: nat, name: seq<u8>, slot: nat)
    requires Restored(v, v1, v', links, s, dp, name, slot)
    ensures DirsOk(v')
  {
    RestoredSlots(v, v1, v', links, s, dp, name, slot);
  }

  ghost predicate DirsOk(v: Vol) {
    |v.inodes| == INODE_COUNT && forall d :: 0 <= d < INODE_COUNT && IsDir(v, d) ==> DirOk(v.inodes[d])
  }

  lemma AllStored(v: Vol, links: Links)
    requires DirsOk(v) && (forall e :: e in links ==> LinkStored(v, links, e))
    requires forall d, k :: 0 <= d < INODE_COUNT && IsDir(v, d) && 0 <= k < Count(v.inodes[d]) <= MAX_ENTRIES ==>
               LiveEntryLinked(v, links, d, k)
    ensures Entries(v, links)
  {
  }

  ghost predicate LinkStored(v: Vol, links: Links, e: (nat, Name))
    requires |v.inodes| == INODE_COUNT && e in links
  {
    && IsDir(v, e.0) && Padded(e.1) && links[e].ino != 0 && links[e].k < Count(v.inodes[e.0]) <= MAX_ENTRIES
    && Entry(v, v.inodes[e.0], links[e].k) == Dirent(e.1, links[e].ino)
  }

  lemma SameNameStored(v: Vol, v1: Vol, v': Vol, links: Links, s: (nat, Name), name: seq<u8>, slot: nat, e: (nat, Name))
    requires Restored(v, v1, v', links, s, s.0, name, slot) && s.1 == Pad(name) && e in links
    ensures LinkStored(v', links[s := Link(Count(v.inodes[s.0]), links[s].ino)], e)
  {
    RestoredSlots(v, v1, v', links, s, s.0, name, slot);
    if e != s {
      RestoredOther(v, v1, v', links, s, s.0, name, slot, e.0, links[e].k);
    }
  }

  lemma SameNameLinked(v: Vol, v1: Vol, v': Vol, links: Links, s: (nat, Name), name: seq<u8>, slot: nat, d: nat, k: nat)
    requires Restored(v, v1, v', links, s, s.0, name, slot) && s.1 == Pad(name)
    requires d < INODE_COUNT && IsDir(v', d) && k < Count(v'.inodes[d]) <= MAX_ENTRIES
    ensures LiveEntryLinked(v', links[s := Link(Count(v.inodes[s.0]), links[s].ino)], d, k)
  {
    RestoredSlots(v, v1, v', links, s, s.0, name, slot);
    if d != s.0 || (k != Count(v.inodes[d]) && k != slot) {
      RestoredOther(v, v1, v', links, s, s.0, name, slot, d, k);
      assert LiveEntryLinked(v, links, d, k);
    }
  }

  /** Under any other name that cannot be added there are two entries of one name, or a stored name that
      shorter names match as well. */
  lemma EntriesMixedUp(v: Vol, v1: Vol, v': Vol, links: Links, s: (nat, Name), dp: nat, name: seq<u8>, slot: nat)
    requires Restored(v, v1, v', links, s, dp, name, slot) && s != (dp, Pad(name)) && !Linkable(links, dp, name)
    ensures NoLinks(v')
  {
    var last := Count(v.inodes[dp]);
    RestoredSlots(v, v1, v', links, s, dp, name, slot);
    forall links': Links ensures !Entries(v', links') {
      if Entries(v', links') {
        assert LiveEntryLinked(v', links', dp, last);
        if Padded(Pad(name)) {
          var k := links[(dp, Pad(name))].k;
          RestoredOther(v, v1, v', links, s, dp, name, slot, dp, k);
          OneEntry(v', links', dp, k, last);
        }
      }
    }
  }

  /** Operations on a non-directory inode leave all entries alone. */
  lemma EntriesOther(v: Vol, v': Vol, links: Links, ino: nat)
    requires Entries(v, links) && |v'.inodes| == INODE_COUNT && ino < INODE_COUNT && OthersSame(v, v', ino)
    requires !IsDir(v, ino)
    requires IsDir(v', ino) ==> DirOk(v'.inodes[ino]) && v'.inodes[ino].size == 0
    ensures Entries(v', links)
  {
    forall d, k | 0 <= d < INODE_COUNT && IsDir(v, d) && 0 <= k < Count(v.inodes[d])
      ensures k < MAX_ENTRIES && Entry(v', v'.inodes[d], k) == Entry(v, v.inodes[d], k)
    {
      EntrySame(v, v', d, k);
    }
    forall d, k | 0 <= d < INODE_COUNT && IsDir(v', d) && 0 <= k < Count(v'.inodes[d]) <= MAX_ENTRIES
      ensures LiveEntryLinked(v', links, d, k)
    {
      assert LiveEntryLinked(v, links, d, k);
    }
  }

  /** A new entry fits in directory `p`: it has not used up its 28 blocks, and the block at its end
      is there already or can be allocated. */
  ghost predicate HasRoom(v: Vol, p: nat)
    requires Shape(v) && p < INODE_COUNT
  {
    var bi := v.inodes[p].size / BLOCK_SIZE;
    bi < NDIRECT && (v.inodes[p].direct[bi] != 0 || !Full(v))
  }

  /** `dir_link`: appends an entry, refusing only when the directory has used its 28 blocks or a
      new block is needed and none is free; a refusal changes nothing. */
  method DirLink(st: Store, p: u32, name: seq<u8>, ino: u32, ghost owner: Owner, ghost links: Links)
    returns (ok: bool, ghost owner': Owner)
    requires st.Valid() && p < INODE_COUNT && Owns(st.vol, owner) && Entries(st.vol, links) && IsDir(st.vol, p)
    modifies st`disk, st`vol, st.cache
    ensures st.Valid() && Owns(st.vol, owner') && SameLost(owner, owner')
    ensures !ok ==> st.vol == old(st.vol) && owner' == owner
    ensures ok <==> HasRoom(old(st.vol), p)
    ensures ok ==> OthersSame(old(st.vol), st.vol, p) && st.vol.l == old(st.vol).l
    ensures ok ==> IsDir(st.vol, p) && DirOk(st.vol.inodes[p])
    ensures ok ==> st.vol.inodes[p].size == old(st.vol).inodes[p].size + DIRENT_SIZE
    ensures ok ==> StoredEntry(old(st.vol), st.vol, p, Count(old(st.vol).inodes[p]), name, ino)
    ensures ok && ino != 0 && !Linkable(links, p, name) ==> NoLinks(st.vol)
    ensures ok && ino != 0 && Linkable(links, p, name) ==>
              Entries(st.vol, links[(p, Pad(name)) := Link(Count(old(st.vol).inodes[p]), ino)])
  {
    ghost var v := st.vol;
    var dir := st.ReadInode(p);
    var off := dir.size;
    owner' := owner;
    ok := off / BLOCK_SIZE < NDIRECT;
    if ok {
      assert With(v, p, dir) == v;
      var dir';
      ok, dir', owner' := WriteChunk(st, dir, off, DirentBytes(name, ino), p, owner);
      if ok {
        ghost var w := With(st.vol, p, dir');
        var n := Inode(dir'.kind, dir'.nlink, dir'.size + DIRENT_SIZE, dir'.direct, dir'.indirect, dir'.double);
        AppendFinish(v, w, owner', p, n, name, ino);
        st.PutInode(p, n);
        assert st.vol == With(w, p, n);
        AppendDirOk(v, st.vol, p, name, ino);
        if ino != 0 {
          if Linkable(links, p, name) {
            EntriesAppend(v, st.vol, links, p, name, ino);
          } else {
            EntriesBroken(v, st.vol, links, p, name, ino);
          }
        }
      }
    }
  }

  lemma AppendFinish(v: Vol, w: Vol, owner: Owner, p: nat, n: Inode, name: seq<u8>, ino: u32)
    requires p < INODE_COUNT == |v.inodes| && Owns(w, owner) && DirOk(v.inodes[p])
    requires OthersSame(v, w, p) && Wrote(v, w, p, v.inodes[p].size, DirentBytes(name, ino))
    requires n.direct == w.inodes[p].direct && n.indirect == w.inodes[p].indirect && n.double == w.inodes[p].double
    ensures Owns(With(w, p, n), owner)
    ensures StoredEntry(v, With(w, p, n), p, Count(v.inodes[p]), name, ino)
  {
    SizeOnly(w, owner, p, n, v.inodes[p].size + DIRENT_SIZE);
    WroteTwice(v, w, With(w, p, n), p, v.inodes[p].size, DirentBytes(name, ino), []);
    assert DirentBytes(name, ino) + [] == DirentBytes(name, ino);
    assert Count(v.inodes[p]) * DIRENT_SIZE == v.inodes[p].size;
  }

  /** `clear_dirent`: the entry of (`ino`, `name`) is zeroed; the link is gone, nothing else changes. */
  method ClearDirent(st: Store, p: u32, ino: u32, name: seq<u8>, ghost owner: Owner, ghost links: Links)
    returns (found: bool, ghost slot: nat)
    requires st.Valid() && p < INODE_COUNT && Owns(st.vol, owner) && DirOk(st.vol.inodes[p]) && ino != 0
    modifies st`disk, st`vol, st.cache
    ensures st.Valid() && Owns(st.vol, owner) && st.vol.l == old(st.vol).l
    ensures st.vol.inodes == old(st.vol).inodes && st.vol.used == old(st.vol).used
    ensures OthersSame(old(st.vol), st.vol, p) && (!found ==> st.vol == old(st.vol))
    ensures found ==>
              && slot < Count(old(st.vol).inodes[p]) <= MAX_ENTRIES
              && FirstMatch(old(st.vol), old(st.vol).inodes[p], ByEntry(ino, name), slot)
              && StoredEntry(old(st.vol), st.vol, p, slot, [], 0)
    ensures !found ==> forall k :: 0 <= k < Count(st.vol.inodes[p]) <= MAX_ENTRIES ==>
                        !Matches(ByEntry(ino, name), Entry(st.vol, st.vol.inodes[p], k))
    ensures Entries(old(st.vol), links) && IsDir(old(st.vol), p) ==>
              && (found <==> LookupIn(links, p, name) == Some(ino))
              && (found ==> Entries(st.vol, links - {(p, Pad(name))}))
  {
    ghost var v := st.vol;
    var dir := st.ReadInode(p);
    DirBlocks(st.vol, owner, p);
    var hit := Scan(st, dir, ByEntry(ino, name));
    found, slot := hit.Some?, 0;
    if found {
      slot := hit.value;
      StoreEntry(st, dir, hit.value, [], 0, p, owner);
      if Entries(v, links) && IsDir(v, p) {
        FoundIsLinked(v, links, p, hit.value, name);
        EntriesClear(v, st.vol, links, (p, Pad(name)));
      }
    } else if Entries(v, links) && IsDir(v, p) {
      EntryIsFound(v, links, p, name, ino);
    }
  }

  /** Rewrites one entry of a directory in place. */
  method StoreEntry(st: Store, dir: Inode, k: nat, name: seq<u8>, ino: u32, ghost p: nat, ghost owner: Owner)
    requires st.Valid() && p < INODE_COUNT && Owns(st.vol, owner) && st.vol.inodes[p] == dir
    requires DirOk(dir) && k < Count(dir)
    modifies st`disk, st`vol, st.cache
    ensures st.Valid() && Owns(st.vol, owner) && st.vol.l == old(st.vol).l
    ensures st.vol.inodes == old(st.vol).inodes && st.vol.used == old(st.vol).used
    ensures StoredEntry(old(st.vol), st.vol, p, k, name, ino)
  {
    ghost var v := st.vol;
    CountBlocks(dir, k);
    DirBlocks(v, owner, p);
    var b := dir.direct[k / DIRENTS_PER_BLOCK];
    var off := k % DIRENTS_PER_BLOCK * DIRENT_SIZE;
    var data := st.ReadData(b);
    PutDirentBytes(data, off, name, ino);
    assert k * DIRENT_SIZE / BLOCK_SIZE == k / DIRENTS_PER_BLOCK && k * DIRENT_SIZE % BLOCK_SIZE == off;
    var data' := PutDirent(data, off, name, ino);
    ChunkWrote(v, owner, v, owner, p, k * DIRENT_SIZE, DirentBytes(name, ino), b, data');
    st.WriteData(b, data');
  }
}
