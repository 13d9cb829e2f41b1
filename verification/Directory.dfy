/** Directories (kernel/src/fs.rs): 32-byte entries in the direct blocks of an inode.

    `Entries` says that a ghost map `links` from (directory, name) to (slot, inode) is exactly
    the live entries of all directories; since it is a map, live names are unique in each
    directory. `dir_lookup`, `dir_link`, `clear_dirent` and `dir_is_empty` are proved against it. */
module Directory {
  import opened Wrappers
  import opened DiskFormat
  import opened BlockStore
  import opened BlockMap

  datatype Link = Link(k: nat, ino: u32)

  type Links = map<(nat, Name), Link>

  const MAX_ENTRIES := NDIRECT * DIRENTS_PER_BLOCK

  function Count(n: Inode): (r: nat) { n.size / DIRENT_SIZE }

  /** A directory grows entry by entry, so its blocks are exactly the first ones, with at most one
      block mapped ahead of its size (the formatter gives an empty root directory one), and it never
      gets to the indirect tiers. */
  ghost predicate DirOk(n: Inode) {
    && n.size % DIRENT_SIZE == 0 && n.size <= NDIRECT * BLOCK_SIZE && n.indirect == 0 == n.double
    && (forall i :: 0 <= i < NDIRECT && i * BLOCK_SIZE < n.size ==> n.direct[i] != 0)
    && (forall i :: 0 <= i < NDIRECT && n.direct[i] != 0 ==> i * BLOCK_SIZE <= n.size)
  }

  /** Entry `k` of directory inode `n`. */
  function Entry(v: Vol, n: Inode, k: nat): (d: Dirent)
    requires k < MAX_ENTRIES
  {
    DirentAt(BlockAt(v, n.direct[k / DIRENTS_PER_BLOCK]), k % DIRENTS_PER_BLOCK * DIRENT_SIZE)
  }

  predicate IsDir(v: Vol, d: nat) { d < |v.inodes| && v.inodes[d].kind == T_DIR }

  ghost predicate Entries(v: Vol, links: Links) {
    && |v.inodes| == INODE_COUNT
    && (forall d :: 0 <= d < INODE_COUNT && IsDir(v, d) ==> DirOk(v.inodes[d]))
    && (forall e :: e in links ==>
         && IsDir(v, e.0) && Padded(e.1) && links[e].ino != 0
         && links[e].k < Count(v.inodes[e.0]) <= MAX_ENTRIES
         && Entry(v, v.inodes[e.0], links[e].k) == Dirent(e.1, links[e].ino))
    && (forall d, k :: 0 <= d < INODE_COUNT && IsDir(v, d) && 0 <= k < Count(v.inodes[d]) <= MAX_ENTRIES ==>
         LiveEntryLinked(v, links, d, k))
  }

  ghost predicate LiveEntryLinked(v: Vol, links: Links, d: nat, k: nat)
    requires d < |v.inodes| && k < MAX_ENTRIES
  {
    var e := Entry(v, v.inodes[d], k);
    e.ino != 0 ==> (d, e.name) in links && links[(d, e.name)] == Link(k, e.ino)
  }

  /** What looking `name` up in directory `d` should give. */
  function LookupIn(links: Links, d: nat, name: seq<u8>): (r: Option<u32>) {
    if |name| <= NAME_LEN && (d, Pad(name)) in links then Some(links[(d, Pad(name))].ino) else None
  }

  /** A name is found exactly when a live entry of the directory has it, and it gives that entry's number. */
  lemma LookupLaw(v: Vol, links: Links, d: nat, name: seq<u8>, i: u32)
    requires Entries(v, links) && IsDir(v, d)
    ensures LookupIn(links, d, name) == Some(i) <==>
            i != 0 && exists k :: 0 <= k < v.inodes[d].size / 32 && k < MAX_ENTRIES
                                  && NameEq(Entry(v, v.inodes[d], k).name, name) && Entry(v, v.inodes[d], k).ino == i
  {
    var n := v.inodes[d];
    if LookupIn(links, d, name) == Some(i) {
      var k := links[(d, Pad(name))].k;
      NameEqIsPad(Pad(name), name);
      assert Entry(v, n, k) == Dirent(Pad(name), i);
    }
    forall k | 0 <= k < n.size / 32 && k < MAX_ENTRIES && NameEq(Entry(v, n, k).name, name) && Entry(v, n, k).ino == i
               && i != 0
      ensures LookupIn(links, d, name) == Some(i)
    {
      assert DirOk(n) && LiveEntryLinked(v, links, d, k);
      NameEqIsPad(Entry(v, n, k).name, name);
    }
  }

  // --- scanning -----------------------------------------------------------------------

  datatype Want = ByName(name: seq<u8>) | ByEntry(ino: u32, name: seq<u8>) | AnyLive

  /** The tests of `dir_lookup`, `clear_dirent` and `dir_is_empty`. */
  predicate Matches(w: Want, d: Dirent) {
    match w
    case ByName(name) => d.ino != 0 && NameEq(d.name, name)
    case ByEntry(ino, name) => d.ino == ino && NameEq(d.name, name)
    case AnyLive => d.ino != 0
  }

  /** The inner loop: the first matching entry among the first `room` of one block. */
  method ScanBlock(data: Block, w: Want, room: nat) returns (r: Option<nat>)
    ensures r.Some? ==> r.value < DIRENTS_PER_BLOCK && r.value < room
                        && Matches(w, DirentAt(data, r.value * DIRENT_SIZE))
                        && forall j :: 0 <= j < r.value ==> !Matches(w, DirentAt(data, j * DIRENT_SIZE))
    ensures r.None? ==> forall j :: 0 <= j < DIRENTS_PER_BLOCK && j < room ==>
              !Matches(w, DirentAt(data, j * DIRENT_SIZE))
  {
    var j := 0;
    while j < DIRENTS_PER_BLOCK && j < room
      invariant 0 <= j <= DIRENTS_PER_BLOCK && j <= room
      invariant forall i :: 0 <= i < j ==> !Matches(w, DirentAt(data, i * DIRENT_SIZE))
    {
      if Matches(w, DirentAt(data, j * DIRENT_SIZE)) {
        return Some(j);
      }
      j := j + 1;
    }
    return None;
  }

  /** Slot `k` is the first that matches. */
  ghost predicate FirstMatch(v: Vol, n: Inode, w: Want, k: nat)
    requires k < MAX_ENTRIES
  {
    Matches(w, Entry(v, n, k)) && forall j :: 0 <= j < k ==> !Matches(w, Entry(v, n, j))
  }

  /** The scan shared by the directory operations: the first matching entry in slot order. */
  method Scan(st: Store, n: Inode, w: Want) returns (r: Option<nat>)
    requires st.Valid() && DirOk(n)
    requires forall i :: 0 <= i < NDIRECT && n.direct[i] != 0 ==> st.vol.l.dataStart <= n.direct[i] < st.vol.l.total
    modifies st.cache
    ensures st.Valid()
    ensures r.Some? ==> r.value < Count(n) <= MAX_ENTRIES && FirstMatch(st.vol, n, w, r.value)
    ensures r.None? ==> forall k :: 0 <= k < Count(n) <= MAX_ENTRIES ==> !Matches(w, Entry(st.vol, n, k))
  {
    var entries := n.size / DIRENT_SIZE;
    var seen := 0;
    for i := 0 to NDIRECT
      invariant st.Valid()
      invariant seen == if i * DIRENTS_PER_BLOCK < entries then i * DIRENTS_PER_BLOCK else entries
      invariant forall k :: 0 <= k < seen ==> !Matches(w, Entry(st.vol, n, k))
    {
      if n.direct[i] != 0 {
        BlockEntries(st.vol, n, i);
        var data := st.ReadData(n.direct[i]);
        var hit := ScanBlock(data, w, entries - seen);
        if hit.Some? {
          return Some(seen + hit.value);
        }
        seen := if entries - seen < DIRENTS_PER_BLOCK then entries else seen + DIRENTS_PER_BLOCK;
      }
    }
    return None;
  }

  lemma BlockEntries(v: Vol, n: Inode, i: nat)
    requires i < NDIRECT
    ensures forall k :: i * DIRENTS_PER_BLOCK <= k < (i + 1) * DIRENTS_PER_BLOCK ==>
              Entry(v, n, k) == DirentAt(BlockAt(v, n.direct[i]), (k - i * DIRENTS_PER_BLOCK) * DIRENT_SIZE)
  {
  }

  /** The blocks of a directory are owned through its direct pointers. */
  lemma DirBlocks(v: Vol, owner: Owner, d: nat)
    requires Owns(v, owner) && d < INODE_COUNT
    ensures forall i :: 0 <= i < NDIRECT && v.inodes[d].direct[i] != 0 ==>
              && v.l.dataStart <= v.inodes[d].direct[i] < v.l.total
              && v.inodes[d].direct[i] in owner && owner[v.inodes[d].direct[i]] == Key(d, Direct(i))
  {
    forall i | 0 <= i < NDIRECT && v.inodes[d].direct[i] != 0
      ensures v.l.dataStart <= v.inodes[d].direct[i] < v.l.total
      ensures v.inodes[d].direct[i] in owner && owner[v.inodes[d].direct[i]] == Key(d, Direct(i))
    {
      assert KeyPtr(v, Key(d, Direct(i))) == v.inodes[d].direct[i];
    }
  }

  /** `dir_lookup`: finds exactly the linked name. */
  method DirLookup(st: Store, d: u32, name: seq<u8>, ghost owner: Owner, ghost links: Links) returns (r: Option<u32>)
    requires st.Valid() && d < INODE_COUNT && Owns(st.vol, owner) && Entries(st.vol, links)
    modifies st.cache
    ensures st.Valid()
    ensures r == LookupIn(links, d, name)
  {
    var dir := st.ReadInode(d);
    r := None;
    if dir.kind == T_DIR {
      DirBlocks(st.vol, owner, d);
      var hit := Scan(st, dir, ByName(name));
      if hit.Some? {
        FoundIsLinked(st.vol, links, d, hit.value, name);
        var e := EntryRead(st, dir, hit.value);
        r := Some(e.ino);
      } else {
        LinkedIsFound(st.vol, links, d, name);
      }
    }
  }

  /** Reads one entry through the cache. */
  method EntryRead(st: Store, n: Inode, k: nat) returns (e: Dirent)
    requires st.Valid() && k < MAX_ENTRIES
    requires st.vol.l.dataStart <= n.direct[k / DIRENTS_PER_BLOCK] < st.vol.l.total
    modifies st.cache
    ensures st.Valid() && e == Entry(st.vol, n, k)
  {
    var data := st.ReadData(n.direct[k / DIRENTS_PER_BLOCK]);
    e := DirentAt(data, k % DIRENTS_PER_BLOCK * DIRENT_SIZE);
  }

  lemma FoundIsLinked(v: Vol, links: Links, d: nat, k: nat, name: seq<u8>)
    requires Entries(v, links) && IsDir(v, d) && k < Count(v.inodes[d])
    requires Entry(v, v.inodes[d], k).ino != 0 && NameEq(Entry(v, v.inodes[d], k).name, name)
    ensures LookupIn(links, d, name) == Some(Entry(v, v.inodes[d], k).ino)
    ensures |name| <= NAME_LEN && (d, Pad(name)) in links
            && links[(d, Pad(name))] == Link(k, Entry(v, v.inodes[d], k).ino)
    ensures v.inodes[d].direct[k / DIRENTS_PER_BLOCK] != 0
  {
    assert LiveEntryLinked(v, links, d, k);
    NameEqIsPad(Entry(v, v.inodes[d], k).name, name);
    CountBlocks(v.inodes[d], k);
  }

  lemma CountBlocks(n: Inode, k: nat)
    requires DirOk(n) && k < Count(n)
    ensures k < MAX_ENTRIES && n.direct[k / DIRENTS_PER_BLOCK] != 0
  {
  }

  lemma LinkedIsFound(v: Vol, links: Links, d: nat, name: seq<u8>)
    requires Entries(v, links) && IsDir(v, d)
    requires forall k :: 0 <= k < Count(v.inodes[d]) <= MAX_ENTRIES ==> !Matches(ByName(name), Entry(v, v.inodes[d], k))
    ensures LookupIn(links, d, name) == None
  {
  }

  lemma EntryIsFound(v: Vol, links: Links, d: nat, name: seq<u8>, ino: u32)
    requires Entries(v, links) && IsDir(v, d)
    requires forall k :: 0 <= k < Count(v.inodes[d]) <= MAX_ENTRIES ==>
               !Matches(ByEntry(ino, name), Entry(v, v.inodes[d], k))
    ensures LookupIn(links, d, name) != Some(ino)
  {
  }

  /** `dir_is_empty` */
  method DirIsEmpty(st: Store, d: u32, ghost owner: Owner, ghost links: Links) returns (empty: bool)
    requires st.Valid() && d < INODE_COUNT && Owns(st.vol, owner) && Entries(st.vol, links) && IsDir(st.vol, d)
    modifies st.cache
    ensures st.Valid()
    ensures empty <==> forall e :: e in links ==> e.0 != d
  {
    var dir := st.ReadInode(d);
    DirBlocks(st.vol, owner, d);
    var hit := Scan(st, dir, AnyLive);
    empty := hit.None?;
    if hit.Some? {
      assert LiveEntryLinked(st.vol, links, d, hit.value);
      assert (d, Entry(st.vol, dir, hit.value).name) in links;
    } else {
      forall e | e in links ensures e.0 != d {
        if e.0 == d {
          assert Matches(AnyLive, Entry(st.vol, dir, links[e].k));
        }
      }
    }
  }
}
