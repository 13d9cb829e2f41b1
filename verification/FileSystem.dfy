/** The path operations of kernel/src/fs.rs over one mounted volume: `namei`, `create`, `mkdir`,
    `unlink` and `rmdir`.
    `FsOk` combines block ownership, the directory contents and the tree shape. Every
    operation keeps it, including every failing one, and says for all paths what it does to
    path resolution and for all inodes what it does to file contents. */
module FileSystem {
  import opened Wrappers
  import opened DiskFormat
  import opened BlockStore
  import opened BlockMap
  import opened BlockFree
  import opened FileData
  import opened FsTree
  import opened Directory
  import opened DirUpdate
  import opened Paths

  // --- the tree behind the links -----------------------------------------------------

  function EdgesOf(links: Links): (r: Edges) { map e | e in links :: links[e].ino as nat }

  predicate Linked(links: Links, i: nat) { exists e :: e in links && links[e].ino == i }

  /** Live inodes other than the root are exactly the targets of links, one link each. */
  ghost predicate Live(v: Vol, links: Links) {
    && |v.inodes| == INODE_COUNT
    && IsDir(v, ROOT_INODE) && v.inodes[0].kind == T_FREE
    && Forest(EdgesOf(links), ROOT_INODE)
    && (forall e :: e in links ==> 2 <= links[e].ino < INODE_COUNT && v.inodes[links[e].ino].kind != T_FREE)
    && (forall i :: 2 <= i < INODE_COUNT && v.inodes[i].kind != T_FREE ==> Linked(links, i))
  }

  /** Free inodes are blank. The calls that free inodes see to that; a write through the number of a free
      inode does not. */
  ghost predicate Tidy(v: Vol) { forall i :: 0 <= i < |v.inodes| && v.inodes[i].kind == T_FREE ==> Blank(v, i) }

  ghost predicate Blank(v: Vol, i: nat)
    requires i < |v.inodes|
  {
    v.inodes[i] == NewInode(T_FREE, 0)
  }

  /** Entry `k` of a directory is the 32 bytes from position 32 k of its contents: 28 of the name and 4 of
      the number, least significant first. */
  lemma EntryIsBytes(v: Vol, n: Inode, k: nat, j: nat)
    requires k < MAX_ENTRIES && n.direct[k / DIRENTS_PER_BLOCK] != 0 && j < 32
    ensures FileByte(v, n, 32 * k + j) ==
            Some(if j < 28 then Entry(v, n, k).name[j] else Le32(Entry(v, n, k).ino)[j - 28])
  {
    var b, off := BlockAt(v, n.direct[k / DIRENTS_PER_BLOCK]), k % DIRENTS_PER_BLOCK * DIRENT_SIZE;
    EntryPlace(k, j);
    ReadBack(b, off + NAME_LEN);
    assert b[off + j] == if j < 28 then b[off..off + NAME_LEN][j] else b[off + NAME_LEN..off + DIRENT_SIZE][j - 28];
  }

  lemma EntryPlace(k: nat, j: nat)
    requires k < MAX_ENTRIES && j < 32
    ensures (32 * k + j) / 512 == k / 16 < 28 && (32 * k + j) % 512 == k % 16 * 32 + j
  {
  }

  // --- resolving component lists -------------------------------------------------------

  /** `namei` on the links: one lookup per component. */
  function WalkComps(links: Links, cur: u32, comps: seq<seq<u8>>): (r: Option<u32>)
    decreases |comps|
  {
    if comps == [] then Some(cur)
    else
      var next := LookupIn(links, cur, comps[0]);
      if next.Some? then WalkComps(links, next.value, comps[1..]) else None
  }

  function Resolve(links: Links, path: seq<u8>): (r: Option<u32>) { WalkComps(links, ROOT_INODE, Comps(path)) }

  predicate Short(comps: seq<seq<u8>>) { forall i :: 0 <= i < |comps| ==> |comps[i]| <= NAME_LEN }

  function PadAll(comps: seq<seq<u8>>): (r: seq<Name>)
    ensures |r| == |comps| && forall i :: 0 <= i < |comps| ==> r[i] == Pad(comps[i])
  {
    seq(|comps|, i requires 0 <= i < |comps| => Pad(comps[i]))
  }

  /** Resolution of a path string is the tree walk of its padded components. */
  lemma {:induction false} WalkCompsIsWalk(links: Links, cur: u32, comps: seq<seq<u8>>)
    ensures WalkComps(links, cur, comps).Some? <==> Short(comps) && Walk(EdgesOf(links), cur, PadAll(comps)).At?
    ensures WalkComps(links, cur, comps).Some? ==>
              Walk(EdgesOf(links), cur, PadAll(comps)) == At(WalkComps(links, cur, comps).value)
    decreases |comps|
  {
    if comps == [] {
      assert PadAll(comps) == [];
    } else {
      assert PadAll(comps)[1..] == PadAll(comps[1..]);
      assert Short(comps) <==> |comps[0]| <= NAME_LEN && Short(comps[1..]) by {
        if |comps[0]| <= NAME_LEN && Short(comps[1..]) {
          forall i | 0 <= i < |comps| ensures |comps[i]| <= NAME_LEN {
            if i > 0 { assert comps[i] == comps[1..][i - 1]; }
          }
        }
      }
      var next := LookupIn(links, cur, comps[0]);
      if next.Some? {
        WalkCompsIsWalk(links, next.value, comps[1..]);
      }
    }
  }

  lemma {:induction false} WalkCompsAppend(links: Links, cur: u32, a: seq<seq<u8>>, b: seq<seq<u8>>)
    ensures WalkComps(links, cur, a + b) ==
            if WalkComps(links, cur, a).Some? then WalkComps(links, WalkComps(links, cur, a).value, b) else None
    decreases |a|
  {
    if a == [] {
      assert a + b == b;
    } else {
      assert (a + b)[1..] == a[1..] + b;
      var next := LookupIn(links, cur, a[0]);
      if next.Some? {
        WalkCompsAppend(links, next.value, a[1..], b);
      }
    }
  }

  /** One round of the `namei` loop. */
  lemma WalkPiece(links: Links, pieces: seq<seq<u8>>, i: nat, ino: u32)
    requires i < |pieces| && WalkComps(links, ROOT_INODE, NonEmpty(pieces[..i])) == Some(ino)
    ensures WalkComps(links, ROOT_INODE, NonEmpty(pieces[..i + 1])) ==
            if pieces[i] == [] then Some(ino) else LookupIn(links, ino, pieces[i])
    ensures pieces[i] != [] && LookupIn(links, ino, pieces[i]).None? ==>
              WalkComps(links, ROOT_INODE, NonEmpty(pieces)) == None
  {
    var upto, rest := pieces[..i + 1], pieces[i + 1..];
    assert upto == pieces[..i] + [pieces[i]] && pieces == upto + rest;
    NonEmptyAppend(pieces[..i], [pieces[i]]);
    NonEmptyAppend(upto, rest);
    WalkCompsAppend(links, ROOT_INODE, NonEmpty(pieces[..i]), NonEmpty([pieces[i]]));
    WalkCompsAppend(links, ROOT_INODE, NonEmpty(upto), NonEmpty(rest));
    WalkOne(links, ino, pieces[i]);
  }

  lemma WalkOne(links: Links, ino: u32, piece: seq<u8>)
    ensures WalkComps(links, ino, NonEmpty([piece])) == if piece == [] then Some(ino) else LookupIn(links, ino, piece)
  {
  }

  /** Paths, step by step: the empty path is the root, slashes around a path do not matter, and a name
      behind a path is looked up where the path leads. */
  lemma ResolveRules(links: Links, path: seq<u8>, name: seq<u8>)
    requires name != [] && 47 !in name
    ensures Resolve(links, []) == Some(1)
    ensures Resolve(links, [47] + path) == Resolve(links, path) == Resolve(links, path + [47])
    ensures Resolve(links, path + [47] + name) ==
            if Resolve(links, path).Some? then LookupIn(links, Resolve(links, path).value, name) else None
  {
    CompsSingle([]);
    CompsSingle(name);
    CompsAtSlash([], path);
    CompsAtSlash(path, []);
    CompsAtSlash(path, name);
    assert [] + [SLASH] + path == [47] + path && path + [SLASH] + [] == path + [47];
    assert [] + Comps(path) == Comps(path) == Comps(path) + [];
    WalkCompsAppend(links, ROOT_INODE, Comps(path), [name]);
    if Resolve(links, path).Some? {
      WalkOne(links, Resolve(links, path).value, name);
      assert NonEmpty([name]) == [name];
    }
  }

  lemma CompsAtSlash(a: seq<u8>, b: seq<u8>)
    ensures Comps(a + [SLASH] + b) == Comps(a) + Comps(b)
  {
    SplitAtSlash(a, b);
    NonEmptyAppend(Split(a), Split(b));
  }

  /** Walks stay on live inodes. */
  lemma {:induction false} WalkCompsLive(v: Vol, links: Links, cur: u32, comps: seq<seq<u8>>)
    requires Live(v, links) && 1 <= cur < INODE_COUNT
    ensures WalkComps(links, cur, comps).Some? ==> 1 <= WalkComps(links, cur, comps).value < INODE_COUNT
    decreases |comps|
  {
    if comps != [] {
      var next := LookupIn(links, cur, comps[0]);
      if next.Some? {
        WalkCompsLive(v, links, next.value, comps[1..]);
      }
    }
  }

  // --- effect of the operations on `Live` ------------------------------------------------

  /** A fresh inode linked under a new name. */
  lemma LiveAdd(v: Vol, v': Vol, links: Links, e0: (nat, Name), k: nat, ino: u32)
    requires Live(v, links) && (forall e :: e in links ==> IsDir(v, e.0)) && |v'.inodes| == INODE_COUNT
    requires 2 <= ino < INODE_COUNT && v.inodes[ino].kind == T_FREE && v'.inodes[ino].kind != T_FREE
    requires IsDir(v, e0.0) && IsDir(v', e0.0) && e0 !in links
    requires forall i :: 0 <= i < INODE_COUNT && i != ino && i != e0.0 ==> v'.inodes[i] == v.inodes[i]
    ensures Live(v', links[e0 := Link(k, ino)])
    ensures EdgesOf(links[e0 := Link(k, ino)]) == EdgesOf(links)[e0 := ino]
    ensures NoChildren(EdgesOf(links), ino) && forall e :: e in EdgesOf(links) ==> EdgesOf(links)[e] != ino
  {
    var links', edges := links[e0 := Link(k, ino)], EdgesOf(links);
    NotYetLinked(v, links, ino);
    assert EdgesOf(links') == edges[e0 := ino];
    AddedForest(edges, ROOT_INODE, e0, ino);
    forall i | 2 <= i < INODE_COUNT && v'.inodes[i].kind != T_FREE ensures Linked(links', i) {
      LinkedAdd(links, e0, k, ino, i);
    }
    assert IsDir(v', ROOT_INODE) && v'.inodes[0].kind == T_FREE;
    forall e | e in links' ensures 2 <= links'[e].ino < INODE_COUNT && v'.inodes[links'[e].ino].kind != T_FREE {
      if e != e0 {
        assert links'[e] == links[e];
      }
    }
  }

  /** A free inode is neither linked nor a parent. */
  lemma NotYetLinked(v: Vol, links: Links, ino: u32)
    requires Live(v, links) && (forall e :: e in links ==> IsDir(v, e.0)) && ino < INODE_COUNT
             && v.inodes[ino].kind == T_FREE
    ensures NoChildren(EdgesOf(links), ino) && forall e :: e in EdgesOf(links) ==> EdgesOf(links)[e] != ino
  {
  }

  lemma LinkedAdd(links: Links, e0: (nat, Name), k: nat, ino: u32, i: nat)
    requires e0 !in links && (i == ino || Linked(links, i))
    ensures Linked(links[e0 := Link(k, ino)], i)
  {
    var links' := links[e0 := Link(k, ino)];
    if i == ino {
      assert e0 in links' && links'[e0].ino == i;
    } else {
      var e :| e in links && links[e].ino == i;
      assert e in links' && links'[e].ino == i;
    }
  }

  /** A link removed together with the inode it named. */
  lemma LiveRemove(v: Vol, v': Vol, links: Links, e0: (nat, Name))
    requires Live(v, links) && |v'.inodes| == INODE_COUNT && e0 in links
    requires v'.inodes == v.inodes[links[e0].ino := NewInode(T_FREE, 0)]
    ensures Live(v', links - {e0})
    ensures EdgesOf(links - {e0}) == EdgesOf(links) - {e0}
  {
    var links' := links - {e0};
    assert EdgesOf(links') == EdgesOf(links) - {e0};
    forall e | e in links' ensures links'[e].ino != links[e0].ino {
      assert EdgesOf(links)[e] == EdgesOf(links)[e0] ==> e == e0;
    }
    forall i | 2 <= i < INODE_COUNT && v'.inodes[i].kind != T_FREE ensures Linked(links', i) {
      assert Linked(links, i);
      var e :| e in links && links[e].ino == i;
      assert e in links' && links'[e].ino == i;
    }
  }

  /** A link replaced by another link to the same inode. */
  lemma LiveMove(v: Vol, v': Vol, links: Links, s: (nat, Name), t: (nat, Name), k: nat)
    requires Live(v, links) && |v'.inodes| == INODE_COUNT && s in links && t !in links
    requires IsDir(v, t.0) && IsDir(v', t.0)
    requires forall i :: 0 <= i < INODE_COUNT && i != t.0 ==> v'.inodes[i] == v.inodes[i]
    ensures Live(v', links[t := Link(k, links[s].ino)] - {s})
    ensures EdgesOf(links[t := Link(k, links[s].ino)] - {s}) == Moved(EdgesOf(links), s, t)
  {
    var links' := links[t := Link(k, links[s].ino)] - {s};
    assert EdgesOf(links') == Moved(EdgesOf(links), s, t);
    MovedForest(EdgesOf(links), ROOT_INODE, s, t);
    forall i | 2 <= i < INODE_COUNT && v'.inodes[i].kind != T_FREE ensures Linked(links', i) {
      assert Linked(links, i);
      var e :| e in links && links[e].ino == i;
      if e == s {
        assert t in links' && links'[t].ino == i;
      } else {
        assert e in links' && links'[e].ino == i;
      }
    }
  }

  /** Freeing an inode that no directory entry is inside of. */
  lemma EntriesRelease(v: Vol, v': Vol, links: Links, ino: nat)
    requires Entries(v, links) && |v'.inodes| == INODE_COUNT && ino < INODE_COUNT
    requires v'.inodes == v.inodes[ino := NewInode(T_FREE, 0)] && v'.data == v.data
    requires forall e :: e in links ==> e.0 != ino
    ensures Entries(v', links)
  {
    forall d, k | 0 <= d < INODE_COUNT && IsDir(v', d) && 0 <= k < Count(v'.inodes[d]) <= MAX_ENTRIES
      ensures LiveEntryLinked(v', links, d, k)
    {
      assert LiveEntryLinked(v, links, d, k);
    }
  }

  lemma ReleaseOthers(v: Vol, v': Vol, ino: nat)
    requires |v.inodes| == |v'.inodes| == INODE_COUNT && ino < INODE_COUNT
    requires v'.inodes == v.inodes[ino := NewInode(T_FREE, 0)] && v'.data == v.data
    ensures OthersSame(v, v', ino)
  {
  }

  /** A free inode overwritten with an empty one. */
  lemma NewNode(v: Vol, owner: Owner, links: Links, ino: nat, kind: u16, nlink: u16)
    requires Owns(v, owner) && Entries(v, links) && ino < INODE_COUNT && v.inodes[ino].kind == T_FREE
    ensures Owns(With(v, ino, NewInode(kind, nlink)), Forgotten(owner, ino))
    ensures Entries(With(v, ino, NewInode(kind, nlink)), links)
    ensures OthersSame(v, With(v, ino, NewInode(kind, nlink)), ino)
  {
    OwnsForgotten(v, owner, ino, NewInode(kind, nlink));
    EntriesOther(v, With(v, ino, NewInode(kind, nlink)), links, ino);
  }

  // --- the operations ------------------------------------------------------------------

  /** The ghost side of a mounted volume: who owns each block, what each directory contains. */
  datatype Books = Books(owner: Owner, links: Links)

  /** The volume invariant kept by every operation. */
  ghost predicate FsOk(v: Vol, g: Books) {
    Owns(v, g.owner) && Entries(v, g.links) && Live(v, g.links)
  }

  /** `namei`: resolves exactly the tree walk. */
  method Namei(st: Store, path: seq<u8>, ghost g: Books) returns (r: Option<u32>)
    requires st.Valid() && FsOk(st.vol, g)
    modifies st.cache
    ensures st.Valid()
    ensures r == Resolve(g.links, path)
    ensures r.Some? ==> 1 <= r.value < INODE_COUNT
  {
    var pieces := Split(path);
    var ino: u32 := ROOT_INODE;
    WalkCompsLive(st.vol, g.links, ROOT_INODE, Comps(path));
    for i := 0 to |pieces|
      invariant st.Valid() && 1 <= ino < INODE_COUNT
      invariant WalkComps(g.links, ROOT_INODE, NonEmpty(pieces[..i])) == Some(ino)
    {
      WalkPiece(g.links, pieces, i, ino);
      var next := Descend(st, ino, pieces[i], g);
      if next.None? {
        return None;
      }
      ino := next.value;
    }
    assert pieces[..|pieces|] == pieces;
    return Some(ino);
  }

  /** The loop body: an empty piece is skipped, any other looked up. */
  method Descend(st: Store, ino: u32, piece: seq<u8>, ghost g: Books) returns (next: Option<u32>)
    requires st.Valid() && FsOk(st.vol, g) && 1 <= ino < INODE_COUNT
    modifies st.cache
    ensures st.Valid()
    ensures next == if piece == [] then Some(ino) else LookupIn(g.links, ino, piece)
    ensures next.Some? ==> 1 <= next.value < INODE_COUNT
  {
    next := Some(ino);
    if piece != [] {
      next := DirLookup(st, ino, piece, g.owner, g.links);
    }
  }

  /** The directory that holds the last component of `path`, if there is one. */
  function ParentDir(v: Vol, links: Links, path: seq<u8>): (r: Option<u32>) {
    var r := WalkComps(links, ROOT_INODE, ParentComps(path));
    if r.Some? && IsDir(v, r.value) then r else None
  }

  /** `split_parent`: the parent directory's inode and the last component. */
  method SplitParent(st: Store, path: seq<u8>, ghost g: Books) returns (r: Option<u32>, name: seq<u8>)
    requires st.Valid() && FsOk(st.vol, g)
    modifies st.cache
    ensures st.Valid()
    ensures name == Base(path) && r == ParentDir(st.vol, g.links, path)
    ensures r.Some? ==> 1 <= r.value < INODE_COUNT
  {
    var parent;
    parent, name := SplitLast(path);
    r := Some(ROOT_INODE);
    if parent != [] {
      r := Namei(st, parent, g);
    } else {
      CompsSingle([]);
    }
    if r.Some? {
      var n := st.ReadInode(r.value);
      if n.kind != T_DIR {
        r := None;
      }
    }
  }

  /** `alloc_node` followed by `dir_link`, undone when the link cannot be made: the part that
      `create` and `mkdir` share. */
  method AddNode(st: Store, p: u32, name: seq<u8>, kind: u16, ghost g: Books) returns (r: Option<u32>, ghost g': Books)
    requires st.Valid() && FsOk(st.vol, g)
    requires 1 <= p < INODE_COUNT && IsDir(st.vol, p) && LookupIn(g.links, p, name) == None
    requires kind == T_FILE || kind == T_DIR
    modifies st`disk, st`vol, st.cache
    ensures st.Valid() && Owns(st.vol, g'.owner)
    ensures r.None? ==> Undone(old(st.vol), g, st.vol, g') && FsOk(st.vol, g')
    ensures r.Some? <==> NextFree(old(st.vol)) < INODE_COUNT && HasRoom(old(st.vol), p)
    ensures r.Some? ==> r.value == NextFree(old(st.vol)) && SameLost(Forgotten(g.owner, r.value), g'.owner)
    ensures r.Some? && !Linkable(g.links, p, name) ==> NoLinks(st.vol)
    ensures r.Some? && Linkable(g.links, p, name) ==>
              FsOk(st.vol, g') && Added(old(st.vol), g.links, st.vol, g'.links, p, name, kind, r.value)
  {
    ghost var v := st.vol;
    g' := g;
    r := AllocNode(st, kind, g.owner, g.links);
    if r.Some? {
      RoomSame(v, r.value, NewInode(kind, 1), p);
      var ok;
      ok, g' := LinkNode(st, p, name, kind, r.value, v, g);
      if !ok {
        UndoneOk(v, g, st.vol, g');
        r := None;
      }
    }
  }

  /** The link of the new node `c`; if it cannot be made, the inode is blanked. */
  method LinkNode(st: Store, p: u32, name: seq<u8>, kind: u16, c: u32, ghost v: Vol, ghost g: Books)
    returns (ok: bool, ghost g': Books)
    requires st.Valid() && Entries(v, g.links) && Live(v, g.links) && c < INODE_COUNT && c == NextFree(v)
    requires 1 <= p < INODE_COUNT && IsDir(v, p) && (kind == T_FILE || kind == T_DIR)
    requires st.vol == With(v, c, NewInode(kind, 1)) && OthersSame(v, st.vol, c)
    requires Owns(st.vol, Forgotten(g.owner, c)) && Entries(st.vol, g.links)
    modifies st`disk, st`vol, st.cache
    ensures st.Valid() && (ok ==> Owns(st.vol, g'.owner))
    ensures ok <==> HasRoom(old(st.vol), p)
    ensures !ok ==> Undone(v, g, st.vol, g')
    ensures ok ==> SameLost(Forgotten(g.owner, c), g'.owner)
    ensures ok && !Linkable(g.links, p, name) ==> NoLinks(st.vol)
    ensures ok && Linkable(g.links, p, name) ==>
              FsOk(st.vol, g') && Added(v, g.links, st.vol, g'.links, p, name, kind, c)
  {
    ghost var v1 := st.vol;
    ghost var owner';
    ok, owner' := DirLink(st, p, name, c, Forgotten(g.owner, c), g.links);
    g' := Books(owner', g.links[(p as nat, Pad(name)) := Link(Count(v1.inodes[p]), c)]);
    if !ok {
      st.PutInode(c, NewInode(T_FREE, 0));
      WithTwice(v, c, NewInode(kind, 1), NewInode(T_FREE, 0));
      g' := Books(Forgotten(g.owner, c), g.links);
    } else if Linkable(g.links, p, name) {
      AddedOk(v, v1, st.vol, g.links, p, name, kind, c);
    }
  }

  lemma RoomSame(v: Vol, c: nat, n: Inode, p: nat)
    requires Shape(v) && c < INODE_COUNT && p < INODE_COUNT && p != c
    ensures HasRoom(With(v, c, n), p) <==> HasRoom(v, p)
  {
  }

  lemma WithTwice(v: Vol, c: nat, m: Inode, n: Inode)
    requires c < |v.inodes|
    ensures With(With(v, c, m), c, n) == With(v, c, n)
  {
  }

  lemma UndoneOk(v: Vol, g: Books, v': Vol, g': Books)
    requires FsOk(v, g) && Undone(v, g, v', g')
    ensures FsOk(v', g')
  {
    var c := NextFree(v);
    if c < INODE_COUNT {
      NewNode(v, g.owner, g.links, c, T_FREE, 0);
      LiveKinds(v, v', g.links);
    }
  }

  /** Only the kinds matter for who is live. */
  lemma LiveKinds(v: Vol, v': Vol, links: Links)
    requires Live(v, links) && |v'.inodes| == INODE_COUNT
    requires forall i :: 0 <= i < INODE_COUNT ==> v'.inodes[i].kind == v.inodes[i].kind
    ensures Live(v', links)
  {
  }

  /** `alloc_node`: the lowest free inode gets the kind. */
  method AllocNode(st: Store, kind: u16, ghost owner: Owner, ghost links: Links) returns (r: Option<u32>)
    requires st.Valid() && Owns(st.vol, owner) && Entries(st.vol, links) && Live(st.vol, links)
    modifies st`disk, st`vol, st.cache
    ensures st.Valid() && Entries(st.vol, links)
    ensures r.None? ==> st.vol == old(st.vol) && NextFree(st.vol) == INODE_COUNT
    ensures r.Some? ==> r.value < INODE_COUNT && r.value == NextFree(old(st.vol))
    ensures r.Some? ==> Owns(st.vol, Forgotten(owner, r.value))
    ensures r.Some? ==> st.vol == With(old(st.vol), r.value, NewInode(kind, 1))
    ensures r.Some? ==> OthersSame(old(st.vol), st.vol, r.value)
  {
    r := st.AllocInode();
    if r.Some? {
      NewNode(st.vol, owner, links, r.value, kind, 1);
      st.PutInode(r.value, NewInode(kind, 1));
    }
  }

  lemma AddedOk(v0: Vol, v1: Vol, v2: Vol, links: Links, p: nat, name: seq<u8>, kind: u16, ino: u32)
    requires Live(v0, links) && Entries(v0, links) && |v2.inodes| == INODE_COUNT
    requires 2 <= ino < INODE_COUNT && v0.inodes[ino].kind == T_FREE && kind != T_FREE
    requires v1 == With(v0, ino, NewInode(kind, 1)) && OthersSame(v0, v1, ino)
    requires OthersSame(v1, v2, p) && IsDir(v0, p) && IsDir(v2, p) && (p, Pad(name)) !in links
    requires v2.inodes[p].size == v1.inodes[p].size + DIRENT_SIZE && v2.l == v0.l
    ensures var links' := links[(p, Pad(name)) := Link(Count(v1.inodes[p]), ino)];
            Live(v2, links') && Added(v0, links, v2, links', p, name, kind, ino)
  {
    LiveAdd(v0, v2, links, (p, Pad(name)), Count(v1.inodes[p]), ino);
    OthersTwice(v0, v1, v2, ino, p);
  }

  /** The lowest free inode number from `i` up, or the end of the table. */
  function NextFrom(v: Vol, i: nat): (c: nat)
    requires |v.inodes| == INODE_COUNT && i <= INODE_COUNT
    ensures i <= c <= INODE_COUNT && (c < INODE_COUNT ==> v.inodes[c].kind == T_FREE)
    ensures forall j :: i <= j < c ==> v.inodes[j].kind != T_FREE
    decreases INODE_COUNT - i
  {
    if i == INODE_COUNT || v.inodes[i].kind == T_FREE then i else NextFrom(v, i + 1)
  }

  /** The number the next new file or directory gets. */
  function NextFree(v: Vol): (c: nat)
    requires |v.inodes| == INODE_COUNT
    ensures 2 <= c <= 128 && (c < 128 ==> v.inodes[c].kind == 0) && forall j :: 2 <= j < c ==> v.inodes[j].kind != 0
  {
    NextFrom(v, 2)
  }

  /** A new node that could not be linked: its inode is blank again. Blocks that hung under the free inode
      before, if there were any, are lost. */
  ghost predicate Undone(v: Vol, g: Books, v': Vol, g': Books)
    requires |v.inodes| == INODE_COUNT
  {
    var c := NextFree(v);
    if c == INODE_COUNT then v' == v && g' == g
    else v' == With(v, c, NewInode(T_FREE, 0)) && g' == Books(Forgotten(g.owner, c), g.links)
  }

  /** On a tidy volume nothing has changed. */
  lemma UndoneTidy(v: Vol, g: Books, v': Vol, g': Books)
    requires Owns(v, g.owner) && Undone(v, g, v', g') && Tidy(v)
    ensures v' == v && g' == g
  {
    var c := NextFree(v);
    if c < INODE_COUNT {
      assert Blank(v, c);
      if HoldsBlocks(g.owner, c) {
        HoldsNotBlank(v, g.owner, c);
      }
      NothingForgotten(g.owner, c);
      assert v'.inodes == v.inodes;
    }
  }

  lemma HoldsNotBlank(v: Vol, owner: Owner, c: nat)
    requires Owns(v, owner) && c < INODE_COUNT && HoldsBlocks(owner, c)
    ensures !Blank(v, c)
  {
    var b :| b in owner && owner[b].ino == c;
    assert KeyPtr(v, owner[b]) == b;
  }

  /** A blank inode of `kind` now hangs under (`p`, `name`); nothing else moved, and no byte of any
      other file changed. */
  ghost predicate Added(v: Vol, links: Links, v': Vol, links': Links, p: nat, name: seq<u8>, kind: u16, ino: u32)
    requires |v.inodes| == |v'.inodes| == INODE_COUNT
  {
    && 2 <= ino < INODE_COUNT && v.inodes[ino].kind == T_FREE && v'.inodes[ino] == NewInode(kind, 1)
    && (p, Pad(name)) !in links && EdgesOf(links') == EdgesOf(links)[(p, Pad(name)) := ino]
    && NoChildren(EdgesOf(links), ino) && (forall e :: e in EdgesOf(links) ==> EdgesOf(links)[e] != ino)
    && SameBut(v, v', {ino, p}) && p < INODE_COUNT && IsDir(v, p) && IsDir(v', p) && v'.l == v.l
    && v'.inodes[p].size == v.inodes[p].size + DIRENT_SIZE
  }

  /** All inodes outside `s` keep their inode and every byte. */
  ghost predicate SameBut(v: Vol, v': Vol, s: set<int>)
    requires |v.inodes| == |v'.inodes|
  {
    && (forall i :: 0 <= i < |v.inodes| && i !in s ==> v'.inodes[i] == v.inodes[i])
    && (forall i, pos: nat :: 0 <= i < |v.inodes| && i !in s ==> InoByte(v', i, pos) == InoByte(v, i, pos))
  }

  lemma OthersTwice(v0: Vol, v1: Vol, v2: Vol, a: nat, b: nat)
    requires |v0.inodes| == |v1.inodes| == |v2.inodes|
    requires OthersSame(v0, v1, a) && OthersSame(v1, v2, b)
    ensures SameBut(v0, v2, {a, b})
  {
  }

  // --- path-level effects -----------------------------------------------------------------

  /** Exactly the path `comps` came into existence, naming inode `c`. */
  ghost predicate PathAdded(links: Links, links': Links, comps: seq<seq<u8>>, c: nat) {
    forall q: seq<Name> :: Walk(EdgesOf(links'), ROOT_INODE, q) ==
                           if q == PadAll(comps) then At(c) else Walk(EdgesOf(links), ROOT_INODE, q)
  }

  /** Exactly the path `comps` ceased to exist. */
  ghost predicate PathRemoved(links: Links, links': Links, comps: seq<seq<u8>>) {
    forall q: seq<Name> :: Walk(EdgesOf(links'), ROOT_INODE, q) ==
                           if q == PadAll(comps) then Missing else Walk(EdgesOf(links), ROOT_INODE, q)
  }

  /** The paths below `src` moved below `dst`; if `dst` lies inside `src`, they became unreachable. */
  ghost predicate PathMoved(links: Links, links': Links, src: seq<seq<u8>>, dst: seq<seq<u8>>) {
    forall q: seq<Name> :: Walk(EdgesOf(links'), ROOT_INODE, q) ==
      if PadAll(src) < PadAll(dst) then (if PadAll(src) <= q then Missing else Walk(EdgesOf(links), ROOT_INODE, q))
      else Renamed(EdgesOf(links), ROOT_INODE, PadAll(src), PadAll(dst), q)
  }

  lemma PadAllAppend(dir: seq<seq<u8>>, name: seq<u8>)
    ensures PadAll(dir + [name]) == PadAll(dir) + [Pad(name)]
  {
  }

  lemma AddedPaths(links: Links, links': Links, dir: seq<seq<u8>>, name: seq<u8>, p: u32, c: u32)
    requires Forest(EdgesOf(links), ROOT_INODE) && WalkComps(links, ROOT_INODE, dir) == Some(p)
    requires (p as nat, Pad(name)) !in links && EdgesOf(links') == EdgesOf(links)[(p, Pad(name)) := c]
    requires NoChildren(EdgesOf(links), c) && c != ROOT_INODE
             && (forall e :: e in EdgesOf(links) ==> EdgesOf(links)[e] != c)
    ensures PathAdded(links, links', dir + [name], c)
  {
    WalkCompsIsWalk(links, ROOT_INODE, dir);
    PadAllAppend(dir, name);
    forall q: seq<Name>
      ensures Walk(EdgesOf(links'), ROOT_INODE, q) ==
              if q == PadAll(dir + [name]) then At(c) else Walk(EdgesOf(links), ROOT_INODE, q)
    {
      WalkAdd(EdgesOf(links), ROOT_INODE, PadAll(dir), Pad(name), c, q);
    }
  }

  lemma RemovedPaths(links: Links, dir: seq<seq<u8>>, name: seq<u8>, p: u32)
    requires Forest(EdgesOf(links), ROOT_INODE) && WalkComps(links, ROOT_INODE, dir) == Some(p)
    requires LookupIn(links, p, name).Some? && NoChildren(EdgesOf(links), LookupIn(links, p, name).value)
    ensures PathRemoved(links, links - {(p as nat, Pad(name))}, dir + [name])
  {
    var links' := links - {(p as nat, Pad(name))};
    assert EdgesOf(links') == EdgesOf(links) - {(p as nat, Pad(name))};
    WalkCompsIsWalk(links, ROOT_INODE, dir);
    PadAllAppend(dir, name);
    forall q: seq<Name>
      ensures Walk(EdgesOf(links'), ROOT_INODE, q) ==
              if q == PadAll(dir + [name]) then Missing else Walk(EdgesOf(links), ROOT_INODE, q)
    {
      WalkRemove(EdgesOf(links), ROOT_INODE, PadAll(dir), Pad(name), q);
    }
  }

  lemma MovedPaths(links: Links, links': Links, sdir: seq<seq<u8>>, sname: seq<u8>, sp: u32,
                   ddir: seq<seq<u8>>, dname: seq<u8>, dp: u32)
    requires Forest(EdgesOf(links), ROOT_INODE)
    requires WalkComps(links, ROOT_INODE, sdir) == Some(sp) && LookupIn(links, sp, sname).Some?
    requires WalkComps(links, ROOT_INODE, ddir) == Some(dp) && (dp as nat, Pad(dname)) !in links
    requires EdgesOf(links') == Moved(EdgesOf(links), (sp as nat, Pad(sname)), (dp as nat, Pad(dname)))
    ensures PathMoved(links, links', sdir + [sname], ddir + [dname])
  {
    var edges := EdgesOf(links);
    WalkCompsIsWalk(links, ROOT_INODE, sdir);
    WalkCompsIsWalk(links, ROOT_INODE, ddir);
    PadAllAppend(sdir, sname);
    PadAllAppend(ddir, dname);
    var s, t := PadAll(sdir + [sname]), PadAll(ddir + [dname]);
    assert s < t <==> s <= PadAll(ddir) by {
      if s < t {
        assert s == t[..|s|] == PadAll(ddir)[..|s|];
      }
    }
    forall q: seq<Name>
      ensures Walk(EdgesOf(links'), ROOT_INODE, q) ==
              if s < t then (if s <= q then Missing else Walk(edges, ROOT_INODE, q))
              else Renamed(edges, ROOT_INODE, s, t, q)
    {
      if s <= PadAll(ddir) {
        WalkDetached(edges, ROOT_INODE, PadAll(sdir), Pad(sname), PadAll(ddir), Pad(dname), q);
      } else {
        WalkMoved(edges, ROOT_INODE, PadAll(sdir), Pad(sname), PadAll(ddir), Pad(dname), q);
      }
    }
  }

  lemma ResolveParts(links: Links, path: seq<u8>)
    requires Base(path) != []
    ensures var d := WalkComps(links, ROOT_INODE, ParentComps(path));
            Resolve(links, path) == if d.Some? then LookupIn(links, d.value, Base(path)) else None
  {
    CompsParts(path);
    var dir, name := ParentComps(path), Base(path);
    WalkCompsAppend(links, ROOT_INODE, dir, [name]);
    if WalkComps(links, ROOT_INODE, dir).Some? {
      var next := LookupIn(links, WalkComps(links, ROOT_INODE, dir).value, name);
      if next.Some? {
        assert WalkComps(links, next.value, [name][1..]) == Some(next.value);
      }
    }
  }

  /** Resolving a path with a last component is looking that component up in the parent directory;
      what it finds is not the root. */
  lemma ResolveLast(v: Vol, links: Links, path: seq<u8>)
    requires Entries(v, links) && Live(v, links) && Base(path) != []
    ensures var p := ParentDir(v, links, path);
            Resolve(links, path) == if p.Some? then LookupIn(links, p.value, Base(path)) else None
    ensures Resolve(links, path).Some? ==> 2 <= Resolve(links, path).value < INODE_COUNT
  {
    ResolveParts(links, path);
    var d := WalkComps(links, ROOT_INODE, ParentComps(path));
    if d.Some? && LookupIn(links, d.value, Base(path)).Some? {
      assert (d.value as nat, Pad(Base(path))) in links;
    }
  }

  /** `create`: a new empty file in the root directory. A name that is not linkable is not refused, and then
      the directories are left inconsistent. Blocks that hang under the free inode it takes are lost, also
      when the link fails; on a tidy volume a refusal changes nothing. */
  method Create(st: Store, name: seq<u8>, ghost g: Books) returns (r: Option<u32>, ghost g': Books)
    requires st.Valid() && FsOk(st.vol, g)
    modifies st`disk, st`vol, st.cache
    ensures st.Valid() && Owns(st.vol, g'.owner)
    ensures LookupIn(g.links, ROOT_INODE, name).Some? ==> r.None? && st.vol == old(st.vol) && g' == g
    ensures LookupIn(g.links, ROOT_INODE, name).None? && r.None? ==>
              Undone(old(st.vol), g, st.vol, g') && FsOk(st.vol, g')
    ensures r.Some? <==> LookupIn(g.links, ROOT_INODE, name).None? && NextFree(old(st.vol)) < INODE_COUNT
                         && HasRoom(old(st.vol), ROOT_INODE)
    ensures r.Some? ==> r.value == NextFree(old(st.vol)) && SameLost(Forgotten(g.owner, r.value), g'.owner)
    ensures r.Some? && !Linkable(g.links, ROOT_INODE, name) ==> NoLinks(st.vol)
    ensures r.Some? && Linkable(g.links, ROOT_INODE, name) ==>
              && FsOk(st.vol, g') && PathAdded(g.links, g'.links, [name], r.value)
              && Added(old(st.vol), g.links, st.vol, g'.links, ROOT_INODE, name, T_FILE, r.value)
  {
    var hit := DirLookup(st, ROOT_INODE, name, g.owner, g.links);
    r, g' := None, g;
    if hit.None? {
      r, g' := AddNode(st, ROOT_INODE, name, T_FILE, g);
      if r.Some? && Linkable(g.links, ROOT_INODE, name) {
        RootAdded(g.links, g'.links, name, r.value);
      }
    }
  }

  lemma RootAdded(links: Links, links': Links, name: seq<u8>, c: u32)
    requires Forest(EdgesOf(links), ROOT_INODE)
    requires (ROOT_INODE as nat, Pad(name)) !in links
             && EdgesOf(links') == EdgesOf(links)[(ROOT_INODE as nat, Pad(name)) := c]
    requires NoChildren(EdgesOf(links), c) && c != ROOT_INODE
             && (forall e :: e in EdgesOf(links) ==> EdgesOf(links)[e] != c)
    ensures PathAdded(links, links', [name], c)
  {
    assert WalkComps(links, ROOT_INODE, []) == Some(ROOT_INODE);
    AddedPaths(links, links', [], name, ROOT_INODE, c);
    assert [] + [name] == [name];
  }

  /** The parent of `path` is a directory and has no such entry. */
  predicate CanMkdir(v: Vol, links: Links, path: seq<u8>) {
    Base(path) != [] && ParentDir(v, links, path).Some? && Resolve(links, path).None?
  }

  /** `mkdir`: a new empty directory at `path`, with the same reservation about its name. */
  method Mkdir(st: Store, path: seq<u8>, ghost g: Books) returns (ok: bool, ghost c: u32, ghost g': Books)
    requires st.Valid() && FsOk(st.vol, g)
    modifies st`disk, st`vol, st.cache
    ensures st.Valid() && Owns(st.vol, g'.owner)
    ensures !CanMkdir(old(st.vol), g.links, path) ==> !ok && st.vol == old(st.vol) && g' == g
    ensures CanMkdir(old(st.vol), g.links, path) && !ok ==> Undone(old(st.vol), g, st.vol, g') && FsOk(st.vol, g')
    ensures var p := ParentDir(old(st.vol), g.links, path);
            ok <==> CanMkdir(old(st.vol), g.links, path) && NextFree(old(st.vol)) < INODE_COUNT
                    && p.value < INODE_COUNT && HasRoom(old(st.vol), p.value)
    ensures ok ==> c == NextFree(old(st.vol)) && SameLost(Forgotten(g.owner, c), g'.owner)
    ensures var p := ParentDir(old(st.vol), g.links, path);
            && (ok && !Linkable(g.links, p.value, Base(path)) ==> NoLinks(st.vol))
            && (ok && Linkable(g.links, p.value, Base(path)) ==>
                  && FsOk(st.vol, g') && PathAdded(g.links, g'.links, Comps(path), c)
                  && Added(old(st.vol), g.links, st.vol, g'.links, p.value, Base(path), T_DIR, c))
  {
    var p, name := SplitParent(st, path, g);
    ok, c, g' := false, 0, g;
    if name != [] {
      ResolveLast(st.vol, g.links, path);
      if p.Some? {
        var hit := DirLookup(st, p.value, name, g.owner, g.links);
        if hit.None? {
          var r;
          r, g' := AddNode(st, p.value, name, T_DIR, g);
          ok := r.Some?;
          if ok {
            c := r.value;
            if Linkable(g.links, p.value, name) {
              CompsParts(path);
              AddedPaths(g.links, g'.links, ParentComps(path), name, p.value, c);
            }
          }
        }
      }
    }
  }

  /** The inode `ino` and its entry (`p`, `name`) are gone, its blocks are free again, and no other
      inode's contents changed (the parent keeps its size: only one entry is blanked). */
  ghost predicate Removed(v: Vol, g: Books, v': Vol, g': Books, p: nat, name: seq<u8>, ino: nat)
    requires |v.inodes| == |v'.inodes| == INODE_COUNT && ino < INODE_COUNT
  {
    && g' == Books(Without(g.owner, ino), g.links - {(p, Pad(name))}) && SameLost(g.owner, g'.owner)
    && v'.inodes == v.inodes[ino := NewInode(T_FREE, 0)] && v'.l == v.l
    && SameBut(v, v', {ino, p})
  }

  /** `free_all_blocks`, the blank inode and `clear_dirent`: the part that `unlink`, `rmdir` and
      `rename` share. The entry is always found. */
  method RemoveNode(st: Store, p: u32, name: seq<u8>, ino: u32, ghost g: Books) returns (found: bool, ghost g': Books)
    requires st.Valid() && FsOk(st.vol, g) && 1 <= p < INODE_COUNT && IsDir(st.vol, p)
    requires LookupIn(g.links, p, name) == Some(ino) && forall e :: e in g.links ==> e.0 != ino
    modifies st`disk, st`vol, st.cache
    ensures st.Valid() && FsOk(st.vol, g') && found
    ensures Removed(old(st.vol), g, st.vol, g', p, name, ino)
  {
    ghost var v0 := st.vol;
    Release(st, ino, g.owner);
    ghost var v1 := st.vol;
    EntriesRelease(v0, v1, g.links, ino);
    ReleaseOthers(v0, v1, ino);
    g' := Books(Without(g.owner, ino), g.links - {(p as nat, Pad(name))});
    var cleared, _ := ClearDirent(st, p, ino, name, g'.owner, g.links);
    found := cleared;
    LiveRemove(v0, st.vol, g.links, (p, Pad(name)));
    OthersTwice(v0, v1, st.vol, ino, p);
  }

  lemma NoChildrenOf(links: Links, ino: u32)
    ensures NoChildren(EdgesOf(links), ino) <==> forall e :: e in links ==> e.0 != ino
  {
  }

  /** Files have nothing below them. */
  lemma FileHasNoChildren(v: Vol, links: Links, ino: u32)
    requires Entries(v, links) && ino < INODE_COUNT && !IsDir(v, ino)
    ensures forall e :: e in links ==> e.0 != ino
  {
  }

  predicate IsFileAt(v: Vol, links: Links, path: seq<u8>)
    requires |v.inodes| == INODE_COUNT
  {
    var r := Resolve(links, path);
    r.Some? && r.value < INODE_COUNT && v.inodes[r.value].kind == T_FILE
  }

  predicate IsEmptyDirAt(v: Vol, links: Links, path: seq<u8>)
    requires |v.inodes| == INODE_COUNT
  {
    var r := Resolve(links, path);
    r.Some? && IsDir(v, r.value) && forall e :: e in links ==> e.0 != r.value
  }

  /** Exactly the path is gone, with the inode it named. */
  ghost predicate RemovedAt(v: Vol, g: Books, v': Vol, g': Books, path: seq<u8>)
    requires |v.inodes| == |v'.inodes| == INODE_COUNT
  {
    var p, r := ParentDir(v, g.links, path), Resolve(g.links, path);
    && PathRemoved(g.links, g'.links, Comps(path))
    && p.Some? && r.Some? && r.value < INODE_COUNT
    && Removed(v, g, v', g', p.value, Base(path), r.value)
  }

  /** Removes the childless inode at `path`. */
  method RemoveAt(st: Store, path: seq<u8>, p: u32, ino: u32, ghost g: Books) returns (ok: bool, ghost g': Books)
    requires st.Valid() && FsOk(st.vol, g) && Base(path) != [] && ino < INODE_COUNT && 1 <= p < INODE_COUNT
    requires ParentDir(st.vol, g.links, path) == Some(p) && Resolve(g.links, path) == Some(ino)
    requires forall e :: e in g.links ==> e.0 != ino
    modifies st`disk, st`vol, st.cache
    ensures st.Valid() && FsOk(st.vol, g') && ok && RemovedAt(old(st.vol), g, st.vol, g', path)
  {
    ResolveLast(st.vol, g.links, path);
    NoChildrenOf(g.links, ino);
    CompsParts(path);
    RemovedPaths(g.links, ParentComps(path), Base(path), p);
    ok, g' := RemoveNode(st, p, Base(path), ino, g);
  }

  /** `unlink`: succeeds exactly on a path that names a regular file, and then removes exactly that
      path. */
  method Unlink(st: Store, path: seq<u8>, ghost g: Books) returns (ok: bool, ghost g': Books)
    requires st.Valid() && FsOk(st.vol, g)
    modifies st`disk, st`vol, st.cache
    ensures st.Valid() && FsOk(st.vol, g')
    ensures ok <==> IsFileAt(old(st.vol), g.links, path) && Base(path) != []
    ensures if ok then RemovedAt(old(st.vol), g, st.vol, g', path) else st.vol == old(st.vol) && g' == g
  {
    var p, name := SplitParent(st, path, g);
    ok, g' := false, g;
    if name != [] {
      ResolveLast(st.vol, g.links, path);
      if p.Some? {
        var hit := DirLookup(st, p.value, name, g.owner, g.links);
        if hit.Some? {
          var node := st.ReadInode(hit.value);
          if node.kind == T_FILE {
            FileHasNoChildren(st.vol, g.links, hit.value);
            ok, g' := RemoveAt(st, path, p.value, hit.value, g);
          }
        }
      }
    }
  }

  /** The first half of `rmdir`: finds an empty directory other than the root. */
  method EmptyDirAt(st: Store, path: seq<u8>, ghost g: Books) returns (r: Option<u32>)
    requires st.Valid() && FsOk(st.vol, g)
    modifies st.cache
    ensures st.Valid()
    ensures r.Some? <==> IsEmptyDirAt(st.vol, g.links, path) && Resolve(g.links, path) != Some(ROOT_INODE)
    ensures r.Some? ==> r == Resolve(g.links, path) && 1 <= r.value < INODE_COUNT
  {
    r := None;
    var target := Namei(st, path, g);
    if target.Some? {
      var node := st.ReadInode(target.value);
      if target.value != ROOT_INODE && node.kind == T_DIR {
        var empty := DirIsEmpty(st, target.value, g.owner, g.links);
        if empty {
          r := target;
        }
      }
    }
  }

  /** `rmdir`: succeeds exactly on a path that names an empty directory other than the root, and
      then removes exactly that path. */
  method Rmdir(st: Store, path: seq<u8>, ghost g: Books) returns (ok: bool, ghost g': Books)
    requires st.Valid() && FsOk(st.vol, g)
    modifies st`disk, st`vol, st.cache
    ensures st.Valid() && FsOk(st.vol, g')
    ensures ok <==> IsEmptyDirAt(old(st.vol), g.links, path) && Base(path) != []
    ensures if ok then RemovedAt(old(st.vol), g, st.vol, g', path) else st.vol == old(st.vol) && g' == g
  {
    ok, g' := false, g;
    if Base(path) != [] {
      ResolveLast(st.vol, g.links, path);
    }
    var target := EmptyDirAt(st, path, g);
    if target.Some? {
      var p, name := SplitParent(st, path, g);
      if p.Some? && name != [] {
        ok, g' := RemoveAt(st, path, p.value, target.value, g);
      }
    }
  }
}
