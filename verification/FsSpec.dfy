/** The filesystem of kernel/src/fs.rs seen from outside: a map from paths to things, a directory or a
    file with its inode number, its size and its stored bytes. The lemmas tie what the calls do to inodes and directory
    entries to what they do to this map. */
module FsSpec {
  import opened Wrappers
  import opened DiskFormat
  import opened BlockStore
  import opened FileData
  import opened FsTree
  import opened Directory
  import opened Paths
  import opened FileSystem
  import opened Rename

  /** A directory or a file; positions without a byte are holes. */
  datatype Thing = Thing(ino: nat, kind: u16, size: nat, bytes: imap<nat, u8>)
  type Tree = imap<seq<Name>, Thing>

  ghost function Fresh(ino: nat, kind: u16): (x: Thing) { Thing(ino, kind, 0, imap[]) }

  ghost function ThingOf(v: Vol, i: nat): (x: Thing)
    requires i < |v.inodes|
  {
    if v.inodes[i].kind == T_DIR then Fresh(i, T_DIR)
    else
      Thing(i, v.inodes[i].kind, v.inodes[i].size,
            imap pos: nat | InoByte(v, i, pos).Some? :: InoByte(v, i, pos).value)
  }

  /** What path `q` names. */
  ghost function Look(v: Vol, links: Links, q: seq<Name>): (r: Option<Thing>) {
    var f := Walk(EdgesOf(links), ROOT_INODE, q);
    if f.At? && f.ino < |v.inodes| then Some(ThingOf(v, f.ino)) else None
  }

  ghost function TreeOf(v: Vol, links: Links): (t: Tree) {
    imap q: seq<Name> | Look(v, links, q).Some? :: Look(v, links, q).value
  }

  ghost function Get(t: Tree, q: seq<Name>): (r: Option<Thing>) { if q in t then Some(t[q]) else None }

  /** Two trees with the same thing at every path are the same. */
  lemma SameTree(t: Tree, t': Tree)
    requires forall q :: Get(t, q) == Get(t', q)
    ensures t == t'
  {
    forall q ensures q in t <==> q in t' {
      assert Get(t, q) == Get(t', q);
    }
    forall q | q in t ensures t[q] == t'[q] {
      assert Get(t, q) == Get(t', q);
    }
  }

  /** An inode that kept its record and its bytes is the same thing; so is a directory that stayed one. */
  lemma SameThing(v: Vol, v': Vol, i: nat)
    requires i < |v.inodes| == |v'.inodes|
    requires (IsDir(v, i) && IsDir(v', i))
             || (v'.inodes[i] == v.inodes[i] && forall pos: nat :: InoByte(v', i, pos) == InoByte(v, i, pos))
    ensures ThingOf(v', i) == ThingOf(v, i)
  {
  }

  lemma SameOutside(v: Vol, v': Vol, s: set<int>, i: nat)
    requires |v.inodes| == |v'.inodes| && SameBut(v, v', s) && i < |v.inodes|
    requires i !in s || (IsDir(v, i) && IsDir(v', i))
    ensures ThingOf(v', i) == ThingOf(v, i)
  {
    SameThing(v, v', i);
  }

  // --- adding and removing ------------------------------------------------------------------------

  lemma AddedAt(v: Vol, links: Links, v': Vol, links': Links, p: nat, name: seq<u8>, kind: u16, c: u32,
                comps: seq<seq<u8>>, q: seq<Name>)
    requires |v.inodes| == |v'.inodes| == INODE_COUNT && Added(v, links, v', links', p, name, kind, c)
    requires PathAdded(links, links', comps, c)
    ensures Look(v', links', q) == if q == PadAll(comps) then Some(Fresh(c, kind)) else Look(v, links, q)
  {
    assert ThingOf(v', c) == Fresh(c, kind);
    var f := Walk(EdgesOf(links), ROOT_INODE, q);
    if q != PadAll(comps) && f.At? && f.ino < INODE_COUNT {
      WalkNotTo(EdgesOf(links), ROOT_INODE, c, q);
      SameOutside(v, v', {c as int, p}, f.ino);
    }
  }

  lemma AddedTree(v: Vol, links: Links, v': Vol, links': Links, p: nat, name: seq<u8>, kind: u16, c: u32,
                  comps: seq<seq<u8>>)
    requires |v.inodes| == |v'.inodes| == INODE_COUNT && Added(v, links, v', links', p, name, kind, c)
    requires PathAdded(links, links', comps, c)
    ensures TreeOf(v', links') == TreeOf(v, links)[PadAll(comps) := Fresh(c, kind)]
  {
    forall q ensures Get(TreeOf(v', links'), q) == Get(TreeOf(v, links)[PadAll(comps) := Fresh(c, kind)], q) {
      AddedAt(v, links, v', links', p, name, kind, c, comps, q);
    }
    SameTree(TreeOf(v', links'), TreeOf(v, links)[PadAll(comps) := Fresh(c, kind)]);
  }

  /** The childless inode `ino` at `comps`, in directory `p`, is gone. */
  ghost predicate Gone(v: Vol, links: Links, v': Vol, links': Links, comps: seq<seq<u8>>, p: nat, ino: nat) {
    && |v.inodes| == |v'.inodes| == INODE_COUNT && p < INODE_COUNT && IsDir(v, p) && IsDir(v', p)
    && Forest(EdgesOf(links), ROOT_INODE) && Walk(EdgesOf(links), ROOT_INODE, PadAll(comps)) == At(ino)
    && PathRemoved(links, links', comps) && SameBut(v, v', {ino, p})
  }

  lemma RemovedLook(v: Vol, links: Links, v': Vol, links': Links, comps: seq<seq<u8>>, p: nat, ino: nat, q: seq<Name>)
    requires Gone(v, links, v', links', comps, p, ino)
    ensures Look(v', links', q) == if q == PadAll(comps) then None else Look(v, links, q)
  {
    var f := Walk(EdgesOf(links), ROOT_INODE, q);
    if q != PadAll(comps) && f.At? && f.ino < INODE_COUNT {
      if f.ino == ino {
        UniquePath(EdgesOf(links), ROOT_INODE, q, PadAll(comps));
      }
      SameOutside(v, v', {ino, p}, f.ino);
    }
  }

  lemma RemovedTree(v: Vol, links: Links, v': Vol, links': Links, comps: seq<seq<u8>>, p: nat, ino: nat)
    requires Gone(v, links, v', links', comps, p, ino)
    ensures TreeOf(v', links') == TreeOf(v, links) - {PadAll(comps)}
  {
    var t, t' := TreeOf(v, links) - {PadAll(comps)}, TreeOf(v', links');
    forall q ensures Get(t', q) == Get(t, q) {
      RemovedLook(v, links, v', links', comps, p, ino, q);
    }
    SameTree(t', t);
  }

  lemma RemovedIsGone(v: Vol, g: Books, v': Vol, g': Books, path: seq<u8>)
    requires Entries(v, g.links) && Live(v, g.links) && |v'.inodes| == INODE_COUNT
    requires Base(path) != [] && RemovedAt(v, g, v', g', path)
    ensures Gone(v, g.links, v', g'.links, Comps(path), ParentDir(v, g.links, path).value, Resolve(g.links, path).value)
    ensures v'.inodes[Resolve(g.links, path).value] == NewInode(T_FREE, 0)
  {
    WalkCompsIsWalk(g.links, ROOT_INODE, Comps(path));
    ResolveLast(v, g.links, path);
    NotItsOwnParent(v, g.links, path);
  }

  /** An inode that is removed is not the directory it is removed from. */
  lemma NotItsOwnParent(v: Vol, links: Links, path: seq<u8>)
    requires Live(v, links) && Base(path) != [] && Resolve(links, path).Some? && ParentDir(v, links, path).Some?
    ensures Resolve(links, path) != ParentDir(v, links, path)
  {
    CompsParts(path);
    WalkCompsIsWalk(links, ROOT_INODE, Comps(path));
    WalkCompsIsWalk(links, ROOT_INODE, ParentComps(path));
    if Resolve(links, path) == ParentDir(v, links, path) {
      UniquePath(EdgesOf(links), ROOT_INODE, PadAll(Comps(path)), PadAll(ParentComps(path)));
    }
  }

  // --- changing a file -------------------------------------------------------------------------------

  /** `x` after `d` was stored at `offset`: the rest of the blocks touched is zero where nothing was. */
  ghost function Written(x: Thing, offset: nat, d: seq<u8>): (y: Thing) {
    Thing(x.ino, x.kind, if offset + |d| > x.size then U32(offset + |d|) else x.size,
          imap pos: nat | offset <= pos < offset + |d| || pos in x.bytes || Touched(pos, offset, offset + |d|) ::
            if offset <= pos < offset + |d| then d[pos - offset] else if pos in x.bytes then x.bytes[pos] else 0)
  }

  /** The file with number `ino` after `d` was stored in it, wherever it is. */
  ghost function WrittenTree(t: Tree, ino: nat, offset: nat, d: seq<u8>): (t': Tree) {
    imap q | q in t :: if t[q].ino == ino && t[q].kind != T_DIR then Written(t[q], offset, d) else t[q]
  }

  ghost function TruncatedTree(t: Tree, ino: nat): (t': Tree) {
    imap q | q in t :: if t[q].ino == ino && t[q].kind != T_DIR then t[q].(size := 0) else t[q]
  }

  /** When inode `ino` changed, the path that has this number, if there is one, names the changed thing. */
  lemma ChangedLook(v: Vol, links: Links, v': Vol, ino: nat, q: seq<Name>)
    requires Live(v, links) && |v'.inodes| == INODE_COUNT && ino < INODE_COUNT && OthersSame(v, v', ino)
    ensures Look(v', links, q) ==
            if Look(v, links, q).Some? && Look(v, links, q).value.ino == ino then Some(ThingOf(v', ino))
            else Look(v, links, q)
  {
    var f := Walk(EdgesOf(links), ROOT_INODE, q);
    if f.At? && f.ino < INODE_COUNT && f.ino != ino {
      SameThing(v, v', f.ino);
    }
  }

  /** Only one path has a given number. */
  lemma NumberOnce(v: Vol, links: Links, q: seq<Name>, r: seq<Name>)
    requires Live(v, links) && q in TreeOf(v, links) && r in TreeOf(v, links)
    requires TreeOf(v, links)[q].ino == TreeOf(v, links)[r].ino
    ensures q == r
  {
    LiveTree(v, links, q);
    LiveTree(v, links, r);
    UniquePath(EdgesOf(links), ROOT_INODE, q, r);
  }

  lemma WrittenThing(v: Vol, v': Vol, ino: nat, offset: nat, d: seq<u8>)
    requires ino < |v.inodes| == |v'.inodes| && Wrote(v, v', ino, offset, d)
    requires v.inodes[ino].kind == v'.inodes[ino].kind != T_DIR
    requires var size := v.inodes[ino].size;
             v'.inodes[ino].size == if offset + |d| > size then U32(offset + |d|) else size
    ensures ThingOf(v', ino) == Written(ThingOf(v, ino), offset, d)
  {
    var x, y := Written(ThingOf(v, ino), offset, d).bytes, ThingOf(v', ino).bytes;
    forall pos: nat ensures ByteOf(x, pos) == ByteOf(y, pos) {
      WrittenByte(v, v', ino, offset, d, pos);
    }
    SameBytes(x, y);
  }

  ghost function ByteOf(bytes: imap<nat, u8>, pos: nat): (r: Option<u8>) {
    if pos in bytes then Some(bytes[pos]) else None
  }

  lemma SameBytes(x: imap<nat, u8>, y: imap<nat, u8>)
    requires forall pos: nat :: ByteOf(x, pos) == ByteOf(y, pos)
    ensures x == y
  {
    forall pos: nat ensures pos in x <==> pos in y {
      assert ByteOf(x, pos) == ByteOf(y, pos);
    }
    forall pos: nat | pos in x ensures x[pos] == y[pos] {
      assert ByteOf(x, pos) == ByteOf(y, pos);
    }
  }

  lemma WrittenByte(v: Vol, v': Vol, ino: nat, offset: nat, d: seq<u8>, pos: nat)
    requires ino < |v.inodes| == |v'.inodes| && Wrote(v, v', ino, offset, d)
    requires v.inodes[ino].kind == v'.inodes[ino].kind != T_DIR
    ensures ByteOf(Written(ThingOf(v, ino), offset, d).bytes, pos) == ByteOf(ThingOf(v', ino).bytes, pos)
  {
    assert WroteAt(v, v', ino, offset, d, pos);
  }

  lemma TruncatedThing(v: Vol, v': Vol, ino: nat)
    requires ino < |v.inodes| == |v'.inodes| && (forall pos: nat :: InoByte(v', ino, pos) == InoByte(v, ino, pos))
    requires v.inodes[ino].kind == v'.inodes[ino].kind != T_DIR && v'.inodes[ino].size == 0
    ensures ThingOf(v', ino) == ThingOf(v, ino).(size := 0)
  {
  }

  // --- moving ----------------------------------------------------------------------------------------

  /** What path `q` names after `src` has moved to `dst`. */
  ghost function MovedGet(t: Tree, src: seq<Name>, dst: seq<Name>, q: seq<Name>): (r: Option<Thing>) {
    if src < dst then (if src <= q then None else Get(t, q))
    else if dst <= q then Get(t, src + q[|dst|..])
    else if src <= q then None
    else Get(t, q)
  }

  /** Everything below `src` now hangs below `dst`; moved into itself, it is gone. */
  ghost function MovedTree(t: Tree, src: seq<Name>, dst: seq<Name>): (t': Tree) {
    imap q: seq<Name> | MovedGet(t, src, dst, q).Some? :: MovedGet(t, src, dst, q).value
  }

  lemma MovedLook(v: Vol, links: Links, v': Vol, links': Links, src: seq<seq<u8>>, dst: seq<seq<u8>>,
                  sp: nat, dp: nat, q: seq<Name>)
    requires |v.inodes| == |v'.inodes| == INODE_COUNT && SameBut(v, v', {sp, dp})
    requires BothDirs(v, sp, dp) && BothDirs(v', sp, dp) && PathMoved(links, links', src, dst)
    ensures Look(v', links', q) == MovedGet(TreeOf(v, links), PadAll(src), PadAll(dst), q)
  {
    var s, d := PadAll(src), PadAll(dst);
    var q' := if !(s < d) && d <= q then s + q[|d|..] else q;
    assert Get(TreeOf(v, links), q') == Look(v, links, q');
    var f := Walk(EdgesOf(links'), ROOT_INODE, q);
    if f.At? && f.ino < INODE_COUNT {
      SameOutside(v, v', {sp, dp}, f.ino);
    }
  }

  lemma MovedTreeIs(v: Vol, links: Links, v': Vol, links': Links, src: seq<seq<u8>>, dst: seq<seq<u8>>,
                    sp: nat, dp: nat)
    requires |v.inodes| == |v'.inodes| == INODE_COUNT && SameBut(v, v', {sp, dp})
    requires BothDirs(v, sp, dp) && BothDirs(v', sp, dp) && PathMoved(links, links', src, dst)
    ensures TreeOf(v', links') == MovedTree(TreeOf(v, links), PadAll(src), PadAll(dst))
  {
    var t, t' := MovedTree(TreeOf(v, links), PadAll(src), PadAll(dst)), TreeOf(v', links');
    forall q ensures Get(t', q) == Get(t, q) {
      MovedLook(v, links, v', links', src, dst, sp, dp, q);
    }
    SameTree(t', t);
  }

  // --- reachability ----------------------------------------------------------------------------------

  ghost predicate Reachable(links: Links, i: nat) { exists q :: Walk(EdgesOf(links), ROOT_INODE, q) == At(i) }

  predicate LiveNode(v: Vol, i: nat) { 1 <= i < |v.inodes| && v.inodes[i].kind != T_FREE }

  /** Every live inode is reached by a path: the directories form a tree. */
  ghost predicate AllReachable(v: Vol, links: Links) { forall i :: LiveNode(v, i) ==> Reachable(links, i) }

  lemma AddedReach(v: Vol, links: Links, v': Vol, links': Links, p: nat, name: seq<u8>, kind: u16, c: u32,
                   comps: seq<seq<u8>>)
    requires |v.inodes| == |v'.inodes| == INODE_COUNT && Added(v, links, v', links', p, name, kind, c)
    requires PathAdded(links, links', comps, c) && kind != T_FREE
    requires Walk(EdgesOf(links), ROOT_INODE, PadAll(comps)) == Missing
    ensures AllReachable(v', links') <==> AllReachable(v, links)
  {
    assert Walk(EdgesOf(links'), ROOT_INODE, PadAll(comps)) == At(c);
    forall i | i != c ensures Reachable(links', i) <==> Reachable(links, i) {
      if q :| Walk(EdgesOf(links), ROOT_INODE, q) == At(i) {
        assert Walk(EdgesOf(links'), ROOT_INODE, q) == At(i);
      }
      if q :| Walk(EdgesOf(links'), ROOT_INODE, q) == At(i) {
        assert Walk(EdgesOf(links), ROOT_INODE, q) == At(i);
      }
    }
    forall i | i != c ensures LiveNode(v', i) <==> LiveNode(v, i) {
    }
  }

  lemma RemovedReach(v: Vol, links: Links, v': Vol, links': Links, comps: seq<seq<u8>>, p: nat, ino: nat)
    requires Gone(v, links, v', links', comps, p, ino) && !LiveNode(v', ino)
    ensures AllReachable(v', links') <==> AllReachable(v, links)
  {
    forall i | i != ino ensures Reachable(links', i) <==> Reachable(links, i) {
      if q :| Walk(EdgesOf(links), ROOT_INODE, q) == At(i) {
        assert Walk(EdgesOf(links'), ROOT_INODE, q) == At(i);
      }
      if q :| Walk(EdgesOf(links'), ROOT_INODE, q) == At(i) {
        assert Walk(EdgesOf(links), ROOT_INODE, q) == At(i);
      }
    }
    forall i | i != ino ensures LiveNode(v', i) <==> LiveNode(v, i) {
    }
    assert Reachable(links, ino) by {
      assert Walk(EdgesOf(links), ROOT_INODE, PadAll(comps)) == At(ino);
    }
  }

  /** A path below one that is missing is missing. */
  lemma MissingBelow(links: Links, d: seq<Name>, q: seq<Name>)
    requires Walk(EdgesOf(links), ROOT_INODE, d) == Missing && d <= q
    ensures Walk(EdgesOf(links), ROOT_INODE, q) == Missing
  {
    WalkAppend(EdgesOf(links), ROOT_INODE, d, q[|d|..]);
    assert d + q[|d|..] == q;
  }

  lemma MovedKeepsReach(links: Links, links': Links, src: seq<seq<u8>>, dst: seq<seq<u8>>, i: nat)
    requires PathMoved(links, links', src, dst) && !(PadAll(src) < PadAll(dst))
    requires Walk(EdgesOf(links), ROOT_INODE, PadAll(dst)) == Missing
    ensures Reachable(links', i) <==> Reachable(links, i)
  {
    var s, d := PadAll(src), PadAll(dst);
    if q :| Walk(EdgesOf(links), ROOT_INODE, q) == At(i) {
      if s <= q {
        var q' := d + q[|s|..];
        assert q'[|d|..] == q[|s|..] && s + q[|s|..] == q;
        assert Walk(EdgesOf(links'), ROOT_INODE, q') == At(i);
      } else {
        if d <= q {
          MissingBelow(links, d, q);
        }
        assert Walk(EdgesOf(links'), ROOT_INODE, q) == At(i);
      }
    }
    if q :| Walk(EdgesOf(links'), ROOT_INODE, q) == At(i) {
      var q' := if d <= q then s + q[|d|..] else q;
      assert Walk(EdgesOf(links), ROOT_INODE, q') == At(i);
    }
  }

  /** Moved into its own subtree, the inode is lost. */
  lemma MovedIntoItself(links: Links, links': Links, src: seq<seq<u8>>, dst: seq<seq<u8>>, m: nat)
    requires PathMoved(links, links', src, dst) && PadAll(src) < PadAll(dst) && Forest(EdgesOf(links), ROOT_INODE)
    requires Walk(EdgesOf(links), ROOT_INODE, PadAll(src)) == At(m)
    ensures !Reachable(links', m)
  {
    forall q ensures Walk(EdgesOf(links'), ROOT_INODE, q) != At(m) {
      if !(PadAll(src) <= q) && Walk(EdgesOf(links), ROOT_INODE, q) == At(m) {
        UniquePath(EdgesOf(links), ROOT_INODE, q, PadAll(src));
      }
    }
  }

  lemma MovedReach(v: Vol, links: Links, v': Vol, links': Links, src: seq<seq<u8>>, dst: seq<seq<u8>>,
                   sp: nat, dp: nat, m: nat)
    requires |v.inodes| == |v'.inodes| == INODE_COUNT && SameBut(v, v', {sp, dp})
    requires BothDirs(v, sp, dp) && BothDirs(v', sp, dp) && PathMoved(links, links', src, dst)
    requires Forest(EdgesOf(links), ROOT_INODE) && Walk(EdgesOf(links), ROOT_INODE, PadAll(dst)) == Missing
    requires Walk(EdgesOf(links), ROOT_INODE, PadAll(src)) == At(m) && LiveNode(v, m)
    ensures AllReachable(v', links') <==> AllReachable(v, links) && !(PadAll(src) < PadAll(dst))
  {
    forall i ensures LiveNode(v', i) <==> LiveNode(v, i) {
    }
    if PadAll(src) < PadAll(dst) {
      MovedIntoItself(links, links', src, dst, m);
      assert LiveNode(v', m);
    } else {
      forall i: nat ensures Reachable(links', i) <==> Reachable(links, i) {
        MovedKeepsReach(links, links', src, dst, i);
      }
    }
  }

  // --- the tests of the calls, on the map --------------------------------------------------------------

  /** The path as it is stored in directories. */
  function Stored(path: seq<u8>): (q: seq<Name>) { PadAll(Comps(path)) }

  /** `path` names a thing of that kind; a path with a component of more than 28 bytes names nothing. */
  ghost predicate Names(t: Tree, path: seq<u8>, kind: u16) {
    Short(Comps(path)) && Stored(path) in t && t[Stored(path)].kind == kind
  }

  lemma LookResolved(v: Vol, links: Links, path: seq<u8>)
    requires Live(v, links)
    ensures Resolve(links, path).Some? <==> Short(Comps(path)) && Stored(path) in TreeOf(v, links)
    ensures Resolve(links, path).Some? ==>
              && Resolve(links, path).value < INODE_COUNT
              && TreeOf(v, links)[Stored(path)] == ThingOf(v, Resolve(links, path).value)
    ensures Resolve(links, path).Some? ==>
              Walk(EdgesOf(links), ROOT_INODE, Stored(path)) == At(Resolve(links, path).value)
  {
    WalkCompsIsWalk(links, ROOT_INODE, Comps(path));
    WalkCompsLive(v, links, ROOT_INODE, Comps(path));
    LiveTree(v, links, Stored(path));
  }

  /** Every inode that a path reaches is live, so what is in the tree is what the walk finds. */
  lemma LiveTree(v: Vol, links: Links, q: seq<Name>)
    requires Live(v, links)
    ensures q in TreeOf(v, links) <==> Walk(EdgesOf(links), ROOT_INODE, q).At?
    ensures q in TreeOf(v, links) ==>
              var i := Walk(EdgesOf(links), ROOT_INODE, q).ino;
              LiveNode(v, i) && TreeOf(v, links)[q] == ThingOf(v, i)
  {
    var f := Walk(EdgesOf(links), ROOT_INODE, q);
    if f.At? {
      if q != [] {
        WalkLast(EdgesOf(links), ROOT_INODE, q);
      }
      assert LiveNode(v, f.ino);
    }
  }

  lemma FileAtIff(v: Vol, links: Links, path: seq<u8>)
    requires Live(v, links)
    ensures IsFileAt(v, links, path) <==> Names(TreeOf(v, links), path, T_FILE)
  {
    LookResolved(v, links, path);
  }

  /** A directory is empty when the map has nothing below it. */
  lemma EmptyDirIff(v: Vol, links: Links, path: seq<u8>)
    requires Live(v, links)
    ensures IsEmptyDirAt(v, links, path) <==>
            Names(TreeOf(v, links), path, T_DIR) && forall r :: r in TreeOf(v, links) ==> !(Stored(path) < r)
  {
    LookResolved(v, links, path);
    if Resolve(links, path).Some? {
      NothingBelow(v, links, Stored(path), Resolve(links, path).value);
    }
  }

  lemma NothingBelow(v: Vol, links: Links, q: seq<Name>, ino: nat)
    requires Live(v, links) && Walk(EdgesOf(links), ROOT_INODE, q) == At(ino)
    ensures (forall e :: e in links ==> e.0 != ino) <==> forall r :: r in TreeOf(v, links) ==> !(q < r)
  {
    var edges := EdgesOf(links);
    if r :| r in TreeOf(v, links) && q < r {
      LiveTree(v, links, r);
      WalkAppend(edges, ROOT_INODE, q, r[|q|..]);
      assert q + r[|q|..] == r;
      assert (ino, r[|q|]) in links;
    }
    if e :| e in links && e.0 == ino {
      var r := q + [e.1];
      WalkAppend(edges, ROOT_INODE, q, [e.1]);
      assert Walk(edges, ino, [e.1]).At? by {
        assert [e.1][1..] == [];
      }
      LiveTree(v, links, r);
      assert r in TreeOf(v, links) && q < r;
    }
  }

  /** A name without an entry in a directory that exists is a path that does not. */
  lemma FreshPath(links: Links, dir: seq<seq<u8>>, name: seq<u8>, p: u32)
    requires WalkComps(links, ROOT_INODE, dir) == Some(p) && (p as nat, Pad(name)) !in links
    ensures Walk(EdgesOf(links), ROOT_INODE, PadAll(dir + [name])) == Missing
  {
    WalkCompsIsWalk(links, ROOT_INODE, dir);
    PadAllAppend(dir, name);
    WalkAppend(EdgesOf(links), ROOT_INODE, PadAll(dir), [Pad(name)]);
  }
}
