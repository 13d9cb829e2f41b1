/** The path tree the directory operations of kernel/src/fs.rs implement: directory entries
    as labelled edges between inodes, and path resolution as a walk from the root.

    `Move`, `Add` and `Remove` are what `rename`, `create`/`mkdir` and `unlink`/`rmdir` do to
    the edges; the lemmas say, for every path, what that does to path resolution. */
module FsTree {
  import opened DiskFormat

  datatype Found = Missing | At(ino: nat)

  type Edges = map<(nat, Name), nat>

  /** `namei` on the tree: follow one edge per component. */
  function Walk(edges: Edges, cur: nat, path: seq<Name>): (r: Found)
    decreases |path|
  {
    if path == [] then At(cur)
    else if (cur, path[0]) in edges then Walk(edges, edges[(cur, path[0])], path[1..])
    else Missing
  }

  /** Every inode has at most one directory entry, and the root has none. */
  ghost predicate Forest(edges: Edges, root: nat) {
    && (forall e1, e2 :: e1 in edges && e2 in edges && edges[e1] == edges[e2] ==> e1 == e2)
    && (forall e :: e in edges ==> edges[e] != root)
  }

  lemma {:induction false} WalkAppend(edges: Edges, cur: nat, p: seq<Name>, q: seq<Name>)
    ensures Walk(edges, cur, p + q) ==
            if Walk(edges, cur, p).At? then Walk(edges, Walk(edges, cur, p).ino, q) else Missing
    decreases |p|
  {
    if p == [] {
      assert p + q == q;
    } else {
      assert (p + q)[1..] == p[1..] + q;
      if (cur, p[0]) in edges {
        WalkAppend(edges, edges[(cur, p[0])], p[1..], q);
      }
    }
  }

  /** The last step of a walk. */
  lemma WalkLast(edges: Edges, cur: nat, p: seq<Name>)
    requires p != []
    ensures var init, last := p[..|p| - 1], p[|p| - 1];
            Walk(edges, cur, p) ==
            if Walk(edges, cur, init).At? && (Walk(edges, cur, init).ino, last) in edges
            then At(edges[(Walk(edges, cur, init).ino, last)]) else Missing
  {
    var init, last := p[..|p| - 1], p[|p| - 1];
    assert p == init + [last];
    WalkAppend(edges, cur, init, [last]);
    if Walk(edges, cur, init).At? {
      var c := Walk(edges, cur, init).ino;
      if (c, last) in edges {
        assert Walk(edges, edges[(c, last)], [last][1..]) == At(edges[(c, last)]);
      }
    }
  }

  /** Two paths that resolve to the same inode are the same path: no aliasing. */
  lemma {:induction false} UniquePath(edges: Edges, root: nat, p: seq<Name>, q: seq<Name>)
    requires Forest(edges, root)
    requires Walk(edges, root, p).At? && Walk(edges, root, p) == Walk(edges, root, q)
    ensures p == q
    decreases |p|
  {
    if p != [] { WalkLast(edges, root, p); }
    if q != [] { WalkLast(edges, root, q); }
    if p != [] && q != [] {
      UniquePath(edges, root, p[..|p| - 1], q[..|q| - 1]);
      assert p == p[..|p| - 1] + [p[|p| - 1]];
      assert q == q[..|q| - 1] + [q[|q| - 1]];
    }
  }

  /** No entry leads out of `c`. */
  ghost predicate NoChildren(edges: Edges, c: nat) {
    forall e :: e in edges ==> e.0 != c
  }

  // --- removing an entry: unlink, rmdir ------------------------------------------------

  /** Removing the entry at `dir + [n]` whose target has no children makes exactly that path
      disappear. */
  lemma {:induction false} WalkRemove(edges: Edges, root: nat, dir: seq<Name>, n: Name, p: seq<Name>)
    requires Forest(edges, root) && Walk(edges, root, dir).At?
    requires (Walk(edges, root, dir).ino, n) in edges
    requires NoChildren(edges, edges[(Walk(edges, root, dir).ino, n)])
    ensures Walk(edges - {(Walk(edges, root, dir).ino, n)}, root, p) ==
            if p == dir + [n] then Missing else Walk(edges, root, p)
    decreases |p|
  {
    var d := Walk(edges, root, dir).ino;
    var edges' := edges - {(d, n)};
    if p != [] {
      var init, last := p[..|p| - 1], p[|p| - 1];
      assert p == init + [last];
      WalkRemove(edges, root, dir, n, init);
      WalkLast(edges, root, p);
      WalkLast(edges', root, p);
      if init == dir + [n] {
        WalkLast(edges, root, init);
        assert init[..|init| - 1] == dir;
      } else if Walk(edges, root, init) == At(d) {
        UniquePath(edges, root, init, dir);
      }
    }
  }

  // --- adding an entry: create, mkdir ----------------------------------------------------

  /** Adding an entry for a fresh inode makes exactly that path resolve to it. */
  lemma {:induction false} WalkAdd(edges: Edges, root: nat, dir: seq<Name>, n: Name, c: nat, p: seq<Name>)
    requires Forest(edges, root) && Walk(edges, root, dir).At?
    requires (Walk(edges, root, dir).ino, n) !in edges
    requires NoChildren(edges, c) && c != root && (forall e :: e in edges ==> edges[e] != c)
    ensures Walk(edges[(Walk(edges, root, dir).ino, n) := c], root, p) ==
            if p == dir + [n] then At(c) else Walk(edges, root, p)
    decreases |p|
  {
    var d := Walk(edges, root, dir).ino;
    var edges' := edges[(d, n) := c];
    if p != [] {
      var init, last := p[..|p| - 1], p[|p| - 1];
      assert p == init + [last];
      WalkAdd(edges, root, dir, n, c, init);
      WalkLast(edges, root, p);
      WalkLast(edges', root, p);
      if init == dir + [n] {
        WalkLast(edges, root, init);
        assert init[..|init| - 1] == dir;
        WalkNotTo(edges, root, c, dir);
      } else if Walk(edges, root, init) == At(d) {
        UniquePath(edges, root, init, dir);
      }
      WalkNotTo(edges, root, c, init);
    }
  }

  /** An inode without an entry is reached by no path. */
  lemma WalkNotTo(edges: Edges, root: nat, c: nat, p: seq<Name>)
    requires c != root && (forall e :: e in edges ==> edges[e] != c)
    ensures Walk(edges, root, p) != At(c)
  {
    if p != [] {
      WalkLast(edges, root, p);
    }
  }

  // --- moving an entry: rename -------------------------------------------------------------

  function Moved(edges: Edges, s: (nat, Name), t: (nat, Name)): (r: Edges)
    requires s in edges
  {
    edges[t := edges[s]] - {s}
  }

  /** What `rename` is meant to do: the subtree at `src` appears at `dst` and nothing else changes. */
  ghost function Renamed(edges: Edges, root: nat, src: seq<Name>, dst: seq<Name>, p: seq<Name>): (r: Found) {
    if dst <= p then Walk(edges, root, src + p[|dst|..])
    else if src <= p then Missing
    else Walk(edges, root, p)
  }

  /** Before the moved entry is reached, walks are unaffected: a path that does not start with
      `src` or `dst` resolves as before. */
  lemma {:induction false} WalkMovedElsewhere(
    edges: Edges, root: nat, sdir: seq<Name>, sn: Name, ddir: seq<Name>, dn: Name, p: seq<Name>)
    requires MoveOk(edges, root, sdir, sn, ddir, dn)
    requires !(ddir + [dn] <= p) && !(sdir + [sn] <= p)
    ensures var s, t := (Walk(edges, root, sdir).ino, sn), (Walk(edges, root, ddir).ino, dn);
            Walk(Moved(edges, s, t), root, p) == Walk(edges, root, p)
    decreases |p|
  {
    var s, t := (Walk(edges, root, sdir).ino, sn), (Walk(edges, root, ddir).ino, dn);
    var edges' := Moved(edges, s, t);
    if p != [] {
      var init, last := p[..|p| - 1], p[|p| - 1];
      assert p == init + [last];
      WalkMovedElsewhere(edges, root, sdir, sn, ddir, dn, init);
      WalkLast(edges, root, p);
      WalkLast(edges', root, p);
      if Walk(edges, root, init) == At(s.0) {
        UniquePath(edges, root, init, sdir);
      }
      if Walk(edges, root, init) == At(t.0) {
        UniquePath(edges, root, init, ddir);
      }
    }
  }

  /** The source entry exists, the destination directory exists and has no entry of that name. */
  ghost predicate MoveOk(edges: Edges, root: nat, sdir: seq<Name>, sn: Name, ddir: seq<Name>, dn: Name) {
    && Forest(edges, root)
    && Walk(edges, root, sdir).At? && (Walk(edges, root, sdir).ino, sn) in edges
    && Walk(edges, root, ddir).At? && (Walk(edges, root, ddir).ino, dn) !in edges
  }

  /** Inside the moved subtree a walk uses none of the two changed entries. */
  lemma {:induction false} WalkInside(
    edges: Edges, root: nat, sdir: seq<Name>, sn: Name, ddir: seq<Name>, dn: Name, rest: seq<Name>)
    requires MoveOk(edges, root, sdir, sn, ddir, dn) && !(sdir + [sn] <= ddir)
    ensures var s, t := (Walk(edges, root, sdir).ino, sn), (Walk(edges, root, ddir).ino, dn);
            Walk(Moved(edges, s, t), edges[s], rest) == Walk(edges, edges[s], rest)
    decreases |rest|
  {
    var s, t := (Walk(edges, root, sdir).ino, sn), (Walk(edges, root, ddir).ino, dn);
    var edges' := Moved(edges, s, t);
    var src := sdir + [sn];
    WalkLast(edges, root, src);
    assert src[..|src| - 1] == sdir;
    if rest != [] {
      var init, last := rest[..|rest| - 1], rest[|rest| - 1];
      WalkInside(edges, root, sdir, sn, ddir, dn, init);
      WalkLast(edges, edges[s], rest);
      WalkLast(edges', edges[s], rest);
      WalkAppend(edges, root, src, init);
      if Walk(edges, edges[s], init) == At(s.0) {
        UniquePath(edges, root, src + init, sdir);
      }
      if Walk(edges, edges[s], init) == At(t.0) {
        UniquePath(edges, root, src + init, ddir);
      }
    }
  }

  /** Entering the destination entry lands on the moved inode. */
  lemma WalkToDst(edges: Edges, root: nat, sdir: seq<Name>, sn: Name, ddir: seq<Name>, dn: Name)
    requires MoveOk(edges, root, sdir, sn, ddir, dn) && !(sdir + [sn] <= ddir)
    ensures var s, t := (Walk(edges, root, sdir).ino, sn), (Walk(edges, root, ddir).ino, dn);
            Walk(Moved(edges, s, t), root, ddir + [dn]) == At(edges[s])
  {
    var s, t := (Walk(edges, root, sdir).ino, sn), (Walk(edges, root, ddir).ino, dn);
    var edges' := Moved(edges, s, t);
    assert !(ddir + [dn] <= ddir);
    WalkMovedElsewhere(edges, root, sdir, sn, ddir, dn, ddir);
    var dst := ddir + [dn];
    WalkLast(edges', root, dst);
    assert dst[..|dst| - 1] == ddir;
    assert s != t;
  }

  /** Entering the old source entry finds nothing, whatever the destination. */
  lemma WalkToSrc(edges: Edges, root: nat, sdir: seq<Name>, sn: Name, ddir: seq<Name>, dn: Name)
    requires MoveOk(edges, root, sdir, sn, ddir, dn) && !(ddir + [dn] <= sdir + [sn])
    ensures var s, t := (Walk(edges, root, sdir).ino, sn), (Walk(edges, root, ddir).ino, dn);
            Walk(Moved(edges, s, t), root, sdir + [sn]) == Missing
  {
    var s, t := (Walk(edges, root, sdir).ino, sn), (Walk(edges, root, ddir).ino, dn);
    var src := sdir + [sn];
    assert sdir <= src;
    assert !(src <= sdir);
    WalkMovedElsewhere(edges, root, sdir, sn, ddir, dn, sdir);
    WalkLast(Moved(edges, s, t), root, src);
    assert src[..|src| - 1] == sdir;
  }

  /** Rename moves exactly the subtree: for every path, when the destination directory is not
      inside the moved subtree. */
  lemma WalkMoved(edges: Edges, root: nat, sdir: seq<Name>, sn: Name, ddir: seq<Name>, dn: Name, p: seq<Name>)
    requires MoveOk(edges, root, sdir, sn, ddir, dn) && !(sdir + [sn] <= ddir)
    ensures var s, t := (Walk(edges, root, sdir).ino, sn), (Walk(edges, root, ddir).ino, dn);
            Walk(Moved(edges, s, t), root, p) == Renamed(edges, root, sdir + [sn], ddir + [dn], p)
  {
    var s, t := (Walk(edges, root, sdir).ino, sn), (Walk(edges, root, ddir).ino, dn);
    var edges' := Moved(edges, s, t);
    var src, dst := sdir + [sn], ddir + [dn];
    WalkLast(edges, root, src);
    assert src[..|src| - 1] == sdir;
    if dst <= p {
      var rest := p[|dst|..];
      assert p == dst + rest;
      WalkToDst(edges, root, sdir, sn, ddir, dn);
      WalkAppend(edges', root, dst, rest);
      WalkInside(edges, root, sdir, sn, ddir, dn, rest);
      WalkAppend(edges, root, src, rest);
    } else if src <= p {
      var rest := p[|src|..];
      assert p == src + rest;
      assert !(dst <= src);
      WalkToSrc(edges, root, sdir, sn, ddir, dn);
      WalkAppend(edges', root, src, rest);
    } else {
      WalkMovedElsewhere(edges, root, sdir, sn, ddir, dn, p);
    }
  }

  /** Renaming into the moved directory's own subtree instead detaches it: afterwards no path
      reaches the moved inode. So a rename keeps the moved inode reachable if and only if the
      destination directory is not inside it. */
  lemma {:induction false} MovedReachable(edges: Edges, root: nat, sdir: seq<Name>, sn: Name, ddir: seq<Name>, dn: Name)
    requires MoveOk(edges, root, sdir, sn, ddir, dn)
    ensures var s, t := (Walk(edges, root, sdir).ino, sn), (Walk(edges, root, ddir).ino, dn);
            (exists p :: Walk(Moved(edges, s, t), root, p) == At(edges[s])) <==> !(sdir + [sn] <= ddir)
  {
    var s, t := (Walk(edges, root, sdir).ino, sn), (Walk(edges, root, ddir).ino, dn);
    if !(sdir + [sn] <= ddir) {
      WalkToDst(edges, root, sdir, sn, ddir, dn);
    } else {
      forall p ensures Walk(Moved(edges, s, t), root, p) != At(edges[s]) {
        WalkDetached(edges, root, sdir, sn, ddir, dn, p);
      }
    }
  }

  /** After a rename into its own subtree, a path resolves only if it avoided the subtree, and then
      as before. */
  lemma {:induction false} WalkDetached(
    edges: Edges, root: nat, sdir: seq<Name>, sn: Name, ddir: seq<Name>, dn: Name, p: seq<Name>)
    requires MoveOk(edges, root, sdir, sn, ddir, dn) && sdir + [sn] <= ddir
    ensures var s, t := (Walk(edges, root, sdir).ino, sn), (Walk(edges, root, ddir).ino, dn);
            && Walk(Moved(edges, s, t), root, p) == (if sdir + [sn] <= p then Missing else Walk(edges, root, p))
            && Walk(Moved(edges, s, t), root, p) != At(edges[s])
  {
    var s, t := (Walk(edges, root, sdir).ino, sn), (Walk(edges, root, ddir).ino, dn);
    var edges' := Moved(edges, s, t);
    var src, dst := sdir + [sn], ddir + [dn];
    WalkLast(edges, root, src);
    assert src[..|src| - 1] == sdir;
    if src <= p {
      var rest := p[|src|..];
      assert p == src + rest;
      assert |dst| > |src|;
      WalkToSrc(edges, root, sdir, sn, ddir, dn);
      WalkAppend(edges', root, src, rest);
    } else {
      WalkMovedElsewhere(edges, root, sdir, sn, ddir, dn, p);
      if Walk(edges, root, p) == At(edges[s]) {
        UniquePath(edges, root, p, src);
      }
    }
  }

  /** A successful move keeps the tree a forest. */
  lemma MovedForest(edges: Edges, root: nat, s: (nat, Name), t: (nat, Name))
    requires Forest(edges, root) && s in edges && t !in edges
    ensures Forest(Moved(edges, s, t), root)
  {
  }

  /** So does adding an entry for an inode that has none. */
  lemma AddedForest(edges: Edges, root: nat, e0: (nat, Name), c: nat)
    requires Forest(edges, root) && c != root && forall e :: e in edges ==> edges[e] != c
    ensures Forest(edges[e0 := c], root)
  {
  }
}
