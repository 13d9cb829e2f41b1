/** Path strings of kernel/src/fs.rs: splitting at '/', the non-empty components `namei` walks,
    and the split into parent and last component that `split_parent` makes. */
module Paths {
  import opened DiskFormat

  const SLASH: u8 := 47

  /** `path.split(|c| c == '/')`: always at least one piece. */
  function Split(path: seq<u8>): (r: seq<seq<u8>>)
    ensures |r| >= 1
    ensures forall i :: 0 <= i < |r| ==> SLASH !in r[i]
  {
    if path == [] then [[]]
    else
      var rest := Split(path[1..]);
      if path[0] == SLASH then [[]] + rest else [[path[0]] + rest[0]] + rest[1..]
  }

  function NonEmpty(pieces: seq<seq<u8>>): (r: seq<seq<u8>>)
    ensures forall i :: 0 <= i < |r| ==> r[i] != [] && r[i] in pieces
  {
    if pieces == [] then []
    else if pieces[0] == [] then NonEmpty(pieces[1..])
    else [pieces[0]] + NonEmpty(pieces[1..])
  }

  /** The components of a path: empty pieces (leading, trailing, double slashes) are skipped. */
  function Comps(path: seq<u8>): (r: seq<seq<u8>>) { NonEmpty(Split(path)) }

  lemma {:induction false} NonEmptyAppend(a: seq<seq<u8>>, b: seq<seq<u8>>)
    ensures NonEmpty(a + b) == NonEmpty(a) + NonEmpty(b)
  {
    if a == [] {
      assert a + b == b;
    } else {
      assert (a + b)[1..] == a[1..] + b;
      NonEmptyAppend(a[1..], b);
    }
  }

  /** Splitting distributes over a slash. */
  lemma {:induction false} SplitAtSlash(a: seq<u8>, b: seq<u8>)
    ensures Split(a + [SLASH] + b) == Split(a) + Split(b)
  {
    var s := a + [SLASH] + b;
    if a == [] {
      assert s == [SLASH] + b && s[1..] == b;
    } else {
      assert s[1..] == a[1..] + [SLASH] + b;
      SplitAtSlash(a[1..], b);
    }
  }

  lemma {:induction false} SplitNoSlash(a: seq<u8>)
    requires SLASH !in a
    ensures Split(a) == [a]
  {
    if a != [] {
      SplitNoSlash(a[1..]);
      assert [a[0]] + a[1..] == a;
    }
  }

  lemma CompsSingle(a: seq<u8>)
    requires SLASH !in a
    ensures Comps(a) == if a == [] then [] else [a]
  {
    SplitNoSlash(a);
    assert NonEmpty([a]) == if a == [] then [] else [a];
  }

  /** `rposition`: the part after the last slash has none. */
  method LastSlash(path: seq<u8>) returns (found: bool, i: nat)
    ensures found ==> i < |path| && path[i] == SLASH && SLASH !in path[i + 1..]
    ensures !found ==> SLASH !in path
  {
    var k := |path|;
    while k > 0
      invariant 0 <= k <= |path|
      invariant SLASH !in path[k..]
    {
      if path[k - 1] == SLASH {
        return true, k - 1;
      }
      assert path[k - 1..] == [path[k - 1]] + path[k..];
      k := k - 1;
    }
    assert path[0..] == path;
    return false, 0;
  }

  /** The text after the last slash. */
  function Base(path: seq<u8>): (r: seq<u8>) { Split(path)[|Split(path)| - 1] }

  /** The components before the last slash. */
  function ParentComps(path: seq<u8>): (r: seq<seq<u8>>) { NonEmpty(Split(path)[..|Split(path)| - 1]) }

  lemma CompsParts(path: seq<u8>)
    ensures Comps(path) == ParentComps(path) + (if Base(path) == [] then [] else [Base(path)])
  {
    var pieces := Split(path);
    assert pieces == pieces[..|pieces| - 1] + [Base(path)];
    NonEmptyAppend(pieces[..|pieces| - 1], [Base(path)]);
    assert NonEmpty([Base(path)]) == if Base(path) == [] then [] else [Base(path)];
  }

  /** The parent path and the last component; the last component is empty for a trailing slash. */
  method SplitLast(path: seq<u8>) returns (parent: seq<u8>, name: seq<u8>)
    ensures name == Base(path) && SLASH !in name
    ensures Comps(parent) == ParentComps(path)
  {
    var found, i := LastSlash(path);
    if found {
      parent, name := path[..i], path[i + 1..];
      assert path == parent + [SLASH] + name;
      SplitAtSlash(parent, name);
      SplitNoSlash(name);
      assert Split(path)[..|Split(path)| - 1] == Split(parent);
    } else {
      parent, name := [], path;
      CompsSingle([]);
      SplitNoSlash(name);
    }
  }
}
