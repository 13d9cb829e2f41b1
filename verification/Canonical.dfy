/** `resolve` of kernel/src/fs.rs: a path, relative to a current directory, becomes one canonical
    absolute path, written in place into a bounded buffer with at most 64 components. */
module Canonical {
  import opened Wrappers
  import opened DiskFormat
  import opened Paths

  const MAX_DEPTH := 64
  const DOT: u8 := 46

  type Stack = seq<seq<u8>>

  predicate IsDot(c: seq<u8>) { c == [DOT] }
  predicate IsDotDot(c: seq<u8>) { c == [DOT, DOT] }
  predicate Plain(c: seq<u8>) { c != [] && !IsDot(c) && !IsDotDot(c) && SLASH !in c }

  /** A stack of proper names. */
  predicate Names(st: Stack) { forall i :: 0 <= i < |st| ==> Plain(st[i]) }

  /** One component: nothing, up one level but not above the root, or down into a name. */
  function Enter(st: Stack, c: seq<u8>): (r: Stack) {
    if c == [] || IsDot(c) then st
    else if IsDotDot(c) then (if st == [] then [] else st[..|st| - 1])
    else st + [c]
  }

  /** The text of a stack: every name after a slash. */
  function Text(st: Stack): (r: seq<u8>) {
    if st == [] then [] else Text(st[..|st| - 1]) + [SLASH] + st[|st| - 1]
  }

  /** The limits the code checks when it goes down into a name. */
  predicate Fits(st: Stack, cap: nat) { |st| <= MAX_DEPTH && |Text(st)| <= cap }

  /** The stack semantics of a list of components, `None` if a limit is hit on the way. */
  function Walked(st: Stack, pieces: seq<seq<u8>>, cap: nat): (r: Option<Stack>)
    decreases |pieces|
  {
    if pieces == [] then Some(st)
    else
      var next := Enter(st, pieces[0]);
      if |next| > |st| && !Fits(next, cap) then None else Walked(next, pieces[1..], cap)
  }

  predicate Absolute(path: seq<u8>) { path != [] && path[0] == SLASH }

  function Pieces(cwd: seq<u8>, path: seq<u8>): (r: seq<seq<u8>>) {
    Split(if Absolute(path) then [] else cwd) + Split(path)
  }

  /** What `resolve` should produce. */
  function Resolved(cwd: seq<u8>, path: seq<u8>, cap: nat): (r: Option<seq<u8>>) {
    var st := Walked([], Pieces(cwd, path), cap);
    if st.None? then None
    else if st.value == [] then (if cap == 0 then None else Some([SLASH]))
    else Some(Text(st.value))
  }

  // --- properties of the stack semantics --------------------------------------------------------

  lemma {:induction false} WalkedAppend(st: Stack, a: seq<seq<u8>>, b: seq<seq<u8>>, cap: nat)
    ensures Walked(st, a + b, cap) ==
            if Walked(st, a, cap).Some? then Walked(Walked(st, a, cap).value, b, cap) else None
    decreases |a|
  {
    if a == [] {
      assert a + b == b;
    } else {
      assert (a + b)[1..] == a[1..] + b;
      var next := Enter(st, a[0]);
      if !(|next| > |st| && !Fits(next, cap)) {
        WalkedAppend(next, a[1..], b, cap);
      }
    }
  }

  /** Only proper names ever get onto the stack, and it stays within the limits. */
  lemma {:induction false} WalkedNames(st: Stack, pieces: seq<seq<u8>>, cap: nat)
    requires Names(st) && Fits(st, cap) && forall i :: 0 <= i < |pieces| ==> SLASH !in pieces[i]
    ensures Walked(st, pieces, cap).Some? ==>
              Names(Walked(st, pieces, cap).value) && Fits(Walked(st, pieces, cap).value, cap)
    decreases |pieces|
  {
    if pieces != [] {
      var next := Enter(st, pieces[0]);
      if !(|next| > |st| && !Fits(next, cap)) {
        WalkedNames(next, pieces[1..], cap);
      }
    }
  }

  /** A stack that fits is rebuilt from its own names. */
  lemma {:induction false} WalkedSelf(st: Stack, cap: nat)
    requires Names(st) && Fits(st, cap)
    ensures Walked([], st, cap) == Some(st)
    decreases |st|
  {
    if st != [] {
      var n := |st| - 1;
      var init, last := st[..n], st[n];
      assert st == init + [last];
      WalkedSelf(init, cap);
      WalkedAppend([], init, [last], cap);
      assert Walked(init, [last], cap) == Walked(Enter(init, last), [], cap);
    }
  }

  /** The pieces of a stack's text are its names, after the empty piece before the first slash. */
  lemma {:induction false} SplitText(st: Stack)
    requires Names(st)
    ensures Split(Text(st)) == [[]] + st
    decreases |st|
  {
    if st != [] {
      var n := |st| - 1;
      SplitText(st[..n]);
      SplitAtSlash(Text(st[..n]), st[n]);
      SplitNoSlash(st[n]);
      assert st == st[..n] + [st[n]];
    }
  }

  lemma WalkedSkip(st: Stack, pieces: seq<seq<u8>>, cap: nat)
    ensures Walked(st, [[]] + pieces, cap) == Walked(st, pieces, cap)
  {
  }

  /** A canonical path, root included, resolves to its own stack, from any directory. */
  lemma WalkedCanonical(cwd: seq<u8>, st: Stack, cap: nat)
    requires Names(st) && Fits(st, cap)
    ensures var text := if st == [] then [SLASH] else Text(st);
            Absolute(text) && Walked([], Split(text), cap) == Some(st)
  {
    if st == [] {
      SplitRoot();
      var none: Stack := [];
      WalkedSkip([], [[]] + none, cap);
      WalkedSkip([], none, cap);
    } else {
      SplitText(st);
      WalkedSkip([], st, cap);
      WalkedSelf(st, cap);
      TextStarts(st);
    }
  }

  lemma SplitRoot()
    ensures Split([SLASH]) == [[]] + ([[]] + [])
  {
  }

  lemma {:induction false} TextStarts(st: Stack)
    requires st != []
    ensures Absolute(Text(st))
    decreases |st|
  {
    if |st| > 1 {
      TextStarts(st[..|st| - 1]);
    }
  }

  /** What a successful result is: the text of a stack of proper names within the limits. */
  lemma ResolvedStack(cwd: seq<u8>, path: seq<u8>, cap: nat) returns (st: Stack)
    requires Resolved(cwd, path, cap).Some?
    ensures Names(st) && Fits(st, cap) && Walked([], Pieces(cwd, path), cap) == Some(st)
    ensures Resolved(cwd, path, cap).value == if st == [] then [SLASH] else Text(st)
  {
    var pieces := Pieces(cwd, path);
    st := Walked([], pieces, cap).value;
    WalkedNames([], pieces, cap);
  }

  /** Canonical form: the components of the output are proper names, none empty, "." or "..". */
  lemma OutputIsCanonical(cwd: seq<u8>, path: seq<u8>, cap: nat)
    requires Resolved(cwd, path, cap).Some?
    ensures Absolute(Resolved(cwd, path, cap).value) && Names(Comps(Resolved(cwd, path, cap).value))
  {
    var st := ResolvedStack(cwd, path, cap);
    WalkedCanonical(cwd, st, cap);
    CompsOfText(st);
  }

  lemma {:induction false} NonEmptyNames(st: Stack)
    requires Names(st)
    ensures NonEmpty(st) == st
    decreases |st|
  {
    if st != [] {
      NonEmptyNames(st[1..]);
    }
  }

  lemma PiecesOfCanonical(cwd: seq<u8>, st: Stack, rest: seq<seq<u8>>, cap: nat)
    requires Names(st) && Fits(st, cap)
    ensures var text := if st == [] then [SLASH] else Text(st);
            Walked([], Split(text) + rest, cap) == Walked(st, rest, cap)
  {
    var text := if st == [] then [SLASH] else Text(st);
    WalkedCanonical(cwd, st, cap);
    WalkedAppend([], Split(text), rest, cap);
  }

  /** Idempotence: resolving a result again, from any directory, gives it back. */
  lemma Idempotent(cwd: seq<u8>, path: seq<u8>, other: seq<u8>, cap: nat)
    requires Resolved(cwd, path, cap).Some?
    ensures Resolved(other, Resolved(cwd, path, cap).value, cap) == Resolved(cwd, path, cap)
  {
    var st := ResolvedStack(cwd, path, cap);
    var text := Resolved(cwd, path, cap).value;
    WalkedCanonical(other, st, cap);
    assert Split([]) == [[]];
    WalkedSkip([], Split(text), cap);
  }

  /** `path` and then the relative path `more`, as one path. */
  function Join(path: seq<u8>, more: seq<u8>): (r: seq<u8>) { if path == [] then more else path + [SLASH] + more }

  /** Resolving in two steps, `path` first and the relative path `more` from there, is resolving the
      joined path, failures included. */
  lemma TwoSteps(cwd: seq<u8>, path: seq<u8>, more: seq<u8>, cap: nat)
    requires !Absolute(more)
    ensures Resolved(cwd, Join(path, more), cap) ==
            if Resolved(cwd, path, cap).Some? then Resolved(Resolved(cwd, path, cap).value, more, cap) else None
  {
    JoinedPieces(cwd, path, more, cap);
    WalkedAppend([], Pieces(cwd, path), Split(more), cap);
    if Resolved(cwd, path, cap).Some? {
      var st := ResolvedStack(cwd, path, cap);
      PiecesOfCanonical(cwd, st, Split(more), cap);
    } else if Walked([], Pieces(cwd, path), cap).Some? {
      NoRoom(Split(more));
    }
  }

  lemma JoinedPieces(cwd: seq<u8>, path: seq<u8>, more: seq<u8>, cap: nat)
    requires !Absolute(more)
    ensures Walked([], Pieces(cwd, Join(path, more)), cap) == Walked([], Pieces(cwd, path) + Split(more), cap)
  {
    if path == [] {
      assert Pieces(cwd, path) + Split(more) == Split(cwd) + ([[]] + Split(more));
      WalkedAppend([], Split(cwd), [[]] + Split(more), cap);
      WalkedAppend([], Split(cwd), Split(more), cap);
      if Walked([], Split(cwd), cap).Some? {
        WalkedSkip(Walked([], Split(cwd), cap).value, Split(more), cap);
      }
    } else {
      SplitAtSlash(path, more);
      assert Absolute(Join(path, more)) == Absolute(path);
      assert Pieces(cwd, Join(path, more)) == Pieces(cwd, path) + Split(more);
    }
  }

  /** With an empty buffer every component list fails or ends at the root. */
  lemma {:induction false} NoRoom(pieces: seq<seq<u8>>)
    ensures Walked([], pieces, 0).Some? ==> Walked([], pieces, 0).value == []
    decreases |pieces|
  {
    if pieces != [] {
      var next := Enter([], pieces[0]);
      if next == [] {
        NoRoom(pieces[1..]);
      }
    }
  }

  // --- the rules, on path strings ---------------------------------------------------------------

  lemma CompsOfText(st: Stack)
    requires Names(st)
    ensures Comps(if st == [] then [SLASH] else Text(st)) == st
  {
    if st == [] {
      SplitRoot();
      var none: Stack := [[]];
      NonEmptyAppend(none, none);
    } else {
      SplitText(st);
      NonEmptyAppend([[]], st);
      NonEmptyNames(st);
    }
  }

  /** One more component behind a path that resolves. */
  lemma OneMore(cwd: seq<u8>, path: seq<u8>, c: seq<u8>, cap: nat, st: Stack)
    requires path != [] && SLASH !in c && Walked([], Pieces(cwd, path), cap) == Some(st)
    ensures Walked([], Pieces(cwd, path + [SLASH] + c), cap) ==
            if |Enter(st, c)| > |st| && !Fits(Enter(st, c), cap) then None else Some(Enter(st, c))
  {
    JoinedPieces(cwd, path, c, cap);
    WalkedAppend([], Pieces(cwd, path), Split(c), cap);
    SplitNoSlash(c);
    assert Walked(Enter(st, c), [], cap) == Some(Enter(st, c));
  }

  lemma RootRule(cwd: seq<u8>, cap: nat)
    ensures Resolved(cwd, [47], cap) == if cap == 0 then None else Some([47])
  {
    WalkedCanonical(cwd, [], cap);
    assert Split([]) == [[]];
    WalkedSkip([], Split([SLASH]), cap);
  }

  /** The current directory does not matter to an absolute path, and stands before a relative one. */
  lemma StartRules(cwd: seq<u8>, other: seq<u8>, path: seq<u8>, cap: nat)
    ensures path != [] && path[0] == 47 ==> Resolved(cwd, path, cap) == Resolved(other, path, cap)
    ensures path == [] || path[0] != 47 ==> Resolved(cwd, path, cap) == Resolved(other, [47] + cwd + [47] + path, cap)
  {
    if path == [] || path[0] != 47 {
      var joined := [SLASH] + cwd + [SLASH] + path;
      SplitAtSlash([SLASH] + cwd, path);
      SplitRooted(cwd);
      Behind(Split(cwd), Split(path));
      WalkedSkip([], Split(cwd) + Split(path), cap);
      WalkedSkip([], Split(joined), cap);
    }
  }

  lemma Behind(a: seq<seq<u8>>, b: seq<seq<u8>>)
    ensures ([[]] + a) + b == [[]] + (a + b)
  {
  }

  lemma SplitRooted(path: seq<u8>)
    ensures Split([SLASH] + path) == [[]] + Split(path) && Split([]) == [[]]
  {
    assert ([SLASH] + path)[1..] == path;
  }

  /** A trailing slash, and a component ".", change nothing. */
  lemma StayRules(cwd: seq<u8>, path: seq<u8>, cap: nat)
    requires path != []
    ensures Resolved(cwd, path + [47], cap) == Resolved(cwd, path, cap)
    ensures Resolved(cwd, path + [47, 46], cap) == Resolved(cwd, path, cap)
  {
    assert path + [SLASH] + [] == path + [47] && path + [SLASH] + [DOT] == path + [47, 46];
    var st := Walked([], Pieces(cwd, path), cap);
    if st.Some? {
      OneMore(cwd, path, [], cap, st.value);
      OneMore(cwd, path, [DOT], cap, st.value);
    } else {
      FailedStays(cwd, path, [], cap);
      FailedStays(cwd, path, [DOT], cap);
    }
  }

  lemma FailedStays(cwd: seq<u8>, path: seq<u8>, more: seq<u8>, cap: nat)
    requires path != [] && !Absolute(more) && Walked([], Pieces(cwd, path), cap) == None
    ensures Walked([], Pieces(cwd, path + [SLASH] + more), cap) == None
  {
    JoinedPieces(cwd, path, more, cap);
    WalkedAppend([], Pieces(cwd, path), Split(more), cap);
  }

  /** A plain name goes one level down: the name is appended behind a slash, unless that is longer than the
      buffer or a 65th component. */
  lemma DownRule(cwd: seq<u8>, path: seq<u8>, x: seq<u8>, cap: nat)
    requires path != [] && Resolved(cwd, path, cap).Some?
    requires x != [] && x != [46] && x != [46, 46] && 47 !in x
    ensures var dir := Resolved(cwd, path, cap).value;
            var longer := (if dir == [47] then [] else dir) + [47] + x;
            Resolved(cwd, path + [47] + x, cap) ==
            if |longer| <= cap && |Comps(dir)| < 64 then Some(longer) else None
  {
    var st := ResolvedStack(cwd, path, cap);
    OneMore(cwd, path, x, cap, st);
    CompsOfText(st);
    assert (st + [x])[..|st|] == st;
    if st != [] {
      TextLonger(st);
    }
  }

  lemma TextLonger(st: Stack)
    requires st != [] && Names(st)
    ensures Text(st) != [SLASH]
  {
  }

  /** ".." cuts the result at its last slash; at the root it stays there. */
  lemma UpRule(cwd: seq<u8>, path: seq<u8>, base: seq<u8>, last: seq<u8>, cap: nat)
    requires path != [] && Resolved(cwd, path, cap) == Some(base + [47] + last) && 47 !in last
    ensures Resolved(cwd, path + [47, 46, 46], cap) == Some(if base == [] then [47] else base)
  {
    assert path + [47, 46, 46] == path + [SLASH] + [DOT, DOT];
    var st := ResolvedStack(cwd, path, cap);
    OneMore(cwd, path, [DOT, DOT], cap, st);
    if st == [] {
      assert |base + [47] + last| == 1 ==> base == [];
    } else {
      CutText(st, base, last);
    }
  }

  lemma CutText(st: Stack, base: seq<u8>, last: seq<u8>)
    requires st != [] && Names(st) && Text(st) == base + [SLASH] + last && SLASH !in last
    ensures Text(st[..|st| - 1]) == base && (base == [] <==> |st| == 1)
  {
    var n := |st| - 1;
    LastSlashUnique(Text(st[..n]), st[n], base, last);
    if n > 0 {
      TextStarts(st[..n]);
    }
  }

  lemma LastSlashUnique(a: seq<u8>, x: seq<u8>, b: seq<u8>, y: seq<u8>)
    requires a + [SLASH] + x == b + [SLASH] + y && SLASH !in x && SLASH !in y
    ensures a == b
  {
    var s := a + [SLASH] + x;
    assert s[|a|] == SLASH && s[|b|] == SLASH;
    assert forall i :: |a| < i < |s| ==> s[i] == x[i - |a| - 1];
    assert forall i :: |b| < i < |s| ==> s[i] == y[i - |b| - 1];
    assert |a| == |b|;
    assert a == s[..|a|] && b == s[..|b|];
  }

  /** A step into a name that fits is undone by ".." behind it. */
  lemma UndoRule(cwd: seq<u8>, path: seq<u8>, x: seq<u8>, cap: nat)
    requires path != [] && Resolved(cwd, path + [47] + x, cap).Some?
    requires x != [] && x != [46] && x != [46, 46] && 47 !in x
    ensures Resolved(cwd, path + [47] + x + [47, 46, 46], cap) == Resolved(cwd, path, cap)
  {
    TwoSteps(cwd, path, x, cap);
    DownRule(cwd, path, x, cap);
    var dir := Resolved(cwd, path, cap).value;
    UpRule(cwd, path + [47] + x, if dir == [47] then [] else dir, x, cap);
    var st := ResolvedStack(cwd, path, cap);
    if st != [] {
      TextStarts(st);
    }
  }

  // --- the code, in place ------------------------------------------------------------------------

  /** The buffer holds the text of the stack, and `ends` where each prefix of it ends. */
  ghost predicate Holds(out: seq<u8>, ends: seq<nat>, len: nat, depth: nat, st: Stack) {
    && |ends| == MAX_DEPTH && depth == |st| <= MAX_DEPTH && len == |Text(st)| <= |out| && out[..len] == Text(st)
    && forall k :: 0 <= k < depth ==> ends[k] == |Text(st[..k + 1])|
  }

  lemma {:induction false} TextPrefix(st: Stack, k: nat)
    requires k <= |st|
    ensures |Text(st[..k])| <= |Text(st)| && Text(st)[..|Text(st[..k])|] == Text(st[..k])
    decreases |st|
  {
    if k == |st| {
      assert st[..k] == st;
    } else {
      var n := |st| - 1;
      assert st[..n][..k] == st[..k];
      TextPrefix(st[..n], k);
    }
  }

  lemma HoldsPop(out: seq<u8>, ends: seq<nat>, len: nat, depth: nat, st: Stack)
    requires Holds(out, ends, len, depth, st) && depth > 0
    ensures Holds(out, ends, if depth > 1 then ends[depth - 2] else 0, depth - 1, st[..depth - 1])
  {
    TextPrefix(st, depth - 1);
    var st' := st[..depth - 1];
    forall k | 0 <= k < depth - 1 ensures ends[k] == |Text(st'[..k + 1])| {
      assert st'[..k + 1] == st[..k + 1];
    }
  }

  /** The buffer ends in a slash and the last name. */
  lemma TextTail(st: Stack, out: seq<u8>, len: nat)
    requires st != [] && len == |Text(st)| <= |out| && out[..len] == Text(st)
    ensures var cut := |Text(st[..|st| - 1])|;
            cut < len && out[cut] == SLASH && out[cut + 1..len] == st[|st| - 1]
  {
    var cut, text := |Text(st[..|st| - 1])|, Text(st);
    assert out[cut] == out[..len][cut] && out[cut + 1..len] == out[..len][cut + 1..];
  }

  lemma HoldsPush(out: seq<u8>, ends: seq<nat>, len: nat, depth: nat, st: Stack, c: seq<u8>, out': seq<u8>)
    requires Holds(out, ends, len, depth, st) && depth < MAX_DEPTH && len + 1 + |c| <= |out|
    requires out' == out[..len] + [SLASH] + c + out[len + 1 + |c|..]
    ensures Holds(out', ends[depth := len + 1 + |c|], len + 1 + |c|, depth + 1, st + [c])
    ensures |Text(st + [c])| == len + 1 + |c|
  {
    var st' := st + [c];
    assert st'[..|st|] == st;
    assert out'[..len + 1 + |c|] == Text(st');
    forall k | 0 <= k < depth ensures ends[k] == |Text(st'[..k + 1])| {
      assert st'[..k + 1] == st[..k + 1];
    }
    assert st'[..depth + 1] == st';
  }

  /** The loop body of `resolve`; `ok` is false when a limit is hit. */
  method Component(out: array<u8>, ends: array<nat>, len: nat, depth: nat, c: seq<u8>, ghost st: Stack)
    returns (ok: bool, len': nat, depth': nat)
    requires Holds(out[..], ends[..], len, depth, st) && SLASH !in c
    modifies out, ends
    ensures ok <==> !(|Enter(st, c)| > |st| && !Fits(Enter(st, c), out.Length))
    ensures ok ==> Holds(out[..], ends[..], len', depth', Enter(st, c))
    ensures c == [] || c == [46] ==> ok && len' == len && depth' == depth && out[..] == old(out[..])
    ensures c == [46, 46] ==> ok && depth' == (if depth == 0 then 0 else depth - 1) && out[..] == old(out[..])
    ensures c == [46, 46] && depth > 0 && 47 !in st[depth - 1] ==>
              len' < len && out[len'] == 47 && 47 !in out[len' + 1..len]
    ensures c != [] && c != [46] && c != [46, 46] ==>
              (ok <==> depth < 64 && len + 1 + |c| <= out.Length) &&
              (ok ==> len' == len + 1 + |c| && depth' == depth + 1 && out[..len'] == old(out[..len]) + [47] + c)
  {
    ok, len', depth' := true, len, depth;
    if c == [] || IsDot(c) {
    } else if IsDotDot(c) {
      if depth > 0 {
        TextTail(st, out[..], len);
        HoldsPop(out[..], ends[..], len, depth, st);
        depth' := depth - 1;
        len' := if depth' > 0 then ends[depth' - 1] else 0;
      }
    } else {
      assert Enter(st, c) == st + [c] && (st + [c])[..|st|] == st;
      ok := depth < MAX_DEPTH && len + 1 + |c| <= out.Length;
      if ok {
        PushName(out, ends, len, depth, c, st);
        len', depth' := len + 1 + |c|, depth + 1;
      }
    }
  }

  /** The name and where it ends. */
  method PushName(out: array<u8>, ends: array<nat>, len: nat, depth: nat, c: seq<u8>, ghost st: Stack)
    requires Holds(out[..], ends[..], len, depth, st) && depth < MAX_DEPTH && len + 1 + |c| <= out.Length
    modifies out, ends
    ensures Holds(out[..], ends[..], len + 1 + |c|, depth + 1, st + [c])
    ensures |Text(st + [c])| == len + 1 + |c|
    ensures out[..len + 1 + |c|] == old(out[..len]) + [SLASH] + c
  {
    HoldsPush(out[..], ends[..], len, depth, st, c, out[..len] + [SLASH] + c + out[len + 1 + |c|..]);
    PutName(out, len, c);
    ends[depth] := len + 1 + |c|;
  }

  /** The slash and the copy of the name. */
  method PutName(out: array<u8>, len: nat, c: seq<u8>)
    requires len + 1 + |c| <= out.Length
    modifies out
    ensures out[..] == old(out[..len]) + [SLASH] + c + old(out[len + 1 + |c|..])
  {
    out[len] := SLASH;
    for i := 0 to |c|
      invariant out[..len] == old(out[..len]) && out[len] == SLASH
      invariant forall k :: 0 <= k < i ==> out[len + 1 + k] == c[k]
      invariant out[len + 1 + |c|..] == old(out[len + 1 + |c|..])
    {
      out[len + 1 + i] := c[i];
    }
    assert out[len + 1..len + 1 + |c|] == c;
    assert out[..] == out[..len] + [out[len]] + out[len + 1..len + 1 + |c|] + out[len + 1 + |c|..];
  }

  /** One of the two sources, piece by piece. */
  method Feed(out: array<u8>, ends: array<nat>, len: nat, depth: nat, pieces: seq<seq<u8>>, ghost st: Stack)
    returns (ok: bool, len': nat, depth': nat)
    requires Holds(out[..], ends[..], len, depth, st) && forall i :: 0 <= i < |pieces| ==> SLASH !in pieces[i]
    modifies out, ends
    ensures ok <==> Walked(st, pieces, out.Length).Some?
    ensures ok ==> Holds(out[..], ends[..], len', depth', Walked(st, pieces, out.Length).value)
  {
    ok, len', depth' := true, len, depth;
    ghost var cur := st;
    for i := 0 to |pieces|
      invariant Holds(out[..], ends[..], len', depth', cur)
      invariant Walked(st, pieces, out.Length) == Walked(cur, pieces[i..], out.Length)
      invariant ok
    {
      assert pieces[i..][1..] == pieces[i + 1..];
      ok, len', depth' := Component(out, ends, len', depth', pieces[i], cur);
      if !ok {
        return;
      }
      cur := Enter(cur, pieces[i]);
    }
  }

  /** `resolve`: writes exactly the resolved path, or refuses exactly when a limit is hit. */
  method Resolve(cwd: seq<u8>, path: seq<u8>, out: array<u8>) returns (r: Option<nat>)
    modifies out
    ensures r.Some? <==> Resolved(cwd, path, out.Length).Some?
    ensures r.Some? ==> r.value <= out.Length && out[..r.value] == Resolved(cwd, path, out.Length).value
  {
    var ends := new nat[MAX_DEPTH](_ => 0);
    var first := if Absolute(path) then [] else cwd;
    WalkedAppend([], Split(first), Split(path), out.Length);
    var ok, len, depth := Feed(out, ends, 0, 0, Split(first), []);
    if !ok {
      return None;
    }
    ok, len, depth := Feed(out, ends, len, depth, Split(path), Walked([], Split(first), out.Length).value);
    if !ok {
      return None;
    }
    ghost var st := Walked([], Pieces(cwd, path), out.Length).value;
    if len == 0 {
      assert st == [];
      if out.Length == 0 {
        return None;
      }
      out[0] := SLASH;
      return Some(1);
    }
    return Some(len);
  }
}
